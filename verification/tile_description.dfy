/** `TileDescription`: an immutable tile kind, and the static registry that
    the four built-in kinds are added to when the class is initialised. */
module TileDescriptions {
  import opened Wrappers
  import opened TileDescriptionIds

  /** The constructor stores both arguments unchanged. */
  datatype TileDescription = TileDescription(id: TileDescriptionId, isBonus: bool)

  /** The two static collections: `TileDescriptions` (by id) and
      `Descriptions` (in registration order). */
  datatype Registry = Registry(byId: map<TileDescriptionId, TileDescription>, list: seq<TileDescription>)

  /** `Dictionary.Add` throws on a key that is already present. */
  datatype RegistryError = DuplicateId(id: TileDescriptionId)

  const EmptyRegistry: Registry := Registry(map[], [])

  const Circle: TileDescription := TileDescription(TileDescriptionId(Some("Tile.Circle")), false)
  const Triangle: TileDescription := TileDescription(TileDescriptionId(Some("Tile.Triangle")), false)
  const Square: TileDescription := TileDescription(TileDescriptionId(Some("Tile.Square")), false)
  const Hexagon: TileDescription := TileDescription(TileDescriptionId(Some("Tile.Hexagon")), false)

  /** `Descriptions` once the class is initialised. */
  const Descriptions: seq<TileDescription> := [Circle, Triangle, Square, Hexagon]

  /** Both collections describe the same kinds: every listed kind is stored
      under its own id, the ids are pairwise distinct, and the dictionary holds
      nothing else. */
  ghost predicate WellFormed(reg: Registry) {
    && (forall i | 0 <= i < |reg.list| :: reg.list[i].id in reg.byId && reg.byId[reg.list[i].id] == reg.list[i])
    && (forall i, j | 0 <= i < j < |reg.list| :: reg.list[i].id != reg.list[j].id)
    && (forall k | k in reg.byId :: reg.byId[k].id == k)
    && |reg.byId| == |reg.list|
  }

  /** `Add(tileId, isBonus)`: build the description, add it to the
      dictionary (which throws on a duplicate id, leaving both collections as
      they were) and then append it to the list. */
  function Add(reg: Registry, tileId: Option<string>, isBonus: bool): (r: Result<(Registry, TileDescription), RegistryError>)
    ensures r.Failure? <==> TileDescriptionId(tileId) in reg.byId
    ensures r.Success? ==> r.value.1 == TileDescription(TileDescriptionId(tileId), isBonus)
    ensures r.Success? ==> r.value.0.list == reg.list + [r.value.1]
    ensures r.Success? ==> r.value.0.byId == reg.byId[r.value.1.id := r.value.1]
    ensures r.Success? && WellFormed(reg) ==> WellFormed(r.value.0)
  {
    var description := TileDescription(TileDescriptionId(tileId), isBonus);
    if description.id in reg.byId then
      Failure(DuplicateId(description.id))
    else
      var byId := reg.byId[description.id := description];
      var list := reg.list + [description];
      assert byId.Keys == reg.byId.Keys + {description.id};
      assert WellFormed(reg) ==> (forall i | 0 <= i < |reg.list| :: reg.list[i].id != description.id);
      Success((Registry(byId, list), description))
  }

  /** The static initialisers, in declaration order.  Whenever they all
      succeed, the two collections agree and hold one kind per initialiser. */
  function Initialise(): (r: Result<Registry, RegistryError>)
    ensures r.Success? ==> WellFormed(r.value) && |r.value.list| == 4
  {
    match Add(EmptyRegistry, Some("Tile.Circle"), false)
    case Failure(e) => Failure(e)
    case Success(circle) =>
      match Add(circle.0, Some("Tile.Triangle"), false)
      case Failure(e) => Failure(e)
      case Success(triangle) =>
        match Add(triangle.0, Some("Tile.Square"), false)
        case Failure(e) => Failure(e)
        case Success(square) =>
          match Add(square.0, Some("Tile.Hexagon"), false)
          case Failure(e) => Failure(e)
          case Success(hexagon) => Success(hexagon.0)
  }

  /** Adding a kind whose id is not registered yet succeeds and extends both
      collections by exactly that kind. */
  lemma AddNew(reg: Registry, tileId: Option<string>, isBonus: bool, d: TileDescription)
    requires d == TileDescription(TileDescriptionId(tileId), isBonus)
    requires d.id !in reg.byId && WellFormed(reg)
    ensures Add(reg, tileId, isBonus) == Success((Registry(reg.byId[d.id := d], reg.list + [d]), d))
    ensures WellFormed(Registry(reg.byId[d.id := d], reg.list + [d]))
  {
  }

  /** The four built-in ids are pairwise distinct strings. */
  lemma BuiltinIdsDistinct()
    ensures Circle.id != Triangle.id && Circle.id != Square.id && Circle.id != Hexagon.id
    ensures Triangle.id != Square.id && Triangle.id != Hexagon.id && Square.id != Hexagon.id
  {
    assert "Tile.Circle"[5] == 'C' && "Tile.Triangle"[5] == 'T';
    assert "Tile.Square"[5] == 'S' && "Tile.Hexagon"[5] == 'H';
  }

  /** The registry the static initialisers build. */
  const Builtins: Registry :=
    Registry(map[Circle.id := Circle, Triangle.id := Triangle, Square.id := Square, Hexagon.id := Hexagon], Descriptions)

  /** The four registrations one at a time: none meets a duplicate, and the
      registry stays well formed after each. */
  lemma InitialiseStages()
    ensures Initialise() == Success(Builtins)
    ensures WellFormed(Builtins)
  {
    var r1 := Registry(map[Circle.id := Circle], [Circle]);
    var r2 := Registry(r1.byId[Triangle.id := Triangle], [Circle, Triangle]);
    var r3 := Registry(r2.byId[Square.id := Square], [Circle, Triangle, Square]);
    BuiltinIdsDistinct();
    assert WellFormed(EmptyRegistry);
    AddNew(EmptyRegistry, Some("Tile.Circle"), false, Circle);
    assert EmptyRegistry.list + [Circle] == r1.list;
    AddNew(r1, Some("Tile.Triangle"), false, Triangle);
    assert r1.list + [Triangle] == r2.list;
    AddNew(r2, Some("Tile.Square"), false, Square);
    assert r2.list + [Square] == r3.list;
    AddNew(r3, Some("Tile.Hexagon"), false, Hexagon);
    assert r3.list + [Hexagon] == Builtins.list;
  }

  /** The built-in registry holds exactly the four listed kinds, none a bonus. */
  lemma BuiltinsContents()
    ensures |Builtins.byId| == 4 && |Builtins.list| == 4
    ensures forall k | k in Builtins.byId :: Builtins.byId[k] in Descriptions
    ensures forall i | 0 <= i < |Descriptions| :: !Descriptions[i].isBonus
  {
    BuiltinIdsDistinct();
    assert Builtins.byId.Keys == {Circle.id, Triangle.id, Square.id, Hexagon.id};
    forall k | k in Builtins.byId
      ensures Builtins.byId[k] in Descriptions
    {
      assert k == Circle.id || k == Triangle.id || k == Square.id || k == Hexagon.id;
    }
  }

  /** Initialisation never throws; it registers Circle, Triangle, Square and
      Hexagon in that order, none of them a bonus, each stored under its own
      distinct id, four entries in each collection. */
  lemma InitialiseRegistersBuiltins()
    ensures Initialise().Success?
    ensures Initialise().value.list == Descriptions
    ensures WellFormed(Initialise().value)
    ensures |Initialise().value.byId| == 4 && |Initialise().value.list| == 4
    ensures forall k | k in Initialise().value.byId :: Initialise().value.byId[k] in Descriptions
    ensures forall i | 0 <= i < |Descriptions| :: !Descriptions[i].isBonus
  {
    InitialiseStages();
    BuiltinsContents();
  }

  /** The built-in kinds have pairwise distinct ids. */
  lemma DescriptionIdsDistinct()
    ensures forall i, j | 0 <= i < j < |Descriptions| :: Descriptions[i].id != Descriptions[j].id
  {
    InitialiseRegistersBuiltins();
  }
}
