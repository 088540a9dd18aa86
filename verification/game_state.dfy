/** The state of `GameModel`: the position-to-tile dictionary, the private
    `_tilesToCheck` list, the `_tileIds` counter and the `Min`/`Max`/`Center`
    bounds, together with `CreateTile` and the `TilesFrame` struct. */
module GameState {
  import opened Wrappers
  import opened Geometry
  import opened TileDescriptions
  import opened TileModels

  /** Three cells to compare; the struct's constructor steps from an origin
      along a direction. */
  datatype TilesFrame = TilesFrame(pos1: Vec, pos2: Vec, pos3: Vec) {

    /** All three cells lie in one column. */
    predicate IsVertical() {
      pos1.x == pos2.x && pos2.x == pos3.x
    }

    /** The column of `pos1` at the lowest of the three rows. */
    function GetMinY(): (r: Vec)
      ensures r.x == pos1.x
      ensures r.y <= pos1.y && r.y <= pos2.y && r.y <= pos3.y
      ensures r.y == pos1.y || r.y == pos2.y || r.y == pos3.y
    {
      var low := if pos2.y < pos3.y then pos2.y else pos3.y;
      Vec(pos1.x, if pos1.y < low then pos1.y else low)
    }
  }

  /** On a vertical frame the cell `GetMinY` picks is one of the three, so a
      vertical match collapses from inside the frame. */
  lemma VerticalMinYInFrame(f: TilesFrame)
    requires f.IsVertical()
    ensures f.GetMinY() == f.pos1 || f.GetMinY() == f.pos2 || f.GetMinY() == f.pos3
  {
  }

  /** `new TilesFrame(origin, direction)`: three cells starting at `origin`,
      each one `direction` beyond the last, vertical exactly when the
      direction has no horizontal part. */
  function FrameFrom(origin: Vec, direction: Vec): (r: TilesFrame)
    ensures r.pos1 == origin
    ensures r.pos2.Minus(r.pos1) == direction && r.pos3.Minus(r.pos2) == direction
    ensures r.IsVertical() <==> direction.x == 0
  {
    var second := origin.Plus(direction);
    TilesFrame(origin, second, second.Plus(direction))
  }

  /** `default(TilesFrame)`: every cell is `(0,0)`. */
  const DefaultFrame: TilesFrame := TilesFrame(Zero, Zero, Zero)

  datatype Game = Game(
    board: map<Vec, TileModel>,
    toCheck: seq<TilesFrame>,
    tileIds: int,
    min: Vec,
    max: Vec,
    center: Vec)

  /** A freshly constructed `GameModel`. */
  const NewGame: Game := Game(map[], [], 1, Zero, Zero, Zero)

  /** Each tile is stored under its own position. */
  ghost predicate KeyMatchesPosition(board: map<Vec, TileModel>) {
    forall p | p in board :: board[p].position == p
  }

  /** No tile occupies two cells. */
  ghost predicate IdsDistinct(board: map<Vec, TileModel>) {
    forall p, q | p in board && q in board && p != q :: board[p].id != board[q].id
  }

  /** Every tile id lies in `[1, next)`: the counter issued it. */
  ghost predicate IdsIssued(board: map<Vec, TileModel>, next: int) {
    forall p | p in board :: 1 <= board[p].id < next
  }

  /** The board is a bijection between occupied cells and tiles, and every
      tile id was issued by the counter, which starts at 1. */
  ghost predicate Consistent(g: Game) {
    && KeyMatchesPosition(g.board)
    && IdsDistinct(g.board)
    && g.tileIds >= 1
    && IdsIssued(g.board, g.tileIds)
  }

  /** The caller's handle `t` is the tile stored under its own position. */
  predicate OnBoard(board: map<Vec, TileModel>, t: TileModel) {
    t.position in board && board[t.position] == t
  }

  /** `PositionToTile.TryGetValue`, with null as `None`. */
  function Get(board: map<Vec, TileModel>, p: Vec): (r: Option<TileModel>)
    ensures r.Some? <==> p in board
    ensures r.Some? ==> r.value == board[p]
  {
    if p in board then Some(board[p]) else None
  }

  /** `CreateTile(pos, description)`: a null description is replaced by the
      built-in kind at index `roll` (`Random.Range(0, Count)`); the new tile
      takes the next id and is stored at `pos`, replacing any tile there. */
  function CreateTile(g: Game, pos: Vec, description: Option<TileDescription>, roll: int): (r: (Game, TileModel))
    requires description.None? ==> 0 <= roll < |Descriptions|
    ensures r.1.id == g.tileIds && r.0.tileIds == g.tileIds + 1
    ensures r.1.position == pos
    ensures description.Some? ==> r.1.description == description.value
    ensures description.None? ==> r.1.description == Descriptions[roll]
    ensures r.0 == g.(board := r.0.board, tileIds := r.0.tileIds)
    ensures r.0.board.Keys == g.board.Keys + {pos}
    ensures forall p | p in g.board && p != pos :: r.0.board[p] == g.board[p]
    ensures r.0.board[pos] == r.1
    ensures Consistent(g) ==> Consistent(r.0)
  {
    var kind := if description.Some? then description.value else Descriptions[roll];
    var model := TileModel(g.tileIds, kind, pos);
    (g.(board := g.board[pos := model], tileIds := g.tileIds + 1), model)
  }

  /** Emptying a cell keeps the board consistent and never adds tiles. */
  lemma RemoveConsistent(g: Game, p: Vec)
    ensures Consistent(g) ==> Consistent(g.(board := g.board - {p}))
    ensures |g.board - {p}| <= |g.board|
  {
    assert (g.board - {p}).Keys <= g.board.Keys;
  }

  /** Tile ids handed out by consecutive `CreateTile` calls strictly
      increase, starting at 1 on a new game. */
  lemma CreateTileIdsIncrease(g: Game, p: Vec, q: Vec, d: TileDescription, e: TileDescription)
    ensures CreateTile(g, p, Some(d), 0).1.id < CreateTile(CreateTile(g, p, Some(d), 0).0, q, Some(e), 0).1.id
    ensures CreateTile(NewGame, p, Some(d), 0).1.id == 1
  {
  }
}
