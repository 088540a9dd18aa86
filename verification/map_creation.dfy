/** `GameModel.CreateMap` and its private `Shuffle`: fill a `width` by
    `height` grid centred on the origin, choosing for each cell the first kind
    of a freshly shuffled list that completes no three-in-a-row. */
module MapCreation {
  import opened Wrappers
  import opened Geometry
  import opened TileDescriptions
  import opened TileModels
  import opened GameState
  import opened MatchDetection

  /** Exchange the items at `i` and `j`, as the shuffle's tuple assignment
      does. */
  function Exchange<T>(items: seq<T>, i: int, j: int): (r: seq<T>)
    requires 0 <= i < |items| && 0 <= j < |items|
    ensures |r| == |items|
    ensures r[i] == items[j] && r[j] == items[i]
    ensures forall k | 0 <= k < |items| && k != i && k != j :: r[k] == items[k]
    ensures multiset(r) == multiset(items)
  {
    items[i := items[j]][j := items[i]]
  }

  /** The draws `Random.Range(0, count)` hands out, numbered from 0: each
      lies in `[0, count)`. */
  ghost predicate DrawsInRange(draw: nat -> int, count: int) {
    forall k: nat :: 0 <= draw(k) < count
  }

  /** `Shuffle` from step `i` on: step `i` exchanges item `i` with the item
      at the drawn index `draw(base + i)`. */
  function ShuffleFrom<T>(items: seq<T>, draw: nat -> int, base: nat, i: nat): seq<T>
    requires i <= |items|
    requires |items| > 0 ==> DrawsInRange(draw, |items|)
    decreases |items| - i
  {
    if i == |items| then items
    else ShuffleFrom(Exchange(items, i, draw(base + i)), draw, base, i + 1)
  }

  /** Every step is an exchange, so the shuffle rearranges the items and
      neither loses nor duplicates one. */
  lemma {:induction false} ShuffleFromPermutes<T>(items: seq<T>, draw: nat -> int, base: nat, i: nat)
    requires i <= |items|
    requires |items| > 0 ==> DrawsInRange(draw, |items|)
    ensures |ShuffleFrom(items, draw, base, i)| == |items|
    ensures multiset(ShuffleFrom(items, draw, base, i)) == multiset(items)
    decreases |items| - i
  {
    if i < |items| {
      ShuffleFromPermutes(Exchange(items, i, draw(base + i)), draw, base, i + 1);
    }
  }

  /** `Shuffle(items)`, consuming the draws `base .. base + |items| - 1`. */
  function Shuffle<T>(items: seq<T>, draw: nat -> int, base: nat): (r: seq<T>)
    requires |items| > 0 ==> DrawsInRange(draw, |items|)
    ensures |r| == |items|
    ensures multiset(r) == multiset(items)
  {
    ShuffleFromPermutes(items, draw, base, 0);
    ShuffleFrom(items, draw, base, 0)
  }

  /** One pass of the inner `foreach`: `CreateTile(c, d)` followed by
      `FindMatch(c)`; the second component says the kind was kept, that is,
      `FindMatch` found nothing. */
  function TryKind(g: Game, c: Vec, d: TileDescription): (r: (Game, bool))
    ensures r.0 == g.(board := g.board[c := TileModel(g.tileIds, d, c)], toCheck := [], tileIds := g.tileIds + 1)
    ensures r.1 ==> WindowsClear(r.0.board, c)
    ensures g.toCheck == [] ==> (r.1 <==> !Rejects(g.board, c, d))
    ensures Consistent(g) ==> Consistent(r.0)
  {
    var created := CreateTile(g, c, Some(d), 0);
    assert created.0.board == g.board[c := TileModel(g.tileIds, d, c)];
    MatchIgnoresIdentity(g.board, c, created.1);
    var fm := FindMatch(created.0, c);
    (fm.game, !fm.found)
  }

  /** Writing `c` twice keeps only the second write. */
  lemma OverwriteTwice(board: map<Vec, TileModel>, c: Vec, t1: TileModel, t2: TileModel)
    ensures board[c := t1][c := t2] == board[c := t2]
  {
  }

  /** Whether a kind completes a window at `c` does not depend on the tile
      `c` held before. */
  lemma RejectsOverwritten(board: map<Vec, TileModel>, c: Vec, t: TileModel, d: TileDescription)
    ensures Rejects(board[c := t], c, d) <==> Rejects(board, c, d)
  {
    OverwriteTwice(board, c, t, TileModel(0, d, c));
  }

  /** Each of the first `n` kinds of `descs` completes a window at `c`. */
  ghost predicate FirstRejected(board: map<Vec, TileModel>, c: Vec, descs: seq<TileDescription>, n: int)
    requires 0 <= n <= |descs|
  {
    forall j | 0 <= j < n :: Rejects(board, c, descs[j])
  }

  lemma FirstRejectedExtend(board: map<Vec, TileModel>, c: Vec, descs: seq<TileDescription>, n: int)
    requires 0 <= n < |descs|
    requires FirstRejected(board, c, descs, n) && Rejects(board, c, descs[n])
    ensures FirstRejected(board, c, descs, n + 1)
  {
  }

  /** The state of the inner `foreach` after `i` passes: `last` is the
      tile created by the latest pass and `found` says it was kept. */
  ghost predicate PlaceInvariant(g: Game, c: Vec, descs: seq<TileDescription>, i: int, r: Game, found: bool, last: TileModel) {
    && 0 <= i <= |descs|
    && r == g.(board := r.board, toCheck := r.toCheck, tileIds := r.tileIds)
    && r.tileIds == g.tileIds + i
    && (i == 0 ==> r == g && !found)
    && (i > 0 ==> r.toCheck == [] && r.board == g.board[c := last] && last.position == c && last.description == descs[i - 1])
    && (found ==> WindowsClear(r.board, c))
    && (g.toCheck == [] && !found ==> FirstRejected(g.board, c, descs, i))
    && (g.toCheck == [] && found ==> i > 0 && FirstRejected(g.board, c, descs, i - 1) && !Rejects(g.board, c, descs[i - 1]))
    && (Consistent(g) ==> Consistent(r))
  }

  /** One more pass of the inner `foreach` keeps its invariant. */
  lemma PlaceStep(g: Game, c: Vec, descs: seq<TileDescription>, i: int, r: Game, last: TileModel)
    requires i < |descs| && PlaceInvariant(g, c, descs, i, r, false, last)
    ensures PlaceInvariant(g, c, descs, i + 1, TryKind(r, c, descs[i]).0, TryKind(r, c, descs[i]).1,
                           TileModel(r.tileIds, descs[i], c))
  {
    var next := TileModel(r.tileIds, descs[i], c);
    if i > 0 {
      RejectsOverwritten(g.board, c, last, descs[i]);
      OverwriteTwice(g.board, c, last, next);
    }
    var tried := TryKind(r, c, descs[i]);
    assert tried.0.board == g.board[c := next];
    if g.toCheck == [] && !tried.1 {
      FirstRejectedExtend(g.board, c, descs, i);
    }
  }

  /** When the inner `foreach` stops, the kept kind is the first acceptable
      one, and none is acceptable when no kind was kept. */
  lemma PlaceDone(g: Game, c: Vec, descs: seq<TileDescription>, i: int, r: Game, found: bool, last: TileModel)
    requires PlaceInvariant(g, c, descs, i, r, found, last)
    requires i == |descs| || found
    ensures |descs| > 0 ==> c in r.board && r.board == g.board[c := r.board[c]]
    ensures |descs| > 0 ==> r.board[c].position == c && r.board[c].description in descs
    ensures !found && |descs| > 0 ==> r.board[c].description == descs[|descs| - 1]
    ensures g.toCheck == [] ==>
      (found <==> exists j | 0 <= j < |descs| :: !Rejects(g.board, c, descs[j]))
    ensures g.toCheck == [] && found ==> exists j | 0 <= j < |descs| ::
      && r.board[c].description == descs[j]
      && forall k | 0 <= k < j :: Rejects(g.board, c, descs[k])
  {
    if g.toCheck == [] && found {
      assert r.board[c].description == descs[i - 1];
    }
  }

  /** The inner `foreach` of `CreateMap` for cell `c`: create a tile of each
      kind in turn at `c` and stop at the first one that completes no window;
      when every kind completes one, the last one created stays. */
  method PlaceCell(g: Game, c: Vec, descs: seq<TileDescription>) returns (r: Game, found: bool)
    ensures r == g.(board := r.board, toCheck := r.toCheck, tileIds := r.tileIds)
    ensures |descs| == 0 ==> r == g && !found
    ensures |descs| > 0 ==> r.toCheck == []
    ensures |descs| > 0 ==> c in r.board && r.board == g.board[c := r.board[c]]
    ensures |descs| > 0 ==> r.board[c].position == c && r.board[c].description in descs
    ensures g.tileIds <= r.tileIds <= g.tileIds + |descs|
    ensures found ==> WindowsClear(r.board, c)
    ensures !found && |descs| > 0 ==> r.board[c].description == descs[|descs| - 1]
    ensures g.toCheck == [] ==>
      (found <==> exists j | 0 <= j < |descs| :: !Rejects(g.board, c, descs[j]))
    ensures g.toCheck == [] && found ==> exists j | 0 <= j < |descs| ::
      && r.board[c].description == descs[j]
      && forall k | 0 <= k < j :: Rejects(g.board, c, descs[k])
    ensures Consistent(g) ==> Consistent(r)
  {
    r, found := g, false;
    var i := 0;
    ghost var last := TileModel(0, Circle, c);
    while i < |descs| && !found
      invariant PlaceInvariant(g, c, descs, i, r, found, last)
      decreases |descs| - i
    {
      PlaceStep(g, c, descs, i, r, last);
      var tried := TryKind(r, c, descs[i]);
      r, found, last := tried.0, tried.1, TileModel(r.tileIds, descs[i], c);
      i := i + 1;
    }
    PlaceDone(g, c, descs, i, r, found, last);
  }

  /** Cell `c` is visited by `CreateMap(width, height)`: it is `(x, y)`
      minus the centre shift for some `0 <= x < width`, `0 <= y < height`. */
  predicate InGrid(c: Vec, width: int, height: int) {
    0 <= c.x + Half(width) < width && 0 <= c.y + Half(height) < height
  }

  /** Cell `c` is visited before iteration `(x, y)`: the outer loop runs
      over columns, the inner one over rows. */
  predicate VisitedBefore(c: Vec, width: int, height: int, x: int, y: int) {
    && InGrid(c, width, height)
    && (c.x + Half(width) < x || (c.x + Half(width) == x && c.y + Half(height) < y))
  }

  /** The occupied cells are those of `start` plus the visited ones. */
  ghost predicate OccupiedAfter(board: map<Vec, TileModel>, start: map<Vec, TileModel>, width: int, height: int, x: int, y: int) {
    forall k :: k in board <==> (k in start || VisitedBefore(k, width, height, x, y))
  }

  /** Tiles outside the grid are left as they were. */
  ghost predicate OutsideKept(board: map<Vec, TileModel>, start: map<Vec, TileModel>, width: int, height: int) {
    forall k | k in start && !InGrid(k, width, height) :: k in board && board[k] == start[k]
  }

  /** Of four distinct kinds, at most two can be rejected next to an empty
      right and upper neighbour, so a shuffle of the four built-in kinds
      always holds an acceptable one. */
  lemma SomeKindAccepted(board: map<Vec, TileModel>, c: Vec, descs: seq<TileDescription>)
    requires multiset(descs) == multiset(Descriptions)
    requires Vec(c.x + 1, c.y) !in board && Vec(c.x, c.y + 1) !in board
    ensures exists j | 0 <= j < |descs| :: !Rejects(board, c, descs[j])
  {
    assert Circle in multiset(descs) && Triangle in multiset(descs) && Square in multiset(descs);
    BackwardWindowsOnly(board, c, Circle);
    BackwardWindowsOnly(board, c, Triangle);
    BackwardWindowsOnly(board, c, Square);
    DescriptionIdsDistinct();
    var d :| d in descs && (d == Circle || d == Triangle || d == Square) && !Rejects(board, c, d);
    var j :| 0 <= j < |descs| && descs[j] == d;
  }

  /** Iteration `(x, y)` of `CreateMap` extends the occupied set by its cell
      and, on a board that started empty, always keeps a kind and keeps the
      board free of three-in-a-rows. */
  lemma ColumnStep(before: Game, r: Game, found: bool, c: Vec, descs: seq<TileDescription>,
                   start: map<Vec, TileModel>, width: int, height: int, x: int, y: int, startsEmpty: bool)
    requires 0 <= x < width && 0 <= y < height
    requires c == Vec(x - Half(width), y - Half(height))
    requires multiset(descs) == multiset(Descriptions)
    requires OccupiedAfter(before.board, start, width, height, x, y)
    requires OutsideKept(before.board, start, width, height)
    requires startsEmpty ==> start == map[] && before.toCheck == [] && NoThreeInRow(before.board)
    requires c in r.board && r.board == before.board[c := r.board[c]]
    requires found ==> WindowsClear(r.board, c)
    requires before.toCheck == [] ==>
      (found <==> exists j | 0 <= j < |descs| :: !Rejects(before.board, c, descs[j]))
    ensures OccupiedAfter(r.board, start, width, height, x, y + 1)
    ensures OutsideKept(r.board, start, width, height)
    ensures startsEmpty ==> found && NoThreeInRow(r.board)
  {
    if startsEmpty {
      CellCompletesRowOrColumnLast(before.board, start, width, height, x, y, c);
      SomeKindAccepted(before.board, c, descs);
      PlacementKeepsNoThreeInRow(before.board, c, r.board[c]);
    }
    OccupiedStep(before.board, r.board, start, width, height, x, y, c);
  }

  /** One iteration `(x, y)` of `CreateMap`: shuffle the kinds, place the
      cell and report it when no kind could be kept. */
  method VisitCell(g: Game, start: map<Vec, TileModel>, width: int, height: int, x: int, y: int,
                   descs: seq<TileDescription>, draw: nat -> int, drawn: nat, ghost startsEmpty: bool)
    returns (r: Game, descsOut: seq<TileDescription>, anomaly: seq<Vec>)
    requires 0 <= x < width && 0 <= y < height
    requires multiset(descs) == multiset(Descriptions)
    requires DrawsInRange(draw, |Descriptions|)
    requires OccupiedAfter(g.board, start, width, height, x, y)
    requires OutsideKept(g.board, start, width, height)
    requires startsEmpty ==> start == map[] && g.toCheck == [] && NoThreeInRow(g.board)
    ensures r == g.(board := r.board, toCheck := r.toCheck, tileIds := r.tileIds)
    ensures multiset(descsOut) == multiset(Descriptions)
    ensures OccupiedAfter(r.board, start, width, height, x, y + 1)
    ensures OutsideKept(r.board, start, width, height)
    ensures anomaly == [] || anomaly == [Vec(x - Half(width), y - Half(height))]
    ensures g.toCheck == [] ==>
      (anomaly == [] <==> exists j | 0 <= j < |descsOut| :: !Rejects(g.board, Vec(x - Half(width), y - Half(height)), descsOut[j]))
    ensures startsEmpty ==> r.toCheck == [] && NoThreeInRow(r.board) && anomaly == []
    ensures Consistent(g) ==> Consistent(r)
  {
    descsOut := Shuffle(descs, draw, drawn);
    var c := Vec(x, y).Minus(Vec(Half(width), Half(height)));
    var found;
    r, found := PlaceCell(g, c, descsOut);
    ColumnStep(g, r, found, c, descsOut, start, width, height, x, y, startsEmpty);
    anomaly := if found then [] else [c];
  }

  /** One run of the inner `for y` loop of `CreateMap` for column `x`. */
  method FillColumn(g: Game, start: map<Vec, TileModel>, width: int, height: int, x: int,
                    descs: seq<TileDescription>, draw: nat -> int, drawn: nat, ghost startsEmpty: bool)
    returns (r: Game, descsOut: seq<TileDescription>, drawnOut: nat, anomalies: seq<Vec>)
    requires 0 <= x < width
    requires multiset(descs) == multiset(Descriptions)
    requires DrawsInRange(draw, |Descriptions|)
    requires OccupiedAfter(g.board, start, width, height, x, 0)
    requires OutsideKept(g.board, start, width, height)
    requires startsEmpty ==> start == map[] && g.toCheck == [] && NoThreeInRow(g.board)
    ensures r == g.(board := r.board, toCheck := r.toCheck, tileIds := r.tileIds)
    ensures multiset(descsOut) == multiset(Descriptions)
    ensures drawnOut == drawn + |Descriptions| * (if height > 0 then height else 0)
    ensures OccupiedAfter(r.board, start, width, height, x + 1, 0)
    ensures OutsideKept(r.board, start, width, height)
    ensures forall a | a in anomalies :: InGrid(a, width, height)
    ensures startsEmpty ==> r.toCheck == [] && NoThreeInRow(r.board) && anomalies == []
    ensures Consistent(g) ==> Consistent(r)
  {
    r, descsOut, drawnOut, anomalies := g, descs, drawn, [];
    var y := 0;
    while y < height
      invariant 0 <= y && (height >= 0 ==> y <= height) && (height < 0 ==> y == 0)
      invariant r == g.(board := r.board, toCheck := r.toCheck, tileIds := r.tileIds)
      invariant multiset(descsOut) == multiset(Descriptions)
      invariant drawnOut == drawn + |Descriptions| * y
      invariant OccupiedAfter(r.board, start, width, height, x, y)
      invariant OutsideKept(r.board, start, width, height)
      invariant forall a | a in anomalies :: InGrid(a, width, height)
      invariant startsEmpty ==> r.toCheck == [] && NoThreeInRow(r.board) && anomalies == []
      invariant Consistent(g) ==> Consistent(r)
    {
      var anomaly;
      r, descsOut, anomaly := VisitCell(r, start, width, height, x, y, descsOut, draw, drawnOut, startsEmpty);
      assert forall a | a in anomaly :: InGrid(a, width, height);
      anomalies := anomalies + anomaly;
      drawnOut := drawnOut + |Descriptions|;
      y := y + 1;
    }
    ColumnDone(r.board, start, width, height, x, y);
  }

  /** In a grid filled from an empty board, the cells right of and above the
      next cell are still empty. */
  lemma CellCompletesRowOrColumnLast(board: map<Vec, TileModel>, start: map<Vec, TileModel>,
                                     width: int, height: int, x: int, y: int, c: Vec)
    requires start == map[]
    requires OccupiedAfter(board, start, width, height, x, y)
    requires c == Vec(x - Half(width), y - Half(height))
    ensures Vec(c.x + 1, c.y) !in board && Vec(c.x, c.y + 1) !in board
  {
    assert !VisitedBefore(Vec(c.x + 1, c.y), width, height, x, y);
    assert !VisitedBefore(Vec(c.x, c.y + 1), width, height, x, y);
  }

  /** Placing the tile of iteration `(x, y)` advances the occupied set by
      that one cell and leaves tiles outside the grid alone. */
  lemma OccupiedStep(board: map<Vec, TileModel>, next: map<Vec, TileModel>, start: map<Vec, TileModel>,
                     width: int, height: int, x: int, y: int, c: Vec)
    requires 0 <= x < width && 0 <= y < height
    requires c == Vec(x - Half(width), y - Half(height))
    requires OccupiedAfter(board, start, width, height, x, y)
    requires OutsideKept(board, start, width, height)
    requires c in next && next == board[c := next[c]]
    ensures OccupiedAfter(next, start, width, height, x, y + 1)
    ensures OutsideKept(next, start, width, height)
  {
    forall k
      ensures k in next <==> (k in start || VisitedBefore(k, width, height, x, y + 1))
    {
      assert VisitedBefore(k, width, height, x, y + 1) <==> (VisitedBefore(k, width, height, x, y) || k == c);
    }
  }

  /** A finished column counts as visited up to the start of the next. */
  lemma ColumnDone(board: map<Vec, TileModel>, start: map<Vec, TileModel>, width: int, height: int, x: int, rows: int)
    requires rows == if height > 0 then height else 0
    requires OccupiedAfter(board, start, width, height, x, rows)
    ensures OccupiedAfter(board, start, width, height, x + 1, 0)
  {
    forall k
      ensures VisitedBefore(k, width, height, x, rows) <==> VisitedBefore(k, width, height, x + 1, 0)
    {
    }
  }

  /** `CreateMap(width, height)`. The centre shift is `(width / 2,
      height / 2)` with C#'s truncating division; `Max` is the shift minus
      one, `Min` its negation and `Center` the shift itself. `Random.Range`
      is the oracle `draw`, of which each cell's shuffle consumes four
      values. The cells whose every kind completes a window are returned in
      `anomalies`, in the order `Debug.LogError` reports them. */
  method CreateMap(g: Game, width: int, height: int, draw: nat -> int) returns (r: Game, anomalies: seq<Vec>)
    requires DrawsInRange(draw, |Descriptions|)
    ensures r.min == Vec(-Half(width), -Half(height))
    ensures r.max == Vec(Half(width) - 1, Half(height) - 1)
    ensures r.center == Vec(Half(width), Half(height))
    ensures forall k :: k in r.board <==> (k in g.board || InGrid(k, width, height))
    ensures OutsideKept(r.board, g.board, width, height)
    ensures forall a | a in anomalies :: InGrid(a, width, height)
    ensures g.board == map[] && g.toCheck == [] ==> anomalies == [] && NoThreeInRow(r.board)
    ensures Consistent(g) ==> Consistent(r)
  {
    var shift := Vec(Half(width), Half(height));
    r := g.(max := shift.Minus(One), min := shift.Neg(), center := shift);
    anomalies := [];
    ghost var startsEmpty := g.board == map[] && g.toCheck == [];
    var descs := Descriptions;
    var drawn: nat := 0;
    var x := 0;
    NoThreeInRowIffWindowsClear(r.board);
    while x < width
      invariant 0 <= x && (width >= 0 ==> x <= width) && (width < 0 ==> x == 0)
      invariant r.min == Vec(-Half(width), -Half(height)) && r.max == Vec(Half(width) - 1, Half(height) - 1)
      invariant r.center == shift
      invariant multiset(descs) == multiset(Descriptions)
      invariant OccupiedAfter(r.board, g.board, width, height, x, 0)
      invariant OutsideKept(r.board, g.board, width, height)
      invariant forall a | a in anomalies :: InGrid(a, width, height)
      invariant startsEmpty ==> r.toCheck == [] && NoThreeInRow(r.board) && anomalies == []
      invariant Consistent(g) ==> Consistent(r)
    {
      var column;
      r, descs, drawn, column := FillColumn(r, g.board, width, height, x, descs, draw, drawn, startsEmpty);
      anomalies := anomalies + column;
      x := x + 1;
    }
    forall k
      ensures VisitedBefore(k, width, height, x, 0) <==> InGrid(k, width, height)
    {
    }
  }

  /** `lo <= k <= hi` in both coordinates. */
  predicate WithinBounds(k: Vec, lo: Vec, hi: Vec) {
    lo.x <= k.x <= hi.x && lo.y <= k.y <= hi.y
  }

  /** Every cell `CreateMap` fills lies between the `Min` and `Max` it sets
      exactly when both dimensions are even: for an odd dimension the last
      column or row lies one past `Max`, because `Max` is the centre shift
      minus one. */
  lemma GridWithinBoundsIffEven(width: int, height: int)
    requires width > 0 && height > 0
    ensures (forall k | InGrid(k, width, height) ::
               WithinBounds(k, Vec(-Half(width), -Half(height)), Vec(Half(width) - 1, Half(height) - 1)))
            <==> width % 2 == 0 && height % 2 == 0
  {
    var lo, hi := Vec(-Half(width), -Half(height)), Vec(Half(width) - 1, Half(height) - 1);
    if width % 2 != 0 {
      var k := Vec(width - 1 - Half(width), -Half(height));
      assert InGrid(k, width, height) && !WithinBounds(k, lo, hi);
    } else if height % 2 != 0 {
      var k := Vec(-Half(width), height - 1 - Half(height));
      assert InGrid(k, width, height) && !WithinBounds(k, lo, hi);
    }
  }
}
