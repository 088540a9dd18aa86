/** Swapping two tiles in `GameModel`: `SwapModels`, the column collapse
    `MoveColumnDown`, and `Swap`, which keeps a swap that makes a match and
    rolls back one that does not. */
module SwapEngine {
  import opened Wrappers
  import opened Geometry
  import opened TileModels
  import opened GameState
  import opened MatchDetection
  import opened SwapResults

  const HorizontalStep: int := 1
  const VerticalStep: int := 3

  /** `SwapModels(a, b)`: store `b` under `a`'s cell and `a` under `b`'s, then
      exchange the two positions. */
  function SwapModels(board: map<Vec, TileModel>, a: TileModel, b: TileModel): (r: map<Vec, TileModel>)
    requires OnBoard(board, a) && OnBoard(board, b)
    ensures r.Keys == board.Keys
    ensures forall k | k in board && k != a.position && k != b.position :: r[k] == board[k]
    ensures r[a.position] == b.(position := a.position)
    ensures r[b.position] == a.(position := b.position)
    ensures OnBoard(r, a.(position := b.position)) && OnBoard(r, b.(position := a.position))
    ensures KeyMatchesPosition(board) ==> KeyMatchesPosition(r)
    ensures IdsDistinct(board) ==> IdsDistinct(r)
  {
    var withB := board[a.position := b.(position := a.position)];
    withB[b.position := a.(position := b.position)]
  }

  /** Swapping keeps the board consistent: the same tiles, ids and counter. */
  lemma SwapModelsConsistent(g: Game, a: TileModel, b: TileModel)
    requires OnBoard(g.board, a) && OnBoard(g.board, b)
    ensures Consistent(g) ==> Consistent(g.(board := SwapModels(g.board, a, b)))
  {
    var r := SwapModels(g.board, a, b);
    if Consistent(g) {
      forall k | k in r
        ensures 1 <= r[k].id < g.tileIds
      {
        if k == a.position {
        } else if k == b.position {
        } else {
        }
      }
    }
  }

  /** Swapping the same two tiles again, through their updated handles,
      restores the board exactly. */
  lemma {:induction false} SwapModelsInvolution(board: map<Vec, TileModel>, a: TileModel, b: TileModel)
    requires OnBoard(board, a) && OnBoard(board, b)
    ensures SwapModels(SwapModels(board, a, b), a.(position := b.position), b.(position := a.position)) == board
  {
    var once := SwapModels(board, a, b);
    var twice := SwapModels(once, a.(position := b.position), b.(position := a.position));
    assert twice.Keys == board.Keys;
    forall k | k in board
      ensures twice[k] == board[k]
    {
      if k == a.position {
        assert twice[k] == a;
      } else if k == b.position {
        assert twice[k] == b;
      } else {
        assert once[k] == board[k];
      }
    }
  }

  /** The `step` cells of column `hole.x` from `hole` upward are empty. */
  ghost predicate GapEmpty(board: map<Vec, TileModel>, hole: Vec, step: int) {
    forall k: Vec {:trigger k in board} | k.x == hole.x && hole.y <= k.y < hole.y + step :: k !in board
  }

  /** Cells that `MoveColumnDown(hole, ...)` never writes. */
  predicate OutsideColumnFrom(k: Vec, hole: Vec) {
    k.x != hole.x || k.y < hole.y
  }

  /** One iteration of the collapse: the tile at `from` moves into `hole`. */
  function ShiftInto(board: map<Vec, TileModel>, from: Vec, hole: Vec): (r: map<Vec, TileModel>)
    requires from in board
    ensures r.Keys == board.Keys - {from} + {hole}
    ensures r[hole] == board[from].(position := hole)
    ensures forall k | k in board && k != from && k != hole :: r[k] == board[k]
  {
    (board - {from})[hole := board[from].(position := hole)]
  }

  /** A shift keeps tiles under their own cells with distinct issued ids:
      it moves one tile and may drop the one it lands on. */
  lemma ShiftIntoConsistent(board: map<Vec, TileModel>, next: int, from: Vec, hole: Vec)
    requires from in board
    requires KeyMatchesPosition(board) && IdsDistinct(board) && IdsIssued(board, next)
    ensures var r := ShiftInto(board, from, hole);
      KeyMatchesPosition(r) && IdsDistinct(r) && IdsIssued(r, next)
  {
    var r := ShiftInto(board, from, hole);
    forall p | p in r
      ensures 1 <= r[p].id < next && r[p].position == p
    {
      if p == hole {
        assert r[p].id == board[from].id;
      }
    }
    forall p, q | p in r && q in r && p != q
      ensures r[p].id != r[q].id
    {
      var p0 := if p == hole then from else p;
      var q0 := if q == hole then from else q;
      assert r[p].id == board[p0].id && r[q].id == board[q0].id;
    }
  }

  /** A shift never adds a tile. */
  lemma ShiftIntoNoGrowth(board: map<Vec, TileModel>, from: Vec, hole: Vec)
    requires from in board
    ensures |ShiftInto(board, from, hole)| <= |board|
  {
    assert |board.Keys - {from}| == |board.Keys| - 1;
    assert ShiftInto(board, from, hole).Keys == (board.Keys - {from}) + {hole};
  }

  /** With an empty gap of `step` cells at the hole, a shift keeps the tile
      count and leaves an empty gap one row higher. */
  lemma ShiftIntoGap(board: map<Vec, TileModel>, hole: Vec, step: int)
    requires step >= 1
    requires Vec(hole.x, hole.y + step) in board
    requires GapEmpty(board, hole, step)
    ensures GapEmpty(ShiftInto(board, Vec(hole.x, hole.y + step), hole), Vec(hole.x, hole.y + 1), step)
    ensures |ShiftInto(board, Vec(hole.x, hole.y + step), hole)| == |board|
  {
    var next := Vec(hole.x, hole.y + step);
    var r := ShiftInto(board, next, hole);
    assert hole !in board;
    assert |board.Keys - {next}| == |board.Keys| - 1;
    assert r.Keys == (board.Keys - {next}) + {hole};
    forall k: Vec | k.x == hole.x && hole.y + 1 <= k.y < hole.y + 1 + step
      ensures k !in r
    {
      if k != next {
        assert k !in board;
      }
    }
  }

  datatype ColumnResult = ColumnResult(game: Game, finalHole: Vec)

  /** The loop of `MoveColumnDown` on the dictionary: while the hole is below
      row `top`, take the tile `step` rows above it, move it into the hole
      and raise the hole by one row; stop at the first empty probed cell.
      The hole rises every round, so the loop ends. */
  function Collapse(board: map<Vec, TileModel>, top: int, hole: Vec, step: int): (r: (map<Vec, TileModel>, Vec))
    ensures r.1.x == hole.x
    ensures hole.y <= r.1.y <= Max(hole.y, top)
    decreases top - hole.y
  {
    if hole.y < top then
      var next := Vec(hole.x, hole.y + step);
      if next in board then Collapse(ShiftInto(board, next, hole), top, Vec(hole.x, hole.y + 1), step)
      else (board, hole)
    else (board, hole)
  }

  /** Cell `(x, y)` of `after` holds the tile that sat `step` rows higher in
      `before`, moved down to `(x, y)`. */
  predicate MovedDown(after: map<Vec, TileModel>, before: map<Vec, TileModel>, x: int, y: int, step: int) {
    && Vec(x, y + step) in before
    && Vec(x, y) in after
    && after[Vec(x, y)] == before[Vec(x, y + step)].(position := Vec(x, y))
  }

  /** `MoveColumnDown(hole, isVerticalStep, out finalHole)`: the collapse up
      to `Max.y`, probing 3 rows up after a vertical match and 1 otherwise.
      Every row from the hole up to the final hole receives the tile from
      `step` rows above it, and a final hole below `Max.y` has an empty cell
      `step` rows above it. */
  function MoveColumnDown(g: Game, hole: Vec, isVerticalStep: bool): (r: ColumnResult)
    ensures r.finalHole.x == hole.x
    ensures hole.y <= r.finalHole.y <= Max(hole.y, g.max.y)
    ensures r.game == g.(board := r.game.board)
    ensures var step := if isVerticalStep then VerticalStep else HorizontalStep;
      r.finalHole.y < g.max.y ==> Vec(hole.x, r.finalHole.y + step) !in r.game.board
    ensures var step := if isVerticalStep then VerticalStep else HorizontalStep;
      forall y | hole.y <= y < r.finalHole.y :: MovedDown(r.game.board, g.board, hole.x, y, step)
  {
    var step := if isVerticalStep then VerticalStep else HorizontalStep;
    CollapseStopsAtGap(g.board, g.max.y, hole, step);
    CollapseMovesDown(g.board, g.max.y, hole, step);
    var c := Collapse(g.board, g.max.y, hole, step);
    ColumnResult(g.(board := c.0), c.1)
  }

  /** The collapse stops at once when the hole has reached `top` or the
      probed cell is empty. */
  lemma {:induction false} CollapseStops(board: map<Vec, TileModel>, top: int, hole: Vec, step: int)
    requires !(hole.y < top && Vec(hole.x, hole.y + step) in board)
    ensures Collapse(board, top, hole, step) == (board, hole)
  {
  }

  /** Otherwise one round moves the probed tile into the hole and goes on
      from the row above. */
  lemma {:induction false} CollapseStep(board: map<Vec, TileModel>, top: int, hole: Vec, step: int)
    requires hole.y < top && Vec(hole.x, hole.y + step) in board
    ensures Collapse(board, top, hole, step) ==
      Collapse(ShiftInto(board, Vec(hole.x, hole.y + step), hole), top, Vec(hole.x, hole.y + 1), step)
  {
    var next := Vec(hole.x, hole.y + step);
    assert next in board;
  }

  /** A collapse that ends below `top` ends at a final hole whose probed
      cell, `step` rows above, is empty. */
  lemma {:induction false} CollapseStopsAtGap(board: map<Vec, TileModel>, top: int, hole: Vec, step: int)
    ensures var r := Collapse(board, top, hole, step);
      r.1.y < top ==> Vec(hole.x, r.1.y + step) !in r.0
    decreases top - hole.y
  {
    var next := Vec(hole.x, hole.y + step);
    if hole.y < top && next in board {
      CollapseStep(board, top, hole, step);
      CollapseStopsAtGap(ShiftInto(board, next, hole), top, Vec(hole.x, hole.y + 1), step);
    } else {
      CollapseStops(board, top, hole, step);
    }
  }

  /** Every row from the hole up to the final hole receives the tile that
      sat `step` rows above it before the collapse. */
  lemma {:induction false} CollapseMovesDown(board: map<Vec, TileModel>, top: int, hole: Vec, step: int)
    requires step >= 1
    ensures var r := Collapse(board, top, hole, step);
      forall y | hole.y <= y < r.1.y :: MovedDown(r.0, board, hole.x, y, step)
    decreases top - hole.y
  {
    var next := Vec(hole.x, hole.y + step);
    if hole.y < top && next in board {
      var up := Vec(hole.x, hole.y + 1);
      var shifted := ShiftInto(board, next, hole);
      CollapseStep(board, top, hole, step);
      CollapseMovesDown(shifted, top, up, step);
      CollapseFrame(shifted, top, up, step);
      var r := Collapse(shifted, top, up, step);
      assert OutsideColumnFrom(hole, up);
      forall y | hole.y <= y < r.1.y
        ensures MovedDown(r.0, board, hole.x, y, step)
      {
        if y > hole.y {
          assert MovedDown(r.0, shifted, hole.x, y, step);
          assert Vec(hole.x, y + step) != next && Vec(hole.x, y + step) != hole;
        }
      }
    } else {
      CollapseStops(board, top, hole, step);
    }
  }

  /** The collapse writes only column `hole.x` from the hole upward: every
      other cell keeps its tile, or stays empty. */
  lemma {:induction false} CollapseFrame(board: map<Vec, TileModel>, top: int, hole: Vec, step: int)
    requires step >= 1
    ensures forall k | OutsideColumnFrom(k, hole) ::
      && (k in Collapse(board, top, hole, step).0 <==> k in board)
      && (k in board ==> Collapse(board, top, hole, step).0[k] == board[k])
    decreases top - hole.y
  {
    var next := Vec(hole.x, hole.y + step);
    if hole.y < top && next in board {
      var up := Vec(hole.x, hole.y + 1);
      var shifted := ShiftInto(board, next, hole);
      CollapseStep(board, top, hole, step);
      CollapseFrame(shifted, top, up, step);
      forall k | OutsideColumnFrom(k, hole)
        ensures OutsideColumnFrom(k, up) && k != next && k != hole
      {
      }
    } else {
      CollapseStops(board, top, hole, step);
    }
  }

  /** The collapse keeps tiles under their own cells with distinct issued
      ids. */
  lemma {:induction false} CollapseConsistent(board: map<Vec, TileModel>, top: int, hole: Vec, step: int, next: int)
    requires KeyMatchesPosition(board) && IdsDistinct(board) && IdsIssued(board, next)
    ensures var r := Collapse(board, top, hole, step).0;
      KeyMatchesPosition(r) && IdsDistinct(r) && IdsIssued(r, next)
    decreases top - hole.y
  {
    var from := Vec(hole.x, hole.y + step);
    if hole.y < top && from in board {
      var up := Vec(hole.x, hole.y + 1);
      var shifted := ShiftInto(board, from, hole);
      CollapseStep(board, top, hole, step);
      ShiftIntoConsistent(board, next, from, hole);
      CollapseConsistent(shifted, top, up, step, next);
    } else {
      CollapseStops(board, top, hole, step);
    }
  }

  /** The collapse never adds tiles: each round moves one tile and may land
      it on, and so replace, another. */
  lemma {:induction false} CollapseNoGrowth(board: map<Vec, TileModel>, top: int, hole: Vec, step: int)
    ensures |Collapse(board, top, hole, step).0| <= |board|
    decreases top - hole.y
  {
    var next := Vec(hole.x, hole.y + step);
    if hole.y < top && next in board {
      var up := Vec(hole.x, hole.y + 1);
      var shifted := ShiftInto(board, next, hole);
      CollapseStep(board, top, hole, step);
      ShiftIntoNoGrowth(board, next, hole);
      CollapseNoGrowth(shifted, top, up, step);
    } else {
      CollapseStops(board, top, hole, step);
    }
  }

  /** The collapse loses no tile when the `step` cells from the hole upward
      start out empty: the gap then rises with the hole and no tile lands on
      another. */
  lemma {:induction false} CollapseKeepsCount(board: map<Vec, TileModel>, top: int, hole: Vec, step: int)
    requires step >= 1
    requires GapEmpty(board, hole, step)
    ensures |Collapse(board, top, hole, step).0| == |board|
    decreases top - hole.y
  {
    var next := Vec(hole.x, hole.y + step);
    if hole.y < top && next in board {
      var up := Vec(hole.x, hole.y + 1);
      var shifted := ShiftInto(board, next, hole);
      CollapseStep(board, top, hole, step);
      ShiftIntoGap(board, hole, step);
      CollapseKeepsCount(shifted, top, up, step);
    } else {
      CollapseStops(board, top, hole, step);
    }
  }

  datatype SwapOutcome = SwapOutcome(game: Game, result: SwapResultModel)

  /** The match branch of `Swap` for a given frame: remove its three cells
      one after the other (a cell already emptied yields null), collapse the
      column after a vertical frame, and report the removed tiles. */
  function ResolveMatch(g: Game, tiles: TilesFrame): (r: SwapOutcome)
    ensures r.result.HasMatch() && |r.result.MatchedTiles()| == 3
    ensures r.game == g.(board := r.game.board)
  {
    var t1 := Get(g.board, tiles.pos1);
    var board1 := g.board - {tiles.pos1};
    var t2 := Get(board1, tiles.pos2);
    var board2 := board1 - {tiles.pos2};
    var t3 := Get(board2, tiles.pos3);
    var board3 := board2 - {tiles.pos3};
    var removed := g.(board := board3);
    var collapsed := if tiles.IsVertical() then MoveColumnDown(removed, tiles.GetMinY(), true).game else removed;
    SwapOutcome(collapsed, Match([t1, t2, t3]))
  }

  /** The board `ResolveMatch` leaves: the frame's cells removed, then the
      column collapsed when the frame is vertical. */
  lemma ResolveMatchBoard(g: Game, tiles: TilesFrame)
    ensures var board3 := g.board - {tiles.pos1} - {tiles.pos2} - {tiles.pos3};
      ResolveMatch(g, tiles).game.board ==
        if tiles.IsVertical() then Collapse(board3, g.max.y, tiles.GetMinY(), VerticalStep).0 else board3
  {
  }

  /** Resolving any frame keeps the board consistent. */
  lemma ResolveMatchConsistent(g: Game, tiles: TilesFrame)
    ensures Consistent(g) ==> Consistent(ResolveMatch(g, tiles).game)
  {
    var board1 := g.board - {tiles.pos1};
    var board2 := board1 - {tiles.pos2};
    var board3 := board2 - {tiles.pos3};
    ResolveMatchBoard(g, tiles);
    if Consistent(g) {
      RemoveConsistent(g, tiles.pos1);
      RemoveConsistent(g.(board := board1), tiles.pos2);
      RemoveConsistent(g.(board := board2), tiles.pos3);
      assert Consistent(g.(board := board3));
      if tiles.IsVertical() {
        CollapseConsistent(board3, g.max.y, tiles.GetMinY(), VerticalStep, g.tileIds);
      }
      assert ResolveMatch(g, tiles).game == g.(board := ResolveMatch(g, tiles).game.board);
    }
  }

  /** Resolving any frame never adds tiles. */
  lemma ResolveMatchNoGrowth(g: Game, tiles: TilesFrame)
    ensures |ResolveMatch(g, tiles).game.board| <= |g.board|
  {
    var board1 := g.board - {tiles.pos1};
    var board2 := board1 - {tiles.pos2};
    var board3 := board2 - {tiles.pos3};
    ResolveMatchBoard(g, tiles);
    RemoveConsistent(g, tiles.pos1);
    RemoveConsistent(g.(board := board1), tiles.pos2);
    RemoveConsistent(g.(board := board2), tiles.pos3);
    if tiles.IsVertical() {
      CollapseNoGrowth(board3, g.max.y, tiles.GetMinY(), VerticalStep);
    }
  }

  /** Resolving the `default` frame empties cell `(0,0)` three times, so it
      reports at most the tile found there followed by two nulls, and it then
      collapses column 0 from row 0 upward; nothing left of, right of or below
      that column segment changes. */
  lemma ResolveDefaultFrame(g: Game)
    ensures ResolveMatch(g, DefaultFrame).result.MatchedTiles() == [Get(g.board, Zero), None, None]
    ensures forall k | OutsideColumnFrom(k, Zero) ::
      && (k in ResolveMatch(g, DefaultFrame).game.board <==> k in g.board)
      && (k in g.board ==> ResolveMatch(g, DefaultFrame).game.board[k] == g.board[k])
  {
    var removed := g.board - {Zero};
    assert (removed - {Zero}) - {Zero} == removed;
    assert DefaultFrame.IsVertical() && DefaultFrame.GetMinY() == Zero;
    CollapseFrame(removed, g.max.y, Zero, VerticalStep);
  }

  /** After the exchange, a stale pending frame matches, or a window through
      `b`'s old cell (where `a` now is) or through `a`'s old cell does. */
  predicate SwapMakesMatch(g: Game, a: TileModel, b: TileModel)
    requires OnBoard(g.board, a) && OnBoard(g.board, b)
  {
    var swapped := SwapModels(g.board, a, b);
    || (exists i | 0 <= i < |g.toCheck| :: FrameMatches(swapped, g.toCheck[i]))
    || !WindowsClear(swapped, b.position)
    || !WindowsClear(swapped, a.position)
  }

  /** `Swap(a, b)` as written: swap, look for a match around `a`'s new cell
      and then `b`'s, and on a match resolve the frame `FindMatch` hands back.
      That frame is always `default`, so the match empties cell `(0,0)` and
      collapses column 0 from there with the vertical step.  Without a match,
      swap back and fail. */
  function Swap(g: Game, a: TileModel, b: TileModel): (r: SwapOutcome)
    requires OnBoard(g.board, a) && OnBoard(g.board, b)
    ensures r.game == g.(board := r.game.board, toCheck := [])
    ensures r.result.HasMatch() <==> SwapMakesMatch(g, a, b)
    ensures !r.result.HasMatch() ==> r.game == g.(toCheck := []) && r.result == Fail()
    ensures r.result.HasMatch() ==> r.result.MatchedTiles() == [Get(SwapModels(g.board, a, b), Zero), None, None]
    ensures r.result.HasMatch() ==> forall k | OutsideColumnFrom(k, Zero) ::
      && (k in r.game.board <==> k in SwapModels(g.board, a, b))
      && (k in SwapModels(g.board, a, b) ==> r.game.board[k] == SwapModels(g.board, a, b)[k])
    ensures r.result.HasMatch() ==>
      r.game.board == Collapse(SwapModels(g.board, a, b) - {Zero}, g.max.y, Zero, VerticalStep).0
  {
    var swapped := g.(board := SwapModels(g.board, a, b));
    var a1, b1 := a.(position := b.position), b.(position := a.position);
    var first := FindMatch(swapped, a1.position);
    assert swapped.board - {Zero} - {Zero} - {Zero} == swapped.board - {Zero};
    if first.found then
      ResolveDefaultFrame(first.game);
      ResolveMatchBoard(first.game, first.frame);
      ResolveMatch(first.game, first.frame)
    else
      var second := FindMatch(first.game, b1.position);
      if second.found then
        ResolveDefaultFrame(second.game);
        ResolveMatchBoard(second.game, second.frame);
        ResolveMatch(second.game, second.frame)
      else
        SwapModelsInvolution(g.board, a, b);
        SwapOutcome(second.game.(board := SwapModels(second.game.board, a1, b1)), Fail())
  }

  /** A swap, kept or rolled back, keeps the board consistent and never adds
      tiles. */
  lemma SwapConsistent(g: Game, a: TileModel, b: TileModel)
    requires OnBoard(g.board, a) && OnBoard(g.board, b)
    ensures Consistent(g) ==> Consistent(Swap(g, a, b).game)
    ensures |Swap(g, a, b).game.board| <= |g.board|
  {
    SwapModelsConsistent(g, a, b);
    var swapped := g.(board := SwapModels(g.board, a, b));
    var first := FindMatch(swapped, b.position);
    var second := FindMatch(first.game, a.position);
    ResolveMatchConsistent(first.game, first.frame);
    ResolveMatchConsistent(second.game, second.frame);
    ResolveMatchNoGrowth(first.game, first.frame);
    ResolveMatchNoGrowth(second.game, second.frame);
  }

  /** The three cells of a window are pairwise distinct. */
  lemma WindowCellsDistinct(f: TilesFrame, p: Vec)
    requires IsWindow(f, p)
    ensures f.pos1 != f.pos2 && f.pos2 != f.pos3 && f.pos1 != f.pos3
  {
  }

  /** As written, a swap never removes a tile when column 0 holds no tile
      from row 0 upward: the cells it empties are never the matched ones. */
  lemma SwapKeepsBoardAwayFromOrigin(g: Game, a: TileModel, b: TileModel)
    requires OnBoard(g.board, a) && OnBoard(g.board, b)
    requires forall k | k in g.board :: OutsideColumnFrom(k, Zero)
    ensures |Swap(g, a, b).game.board| == |g.board|
  {
    var swapped := SwapModels(g.board, a, b);
    var r := Swap(g, a, b);
    SwapConsistent(g, a, b);
    if r.result.HasMatch() {
      forall k | k in swapped ensures k in r.game.board {
        assert k in g.board;
      }
      KeysSubsetCount(swapped, r.game.board);
    }
  }

  /** A board whose cells all stay occupied in another has no more tiles. */
  lemma KeysSubsetCount(m1: map<Vec, TileModel>, m2: map<Vec, TileModel>)
    requires forall k | k in m1 :: k in m2
    ensures |m1| <= |m2|
  {
    var rest := m2.Keys - m1.Keys;
    assert m2.Keys == m1.Keys + rest;
    assert m1.Keys * rest == {};
  }

  /** Resolving a matching window reports its three tiles in frame order. */
  lemma ResolveWindowTiles(g: Game, f: TilesFrame, p: Vec)
    requires IsWindow(f, p) && FrameMatches(g.board, f)
    ensures ResolveMatch(g, f).result.MatchedTiles() ==
      [Some(g.board[f.pos1]), Some(g.board[f.pos2]), Some(g.board[f.pos3])]
  {
    WindowCellsDistinct(f, p);
  }

  /** A vertical window covers exactly the three cells upward from its
      lowest one. */
  lemma VerticalWindowCells(f: TilesFrame, p: Vec)
    requires IsWindow(f, p) && f.IsVertical()
    ensures forall k: Vec | k.x == f.GetMinY().x && f.GetMinY().y <= k.y < f.GetMinY().y + VerticalStep ::
      k == f.pos1 || k == f.pos2 || k == f.pos3
  {
    var low := f.GetMinY();
    if f == TilesFrame(Vec(p.x, p.y + 2), Vec(p.x, p.y + 1), p) {
      assert low == p;
    } else if f == TilesFrame(Vec(p.x, p.y + 1), p, Vec(p.x, p.y - 1)) {
      assert low == Vec(p.x, p.y - 1);
    } else {
      assert f == TilesFrame(p, Vec(p.x, p.y - 1), Vec(p.x, p.y - 2));
      assert low == Vec(p.x, p.y - 2);
    }
  }

  /** Emptying three distinct occupied cells takes three tiles off the
      board. */
  lemma RemoveThreeCells(board: map<Vec, TileModel>, f: TilesFrame)
    requires f.pos1 != f.pos2 && f.pos2 != f.pos3 && f.pos1 != f.pos3
    requires f.pos1 in board && f.pos2 in board && f.pos3 in board
    ensures |board - {f.pos1} - {f.pos2} - {f.pos3}| == |board| - 3
  {
    var board1 := board - {f.pos1};
    var board2 := board1 - {f.pos2};
    var board3 := board2 - {f.pos3};
    assert board1.Keys == board.Keys - {f.pos1};
    assert board2.Keys == board1.Keys - {f.pos2};
    assert board3.Keys == board2.Keys - {f.pos3};
  }

  /** Emptying the three cells of a window takes three tiles off the board
      and, for a vertical window, leaves the gap above its lowest cell empty. */
  lemma RemoveWindowCells(board: map<Vec, TileModel>, f: TilesFrame, p: Vec)
    requires IsWindow(f, p)
    requires f.pos1 in board && f.pos2 in board && f.pos3 in board
    ensures |board - {f.pos1} - {f.pos2} - {f.pos3}| == |board| - 3
    ensures f.IsVertical() ==> GapEmpty(board - {f.pos1} - {f.pos2} - {f.pos3}, f.GetMinY(), VerticalStep)
  {
    WindowCellsDistinct(f, p);
    RemoveThreeCells(board, f);
    if f.IsVertical() {
      VerticalWindowCells(f, p);
    }
  }

  /** Resolving a matching window, collapse included, leaves the board three
      tiles lighter. */
  lemma ResolveWindowCount(g: Game, f: TilesFrame, p: Vec)
    requires IsWindow(f, p) && FrameMatches(g.board, f)
    ensures |ResolveMatch(g, f).game.board| == |g.board| - 3
  {
    RemoveWindowCells(g.board, f, p);
    var board3 := g.board - {f.pos1} - {f.pos2} - {f.pos3};
    if f.IsVertical() {
      CollapseKeepsCount(board3, g.max.y, f.GetMinY(), VerticalStep);
    }
  }

  /** Tiles reported for a matching window: all present, all of one kind. */
  predicate OneKind(tiles: seq<Option<TileModel>>) {
    && |tiles| == 3
    && tiles[0].Some? && tiles[1].Some? && tiles[2].Some?
    && tiles[0].value.description.id == tiles[1].value.description.id
    && tiles[1].value.description.id == tiles[2].value.description.id
  }

  /** Resolving a window that matches removes three tiles of one kind. */
  lemma ResolveWindow(g: Game, f: TilesFrame, p: Vec)
    requires IsWindow(f, p) && FrameMatches(g.board, f)
    ensures OneKind(ResolveMatch(g, f).result.MatchedTiles())
    ensures |ResolveMatch(g, f).game.board| == |g.board| - 3
  {
    ResolveWindowTiles(g, f, p);
    ResolveWindowCount(g, f, p);
  }

  /** `Swap` as evidently intended: the frame the scan stopped at is the one
      removed. */
  function SwapIntended(g: Game, a: TileModel, b: TileModel): (r: SwapOutcome)
    requires OnBoard(g.board, a) && OnBoard(g.board, b)
    ensures r.game == g.(board := r.game.board, toCheck := [])
    ensures r.result.HasMatch() <==> SwapMakesMatch(g, a, b)
    ensures !r.result.HasMatch() ==> r.game == g.(toCheck := []) && r.result == Fail()
  {
    var swapped := g.(board := SwapModels(g.board, a, b));
    var a1, b1 := a.(position := b.position), b.(position := a.position);
    var first := FindMatchIntended(swapped, a1.position);
    if first.found then
      ResolveMatch(first.game, first.frame)
    else
      var second := FindMatchIntended(first.game, b1.position);
      if second.found then
        ResolveMatch(second.game, second.frame)
      else
        SwapModelsInvolution(g.board, a, b);
        SwapOutcome(second.game.(board := SwapModels(second.game.board, a1, b1)), Fail())
  }

  /** A matching swap, as intended, removes three tiles of one kind and
      nothing else: the board ends three tiles lighter. */
  lemma SwapIntendedRemovesMatch(g: Game, a: TileModel, b: TileModel)
    requires OnBoard(g.board, a) && OnBoard(g.board, b)
    requires g.toCheck == []
    ensures SwapIntended(g, a, b).result.HasMatch() ==>
      && OneKind(SwapIntended(g, a, b).result.MatchedTiles())
      && |SwapIntended(g, a, b).game.board| == |g.board| - 3
  {
    var swapped := g.(board := SwapModels(g.board, a, b));
    var first := FindMatchIntended(swapped, b.position);
    if first.found {
      assert Some(first.frame) == FirstMatchingWindow(swapped.board, b.position);
      ResolveWindow(first.game, first.frame, b.position);
    } else {
      var second := FindMatchIntended(first.game, a.position);
      if second.found {
        assert first.game.board == swapped.board && first.game.toCheck == [];
        assert Some(second.frame) == FirstMatchingWindow(first.game.board, a.position);
        ResolveWindow(second.game, second.frame, a.position);
      }
    }
  }
}
