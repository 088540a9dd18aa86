/** Three-in-a-row detection of `GameModel`: `AddCheckTile` lists six
    windows around a cell, `IsMatch` compares the kinds of three cells, and
    `FindMatch` scans the pending frames plus the six windows, stopping at the
    first match. */
module MatchDetection {
  import opened Wrappers
  import opened Geometry
  import opened TileDescriptionIds
  import opened TileModels
  import opened GameState

  /** Window `i` of the six through `p`: the three horizontal ones ending at,
      centred on and starting at `p` (left to right), then the three vertical
      ones starting at, centred on and ending at `p` (top to bottom). */
  function Window(p: Vec, i: int): TilesFrame
    requires 0 <= i < 6
  {
    if i == 0 then TilesFrame(Vec(p.x - 2, p.y), Vec(p.x - 1, p.y), p)
    else if i == 1 then TilesFrame(Vec(p.x - 1, p.y), p, Vec(p.x + 1, p.y))
    else if i == 2 then TilesFrame(p, Vec(p.x + 1, p.y), Vec(p.x + 2, p.y))
    else if i == 3 then TilesFrame(Vec(p.x, p.y + 2), Vec(p.x, p.y + 1), p)
    else if i == 4 then TilesFrame(Vec(p.x, p.y + 1), p, Vec(p.x, p.y - 1))
    else TilesFrame(p, Vec(p.x, p.y - 1), Vec(p.x, p.y - 2))
  }

  /** `AddCheckTile(position, list)`: append the three horizontal windows
      (ending at, centred on, starting at `position`, left to right) and then
      the three vertical ones (top to bottom). */
  function AddCheckTile(position: Vec, tilesToCheck: seq<TilesFrame>): (r: seq<TilesFrame>)
    ensures |r| == |tilesToCheck| + 6 && r[..|tilesToCheck|] == tilesToCheck
    ensures var p, n := position, |tilesToCheck|;
      && r[n] == Window(p, 0) && r[n + 1] == Window(p, 1) && r[n + 2] == Window(p, 2)
      && r[n + 3] == Window(p, 3) && r[n + 4] == Window(p, 4) && r[n + 5] == Window(p, 5)
  {
    tilesToCheck + [
      FrameFrom(position.Plus(Left.Times(2)), Right),
      FrameFrom(position.Plus(Left), Right),
      FrameFrom(position, Right),
      FrameFrom(position.Plus(Up.Times(2)), Down),
      FrameFrom(position.Plus(Up), Down),
      FrameFrom(position, Down)
    ]
  }

  /** The six windows of a cell on their own. */
  function Windows(position: Vec): seq<TilesFrame> {
    AddCheckTile(position, [])
  }

  /** `IsMatch(pos1, pos2, pos3)`: all three cells are occupied and their
      kinds' ids are equal under the null-aware `==`. */
  predicate IsMatch(board: map<Vec, TileModel>, pos1: Vec, pos2: Vec, pos3: Vec)
    ensures IsMatch(board, pos1, pos2, pos3) <==>
      && pos1 in board && pos2 in board && pos3 in board
      && board[pos1].description.id == board[pos2].description.id
      && board[pos1].description.id == board[pos3].description.id
  {
    if pos1 in board && pos2 in board && pos3 in board then
      var id1, id2, id3 := board[pos1].description.id, board[pos2].description.id, board[pos3].description.id;
      Eq(Some(id1), Some(id2)) && Eq(Some(id1), Some(id3))
    else
      false
  }

  predicate FrameMatches(board: map<Vec, TileModel>, frame: TilesFrame) {
    IsMatch(board, frame.pos1, frame.pos2, frame.pos3)
  }

  /** The `foreach` with `break` over the frames to check: the first frame
      that matches, if any. */
  function ScanFrames(board: map<Vec, TileModel>, frames: seq<TilesFrame>): (r: Option<TilesFrame>)
    ensures r.None? <==> forall i | 0 <= i < |frames| :: !FrameMatches(board, frames[i])
    ensures r.Some? ==> exists i | 0 <= i < |frames| ::
      && frames[i] == r.value && FrameMatches(board, r.value)
      && forall j | 0 <= j < i :: !FrameMatches(board, frames[j])
    decreases |frames|
  {
    if frames == [] then None
    else if FrameMatches(board, frames[0]) then Some(frames[0])
    else
      var rest := ScanFrames(board, frames[1..]);
      assert forall i | 1 <= i < |frames| :: frames[i] == frames[1..][i - 1];
      rest
  }

  datatype FindMatchResult = FindMatchResult(found: bool, frame: TilesFrame, game: Game)

  /** `FindMatch(pos, out match)` as written: scan the pending frames and the
      six windows of `pos`, empty the pending list, and reset the out frame to
      `default` whatever was found. */
  function FindMatch(g: Game, pos: Vec): (r: FindMatchResult)
    ensures r.game == g.(toCheck := [])
    ensures r.frame == DefaultFrame
    ensures r.found <==>
      (exists i | 0 <= i < |g.toCheck| :: FrameMatches(g.board, g.toCheck[i]))
      || FirstMatchingWindow(g.board, pos).Some?
    ensures g.toCheck == [] ==> (r.found <==> FirstMatchingWindow(g.board, pos).Some?)
  {
    var frames := AddCheckTile(pos, g.toCheck);
    var hit := ScanFrames(g.board, frames);
    assert forall i | 0 <= i < 6 :: frames[|g.toCheck| + i] == Windows(pos)[i];
    ScanAgreesWithFirstMatchingWindow(g.board, pos);
    FindMatchResult(hit.Some?, DefaultFrame, g.(toCheck := []))
  }

  /** None of the six windows through `p` holds three equal kinds. */
  predicate WindowsClear(board: map<Vec, TileModel>, p: Vec) {
    && !FrameMatches(board, Window(p, 0)) && !FrameMatches(board, Window(p, 1))
    && !FrameMatches(board, Window(p, 2)) && !FrameMatches(board, Window(p, 3))
    && !FrameMatches(board, Window(p, 4)) && !FrameMatches(board, Window(p, 5))
  }

  /** The six windows through `p` scanned in their fixed order: the three
      horizontal ones left to right, then the three vertical ones top to
      bottom; the first that matches, if any. */
  function FirstMatchingWindow(board: map<Vec, TileModel>, p: Vec): (r: Option<TilesFrame>)
    ensures r.None? <==> WindowsClear(board, p)
    ensures r.Some? ==> IsWindow(r.value, p) && FrameMatches(board, r.value)
  {
    var w1, w2, w3 := Window(p, 0), Window(p, 1), Window(p, 2);
    var w4, w5, w6 := Window(p, 3), Window(p, 4), Window(p, 5);
    if FrameMatches(board, w1) then Some(w1)
    else if FrameMatches(board, w2) then Some(w2)
    else if FrameMatches(board, w3) then Some(w3)
    else if FrameMatches(board, w4) then Some(w4)
    else if FrameMatches(board, w5) then Some(w5)
    else if FrameMatches(board, w6) then Some(w6)
    else None
  }

  /** The source's loop over the list `AddCheckTile` builds stops at exactly
      the window `FirstMatchingWindow` picks. */
  lemma ScanAgreesWithFirstMatchingWindow(board: map<Vec, TileModel>, p: Vec)
    ensures ScanFrames(board, Windows(p)) == FirstMatchingWindow(board, p)
  {
    ScanSix(board, Windows(p));
  }

  /** Unrolls the scan of a six-frame list into its if-chain. */
  lemma ScanSix(board: map<Vec, TileModel>, ws: seq<TilesFrame>)
    requires |ws| == 6
    ensures ScanFrames(board, ws) ==
      if FrameMatches(board, ws[0]) then Some(ws[0])
      else if FrameMatches(board, ws[1]) then Some(ws[1])
      else if FrameMatches(board, ws[2]) then Some(ws[2])
      else if FrameMatches(board, ws[3]) then Some(ws[3])
      else if FrameMatches(board, ws[4]) then Some(ws[4])
      else if FrameMatches(board, ws[5]) then Some(ws[5])
      else None
  {
    assert ws[1..][1..] == ws[2..];
    assert ws[2..][1..] == ws[3..];
    assert ws[3..][1..] == ws[4..];
    assert ws[4..][1..] == ws[5..];
    assert ws[5..][1..] == [];
  }

  /** `FindMatch` as evidently intended: the out frame is the one the scan
      stopped at (line 126), not overwritten afterwards. */
  function FindMatchIntended(g: Game, pos: Vec): (r: FindMatchResult)
    ensures r.game == g.(toCheck := [])
    ensures r.found ==> FrameMatches(g.board, r.frame)
    ensures r.found == FindMatch(g, pos).found
    ensures g.toCheck == [] && r.found ==> Some(r.frame) == FirstMatchingWindow(g.board, pos)
  {
    var frames := AddCheckTile(pos, g.toCheck);
    var hit := ScanFrames(g.board, frames);
    ScanAgreesWithFirstMatchingWindow(g.board, pos);
    assert g.toCheck == [] ==> frames == Windows(pos);
    if hit.Some? then FindMatchResult(true, hit.value, g.(toCheck := []))
    else FindMatchResult(false, DefaultFrame, g.(toCheck := []))
  }

  /** Three equal kinds in a row, starting at `p` and going right. */
  predicate RowMatch(board: map<Vec, TileModel>, p: Vec) {
    IsMatch(board, p, Vec(p.x + 1, p.y), Vec(p.x + 2, p.y))
  }

  /** Three equal kinds in a column, starting at `p` and going up. */
  predicate ColumnMatch(board: map<Vec, TileModel>, p: Vec) {
    IsMatch(board, p, Vec(p.x, p.y + 1), Vec(p.x, p.y + 2))
  }

  /** No three equal kinds in a row or a column anywhere on the board. */
  ghost predicate NoThreeInRow(board: map<Vec, TileModel>) {
    forall p :: !RowMatch(board, p) && !ColumnMatch(board, p)
  }

  /** The board has no three-in-a-row exactly when no occupied cell has a
      matching window, so scanning every cell is a complete check. */
  lemma NoThreeInRowIffWindowsClear(board: map<Vec, TileModel>)
    ensures NoThreeInRow(board) <==> forall p | p in board :: WindowsClear(board, p)
  {
    if NoThreeInRow(board) {
      forall p | p in board
        ensures WindowsClear(board, p)
      {
        assert !RowMatch(board, Vec(p.x - 2, p.y)) && !RowMatch(board, Vec(p.x - 1, p.y)) && !RowMatch(board, p);
        assert !ColumnMatch(board, p) && !ColumnMatch(board, Vec(p.x, p.y - 1)) && !ColumnMatch(board, Vec(p.x, p.y - 2));
      }
    }
    if forall p | p in board :: WindowsClear(board, p) {
      forall p
        ensures !RowMatch(board, p) && !ColumnMatch(board, p)
      {
        if p in board {
          assert WindowsClear(board, p);
        }
      }
    }
  }

  /** Placing one tile keeps a board free of three-in-a-row when none of the
      six windows of its cell matches afterwards: every line through the cell
      is one of those windows, and no other line changes. */
  lemma PlacementKeepsNoThreeInRow(board: map<Vec, TileModel>, c: Vec, t: TileModel)
    requires NoThreeInRow(board)
    requires WindowsClear(board[c := t], c)
    ensures NoThreeInRow(board[c := t])
  {
    var b := board[c := t];
    forall p
      ensures !RowMatch(b, p) && !ColumnMatch(b, p)
    {
      assert !RowMatch(board, p) && !ColumnMatch(board, p);
      if c == p || c == Vec(p.x + 1, p.y) || c == Vec(p.x + 2, p.y) {
        assert !RowMatch(b, p);
      } else {
        assert RowMatch(b, p) == RowMatch(board, p);
      }
      if c == p || c == Vec(p.x, p.y + 1) || c == Vec(p.x, p.y + 2) {
        assert !ColumnMatch(b, p);
      } else {
        assert ColumnMatch(b, p) == ColumnMatch(board, p);
      }
    }
  }

  /** Placing a tile of kind `d` at `c` would complete a window. */
  ghost predicate Rejects(board: map<Vec, TileModel>, c: Vec, d: TileDescriptions.TileDescription) {
    !WindowsClear(board[c := TileModel(0, d, c)], c)
  }

  /** Matching looks only at kinds: any tile of the same kind placed at `c`
      gives the same verdict. */
  lemma MatchIgnoresIdentity(board: map<Vec, TileModel>, c: Vec, t: TileModel)
    ensures !WindowsClear(board[c := t], c) <==> Rejects(board, c, t.description)
  {
  }

  /** When the cells right of and above `c` are empty, only the window ending
      at `c` from the left and the one ending at `c` from above can match, so a
      rejected kind is the kind of the left or the lower neighbour. */
  lemma BackwardWindowsOnly(board: map<Vec, TileModel>, c: Vec, d: TileDescriptions.TileDescription)
    requires Vec(c.x + 1, c.y) !in board && Vec(c.x, c.y + 1) !in board
    ensures Rejects(board, c, d) ==>
      || (Vec(c.x - 1, c.y) in board && board[Vec(c.x - 1, c.y)].description.id == d.id)
      || (Vec(c.x, c.y - 1) in board && board[Vec(c.x, c.y - 1)].description.id == d.id)
  {
  }

  /** `f` is one of the six windows through `p`. */
  predicate IsWindow(f: TilesFrame, p: Vec) {
    || f == Window(p, 0) || f == Window(p, 1) || f == Window(p, 2)
    || f == Window(p, 3) || f == Window(p, 4) || f == Window(p, 5)
  }
}
