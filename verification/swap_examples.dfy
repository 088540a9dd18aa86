/** Concrete boards on which `Swap` as written and `SwapIntended` part ways,
    because `FindMatch` resets the frame it found, and on which the as-written
    collapse step loses a tile. */
module SwapExamples {
  import opened Wrappers
  import opened Geometry
  import opened TileDescriptions
  import opened TileModels
  import opened GameState
  import opened MatchDetection
  import opened SwapEngine

  /** Column 3 holds Circle, Circle, Triangle from row 0 up, with a Circle
      right of the Triangle; swapping the Triangle and that Circle completes
      the column. */
  const Low: TileModel := TileModel(1, Circle, Vec(3, 0))
  const Middle: TileModel := TileModel(2, Circle, Vec(3, 1))
  const Odd: TileModel := TileModel(3, Triangle, Vec(3, 2))
  const Neighbour: TileModel := TileModel(4, Circle, Vec(4, 2))

  const Example: Game := Game(
    map[Low.position := Low, Middle.position := Middle, Odd.position := Odd, Neighbour.position := Neighbour],
    [], 5, Vec(-5, -5), Vec(4, 4), Vec(5, 5))

  /** The example occupies exactly four cells. */
  lemma ExampleCells()
    ensures Example.board.Keys == {Vec(3, 0), Vec(3, 1), Vec(3, 2), Vec(4, 2)}
    ensures |Example.board| == 4
  {
    assert Example.board.Keys == {Vec(3, 0), Vec(3, 1), Vec(3, 2), Vec(4, 2)};
  }

  /** Each tile of the example sits under its own cell, with id `x + y - 2`. */
  lemma ExampleTiles()
    ensures forall p | p in Example.board ::
      Example.board[p].position == p && Example.board[p].id == p.x + p.y - 2
  {
    forall p | p in Example.board
      ensures Example.board[p].position == p && Example.board[p].id == p.x + p.y - 2
    {
      assert p == Low.position || p == Middle.position || p == Odd.position || p == Neighbour.position;
    }
  }

  /** The example is a well-formed board holding the two tiles swapped. */
  lemma ExampleConsistent()
    ensures Consistent(Example)
    ensures OnBoard(Example.board, Odd) && OnBoard(Example.board, Neighbour)
    ensures |Example.board| == 4
  {
    ExampleCells();
    ExampleTiles();
    var b := Example.board;
    forall p, q | p in b && q in b && p != q
      ensures b[p].id != b[q].id
    {
    }
  }

  /** The board after the exchange: column 3 reads Circle, Circle, Circle. */
  lemma ExampleSwapped()
    ensures SwapModels(Example.board, Odd, Neighbour) ==
      map[Low.position := Low, Middle.position := Middle,
          Vec(3, 2) := Neighbour.(position := Vec(3, 2)), Vec(4, 2) := Odd.(position := Vec(4, 2))]
  {
  }

  /** Exchanging the Triangle with its right neighbour completes column 3. */
  lemma ExampleMakesMatch()
    ensures SwapMakesMatch(Example, Odd, Neighbour)
  {
    ExampleConsistent();
    ExampleSwapped();
    var swapped := SwapModels(Example.board, Odd, Neighbour);
    assert IsMatch(swapped, Vec(3, 2), Vec(3, 1), Vec(3, 0));
    assert !WindowsClear(swapped, Vec(3, 2));
  }

  /** No tile of the example sits in column 0, before or after the swap. */
  lemma ExampleAwayFromOrigin()
    ensures forall k | k in Example.board :: OutsideColumnFrom(k, Zero)
    ensures Zero !in SwapModels(Example.board, Odd, Neighbour)
  {
    ExampleSwapped();
  }

  /** The swap makes a vertical match in column 3, yet `Swap` reports three
      nulls and removes nothing, because it resolves cell `(0,0)` instead. */
  lemma SwapResetsFrameWitness()
    ensures var r := Swap(Example, Odd, Neighbour);
      && r.result.HasMatch()
      && r.result.MatchedTiles() == [None, None, None]
      && |r.game.board| == |Example.board|
  {
    ExampleConsistent();
    ExampleMakesMatch();
    ExampleAwayFromOrigin();
    SwapKeepsBoardAwayFromOrigin(Example, Odd, Neighbour);
  }

  /** On the same board `SwapIntended` removes the three Circles of column 3,
      leaving only the Triangle. */
  lemma SwapIntendedClearsExample()
    ensures var s := SwapIntended(Example, Odd, Neighbour);
      && s.result.HasMatch()
      && OneKind(s.result.MatchedTiles())
      && |s.game.board| == 1
  {
    ExampleConsistent();
    ExampleMakesMatch();
    SwapIntendedRemovesMatch(Example, Odd, Neighbour);
  }

  /** Column 0 with the hole at row 0 empty but rows 1, 3 and 4 occupied. */
  const Sparse: map<Vec, TileModel> := map[
    Vec(0, 1) := TileModel(1, Circle, Vec(0, 1)),
    Vec(0, 3) := TileModel(2, Triangle, Vec(0, 3)),
    Vec(0, 4) := TileModel(3, Square, Vec(0, 4))]

  /** An empty hole alone does not make the collapse keep every tile when it
      probes three rows up: the tile at row 4 lands on the one at row 1. */
  lemma CollapseLosesTileWithoutGap()
    ensures Zero !in Sparse && |Sparse| == 3
    ensures Collapse(Sparse, 2, Zero, VerticalStep).0.Keys == {Zero, Vec(0, 1)}
    ensures |Collapse(Sparse, 2, Zero, VerticalStep).0| == 2
  {
    assert Sparse.Keys == {Vec(0, 1), Vec(0, 3), Vec(0, 4)};
    var b1 := ShiftInto(Sparse, Vec(0, 3), Zero);
    CollapseStep(Sparse, 2, Zero, VerticalStep);
    assert b1.Keys == {Zero, Vec(0, 1), Vec(0, 4)};
    var b2 := ShiftInto(b1, Vec(0, 4), Vec(0, 1));
    CollapseStep(b1, 2, Vec(0, 1), VerticalStep);
    assert b2.Keys == {Zero, Vec(0, 1)};
    CollapseStops(b2, 2, Vec(0, 2), VerticalStep);
  }
}
