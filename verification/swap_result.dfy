/** `SwapResultModel`: the outcome of a swap.  Its constructor is private,
    so the only values are the shared failure and a match carrying the
    removed tiles; the two variants below are exactly those.  A removed tile
    may be null, hence `Option`. */
module SwapResults {
  import opened Wrappers
  import opened TileModels

  datatype SwapResultModel = FailResult | MatchResult(tiles: seq<Option<TileModel>>) {

    function HasMatch(): bool {
      MatchResult?
    }

    function MatchedTiles(): seq<Option<TileModel>> {
      if MatchResult? then tiles else []
    }
  }

  /** `Fail()`: no match and no tiles.  Every call yields the same value,
      which stands for the shared `FailModel` instance. */
  function Fail(): (r: SwapResultModel)
    ensures !r.HasMatch() && r.MatchedTiles() == []
  {
    FailResult
  }

  /** `Match(tiles)`: a match carrying exactly the given tiles. */
  function Match(tiles: seq<Option<TileModel>>): (r: SwapResultModel)
    ensures r.HasMatch() && r.MatchedTiles() == tiles
    ensures r != Fail()
  {
    MatchResult(tiles)
  }

  /** Only the failure lacks a match, and it carries no tiles; a match is
      recovered from its tiles. */
  lemma OutcomeShapes(r: SwapResultModel)
    ensures !r.HasMatch() ==> r == Fail() && r.MatchedTiles() == []
    ensures r.HasMatch() ==> r == Match(r.MatchedTiles())
  {
  }
}
