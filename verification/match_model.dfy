/** `MatchModel`: the matched / created / moved accumulator of one resolve
    step, and `Clear`, which hands the matched tiles back to the pool. */
module MatchModels {
  import opened TileModels

  datatype MatchModel = MatchModel(matched: seq<TileModel>, created: seq<TileModel>, moved: seq<TileModel>)

  /** `HasMatch`: there is at least one matched tile. */
  function HasMatch(m: MatchModel): (r: bool)
    ensures r <==> m.matched != []
  {
    |m.matched| != 0
  }

  /** The disposal step of `Clear`: every matched tile is disposed in list
      order, so the pool grows by exactly that list. */
  function DisposeAll(pool: TilePool, tiles: seq<TileModel>): (r: TilePool)
    ensures r.seed == pool.seed
    ensures r.stack == pool.stack + tiles
    decreases |tiles|
  {
    if tiles == [] then pool
    else DisposeAll(Dispose(pool, tiles[0]), tiles[1..])
  }

  /** `Clear`: dispose the matched tiles (and only those), then empty all
      three lists. */
  function Clear(m: MatchModel, pool: TilePool): (r: (MatchModel, TilePool))
    ensures r.0.matched == [] && r.0.created == [] && r.0.moved == []
    ensures !HasMatch(r.0)
    ensures r.1.seed == pool.seed
    ensures r.1.stack == pool.stack + m.matched
    ensures Issued(pool) && (forall i | 0 <= i < |m.matched| :: 1 <= m.matched[i].id < pool.seed) ==> Issued(r.1)
  {
    (MatchModel([], [], []), DisposeAll(pool, m.matched))
  }

  /** Clearing twice is clearing once: the second call disposes nothing. */
  lemma ClearIdempotent(m: MatchModel, pool: TilePool)
    ensures Clear(Clear(m, pool).0, Clear(m, pool).1) == Clear(m, pool)
  {
    assert Clear(m, pool).1.stack + [] == Clear(m, pool).1.stack;
  }

  /** Created and moved tiles never reach the pool: the pool gains exactly
      the matched tiles, whatever the other two lists hold. */
  lemma ClearIgnoresCreatedAndMoved(m: MatchModel, created: seq<TileModel>, moved: seq<TileModel>, pool: TilePool)
    ensures Clear(m.(created := created, moved := moved), pool).1 == Clear(m, pool).1
  {
  }

  /** After `Clear`, each matched tile is popped back by the following
      `Create` calls in reverse list order (last disposed first). */
  lemma ClearThenCreateReusesLast(m: MatchModel, pool: TilePool, description: TileDescriptions.TileDescription)
    requires |m.matched| > 0
    ensures Create(Clear(m, pool).1, description).1 == m.matched[|m.matched| - 1].(description := description)
  {
  }
}
