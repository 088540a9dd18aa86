/** `TileModel`: a tile instance with an id, a kind and a board position,
    plus the two statics behind it: the id counter `_seed` and the `Pool`
    stack of disposed models.  The statics are the explicit `TilePool` value;
    a model is identified by its id. */
module TileModels {
  import opened Geometry
  import opened TileDescriptions

  datatype TileModel = TileModel(id: int, description: TileDescription, position: Vec)

  /** `_seed` and `Pool`; the top of the stack is the last element. */
  datatype TilePool = TilePool(seed: int, stack: seq<TileModel>)

  /** The statics at program start: `_seed = 1`, empty pool. */
  const InitialPool: TilePool := TilePool(1, [])

  /** Every pooled model was issued earlier by the counter, which starts at 1. */
  ghost predicate Issued(pool: TilePool) {
    && pool.seed >= 1
    && forall i | 0 <= i < |pool.stack| :: 1 <= pool.stack[i].id < pool.seed
  }

  /** The constructor: the next id from the counter, the given kind, and
      position `(0,0)`. */
  function Construct(pool: TilePool, description: TileDescription): (r: (TilePool, TileModel))
    ensures r.1.id == pool.seed && r.0.seed == pool.seed + 1
    ensures r.1.description == description && r.1.position == Zero
    ensures r.0.stack == pool.stack
    ensures Issued(pool) ==> Issued(r.0)
  {
    (pool.(seed := pool.seed + 1), TileModel(pool.seed, description, Zero))
  }

  /** `Create`: pop the most recently disposed model and give it the new kind
      (it keeps its id and position), or construct a fresh one when the pool
      is empty. */
  function Create(pool: TilePool, description: TileDescription): (r: (TilePool, TileModel))
    ensures r.1.description == description
    ensures |pool.stack| > 0 ==>
      && r.0 == pool.(stack := pool.stack[..|pool.stack| - 1])
      && r.1.id == pool.stack[|pool.stack| - 1].id
      && r.1.position == pool.stack[|pool.stack| - 1].position
    ensures |pool.stack| == 0 ==> r.0 == pool.(seed := pool.seed + 1) && r.1.id == pool.seed && r.1.position == Zero
    ensures Issued(pool) ==> Issued(r.0) && 1 <= r.1.id < r.0.seed
  {
    if |pool.stack| > 0 then
      var model := pool.stack[|pool.stack| - 1];
      (pool.(stack := pool.stack[..|pool.stack| - 1]), model.(description := description))
    else
      Construct(pool, description)
  }

  /** `Dispose`: push the model onto the pool. */
  function Dispose(pool: TilePool, model: TileModel): (r: TilePool)
    ensures r.seed == pool.seed
    ensures |r.stack| == |pool.stack| + 1 && r.stack[|pool.stack|] == model
    ensures r.stack[..|pool.stack|] == pool.stack
    ensures Issued(pool) && 1 <= model.id < pool.seed ==> Issued(r)
  {
    pool.(stack := pool.stack + [model])
  }

  /** The pool is last-in first-out: creating right after disposing hands
      back the disposed model (same id and position, new kind) and leaves the
      pool as it was before the dispose. */
  lemma DisposeThenCreate(pool: TilePool, model: TileModel, description: TileDescription)
    ensures Create(Dispose(pool, model), description) == (pool, model.(description := description))
  {
    assert Dispose(pool, model).stack[..|pool.stack|] == pool.stack;
  }

  /** `n` constructor calls in a row, one per given kind. */
  function ConstructAll(pool: TilePool, descriptions: seq<TileDescription>): (r: (TilePool, seq<TileModel>))
    ensures |r.1| == |descriptions|
    ensures r.0.seed == pool.seed + |descriptions| && r.0.stack == pool.stack
    ensures forall i | 0 <= i < |descriptions| :: r.1[i].id == pool.seed + i && r.1[i].description == descriptions[i]
    decreases |descriptions|
  {
    if descriptions == [] then (pool, [])
    else
      var first := Construct(pool, descriptions[0]);
      var rest := ConstructAll(first.0, descriptions[1..]);
      (rest.0, [first.1] + rest.1)
  }

  /** From program start, constructed models get the ids 1, 2, 3, ... in
      order, so ids are strictly increasing and never repeat. */
  lemma ConstructedIdsIncrease(descriptions: seq<TileDescription>)
    ensures forall i | 0 <= i < |descriptions| :: ConstructAll(InitialPool, descriptions).1[i].id == i + 1
    ensures forall i, j | 0 <= i < j < |descriptions| ::
      ConstructAll(InitialPool, descriptions).1[i].id < ConstructAll(InitialPool, descriptions).1[j].id
  {
  }
}
