/** Integer grid vectors (Unity's `Vector2Int`) and the C# integer division
    the board uses to centre itself. */
module Geometry {

  datatype Vec = Vec(x: int, y: int) {

    function Plus(other: Vec): Vec {
      Vec(x + other.x, y + other.y)
    }

    function Minus(other: Vec): Vec {
      Vec(x - other.x, y - other.y)
    }

    function Neg(): Vec {
      Vec(-x, -y)
    }

    function Times(k: int): Vec {
      Vec(k * x, k * y)
    }
  }

  const Zero: Vec := Vec(0, 0)
  const One: Vec := Vec(1, 1)
  const Up: Vec := Vec(0, 1)
  const Down: Vec := Vec(0, -1)
  const Left: Vec := Vec(-1, 0)
  const Right: Vec := Vec(1, 0)

  function Max(a: int, b: int): int {
    if a < b then b else a
  }

  /** C#'s `n / 2` on `int`: the quotient is truncated toward zero, so it
      differs from Dafny's Euclidean division for odd negative `n`. */
  function Half(n: int): (h: int)
    ensures n >= 0 ==> 0 <= 2 * h <= n < 2 * h + 2
    ensures n < 0 ==> 2 * h - 2 < n <= 2 * h <= 0
  {
    if n >= 0 then n / 2 else -((-n) / 2)
  }
}
