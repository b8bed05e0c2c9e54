/**
 * The integer point type the engine and the maze use for coordinates.
 * Its Java class is not part of this model; it is treated as an immutable
 * (x, y) value compared by its components.
 */
module Vectors {

  datatype Vector2 = Vector2(x: int, y: int) {

    /** Both components lie in the half-open interval [lo, hi). */
    predicate AllInRange(lo: int, hi: int) {
      lo <= x < hi && lo <= y < hi
    }
  }

  function Abs(n: int): (r: nat)
    ensures r == n || r == -n
  {
    if n < 0 then -n else n
  }
}
