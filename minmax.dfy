/**
 * The expression macros of util/minmax.h over integers. Each macro
 * evaluates its arguments once, so they are plain functions here.
 */
module MinMax {

  /** min(x, y): x when x < y, else y (a tie yields y). */
  function Min(x: int, y: int): (r: int)
    ensures r <= x && r <= y
    ensures r == x || r == y
    ensures x == y ==> r == y
  {
    if x < y then x else y
  }

  /** max(x, y): x when x > y, else y. */
  function Max(x: int, y: int): (r: int)
    ensures r >= x && r >= y
    ensures r == x || r == y
  {
    if x > y then x else y
  }

  /** min3(x, y, z) = min(min(x, y), z) */
  function Min3(x: int, y: int, z: int): (r: int)
    ensures r <= x && r <= y && r <= z
    ensures r == x || r == y || r == z
  {
    Min(Min(x, y), z)
  }

  /** max3(x, y, z) = max(max(x, y), z) */
  function Max3(x: int, y: int, z: int): (r: int)
    ensures r >= x && r >= y && r >= z
    ensures r == x || r == y || r == z
  {
    Max(Max(x, y), z)
  }

  /** clamp(x, lo, hi) = min(max(x, lo), hi) */
  function Clamp(x: int, lo: int, hi: int): (r: int)
    ensures lo <= hi ==> lo <= r <= hi
    ensures lo <= x <= hi ==> r == x
    ensures lo > hi ==> r == hi
    ensures x < lo && lo <= hi ==> r == lo
    ensures x > hi ==> r == hi
  {
    Min(Max(x, lo), hi)
  }

  /** Clamping twice changes nothing when the range is not empty. */
  lemma ClampIdempotent(x: int, lo: int, hi: int)
    requires lo <= hi
    ensures Clamp(Clamp(x, lo, hi), lo, hi) == Clamp(x, lo, hi)
  {
  }
}
