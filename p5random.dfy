/** p5's `random`, with each output of the generator passed in as an explicit value.
    The generator's output is a number in [0, 1) with 53 random bits, k / 2^53 for an integer
    0 <= k < 2^53; it is written here as the integer k. */
module P5Random {
  import opened Arith

  /** 2^53: the denominator of every generator output. */
  const RandScale: nat := 0x20_0000_0000_0000

  /** One output of the generator, as the numerator k of k / 2^53. */
  type Rand = k: nat | k < RandScale

  /** floor(random(n)). p5's random(n) is rand * n, and Dafny's integer division rounds down
      for a positive divisor. */
  function FloorRandom(n: int, r: Rand): (v: int)
    ensures 0 < n ==> 0 <= v < n
    ensures n <= 0 ==> n <= v <= 0
  {
    ScaledFloorBounds(n, r, RandScale);
    (n * r) / RandScale
  }

  /** floor(random(lo, hi)). p5 swaps the bounds when lo > hi and returns
      rand * (hi - lo) + lo; lo is an integer, so the floor is lo + floor(rand * (hi - lo)). */
  function FloorRandomBetween(lo: int, hi: int, r: Rand): (v: int)
    ensures lo < hi ==> lo <= v < hi
    ensures hi < lo ==> hi <= v < lo
    ensures lo == hi ==> v == lo
  {
    if lo <= hi then lo + FloorRandom(hi - lo, r) else hi + FloorRandom(lo - hi, r)
  }

  /** random(xs) for an array xs: the element at floor(rand * |xs|). */
  function RandomElement<T>(xs: seq<T>, r: Rand): (e: T)
    requires |xs| > 0
    ensures e in xs
  {
    xs[FloorRandom(|xs|, r)]
  }
}
