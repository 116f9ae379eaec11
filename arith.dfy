/** Facts about multiplication and division that the solver does not find by itself. */
module Arith {

  lemma MulMonotone(a: nat, b: nat, k: nat)
    requires a <= b
    ensures a * k <= b * k
  {
  }

  /** A nonzero multiple of d is at least d away from zero. */
  lemma MulAway(k: int, d: int)
    requires d >= 0
    ensures k >= 1 ==> k * d >= d
    ensures k <= -1 ==> k * d <= -d
  {
    if k >= 1 {
      MulMonotone(1, k, d);
    } else if k <= -1 {
      MulMonotone(1, -k, d);
    }
  }

  lemma DivModUnique(n: int, d: int, q: int, r: int)
    requires 0 < d && 0 <= r < d && n == q * d + r
    ensures n / d == q && n % d == r
  {
    var q0, r0 := n / d, n % d;
    assert q0 * d - q * d == r - r0;
    assert (q0 - q) * d == q0 * d - q * d;
    MulAway(q0 - q, d);
  }

  lemma MulAwayLe(a: nat, b: nat, k: nat)
    ensures a <= b ==> a * k <= b * k
  {
    if a <= b {
      MulMonotone(a, b, k);
    }
  }

  lemma MulLe(a: int, b: int, k: int)
    requires a <= b && 0 <= k
    ensures a * k <= b * k
  {
    assert b * k - a * k == (b - a) * k;
    MulMonotone(0, b - a, k);
  }

  /** The floor of n * num / den for a fraction num / den in [0, 1): in [0, n) for a positive n,
      in [n, 0] otherwise. */
  lemma ScaledFloorBounds(n: int, num: nat, den: nat)
    requires num < den
    ensures 0 < n ==> 0 <= (n * num) / den < n
    ensures n <= 0 ==> n <= (n * num) / den <= 0
  {
    if 0 < n {
      ScaledFloorPositive(n, num, den);
    } else {
      ScaledFloorNonPositive(n, num, den);
    }
  }

  lemma ScaledFloorPositive(n: int, num: nat, den: nat)
    requires num < den && 0 < n
    ensures 0 <= (n * num) / den < n
  {
    var v := (n * num) / den;
    assert n * num == v * den + (n * num) % den;
    MulLe(num + 1, den, n);
    assert num * n == n * num && den * n == n * den;
    MulAwayLe(n, v, den);
    MulAway(v, den);
  }

  lemma ScaledFloorNonPositive(n: int, num: nat, den: nat)
    requires num < den && n <= 0
    ensures n <= (n * num) / den <= 0
  {
    var v := (n * num) / den;
    assert n * num == v * den + (n * num) % den;
    MulLe(num, den, -n);
    assert num * -n == -(n * num) && den * -n == -(n * den);
    MulAway(v, den);
    MulAway(v - n + 1, den);
    assert (v - n + 1) * den == v * den - n * den + den;
  }
}
