/** Integer arithmetic the controller needs in place of Python floats:
    `round()` of an exact fraction (round half to even) and clamping. */
module Numeric {

  /** `max(lo, min(hi, x))`. */
  function Clamp(x: int, lo: int, hi: int): (r: int)
    requires lo <= hi
    ensures lo <= r <= hi
    ensures lo <= x <= hi ==> r == x
    ensures x < lo ==> r == lo
    ensures x > hi ==> r == hi
  {
    if x < lo then lo else if x > hi then hi else x
  }

  /** Python's `round(n / d)` for an exact fraction: the nearest integer,
      ties going to the even neighbour. */
  function RoundHalfEven(n: int, d: int): (r: int)
    requires d > 0
    ensures 2 * (n - r * d) <= d && 2 * (r * d - n) <= d
    ensures (2 * (n - r * d) == d || 2 * (r * d - n) == d) ==> r % 2 == 0
  {
    var q, m := n / d, n % d;
    assert n == q * d + m;
    assert (q + 1) * d == q * d + d;
    if 2 * m < d then q
    else if 2 * m > d then q + 1
    else if q % 2 == 0 then q
    else q + 1
  }

  /** Consecutive multiples of `d` are `d` apart. */
  lemma MulGap(a: int, b: int, d: int)
    requires a < b && d > 0
    ensures b * d >= a * d + d
    ensures b > a + 1 ==> b * d >= a * d + 2 * d
  {
    var m := b - a;
    assert b * d == a * d + m * d;
    MulAtLeast(m, d);
  }

  /** `m` copies of a positive `d` are at least `d`, and at least `2 * d` when `m >= 2`. */
  lemma MulAtLeast(m: int, d: int)
    requires m >= 1 && d > 0
    ensures m * d >= d
    ensures m >= 2 ==> m * d >= 2 * d
  {
    assert m * d == (m - 1) * d + d;
    if m >= 2 {
      assert (m - 1) * d == (m - 2) * d + d;
    }
  }

  /** The rounded value is unique: any integer meeting the nearest/ties-to-even
      description of `RoundHalfEven` is it. */
  lemma RoundUnique(n: int, d: int, k: int)
    requires d > 0
    requires 2 * (n - k * d) <= d && 2 * (k * d - n) <= d
    requires (2 * (n - k * d) == d || 2 * (k * d - n) == d) ==> k % 2 == 0
    ensures RoundHalfEven(n, d) == k
  {
    var r := RoundHalfEven(n, d);
    if r < k {
      MulGap(r, k, d);
      assert false;
    } else if r > k {
      MulGap(k, r, d);
      assert false;
    }
  }

  /** An exact quotient rounds to itself. */
  lemma RoundExact(k: int, d: int)
    requires d > 0
    ensures RoundHalfEven(k * d, d) == k
  {
    RoundUnique(k * d, d, k);
  }

  /** Rounding is monotone in the numerator. */
  lemma RoundMonotone(n1: int, n2: int, d: int)
    requires d > 0 && n1 <= n2
    ensures RoundHalfEven(n1, d) <= RoundHalfEven(n2, d)
  {
    var r1, r2 := RoundHalfEven(n1, d), RoundHalfEven(n2, d);
    if r1 > r2 {
      // both would have to be ties at the same point, one of them odd
      MulGap(r2, r1, d);
      assert false;
    }
  }

  /** A fraction between two integers rounds to a value between them. */
  lemma RoundBetween(n: int, d: int, lo: int, hi: int)
    requires d > 0 && lo * d <= n <= hi * d
    ensures lo <= RoundHalfEven(n, d) <= hi
  {
    RoundMonotone(lo * d, n, d);
    RoundMonotone(n, hi * d, d);
    RoundExact(lo, d);
    RoundExact(hi, d);
  }
}
