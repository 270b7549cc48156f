/**
 * Percentages as the server computes them. `Math.round(part / whole * 100)` with a
 * positive whole is modelled on rationals, not on doubles: JavaScript's Math.round
 * rounds to the nearest integer and sends halves upward, which is the floor of
 * x + 1/2, and Dafny's division by a positive divisor is floor division. Where the
 * exact ratio is a half that the double computation holds just below it (23 of 40
 * is 57.49999999999999 in doubles), the server rounds down and this model rounds up.
 */
module Percent {
  /**
   * `r` is `part / whole * 100` rounded to the nearest integer, halves upward:
   * r - 1/2 <= 100 * part / whole < r + 1/2, multiplied out by 2 * whole.
   */
  predicate IsRoundedPercent(part: int, whole: nat, r: int)
  {
    whole * (2 * r - 1) <= 200 * part < whole * (2 * r + 1)
  }

  /** `Math.round(part / whole * 100)` for `whole > 0`. */
  function Rounded(part: int, whole: nat): (r: int)
    requires whole > 0
    ensures IsRoundedPercent(part, whole, r)
    ensures 0 <= part ==> 0 <= r
    ensures part <= whole ==> r <= 100
    ensures part == whole ==> r == 100
  {
    QuotientFacts(part, whole);
    (200 * part + whole) / (2 * whole)
  }

  lemma QuotientFacts(part: int, whole: nat)
    requires whole > 0
    ensures IsRoundedPercent(part, whole, (200 * part + whole) / (2 * whole))
    ensures 0 <= part ==> 0 <= (200 * part + whole) / (2 * whole)
    ensures part <= whole ==> (200 * part + whole) / (2 * whole) <= 100
    ensures part == whole ==> (200 * part + whole) / (2 * whole) == 100
  {
    var n, d := 200 * part + whole, 2 * whole;
    DivBounds(n, d);
    var r := n / d;
    assert d * r <= n < d * r + d;
    assert whole * (2 * r - 1) == d * r - whole;
    assert whole * (2 * r + 1) == d * r + whole;
    if 0 <= part && r < 0 {
      MulLe(d, r, -1);
    }
    if part <= whole && r > 100 {
      MulLe(d, 101, r);
    }
    if part == whole {
      assert n == d * 100 + whole;
      if r != 100 {
        if r < 100 { MulLe(d, r + 1, 100); } else { MulLe(d, 101, r); }
      }
    }
  }

  /** Euclidean division stated as the two bounds the proofs need. */
  lemma DivBounds(n: int, d: nat)
    requires d > 0
    ensures d * (n / d) <= n < d * (n / d) + d
  {
    var q, m := n / d, n % d;
    assert n == d * q + m;
  }

  /** Multiplying by a non-negative factor keeps `x <= y`. */
  lemma MulLe(w: int, x: int, y: int)
    requires w >= 0 && x <= y
    ensures w * x <= w * y
  {
    assert w * y - w * x == w * (y - x);
  }

  /** The rounded value is unique: there is exactly one nearest integer, halves upward. */
  lemma RoundedUnique(part: int, whole: nat, r: int, s: int)
    requires whole > 0
    requires IsRoundedPercent(part, whole, r) && IsRoundedPercent(part, whole, s)
    ensures r == s
  {
    if r < s {
      MulLe(whole, 2 * r + 1, 2 * s - 1);
    } else if s < r {
      MulLe(whole, 2 * s + 1, 2 * r - 1);
    }
  }

  /** The percentage the server reports: the rounded ratio, or 0 when there is nothing to count. */
  function Percentage(part: int, whole: nat): (r: int)
    ensures whole == 0 ==> r == 0
    ensures whole > 0 ==> IsRoundedPercent(part, whole, r)
    ensures 0 <= part <= whole ==> 0 <= r <= 100
  {
    if whole > 0 then Rounded(part, whole) else 0
  }

  /** More of the same whole never gives a smaller rounded percentage. */
  lemma RoundedMonotone(a: int, b: int, whole: nat)
    requires whole > 0 && a <= b
    ensures Rounded(a, whole) <= Rounded(b, whole)
  {
    var ra, rb := Rounded(a, whole), Rounded(b, whole);
    if ra > rb {
      MulLe(whole, 2 * rb + 1, 2 * ra - 1);
    }
  }

  /**
   * Rounding reaches 100 before the whole is done: with 200 or more items,
   * all but one of them already rounds to 100.
   */
  lemma AllButOneRoundsToHundred(whole: nat)
    requires whole >= 200
    ensures Rounded(whole - 1, whole) == 100
  {
    var r := Rounded(whole - 1, whole);
    if r < 100 {
      MulLe(whole, 2 * r + 1, 199);
    }
  }

  /** Below 200 items, an outstanding item keeps the percentage under 100. */
  lemma AllButOneBelowHundred(whole: nat)
    requires 0 < whole < 200
    ensures Rounded(whole - 1, whole) < 100
  {
    var r: int := Rounded(whole - 1, whole);
    if r >= 100 {
      MulLe(whole, 199, 2 * r - 1);
    }
  }
}
