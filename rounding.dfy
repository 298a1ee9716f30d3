/** `(int)Math.Round(v)` for the two kinds of value the algorithms round:
    half of an integer (a midpoint coordinate) and half the square root of a
    non-negative integer (the range-goal radius). Math.Round rounds to the
    nearest integer and a tie to the even neighbour. Both values are formed
    from small integers, for which the float arithmetic of the source is
    exact, so they are stated here on integers. */
module Rounding {

  /** Math.Round(s / 2): s / 2 when s is even, otherwise the even one of
      (s - 1) / 2 and (s + 1) / 2. */
  function RoundHalf(s: int): int
  {
    if s % 2 == 0 then s / 2
    else if (s - 1) / 2 % 2 == 0 then (s - 1) / 2 else (s + 1) / 2
  }

  /** RoundHalf(s) is within one half of s / 2, and an even integer on a tie. */
  lemma RoundHalfNearest(s: int)
    ensures var r := RoundHalf(s); -1 <= 2 * r - s <= 1
    ensures s % 2 == 1 ==> RoundHalf(s) % 2 == 0
    ensures s % 2 == 0 ==> 2 * RoundHalf(s) == s
  {
  }

  /** The rounded midpoint of a and b lies between them. */
  lemma {:induction false} RoundHalfBetween(a: int, b: int)
    ensures a <= b ==> a <= RoundHalf(a + b) <= b
    ensures b <= a ==> b <= RoundHalf(a + b) <= a
  {
    RoundHalfNearest(a + b);
  }

  /** r is Math.Round(Math.Sqrt(n) * 0.5): |sqrt(n) / 2 - r| <= 1/2, that is
      (2r - 1)^2 <= n <= (2r + 1)^2, and r is even on either tie. */
  ghost predicate IsHalfRootRounded(n: nat, r: nat)
  {
    && (r == 0 || (2 * r - 1) * (2 * r - 1) <= n)
    && n <= (2 * r + 1) * (2 * r + 1)
    && (n == (2 * r + 1) * (2 * r + 1) ==> r % 2 == 0)
    && (r > 0 && n == (2 * r - 1) * (2 * r - 1) ==> r % 2 == 0)
  }

  lemma SquareGrows(a: int)
    requires a >= 1
    ensures a * a >= a
  {
  }

  lemma {:induction false} SquareMono(a: int, b: int)
    requires 0 <= a < b
    ensures a * a < b * b
  {
    var k := b - a;
    assert b * b == a * a + 2 * a * k + k * k;
    assert a * k >= 0 && k * k >= 1;
  }

  /** Counts r up from `r` while (2r + 1)^2 is still below n, or equal to it
      with r odd. */
  function HalfRootFrom(n: nat, r: nat): nat
    decreases n - r
  {
    if (2 * r + 1) * (2 * r + 1) < n || ((2 * r + 1) * (2 * r + 1) == n && r % 2 == 1) then
      SquareGrows(2 * r + 1);
      HalfRootFrom(n, r + 1)
    else r
  }

  function HalfRootRounded(n: nat): nat
  {
    HalfRootFrom(n, 0)
  }

  lemma {:induction false} HalfRootFromCorrect(n: nat, r: nat)
    requires r == 0 || (2 * r - 1) * (2 * r - 1) < n || ((2 * r - 1) * (2 * r - 1) == n && r % 2 == 0)
    ensures IsHalfRootRounded(n, HalfRootFrom(n, r))
    decreases n - r
  {
    if (2 * r + 1) * (2 * r + 1) < n || ((2 * r + 1) * (2 * r + 1) == n && r % 2 == 1) {
      SquareGrows(2 * r + 1);
      assert 2 * (r + 1) - 1 == 2 * r + 1;
      HalfRootFromCorrect(n, r + 1);
    }
  }

  /** The radius computation meets its specification. */
  lemma HalfRootRoundedCorrect(n: nat)
    ensures IsHalfRootRounded(n, HalfRootRounded(n))
  {
    HalfRootFromCorrect(n, 0);
  }

  /** The specification pins the radius down: at most one r meets it. */
  lemma HalfRootRoundedUnique(n: nat, r1: nat, r2: nat)
    requires IsHalfRootRounded(n, r1) && IsHalfRootRounded(n, r2)
    ensures r1 == r2
  {
    HalfRootNotAbove(n, r1, r2);
    HalfRootNotAbove(n, r2, r1);
  }

  lemma HalfRootNotAbove(n: nat, r1: nat, r2: nat)
    requires IsHalfRootRounded(n, r1) && IsHalfRootRounded(n, r2)
    ensures r2 <= r1
  {
    if r1 < r2 {
      var a, b := 2 * r1 + 1, 2 * r2 - 1;
      if a < b {
        SquareMono(a, b);
        assert false;
      } else {
        assert false;
      }
    }
  }
}
