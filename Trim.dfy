/** The trimming step of the matcher: how many correspondences survive the
    fraction F, computed with C#'s truncating conversions, and which ones. */
module Trim {
  import opened Types

  /** C#'s `(int)` conversion of a double: truncation toward zero. */
  function TruncToInt(x: real): (r: int)
    ensures Abs(r as real) <= Abs(x) < Abs(r as real) + 1.0
    ensures x >= 0.0 ==> r >= 0
    ensures x <= 0.0 ==> r <= 0
  {
    if x >= 0.0 then x.Floor else -((-x).Floor)
  }

  /** C#'s integer division by a positive divisor: the quotient is truncated
      toward zero, so the remainder takes the sign of the dividend. */
  function TruncDiv(a: int, b: int): (q: int)
    requires b > 0
    ensures -b < a - q * b < b
    ensures a >= 0 ==> 0 <= a - q * b
    ensures a <= 0 ==> a - q * b <= 0
  {
    if a >= 0 then a / b else -((-a) / b)
  }

  /** The number of correspondences kept out of n for fraction f:
      `((int)(n * 100 * f)) / 100`. */
  function KeptCount(n: nat, f: real): int {
    TruncDiv(TruncToInt((n * 100) as real * f), 100)
  }

  /** For a non-negative fraction the kept count is the floor of n * f:
      the detour through hundredths loses nothing in exact arithmetic. */
  lemma KeptCountIsFloor(n: nat, f: real)
    requires f >= 0.0
    ensures KeptCount(n, f) == (n as real * f).Floor
  {
    var x := (n * 100) as real * f;
    assert x == 100.0 * (n as real * f);
    var m := TruncToInt(x);
    var q := KeptCount(n, f);
    assert m == x.Floor;
    assert 0 <= m - q * 100 < 100;
    assert q as real <= n as real * f < q as real + 1.0 by {
      assert (q * 100) as real <= m as real <= x;
      assert x < m as real + 1.0 <= (q * 100 + 100) as real;
    }
  }

  lemma MulNonNegative(a: real, b: real)
    requires 0.0 <= a && 0.0 <= b
    ensures 0.0 <= a * b
  {
  }

  /** A fraction in [0, 1] keeps between none and all of the
      correspondences. */
  lemma KeptCountBounds(n: nat, f: real)
    requires 0.0 <= f <= 1.0
    ensures 0 <= KeptCount(n, f) <= n
  {
    KeptCountIsFloor(n, f);
    var y := n as real * f;
    assert 0.0 <= y <= n as real by {
      MulNonNegative(n as real, 1.0 - f);
    }
    assert (y.Floor as real) <= y;
  }

  /** F = 1 keeps every correspondence. */
  lemma KeptCountWhole(n: nat)
    ensures KeptCount(n, 1.0) == n
  {
    KeptCountIsFloor(n, 1.0);
  }

  /** A larger fraction never keeps fewer correspondences. */
  lemma KeptCountMonotone(n: nat, f: real, g: real)
    requires 0.0 <= f <= g
    ensures KeptCount(n, f) <= KeptCount(n, g)
  {
    KeptCountIsFloor(n, f);
    KeptCountIsFloor(n, g);
    var x, y := n as real * f, n as real * g;
    assert x <= y by {
      assert y - x == n as real * (g - f);
      MulNonNegative(n as real, g - f);
    }
    assert x.Floor as real <= x && y < y.Floor as real + 1.0;
    assert x.Floor < y.Floor + 1;
  }

  /** With the default F = 0.95, ten correspondences keep nine, and a
      fraction above one asks for more correspondences than there are. */
  lemma KeptCountExamples()
    ensures KeptCount(10, 0.95) == 9
    ensures KeptCount(1, 2.0) == 2
  {
    KeptCountIsFloor(10, 0.95);
    KeptCountIsFloor(1, 2.0);
  }
}
