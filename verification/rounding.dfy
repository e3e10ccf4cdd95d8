/** `Math.round((a / b) * 100)` for a non-negative count `a` out of a positive
    total `b`, in exact integer arithmetic with halves rounded up. */
module Rounding {

  function RoundPercent(a: nat, b: nat): (r: nat)
    requires b > 0
    ensures 2 * b * r <= 200 * a + b < 2 * b * (r + 1)
    ensures a <= b ==> r <= 100
    ensures a == b ==> r == 100
    ensures a == 0 ==> r == 0
  {
    PercentQuotient(a, b);
    if a <= b then PercentAtMost100(a, b); (200 * a + b) / (2 * b)
    else (200 * a + b) / (2 * b)
  }

  lemma PercentQuotient(a: nat, b: nat)
    requires b > 0
    ensures var r := (200 * a + b) / (2 * b);
      2 * b * r <= 200 * a + b < 2 * b * (r + 1) && (a == 0 ==> r == 0)
  {
    var n, d := 200 * a + b, 2 * b;
    QuotientBounds(n, d);
    if a == 0 {
      assert n < d * 1;
      QuotientBelow(n, d, n / d, 1);
    }
  }

  lemma PercentAtMost100(a: nat, b: nat)
    requires 0 < b && a <= b
    ensures (200 * a + b) / (2 * b) <= 100
    ensures a == b ==> (200 * a + b) / (2 * b) == 100
  {
    var n, d := 200 * a + b, 2 * b;
    var q := n / d;
    QuotientBounds(n, d);
    assert n < d * 101;
    QuotientBelow(n, d, q, 101);
    if a == b {
      assert d * 100 <= n;
      QuotientAbove(n, d, q, 100);
    }
  }

  /** More done out of the same total never gives a smaller percent. */
  lemma RoundPercentMonotone(a: nat, a': nat, b: nat)
    requires b > 0 && a <= a'
    ensures RoundPercent(a, b) <= RoundPercent(a', b)
  {
    var r, r' := RoundPercent(a, b), RoundPercent(a', b);
    assert 2 * b * r <= 200 * a' + b < 2 * b * (r' + 1);
    MulBelow(2 * b, r, r' + 1);
  }

  lemma MulBelow(d: nat, x: nat, y: nat)
    requires d > 0 && d * x < d * y
    ensures x < y
  {
  }

  /** The defining bounds of Euclidean division by a positive divisor. */
  lemma QuotientBounds(n: nat, d: nat)
    requires d > 0
    ensures d * (n / d) <= n < d * (n / d + 1)
  {
  }

  lemma QuotientBelow(n: nat, d: nat, q: nat, k: nat)
    requires d > 0 && d * q <= n < d * k
    ensures q < k
  {
  }

  lemma QuotientAbove(n: nat, d: nat, q: nat, k: nat)
    requires d > 0 && d * k <= n < d * (q + 1)
    ensures k <= q
  {
  }
}
