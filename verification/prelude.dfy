/** Shared vocabulary: optional values, fixed-width integers, and Go's truncating division. */
module Prelude {

  datatype Option<+T> = None | Some(value: T)

  const TWO_TO_THE_32: int := 0x1_0000_0000

  type uint32 = n: int | 0 <= n < TWO_TO_THE_32

  function Max(a: int, b: int): int {
    if a < b then b else a
  }

  function Min(a: int, b: int): int {
    if b < a then b else a
  }

  function Abs(a: int): nat {
    if a < 0 then -a else a
  }

  /** Go's integer division: the quotient is rounded toward zero. */
  function TruncDiv(n: int, d: int): int
    requires d != 0
  {
    if (n < 0) == (d < 0) then Abs(n) / Abs(d) else -(Abs(n) / Abs(d))
  }

  lemma MulMonotone(a: int, b: int, d: int)
    requires a <= b && 0 <= d
    ensures a * d <= b * d
  {
  }

  lemma MulCancel(a: int, b: int, d: int)
    requires a * d < b * d + d && 0 < d
    ensures a <= b
  {
    if b < a {
      MulMonotone(b + 1, a, d);
      assert false;
    }
  }

  /** The quotient lies within one of the exact ratio, on the side of zero. */
  lemma TruncDivBounds(n: int, d: int)
    requires 0 < d
    ensures var q := TruncDiv(n, d);
            if 0 <= n then q * d <= n < q * d + d else n <= q * d < n + d
  {
    if n < 0 {
      var a := -n / d;
      assert TruncDiv(n, d) == -a;
      assert -n == a * d + -n % d;
      assert (-a) * d == -(a * d);
    } else {
      assert n == n / d * d + n % d;
    }
  }

  /** An integer interval that contains n/d contains its truncation, too. */
  lemma TruncDivBetween(n: int, d: int, lo: int, hi: int)
    requires 0 < d
    requires lo * d <= n <= hi * d
    ensures lo <= TruncDiv(n, d) <= hi
  {
    TruncDivBounds(n, d);
    var q := TruncDiv(n, d);
    MulCancel(lo, q, d);
    MulCancel(q, hi, d);
  }

  /** Truncation is monotone in the numerator. */
  lemma TruncDivMonotone(m: int, n: int, d: int)
    requires 0 < d && m <= n
    ensures TruncDiv(m, d) <= TruncDiv(n, d)
  {
    TruncDivBounds(m, d);
    TruncDivBounds(n, d);
    QuotientOrder(m, n, d, TruncDiv(m, d), TruncDiv(n, d));
  }

  lemma QuotientOrder(m: int, n: int, d: int, q: int, r: int)
    requires 0 < d && m <= n
    requires if 0 <= m then q * d <= m else q * d < m + d
    requires if 0 <= n then n < r * d + d else n <= r * d
    ensures q <= r
  {
    if m < 0 <= n {
      MulCancel(q, 0, d);
      MulCancel(0, r, d);
    } else {
      MulCancel(q, r, d);
    }
  }
}
