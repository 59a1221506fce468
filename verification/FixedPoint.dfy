/** 17.14 fixed-point arithmetic (lib/kernel/fixed_point.c).

    Values are int64_t in the source.  Signed overflow is undefined there, so every
    operation requires its intermediate results to fit. */
module FixedPoint {
  import opened Integers

  const F := 16384
  const INT_LIMIT := 0x8000_0000
  const INT64_LIMIT := 0x8000_0000_0000_0000

  predicate FitsInt(x: int) {
    -INT_LIMIT <= x < INT_LIMIT
  }

  predicate Fits(x: int) {
    -INT64_LIMIT <= x < INT64_LIMIT
  }

  /** C's division: the quotient is rounded toward zero. */
  function Quotient(n: int, d: int): int
    requires d > 0
  {
    if n >= 0 then n / d else -(-n / d)
  }

  function FromInt(n: int): int {
    n * F
  }

  /** The result is an int. */
  function ToIntNearest(fp: int): (n: int)
    requires -INT_LIMIT * F <= fp <= (INT_LIMIT - 1) * F
    ensures FitsInt(n)
  {
    if fp >= 0 then Quotient(fp + F / 2, F) else Quotient(fp - F / 2, F)
  }

  function Mult(x: int, y: int): int
    requires Fits(x * y)
  {
    Quotient(x * y, F)
  }

  function Div(x: int, y: int): int
    requires Fits(x * F) && y > 0
  {
    Quotient(x * F, y)
  }

  function IntAdd(fp: int, n: int): int
    requires Fits(FromInt(n)) && Fits(fp + FromInt(n))
  {
    fp + FromInt(n)
  }

  function IntMult(fp: int, n: int): int
    requires Fits(fp * n)
  {
    fp * n
  }

  function IntDiv(fp: int, n: int): int
    requires n > 0
  {
    Quotient(fp, n)
  }

  /** The truncated quotient lies between 0 and the exact one. */
  lemma QuotientBounds(n: int, d: int)
    requires d > 0
    ensures n >= 0 ==> 0 <= Quotient(n, d) * d <= n < Quotient(n, d) * d + d
    ensures n <= 0 ==> n <= Quotient(n, d) * d <= 0 && Quotient(n, d) * d - d < n
  {
    if n >= 0 {
      DivBounds(n, d);
    } else {
      DivBounds(-n, d);
    }
  }

  lemma SignOfQuotient(n: int, d: int)
    requires d > 0
    ensures n >= 0 ==> Quotient(n, d) >= 0
    ensures n <= 0 ==> Quotient(n, d) <= 0
  {
  }

  lemma QuotientMonotone(m: int, n: int, d: int)
    requires d > 0 && m <= n
    ensures Quotient(m, d) <= Quotient(n, d)
  {
    if m >= 0 {
      DivMonotone(m, n, d);
    } else if n < 0 {
      DivMonotone(-n, -m, d);
    } else {
      SignOfQuotient(m, d);
      SignOfQuotient(n, d);
    }
  }

  /** fp_to_int_rn is within half a unit of its argument. */
  lemma RoundsToNearest(fp: int)
    requires -INT_LIMIT * F <= fp <= (INT_LIMIT - 1) * F
    ensures -F <= 2 * (FromInt(ToIntNearest(fp)) - fp) <= F
  {
    QuotientBounds(fp + F / 2, F);
    QuotientBounds(fp - F / 2, F);
  }

  lemma RoundTrip(n: int)
    requires FitsInt(n)
    ensures ToIntNearest(FromInt(n)) == n
  {
    RoundsToNearest(FromInt(n));
  }

  lemma ToIntMonotone(a: int, b: int)
    requires -INT_LIMIT * F <= a <= b <= (INT_LIMIT - 1) * F
    ensures ToIntNearest(a) <= ToIntNearest(b)
  {
    if (a < 0) == (b < 0) {
      QuotientMonotone(if a < 0 then a - F / 2 else a + F / 2, if b < 0 then b - F / 2 else b + F / 2, F);
    }
  }
}
