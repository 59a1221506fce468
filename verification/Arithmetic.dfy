/** 64-bit division built from the 64/32-bit divide instruction (lib/arithmetic.c).

    Machine words are integers here; shifts are multiplications and divisions by powers
    of two, reduced to the word size. */
module Arithmetic {
  import opened Bits
  import opened Integers

  const B := 0x1_0000_0000
  const B2 := 0x1_0000_0000_0000_0000

  predicate Word(x: int) {
    0 <= x < B
  }

  predicate DoubleWord(x: int) {
    0 <= x < B2
  }

  /** The DIVL instruction; its precondition is the absence of a divide error. */
  function Divl(n: int, d: int): int
    requires DoubleWord(n) && 0 < d < B && n / d < B
  {
    n / d
  }

  /** One step of nlz: y, which is x shifted left by n, is shifted k further when its top
      k bits are zero. */
  method ShiftIfBelow(x: int, y: int, n: nat, k: nat, limit: int) returns (y': int, n': nat)
    requires 0 < y < B && y == x * Pow2(n) && limit * Pow2(k) == B && limit <= y * Pow2(k)
    ensures limit <= y' < B && y' == x * Pow2(n') && n <= n' <= n + k
  {
    y', n' := y, n;
    if y < limit {
      n', y' := n + k, y * Pow2(k) % B;
      MulLess(y, limit, Pow2(k));
      Pow2Add(n, k);
      Regroup(x, Pow2(n), Pow2(k));
    }
  }

  lemma Powers()
    ensures Pow2(0) == 1 && Pow2(1) == 2 && Pow2(2) == 4 && Pow2(4) == 16 && Pow2(8) == 256 && Pow2(16) == 65536
  {
    Pow2Add(1, 1);
    Pow2Add(2, 2);
    Pow2Add(4, 4);
    Pow2Add(8, 8);
  }

  /** nlz: shifting x left by the result puts its highest set bit at bit 31. */
  method Nlz(x: int) returns (n: nat)
    requires 0 < x < B
    ensures n <= 31 && B / 2 <= x * Pow2(n) < B
  {
    Powers();
    var y;
    y, n := ShiftIfBelow(x, x, 0, 16, 0x0001_0000);
    y, n := ShiftIfBelow(x, y, n, 8, 0x0100_0000);
    y, n := ShiftIfBelow(x, y, n, 4, 0x1000_0000);
    y, n := ShiftIfBelow(x, y, n, 2, 0x4000_0000);
    y, n := ShiftIfBelow(x, y, n, 1, 0x8000_0000);
  }

  /** Dividing in two steps, high word first. */
  lemma TwoStep(n1: int, n0: int, d: int)
    requires Word(n1) && Word(n0) && 0 < d < B
    ensures DoubleWord(B * (n1 % d) + n0) && (B * (n1 % d) + n0) / d < B
    ensures (B * (n1 % d) + n0) / d + B * (n1 / d) == (B * n1 + n0) / d
  {
    var h := B * (n1 % d) + n0;
    DivBounds(h, d);
    QuotientBetween(h, d, 0, B);
    var q := h / d + B * (n1 / d);
    assert n1 == n1 / d * d + n1 % d;
    assert (h / d + B * (n1 / d)) * d == h / d * d + B * (n1 / d * d);
    QuotientUnique(B * n1 + n0, d, q);
  }

  lemma TopBits(d: int, d1: int, p: int, r: int)
    requires p > 0 && d1 < r && p * r == B && d1 * B <= d < (d1 + 1) * B && B / 2 <= d1 * p
    ensures d * p < B2 && B / 2 * r <= d < B * r
  {
    MulAtMost(d1 + 1, r, B);
    MulLess(d, r * B, p);
    assert r * B * p == p * r * B;
    MulAtMost(B / 2, d1 * p, r);
    Regroup(d1, p, r);
  }

  /** Normalising the divisor: with p = 2^s and r = 2^(32 - s), (d << s) >> 32 loses no
      high bits and is d / r. */
  lemma Normalised(d: int, p: int, r: int)
    requires B <= d < B2 && p > 0 && r > 0 && p * r == B && B / 2 <= d / B * p < B
    ensures d * p < B2 && d * p % B2 / B == d / r && B / 2 <= d / r < B
  {
    var d1 := d / B;
    LessByProduct(d1, r, p);
    TopBits(d, d1, p, r);
    DivDiv(d * p, p, r);
    CancelFactor(d, p);
    QuotientBetween(d, r, B / 2, B);
  }

  lemma ErrorProduct(p: int, r: int, x: int, y: int)
    requires p > 0 && r >= 2 && p * r == B && 0 <= x <= 2 * p - 2 && 0 <= y <= r - 1
    ensures x * y <= B / 2 * r
  {
    MulAtMost(y, r - 1, x);
    MulAtMost(x, 2 * p - 2, r - 1);
    assert (2 * p - 2) * (r - 1) == 2 * (p * r) - 2 * p - 2 * r + 2;
    if r < 4 {
      assert r == 2;
    }
  }

  lemma SmallError(n: int, d: int, p: int, r: int, v: int, q: int)
    requires 0 <= n < B2 && p > 0 && r >= 2 && p * r == B && B / 2 <= v
    requires v * r <= d < v * r + r && 1 <= q && q * (v * r) <= n
    ensures (q - 1) * d <= n
  {
    var e, h := v * r, B / 2 * r;
    MulAtMost(B / 2, v, r);
    MulAtMost(h, e, q);
    assert 2 * p * h == B * (p * r);
    LessByProduct(q, 2 * p, h);
    ErrorProduct(p, r, q - 1, d - e);
    assert (q - 1) * d == (q - 1) * e + (q - 1) * (d - e);
    assert (q - 1) * e == q * e - e;
  }

  /** The estimate from the top bits of the divisor is the quotient or one more. */
  lemma Estimate(n: int, d: int, p: int, r: int, v: int)
    requires 0 <= n < B2 && p > 0 && r >= 2 && p * r == B && v == d / r && B / 2 <= v < B
    requires d <= n
    ensures v * r > 0 && n / d <= n / (v * r) <= n / d + 1 && 1 <= n / (v * r)
  {
    var e := v * r;
    DivBounds(d, r);
    MulAtMost(B / 2, v, r);
    var q := n / e;
    DivBounds(n, e);
    DivBounds(n, d);
    MulAtMost(e, d, n / d);
    assert (q + 1) * e == q * e + e;
    LessByProduct(n / d, q + 1, e);
    LessByProduct(1, q + 1, e);
    SmallError(n, d, p, r, v, q);
    assert (n / d + 1) * d == n / d * d + d;
    LessByProduct(q - 1, n / d + 1, d);
  }

  /** The branch for 32-bit divisors. */
  method DivideNarrow(n: int, d: int) returns (r: int)
    requires DoubleWord(n) && 0 < d < B
    ensures r == n / d
  {
    var n1, n0 := n / B, n % B;
    TwoStep(n1, n0, d);
    r := Divl(B * (n1 % d) + n0, d) + B * (n1 / d);
  }

  lemma ThreeDivisions(n: int, v: int, h: int)
    requires n >= 0 && v > 0 && h > 0
    ensures v * (2 * h) > 0 && n / 2 / v / h == n / (v * (2 * h))
  {
    DivDiv(n, 2, v);
    DivDiv(n, 2 * v, h);
    assert 2 * v * h == v * (2 * h);
  }

  lemma PowerSplit(s: nat)
    requires s <= 31
    ensures Pow2(s) * (2 * Pow2(31 - s)) == B
  {
    Powers();
    Pow2Add(16, 16);
    Pow2Add(s, 32 - s);
  }

  lemma HalfFits(n: int, v: int)
    requires 0 <= n < B2 && B / 2 <= v < B
    ensures DoubleWord(n / 2) && n / 2 / v < B
  {
    QuotientBetween(n / 2, v, 0, B);
  }

  lemma ChooseQuotient(n: int, d: int, q: int)
    requires 0 < d <= n < B2 && n / d <= q <= n / d + 1 && 1 <= q
    ensures 0 <= (q - 1) * d <= n
    ensures (if n - (q - 1) * d < d then q - 1 else q) == n / d
  {
    DivBounds(n, d);
    assert (q - 1) * d == q * d - d;
    if q == n / d + 1 {
      assert (q - 1) * d == n / d * d;
    } else {
      MulAtMost(0, q - 1, d);
    }
  }

  /** The branch for divisors of more than 32 bits. */
  method DivideWide(n: int, d: int) returns (r: int)
    requires B <= d <= n < B2
    ensures r == n / d
  {
    var s := Nlz(d / B);
    var p, h := Pow2(s), Pow2(31 - s);
    PowerSplit(s);
    Normalised(d, p, 2 * h);
    var v := d * p % B2 / B;
    HalfFits(n, v);
    var q := Divl(n / 2, v) / h;
    ThreeDivisions(n, v, h);
    Estimate(n, d, p, 2 * h, v);
    ChooseQuotient(n, d, q);
    r := if (n - (q - 1) * d) % B2 < d then q - 1 else q;
  }

  lemma QuotientAtMost(n: nat, d: nat)
    requires d > 0
    ensures n / d <= n
    ensures n > 0 && d > 1 ==> n / d < n
  {
    if n > 0 {
      MulAtMost(1, d, n + 1);
      QuotientBetween(n, d, 0, n + 1);
      if d > 1 {
        MulAtMost(2, d, n);
        QuotientBetween(n, d, 0, n);
      }
    }
  }

  /** udiv64 computes the floor quotient for every n and every nonzero d.  Each use of
      Divl proves that the instruction does not trap. */
  method Udiv64(n: int, d: int) returns (r: int)
    requires DoubleWord(n) && DoubleWord(d) && d != 0
    ensures r == n / d && DoubleWord(r)
  {
    QuotientAtMost(n, d);
    if d / B == 0 {
      r := DivideNarrow(n, d);
    } else if n < d {
      QuotientUnique(n, d, 0);
      r := 0;
    } else {
      r := DivideWide(n, d);
    }
  }

  lemma Commute(x: int, y: int)
    ensures x * y == y * x
  {
  }

  /** umod64 returns the remainder reduced to 32 bits. */
  method Umod64(n: int, d: int) returns (r: int)
    requires DoubleWord(n) && DoubleWord(d) && d != 0
    ensures Word(r) && r == n % d % B
    ensures r == n % d <==> n % d < B
  {
    var q := Udiv64(n, d);
    DivMod(n, d);
    Commute(d, q);
    r := (n - d * q) % B2 % B;
  }

  predicate SignedDouble(x: int) {
    -(B2 / 2) <= x < B2 / 2
  }

  /** Two's complement reinterpretation of the low 64 and 32 bits. */
  function ToInt64(x: int): (r: int)
    ensures SignedDouble(r) && (SignedDouble(x) ==> r == x)
  {
    (x + B2 / 2) % B2 - B2 / 2
  }

  function ToInt32(x: int): (r: int)
    ensures -(B / 2) <= r < B / 2 && (r == x <==> -(B / 2) <= x < B / 2)
  {
    (x + B / 2) % B - B / 2
  }

  function Abs(x: int): nat {
    if x >= 0 then x else -x
  }

  /** C's division: the quotient is rounded toward zero, the remainder takes n's sign. */
  function Truncated(n: int, d: int): int
    requires d != 0
  {
    if (n < 0) == (d < 0) then Abs(n) / Abs(d) else -(Abs(n) / Abs(d))
  }

  lemma TruncatedMeaning(n: int, d: int)
    requires d != 0
    ensures Abs(Truncated(n, d) * d) <= Abs(n) < Abs(Truncated(n, d) * d) + Abs(d)
    ensures Abs(n - Truncated(n, d) * d) < Abs(d)
    ensures n >= 0 ==> n - Truncated(n, d) * d >= 0 && Truncated(n, d) * d >= 0
    ensures n <= 0 ==> n - Truncated(n, d) * d <= 0 && Truncated(n, d) * d <= 0
  {
    var q := Abs(n) / Abs(d);
    DivBounds(Abs(n), Abs(d));
    assert Truncated(n, d) * d == if n < 0 then -(q * Abs(d)) else q * Abs(d) by {
      assert (-q) * d == -(q * d) == q * (-d);
    }
  }

  /** Negation of an unsigned 64-bit word. */
  function Magnitude(x: int): (r: int)
    requires SignedDouble(x)
    ensures r == Abs(x) && DoubleWord(r)
  {
    if x >= 0 then x else -x % B2
  }

  /** A quotient of 2^63 arises only from the least number and a divisor of magnitude 1. */
  lemma QuotientRange(n: int, d: int)
    requires SignedDouble(n) && SignedDouble(d) && d != 0
    ensures Abs(n) / Abs(d) <= B2 / 2
    ensures Abs(n) / Abs(d) == B2 / 2 <==> n == -(B2 / 2) && Abs(d) == 1
  {
    QuotientAtMost(Abs(n), Abs(d));
    if Abs(d) == 1 {
      assert Abs(n) / 1 == Abs(n);
    }
  }

  lemma SignedQuotient(q: int, same: bool)
    requires 0 <= q <= B2 / 2
    ensures same ==> (ToInt64(q) == q <==> q < B2 / 2)
    ensures !same ==> ToInt64(-ToInt64(q)) == -q
  {
  }

  /** sdiv64 truncates toward zero except where the quotient is not representable.  The
      negation of the least number, a signed overflow in C when it is divided by 1, wraps
      around here. */
  method Sdiv64(n: int, d: int) returns (r: int)
    requires SignedDouble(n) && SignedDouble(d) && d != 0
    ensures r == ToInt64(Truncated(n, d))
    ensures r == Truncated(n, d) <==> !(n == -(B2 / 2) && d == -1)
  {
    var nAbs := Magnitude(n);
    var dAbs := Magnitude(d);
    var qAbs := Udiv64(nAbs, dAbs);
    QuotientRange(n, d);
    SignedQuotient(qAbs, (n < 0) == (d < 0));
    r := if (n < 0) == (d < 0) then ToInt64(qAbs) else ToInt64(-ToInt64(qAbs));
  }

  lemma SubtractFits(n: int, t: int)
    requires SignedDouble(n) && SignedDouble(n - t) && SignedDouble(t)
    ensures ToInt64(n - ToInt64(t)) == n - t
  {
  }

  /** Even where the quotient wraps, the remainder comes out right. */
  lemma WrappedRemainder(n: int, d: int, q: int)
    requires SignedDouble(n) && SignedDouble(d) && d != 0 && q == ToInt64(Truncated(n, d))
    requires q == Truncated(n, d) <==> !(n == -(B2 / 2) && d == -1)
    ensures ToInt64(n - ToInt64(d * q)) == n - Truncated(n, d) * d
  {
    TruncatedMeaning(n, d);
    if n == -(B2 / 2) && d == -1 {
      assert Truncated(n, d) == Abs(n) / 1;
    } else {
      Commute(d, q);
      SubtractFits(n, d * q);
    }
  }

  /** smod64 returns the C remainder exactly when that fits in 32 bits. */
  method Smod64(n: int, d: int) returns (r: int)
    requires SignedDouble(n) && SignedDouble(d) && d != 0
    ensures r == ToInt32(n - Truncated(n, d) * d)
    ensures r == n - Truncated(n, d) * d <==> -(B / 2) <= n - Truncated(n, d) * d < B / 2
  {
    var q := Sdiv64(n, d);
    WrappedRemainder(n, d, q);
    r := ToInt32(ToInt64(n - ToInt64(d * q)));
  }

  /** The remainder functions are wrong as soon as the remainder needs more than 32 bits. */
  method WideRemainderLost() returns (r: int)
    ensures r == 0 && B % (B + 1) == B
  {
    r := Umod64(B, B + 1);
  }
}
