/** Integer conversions of printf, snprintf's truncation, and atoi (lib/stdio.c,
    lib/stdlib.c).  A C string is a sequence of characters without its terminator. */
module Printf {
  import opened Storage
  import opened Integers

  const BUF_SIZE := 64
  const UINTMAX_LIMIT := 0x1_0000_0000_0000_0000
  const INT_LIMIT := 0x8000_0000
  const NUL := '\0'

  datatype Flags = Flags(minus: bool, plus: bool, space: bool, pound: bool, zero: bool, group: bool)

  /** struct printf_conversion; a precision of -1 means none. */
  datatype Conversion = Conversion(flags: Flags, width: nat, precision: int)

  /** struct integer_base */
  datatype Base = Base(base: nat, digits: string, x: Option<char>, group: nat)

  const BASE_D := Base(10, "0123456789", None, 3)
  const BASE_O := Base(8, "01234567", None, 3)

  predicate BaseOk(b: Base) {
    8 <= b.base == |b.digits| && b.group >= 1
  }

  // What a conversion produces ----------------------------------------------------------

  function Repeat(ch: char, n: nat): (s: string)
    ensures |s| == n && forall i | 0 <= i < n :: s[i] == ch
  {
    seq(n, _ => ch)
  }

  function Reversed(s: string): (r: string)
    ensures |r| == |s|
  {
    if s == "" then "" else Reversed(s[1..]) + [s[0]]
  }

  function Separator(b: Base, grouping: bool, count: nat): string
    requires BaseOk(b)
  {
    if grouping && count > 0 && count % b.group == 0 then "," else ""
  }

  /** The digits of value, least significant first; `count` digits came before. */
  function Rendered(value: nat, b: Base, grouping: bool, count: nat): string
    requires BaseOk(b)
    decreases value
  {
    if value == 0 then ""
    else
      Separator(b, grouping, count) + [b.digits[value % b.base]] + Rendered(value / b.base, b, grouping, count + 1)
  }

  /** The sign character of a conversion. */
  function SignOf(signed: bool, negative: bool, flags: Flags): string {
    if !signed then ""
    else if negative then "-"
    else if flags.plus then "+"
    else if flags.space then " "
    else ""
  }

  function Prefix(value: nat, b: Base, flags: Flags): string {
    if flags.pound && value != 0 && b.x.Some? then ['0', b.x.value] else ""
  }

  /** The digit buffer after zeros have been added to match the precision. */
  function Padded(digits: string, c: Conversion): string {
    var precision := if c.precision < 0 then 1 else c.precision;
    var goal := if precision < BUF_SIZE - 1 then precision else BUF_SIZE - 1;
    digits + Repeat('0', if |digits| < goal then goal - |digits| else 0)
  }

  /** With # an octal conversion begins with a zero. */
  function Buffer(value: nat, b: Base, c: Conversion): string
    requires BaseOk(b)
  {
    var s := Padded(Rendered(value, b, c.flags.group, 0), c);
    if c.flags.pound && b.base == 8 && (s == "" || s[|s| - 1] != '0') then s + "0" else s
  }

  /** The number of pad characters. */
  function PadCount(length: nat, width: nat): nat {
    if length < width then width - length else 0
  }

  function PadOf(value: nat, signed: bool, negative: bool, b: Base, c: Conversion): nat
    requires BaseOk(b)
  {
    PadCount(|Buffer(value, b, c)| + |Prefix(value, b, c.flags)| + |SignOf(signed, negative, c.flags)|, c.width)
  }

  function LeftPad(pad: nat, flags: Flags): nat {
    if flags.minus || flags.zero then 0 else pad
  }

  function ZeroPad(pad: nat, flags: Flags): nat {
    if flags.zero then pad else 0
  }

  function RightPad(pad: nat, flags: Flags): nat {
    if flags.minus then pad else 0
  }

  function Formatted(value: nat, signed: bool, negative: bool, b: Base, c: Conversion): string
    requires BaseOk(b)
  {
    var pad := PadOf(value, signed, negative, b, c);
    Repeat(' ', LeftPad(pad, c.flags)) + SignOf(signed, negative, c.flags) + Prefix(value, b, c.flags)
    + Repeat('0', ZeroPad(pad, c.flags)) + Reversed(Buffer(value, b, c)) + Repeat(' ', RightPad(pad, c.flags))
  }

  // The digit buffer never overflows ------------------------------------------------------

  function Power(base: nat, n: nat): nat {
    if n == 0 then 1 else base * Power(base, n - 1)
  }

  /** n octal digits, with separators, take at most 2n characters in any base. */
  lemma {:induction false} RenderedLength(value: nat, b: Base, grouping: bool, count: nat, n: nat)
    requires BaseOk(b) && value < Power(8, n)
    ensures |Rendered(value, b, grouping, count)| <= 2 * n
    decreases n
  {
    if value > 0 {
      DivByMore(value, 8, b.base);
      assert value / 8 < Power(8, n - 1);
      RenderedLength(value / b.base, b, grouping, count + 1, n - 1);
    }
  }

  lemma MaximumFits()
    ensures UINTMAX_LIMIT <= Power(8, 22)
  {
    assert Power(8, 4) == 4096;
    assert Power(8, 8) == 4096 * Power(8, 4);
    assert Power(8, 12) == 4096 * Power(8, 8);
    assert Power(8, 16) == 4096 * Power(8, 12);
    assert Power(8, 20) == 4096 * Power(8, 16);
    assert Power(8, 22) == 64 * Power(8, 20);
  }

  lemma BufferFits(value: nat, b: Base, c: Conversion)
    requires BaseOk(b) && value < UINTMAX_LIMIT
    ensures |Rendered(value, b, c.flags.group, 0)| <= 44 && |Buffer(value, b, c)| <= BUF_SIZE
  {
    MaximumFits();
    RenderedLength(value, b, c.flags.group, 0, 22);
  }

  /** output_dup */
  method OutputDup(ch: char, n: nat, out: string) returns (r: string)
    ensures r == out + Repeat(ch, n)
  {
    r := out;
    for i := 0 to n
      invariant r == out + Repeat(ch, i)
    {
      r := r + [ch];
    }
  }

  /** Appends a character to the first n of the buffer. */
  method Append(buf: array<char>, n: nat, ch: char)
    requires n < buf.Length
    modifies buf
    ensures buf[..n + 1] == old(buf[..n]) + [ch]
  {
    buf[n] := ch;
  }

  method AppendDigit(v: nat, b: Base, grouping: bool, count: nat, buf: array<char>, n: nat) returns (n': nat)
    requires BaseOk(b) && n + |Separator(b, grouping, count)| < buf.Length
    modifies buf
    ensures n' <= buf.Length
    ensures buf[..n'] == old(buf[..n]) + Separator(b, grouping, count) + [b.digits[v % b.base]]
  {
    n' := n;
    if grouping && count > 0 && count % b.group == 0 {
      Append(buf, n', ',');
      n' := n' + 1;
    }
    Append(buf, n', b.digits[v % b.base]);
    n' := n' + 1;
  }

  lemma RenderedStep(was: string, v: nat, b: Base, grouping: bool, count: nat, size: nat)
    requires BaseOk(b) && v > 0 && |was + Rendered(v, b, grouping, count)| <= size
    ensures var sep := Separator(b, grouping, count);
            && |was + sep| < size
            && was + Rendered(v, b, grouping, count)
               == was + sep + [b.digits[v % b.base]] + Rendered(v / b.base, b, grouping, count + 1)
  {
  }

  /** Accumulates the digits, least significant first; every store is within the buffer. */
  method RenderDigits(value: nat, b: Base, grouping: bool, buf: array<char>) returns (n: nat)
    requires BaseOk(b) && |Rendered(value, b, grouping, 0)| <= buf.Length
    modifies buf
    ensures n <= buf.Length && buf[..n] == Rendered(value, b, grouping, 0)
  {
    var v: nat, count: nat := value, 0;
    n := 0;
    while v > 0
      invariant n <= buf.Length && buf[..n] + Rendered(v, b, grouping, count) == Rendered(value, b, grouping, 0)
      decreases v
    {
      RenderedStep(buf[..n], v, b, grouping, count, buf.Length);
      DivLess(v, b.base);
      n := AppendDigit(v, b, grouping, count, buf, n);
      v, count := v / b.base, count + 1;
    }
  }

  method PadZeros(c: Conversion, buf: array<char>, digits: nat) returns (n: nat)
    requires digits <= BUF_SIZE - 1 && buf.Length == BUF_SIZE
    modifies buf
    ensures n <= BUF_SIZE - 1 && buf[..n] == Padded(old(buf[..digits]), c)
  {
    ghost var was := buf[..digits];
    n := digits;
    var precision := if c.precision < 0 then 1 else c.precision;
    while n < precision && n < BUF_SIZE - 1
      invariant digits <= n <= BUF_SIZE - 1 && buf[..n] == was + Repeat('0', n - digits)
      invariant n > digits ==> n <= precision
    {
      assert was + Repeat('0', n + 1 - digits) == was + Repeat('0', n - digits) + "0";
      Append(buf, n, '0');
      n := n + 1;
    }
  }

  /** The digit buffer; no store goes past its 64 bytes. */
  method FillBuffer(value: nat, b: Base, c: Conversion, buf: array<char>) returns (n: nat)
    requires BaseOk(b) && value < UINTMAX_LIMIT && buf.Length == BUF_SIZE
    modifies buf
    ensures n <= BUF_SIZE && buf[..n] == Buffer(value, b, c)
  {
    BufferFits(value, b, c);
    n := RenderDigits(value, b, c.flags.group, buf);
    n := PadZeros(c, buf, n);
    if c.flags.pound && b.base == 8 && (n == 0 || buf[n - 1] != '0') {
      Append(buf, n, '0');
      n := n + 1;
    }
  }

  lemma {:induction false} ReversedLast(s: string)
    requires s != ""
    ensures Reversed(s) == [s[|s| - 1]] + Reversed(s[..|s| - 1])
  {
    if |s| > 1 {
      ReversedLast(s[1..]);
      assert s[1..][..|s| - 2] == s[..|s| - 1][1..];
    }
  }

  /** Outputs the buffer's contents last character first. */
  method OutputReversed(buf: array<char>, n: nat, out: string) returns (r: string)
    requires n <= buf.Length
    ensures r == out + Reversed(buf[..n])
  {
    r := out;
    var i := n;
    while i > 0
      invariant 0 <= i <= n && r + Reversed(buf[..i]) == out + Reversed(buf[..n])
    {
      i := i - 1;
      ReversedLast(buf[..i + 1]);
      assert buf[..i + 1][..i] == buf[..i];
      r := r + [buf[i]];
    }
  }

  lemma Associate(out: string, a: string, b: string, c: string, d: string, e: string, f: string)
    ensures out + a + b + c + d + e + f == out + (a + b + c + d + e + f)
  {
  }

  /** format_integer: appends the conversion to the output. */
  method FormatInteger(value: nat, signed: bool, negative: bool, b: Base, c: Conversion, out: string)
    returns (r: string)
    requires BaseOk(b) && value < UINTMAX_LIMIT
    ensures r == out + Formatted(value, signed, negative, b, c)
  {
    var sign, prefix := SignOf(signed, negative, c.flags), Prefix(value, b, c.flags);
    var buf := new char[BUF_SIZE];
    var n := FillBuffer(value, b, c, buf);
    var pad := PadCount(n + |prefix| + |sign|, c.width);
    ghost var left, zeros := Repeat(' ', LeftPad(pad, c.flags)), Repeat('0', ZeroPad(pad, c.flags));
    ghost var right := Repeat(' ', RightPad(pad, c.flags));
    Associate(out, left, sign, prefix, zeros, Reversed(buf[..n]), right);
    assert Formatted(value, signed, negative, b, c) == left + sign + prefix + zeros + Reversed(buf[..n]) + right;
    r := out;
    if !c.flags.minus && !c.flags.zero {
      r := OutputDup(' ', pad, r);
    }
    assert r == out + left;
    r := r + sign + prefix;
    if c.flags.zero {
      r := OutputDup('0', pad, r);
    }
    assert r == out + left + sign + prefix + zeros;
    r := OutputReversed(buf, n, r);
    ghost var body := r;
    if c.flags.minus {
      r := OutputDup(' ', pad, r);
    }
    assert r == body + right;
  }

  // Reading numbers back ------------------------------------------------------------------

  predicate IsDigit(ch: char) {
    '0' <= ch <= '9'
  }

  predicate IsSpace(ch: char) {
    ch == ' ' || ch == '\n' || ch == '\r' || ch == '\t' || ch as int == 11 || ch as int == 12
  }

  function DigitValue(ch: char): int {
    ch as int - '0' as int
  }

  ghost predicate AllDigits(s: string) {
    forall i | 0 <= i < |s| :: IsDigit(s[i])
  }

  /** The number that a string of digits continues from acc. */
  function Fold(base: nat, s: string, acc: int): int {
    if s == "" then acc else Fold(base, s[1..], acc * base + DigitValue(s[0]))
  }

  /** The bases whose digits are decimal digits. */
  ghost predicate PlainBase(b: Base) {
    BaseOk(b) && forall k | 0 <= k < b.base :: IsDigit(b.digits[k]) && DigitValue(b.digits[k]) == k
  }

  /** The shortest numeral of value, and the empty string for 0. */
  function Digits(value: nat, b: Base): string
    requires BaseOk(b)
  {
    if value == 0 then "" else Digits(value / b.base, b) + [b.digits[value % b.base]]
  }

  lemma {:induction false} FoldConcat(base: nat, s: string, t: string, acc: int)
    ensures Fold(base, s + t, acc) == Fold(base, t, Fold(base, s, acc))
  {
    if s == "" {
      assert s + t == t;
    } else {
      assert (s + t)[1..] == s[1..] + t;
      FoldConcat(base, s[1..], t, acc * base + DigitValue(s[0]));
    }
  }

  lemma {:induction false} FoldZeros(base: nat, n: nat)
    ensures Fold(base, Repeat('0', n), 0) == 0
  {
    if n > 0 {
      assert Repeat('0', n)[1..] == Repeat('0', n - 1);
      FoldZeros(base, n - 1);
    }
  }

  lemma FoldOne(base: nat, d: char, acc: int)
    ensures Fold(base, [d], acc) == acc * base + DigitValue(d)
  {
    assert [d][1..] == "";
  }

  /** Reading the digits of a value gives the value. */
  lemma {:induction false} FoldDigits(value: nat, b: Base)
    requires PlainBase(b)
    ensures AllDigits(Digits(value, b)) && Fold(b.base, Digits(value, b), 0) == value
  {
    if value > 0 {
      DivLess(value, b.base);
      DivMod(value, b.base);
      FoldDigits(value / b.base, b);
      var d := b.digits[value % b.base];
      FoldConcat(b.base, Digits(value / b.base, b), [d], 0);
      FoldOne(b.base, d, value / b.base);
    }
  }

  lemma {:induction false} ReversedConcat(s: string, t: string)
    ensures Reversed(s + t) == Reversed(t) + Reversed(s)
  {
    if s == "" {
      assert s + t == t;
    } else {
      assert (s + t)[1..] == s[1..] + t;
      ReversedConcat(s[1..], t);
    }
  }

  lemma {:induction false} ReversedRepeat(ch: char, n: nat)
    ensures Reversed(Repeat(ch, n)) == Repeat(ch, n)
  {
    if n > 0 {
      assert Repeat(ch, n)[1..] == Repeat(ch, n - 1);
      ReversedRepeat(ch, n - 1);
    }
  }

  lemma {:induction false} RenderedReversed(value: nat, b: Base, count: nat)
    requires BaseOk(b)
    ensures Reversed(Rendered(value, b, false, count)) == Digits(value, b)
    decreases value
  {
    if value > 0 {
      RenderedReversed(value / b.base, b, count + 1);
      var d := b.digits[value % b.base];
      assert Rendered(value, b, false, count) == [d] + Rendered(value / b.base, b, false, count + 1);
      ReversedConcat([d], Rendered(value / b.base, b, false, count + 1));
    }
  }

  /** Without grouping the buffer, reversed, is zeros followed by the digits. */
  lemma BufferReversed(value: nat, b: Base, c: Conversion) returns (zeros: nat)
    requires BaseOk(b) && !c.flags.group
    ensures Reversed(Buffer(value, b, c)) == Repeat('0', zeros) + Digits(value, b)
  {
    var digits := Rendered(value, b, false, 0);
    var padded := Padded(digits, c);
    zeros := |padded| - |digits|;
    RenderedReversed(value, b, 0);
    ReversedConcat(digits, Repeat('0', zeros));
    ReversedRepeat('0', zeros);
    if Buffer(value, b, c) != padded {
      ReversedConcat(padded, "0");
      assert "0" + Repeat('0', zeros) == Repeat('0', zeros + 1);
      zeros := zeros + 1;
    }
  }

  // atoi ------------------------------------------------------------------------------------

  function SkipSpace(s: string): string {
    if s != "" && IsSpace(s[0]) then SkipSpace(s[1..]) else s
  }

  /** The number that the leading digits continue from acc. */
  function LeadValue(s: string, acc: int): int {
    if s != "" && IsDigit(s[0]) then LeadValue(s[1..], acc * 10 + DigitValue(s[0])) else acc
  }

  function AtoiValue(s: string): int {
    var t := SkipSpace(s);
    if t != "" && t[0] == '+' then LeadValue(t[1..], 0)
    else if t != "" && t[0] == '-' then -LeadValue(t[1..], 0)
    else LeadValue(t, 0)
  }

  lemma {:induction false} SkipSpaces(n: nat, t: string)
    ensures SkipSpace(Repeat(' ', n) + t) == SkipSpace(t)
  {
    if n == 0 {
      assert Repeat(' ', n) + t == t;
    } else {
      assert (Repeat(' ', n) + t)[1..] == Repeat(' ', n - 1) + t;
      SkipSpaces(n - 1, t);
    }
  }

  lemma {:induction false} LeadFold(body: string, tail: string, acc: int)
    requires AllDigits(body) && (tail == "" || !IsDigit(tail[0]))
    ensures LeadValue(body + tail, acc) == Fold(10, body, acc)
  {
    if body == "" {
      assert body + tail == tail;
    } else {
      assert (body + tail)[1..] == body[1..] + tail;
      LeadFold(body[1..], tail, acc * 10 + DigitValue(body[0]));
    }
  }

  /** atoi of optional spaces, a sign, digits and trailing spaces. */
  lemma SignedNumeral(n: nat, sign: string, body: string, m: nat)
    requires AllDigits(body) && sign in {"", " ", "+", "-"}
    ensures AtoiValue(Repeat(' ', n) + sign + body + Repeat(' ', m))
            == if sign == "-" then -Fold(10, body, 0) else Fold(10, body, 0)
  {
    var tail := body + Repeat(' ', m);
    assert Repeat(' ', n) + sign + body + Repeat(' ', m) == Repeat(' ', n) + (sign + tail);
    SkipSpaces(n, sign + tail);
    LeadFold(body, Repeat(' ', m), 0);
    if sign == "+" || sign == "-" {
      assert (sign + tail)[1..] == tail;
    } else {
      if sign == " " {
        assert (sign + tail)[1..] == tail;
      } else {
        assert sign + tail == tail;
      }
      if body == "" {
        assert tail == Repeat(' ', m) + "";
        SkipSpaces(m, "");
      } else {
        assert tail[0] == body[0];
      }
    }
  }

  lemma Assemble(left: nat, sign: string, inner: nat, buffer: string, right: nat, zeros: nat, digits: string)
    requires buffer == Repeat('0', zeros) + digits
    ensures Repeat(' ', left) + sign + "" + Repeat('0', inner) + buffer + Repeat(' ', right)
            == Repeat(' ', left) + sign + (Repeat('0', inner + zeros) + digits) + Repeat(' ', right)
  {
    assert Repeat('0', inner) + Repeat('0', zeros) == Repeat('0', inner + zeros);
    assert Repeat('0', inner) + buffer == Repeat('0', inner + zeros) + digits;
    assert Repeat(' ', left) + sign + "" + Repeat('0', inner) + buffer
        == Repeat(' ', left) + sign + (Repeat('0', inner) + buffer);
  }

  /** Without grouping and 0x, a conversion is spaces, sign, zeros, digits and spaces. */
  lemma FormattedShape(value: nat, signed: bool, negative: bool, b: Base, c: Conversion) returns (zeros: nat)
    requires BaseOk(b) && !c.flags.group && b.x.None?
    ensures var pad := PadOf(value, signed, negative, b, c);
            Formatted(value, signed, negative, b, c)
            == Repeat(' ', LeftPad(pad, c.flags)) + SignOf(signed, negative, c.flags)
               + (Repeat('0', zeros) + Digits(value, b)) + Repeat(' ', RightPad(pad, c.flags))
  {
    var pad, sign := PadOf(value, signed, negative, b, c), SignOf(signed, negative, c.flags);
    var k := BufferReversed(value, b, c);
    assert Prefix(value, b, c.flags) == "";
    Assemble(LeftPad(pad, c.flags), sign, ZeroPad(pad, c.flags), Reversed(Buffer(value, b, c)), RightPad(pad, c.flags),
             k, Digits(value, b));
    zeros := ZeroPad(pad, c.flags) + k;
  }

  /** Leading zeros do not change a numeral. */
  lemma ZerosAndDigits(zeros: nat, value: nat, b: Base)
    requires PlainBase(b)
    ensures AllDigits(Repeat('0', zeros) + Digits(value, b))
    ensures Fold(b.base, Repeat('0', zeros) + Digits(value, b), 0) == value
  {
    FoldDigits(value, b);
    FoldConcat(b.base, Repeat('0', zeros), Digits(value, b), 0);
    FoldZeros(b.base, zeros);
  }

  lemma PlainBases()
    ensures PlainBase(BASE_D) && PlainBase(BASE_O)
  {
  }

  lemma AtoiInvertsDecimal(size: int, negative: bool, b: Base, c: Conversion)
    requires size >= 0 && !c.flags.group && PlainBase(b) && b.base == 10 && b.x.None?
    ensures AtoiValue(Formatted(size, true, negative, b, c)) == if negative then -size else size
  {
    var sign, pad := SignOf(true, negative, c.flags), PadOf(size, true, negative, b, c);
    var zeros := FormattedShape(size, true, negative, b, c);
    ZerosAndDigits(zeros, size, b);
    SignedNumeral(LeftPad(pad, c.flags), sign, Repeat('0', zeros) + Digits(size, b), RightPad(pad, c.flags));
  }

  /** atoi inverts %d for every integer and every combination of flags, width and precision
      without the grouping flag. */
  lemma AtoiInverts(value: int, c: Conversion)
    requires !c.flags.group
    ensures AtoiValue(Formatted(if value < 0 then -value else value, true, value < 0, BASE_D, c)) == value
  {
    PlainBases();
    AtoiInvertsDecimal(if value < 0 then -value else value, value < 0, BASE_D, c);
  }

  /** The field width: the output is never shorter, and longer than needed only when both
      zero and space padding are in force, as after a negative * width with the 0 flag. */
  lemma FieldWidth(value: nat, signed: bool, negative: bool, b: Base, c: Conversion)
    requires BaseOk(b)
    ensures var text := |Buffer(value, b, c)| + |Prefix(value, b, c.flags)| + |SignOf(signed, negative, c.flags)|;
            var least := if text < c.width then c.width else text;
            && |Formatted(value, signed, negative, b, c)| >= least
            && (|Formatted(value, signed, negative, b, c)| == least <==>
                  !(c.flags.minus && c.flags.zero) || c.width <= text)
  {
  }

  /** Such a conversion pads 7 to nine columns where five are asked for. */
  lemma DoublePadding()
    ensures var c := Conversion(Flags(true, false, false, false, true, false), 5, -1);
            Formatted(7, true, false, BASE_D, c) == "00007    "
  {
    var c := Conversion(Flags(true, false, false, false, true, false), 5, -1);
    assert Rendered(7, BASE_D, false, 0) == "7";
    assert Buffer(7, BASE_D, c) == "7";
    assert Reversed("7") == "7";
  }

  /** The text without a field width. */
  function Unpadded(value: nat, signed: bool, negative: bool, b: Base, c: Conversion): string
    requires BaseOk(b)
  {
    Formatted(value, signed, negative, b, c.(width := 0))
  }

  /** `wide` is `text` in a field of the given width: without '-' and '0' it gets spaces on the
      left, with '-' spaces on the right, with '0' zeros behind its first k characters. */
  predicate InField(wide: string, text: string, k: nat, width: nat, flags: Flags) {
    var pad := if |text| < width then width - |text| else 0;
    && k <= |text|
    && wide == if flags.zero then
                 text[..k] + Repeat('0', pad) + text[k..] + Repeat(' ', if flags.minus then pad else 0)
               else if flags.minus then text + Repeat(' ', pad)
               else Repeat(' ', pad) + text
  }

  /** The parts of a conversion in their order. */
  function Assembled(sign: string, prefix: string, digits: string, pad: nat, flags: Flags): string {
    Repeat(' ', LeftPad(pad, flags)) + sign + prefix + Repeat('0', ZeroPad(pad, flags)) + digits
    + Repeat(' ', RightPad(pad, flags))
  }

  lemma AssembledInField(sign: string, prefix: string, digits: string, width: nat, flags: Flags)
    ensures InField(Assembled(sign, prefix, digits, PadCount(|digits| + |prefix| + |sign|, width), flags),
                    sign + prefix + digits, |sign| + |prefix|, width, flags)
  {
    var text, k := sign + prefix + digits, |sign| + |prefix|;
    assert text[..k] == sign + prefix && text[k..] == digits;
    assert Repeat(' ', 0) == "" && Repeat('0', 0) == "";
  }

  lemma FormattedParts(value: nat, signed: bool, negative: bool, b: Base, c: Conversion, sign: string, prefix: string,
                       digits: string)
    requires BaseOk(b) && sign == SignOf(signed, negative, c.flags) && prefix == Prefix(value, b, c.flags)
    requires digits == Reversed(Buffer(value, b, c))
    ensures Formatted(value, signed, negative, b, c)
            == Assembled(sign, prefix, digits, PadCount(|digits| + |prefix| + |sign|, c.width), c.flags)
  {
  }

  lemma UnpaddedParts(value: nat, signed: bool, negative: bool, b: Base, c: Conversion)
    requires BaseOk(b)
    ensures Unpadded(value, signed, negative, b, c)
            == SignOf(signed, negative, c.flags) + Prefix(value, b, c.flags) + Reversed(Buffer(value, b, c))
  {
    var sign, prefix := SignOf(signed, negative, c.flags), Prefix(value, b, c.flags);
    var digits := Reversed(Buffer(value, b, c));
    assert Buffer(value, b, c.(width := 0)) == Buffer(value, b, c);
    FormattedParts(value, signed, negative, b, c.(width := 0), sign, prefix, digits);
    assert Repeat(' ', 0) == "" && Repeat('0', 0) == "";
  }

  /** What a field width does, in terms of the text without one; zeros go behind the sign and
      the prefix. */
  lemma FieldPlacement(value: nat, signed: bool, negative: bool, b: Base, c: Conversion)
    requires BaseOk(b)
    ensures InField(Formatted(value, signed, negative, b, c), Unpadded(value, signed, negative, b, c),
                    |SignOf(signed, negative, c.flags)| + |Prefix(value, b, c.flags)|, c.width, c.flags)
  {
    var sign, prefix := SignOf(signed, negative, c.flags), Prefix(value, b, c.flags);
    var digits := Reversed(Buffer(value, b, c));
    FormattedParts(value, signed, negative, b, c, sign, prefix, digits);
    UnpaddedParts(value, signed, negative, b, c);
    AssembledInField(sign, prefix, digits, c.width, c.flags);
  }

  /** The sign: a minus for a negative number, else the one that a flag asks for; none in an
      unsigned conversion. */
  lemma SignPlacement(value: nat, negative: bool, b: Base, c: Conversion)
    requires BaseOk(b)
    ensures var text, bare := Unpadded(value, true, negative, b, c), Unpadded(value, false, false, b, c);
            text == if negative then "-" + bare else if c.flags.plus then "+" + bare
                    else if c.flags.space then " " + bare else bare
    ensures Unpadded(value, false, negative, b, c) == Unpadded(value, false, false, b, c)
  {
    UnpaddedParts(value, true, negative, b, c);
    UnpaddedParts(value, false, negative, b, c);
    UnpaddedParts(value, false, false, b, c);
    var rest := Prefix(value, b, c.flags) + Reversed(Buffer(value, b, c));
    assert forall sign: string :: sign + Prefix(value, b, c.flags) + Reversed(Buffer(value, b, c)) == sign + rest;
    assert "" + rest == rest;
  }

  /** How many digits there are: as many as the value has, but at least as many as the
      precision asks for, up to the size of the buffer; 1 if it says nothing. */
  lemma DigitCount(value: nat, b: Base, c: Conversion)
    requires BaseOk(b) && !c.flags.group && !c.flags.pound
    ensures var least := if c.precision < 0 then 1 else if c.precision < 63 then c.precision else 63;
            var n := |Digits(value, b)|;
            |Unpadded(value, false, false, b, c)| == if n < least then least else n
  {
    UnpaddedParts(value, false, false, b, c);
    RenderedReversed(value, b, 0);
  }

  lemma UnsignedText(value: nat, b: Base, c: Conversion)
    requires BaseOk(b) && b.x.None?
    ensures Unpadded(value, false, false, b, c) == Reversed(Buffer(value, b, c))
  {
    UnpaddedParts(value, false, false, b, c);
  }

  /** A zero is in front, and was added only if there was none. */
  predicate MarkedAs(marked: string, text: string) {
    marked == if "0" <= text then text else "0" + text
  }

  function WithZero(s: string): string {
    if s == "" || s[|s| - 1] != '0' then s + "0" else s
  }

  lemma MarkedReversed(s: string)
    ensures MarkedAs(Reversed(WithZero(s)), Reversed(s))
  {
    ReversedLast(s + "0");
    assert (s + "0")[..|s|] == s;
    if s != "" {
      ReversedLast(s);
    }
  }

  lemma MarkedBuffer(value: nat, b: Base, c: Conversion, d: Conversion)
    requires BaseOk(b) && b.base == 8 && !c.flags.pound && d == c.(flags := c.flags.(pound := true))
    ensures Buffer(value, b, d) == WithZero(Buffer(value, b, c))
  {
    var s := Padded(Rendered(value, b, c.flags.group, 0), c);
    assert Padded(Rendered(value, b, d.flags.group, 0), d) == s;
    assert Buffer(value, b, c) == s;
  }

  /** With # an octal number begins with a zero. */
  lemma OctalMark(value: nat, b: Base, c: Conversion, d: Conversion)
    requires BaseOk(b) && b.base == 8 && b.x.None? && !c.flags.pound && d == c.(flags := c.flags.(pound := true))
    ensures MarkedAs(Unpadded(value, false, false, b, d), Unpadded(value, false, false, b, c))
  {
    var s, t := Buffer(value, b, c), Buffer(value, b, d);
    assert Unpadded(value, false, false, b, c) == Reversed(s) by {
      UnsignedText(value, b, c);
    }
    assert Unpadded(value, false, false, b, d) == Reversed(t) by {
      UnsignedText(value, b, d);
    }
    assert t == WithZero(s) by {
      MarkedBuffer(value, b, c, d);
    }
    MarkedReversed(s);
  }

  /** The number of multiples of g among 1..m. */
  function Multiples(g: nat, m: int): (n: nat)
    requires g > 0
    ensures m > 0 ==> n <= m
    decreases m
  {
    if m <= 0 then 0 else Multiples(g, m - 1) + if m % g == 0 then 1 else 0
  }

  lemma QuotientBefore(m: nat, g: nat)
    requires m > 0 && g > 0
    ensures (m - 1) / g == m / g - if m % g == 0 then 1 else 0
  {
    var q := m / g;
    assert m == q * g + m % g;
    if m % g == 0 {
      assert (q - 1) * g == q * g - g;
      QuotientUnique(m - 1, g, q - 1);
    } else {
      QuotientUnique(m - 1, g, q);
    }
  }

  lemma {:induction false} MultiplesExact(g: nat, m: nat)
    requires g > 0
    ensures Multiples(g, m) == m / g
  {
    if m == 0 {
      QuotientUnique(0, g, 0);
    } else {
      MultiplesExact(g, m - 1);
      QuotientBefore(m, g);
    }
  }

  /** Digit i is at position j, behind a comma if `separated`. */
  predicate DigitAt(grouped: string, plain: string, i: nat, j: int, separated: bool) {
    && i < |plain| && 0 <= j < |grouped| && grouped[j] == plain[i]
    && (separated ==> j > 0 && grouped[j - 1] == ',')
    && (i + 1 == |plain| ==> j + 1 == |grouped|)
  }

  lemma DigitShifted(sep: string, d: char, grouped: string, plain: string, i: nat, j: int, separated: bool)
    requires DigitAt(grouped, plain, i, j, separated)
    ensures DigitAt(sep + [d] + grouped, [d] + plain, i + 1, j + |sep| + 1, separated)
  {
  }

  lemma RenderedPlain(value: nat, b: Base, count: nat)
    requires BaseOk(b) && value > 0
    ensures var rest := value / b.base;
            && rest < value
            && Rendered(value, b, false, count) == [b.digits[value % b.base]] + Rendered(rest, b, false, count + 1)
            && Rendered(value, b, true, count)
               == Separator(b, true, count) + [b.digits[value % b.base]] + Rendered(rest, b, true, count + 1)
            && (rest == 0 <==> Rendered(rest, b, false, count + 1) == "")
            && (rest == 0 ==> Rendered(rest, b, true, count + 1) == "")
  {
    DivLess(value, b.base);
  }

  /** Where digit i goes when separators are put in, `count` digits having come before. */
  function Place(g: nat, count: nat, i: nat): int
    requires g > 0
  {
    i + Multiples(g, count + i) - Multiples(g, count - 1)
  }

  lemma PlaceShifted(b: Base, count: nat, i: nat)
    requires BaseOk(b)
    ensures Place(b.group, count, i) == if i == 0 then |Separator(b, true, count)|
                                        else Place(b.group, count + 1, i - 1) + |Separator(b, true, count)| + 1
  {
    assert Multiples(b.group, count) == Multiples(b.group, count - 1) + |Separator(b, true, count)|;
  }

  /** Digit i goes to its place, behind a separator if it begins a group. */
  predicate GoesTo(value: nat, b: Base, count: nat, i: nat)
    requires BaseOk(b)
  {
    DigitAt(Rendered(value, b, true, count), Rendered(value, b, false, count), i, Place(b.group, count, i),
            count + i > 0 && (count + i) % b.group == 0)
  }

  lemma GoesToNext(value: nat, b: Base, count: nat, i: nat)
    requires BaseOk(b) && value > 0 && GoesTo(value / b.base, b, count + 1, i)
    ensures GoesTo(value, b, count, i + 1)
  {
    var rest, d, sep := value / b.base, b.digits[value % b.base], Separator(b, true, count);
    RenderedPlain(value, b, count);
    PlaceShifted(b, count, i + 1);
    assert count + 1 + i == count + (i + 1);
    DigitShifted(sep, d, Rendered(rest, b, true, count + 1), Rendered(rest, b, false, count + 1), i,
                 Place(b.group, count + 1, i), (count + 1 + i) % b.group == 0);
  }

  lemma GoesToFirst(value: nat, b: Base, count: nat)
    requires BaseOk(b) && value > 0
    ensures GoesTo(value, b, count, 0)
  {
    RenderedPlain(value, b, count);
    PlaceShifted(b, count, 0);
  }

  lemma {:induction false} GroupedDigit(value: nat, b: Base, count: nat, i: nat)
    requires BaseOk(b) && i < |Rendered(value, b, false, count)|
    ensures GoesTo(value, b, count, i)
    decreases i
  {
    if i == 0 {
      GoesToFirst(value, b, count);
    } else {
      assert value / b.base < value && i - 1 < |Rendered(value / b.base, b, false, count + 1)| by {
        RenderedPlain(value, b, count);
      }
      GroupedDigit(value / b.base, b, count + 1, i - 1);
      GoesToNext(value, b, count, i - 1);
    }
  }

  lemma GroupedFirst(value: nat, b: Base, i: nat)
    requires BaseOk(b) && i < |Rendered(value, b, false, 0)|
    ensures DigitAt(Rendered(value, b, true, 0), Rendered(value, b, false, 0), i, i + Multiples(b.group, i),
                    i > 0 && i % b.group == 0)
  {
    GroupedDigit(value, b, 0, i);
    assert Place(b.group, 0, i) == i + Multiples(b.group, i);
  }

  lemma {:induction false} ReversedAt(s: string, j: nat)
    requires j < |s|
    ensures Reversed(s)[|s| - 1 - j] == s[j]
  {
    if j > 0 {
      ReversedAt(s[1..], j - 1);
    }
  }

  /** A conversion with no flag but perhaps grouping, and no width or precision. */
  function Bare(grouping: bool): Conversion {
    Conversion(Flags(false, false, false, false, false, grouping), 0, -1)
  }

  lemma BareText(value: nat, b: Base, grouping: bool)
    requires BaseOk(b) && value > 0
    ensures Formatted(value, false, false, b, Bare(grouping)) == Reversed(Rendered(value, b, grouping, 0))
  {
    var c, r := Bare(grouping), Rendered(value, b, grouping, 0);
    assert |r| > 0;
    assert Padded(r, c) == r;
    UnpaddedParts(value, false, false, b, c);
    assert c.(width := 0) == c;
  }

  /** f is p with a comma before every g digits, counted from the right: where digit i of p is,
      and how many commas there are. */
  predicate GroupedAs(f: string, p: string, g: nat, i: nat)
    requires g > 0
  {
    var m := i + i / g;
    i < |p| ==>
      && |f| == |p| + (|p| - 1) / g && 0 <= m < |f| && f[|f| - 1 - m] == p[|p| - 1 - i]
      && (i > 0 && i % g == 0 ==> m > 0 && f[|f| - m] == ',')
  }

  lemma GroupedReversed(r: string, q: string, g: nat, i: nat)
    requires g > 0 && i < |q| && DigitAt(r, q, i, i + Multiples(g, i), i > 0 && i % g == 0)
    requires DigitAt(r, q, |q| - 1, |q| - 1 + Multiples(g, |q| - 1), |q| > 1 && (|q| - 1) % g == 0)
    ensures GroupedAs(Reversed(r), Reversed(q), g, i)
  {
    MultiplesExact(g, i);
    MultiplesExact(g, |q| - 1);
    var m := i + Multiples(g, i);
    ReversedAt(q, i);
    ReversedAt(r, m);
    if i > 0 && i % g == 0 {
      ReversedAt(r, m - 1);
    }
  }

  /** The grouping flag puts in commas and changes nothing else. */
  lemma Grouping(value: nat, b: Base, i: nat)
    requires BaseOk(b) && value > 0
    ensures GroupedAs(Formatted(value, false, false, b, Bare(true)), Formatted(value, false, false, b, Bare(false)),
                      b.group, i)
  {
    var r, q := Rendered(value, b, true, 0), Rendered(value, b, false, 0);
    assert GroupedAs(Reversed(r), Reversed(q), b.group, i) by {
      if i < |q| {
        GroupedFirst(value, b, i);
        GroupedFirst(value, b, |q| - 1);
        GroupedReversed(r, q, b.group, i);
      }
    }
    BareText(value, b, false);
    BareText(value, b, true);
  }

  /** Skips white space from the start of s. */
  method FirstNonSpace(s: string) returns (i: nat)
    ensures i <= |s| && s[i..] == SkipSpace(s)
  {
    i := 0;
    while i < |s| && IsSpace(s[i])
      invariant i <= |s| && SkipSpace(s[i..]) == SkipSpace(s)
    {
      assert s[i..][1..] == s[i + 1..];
      i := i + 1;
    }
  }

  lemma {:induction false} LeadGrows(s: string, acc: nat)
    ensures LeadValue(s, acc) >= acc
  {
    if s != "" && IsDigit(s[0]) {
      LeadGrows(s[1..], acc * 10 + DigitValue(s[0]));
    }
  }

  /** atoi's digit loop, which accumulates the negative of the number so that every
      intermediate value of a number in range is an int. */
  method NegatedDigits(s: string) returns (value: int)
    requires LeadValue(s, 0) <= INT_LIMIT
    ensures value == -LeadValue(s, 0) && value <= 0
  {
    value := 0;
    var i := 0;
    while i < |s| && IsDigit(s[i])
      invariant i <= |s| && LeadValue(s[i..], -value) == LeadValue(s, 0) && -INT_LIMIT <= value <= 0
    {
      assert s[i..][1..] == s[i + 1..];
      LeadGrows(s[i + 1..], -value * 10 + DigitValue(s[i]));
      value := value * 10 - DigitValue(s[i]);
      i := i + 1;
    }
  }

  /** atoi.  The requirement excludes overflow, which is undefined in C. */
  method Atoi(s: string) returns (r: int)
    requires -INT_LIMIT <= AtoiValue(s) < INT_LIMIT
    ensures r == AtoiValue(s)
  {
    var i := FirstNonSpace(s);
    var t, negative := s[i..], false;
    if t != "" && t[0] == '+' {
      t := t[1..];
    } else if t != "" && t[0] == '-' {
      negative, t := true, t[1..];
    }
    r := NegatedDigits(t);
    if !negative {
      r := -r;
    }
  }
}
