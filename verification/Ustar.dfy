/** Archive headers in the "ustar Interchange Format" of the pax utility in SUSv3
    (lib/ustar.c).  Strings and headers are sequences of characters below 256. */
module Ustar {
  import opened Storage
  import opened Printf
  import opened Conversions

  const HEADER_SIZE := 512
  const ULONG_MAX := 0xFFFF_FFFF
  const INT_MAX := 0x7FFF_FFFF
  const MTIME := 1136102400

  ghost predicate Bytes(s: string) {
    forall i | 0 <= i < |s| :: s[i] as int < 256
  }

  /** A C string without its terminator. */
  ghost predicate CString(s: string) {
    Bytes(s) && NUL !in s
  }

  // File names ------------------------------------------------------------------------------

  predicate Antisocial(s: string) {
    || (|s| >= 1 && s[0] == '/')
    || (|s| >= 2 && s[..2] == "./")
    || (|s| >= 3 && s[..3] == "../")
  }

  /** strchr (s, '/') + 1 */
  function AfterSlash(s: string): (r: string)
    requires '/' in s
    ensures |r| < |s|
  {
    if s[0] == '/' then s[1..] else AfterSlash(s[1..])
  }

  lemma HasSlash(s: string)
    requires Antisocial(s)
    ensures '/' in s
  {
    if s[0] == '/' {
    } else if |s| >= 2 && s[..2] == "./" {
      assert s[1] == s[..2][1];
    } else {
      assert s[2] == s[..3][2];
    }
  }

  /** strip_antisocial_prefixes */
  function Stripped(s: string): string
    decreases |s|
  {
    if Antisocial(s) then
      HasSlash(s);
      Stripped(AfterSlash(s))
    else if s == "" || s == ".." then "."
    else s
  }

  /** A stripped name is relative, stays below its directory, and is stripped already. */
  lemma {:induction false} StrippedSafe(s: string)
    ensures var r := Stripped(s);
            && !("/" <= r) && !("./" <= r) && !("../" <= r) && r != "" && r != ".." && Stripped(r) == r
    decreases |s|
  {
    if Antisocial(s) {
      HasSlash(s);
      StrippedSafe(AfterSlash(s));
    } else {
      assert !Antisocial(".");
    }
  }

  /** The position after the first slash. */
  lemma {:induction false} SlashSuffix(s: string) returns (k: nat)
    requires '/' in s
    ensures 0 < k <= |s| && s[k..] == AfterSlash(s) && s[k - 1] == '/' && forall j | 0 <= j < k - 1 :: s[j] != '/'
  {
    if s[0] == '/' {
      k := 1;
    } else {
      k := SlashSuffix(s[1..]);
      assert s[k + 1..] == s[1..][k..];
      k := k + 1;
    }
  }

  /** What is left is a suffix of the name, or ".". */
  lemma {:induction false} StrippedSuffix(s: string) returns (k: nat)
    ensures k <= |s| && (Stripped(s) == "." || s[k..] == Stripped(s))
    decreases |s|
  {
    if Antisocial(s) {
      HasSlash(s);
      var m := SlashSuffix(s);
      k := StrippedSuffix(AfterSlash(s));
      assert s[m + k..] == AfterSlash(s)[k..];
      k := m + k;
    } else {
      k := 0;
    }
  }

  lemma StrippedCString(s: string)
    requires CString(s)
    ensures CString(Stripped(s))
  {
    var k := StrippedSuffix(s);
  }

  /** A part of the name begins at k: the name itself, or what follows a slash. */
  predicate PartAt(s: string, k: nat) {
    k <= |s| && (k == 0 || s[k - 1] == '/')
  }

  /** The part at k could lead outside the directory. */
  predicate UnsafeAt(s: string, k: nat)
    requires k <= |s|
  {
    "/" <= s[k..] || "./" <= s[k..] || "../" <= s[k..]
  }

  /** k is the first part of the name that is safe. */
  ghost predicate FirstSafe(s: string, k: nat) {
    PartAt(s, k) && !UnsafeAt(s, k) && forall j: nat | j < k && PartAt(s, j) :: UnsafeAt(s, j)
  }

  lemma UnsafeAntisocial(s: string)
    ensures Antisocial(s) <==> UnsafeAt(s, 0)
  {
    assert s[0..] == s;
    assert "./" <= s ==> s[..2] == "./";
    assert "../" <= s ==> s[..3] == "../";
  }

  lemma UnsafeLater(s: string, m: nat, j: nat)
    requires m + j <= |s|
    ensures UnsafeAt(s[m..], j) <==> UnsafeAt(s, m + j)
  {
    assert s[m..][j..] == s[m + j..];
  }

  /** Where the first safe part is. */
  lemma {:induction false} SafePart(s: string) returns (k: nat)
    ensures FirstSafe(s, k)
    decreases |s|
  {
    UnsafeAntisocial(s);
    if !Antisocial(s) {
      k := 0;
    } else {
      HasSlash(s);
      var m := SlashSuffix(s);
      var i := SafePart(s[m..]);
      k := m + i;
      UnsafeLater(s, m, i);
      forall j: nat | j < k && PartAt(s, j) ensures UnsafeAt(s, j) {
        if j > 0 {
          assert j >= m;
          assert PartAt(s[m..], j - m);
          UnsafeLater(s, m, j - m);
        }
      }
    }
  }

  /** Stripping gives the first safe part of the name, or "." if that is "", "." or "..". */
  lemma {:induction false} StrippedExact(s: string, k: nat)
    requires FirstSafe(s, k)
    ensures Stripped(s) == if s[k..] == "" || s[k..] == "." || s[k..] == ".." then "." else s[k..]
    decreases |s|
  {
    UnsafeAntisocial(s);
    if k == 0 {
      assert s[0..] == s;
    } else {
      assert PartAt(s, 0);
      HasSlash(s);
      var m := SlashSuffix(s);
      assert k >= m;
      UnsafeLater(s, m, k - m);
      forall j: nat | j < k - m && PartAt(s[m..], j) ensures UnsafeAt(s[m..], j) {
        assert PartAt(s, m + j);
        UnsafeLater(s, m, j);
      }
      StrippedExact(s[m..], k - m);
      assert s[m..][k - m..] == s[k..];
    }
  }

  /** A safe name is left alone. */
  lemma SafeUnchanged(s: string)
    requires !("/" <= s) && !("./" <= s) && !("../" <= s) && s != "" && s != ".."
    ensures Stripped(s) == s
  {
    assert s[0..] == s;
    StrippedExact(s, 0);
  }

  method StripAntisocialPrefixes(name: string) returns (r: string)
    ensures r == Stripped(name)
    ensures forall k: nat | FirstSafe(name, k) ::
              r == if name[k..] == "" || name[k..] == "." || name[k..] == ".." then "." else name[k..]
  {
    r := name;
    while Antisocial(r)
      invariant Stripped(r) == Stripped(name)
      decreases |r|
    {
      HasSlash(r);
      r := AfterSlash(r);
    }
    if r == "" || r == ".." {
      r := ".";
    }
    forall k: nat | FirstSafe(name, k)
      ensures r == if name[k..] == "" || name[k..] == "." || name[k..] == ".." then "." else name[k..]
    {
      StrippedExact(name, k);
    }
  }

  // Octal fields ------------------------------------------------------------------------------

  /** The octal numeral of value with exactly `width` digits. */
  function OctalText(value: nat, width: nat): string {
    if width == 0 then "" else OctalText(value / 8, width - 1) + [BASE_O.digits[value % 8]]
  }

  /** What parse_conversion makes of "0<width>o". */
  function Octal(width: nat): Conversion {
    Conversion(Flags(false, false, false, false, true, false), width, -1)
  }

  predicate IsOctal(ch: char) {
    '0' <= ch <= '7'
  }

  ghost predicate AllOctal(s: string) {
    forall i | 0 <= i < |s| :: IsOctal(s[i])
  }

  /** The digits of values below 8^n. */
  lemma {:induction false} OctalDigits(value: nat, n: nat)
    requires value < Power(8, n)
    ensures |Digits(value, BASE_O)| <= n && AllOctal(Digits(value, BASE_O))
    ensures value > 0 ==> Digits(value, BASE_O) != ""
  {
    if value > 0 {
      OctalDigits(value / 8, n - 1);
    }
  }

  lemma {:induction false} PaddedDigits(value: nat, width: nat)
    requires value < Power(8, width) && |Digits(value, BASE_O)| <= width
    ensures Repeat('0', width - |Digits(value, BASE_O)|) + Digits(value, BASE_O) == OctalText(value, width)
  {
    if width > 0 {
      OctalDigits(value / 8, width - 1);
      PaddedDigits(value / 8, width - 1);
      if value == 0 {
        assert Repeat('0', width) == Repeat('0', width - 1) + "0";
      }
    }
  }

  /** An octal numeral fills its field exactly and reads back as its value. */
  lemma OctalField(value: nat, width: nat)
    requires value < Power(8, width)
    ensures var text := OctalText(value, width);
            |text| == width && AllOctal(text) && Fold(8, text, 0) == value
  {
    OctalDigits(value, width);
    PaddedDigits(value, width);
    PlainBases();
    ZerosAndDigits(width - |Digits(value, BASE_O)|, value, BASE_O);
  }

  lemma BufferLength(value: nat, c: Conversion)
    requires !c.flags.group && !c.flags.pound && c.precision < 0
    ensures |Buffer(value, BASE_O, c)| == if value == 0 then 1 else |Digits(value, BASE_O)|
  {
    RenderedReversed(value, BASE_O, 0);
  }

  /** printf's "%0<width>o" prints that numeral. */
  lemma OctalPrinted(value: nat, width: nat)
    requires value < Power(8, width) && width > 0
    ensures Formatted(value, false, false, BASE_O, Octal(width)) == OctalText(value, width)
  {
    var c := Octal(width);
    var zeros := FormattedShape(value, false, false, BASE_O, c);
    assert Formatted(value, false, false, BASE_O, c) == Repeat('0', zeros) + Digits(value, BASE_O);
    OctalDigits(value, width);
    BufferLength(value, c);
    FieldWidth(value, false, false, BASE_O, c);
    PaddedDigits(value, width);
  }

  lemma OctalSpecText()
    ensures SpecText(Octal(7), Plain) == "07" && SpecText(Octal(11), Plain) == "011"
  {
    assert Digits(7, BASE_D) == "7" && Digits(11, BASE_D) == "11";
  }

  /** The two formats of the header, "07" and "011", do parse to that conversion. */
  lemma OctalSpec(width: nat)
    requires width > 0
    ensures ReadsAs(SpecText(Octal(width), Plain) + "o", Octal(width), Plain, "o", [])
    ensures SpecText(Octal(7), Plain) == "07" && SpecText(Octal(11), Plain) == "011"
  {
    SpecRoundTrip(Octal(width), Plain, "o", []);
    OctalSpecText();
  }

  method PrintOctal(value: nat, width: nat) returns (text: string)
    requires value < UINTMAX_LIMIT && value < Power(8, width) && width > 0
    ensures text == OctalText(value, width)
  {
    OctalPrinted(value, width);
    text := FormatInteger(value, false, false, BASE_O, Octal(width), "");
  }

  /** parse_octal_field, having read ofs digits with value acc. */
  function ParsedOctal(s: string, acc: nat, ofs: nat): Option<nat> {
    if s == "" then None
    else if IsOctal(s[0]) then
      if acc > ULONG_MAX / 8 then None else ParsedOctal(s[1..], acc * 8 + DigitValue(s[0]), ofs + 1)
    else if s[0] == ' ' || s[0] == NUL then (if ofs > 0 then Some(acc) else None)
    else None
  }

  /** The field begins with exactly n octal digits. */
  ghost predicate DigitRun(s: string, n: nat) {
    n <= |s| && AllOctal(s[..n]) && (n < |s| ==> !IsOctal(s[n]))
  }

  lemma {:induction false} FoldGrows(s: string, acc: nat)
    requires AllOctal(s)
    ensures Fold(8, s, acc) >= acc && (s != "" ==> Fold(8, s, acc) >= acc * 8)
  {
    if s != "" {
      FoldGrows(s[1..], acc * 8 + DigitValue(s[0]));
    }
  }

  /** What the field holds, having read ofs digits with value acc: the value of its n
      digits, if they end in a space or a null byte and are an unsigned long. */
  ghost function FieldValue(s: string, acc: nat, ofs: nat, n: nat): Option<nat>
    requires DigitRun(s, n)
  {
    FoldGrows(s[..n], acc);
    if n < |s| && (s[n] == ' ' || s[n] == NUL) && ofs + n > 0 && Fold(8, s[..n], acc) <= ULONG_MAX
    then Some(Fold(8, s[..n], acc)) else None
  }

  lemma {:induction false} OctalExact(s: string, acc: nat, ofs: nat, n: nat)
    requires DigitRun(s, n) && acc <= ULONG_MAX
    ensures ParsedOctal(s, acc, ofs) == FieldValue(s, acc, ofs, n)
    decreases |s|
  {
    if s != "" && IsOctal(s[0]) {
      assert n > 0;
      var acc', t := acc * 8 + DigitValue(s[0]), s[..n];
      assert t[1..] == s[1..][..n - 1] && t[0] == s[0];
      assert Fold(8, t, acc) == Fold(8, t[1..], acc');
      if acc > ULONG_MAX / 8 {
        FoldGrows(t, acc);
      } else {
        assert n < |s| ==> s[1..][n - 1] == s[n];
        OctalExact(s[1..], acc', ofs + 1, n - 1);
      }
    }
  }

  lemma {:induction false} RunOf(s: string) returns (n: nat)
    ensures DigitRun(s, n)
  {
    if s == "" || !IsOctal(s[0]) {
      n := 0;
    } else {
      var m := RunOf(s[1..]);
      n := m + 1;
      assert s[..n] == [s[0]] + s[1..][..m];
    }
  }

  method ParseOctalField(s: string) returns (r: Option<nat>)
    ensures r == ParsedOctal(s, 0, 0)
    ensures forall n: nat | DigitRun(s, n) :: r == FieldValue(s, 0, 0, n)
  {
    forall n: nat | DigitRun(s, n) ensures ParsedOctal(s, 0, 0) == FieldValue(s, 0, 0, n) {
      OctalExact(s, 0, 0, n);
    }
    var value: nat, ofs := 0, 0;
    while ofs < |s|
      invariant 0 <= ofs <= |s| && ParsedOctal(s[ofs..], value, ofs) == ParsedOctal(s, 0, 0)
    {
      var ch := s[ofs];
      assert s[ofs..][1..] == s[ofs + 1..];
      if IsOctal(ch) {
        if value > ULONG_MAX / 8 {
          return None;
        }
        value := DigitValue(ch) + value * 8;
      } else if ch == ' ' || ch == NUL {
        return if ofs > 0 then Some(value) else None;
      } else {
        return None;
      }
      ofs := ofs + 1;
    }
    return None;
  }

  /** A field of octal digits and a terminator parses to their value, if that is a long. */
  lemma {:induction false} OctalReads(digits: string, acc: nat, ofs: nat)
    requires digits != "" || ofs > 0
    requires AllOctal(digits) && Fold(8, digits, acc) <= ULONG_MAX
    ensures ParsedOctal(digits + [NUL], acc, ofs) == Some(Fold(8, digits, acc))
  {
    if digits != "" {
      FoldGrows(digits, acc);
      assert (digits + [NUL])[1..] == digits[1..] + [NUL];
      OctalReads(digits[1..], acc * 8 + DigitValue(digits[0]), ofs + 1);
    }
  }

  // The header layout --------------------------------------------------------------------------

  const NAME := 0
  const MODE := 100
  const UID := 108
  const GID := 116
  const SIZE := 124
  const MTIME_FIELD := 136
  const CHKSUM := 148
  const TYPEFLAG := 156
  const MAGIC := 257
  const VERSION := 263
  const UNAME := 265
  const GNAME := 297
  const PREFIX := 345

  datatype Kind = Regular | Directory

  function TypeFlag(kind: Kind): char {
    if kind == Regular then '0' else '5'
  }

  datatype Field = Field(ofs: nat, text: string)

  ghost predicate Fits(fields: seq<Field>, n: nat) {
    forall k | 0 <= k < |fields| :: fields[k].ofs + |fields[k].text| <= n
  }

  ghost predicate Apart(f: Field, g: Field) {
    f.ofs + |f.text| <= g.ofs || g.ofs + |g.text| <= f.ofs
  }

  ghost predicate AllApart(fields: seq<Field>) {
    forall k, m | 0 <= k < m < |fields| :: Apart(fields[k], fields[m])
  }

  /** The header after the fields have been stored in order. */
  ghost function Applied(h: string, fields: seq<Field>): (r: string)
    requires Fits(fields, |h|)
    ensures |r| == |h|
  {
    if fields == [] then h
    else
      var n := |fields| - 1;
      Written(Applied(h, fields[..n]), fields[n].ofs, fields[n].text)
  }

  ghost predicate Covers(f: Field, i: nat) {
    f.ofs <= i < f.ofs + |f.text|
  }

  lemma WrittenAt(h: string, ofs: nat, text: string, i: nat)
    requires ofs + |text| <= |h| && i < |h|
    ensures Written(h, ofs, text)[i] == if ofs <= i < ofs + |text| then text[i - ofs] else h[i]
  {
  }

  /** A byte of a field that no other field covers. */
  lemma {:induction false} FieldByte(h: string, fields: seq<Field>, k: nat, i: nat)
    requires Fits(fields, |h|) && AllApart(fields) && k < |fields| && i < |h| && Covers(fields[k], i)
    ensures Applied(h, fields)[i] == fields[k].text[i - fields[k].ofs]
  {
    var n := |fields| - 1;
    var before, last := fields[..n], fields[n];
    WrittenAt(Applied(h, before), last.ofs, last.text, i);
    if k < n {
      assert Apart(fields[k], fields[n]);
      assert before[k] == fields[k];
      FieldByte(h, before, k, i);
    }
  }

  lemma {:induction false} OtherByte(h: string, fields: seq<Field>, i: nat)
    requires Fits(fields, |h|) && i < |h| && forall k | 0 <= k < |fields| :: !Covers(fields[k], i)
    ensures Applied(h, fields)[i] == h[i]
  {
    if fields != [] {
      var n := |fields| - 1;
      WrittenAt(Applied(h, fields[..n]), fields[n].ofs, fields[n].text, i);
      OtherByte(h, fields[..n], i);
    }
  }

  /** A whole field reads back as it was stored. */
  lemma FieldText(h: string, fields: seq<Field>, k: nat)
    requires Fits(fields, |h|) && AllApart(fields) && k < |fields|
    ensures var f := fields[k]; Applied(h, fields)[f.ofs..f.ofs + |f.text|] == f.text
  {
    var f, r := fields[k], Applied(h, fields);
    forall j | 0 <= j < |f.text| ensures r[f.ofs..f.ofs + |f.text|][j] == f.text[j] {
      FieldByte(h, fields, k, f.ofs + j);
    }
  }

  /** calculate_chksum: the sum of the bytes from i on, with spaces for the checksum field. */
  function Checksum(h: string, i: nat): nat
    decreases |h| - i
  {
    if i >= |h| then 0
    else (if CHKSUM <= i < CHKSUM + 8 then 32 else h[i] as int) + Checksum(h, i + 1)
  }

  lemma {:induction false} ChecksumBound(h: string, i: nat)
    requires Bytes(h) && i <= |h|
    ensures Checksum(h, i) <= 255 * (|h| - i)
    decreases |h| - i
  {
    if i < |h| {
      ChecksumBound(h, i + 1);
    }
  }

  /** The checksum does not depend on the checksum field. */
  lemma {:induction false} ChecksumIgnoresField(h: string, g: string, i: nat)
    requires |h| == |g| && forall j | 0 <= j < |h| && !(CHKSUM <= j < CHKSUM + 8) :: h[j] == g[j]
    ensures Checksum(h, i) == Checksum(g, i)
    decreases |h| - i
  {
    if i < |h| {
      ChecksumIgnoresField(h, g, i + 1);
    }
  }

  /** Changing one byte changes the checksum by as much, outside the checksum field. */
  lemma {:induction false} ChecksumOneByte(h: string, j: nat, ch: char, i: nat)
    requires j < |h|
    ensures Checksum(h[j := ch], i) - Checksum(h, i)
            == if i <= j && !(CHKSUM <= j < CHKSUM + 8) then ch as int - h[j] as int else 0
    decreases |h| - i
  {
    if i < |h| {
      ChecksumOneByte(h, j, ch, i + 1);
    }
  }

  /** A header of null bytes sums to the eight spaces of its checksum field. */
  lemma {:induction false} ChecksumOfNulls(h: string, i: nat)
    requires |h| == HEADER_SIZE && (forall j | 0 <= j < |h| :: h[j] == NUL) && i <= |h|
    ensures Checksum(h, i) == 32 * if i <= CHKSUM then 8 else if i < CHKSUM + 8 then CHKSUM + 8 - i else 0
    decreases |h| - i
  {
    if i < |h| {
      ChecksumOfNulls(h, i + 1);
    }
  }

  method CalculateChksum(h: string) returns (sum: nat)
    ensures sum == Checksum(h, 0)
  {
    sum := 0;
    var i := 0;
    while i < |h|
      invariant i <= |h| && sum + Checksum(h, i) == Checksum(h, 0)
    {
      sum := sum + if CHKSUM <= i < CHKSUM + 8 then 32 else h[i] as int;
      i := i + 1;
    }
  }

  // Making a header -----------------------------------------------------------------------------

  /** The int argument of %o is read as an unsigned int. */
  function Unsigned(size: int): nat
    requires -INT_MAX - 1 <= size <= INT_MAX
  {
    if size < 0 then size + ULONG_MAX + 1 else size
  }

  function Mode(kind: Kind): nat {
    if kind == Regular then 420 else 493
  }

  /** The fields in the order in which they are stored. */
  function Layout(name: string, mode: string, size: string, mtime: string, flag: char): seq<Field> {
    [ Field(NAME, name + [NUL]), Field(MODE, mode + [NUL]), Field(UID, "0000000" + [NUL]),
      Field(GID, "0000000" + [NUL]),
      Field(SIZE, size + [NUL]), Field(MTIME_FIELD, mtime + [NUL]), Field(TYPEFLAG, [flag]),
      Field(MAGIC, "ustar" + [NUL]),
      Field(VERSION, "00"), Field(GNAME, "root" + [NUL]), Field(UNAME, "root" + [NUL]) ]
  }

  lemma LayoutApart(name: string, mode: string, size: string, mtime: string, flag: char, sum: string)
    requires |name| <= 99 && |mode| == |sum| == 7 && |size| == |mtime| == 11
    ensures var fields := Layout(name, mode, size, mtime, flag);
            && Fits(fields, HEADER_SIZE)
            && Fits(fields + [Field(CHKSUM, sum + [NUL])], HEADER_SIZE)
            && AllApart(fields + [Field(CHKSUM, sum + [NUL])])
  {
  }

  lemma PowersOf8()
    ensures Power(8, 7) == 2097152 && Power(8, 11) == 8589934592
  {
    assert Power(8, 4) == 4096;
    assert Power(8, 7) == 512 * Power(8, 4);
    assert Power(8, 11) == 4096 * Power(8, 7);
  }

  lemma {:induction false} AppliedBytes(h: string, fields: seq<Field>)
    requires Fits(fields, |h|) && Bytes(h) && forall k | 0 <= k < |fields| :: Bytes(fields[k].text)
    ensures Bytes(Applied(h, fields))
  {
    if fields != [] {
      AppliedBytes(h, fields[..|fields| - 1]);
    }
  }

  lemma LayoutBytes(name: string, mode: string, size: string, mtime: string, flag: char)
    requires Bytes(name) && AllOctal(mode) && AllOctal(size) && AllOctal(mtime) && flag as int < 256
    ensures forall k | 0 <= k < |Layout(name, mode, size, mtime, flag)| ::
              Bytes(Layout(name, mode, size, mtime, flag)[k].text)
  {
  }

  /** The part of a field before its terminator. */
  function UpToNul(s: string): string {
    if s == "" || s[0] == NUL then "" else [s[0]] + UpToNul(s[1..])
  }

  lemma {:induction false} UpToNulAt(s: string, t: string)
    requires NUL !in s && t != "" && t[0] == NUL
    ensures UpToNul(s + t) == s
  {
    if s == "" {
      assert s + t == t;
    } else {
      assert (s + t)[1..] == s[1..] + t;
      UpToNulAt(s[1..], t);
    }
  }

  ghost function Zeros(): string {
    Repeat(NUL, HEADER_SIZE)
  }

  /** The finished header. */
  ghost function Completed(fields: seq<Field>, sum: string): (h: string)
    requires Fits(fields + [Field(CHKSUM, sum + [NUL])], HEADER_SIZE)
    ensures |h| == HEADER_SIZE
  {
    Applied(Zeros(), fields + [Field(CHKSUM, sum + [NUL])])
  }

  /** Every field that the parser looks at reads back as it was stored. */
  lemma HeaderReads(name: string, mode: string, size: string, mtime: string, flag: char, sum: string)
    requires |name| <= 99 && NUL !in name && |mode| == |sum| == 7 && |size| == |mtime| == 11
    ensures Fits(Layout(name, mode, size, mtime, flag) + [Field(CHKSUM, sum + [NUL])], HEADER_SIZE)
    ensures var h := Completed(Layout(name, mode, size, mtime, flag), sum);
            && h[MAGIC..MAGIC + 6] == "ustar" + [NUL] && h[VERSION..VERSION + 2] == "00"
            && h[CHKSUM..CHKSUM + 8] == sum + [NUL] && h[SIZE..SIZE + 12] == size + [NUL]
            && h[TYPEFLAG..TYPEFLAG + 1] == [flag]
            && h[NAME..NAME + |name| + 1] == name + [NUL]
            && (|name| < 99 ==> h[NAME + 99] == NUL) && h[PREFIX] == NUL
  {
    LayoutApart(name, mode, size, mtime, flag, sum);
    var all := Layout(name, mode, size, mtime, flag) + [Field(CHKSUM, sum + [NUL])];
    FieldText(Zeros(), all, 7);
    FieldText(Zeros(), all, 8);
    FieldText(Zeros(), all, 11);
    FieldText(Zeros(), all, 4);
    FieldText(Zeros(), all, 6);
    FieldText(Zeros(), all, 0);
    OtherByte(Zeros(), all, PREFIX);
    if |name| < 99 {
      OtherByte(Zeros(), all, NAME + 99);
    }
  }

  /** The header for a file, without and with its checksum. */
  ghost function FieldsFor(name: string, kind: Kind, size: int): seq<Field>
    requires -INT_MAX - 1 <= size <= INT_MAX
  {
    Layout(name, OctalText(Mode(kind), 7), OctalText(Unsigned(size), 11), OctalText(MTIME, 11), TypeFlag(kind))
  }

  /** The octal texts of a header have the right lengths. */
  lemma TextsOk(kind: Kind, size: int)
    requires -INT_MAX - 1 <= size <= INT_MAX
    ensures |OctalText(Mode(kind), 7)| == 7 && |OctalText(Unsigned(size), 11)| == 11 && |OctalText(MTIME, 11)| == 11
    ensures AllOctal(OctalText(Mode(kind), 7)) && AllOctal(OctalText(Unsigned(size), 11))
    ensures AllOctal(OctalText(MTIME, 11))
    ensures Fold(8, OctalText(Unsigned(size), 11), 0) == Unsigned(size)
  {
    PowersOf8();
    OctalField(Mode(kind), 7);
    OctalField(Unsigned(size), 11);
    OctalField(MTIME, 11);
  }

  lemma SumBound(name: string, mode: string, size: string, mtime: string, flag: char)
    requires |name| <= 99 && Bytes(name) && |mode| == 7 && |size| == |mtime| == 11 && flag as int < 256
    requires AllOctal(mode) && AllOctal(size) && AllOctal(mtime)
    ensures Fits(Layout(name, mode, size, mtime, flag), HEADER_SIZE)
    ensures Checksum(Applied(Zeros(), Layout(name, mode, size, mtime, flag)), 0) < 2097152
  {
    LayoutApart(name, mode, size, mtime, flag, "0000000");
    LayoutBytes(name, mode, size, mtime, flag);
    AppliedBytes(Zeros(), Layout(name, mode, size, mtime, flag));
    ChecksumBound(Applied(Zeros(), Layout(name, mode, size, mtime, flag)), 0);
  }

  /** The checksum fits in its field. */
  lemma SumFits(name: string, kind: Kind, size: int)
    requires |name| <= 99 && Bytes(name) && -INT_MAX - 1 <= size <= INT_MAX
    ensures Fits(FieldsFor(name, kind, size), HEADER_SIZE)
    ensures Checksum(Applied(Zeros(), FieldsFor(name, kind, size)), 0) < Power(8, 7)
  {
    TextsOk(kind, size);
    PowersOf8();
    var mode, text, mtime := OctalText(Mode(kind), 7), OctalText(Unsigned(size), 11), OctalText(MTIME, 11);
    SumBound(name, mode, text, mtime, TypeFlag(kind));
  }

  ghost function SumText(name: string, kind: Kind, size: int): string
    requires |name| <= 99 && Bytes(name) && -INT_MAX - 1 <= size <= INT_MAX
  {
    SumFits(name, kind, size);
    OctalText(Checksum(Applied(Zeros(), FieldsFor(name, kind, size)), 0), 7)
  }

  /** Stores a text and its terminator as field k. */
  method Store(header: array<char>, ofs: nat, size: nat, text: string, ghost fields: seq<Field>, ghost k: nat)
    requires header.Length == HEADER_SIZE && Fits(fields, HEADER_SIZE) && k < |fields|
    requires header[..] == Applied(Zeros(), fields[..k]) && |text| < size && ofs + size <= HEADER_SIZE
    requires fields[k] == Field(ofs, text + [NUL])
    modifies header
    ensures header[..] == Applied(Zeros(), fields[..k + 1])
  {
    assert fields[..k + 1][..k] == fields[..k];
    var length := Snprintf(header, ofs, size, text);
  }

  /** Stores a text without a terminator as field k. */
  method StoreBare(header: array<char>, ofs: nat, text: string, ghost fields: seq<Field>, ghost k: nat)
    requires header.Length == HEADER_SIZE && Fits(fields, HEADER_SIZE) && k < |fields|
    requires header[..] == Applied(Zeros(), fields[..k]) && fields[k] == Field(ofs, text) && ofs + |text| <= HEADER_SIZE
    modifies header
    ensures header[..] == Applied(Zeros(), fields[..k + 1])
  {
    assert fields[..k + 1][..k] == fields[..k];
    ghost var was := header[..];
    assert Written(was, ofs, text[..0]) == was;
    for i := 0 to |text|
      invariant header[..] == Written(was, ofs, text[..i])
    {
      Put(header, ofs, text[..i], text[i], was);
      assert text[..i] + [text[i]] == text[..i + 1];
    }
    assert text[..|text|] == text;
  }

  method FillNumbers(name: string, mode: string, size: string, mtime: string, header: array<char>,
                     ghost fields: seq<Field>)
    requires |name| <= 99 && |mode| == 7 && |size| == |mtime| == 11 && header.Length == HEADER_SIZE
    requires Fits(fields, HEADER_SIZE) && |fields| >= 6 && header[..] == Applied(Zeros(), fields[..0])
    requires fields[0] == Field(NAME, name + [NUL]) && fields[1] == Field(MODE, mode + [NUL])
    requires fields[2] == Field(UID, "0000000" + [NUL]) && fields[3] == Field(GID, "0000000" + [NUL])
    requires fields[4] == Field(SIZE, size + [NUL]) && fields[5] == Field(MTIME_FIELD, mtime + [NUL])
    modifies header
    ensures header[..] == Applied(Zeros(), fields[..6])
  {
    Store(header, NAME, 100, name, fields, 0);
    Store(header, MODE, 8, mode, fields, 1);
    Store(header, UID, 8, "0000000", fields, 2);
    Store(header, GID, 8, "0000000", fields, 3);
    Store(header, SIZE, 12, size, fields, 4);
    Store(header, MTIME_FIELD, 12, mtime, fields, 5);
  }

  method FillTags(flag: char, header: array<char>, ghost fields: seq<Field>)
    requires header.Length == HEADER_SIZE && Fits(fields, HEADER_SIZE) && |fields| >= 11
    requires header[..] == Applied(Zeros(), fields[..6])
    requires fields[6] == Field(TYPEFLAG, [flag]) && fields[7] == Field(MAGIC, "ustar" + [NUL])
    requires fields[8] == Field(VERSION, "00") && fields[9] == Field(GNAME, "root" + [NUL])
    requires fields[10] == Field(UNAME, "root" + [NUL])
    modifies header
    ensures header[..] == Applied(Zeros(), fields[..11])
  {
    StoreBare(header, TYPEFLAG, [flag], fields, 6);
    Store(header, MAGIC, 6, "ustar", fields, 7);
    StoreBare(header, VERSION, "00", fields, 8);
    Store(header, GNAME, 32, "root", fields, 9);
    Store(header, UNAME, 32, "root", fields, 10);
  }

  /** memset to zero */
  method Clear(header: array<char>)
    requires header.Length == HEADER_SIZE
    modifies header
    ensures header[..] == Zeros()
  {
    for i := 0 to HEADER_SIZE
      invariant forall j | 0 <= j < i :: header[j] == NUL
    {
      header[i] := NUL;
    }
  }

  /** The stores of ustar_make_header up to the checksum. */
  method FillHeader(name: string, mode: string, size: string, mtime: string, flag: char, header: array<char>)
    requires |name| <= 99 && |mode| == 7 && |size| == |mtime| == 11 && header.Length == HEADER_SIZE
    modifies header
    ensures Fits(Layout(name, mode, size, mtime, flag), HEADER_SIZE)
    ensures header[..] == Applied(Zeros(), Layout(name, mode, size, mtime, flag))
  {
    LayoutApart(name, mode, size, mtime, flag, "0000000");
    ghost var fields := Layout(name, mode, size, mtime, flag);
    Clear(header);
    assert header[..] == Applied(Zeros(), fields[..0]);
    FillNumbers(name, mode, size, mtime, header, fields);
    FillTags(flag, header, fields);
    assert fields[..11] == fields;
  }

  /** Computes the checksum and stores it. */
  method StoreChecksum(header: array<char>, ghost fields: seq<Field>)
    requires header.Length == HEADER_SIZE && Fits(fields, HEADER_SIZE) && header[..] == Applied(Zeros(), fields)
    requires Checksum(header[..], 0) < Power(8, 7)
    modifies header
    ensures var sum := OctalText(old(Checksum(header[..], 0)), 7);
            && Fits(fields + [Field(CHKSUM, sum + [NUL])], HEADER_SIZE)
            && header[..] == Completed(fields, sum)
  {
    var sum := CalculateChksum(header[..]);
    PowersOf8();
    OctalField(sum, 7);
    var text := PrintOctal(sum, 7);
    ghost var all := fields + [Field(CHKSUM, text + [NUL])];
    assert all[..|fields|] == fields;
    Store(header, CHKSUM, 8, text, all, |fields|);
    assert all[..|fields| + 1] == all;
  }

  datatype Reason = NotUstar | BadVersion | BadChecksumField | ChecksumMismatch
    | NameTooLong | BadType | BadSizeField | TooLarge

  datatype Outcome = EndOfArchive | Entry(name: string, kind: Kind, size: nat) | Error(reason: Reason)

  predicate AllZeros(h: string) {
    forall i | 0 <= i < |h| :: h[i] == NUL
  }

  function ParsedEntry(h: string): Outcome
    requires |h| == HEADER_SIZE
  {
    if h[TYPEFLAG] == '0' then
      match ParsedOctal(h[SIZE..SIZE + 12], 0, 0)
      case None => Error(BadSizeField)
      case Some(n) => if n > INT_MAX then Error(TooLarge) else Entry(Stripped(UpToNul(h)), Regular, n)
    else if h[TYPEFLAG] == '5' then Entry(Stripped(UpToNul(h)), Directory, 0)
    else Error(BadType)
  }

  /** ustar_parse_header */
  function Parsed(h: string): Outcome
    requires |h| == HEADER_SIZE
  {
    if AllZeros(h) then EndOfArchive
    else if h[MAGIC..MAGIC + 6] != "ustar" + [NUL] then Error(NotUstar)
    else if h[VERSION..VERSION + 2] != "00" then Error(BadVersion)
    else if ParsedOctal(h[CHKSUM..CHKSUM + 8], 0, 0).None? then Error(BadChecksumField)
    else if ParsedOctal(h[CHKSUM..CHKSUM + 8], 0, 0).value != Checksum(h, 0) then Error(ChecksumMismatch)
    else if h[NAME + 99] != NUL || h[PREFIX] != NUL then Error(NameTooLong)
    else ParsedEntry(h)
  }

  /** What is expected of a made header: a negative size was stored as a large unsigned one. */
  function Expected(name: string, kind: Kind, size: int): Outcome {
    if kind == Directory then Entry(name, Directory, 0)
    else if size < 0 then Error(TooLarge)
    else Entry(name, Regular, size)
  }

  /** Storing the checksum leaves the checksum unchanged. */
  lemma SumKept(fields: seq<Field>, sum: string)
    requires |sum| == 7 && Fits(fields, HEADER_SIZE) && Fits(fields + [Field(CHKSUM, sum + [NUL])], HEADER_SIZE)
    ensures Checksum(Completed(fields, sum), 0) == Checksum(Applied(Zeros(), fields), 0)
  {
    var all := fields + [Field(CHKSUM, sum + [NUL])];
    assert all[..|fields|] == fields;
    var g, h := Applied(Zeros(), fields), Completed(fields, sum);
    forall j | 0 <= j < |h| && !(CHKSUM <= j < CHKSUM + 8) ensures h[j] == g[j] {
      WrittenAt(g, CHKSUM, sum + [NUL], j);
    }
    ChecksumIgnoresField(h, g, 0);
  }

  lemma NameReads(h: string, name: string)
    requires |h| == HEADER_SIZE && |name| <= 99 && NUL !in name && h[NAME..NAME + |name| + 1] == name + [NUL]
    requires |name| < 99 ==> h[NAME + 99] == NUL
    ensures UpToNul(h) == name && h[NAME + 99] == NUL
  {
    assert h == name + h[|name|..] by {
      assert h == h[..|name|] + h[|name|..];
      assert h[..|name|] == h[NAME..NAME + |name| + 1][..|name|];
    }
    assert h[|name|] == h[NAME..NAME + |name| + 1][|name|];
    UpToNulAt(name, h[|name|..]);
  }

  lemma ReadsBack(name: string, mode: string, size: string, mtime: string, flag: char, sum: string)
    requires CString(name) && Stripped(name) == name && |name| <= 99
    requires |mode| == |sum| == 7 && |size| == |mtime| == 11 && AllOctal(sum) && AllOctal(size)
    requires (flag == '0' || flag == '5')
    requires 0 <= Fold(8, size, 0) <= ULONG_MAX
    requires Fits(Layout(name, mode, size, mtime, flag), HEADER_SIZE)
    requires Fold(8, sum, 0) == Checksum(Applied(Zeros(), Layout(name, mode, size, mtime, flag)), 0) <= ULONG_MAX
    ensures Fits(Layout(name, mode, size, mtime, flag) + [Field(CHKSUM, sum + [NUL])], HEADER_SIZE)
    ensures Parsed(Completed(Layout(name, mode, size, mtime, flag), sum))
            == if flag == '5' then Entry(name, Directory, 0)
               else if Fold(8, size, 0) > INT_MAX then Error(TooLarge)
               else Entry(name, Regular, Fold(8, size, 0))
  {
    var fields := Layout(name, mode, size, mtime, flag);
    HeaderReads(name, mode, size, mtime, flag, sum);
    SumKept(fields, sum);
    var h := Completed(fields, sum);
    OctalReads(sum, 0, 0);
    OctalReads(size, 0, 0);
    NameReads(h, name);
    assert h[TYPEFLAG] == h[TYPEFLAG..TYPEFLAG + 1][0];
    assert h[VERSION] == h[VERSION..VERSION + 2][0] != NUL;
    FoldGrows(size, 0);
  }

  /** Parsing a made header gives back the stripped name, the type and the size; a directory
      has size 0 and a negative size is rejected. */
  lemma RoundTrip(name: string, kind: Kind, size: int)
    requires CString(name) && |Stripped(name)| <= 99 && -INT_MAX - 1 <= size <= INT_MAX
    ensures CString(Stripped(name))
    ensures var fields, sum := FieldsFor(Stripped(name), kind, size), SumText(Stripped(name), kind, size);
            && Fits(fields + [Field(CHKSUM, sum + [NUL])], HEADER_SIZE)
            && Parsed(Completed(fields, sum)) == Expected(Stripped(name), kind, size)
  {
    var n := Stripped(name);
    StrippedCString(name);
    StrippedSafe(name);
    SumFits(n, kind, size);
    TextsOk(kind, size);
    PowersOf8();
    OctalField(Checksum(Applied(Zeros(), FieldsFor(n, kind, size)), 0), 7);
    ReadsBack(n, OctalText(Mode(kind), 7), OctalText(Unsigned(size), 11), OctalText(MTIME, 11),
              TypeFlag(kind), SumText(n, kind, size));
  }

  /** ustar_make_header: fails exactly when the stripped name is too long. */
  method MakeHeader(name: string, kind: Kind, size: int, header: array<char>) returns (ok: bool)
    requires CString(name) && -INT_MAX - 1 <= size <= INT_MAX && header.Length == HEADER_SIZE
    modifies header
    ensures ok <==> |Stripped(name)| <= 99
    ensures !ok ==> header[..] == old(header[..])
    ensures ok ==> Parsed(header[..]) == Expected(Stripped(name), kind, size)
  {
    var n := StripAntisocialPrefixes(name);
    if |n| > 99 {
      return false;
    }
    RoundTrip(name, kind, size);
    SumFits(n, kind, size);
    TextsOk(kind, size);
    PowersOf8();
    var mode := PrintOctal(Mode(kind), 7);
    var text := PrintOctal(Unsigned(size), 11);
    var mtime := PrintOctal(MTIME, 11);
    FillHeader(n, mode, text, mtime, TypeFlag(kind), header);
    StoreChecksum(header, FieldsFor(n, kind, size));
    ok := true;
  }

  // Parsing ---------------------------------------------------------------------------------------

  method IsAllZeros(h: string) returns (r: bool)
    ensures r == AllZeros(h)
  {
    for i := 0 to |h|
      invariant forall j | 0 <= j < i :: h[j] == NUL
    {
      if h[i] != NUL {
        return false;
      }
    }
    return true;
  }

  method ParseEntry(h: string) returns (r: Outcome)
    requires |h| == HEADER_SIZE
    ensures r == ParsedEntry(h)
  {
    if h[TYPEFLAG] != '0' && h[TYPEFLAG] != '5' {
      return Error(BadType);
    }
    var size := 0;
    if h[TYPEFLAG] == '0' {
      var n := ParseOctalField(h[SIZE..SIZE + 12]);
      if n.None? {
        return Error(BadSizeField);
      } else if n.value > INT_MAX {
        return Error(TooLarge);
      }
      size := n.value;
    }
    var name := StripAntisocialPrefixes(UpToNul(h));
    r := Entry(name, if h[TYPEFLAG] == '0' then Regular else Directory, size);
  }

  method ParseHeader(h: string) returns (r: Outcome)
    requires |h| == HEADER_SIZE
    ensures r == Parsed(h)
  {
    var empty := IsAllZeros(h);
    if empty {
      return EndOfArchive;
    }
    if h[MAGIC..MAGIC + 6] != "ustar" + [NUL] {
      return Error(NotUstar);
    } else if h[VERSION..VERSION + 2] != "00" {
      return Error(BadVersion);
    }
    var chksum := ParseOctalField(h[CHKSUM..CHKSUM + 8]);
    if chksum.None? {
      return Error(BadChecksumField);
    }
    var sum := CalculateChksum(h);
    if chksum.value != sum {
      return Error(ChecksumMismatch);
    } else if h[NAME + 99] != NUL || h[PREFIX] != NUL {
      return Error(NameTooLong);
    }
    r := ParseEntry(h);
  }

  /** The field holds v, in octal. */
  ghost predicate FieldHolds(s: string, v: nat) {
    exists n: nat ::
      0 < n < |s| && DigitRun(s, n) && (s[n] == ' ' || s[n] == NUL) && Fold(8, s[..n], 0) == v <= ULONG_MAX
  }

  lemma FieldHoldsExact(s: string, v: nat)
    ensures ParsedOctal(s, 0, 0) == Some(v) <==> FieldHolds(s, v)
  {
    forall n: nat | DigitRun(s, n) ensures ParsedOctal(s, 0, 0) == FieldValue(s, 0, 0, n) {
      OctalExact(s, 0, 0, n);
    }
    var n := RunOf(s);
  }

  /** The size of a regular file: an octal number that is an int. */
  ghost predicate SizeOfFile(h: string, size: nat)
    requires |h| == HEADER_SIZE
  {
    FieldHolds(h[SIZE..SIZE + 12], size) && size <= INT_MAX
  }

  /** The header describes an entry: the magic, version 00, the checksum of its own bytes, a
      name that ends within its field, no prefix, and the type and size of a file or the type
      of a directory. */
  ghost predicate Describes(h: string, kind: Kind, size: nat)
    requires |h| == HEADER_SIZE
  {
    && h[MAGIC..MAGIC + 6] == "ustar" + [NUL] && h[VERSION..VERSION + 2] == "00"
    && FieldHolds(h[CHKSUM..CHKSUM + 8], Checksum(h, 0))
    && h[NAME + 99] == NUL && h[PREFIX] == NUL
    && if kind == Regular then h[TYPEFLAG] == '0' && SizeOfFile(h, size) else h[TYPEFLAG] == '5' && size == 0
  }

  /** A header parses to an entry exactly if it describes that entry. */
  lemma ParsedExact(h: string, name: string, kind: Kind, size: nat)
    requires |h| == HEADER_SIZE
    ensures Parsed(h) == Entry(name, kind, size) <==> Describes(h, kind, size) && name == Stripped(UpToNul(h))
  {
    FieldHoldsExact(h[CHKSUM..CHKSUM + 8], Checksum(h, 0));
    FieldHoldsExact(h[SIZE..SIZE + 12], size);
    assert h[MAGIC..MAGIC + 6] == "ustar" + [NUL] ==> h[MAGIC] == h[MAGIC..MAGIC + 6][0] != NUL;
  }

  /** A damaged byte outside the checksum field is always noticed. */
  lemma DamageNoticed(h: string, j: nat, ch: char)
    requires |h| == HEADER_SIZE && Parsed(h).Entry? && j < HEADER_SIZE && ch != h[j] && !(CHKSUM <= j < CHKSUM + 8)
    ensures !Parsed(h[j := ch]).Entry?
  {
    var g := h[j := ch];
    ChecksumOneByte(h, j, ch, 0);
    assert g[CHKSUM..CHKSUM + 8] == h[CHKSUM..CHKSUM + 8];
  }
}
