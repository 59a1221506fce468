/** Parsing of conversion specifications and bounded output (parse_conversion and
    vsnprintf in lib/stdio.c). */
module Conversions {
  import opened Printf

  /** The argument types; Plain is int, which has no letter. */
  datatype Size = Plain | Char | Short | IntMax | Long | LongLong | PtrDiff | SizeT

  predicate IsFlag(ch: char) {
    ch == '-' || ch == '+' || ch == ' ' || ch == '#' || ch == '0' || ch == '\''
  }

  ghost predicate AllFlags(s: string) {
    forall i | 0 <= i < |s| :: IsFlag(s[i])
  }

  function FlagEnd(f: string): (n: nat)
    ensures n <= |f|
  {
    if f != "" && IsFlag(f[0]) then 1 + FlagEnd(f[1..]) else 0
  }

  /** The flags of a run of flag characters: '-' cancels '0' and '+' cancels ' '. */
  function FlagsOf(s: string): Flags {
    Flags('-' in s, '+' in s, ' ' in s && '+' !in s, '#' in s, '0' in s && '-' !in s, '\'' in s)
  }

  function NumberEnd(f: string): (n: nat)
    ensures n <= |f|
  {
    if f != "" && IsDigit(f[0]) then 1 + NumberEnd(f[1..]) else 0
  }

  /** A number or a star: its value, the characters and the arguments it takes. */
  datatype Number = Number(value: int, chars: nat, args: nat)

  predicate IsStar(f: string) {
    f != "" && f[0] == '*'
  }

  function NumberAt(f: string, args: seq<int>): Number
    requires IsStar(f) ==> args != []
  {
    if IsStar(f) then Number(args[0], 1, 1) else Number(LeadValue(f, 0), NumberEnd(f), 0)
  }

  function PrecisionAt(f: string, args: seq<int>): Number
    requires f != "" && f[0] == '.' && IsStar(f[1..]) ==> args != []
  {
    if f == "" || f[0] != '.' then Number(-1, 0, 0)
    else
      var n := NumberAt(f[1..], args);
      Number(if n.value < 0 then -1 else n.value, n.chars + 1, n.args)
  }

  function SizeAt(f: string): (Size, nat) {
    if f == "" then (Plain, 0)
    else match f[0]
      case 'h' => if |f| > 1 && f[1] == 'h' then (Char, 2) else (Short, 1)
      case 'j' => (IntMax, 1)
      case 'l' => if |f| > 1 && f[1] == 'l' then (LongLong, 2) else (Long, 1)
      case 't' => (PtrDiff, 1)
      case 'z' => (SizeT, 1)
      case _ => (Plain, 0)
  }

  /** The conversion described by flags, a width and a precision.  A negative width sets '-'
      after '-' would have cancelled '0'. */
  function Combined(flags: Flags, width: int, precision: int): Conversion {
    Conversion(flags.(minus := flags.minus || width < 0, zero := flags.zero && precision < 0),
               if width < 0 then -width else width, precision)
  }

  method ParseFlags(f: string) returns (flags: Flags, n: nat)
    ensures n == FlagEnd(f) && flags == FlagsOf(f[..n])
  {
    flags := Flags(false, false, false, false, false, false);
    n := 0;
    while n < |f| && IsFlag(f[n])
      invariant n <= |f| && FlagEnd(f) == n + FlagEnd(f[n..])
      invariant flags == Flags('-' in f[..n], '+' in f[..n],
                               ' ' in f[..n], '#' in f[..n], '0' in f[..n], '\'' in f[..n])
    {
      assert f[n..][1..] == f[n + 1..];
      assert f[..n + 1] == f[..n] + [f[n]];
      match f[n] {
        case '-' => flags := flags.(minus := true);
        case '+' => flags := flags.(plus := true);
        case ' ' => flags := flags.(space := true);
        case '#' => flags := flags.(pound := true);
        case '0' => flags := flags.(zero := true);
        case _ => flags := flags.(group := true);
      }
      n := n + 1;
    }
    if flags.minus {
      flags := flags.(zero := false);
    }
    if flags.plus {
      flags := flags.(space := false);
    }
  }

  method ParseNumber(f: string, args: seq<int>) returns (r: Number)
    requires IsStar(f) ==> args != []
    ensures r == NumberAt(f, args) && r.chars <= |f| && r.args <= 1
  {
    if IsStar(f) {
      return Number(args[0], 1, 1);
    }
    var value, n := 0, 0;
    while n < |f| && IsDigit(f[n])
      invariant n <= |f| && LeadValue(f[n..], value) == LeadValue(f, 0) && n + NumberEnd(f[n..]) == NumberEnd(f)
    {
      assert f[n..][1..] == f[n + 1..];
      value, n := value * 10 + DigitValue(f[n]), n + 1;
    }
    r := Number(value, n, 0);
  }

  /** What follows the flags, and what follows the width. */
  function AfterFlags(f: string): string {
    f[FlagEnd(f)..]
  }

  function AfterWidth(f: string): string {
    if IsStar(AfterFlags(f)) then AfterFlags(f)[1..] else AfterFlags(f)[NumberEnd(AfterFlags(f))..]
  }

  /** There is an argument for each star. */
  ghost predicate EnoughArgs(f: string, args: seq<int>) {
    var stars := if IsStar(AfterFlags(f)) then 1 else 0;
    && |args| >= stars
    && (AfterWidth(f) != "" && AfterWidth(f)[0] == '.' && IsStar(AfterWidth(f)[1..]) ==> |args| > stars)
  }

  /** parse_conversion: the conversion, its size and the position of its letter. */
  method ParseConversion(f: string, args: seq<int>) returns (c: Conversion, size: Size, n: nat)
    requires EnoughArgs(f, args)
    ensures var w := NumberAt(AfterFlags(f), args);
            var p := PrecisionAt(AfterWidth(f), args[w.args..]);
            && p.chars <= |AfterWidth(f)|
            && c == Combined(FlagsOf(f[..FlagEnd(f)]), w.value, p.value)
            && size == SizeAt(AfterWidth(f)[p.chars..]).0
            && n == FlagEnd(f) + w.chars + p.chars + SizeAt(AfterWidth(f)[p.chars..]).1
  {
    var flags, k := ParseFlags(f);
    var w := ParseNumber(f[k..], args);
    var f' := f[k..][w.chars..];
    assert f' == AfterWidth(f);
    var p := Number(-1, 0, 0);
    if f' != "" && f'[0] == '.' {
      p := ParseNumber(f'[1..], args[w.args..]);
      p := Number(if p.value < 0 then -1 else p.value, p.chars + 1, p.args);
    }
    c := Combined(flags, w.value, p.value);
    var s := SizeAt(f'[p.chars..]);
    size := s.0;
    n := k + w.chars + p.chars + s.1;
  }

  /** With these flags both kinds of padding are in force: '0' without '-' before a negative
      star width and no precision.  No other specification does that. */
  lemma BothPaddings(s: string, width: int, precision: int)
    requires precision >= -1
    ensures var c := Combined(FlagsOf(s), width, precision);
            c.flags.minus && c.flags.zero <==> '0' in s && '-' !in s && width < 0 && precision < 0
  {
  }

  // Writing a conversion specification and reading it back --------------------------------

  ghost predicate Normal(c: Conversion) {
    && (c.flags.plus ==> !c.flags.space)
    && (c.flags.zero ==> !c.flags.minus && c.precision < 0)
    && c.precision >= -1
  }

  function Mark(on: bool, ch: char): string {
    if on then [ch] else ""
  }

  function Marks(on: bool, ch: char, on2: bool, ch2: char, on3: bool, ch3: char): string {
    Mark(on, ch) + Mark(on2, ch2) + Mark(on3, ch3)
  }

  function FlagText(g: Flags): string {
    Marks(g.minus, '-', g.plus, '+', g.space, ' ') + Marks(g.pound, '#', g.zero, '0', g.group, '\'')
  }

  lemma MarksMembers(on: bool, ch: char, on2: bool, ch2: char, on3: bool, ch3: char, x: char)
    ensures x in Marks(on, ch, on2, ch2, on3, ch3) <==> (on && x == ch) || (on2 && x == ch2) || (on3 && x == ch3)
  {
  }

  function PrecisionText(precision: int): string {
    if precision < 0 then "" else "." + Digits(precision, BASE_D)
  }

  /** The letters of an argument type. */
  function SizeText(size: Size): string {
    match size
    case Plain => ""
    case Char => "hh"
    case Short => "h"
    case IntMax => "j"
    case Long => "l"
    case LongLong => "ll"
    case PtrDiff => "t"
    case SizeT => "z"
  }

  function SpecText(c: Conversion, size: Size): string {
    FlagText(c.flags) + Digits(c.width, BASE_D) + PrecisionText(c.precision) + SizeText(size)
  }

  lemma FlagTextMembers(g: Flags, x: char)
    ensures x in FlagText(g)
            <==> (g.minus && x == '-') || (g.plus && x == '+') || (g.space && x == ' ')
                 || (g.pound && x == '#') || (g.zero && x == '0') || (g.group && x == '\'')
  {
    MarksMembers(g.minus, '-', g.plus, '+', g.space, ' ', x);
    MarksMembers(g.pound, '#', g.zero, '0', g.group, '\'', x);
  }

  lemma FlagTextRead(g: Flags)
    requires g.plus ==> !g.space
    requires g.zero ==> !g.minus
    ensures FlagsOf(FlagText(g)) == g && AllFlags(FlagText(g))
  {
    forall x ensures x in FlagText(g)
                     <==> (g.minus && x == '-') || (g.plus && x == '+') || (g.space && x == ' ')
                          || (g.pound && x == '#') || (g.zero && x == '0') || (g.group && x == '\'')
    {
      FlagTextMembers(g, x);
    }
    forall i | 0 <= i < |FlagText(g)| ensures IsFlag(FlagText(g)[i]) {
      assert FlagText(g)[i] in FlagText(g);
    }
  }

  lemma {:induction false} FlagEndAt(s: string, t: string)
    requires AllFlags(s) && (t == "" || !IsFlag(t[0]))
    ensures FlagEnd(s + t) == |s|
  {
    if s == "" {
      assert s + t == t;
    } else {
      assert (s + t)[1..] == s[1..] + t;
      FlagEndAt(s[1..], t);
    }
  }

  lemma {:induction false} NumberEndAt(s: string, t: string)
    requires AllDigits(s) && (t == "" || !IsDigit(t[0]))
    ensures NumberEnd(s + t) == |s|
  {
    if s == "" {
      assert s + t == t;
    } else {
      assert (s + t)[1..] == s[1..] + t;
      NumberEndAt(s[1..], t);
    }
  }

  /** A positive width does not begin with the character that is also a flag. */
  lemma {:induction false} FirstDigit(value: nat)
    requires value > 0
    ensures Digits(value, BASE_D) != "" && Digits(value, BASE_D)[0] != '0'
  {
    if value >= 10 {
      FirstDigit(value / 10);
    }
  }

  lemma NumberRead(value: nat, t: string, args: seq<int>)
    requires t == "" || (!IsDigit(t[0]) && t[0] != '*')
    ensures var n := Digits(value, BASE_D);
            && !IsStar(n + t)
            && NumberAt(n + t, args) == Number(value, |n|, 0)
  {
    PlainBases();
    FoldDigits(value, BASE_D);
    LeadFold(Digits(value, BASE_D), t, 0);
    NumberEndAt(Digits(value, BASE_D), t);
  }

  /** t is what may follow a conversion specification: a letter. */
  predicate IsLetter(t: string) {
    t != "" && !IsDigit(t[0]) && !IsFlag(t[0]) && t[0] != '*' && t[0] != '.'
  }

  /** t starts with the letter of a conversion, which no argument type uses. */
  predicate IsConversionLetter(t: string) {
    IsLetter(t) && t[0] != 'h' && t[0] != 'j' && t[0] != 'l' && t[0] != 't' && t[0] != 'z'
  }

  lemma SizeRead(size: Size, t: string)
    requires IsConversionLetter(t)
    ensures var s := SizeText(size) + t;
            IsLetter(s) && SizeAt(s) == (size, |SizeText(size)|) && s[|SizeText(size)|..] == t
  {
  }

  lemma PrecisionRead(precision: int, t: string, args: seq<int>)
    requires precision >= -1 && IsLetter(t)
    ensures var s := PrecisionText(precision) + t;
            && s != "" && !IsDigit(s[0]) && !IsFlag(s[0]) && s[0] != '*'
            && (s[0] == '.' ==> !IsStar(s[1..]))
            && PrecisionAt(s, args) == Number(precision, |PrecisionText(precision)|, 0)
  {
    if precision >= 0 {
      var n := Digits(precision, BASE_D);
      NumberRead(precision, t, args);
      assert "." + n + t == "." + (n + t);
      assert ("." + (n + t))[1..] == n + t;
    } else {
      assert PrecisionText(precision) + t == t;
    }
  }

  lemma WidthStart(width: nat, s: string)
    requires s != "" && !IsFlag(s[0])
    ensures !IsFlag((Digits(width, BASE_D) + s)[0])
  {
    if width > 0 {
      FirstDigit(width);
      PlainBases();
      FoldDigits(width, BASE_D);
    }
  }

  /** ParseConversion reads c from f and has t left when it comes to the argument type. */
  ghost predicate LeavesAfter(f: string, c: Conversion, t: string, args: seq<int>) {
    && EnoughArgs(f, args)
    && var w := NumberAt(AfterFlags(f), args);
    var p := PrecisionAt(AfterWidth(f), args[w.args..]);
    && Combined(FlagsOf(f[..FlagEnd(f)]), w.value, p.value) == c
    && p.chars <= |AfterWidth(f)| && AfterWidth(f)[p.chars..] == t
  }

  lemma ReadBack(flags: string, c: Conversion, t: string, args: seq<int>)
    requires FlagsOf(flags) == c.flags && AllFlags(flags) && c.precision >= -1 && (c.flags.zero ==> c.precision < 0)
    requires IsLetter(t)
    ensures LeavesAfter(flags + Digits(c.width, BASE_D) + PrecisionText(c.precision) + t, c, t, args)
  {
    var width, rest := Digits(c.width, BASE_D), PrecisionText(c.precision) + t;
    var f := flags + width + PrecisionText(c.precision) + t;
    assert f == flags + (width + rest);
    PrecisionRead(c.precision, t, args);
    WidthStart(c.width, rest);
    FlagEndAt(flags, width + rest);
    assert AfterFlags(f) == width + rest && f[..FlagEnd(f)] == flags;
    NumberRead(c.width, rest, args);
    assert AfterWidth(f) == rest;
    assert rest[|PrecisionText(c.precision)|..] == t;
  }

  /** ParseConversion's result on f is c and size, and t is left. */
  ghost predicate ReadsAs(f: string, c: Conversion, size: Size, t: string, args: seq<int>) {
    LeavesAfter(f, c, SizeText(size) + t, args) && SizeAt(SizeText(size) + t) == (size, |SizeText(size)|)
  }

  lemma Reassociated(a: string, b: string, c: string)
    ensures (a + b) + c == a + (b + c)
  {
  }

  /** parse_conversion reads every normal conversion of every argument type back from its
      text. */
  lemma SpecRoundTrip(c: Conversion, size: Size, t: string, args: seq<int>)
    requires Normal(c) && IsConversionLetter(t)
    ensures ReadsAs(SpecText(c, size) + t, c, size, t, args)
  {
    FlagTextRead(c.flags);
    SizeRead(size, t);
    ReadBack(FlagText(c.flags), c, SizeText(size) + t, args);
    Reassociated(FlagText(c.flags) + Digits(c.width, BASE_D) + PrecisionText(c.precision), SizeText(size), t);
  }

  // Bounded output ----------------------------------------------------------------------------

  /** A buffer of which bytes [ofs, ofs + |text|) are replaced. */
  function Written(buffer: string, ofs: nat, text: string): (r: string)
    requires ofs + |text| <= |buffer|
    ensures |r| == |buffer|
  {
    buffer[..ofs] + text + buffer[ofs + |text|..]
  }

  /** What fits of a text, with its terminator. */
  function Truncated(text: string, size: nat): (r: string)
    requires size > 0
    ensures |r| <= size
  {
    (if |text| < size then text else text[..size - 1]) + [NUL]
  }

  method Put(buffer: array<char>, ofs: nat, done: string, ch: char, ghost was: string)
    requires ofs + |done| < buffer.Length == |was| && buffer[..] == Written(was, ofs, done)
    modifies buffer
    ensures buffer[..] == Written(was, ofs, done + [ch])
  {
    buffer[ofs + |done|] := ch;
  }

  /** vsnprintf of an already formatted text into the `size` bytes at ofs: the text is cut
      off to leave room for the terminator, and its full length is returned. */
  method Snprintf(buffer: array<char>, ofs: nat, size: nat, text: string) returns (length: nat)
    requires ofs + size <= buffer.Length
    modifies buffer
    ensures length == |text|
    ensures buffer[..] == if size > 0 then Written(old(buffer[..]), ofs, Truncated(text, size)) else old(buffer[..])
  {
    ghost var was := buffer[..];
    var room, p := if size > 0 then size - 1 else 0, 0;
    assert Written(was, ofs, text[..0]) == was;
    length := 0;
    while length < |text|
      invariant length <= |text| && p == (if length < room then length else room) && p <= |text|
      invariant buffer[..] == Written(was, ofs, text[..p])
    {
      if length < room {
        Put(buffer, ofs, text[..p], text[p], was);
        assert text[..p] + [text[p]] == text[..p + 1];
        p := p + 1;
      }
      length := length + 1;
    }
    if size > 0 {
      assert Truncated(text, size) == text[..p] + [NUL];
      Put(buffer, ofs, text[..p], NUL, was);
    }
  }
}
