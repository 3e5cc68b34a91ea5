/** Directives as their writers mean them, and what the field parsers of _vsnprintf make of their
    text (solutions/d1_flashelf/libc/stdio2/printf.c). */
module PrintfDirective {
  import opened Basics
  import opened PrintfText
  import opened PrintfRoundTrip
  import opened PrintfFormat
  import opened PrintfHash

  // ---------------------------------------------------------------------------
  // Numbers.

  lemma ModStep(a: nat, b: nat, d: nat)
    requires a % UINT_MODULUS == b % UINT_MODULUS
    ensures (a * 10 + d) % UINT_MODULUS == (b * 10 + d) % UINT_MODULUS
  {
    var k := (a / UINT_MODULUS) - (b / UINT_MODULUS);
    assert a == b + k * UINT_MODULUS;
    assert a * 10 + d == (b * 10 + d) + (10 * k) * UINT_MODULUS;
    ModPlus(b * 10 + d, 10 * k);
  }

  lemma ModPlus(a: nat, k: int)
    requires a + k * UINT_MODULUS >= 0
    ensures (a + k * UINT_MODULUS) % UINT_MODULUS == a % UINT_MODULUS
  {
  }

  lemma {:induction false} ReadMod(s: seq<char>, a: nat, b: nat)
    requires a % UINT_MODULUS == b % UINT_MODULUS
    ensures ReadDigits(s, 10, a) % UINT_MODULUS == ReadDigits(s, 10, b) % UINT_MODULUS
    decreases |s|
  {
    if s != [] && IsDigit(s[0], 10) {
      ModStep(a, b, DigitValue(s[0]));
      ReadMod(s[1..], a * 10 + DigitValue(s[0]), b * 10 + DigitValue(s[0]));
    }
  }

  lemma DecimalDigit(c: char)
    ensures Digit(c) <==> IsDigit(c, 10)
    ensures Digit(c) ==> DigitValue(c) == c as int - '0' as int
  {
  }

  lemma NumberStep(fmt: seq<char>, i: nat, acc: nat)
    requires i < |fmt| && Digit(fmt[i])
    ensures ParseNumber(fmt, i, acc) == ParseNumber(fmt, i + 1, (acc * 10 + DigitValue(fmt[i])) % UINT_MODULUS)
  {
  }

  lemma NumberEnd(fmt: seq<char>, i: nat, acc: nat)
    requires !Digit(At(fmt, i))
    ensures ParseNumber(fmt, i, acc) == (acc, i)
  {
  }

  lemma {:induction false} ReadOneMod(c: char, rest: seq<char>, acc: nat)
    requires Digit(c)
    ensures ReadDigits([c] + rest, 10, acc) % UINT_MODULUS
            == ReadDigits(rest, 10, (acc * 10 + DigitValue(c)) % UINT_MODULUS) % UINT_MODULUS
  {
    hide ReadDigits;
    DecimalDigit(c);
    ReadOne(c, rest, 10, acc);
    ReadMod(rest, acc * 10 + DigitValue(c), (acc * 10 + DigitValue(c)) % UINT_MODULUS);
  }

  /** _atoi yields the number written by the longest run of digits, modulo 2^32, and stops at the
      first character that is none. */
  lemma {:induction false} NumberRead(fmt: seq<char>, i: nat, acc: nat)
    requires i <= |fmt| && acc < UINT_MODULUS
    ensures var (n, j) := ParseNumber(fmt, i, acc);
            && i <= j <= |fmt| && (forall k :: i <= k < j ==> Digit(fmt[k])) && !Digit(At(fmt, j))
            && n == ReadDigits(fmt[i..], 10, acc) % UINT_MODULUS
    decreases |fmt| - i
  {
    hide ReadDigits, ParseNumber, DigitValue;
    if i < |fmt| && Digit(fmt[i]) {
      NumberStep(fmt, i, acc);
      NumberRead(fmt, i + 1, (acc * 10 + DigitValue(fmt[i])) % UINT_MODULUS);
      assert fmt[i..] == [fmt[i]] + fmt[i + 1..];
      ReadOneMod(fmt[i], fmt[i + 1..], acc);
    } else {
      NumberEnd(fmt, i, acc);
      if i < |fmt| { DecimalDigit(fmt[i]); }
      ReadStop(fmt[i..], 10, acc);
    }
  }

  /** The decimal numeral of n. */
  function Numeral(n: nat): seq<char> {
    Reverse(LowDigits(n, 10, false, NTOA_BUFFER))
  }

  lemma NumeralShape(n: nat)
    requires n < UINT_MODULUS
    ensures forall k :: 0 <= k < |Numeral(n)| ==> Digit(Numeral(n)[k])
    ensures |Numeral(n)| >= 1 && (n > 0 ==> Numeral(n)[0] != '0')
  {
    hide LowDigits, Pow, IsDigit, Digit;
    LowDigitsAreDigits(n, 10, false, NTOA_BUFFER);
    ReversedDigits(LowDigits(n, 10, false, NTOA_BUFFER));
    UintFits();
    if n > 0 { TopDigit(n, 10, false, NTOA_BUFFER); }
  }

  lemma ReversedDigits(low: seq<char>)
    requires AllDigits(low, 10)
    ensures forall k :: 0 <= k < |low| ==> Digit(Reverse(low)[k])
  {
    hide IsDigit, Digit;
    forall k | 0 <= k < |low| ensures Digit(Reverse(low)[k]) {
      DecimalDigit(low[|low| - 1 - k]);
    }
  }

  lemma UintFits()
    ensures UINT_MODULUS < Pow(10, NTOA_BUFFER)
  {
    assert Pow(10, 10) == 10000000000;
    PowGrows(10, 10, NTOA_BUFFER);
  }

  lemma NumeralValue(n: nat, tail: seq<char>)
    requires n < UINT_MODULUS && (tail == [] || !Digit(tail[0]))
    ensures ReadDigits(Numeral(n) + tail, 10, 0) == n
  {
    LowDigitsAreDigits(n, 10, false, NTOA_BUFFER);
    if tail != [] { DecimalDigit(tail[0]); }
    UintFits();
    DigitsExact(n, 10, false, NTOA_BUFFER);
    hide LowDigits, Pow, ReadDigits, Denote;
    ReadReversed(LowDigits(n, 10, false, NTOA_BUFFER), tail, 10, 0);
  }

  /** fmt has `text` at position i. */
  predicate Holds(fmt: seq<char>, i: nat, text: seq<char>) {
    i + |text| <= |fmt| && fmt[i..i + |text|] == text
  }

  lemma HoldsParts(fmt: seq<char>, i: nat, a: seq<char>, b: seq<char>)
    ensures Holds(fmt, i, a + b) <==> Holds(fmt, i, a) && Holds(fmt, i + |a|, b)
  {
    if i + |a + b| <= |fmt| {
      assert fmt[i..i + |a| + |b|] == fmt[i..i + |a|] + fmt[i + |a|..i + |a| + |b|];
      if fmt[i..i + |a + b|] == a + b {
        assert fmt[i..i + |a|] == (a + b)[..|a|] && fmt[i + |a|..i + |a| + |b|] == (a + b)[|a|..];
      }
    }
  }

  /** fmt[i..j] is a longest run of digits. */
  ghost predicate DigitRun(fmt: seq<char>, i: nat, j: nat) {
    i <= j <= |fmt| && (forall k :: i <= k < j ==> Digit(fmt[k])) && !Digit(At(fmt, j))
  }

  lemma RunUnique(fmt: seq<char>, i: nat, j: nat, k: nat)
    requires DigitRun(fmt, i, j) && DigitRun(fmt, i, k)
    ensures j == k
  {
  }

  lemma HeldRun(fmt: seq<char>, i: nat, s: seq<char>)
    requires Holds(fmt, i, s) && s != [] && (forall k :: 0 <= k < |s| ==> Digit(s[k])) && !Digit(At(fmt, i + |s|))
    ensures DigitRun(fmt, i, i + |s|) && Digit(At(fmt, i)) && fmt[i..] == s + fmt[i + |s|..]
    ensures fmt[i + |s|..] == [] || !Digit(fmt[i + |s|..][0])
  {
    forall k | i <= k < i + |s| ensures Digit(fmt[k]) {
      assert fmt[k] == fmt[i..i + |s|][k - i] == s[k - i];
    }
    assert fmt[i..] == fmt[i..i + |s|] + fmt[i + |s|..];
  }

  lemma NumeralParsed(fmt: seq<char>, i: nat, n: nat)
    requires n < UINT_MODULUS && Holds(fmt, i, Numeral(n)) && !Digit(At(fmt, i + |Numeral(n)|))
    ensures Digit(At(fmt, i)) && ParseNumber(fmt, i, 0) == (n, i + |Numeral(n)|)
  {
    hide ParseNumber, Numeral, Digit, At, ReadDigits;
    var s := Numeral(n);
    NumeralShape(n);
    HeldRun(fmt, i, s);
    NumberRead(fmt, i, 0);
    var (m, j) := ParseNumber(fmt, i, 0);
    RunUnique(fmt, i, i + |s|, j);
    NumeralValue(n, fmt[i + |s|..]);
  }

  // ---------------------------------------------------------------------------
  // Directives.

  /** A width or precision: none, a number in the format, or an argument. */
  datatype Count = Absent | Given(n: nat) | Star

  /** The length modifiers, as they are written. */
  datatype Length = NoLength | L | LL | H | HH | T | J | Z

  datatype Directive = Directive(zeropad: bool, left: bool, plus: bool, space: bool, hash: bool,
                                 width: Count, prec: Count, length: Length, conv: char)

  function Opt(b: bool, c: char): seq<char> { if b then [c] else [] }

  function FlagText(d: Directive): seq<char> {
    Opt(d.zeropad, '0') + Opt(d.left, '-') + Opt(d.plus, '+') + Opt(d.space, ' ') + Opt(d.hash, '#')
  }

  function CountText(c: Count): seq<char> {
    match c
    case Absent => []
    case Given(n) => Numeral(n)
    case Star => ['*']
  }

  function PrecText(c: Count): seq<char> {
    if c.Absent? then [] else ['.'] + CountText(c)
  }

  function LengthText(l: Length): seq<char> {
    match l
    case NoLength => []
    case L => "l"
    case LL => "ll"
    case H => "h"
    case HH => "hh"
    case T => "t"
    case J => "j"
    case Z => "z"
  }

  /** On this target all of long, long long, ptrdiff_t, intmax_t and size_t have 64 bits. */
  function LengthMeans(l: Length): Size {
    match l
    case NoLength => Plain
    case H => Short
    case HH => Byte
    case _ => Wide
  }

  /** A directive as it is written, without the leading '%'. */
  function DirectiveText(d: Directive): seq<char> {
    FlagText(d) + (CountText(d.width) + (PrecText(d.prec) + (LengthText(d.length) + [d.conv])))
  }

  predicate CountOk(c: Count) { c.Given? ==> c.n < UINT_MODULUS }

  /** The conversion character cannot be taken for another field, and a width in the format is not
      zero: a zero would be a flag. */
  predicate Writable(d: Directive) {
    && CountOk(d.width) && CountOk(d.prec) && d.width != Given(0)
    && !IsFlag(d.conv) && !Digit(d.conv) && d.conv != '.' && d.conv != '*'
    && d.conv != 'l' && d.conv != 'h' && d.conv != 't' && d.conv != 'j' && d.conv != 'z'
  }

  /** A star takes the next argument. */
  function CountValue(c: Count, args: seq<Arg>): int {
    match c
    case Absent => 0
    case Given(n) => n
    case Star => if args != [] && args[0].Int? then args[0].v else 0
  }

  function CountRest(c: Count, args: seq<Arg>): seq<Arg> {
    if c.Star? && args != [] then args[1..] else args
  }

  /** What the directive asks for: a negative width argument means '-', a negative precision
      argument zero. */
  function Meaning(d: Directive, args: seq<Arg>): (r: (Spec, seq<Arg>)) {
    var w := CountValue(d.width, args);
    var rest := CountRest(d.width, args);
    var p := CountValue(d.prec, rest);
    var rest2 := CountRest(d.prec, rest);
    var flags := Flags(d.zeropad, d.left || w < 0, d.plus, d.space, d.hash, false, !d.prec.Absent?);
    (Spec(flags, if w < 0 then -w else w, if p < 0 then 0 else p, LengthMeans(d.length), d.conv), rest2)
  }

  function AddFlags(f: Flags, cs: seq<char>): Flags
    decreases |cs|
  {
    if cs == [] then f else AddFlags(AddFlag(f, cs[0]), cs[1..])
  }

  lemma {:induction false} FlagsParsed(fmt: seq<char>, i: nat, cs: seq<char>, f: Flags)
    requires Holds(fmt, i, cs) && (forall k :: 0 <= k < |cs| ==> IsFlag(cs[k])) && !IsFlag(At(fmt, i + |cs|))
    ensures ParseFlags(fmt, i, f) == (AddFlags(f, cs), i + |cs|)
    decreases |cs|
  {
    if cs != [] {
      assert cs == [cs[0]] + cs[1..];
      HoldsParts(fmt, i, [cs[0]], cs[1..]);
      assert fmt[i] == fmt[i..i + 1][0] == cs[0];
      FlagsParsed(fmt, i + 1, cs[1..], AddFlag(f, cs[0]));
    }
  }

  lemma {:induction false} AddFlagsConcat(f: Flags, a: seq<char>, b: seq<char>)
    ensures AddFlags(f, a + b) == AddFlags(AddFlags(f, a), b)
    decreases |a|
  {
    if a == [] {
      assert a + b == b;
    } else {
      assert (a + b)[1..] == a[1..] + b;
      AddFlagsConcat(AddFlag(f, a[0]), a[1..], b);
    }
  }

  lemma AddOpt(f: Flags, b: bool, c: char)
    ensures AddFlags(f, Opt(b, c)) == if b then AddFlag(f, c) else f
  {
  }

  lemma FlagTextMeans(d: Directive)
    ensures forall k :: 0 <= k < |FlagText(d)| ==> IsFlag(FlagText(d)[k])
    ensures AddFlags(NO_FLAGS, FlagText(d)) == Flags(d.zeropad, d.left, d.plus, d.space, d.hash, false, false)
  {
    hide AddFlags;
    var a, b, c, e, g := Opt(d.zeropad, '0'), Opt(d.left, '-'), Opt(d.plus, '+'), Opt(d.space, ' '), Opt(d.hash, '#');
    AddFlagsConcat(NO_FLAGS, a + b + c + e, g);
    AddFlagsConcat(NO_FLAGS, a + b + c, e);
    AddFlagsConcat(NO_FLAGS, a + b, c);
    AddFlagsConcat(NO_FLAGS, a, b);
    var f0 := AddFlags(NO_FLAGS, a);
    var f1 := AddFlags(f0, b);
    var f2 := AddFlags(f1, c);
    var f3 := AddFlags(f2, e);
    AddOpt(NO_FLAGS, d.zeropad, '0');
    AddOpt(f0, d.left, '-');
    AddOpt(f1, d.plus, '+');
    AddOpt(f2, d.space, ' ');
    AddOpt(f3, d.hash, '#');
  }

  lemma HoldsAt(fmt: seq<char>, i: nat, text: seq<char>, k: nat)
    requires Holds(fmt, i, text) && k < |text|
    ensures At(fmt, i + k) == text[k]
  {
    assert fmt[i + k] == fmt[i..i + |text|][k];
  }

  /** The character a text starts with, or the one behind it. */
  lemma HeadAt(fmt: seq<char>, i: nat, text: seq<char>)
    requires Holds(fmt, i, text) && text != []
    ensures At(fmt, i) == text[0]
  {
    assert fmt[i] == fmt[i..i + |text|][0];
  }

  /** What stands behind the flags, the width and the precision is none of what may follow them. */
  lemma TextHeads(d: Directive)
    requires Writable(d)
    ensures var z := LengthText(d.length) + [d.conv];
            var y := PrecText(d.prec) + z;
            var x := CountText(d.width) + y;
            && !IsFlag(x[0]) && !Digit(y[0]) && !Digit(z[0]) && z[0] != '.' && z[0] != '*'
            && (d.width.Absent? ==> !Digit(x[0]) && x[0] != '*') && (d.prec.Absent? ==> y[0] != '.')
            && (d.width.Star? ==> x[0] == '*') && (!d.prec.Absent? ==> y[0] == '.')
  {
    if d.width.Given? { NumeralShape(d.width.n); }
  }

  lemma StarNoDigit()
    ensures !Digit('*')
  {
  }

  lemma WidthParsed(fmt: seq<char>, f: Fields, c: Count)
    requires CountOk(c) && Holds(fmt, f.at, CountText(c)) && !Digit(At(fmt, f.at + |CountText(c)|))
    requires c.Absent? ==> At(fmt, f.at) != '*'
    requires f.width == 0
    ensures var w := CountValue(c, f.args);
            ParseWidth(fmt, f) == f.(flags := if w < 0 then f.flags.(left := true) else f.flags, width := if w < 0 then -w else w,
                                     at := f.at + |CountText(c)|, args := CountRest(c, f.args))
  {
    hide ParseNumber, Numeral, Holds, Digit, At;
    StarNoDigit();
    match c
    case Absent =>
    case Given(n) => NumeralParsed(fmt, f.at, n);
    case Star => HeadAt(fmt, f.at, ['*']);
  }

  lemma PrecParsed(fmt: seq<char>, f: Fields, c: Count)
    requires CountOk(c) && Holds(fmt, f.at, PrecText(c)) && !Digit(At(fmt, f.at + |PrecText(c)|))
    requires c.Absent? ==> At(fmt, f.at) != '.'
    requires f.prec == 0 && !f.flags.precision
    ensures var p := CountValue(c, f.args);
            ParsePrecision(fmt, f) == f.(flags := f.flags.(precision := !c.Absent?), prec := if p < 0 then 0 else p,
                                         at := f.at + |PrecText(c)|, args := CountRest(c, f.args))
  {
    hide ParseNumber, Numeral, Holds, Digit, At;
    StarNoDigit();
    if !c.Absent? {
      HoldsParts(fmt, f.at, ['.'], CountText(c));
      HeadAt(fmt, f.at, ['.']);
      if c.Star? { HeadAt(fmt, f.at + 1, ['*']); } else { NumeralParsed(fmt, f.at + 1, c.n); }
    }
  }

  lemma SizeParsed(fmt: seq<char>, i: nat, d: Directive)
    requires Writable(d) && Holds(fmt, i, LengthText(d.length) + [d.conv])
    ensures ParseSize(fmt, i) == (LengthMeans(d.length), i + |LengthText(d.length)|)
    ensures At(fmt, i + |LengthText(d.length)|) == d.conv
  {
    hide Holds, At;
    var z := LengthText(d.length) + [d.conv];
    HoldsAt(fmt, i, z, 0);
    if |z| > 1 { HoldsAt(fmt, i, z, 1); }
    if |z| > 2 { HoldsAt(fmt, i, z, 2); }
  }

  /** Where the fields of a directive stand. */
  lemma Layout(fmt: seq<char>, i: nat, d: Directive)
    requires Writable(d) && Holds(fmt, i, DirectiveText(d))
    ensures var i1 := i + |FlagText(d)|;
            var i2 := i1 + |CountText(d.width)|;
            var i3 := i2 + |PrecText(d.prec)|;
            && Holds(fmt, i, FlagText(d)) && !IsFlag(At(fmt, i1))
            && Holds(fmt, i1, CountText(d.width)) && !Digit(At(fmt, i2)) && (d.width.Absent? ==> At(fmt, i1) != '*')
            && Holds(fmt, i2, PrecText(d.prec)) && !Digit(At(fmt, i3)) && (d.prec.Absent? ==> At(fmt, i2) != '.')
            && Holds(fmt, i3, LengthText(d.length) + [d.conv]) && CountOk(d.width) && CountOk(d.prec)
            && |DirectiveText(d)| == i3 + |LengthText(d.length)| + 1 - i
  {
    hide FlagText, CountText, PrecText, LengthText, Holds, Digit, IsFlag, At;
    var z := LengthText(d.length) + [d.conv];
    var y := PrecText(d.prec) + z;
    var x := CountText(d.width) + y;
    TextHeads(d);
    HoldsParts(fmt, i, FlagText(d), x);
    HoldsParts(fmt, i + |FlagText(d)|, CountText(d.width), y);
    HoldsParts(fmt, i + |FlagText(d)| + |CountText(d.width)|, PrecText(d.prec), z);
    HeadAt(fmt, i + |FlagText(d)|, x);
    HeadAt(fmt, i + |FlagText(d)| + |CountText(d.width)|, y);
    HeadAt(fmt, i + |FlagText(d)| + |CountText(d.width)| + |PrecText(d.prec)|, z);
  }

  /** A directive written into a format, whatever stands around it, is parsed as what it means: its
      specification, the position of its conversion character and the arguments left. */
  lemma DirectiveParsed(fmt: seq<char>, i: nat, d: Directive, args: seq<Arg>)
    requires Writable(d) && Holds(fmt, i, DirectiveText(d))
    ensures ParseSpec(fmt, i, args) == (Meaning(d, args).0, i + |DirectiveText(d)| - 1, Meaning(d, args).1)
  {
    hide ParseFlags, ParseWidth, ParsePrecision, ParseSize, FlagText, CountText, PrecText, LengthText, Holds, Digit,
         IsFlag, At, Writable, DirectiveText, CountOk, AddFlags, CountValue, CountRest;
    Layout(fmt, i, d);
    FlagTextMeans(d);
    var i1 := i + |FlagText(d)|;
    FlagsParsed(fmt, i, FlagText(d), NO_FLAGS);
    var f := Fields(AddFlags(NO_FLAGS, FlagText(d)), 0, 0, i1, args);
    WidthParsed(fmt, f, d.width);
    PrecParsed(fmt, ParseWidth(fmt, f), d.prec);
    SizeParsed(fmt, i1 + |CountText(d.width)| + |PrecText(d.prec)|, d);
  }
}
