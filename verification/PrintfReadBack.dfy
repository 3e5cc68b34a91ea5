/** From format strings back to numbers: what a reader gets from the integer directives of
    _vsnprintf (solutions/d1_flashelf/libc/stdio2/printf.c). */
module PrintfReadBack {
  import opened PrintfText
  import opened PrintfRoundTrip
  import opened PrintfHash
  import opened PrintfFormat
  import opened PrintfStandard
  import opened PrintfDirective

  /** Precision and zero padding stay within the conversion buffer. */
  predicate InBuffer(s: Spec) {
    s.prec < NTOA_BUFFER && (s.flags.zeropad && !s.flags.left && !s.flags.precision ==> s.width <= NTOA_BUFFER)
  }

  lemma ReadsAsIs(conv: char, text: seq<char>, n: int)
    requires Integer(conv) && (conv != 'd' && conv != 'i' ==> n >= 0)
    ensures ReadsAs(conv, text, n) <==> ReadInt(text, Radix(conv)) == (n < 0, Magnitude(n))
  {
    hide ReadInt;
  }

  /** Any integer conversion without '#' reads back, in the base of its letter, as the number its
      length field makes of the argument, whatever its flags, width and precision are, as long as
      these stay within the buffer. */
  lemma DirectiveReadsBack(s: Spec, v: int, n: int)
    requires Integer(s.conv) && InRange(s, v) && Converted(s, v, n)
    requires !s.flags.hash && InBuffer(s) && (s.conv == 'b' ==> n < 0x1_0000_0000)
    ensures ReadsAs(s.conv, IntText(s, v), n)
  {
    hide Ntoa, ReadInt, Pow, PaddedCount, ReadsAs, IntText, Digits, LowDigits;
    NumberRange(s, v, n);
    IntTextIs(s, v, n);
    ReadsAsIs(s.conv, IntText(s, v), n);
    var flags := CodeFlags(Asked(s), s.conv == 'X');
    if s.conv == 'b' {
      Pow32();
      PlainRoundTrip(n, false, 2, s.prec, s.width, flags);
    } else {
      UsualRoundTrip(Magnitude(n), n < 0, Radix(s.conv), s.prec, s.width, flags);
    }
  }

  /** A binary conversion reads back exactly when the number has at most 32 binary digits. */
  lemma BinaryReadsBack(s: Spec, v: int, n: int)
    requires s.conv == 'b' && InRange(s, v) && Converted(s, v, n) && !s.flags.hash
    ensures ReadInt(IntText(s, v), 2) == (false, n) <==> n < 0x1_0000_0000
  {
    hide Ntoa, ReadInt, Pow, PaddedCount, IntText;
    NumberRange(s, v, n);
    IntTextIs(s, v, n);
    Pow32();
    PlainRoundTrip(n, false, 2, s.prec, s.width, CodeFlags(Asked(s), false));
  }

  /** %hhd of -1 shows 255: char is unsigned here, and the code casts to char. */
  lemma ByteShowsUnsigned()
    ensures ReadInt(IntText(Spec(NO_FLAGS, 0, 0, Byte, 'd'), -1), 10) == (false, 255)
  {
    hide IntText, ReadInt;
    DirectiveReadsBack(Spec(NO_FLAGS, 0, 0, Byte, 'd'), -1, 255);
  }

  /** An octal, hexadecimal or binary conversion with '#' is the code's conversion with '#' in the
      base of its letter. */
  lemma HashTextIs(s: Spec, v: int, n: nat)
    requires s.conv in {'o', 'x', 'X', 'b'} && s.flags.hash && Converted(s, v, n)
    ensures IntText(s, v)
            == Ntoa(n, false, Radix(s.conv), s.prec, s.width, CodeFlags(Asked(s), s.conv == 'X').(hash := true))
  {
    hide Ntoa, Narrow;
    NarrowIs(s, v, n);
  }

  /** It reads back exactly when the number fits, the prefix does not take the place of digits, and
      it is not cut itself. */
  lemma HashReadsBack(s: Spec, v: int, n: nat)
    requires s.conv in {'o', 'x', 'X', 'b'} && s.flags.hash && InRange(s, v) && Converted(s, v, n) && n > 0
    ensures var base, flags := Radix(s.conv), CodeFlags(Asked(s), s.conv == 'X').(hash := true);
            ReadsAs(s.conv, IntText(s, v), n) <==>
            && n < Pow(base, NTOA_BUFFER) && Harmless(n, false, base, s.prec, s.width, flags)
            && PrefixWhole(DigitsKept(n, false, base, s.prec, s.width, flags), base)
  {
    hide Ntoa, ReadInt, Pow, Harmless, DigitsKept, PrefixWhole, ReadsAs, IntText;
    HashTextIs(s, v, n);
    ReadsAsIs(s.conv, IntText(s, v), n);
    HashRoundTrip(n, false, Radix(s.conv), s.prec, s.width, CodeFlags(Asked(s), s.conv == 'X').(hash := true));
  }

  /** A pointer reads back from its hexadecimal digits; without flags there are exactly sixteen. */
  lemma PointerReadsBack(s: Spec, a: nat)
    requires a < 0x1_0000_0000_0000_0000 && !s.flags.hash && s.prec < NTOA_BUFFER
    ensures ReadInt(PtrText(s, a), 16) == (false, a)
    ensures s.flags == NO_FLAGS && s.prec == 0 ==> |PtrText(s, a)| == ADDRESS_DIGITS
  {
    var flags := s.flags.(zeropad := true, uppercase := true);
    UsualRoundTrip(a, false, 16, s.prec, ADDRESS_DIGITS, flags);
    if s.flags == NO_FLAGS && s.prec == 0 {
      Pow16();
      DigitCount(a, 16, true, NTOA_BUFFER, ADDRESS_DIGITS);
      NoPrefix(a, false, 16, 0, ADDRESS_DIGITS, flags);
      Anatomy(a, false, 16, 0, ADDRESS_DIGITS, flags);
      PaddedIs(a, false, 16, 0, ADDRESS_DIGITS, flags);
      hide Ntoa, AllPadded, LowDigits, Pow, ReadInt, Body;
    }
  }

  lemma Pow16()
    ensures Pow(16, ADDRESS_DIGITS) == 0x1_0000_0000_0000_0000
  {
    assert Pow(16, 4) == 0x1_0000;
    assert Pow(16, 8) == 0x1_0000 * Pow(16, 4);
    assert Pow(16, 12) == 0x1_0000 * Pow(16, 8);
    assert Pow(16, 16) == 0x1_0000 * Pow(16, 12);
  }

  /** Wherever a directive is written in a format, the interpreter puts out the text of its
      conversion there and goes on behind it. */
  lemma DirectiveRendered(fmt: seq<char>, i: nat, d: Directive, args: seq<Arg>)
    requires Writable(d) && Holds(fmt, i, ['%'] + DirectiveText(d))
    ensures var (s, rest) := Meaning(d, args);
            Render(fmt, i, args) == ConvText(s, rest) + Render(fmt, i + 1 + |DirectiveText(d)|, ConvRest(s, rest))
  {
    hide ParseSpec, ConvText, ConvRest, Writable, Meaning, DirectiveText;
    HoldsParts(fmt, i, ['%'], DirectiveText(d));
    HeadAt(fmt, i, ['%']);
    DirectiveParsed(fmt, i + 1, d, args);
  }

  /** Every integer directive without '#', wherever it is written and with its width and precision
      in the format or among the arguments: its part of the output reads back as its argument, or
      as what a short length field makes of it. */
  lemma IntegerReadsBack(fmt: seq<char>, i: nat, d: Directive, args: seq<Arg>, v: int, n: int)
    requires Writable(d) && Holds(fmt, i, ['%'] + DirectiveText(d)) && Integer(d.conv) && !d.hash
    requires var (s, rest) := Meaning(d, args);
             rest != [] && rest[0] == Int(v) && InRange(s, v) && Converted(s, v, n) && InBuffer(s)
    requires d.conv == 'b' ==> n < 0x1_0000_0000
    ensures var (s, rest) := Meaning(d, args);
            && Render(fmt, i, args) == IntText(s, v) + Render(fmt, i + 1 + |DirectiveText(d)|, rest[1..])
            && ReadsAs(d.conv, IntText(s, v), n)
  {
    hide Render, ReadInt, IntText, Writable, Holds, DirectiveText, ReadsAs, InRange, Converted, InBuffer;
    var (s, rest) := Meaning(d, args);
    DirectiveRendered(fmt, i, d, args);
    DirectiveReadsBack(s, v, n);
  }

  /** A format that is one such directive: what is printed reads back. */
  lemma OneIntegerReadsBack(d: Directive, args: seq<Arg>, v: int, n: int)
    requires Writable(d) && Integer(d.conv) && !d.hash && (d.conv == 'b' ==> n < 0x1_0000_0000)
    requires var (s, rest) := Meaning(d, args);
             rest != [] && rest[0] == Int(v) && InRange(s, v) && Converted(s, v, n) && InBuffer(s)
    ensures ReadsAs(d.conv, Render(['%'] + DirectiveText(d), 0, args), n)
  {
    hide ReadsAs, IntText, Writable, ParseSpec, DirectiveText, Meaning, Converted, InRange, InBuffer;
    var fmt := ['%'] + DirectiveText(d);
    assert fmt[0..0 + |fmt|] == fmt;
    IntegerReadsBack(fmt, 0, d, args, v, n);
    NothingRendered(fmt);
    var (s, rest) := Meaning(d, args);
    assert IntText(s, v) + [] == IntText(s, v);
  }

  lemma NothingRendered(fmt: seq<char>)
    ensures forall rest :: Render(fmt, |fmt|, rest) == []
  {
  }

  const LONG: Directive := Directive(false, false, false, false, false, Absent, Absent, L, 'd')

  /** "%ld": every long above the minimum comes back. */
  lemma LongReadsBack(v: int)
    requires -0x8000_0000_0000_0000 < v < 0x8000_0000_0000_0000
    ensures ReadInt(Render("%ld", 0, [Int(v)]), 10) == (v < 0, if v < 0 then -v else v)
  {
    hide ReadInt, Render;
    assert "%ld" == ['%'] + DirectiveText(LONG);
    OneIntegerReadsBack(LONG, [Int(v)], v, v);
  }

  const PLAIN: Directive := Directive(false, false, false, false, false, Absent, Absent, NoLength, 'd')

  /** "%d": every int above the minimum comes back. */
  lemma IntReadsBack(v: int)
    requires -0x8000_0000 < v < 0x8000_0000
    ensures ReadInt(Render("%d", 0, [Int(v)]), 10) == (v < 0, if v < 0 then -v else v)
  {
    hide ReadInt, Render;
    assert "%d" == ['%'] + DirectiveText(PLAIN);
    OneIntegerReadsBack(PLAIN, [Int(v)], v, v);
  }
}
