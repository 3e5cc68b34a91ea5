/** The second integer printer, printi with prints
    (solutions/d1_flashelf/libc/stdio/printf.c), and when it agrees with the first. */
module Printi {
  import opened PrintfText
  import opened PrintfRoundTrip
  import opened PrintfStandard

  const PRINT_BUF_LEN: nat := 32
  const LONG_MODULUS: int := 0x1_0000_0000_0000_0000
  const LONG_MAX: int := 0x7FFF_FFFF_FFFF_FFFF

  predicate IsLong(i: int) { -LONG_MAX - 1 <= i <= LONG_MAX }

  /** What prints emits; right and zero are the bits PAD_RIGHT and PAD_ZERO. */
  function PrintsText(s: seq<char>, width: int, right: bool, zero: bool): seq<char> {
    var pad := Fill(if width > 0 && zero then '0' else ' ', if width > |s| then width - |s| else 0);
    if right then s + pad else pad + s
  }

  /** The magnitude printi converts. */
  function Converts(i: int, base: nat, signed: bool): nat
    requires IsLong(i)
  {
    if i >= 0 then i else if signed && base == 10 then -i else i + LONG_MODULUS
  }

  function PrintiText(i: int, base: nat, signed: bool, width: nat, right: bool, zero: bool, uppercase: bool): seq<char>
    requires IsLong(i) && Base(base)
  {
    if i == 0 then PrintsText(['0'], width, right, zero) else
      var digits := Reverse(LowDigits(Converts(i, base, signed), base, uppercase, NTOA_BUFFER));
      if signed && base == 10 && i < 0 then
        if width > 0 && zero then ['-'] + PrintsText(digits, width - 1, right, zero)
        else PrintsText(['-'] + digits, width, right, zero)
      else PrintsText(digits, width, right, zero)
  }

  // ---------------------------------------------------------------------------
  // The code.

  /** Where printchar sends its characters. */
  class Stream {
    var text: seq<char>

    method PrintChar(c: char)
      modifies this
      ensures text == old(text) + [c]
    {
      text := text + [c];
    }
  }

  /** A padding loop of prints, counting the width down. */
  method PadOut(out: Stream, c: char, width: int) returns (pc: nat)
    modifies out
    ensures out.text == old(out.text) + Fill(c, width) && pc == |Fill(c, width)|
  {
    pc := 0;
    var w := width;
    ghost var t := out.text;
    while w > 0
      invariant w <= width && (w >= 0 || w == width)
      invariant pc == width - w && out.text == t + Fill(c, pc)
    {
      out.PrintChar(c);
      assert Fill(c, pc) + [c] == Fill(c, pc + 1);
      pc := pc + 1;
      w := w - 1;
    }
  }

  /** prints */
  method Prints(out: Stream, s: seq<char>, width: int, right: bool, zero: bool) returns (pc: nat)
    modifies out
    ensures out.text == old(out.text) + PrintsText(s, width, right, zero)
    ensures pc == |PrintsText(s, width, right, zero)|
  {
    hide PrintsText;
    PrintsPieces(out.text, s, width, right, zero);
    pc := 0;
    var padchar, w := ' ', width;
    if w > 0 {
      w := if |s| >= w then 0 else w - |s|;
      if zero {
        padchar := '0';
      }
    }
    if !right {
      pc := PadOut(out, padchar, w);
      w := if w > 0 then 0 else w;
    }
    ghost var t1, p1 := out.text, pc;
    var k := 0;
    while k < |s|
      invariant k <= |s| && pc == p1 + k
      invariant out.text == t1 + s[..k]
    {
      out.PrintChar(s[k]);
      pc := pc + 1;
      k := k + 1;
    }
    assert s[..|s|] == s;
    var more := PadOut(out, padchar, w);
    pc := pc + more;
  }

  lemma PrintsPieces(t: seq<char>, s: seq<char>, width: int, right: bool, zero: bool)
    ensures var pad := Fill(if width > 0 && zero then '0' else ' ', if width > |s| then width - |s| else 0);
            && t + PrintsText(s, width, right, zero) == (if right then t + s + pad else t + pad + s)
            && |PrintsText(s, width, right, zero)| == |s| + |pad|
  {
  }

  /** *--s = c */
  method PutFront(buf: array<char>, s: nat, c: char) returns (s': nat)
    requires buf.Length == PRINT_BUF_LEN && 1 <= s <= PRINT_BUF_LEN - 1
    modifies buf
    ensures s' == s - 1 && buf[s'..PRINT_BUF_LEN - 1] == [c] + old(buf[s..PRINT_BUF_LEN - 1])
  {
    s' := s - 1;
    buf[s'] := c;
  }

  /** The digit loop of printi: it fills print_buf backwards from its last byte, which holds the
      terminator, and never reaches the front. */
  method DigitsBackward(buf: array<char>, u0: nat, base: nat, uppercase: bool) returns (s: nat)
    requires buf.Length == PRINT_BUF_LEN && (base == 10 || base == 16) && 0 < u0 < LONG_MODULUS
    modifies buf
    ensures 1 < s < PRINT_BUF_LEN
    ensures buf[s..PRINT_BUF_LEN - 1] == Reverse(LowDigits(u0, base, uppercase, NTOA_BUFFER))
  {
    hide LowDigits, MoreDigits, LastDigit, Shifted, Reverse;
    ghost var all := LowDigits(u0, base, uppercase, NTOA_BUFFER);
    AtMost22(u0, base, uppercase);
    s := PRINT_BUF_LEN - 1;
    buf[s] := '\0';
    var u: nat := u0;
    BackStart(u0, base, uppercase);
    assert buf[s..s] == [];
    while u != 0
      invariant 1 <= s <= PRINT_BUF_LEN - 1
      invariant all == Reverse(buf[s..PRINT_BUF_LEN - 1]) + MoreDigits(u, base, uppercase, s + 1)
      decreases s
    {
      ghost var done := buf[s..PRINT_BUF_LEN - 1];
      BackStep(all, done, u, base, uppercase, s + 1);
      var c := LastDigit(u, base, uppercase);
      s := PutFront(buf, s, c);
      u := Shifted(u, base);
    }
    BackEnd(all, buf[s..PRINT_BUF_LEN - 1], base, uppercase, s + 1);
  }

  lemma BackStart(u0: nat, base: nat, uppercase: bool)
    requires Base(base) && u0 > 0
    ensures LowDigits(u0, base, uppercase, NTOA_BUFFER) == Reverse([]) + MoreDigits(u0, base, uppercase, NTOA_BUFFER)
  {
    hide LowDigits;
  }

  lemma BackEnd(all: seq<char>, done: seq<char>, base: nat, uppercase: bool, room: nat)
    requires Base(base) && all == Reverse(done) + MoreDigits(0, base, uppercase, room)
    ensures done == Reverse(all)
  {
    ReverseTwice(done);
  }

  lemma ReverseTwice(s: seq<char>)
    ensures Reverse(Reverse(s)) == s && Reverse(s) + [] == Reverse(s)
  {
  }

  lemma BackStep(all: seq<char>, done: seq<char>, u: nat, base: nat, uppercase: bool, room: nat)
    requires Base(base) && u != 0 && room >= 1 && all == Reverse(done) + MoreDigits(u, base, uppercase, room)
    ensures all == Reverse([LastDigit(u, base, uppercase)] + done)
                   + MoreDigits(Shifted(u, base), base, uppercase, room - 1)
    ensures |done| + 1 <= |all|
  {
    hide LowDigits, MoreDigits, DigitChar;
    MoreIs(u, base, uppercase, room);
    DigitStep(u, base, uppercase, room);
    assert Reverse([DigitChar(u % base, uppercase)] + done) == Reverse(done) + [DigitChar(u % base, uppercase)];
  }

  lemma AtMost22(u: nat, base: nat, uppercase: bool)
    requires 8 <= base <= 16 && u < LONG_MODULUS
    ensures |LowDigits(u, base, uppercase, NTOA_BUFFER)| <= 22
  {
    Pow8();
    PowMonotone(8, base, 22);
    DigitCount(u, base, uppercase, NTOA_BUFFER, 22);
  }

  /** printi */
  method PrintInt(out: Stream, i: int, base: nat, signed: bool, width: nat, right: bool, zero: bool, uppercase: bool)
    returns (pc: nat)
    requires IsLong(i) && (base == 10 || base == 16) && (i < -LONG_MAX ==> !signed || base == 16)
    modifies out
    ensures out.text == old(out.text) + PrintiText(i, base, signed, width, right, zero, uppercase)
    ensures pc == |PrintiText(i, base, signed, width, right, zero, uppercase)|
  {
    hide PrintsText, LowDigits;
    if i == 0 {
      pc := Prints(out, ['0'], width, right, zero);
      return;
    }
    ghost var t := out.text;
    var neg := signed && base == 10 && i < 0;
    var u := if neg then -i else if i < 0 then i + LONG_MODULUS else i;
    var buf := new char[PRINT_BUF_LEN];
    var s := DigitsBackward(buf, u, base, uppercase);
    ghost var digits := buf[s..PRINT_BUF_LEN - 1];
    var w := width;
    pc := 0;
    if neg {
      if w > 0 && zero {
        out.PrintChar('-');
        pc := 1;
        w := w - 1;
      } else {
        s := s - 1;
        buf[s] := '-';
        assert buf[s..PRINT_BUF_LEN - 1] == ['-'] + digits;
      }
    }
    ghost var t1 := out.text;
    var rest := Prints(out, buf[s..PRINT_BUF_LEN - 1], w, right, zero);
    pc := pc + rest;
  }

  // ---------------------------------------------------------------------------
  // What is printed.

  /** The same request in the terms of the first printer. */
  function SameFlags(right: bool, zero: bool): Flags {
    NO_FLAGS.(left := right, zeropad := zero)
  }

  /** printi's text: padding, sign, digits, padding. */
  function PrintiLaid(sign: seq<char>, d: seq<char>, width: nat, right: bool, zero: bool): seq<char> {
    var room := Cols(width - |sign| - |d|);
    if right then sign + d + Fill(if zero then '0' else ' ', room)
    else if zero then sign + Fill('0', room) + d
    else Fill(' ', room) + sign + d
  }

  lemma PrintsAfterMinus(d: seq<char>, width: nat, right: bool)
    requires width > 0
    ensures ['-'] + PrintsText(d, width - 1, right, true) == PrintiLaid(['-'], d, width, right, true)
  {
  }

  lemma PrintsSigned(sign: seq<char>, d: seq<char>, width: nat, right: bool, zero: bool)
    requires sign == [] || !zero || width == 0
    ensures PrintsText(sign + d, width, right, zero) == PrintiLaid(sign, d, width, right, zero)
  {
  }

  /** The digits printi converts are those of the number. */
  lemma PrintiDigits(n: nat, base: nat, uppercase: bool)
    requires base == 10 || base == 16
    requires n < LONG_MODULUS
    ensures Reverse(LowDigits(n, base, uppercase, NTOA_BUFFER)) == Digits(n, base, uppercase)
    ensures |Digits(n, base, uppercase)| <= 22
  {
    hide LowDigits, Digits, Pow;
    FewDigits(n, base, uppercase);
    DigitsAre(n, base, uppercase, NTOA_BUFFER);
    ReverseBack(Digits(n, base, uppercase));
  }

  lemma PrintiLayout(i: int, base: nat, signed: bool, width: nat, right: bool, zero: bool, uppercase: bool)
    requires IsLong(i) && (base == 10 || base == 16) && (i < -LONG_MAX ==> !signed || base == 16)
    ensures var n := if i >= 0 || (signed && base == 10) then i else i + LONG_MODULUS;
            PrintiText(i, base, signed, width, right, zero, uppercase)
            == PrintiLaid(if n < 0 then ['-'] else [], Digits(if n < 0 then -n else n, base, uppercase), width, right, zero)
  {
    hide PrintsText, PrintiLaid, LowDigits, Reverse;
    var n := if i >= 0 || (signed && base == 10) then i else i + LONG_MODULUS;
    var d := Digits(if n < 0 then -n else n, base, uppercase);
    PrintiDigits(if n < 0 then -n else n, base, uppercase);
    if n < 0 && width > 0 && zero {
      PrintsAfterMinus(d, width, right);
    } else {
      PrintsSigned(if n < 0 then ['-'] else [], d, width, right, zero);
      assert [] + d == d;
    }
  }

  lemma StandardIs(n: int, base: nat, uppercase: bool, width: nat, right: bool, zero: bool)
    requires 2 <= base <= 16
    ensures var sign := if n < 0 then ['-'] else [];
            var d := Digits(if n < 0 then -n else n, base, uppercase);
            Standard(n, base, uppercase, SameFlags(right, zero), width, 0) == PrintiLaid(sign, d, width, right, zero && !right)
  {
    hide Digits, Arrange, PrintiLaid;
    var sign: seq<char> := if n < 0 then ['-'] else [];
    var d := Digits(if n < 0 then -n else n, base, uppercase);
    assert [] + d == d;
    ArrangeIs(sign, d, width, right, zero);
  }

  lemma ArrangeIs(sign: seq<char>, d: seq<char>, width: nat, right: bool, zero: bool)
    ensures Arrange(sign, d, width, right, zero) == PrintiLaid(sign, d, width, right, zero && !right)
  {
    hide Fill;
    FillNone(' ', width - |sign| - |d|);
    FillNone('0', width - |sign| - |d|);
  }

  lemma PaddedRight(sign: seq<char>, d: seq<char>, width: nat)
    ensures PrintiLaid(sign, d, width, true, true) == PrintiLaid(sign, d, width, true, false) <==> width <= |sign| + |d|
  {
    var a, b := PrintiLaid(sign, d, width, true, true), PrintiLaid(sign, d, width, true, false);
    if width > |sign| + |d| {
      assert a[|sign| + |d|] == '0' && b[|sign| + |d|] == ' ';
    }
  }

  /** What is asked for in base 10, signed or not, and in base 16, in either case of letters, is
      printed exactly unless '-' and '0' are combined and there is room to pad: the zeros then stand
      on the right. A negative number that is not printed as one stands for itself plus 2^64. */
  lemma PrintiExactly(i: int, base: nat, signed: bool, width: nat, right: bool, zero: bool, uppercase: bool)
    requires IsLong(i) && (base == 10 || base == 16) && (i < -LONG_MAX ==> !signed || base == 16)
    ensures var n := if i >= 0 || (signed && base == 10) then i else i + LONG_MODULUS;
            var digits := |Digits(if n < 0 then -n else n, base, uppercase)|;
            PrintiText(i, base, signed, width, right, zero, uppercase)
            == Standard(n, base, uppercase, SameFlags(right, zero), width, 0)
            <==> (right && zero ==> width <= digits + if n < 0 then 1 else 0)
  {
    hide PrintiText, Standard, Digits, PrintiLaid;
    var n := if i >= 0 || (signed && base == 10) then i else i + LONG_MODULUS;
    PrintiLayout(i, base, signed, width, right, zero, uppercase);
    StandardIs(n, base, uppercase, width, right, zero);
    PaddedRight(if n < 0 then ['-'] else [], Digits(if n < 0 then -n else n, base, uppercase), width);
  }

  /** Two independent printers, one text, in base 10, signed or not, and in base 16: they agree
      exactly when zero padding stays within the first one's buffer and '-' is not combined with a
      '0' that would have to pad. */
  lemma PrintersAgree(i: int, base: nat, signed: bool, width: nat, right: bool, zero: bool, uppercase: bool)
    requires IsLong(i) && (base == 10 || base == 16) && (i < -LONG_MAX ==> !signed || base == 16)
    ensures var n := if i >= 0 || (signed && base == 10) then i else i + LONG_MODULUS;
            var value := if n < 0 then -n else n;
            var digits := |Digits(value, base, uppercase)|;
            PrintiText(i, base, signed, width, right, zero, uppercase)
            == Ntoa(value, n < 0, base, 0, width, SameFlags(right, zero).(uppercase := uppercase))
            <==> (zero && !right ==> width <= 32) && (right && zero ==> width <= digits + if n < 0 then 1 else 0)
  {
    hide PrintiText, Standard, Digits, Ntoa, Pow;
    var n := if i >= 0 || (signed && base == 10) then i else i + LONG_MODULUS;
    PrintiExactly(i, base, signed, width, right, zero, uppercase);
    PrintiDigits(if n < 0 then -n else n, base, uppercase);
    FewDigits(if n < 0 then -n else n, base, uppercase);
    SameExactly(n, base, uppercase, SameFlags(right, zero), width, 0);
  }

  /** Padding on the right with zeros is where they differ: the first printer takes spaces. */
  lemma PrintersDiffer()
    ensures PrintiText(7, 10, true, 3, true, true, false) == "700"
    ensures Ntoa(7, false, 10, 0, 3, SameFlags(true, true)) == "7  "
  {
    hide Ntoa, Pow, Standard, PrintiText;
    assert Digits(7, 10, false) == "7";
    assert Fill('0', 2) == "00" && Fill(' ', 2) == "  ";
    PrintiLayout(7, 10, true, 3, true, true, false);
    StandardIs(7, 10, false, 3, true, true);
    FewDigits(7, 10, false);
    SameExactly(7, 10, false, SameFlags(true, true), 3, 0);
  }
}
