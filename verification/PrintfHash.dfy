/** The '#' flag of the integer conversions in solutions/d1_flashelf/libc/stdio2/printf.c: when the
    prefix takes the place of padding, when it takes the place of digits, and what can be read back
    in all. */
module PrintfHash {
  import opened Basics
  import opened PrintfText
  import opened PrintfRoundTrip

  /** How many characters the prefix makes room for. */
  function Dropped(len: nat, base: nat): nat {
    if base == 16 && len > 1 then 2 else 1
  }

  /** How many of len digit characters '#' leaves. */
  function Kept(len: nat, base: nat, prec: nat, width: nat, flags: Flags): (n: nat)
    ensures n <= len
  {
    if !flags.precision && len > 0 && (len == prec || len == width) then len - Dropped(len, base) else len
  }

  /** The prefix behind n digits, as it is read; a full buffer cuts it. */
  function PrefixText(n: nat, base: nat, uppercase: bool): seq<char> {
    var letter := if base == 16 then [if uppercase then 'X' else 'x'] else if base == 2 then ['b'] else [];
    if n + |letter| < NTOA_BUFFER then ['0'] + letter else if n < NTOA_BUFFER then letter else []
  }

  lemma ReversedPrefix(n: nat, base: nat, uppercase: bool)
    ensures Reverse(PrefixText(n, base, uppercase))
            == var letter := if base == 16 then [if uppercase then 'X' else 'x'] else if base == 2 then ['b'] else [];
               if n + |letter| < NTOA_BUFFER then letter + ['0'] else if n < NTOA_BUFFER then letter else []
  {
  }

  lemma PrefixIs(b: seq<char>, base: nat, prec: nat, width: nat, flags: Flags)
    requires |b| <= NTOA_BUFFER && flags.hash
    ensures var n := Kept(|b|, base, prec, width, flags);
            HashPrefix(b, base, prec, width, flags) == b[..n] + Reverse(PrefixText(n, base, flags.uppercase))
  {
    hide Reverse, PrefixText, Kept, Add;
    var n := Kept(|b|, base, prec, width, flags);
    ReversedPrefix(n, base, flags.uppercase);
    HashCuts(b, base, prec, width, flags);
    var letter := if base == 16 then [if flags.uppercase then 'X' else 'x'] else if base == 2 then ['b'] else [];
    AddBoth(b[..n], letter);
  }

  /** The '#' part of the conversion: cut, then a letter and a zero as far as there is room. */
  lemma HashCuts(b: seq<char>, base: nat, prec: nat, width: nat, flags: Flags)
    requires |b| <= NTOA_BUFFER && flags.hash
    ensures var c := b[..Kept(|b|, base, prec, width, flags)];
            HashPrefix(b, base, prec, width, flags)
            == Add(if base == 16 then Add(c, if flags.uppercase then 'X' else 'x')
                   else if base == 2 then Add(c, 'b') else c, '0')
  {
    hide Add;
  }

  lemma AddBoth(c: seq<char>, letter: seq<char>)
    requires |c| <= NTOA_BUFFER && |letter| <= 1
    ensures Add(if letter == [] then c else Add(c, letter[0]), '0')
            == c + if |c| + |letter| < NTOA_BUFFER then letter + ['0'] else if |c| < NTOA_BUFFER then letter else []
  {
  }

  // ---------------------------------------------------------------------------
  // Digits.

  lemma {:induction false} DenoteParts(a: seq<char>, b: seq<char>, base: nat)
    ensures Denote(a + b, base) == Denote(a, base) + Pow(base, |a|) * Denote(b, base)
    decreases |a|
  {
    hide Denote, Pow;
    NothingDenoted(base);
    if a == [] {
      assert a + b == b;
    } else {
      var c, t := a[0], a[1..];
      assert a == [c] + t && a + b == [c] + (t + b);
      DenoteCons(c, t, base);
      DenoteCons(c, t + b, base);
      DenoteParts(t, b, base);
      PowNext(base, |a|);
      Distribute(base, Denote(t, base), Pow(base, |t|) * Denote(b, base));
      Associate(base, Pow(base, |t|), Denote(b, base));
    }
  }

  lemma Associate(a: nat, b: nat, c: nat)
    ensures a * (b * c) == (a * b) * c
  {
  }

  lemma {:induction false} PositiveTop(s: seq<char>, base: nat)
    requires base >= 1 && s != [] && AllDigits(s, base) && s[|s| - 1] != '0'
    ensures Denote(s, base) > 0
  {
    hide Denote, Pow;
    var n := |s| - 1;
    var top := s[n..];
    assert s == s[..n] + top && top == [s[n]] + [];
    assert IsDigit(s[n], base);
    NothingDenoted(base);
    DenoteCons(s[n], [], base);
    DenoteParts(s[..n], top, base);
    Monotone(Denote(top, base), 1, Pow(base, n));
    assert Pow(base, n) * Denote(top, base) == Denote(top, base) * Pow(base, n);
  }

  lemma LeadingLess(s: seq<char>, base: nat, n: nat)
    requires Base(base) && n <= |s|
    ensures Denote(s[..n], base) <= Denote(s, base)
    ensures n < |s| && AllDigits(s, base) && s[|s| - 1] != '0' ==> Denote(s[..n], base) < Denote(s, base)
  {
    hide Denote, Pow, IsDigit;
    assert s == s[..n] + s[n..];
    DenoteParts(s[..n], s[n..], base);
    if n < |s| && AllDigits(s, base) && s[|s| - 1] != '0' {
      PositiveTop(s[n..], base);
      Monotone(Pow(base, n), 1, Denote(s[n..], base));
    }
  }

  /** The first n of a number's digits and the zeros in front of them denote it exactly when no
      digit is cut. */
  lemma CutDigits(d: seq<char>, b: seq<char>, base: nat, n: nat)
    requires Base(base) && AllDigits(d, base) && d != [] && d[|d| - 1] != '0'
    requires d <= b && n <= |b| && Denote(b, base) == Denote(d, base)
    ensures Denote(b[..n], base) <= Denote(d, base)
    ensures Denote(b[..n], base) == Denote(d, base) <==> n >= |d|
  {
    hide Denote, Pow, AllDigits;
    LeadingLess(b, base, n);
    if n < |d| {
      assert b[..n] == d[..n];
      LeadingLess(d, base, n);
    } else {
      assert b[..n][..|d|] == d;
      LeadingLess(b[..n], base, |d|);
    }
  }

  // ---------------------------------------------------------------------------
  // What '#' leaves.

  lemma PaddingBehind(value: nat, negative: bool, base: nat, prec: nat, width: nat, flags: Flags)
    requires Base(base)
    ensures ValueDigits(value, base, flags) <= AllPadded(value, negative, base, prec, width, flags)
  {
    hide ValueDigits;
  }

  /** Digits kept of a conversion with '#'. */
  function DigitsKept(value: nat, negative: bool, base: nat, prec: nat, width: nat, flags: Flags): nat
    requires Base(base)
  {
    Kept(PaddedCount(value, negative, base, prec, width, flags), base, prec, PadWidth(negative, width, flags), flags)
  }

  lemma BodyIs(value: nat, negative: bool, base: nat, prec: nat, width: nat, flags: Flags)
    requires Base(base) && value > 0 && flags.hash
    ensures var b, n := AllPadded(value, negative, base, prec, width, flags),
                        DigitsKept(value, negative, base, prec, width, flags);
            && n <= |b|
            && Body(value, negative, base, prec, width, flags) == b[..n] + Reverse(PrefixText(n, base, flags.uppercase))
  {
    hide AllPadded, PaddedCount, HashPrefix, PadWidth;
    PaddedIs(value, negative, base, prec, width, flags);
    PrefixIs(AllPadded(value, negative, base, prec, width, flags), base, prec, PadWidth(negative, width, flags), flags);
    assert flags.(hash := true) == flags;
  }

  /** There is a precision, or digits and zeros do not just fill the field, or the zeros are at
      least as many as the characters the prefix replaces. */
  predicate Harmless(value: nat, negative: bool, base: nat, prec: nat, width: nat, flags: Flags)
    requires Base(base)
  {
    var len := PaddedCount(value, negative, base, prec, width, flags);
    || flags.precision || (len != prec && len != PadWidth(negative, width, flags))
    || len - |ValueDigits(value, base, flags)| >= Dropped(len, base)
  }

  lemma HarmlessIs(value: nat, negative: bool, base: nat, prec: nat, width: nat, flags: Flags)
    requires Base(base) && value > 0
    ensures Harmless(value, negative, base, prec, width, flags)
            <==> DigitsKept(value, negative, base, prec, width, flags) >= |ValueDigits(value, base, flags)|
  {
    hide PadWidth, LowDigits;
    CutAtMost(PaddedCount(value, negative, base, prec, width, flags), |ValueDigits(value, base, flags)|, base, prec,
              PadWidth(negative, width, flags), flags);
  }

  /** The text of a conversion with '#': padding, sign, prefix, the digits kept, padding. */
  lemma HashAnatomy(value: nat, negative: bool, base: nat, prec: nat, width: nat, flags: Flags)
    requires Base(base) && value > 0 && flags.hash
    ensures var n := DigitsKept(value, negative, base, prec, width, flags);
            var b := AllPadded(value, negative, base, prec, width, flags);
            var pre := PrefixText(n, base, flags.uppercase);
            var sign := if n + |pre| < NTOA_BUFFER then SignOf(negative, flags) else [];
            var room := Cols(PadWidth(negative, width, flags) - n - |pre| - |sign|);
            && n <= |b|
            && Ntoa(value, negative, base, prec, width, flags)
               == Fill(' ', if flags.left || flags.zeropad then 0 else room)
                  + (sign + (pre + (Reverse(b[..n]) + Fill(' ', if flags.left then room else 0))))
  {
    hide Ntoa, AllPadded, Body, PadWidth, Reverse, PrefixText, DigitsKept, Laid, Fill;
    Anatomy(value, negative, base, prec, width, flags);
    BodyIs(value, negative, base, prec, width, flags);
    var n := DigitsKept(value, negative, base, prec, width, flags);
    var b := AllPadded(value, negative, base, prec, width, flags);
    var pre := PrefixText(n, base, flags.uppercase);
    var sign := if n + |pre| < NTOA_BUFFER then SignOf(negative, flags) else [];
    var room := Cols(PadWidth(negative, width, flags) - n - |pre| - |sign|);
    LaidPrefix(if flags.left || flags.zeropad then 0 else room, sign, pre, b[..n], if flags.left then room else 0);
  }

  /** '#' keeps the digits of a positive value exactly when it is harmless. */
  lemma HashKeepsDigits(value: nat, negative: bool, base: nat, prec: nat, width: nat, flags: Flags)
    requires base == 2 || base == 8 || base == 16
    requires 0 < value < Pow(base, NTOA_BUFFER) && flags.hash
    ensures var d := ValueDigits(value, base, flags);
            d <= Body(value, negative, base, prec, width, flags)
            <==> Harmless(value, negative, base, prec, width, flags)
  {
    hide Harmless, LowDigits, Pow, AllPadded, Body, Kept, AllDigits, IsDigit, PrefixText;
    TopDigit(value, base, flags.uppercase, NTOA_BUFFER);
    LowDigitsAreDigits(value, base, flags.uppercase, NTOA_BUFFER);
    BodyIs(value, negative, base, prec, width, flags);
    PaddingBehind(value, negative, base, prec, width, flags);
    PaddedIs(value, negative, base, prec, width, flags);
    var d, b := ValueDigits(value, base, flags), AllPadded(value, negative, base, prec, width, flags);
    CutAtMost(|b|, |d|, base, prec, PadWidth(negative, width, flags), flags);
    HarmlessIs(value, negative, base, prec, width, flags);
    KeptPrefix(d, b, DigitsKept(value, negative, base, prec, width, flags), base, flags.uppercase);
  }

  lemma CutAtMost(len: nat, own: nat, base: nat, prec: nat, width: nat, flags: Flags)
    requires own <= len
    ensures var n := Kept(len, base, prec, width, flags); n < own ==> n + 1 == own || base == 16
    ensures Kept(len, base, prec, width, flags) >= own
            <==> flags.precision || (len != prec && len != width) || len == 0 || len - own >= Dropped(len, base)
  {
  }

  lemma KeptPrefix(d: seq<char>, b: seq<char>, n: nat, base: nat, uppercase: bool)
    requires base == 2 || base == 8 || base == 16
    requires d <= b && n <= |b| <= NTOA_BUFFER && AllDigits(d, base) && d != [] && d[|d| - 1] != '0'
    requires n < |d| ==> n + 1 == |d| || base == 16
    ensures d <= b[..n] + Reverse(PrefixText(n, base, uppercase)) <==> n >= |d|
  {
  }

  // ---------------------------------------------------------------------------
  // Reading back.

  /** How long prefix, digits and zeros are together. */
  function BodyLength(value: nat, negative: bool, base: nat, prec: nat, width: nat, flags: Flags): nat
    requires Base(base)
  {
    if flags.hash && value != 0 then
      var n := DigitsKept(value, negative, base, prec, width, flags);
      n + |PrefixText(n, base, flags.uppercase)|
    else PaddedCount(value, negative, base, prec, width, flags)
  }

  /** The buffer has no room for a prefix or room for the whole of it. */
  predicate PrefixWhole(n: nat, base: nat) {
    (base == 2 || base == 16) ==> n != NTOA_BUFFER - 1
  }

  /** Prefix and digits as a reader takes them: a lone zero is a digit. */
  lemma ReadParts(low: seq<char>, base: nat, uppercase: bool) returns (pre: seq<char>, digits: seq<char>)
    requires Base(base) && AllDigits(low, base) && |low| <= NTOA_BUFFER
    ensures low + Reverse(PrefixText(|low|, base, uppercase)) == digits + Reverse(pre)
    ensures AllDigits(digits, base) && IsPrefix(pre, base) && Denote(digits, base) == Denote(low, base)
    ensures |pre| == 1 <==> !PrefixWhole(|low|, base)
  {
    pre, digits := PrefixText(|low|, base, uppercase), low;
    if base != 2 && base != 16 && |low| < NTOA_BUFFER {
      ZerosDenote(low, base, 1);
      assert Fill('0', 1) == ['0'] == Reverse(['0']) && Reverse([]) == [];
      pre, digits := [], low + ['0'];
    }
  }

  /** What a reader gets back from a conversion with '#'. */
  lemma ReadHash(value: nat, negative: bool, base: nat, prec: nat, width: nat, flags: Flags)
    requires Base(base) && value > 0 && flags.hash
    ensures var low := AllPadded(value, negative, base, prec, width, flags);
            var n := DigitsKept(value, negative, base, prec, width, flags);
            && n <= |low|
            && ReadInt(Ntoa(value, negative, base, prec, width, flags), base)
               == (negative && BodyLength(value, negative, base, prec, width, flags) < NTOA_BUFFER,
                   if PrefixWhole(n, base) then Denote(low[..n], base) else 0)
  {
    hide Ntoa, AllPadded, ReadInt, Denote, AllDigits, Body, DigitsKept, PrefixText, PrefixWhole;
    BodyIs(value, negative, base, prec, width, flags);
    PaddedAreDigits(value, negative, base, prec, width, flags);
    var low := AllPadded(value, negative, base, prec, width, flags);
    var n := DigitsKept(value, negative, base, prec, width, flags);
    LeadingDigits(low, base, n);
    var pre, digits := ReadParts(low[..n], base, flags.uppercase);
    ReadText(value, negative, base, prec, width, flags, pre, digits);
  }

  lemma LeadingDigits(s: seq<char>, base: nat, n: nat)
    requires AllDigits(s, base) && n <= |s|
    ensures AllDigits(s[..n], base)
  {
  }

  /** Sign and value can be read back, prefix or not, exactly when the value fits in 32 digits of
      its base, '#' is harmless and its prefix is not cut, and a negative number has room for its
      sign in the conversion buffer. */
  lemma RoundTrip(value: nat, negative: bool, base: nat, prec: nat, width: nat, flags: Flags)
    requires Base(base)
    ensures ReadInt(Ntoa(value, negative, base, prec, width, flags), base) == (negative, value)
            <==> value < Pow(base, NTOA_BUFFER)
                 && (negative ==> BodyLength(value, negative, base, prec, width, flags) < NTOA_BUFFER)
                 && (flags.hash && value != 0 ==>
                       Harmless(value, negative, base, prec, width, flags)
                       && PrefixWhole(DigitsKept(value, negative, base, prec, width, flags), base))
  {
    if flags.hash && value != 0 {
      HashRoundTrip(value, negative, base, prec, width, flags);
    } else {
      PlainRoundTrip(value, negative, base, prec, width, flags);
    }
  }

  lemma HashRoundTrip(value: nat, negative: bool, base: nat, prec: nat, width: nat, flags: Flags)
    requires Base(base) && value > 0 && flags.hash
    ensures ReadInt(Ntoa(value, negative, base, prec, width, flags), base) == (negative, value)
            <==> value < Pow(base, NTOA_BUFFER)
                 && (negative ==> BodyLength(value, negative, base, prec, width, flags) < NTOA_BUFFER)
                 && Harmless(value, negative, base, prec, width, flags)
                 && PrefixWhole(DigitsKept(value, negative, base, prec, width, flags), base)
  {
    hide Ntoa, ReadInt, Denote, Pow, LowDigits, AllPadded, PaddedCount, Harmless, DigitsKept, PrefixWhole, BodyLength;
    var d, b := ValueDigits(value, base, flags), AllPadded(value, negative, base, prec, width, flags);
    var n := DigitsKept(value, negative, base, prec, width, flags);
    ReadHash(value, negative, base, prec, width, flags);
    ValueDenoted(value, base, flags);
    PaddedAreDigits(value, negative, base, prec, width, flags);
    HarmlessIs(value, negative, base, prec, width, flags);
    LeadingLess(b, base, n);
    DigitsBounded(value, base, flags);
    if value < Pow(base, NTOA_BUFFER) {
      TopDigit(value, base, flags.uppercase, NTOA_BUFFER);
      LowDigitsAreDigits(value, base, flags.uppercase, NTOA_BUFFER);
      PaddingBehind(value, negative, base, prec, width, flags);
      CutDigits(d, b, base, n);
    }
  }

  lemma DigitsBounded(value: nat, base: nat, flags: Flags)
    requires Base(base) && value > 0
    ensures Denote(ValueDigits(value, base, flags), base) < Pow(base, NTOA_BUFFER)
  {
    var k := LowDigitsDenote(value, base, flags.uppercase, NTOA_BUFFER);
  }

  // ---------------------------------------------------------------------------
  // Inputs at which the code departs from what the directive asks for.

  /** A four-digit number in a field of four columns loses two digits to the prefix. */
  lemma HashLosesDigits()
    ensures Ntoa(0x1234, false, 16, 0, 4, NO_FLAGS.(hash := true)) == "0x34"
  {
    hide LowDigits;
    Digits1234();
    var flags := NO_FLAGS.(hash := true);
    assert HashPrefix("4321", 16, 0, 4, flags) == "43x0";
    assert Reverse("43x0") == "0x34";
    NtoaIs(0x1234, false, 16, 0, 4, flags);
  }

  lemma Digits1234()
    ensures LowDigits(0x1234, 16, false, NTOA_BUFFER) == "4321"
  {
    assert LowDigits(0x12, 16, false, 30) == "21";
  }

  /** With '-' a precision of five leaves a one-digit number as it is. */
  lemma PrecisionIgnored()
    ensures Ntoa(7, false, 10, 5, 0, NO_FLAGS.(left := true, precision := true)) == "7"
  {
    assert LowDigits(7, 10, false, 32) == "7";
    assert Reverse("7") == "7";
  }

  /** Zero padding to forty columns stops at thirty-two. */
  lemma WidthCut()
    ensures |Ntoa(7, false, 10, 0, 40, NO_FLAGS.(zeropad := true))| == NTOA_BUFFER
  {
    var flags := NO_FLAGS.(zeropad := true);
    assert LowDigits(7, 10, false, 32) == "7";
    NoPrefix(7, false, 10, 0, 40, flags);
    Anatomy(7, false, 10, 0, 40, flags);
    PaddedIs(7, false, 10, 0, 40, flags);
  }

  /** A precision of thirty-two leaves no room for the minus sign. */
  lemma SignLost()
    ensures ReadInt(Ntoa(7, true, 10, 32, 0, NO_FLAGS.(precision := true)), 10) == (false, 7)
  {
    var flags := NO_FLAGS.(precision := true);
    assert LowDigits(7, 10, false, 32) == "7";
    PaddedIs(7, true, 10, 32, 0, flags);
    ReadBack(7, true, 10, 32, 0, flags);
    ValueDenoted(7, 10, flags);
    SmallPow();
  }

  lemma SmallPow()
    ensures Pow(10, NTOA_BUFFER) >= 10
  {
    PowGrows(10, 1, NTOA_BUFFER);
  }

  /** The lowest number with thirty-three binary digits is printed as zero. */
  lemma BinaryLost()
    ensures ReadInt(Ntoa(0x1_0000_0000, false, 2, 0, 0, NO_FLAGS), 2) == (false, 0)
  {
    hide Ntoa, ReadInt, LowDigits, AllPadded, Pow, Denote;
    ReadBack(0x1_0000_0000, false, 2, 0, 0, NO_FLAGS);
    var k := LowDigitsDenote(0x1_0000_0000, 2, false, NTOA_BUFFER);
    Pow32();
    Remainder(0x1_0000_0000, Denote(LowDigits(0x1_0000_0000, 2, false, NTOA_BUFFER), 2), k);
  }

  lemma Remainder(p: nat, d: nat, k: nat)
    requires p == d + k * p && d < p
    ensures d == 0
  {
    if k == 0 {
      assert false;
    } else {
      Monotone(p, 1, k);
    }
  }

  lemma Pow32()
    ensures Pow(2, NTOA_BUFFER) == 0x1_0000_0000
  {
    assert Pow(2, 8) == 0x100;
    assert Pow(2, 16) == 0x100 * Pow(2, 8);
    assert Pow(2, 24) == 0x100 * Pow(2, 16);
    assert Pow(2, 32) == 0x100 * Pow(2, 24);
  }
}
