/** What the printed integers mean: reading them back, precision, width. */
module PrintfRoundTrip {
  import opened Basics
  import opened PrintfText

  function Pow(b: nat, n: nat): (p: nat)
    ensures b >= 1 ==> p >= 1
  {
    if n == 0 then 1 else b * Pow(b, n - 1)
  }

  // ---------------------------------------------------------------------------
  // Reading digits.

  function DigitValue(c: char): (d: nat)
    ensures d <= 16
  {
    if '0' <= c <= '9' then c as int - '0' as int
    else if 'a' <= c <= 'f' then c as int - 'a' as int + 10
    else if 'A' <= c <= 'F' then c as int - 'A' as int + 10
    else 16
  }

  predicate IsDigit(c: char, base: nat) { DigitValue(c) < base }

  lemma DigitCharValue(d: nat, uppercase: bool)
    requires d < 16
    ensures DigitValue(DigitChar(d, uppercase)) == d
  {
  }

  /** The number written by digits that stand least significant first. */
  function Denote(s: seq<char>, base: nat): nat {
    if s == [] then 0 else DigitValue(s[0]) + base * Denote(s[1..], base)
  }

  ghost predicate AllDigits(s: seq<char>, base: nat) {
    forall i :: 0 <= i < |s| ==> IsDigit(s[i], base)
  }

  lemma {:induction false} LowDigitsAreDigits(value: nat, base: nat, uppercase: bool, room: nat)
    requires Base(base) && room >= 1
    ensures AllDigits(LowDigits(value, base, uppercase, room), base)
    decreases room
  {
    hide LowDigits, DigitChar, DigitValue;
    var q, r := value / base, value % base;
    DigitCharValue(r, uppercase);
    DigitStep(value, base, uppercase, room);
    MoreIs(q, base, uppercase, room - 1);
    if q != 0 && room > 1 {
      LowDigitsAreDigits(q, base, uppercase, room - 1);
    }
  }

  // Products, one law at a time.

  lemma Distribute(a: nat, b: nat, c: nat)
    ensures a * (b + c) == a * b + a * c
  {
  }

  lemma Regroup(a: nat, b: nat, c: nat)
    ensures a * (b * c) == b * (a * c)
  {
  }

  lemma Monotone(a: nat, b: nat, c: nat)
    requires b <= c
    ensures a * b <= a * c
  {
  }

  lemma PowNext(b: nat, n: nat)
    requires n >= 1
    ensures Pow(b, n) == b * Pow(b, n - 1)
  {
  }

  lemma DenoteCons(c: char, rest: seq<char>, base: nat)
    ensures Denote([c] + rest, base) == DigitValue(c) + base * Denote(rest, base)
  {
    assert ([c] + rest)[1..] == rest;
  }

  lemma Scale(base: nat, q: nat, d: nat, k: nat, p: nat, r: nat)
    requires q == d + k * p && r < base && d < p
    ensures base * q + r == (r + base * d) + k * (base * p)
    ensures r + base * d < base * p
  {
    Distribute(base, d, k * p);
    Regroup(base, k, p);
    Distribute(base, d, 1);
    Monotone(base, d + 1, p);
  }

  lemma QuotientRemainder(value: nat, base: nat)
    requires base >= 1
    ensures value == base * (value / base) + value % base && value % base < base
  {
  }

  /** The digits kept are the value modulo base^room; k is what is cut off. */
  lemma {:induction false} LowDigitsDenote(value: nat, base: nat, uppercase: bool, room: nat) returns (k: nat)
    requires Base(base) && room >= 1
    ensures value == Denote(LowDigits(value, base, uppercase, room), base) + k * Pow(base, room)
    ensures Denote(LowDigits(value, base, uppercase, room), base) < Pow(base, room)
    decreases room
  {
    hide LowDigits, MoreDigits, Denote, Pow, DigitChar, DigitValue;
    QuotientRemainder(value, base);
    var q, r := value / base, value % base;
    DigitCharValue(r, uppercase);
    var rest := MoreDigits(q, base, uppercase, room - 1);
    DigitStep(value, base, uppercase, room);
    MoreIs(q, base, uppercase, room - 1);
    DenoteCons(DigitChar(r, uppercase), rest, base);
    PowNext(base, room);
    var p, d := Pow(base, room - 1), Denote(rest, base);
    if room == 1 {
      k := q;
      NothingDenoted(base);
    } else if q == 0 {
      k := 0;
      NothingDenoted(base);
    } else {
      k := LowDigitsDenote(q, base, uppercase, room - 1);
    }
    Scale(base, q, d, k, p, r);
  }

  lemma NothingDenoted(base: nat)
    ensures Denote([], base) == 0 && Pow(base, 0) == 1
  {
  }

  /** The digits say the value exactly when it is below base^room. */
  lemma DigitsExact(value: nat, base: nat, uppercase: bool, room: nat)
    requires Base(base) && room >= 1
    ensures Denote(LowDigits(value, base, uppercase, room), base) == value <==> value < Pow(base, room)
  {
    hide LowDigits, Denote, Pow;
    var k := LowDigitsDenote(value, base, uppercase, room);
    var p := Pow(base, room);
    if k == 0 {
    } else {
      Monotone(p, 1, k);
      assert p * k == k * p;
    }
  }

  lemma DigitNotZero(d: nat, uppercase: bool)
    requires d < 16
    ensures DigitChar(d, uppercase) == '0' <==> d == 0
  {
  }

  /** The most significant digit of a positive value is not zero. */
  lemma {:induction false} TopDigit(value: nat, base: nat, uppercase: bool, room: nat)
    requires Base(base) && room >= 1 && 0 < value < Pow(base, room)
    ensures var s := LowDigits(value, base, uppercase, room); s[|s| - 1] != '0'
    decreases room
  {
    hide LowDigits, Pow, DigitChar;
    var q := value / base;
    DigitNotZero(value % base, uppercase);
    DigitStep(value, base, uppercase, room);
    MoreIs(q, base, uppercase, room - 1);
    QuotientRemainder(value, base);
    PowNext(base, room);
    NothingDenoted(base);
    if q != 0 {
      if q >= Pow(base, room - 1) { Monotone(base, Pow(base, room - 1), q); }
      TopDigit(q, base, uppercase, room - 1);
    }
  }

  lemma {:induction false} ZerosDenote(s: seq<char>, base: nat, n: int)
    ensures Denote(s + Fill('0', n), base) == Denote(s, base)
    decreases |s|, if n > 0 then n else 0
  {
    var f := Fill('0', n);
    if s != [] {
      assert (s + f)[1..] == s[1..] + f;
      ZerosDenote(s[1..], base, n);
    } else if n > 0 {
      assert s + f == f && f[1..] == [] + Fill('0', n - 1);
      ZerosDenote([], base, n - 1);
      assert f[0] == '0' && base * Denote([], base) == 0;
    } else {
      assert s + f == [];
    }
  }

  // ---------------------------------------------------------------------------
  // The reader: spaces, a sign, a prefix, digits; it stops at the first other character.

  function SkipSpaces(s: seq<char>): seq<char> {
    if s != [] && s[0] == ' ' then SkipSpaces(s[1..]) else s
  }

  function ReadDigits(s: seq<char>, base: nat, acc: nat): nat {
    if s != [] && IsDigit(s[0], base) then ReadDigits(s[1..], base, acc * base + DigitValue(s[0])) else acc
  }

  /** A prefix 0x, 0X or 0b of the reader's base is passed over. */
  function ReadMagnitude(s: seq<char>, base: nat): nat {
    var prefixed := |s| > 1 && s[0] == '0'
                    && ((base == 16 && (s[1] == 'x' || s[1] == 'X')) || (base == 2 && s[1] == 'b'));
    ReadDigits(if prefixed then s[2..] else s, base, 0)
  }

  function ReadInt(s: seq<char>, base: nat): (bool, nat) {
    var t := SkipSpaces(s);
    if t != [] && t[0] == '-' then (true, ReadMagnitude(t[1..], base))
    else if t != [] && t[0] == '+' then (false, ReadMagnitude(t[1..], base))
    else (false, ReadMagnitude(t, base))
  }

  lemma {:induction false} SkipFill(n: int, s: seq<char>)
    requires s == [] || s[0] != ' '
    ensures SkipSpaces(Fill(' ', n) + s) == s
    decreases if n > 0 then n else 0
  {
    var f := Fill(' ', n);
    if n > 0 {
      assert (f + s)[1..] == Fill(' ', n - 1) + s;
      SkipFill(n - 1, s);
    } else {
      assert f + s == s;
    }
  }

  /** The weight of the digits already read once those of `low` follow. */
  function Weighted(acc: nat, low: seq<char>, base: nat): nat {
    acc * Pow(base, |low|) + Denote(low, base)
  }

  lemma {:induction false} DenoteLast(s: seq<char>, c: char, base: nat)
    ensures Denote(s + [c], base) == Denote(s, base) + DigitValue(c) * Pow(base, |s|)
    decreases |s|
  {
    hide Denote, Pow, DigitValue;
    NothingDenoted(base);
    if s == [] {
      assert s + [c] == [c] + [];
      DenoteCons(c, [], base);
    } else {
      var t := s[1..];
      assert s == [s[0]] + t && s + [c] == [s[0]] + (t + [c]);
      DenoteCons(s[0], t, base);
      DenoteCons(s[0], t + [c], base);
      DenoteLast(t, c, base);
      Distribute(base, Denote(t, base), DigitValue(c) * Pow(base, |t|));
      Regroup(base, DigitValue(c), Pow(base, |t|));
      PowNext(base, |s|);
    }
  }

  lemma WeightedStep(acc: nat, top: nat, base: nat, p: nat)
    ensures (acc * base + top) * p == acc * (base * p) + top * p
  {
  }

  lemma ReadStop(s: seq<char>, base: nat, acc: nat)
    requires s == [] || !IsDigit(s[0], base)
    ensures ReadDigits(s, base, acc) == acc
  {
  }

  lemma ReadOne(c: char, s: seq<char>, base: nat, acc: nat)
    requires IsDigit(c, base)
    ensures ReadDigits([c] + s, base, acc) == ReadDigits(s, base, acc * base + DigitValue(c))
  {
    assert ([c] + s)[1..] == s;
  }

  /** Reading digits most significant first gives the number they denote. */
  lemma {:induction false} ReadReversed(low: seq<char>, tail: seq<char>, base: nat, acc: nat)
    requires Base(base) && AllDigits(low, base) && (tail == [] || !IsDigit(tail[0], base))
    ensures ReadDigits(Reverse(low) + tail, base, acc) == Weighted(acc, low, base)
    decreases |low|
  {
    hide ReadDigits, Denote, Pow, DigitValue;
    NothingDenoted(base);
    if low == [] {
      assert Reverse(low) + tail == tail;
      ReadStop(tail, base, acc);
    } else {
      var n := |low| - 1;
      var c, l := low[n], low[..n];
      assert low == l + [c] && IsDigit(c, base);
      assert Reverse(low) + tail == [c] + (Reverse(l) + tail);
      ReadOne(c, Reverse(l) + tail, base, acc);
      ReadReversed(l, tail, base, acc * base + DigitValue(c));
      DenoteLast(l, c, base);
      PowNext(base, n + 1);
      WeightedStep(acc, DigitValue(c), base, Pow(base, n));
    }
  }

  // ---------------------------------------------------------------------------
  // Whole conversions.

  /** All digit characters of a conversion without '#', least significant first. */
  function AllPadded(value: nat, negative: bool, base: nat, prec: nat, width: nat, flags: Flags): (s: seq<char>)
    requires Base(base)
    ensures |s| <= NTOA_BUFFER
  {
    PaddedDigits(ValueDigits(value, base, flags), negative, prec, width, flags)
  }

  lemma PaddedAreDigits(value: nat, negative: bool, base: nat, prec: nat, width: nat, flags: Flags)
    requires Base(base)
    ensures AllDigits(AllPadded(value, negative, base, prec, width, flags), base)
    ensures Denote(AllPadded(value, negative, base, prec, width, flags), base)
            == Denote(ValueDigits(value, base, flags), base)
  {
    hide LowDigits, Denote, ZeroPad, IsDigit, PadWidth;
    var d := ValueDigits(value, base, flags);
    if !flags.precision || value != 0 {
      LowDigitsAreDigits(value, base, flags.uppercase, NTOA_BUFFER);
    }
    PaddingDenotes(d, base, prec);
    PaddingDenotes(ZeroPad(d, prec), base, PadWidth(negative, width, flags));
  }

  lemma PaddingDenotes(s: seq<char>, base: nat, n: nat)
    requires Base(base) && |s| <= NTOA_BUFFER
    ensures AllDigits(s, base) ==> AllDigits(ZeroPad(s, n), base)
    ensures Denote(ZeroPad(s, n), base) == Denote(s, base)
  {
    hide Denote;
    assert IsDigit('0', base);
    ZerosDenote(s, base, Clip(n) - |s|);
  }

  function Clip(n: nat): nat { if n < NTOA_BUFFER then n else NTOA_BUFFER }

  /** A prefix of the base, or what is left of one when the buffer is full. */
  predicate IsPrefix(pre: seq<char>, base: nat) {
    || pre == []
    || (base == 16 && (pre == "0x" || pre == "0X" || pre == "x" || pre == "X"))
    || (base == 2 && (pre == "0b" || pre == "b"))
  }

  lemma ReadPrefixed(pre: seq<char>, low: seq<char>, tail: seq<char>, base: nat)
    requires Base(base) && AllDigits(low, base) && (tail == [] || tail[0] == ' ') && IsPrefix(pre, base)
    ensures ReadMagnitude(pre + (Reverse(low) + tail), base) == if |pre| == 1 then 0 else Denote(low, base)
  {
    hide ReadDigits, Denote, IsDigit;
    LettersNoDigits(base);
    var rest := Reverse(low) + tail;
    ReadReversed(low, tail, base, 0);
    assert Weighted(0, low, base) == Denote(low, base);
    var s := pre + rest;
    if pre == [] {
      assert s == rest;
      assert |low| > 1 ==> IsDigit(low[|low| - 2], base);
    } else if |pre| == 1 {
      ReadStop(s, base, 0);
    } else {
      assert s[2..] == rest;
    }
  }

  lemma LettersNoDigits(base: nat)
    requires Base(base)
    ensures !IsDigit('x', base) && !IsDigit('X', base) && !IsDigit(' ', base) && (base == 2 ==> !IsDigit('b', base))
  {
  }

  /** What the reader sees once the spaces are skipped. */
  lemma ReadBody(sign: seq<char>, body: seq<char>)
    requires sign == [] || sign == ['-'] || sign == ['+']
    requires body == [] || (body[0] != '-' && body[0] != '+')
    requires sign == [] ==> body == [] || body[0] != ' '
    ensures var t := sign + body;
            && (t == [] || t[0] != ' ')
            && (t != [] && t[0] == '-' <==> sign == ['-'])
            && (t != [] && t[0] == '+' <==> sign == ['+'])
            && (if sign == [] then t else t[1..]) == body
  {
  }

  lemma BodyStarts(pre: seq<char>, low: seq<char>, tail: seq<char>, base: nat)
    requires Base(base) && AllDigits(low, base) && (tail == [] || tail[0] == ' ') && IsPrefix(pre, base)
    ensures var body := pre + (Reverse(low) + tail);
            && (body == [] || (body[0] != '-' && body[0] != '+'))
            && (pre + low != [] ==> body != [] && body[0] != ' ')
  {
    assert low != [] ==> Reverse(low)[0] == low[|low| - 1];
  }

  /** Reading back sign, prefix, digits and what follows. */
  lemma ReadSigned(spaces: nat, sign: seq<char>, pre: seq<char>, low: seq<char>, tail: seq<char>, base: nat)
    requires Base(base) && AllDigits(low, base) && (tail == [] || tail[0] == ' ') && IsPrefix(pre, base)
    requires sign == [] || sign == ['-'] || sign == ['+']
    requires sign + (pre + low) != []
    ensures ReadInt(Fill(' ', spaces) + (sign + (pre + (Reverse(low) + tail))), base)
            == (sign == ['-'], if |pre| == 1 then 0 else Denote(low, base))
  {
    hide ReadMagnitude, Denote, IsPrefix, AllDigits, Reverse;
    var body := pre + (Reverse(low) + tail);
    BodyStarts(pre, low, tail, base);
    ReadBody(sign, body);
    ReadPrefixed(pre, low, tail, base);
    SkipFill(spaces, sign + body);
  }

  lemma ReadNothing(spaces: nat, base: nat)
    ensures ReadInt(Fill(' ', spaces), base) == (false, 0)
  {
    SkipFill(spaces, []);
    assert Fill(' ', spaces) + [] == Fill(' ', spaces);
  }

  function Cols(n: int): nat { if n > 0 then n else 0 }

  /** Padding, sign, digits (given least significant first), padding. */
  function Laid(front: nat, sign: seq<char>, low: seq<char>, back: nat): seq<char> {
    Fill(' ', front) + (sign + (Reverse(low) + Fill(' ', back)))
  }

  lemma OutRevLaid(low: seq<char>, sign: seq<char>, width: nat, flags: Flags)
    requires |sign| <= 1
    ensures var room := Cols(width - |low| - |sign|);
            OutRev(low + sign, width, flags)
            == Laid(if flags.left || flags.zeropad then 0 else room, sign, low, if flags.left then room else 0)
  {
    assert Reverse(low + sign) == sign + Reverse(low);
    var room := Cols(width - |low| - |sign|);
    var front, back := if flags.left || flags.zeropad then 0 else room, if flags.left then room else 0;
    assert OutRev(low + sign, width, flags) == Fill(' ', front) + (sign + Reverse(low)) + Fill(' ', back);
  }

  function ShownSign(low: seq<char>, negative: bool, flags: Flags): (s: seq<char>)
    ensures |s| <= 1
  {
    if |low| < NTOA_BUFFER then SignOf(negative, flags) else []
  }

  /** All digit characters and the prefix of a conversion, last character first. */
  function Body(value: nat, negative: bool, base: nat, prec: nat, width: nat, flags: Flags): (s: seq<char>)
    requires Base(base)
    ensures |s| <= NTOA_BUFFER
  {
    HashPrefix(AllPadded(value, negative, base, prec, width, flags), base, prec, PadWidth(negative, width, flags),
               flags.(hash := flags.hash && value != 0))
  }

  lemma NoPrefix(value: nat, negative: bool, base: nat, prec: nat, width: nat, flags: Flags)
    requires Base(base) && !(flags.hash && value != 0)
    ensures Body(value, negative, base, prec, width, flags) == AllPadded(value, negative, base, prec, width, flags)
  {
  }

  lemma NtoaIs(value: nat, negative: bool, base: nat, prec: nat, width: nat, flags: Flags)
    requires Base(base)
    ensures Ntoa(value, negative, base, prec, width, flags)
            == OutRev(WithSign(Body(value, negative, base, prec, width, flags), negative, flags),
                      PadWidth(negative, width, flags), flags)
  {
    hide HashPrefix, ValueDigits, ZeroPad;
    var hash := flags.hash && value != 0;
    HashAsideDigits(ValueDigits(value, base, flags), negative, prec, width, flags, hash);
    HashAside(Body(value, negative, base, prec, width, flags), negative, PadWidth(negative, width, flags), flags, hash);
  }

  /** Digits, zeros, sign and padding do not depend on '#'. */
  lemma HashAsideDigits(digits: seq<char>, negative: bool, prec: nat, width: nat, flags: Flags, hash: bool)
    requires |digits| <= NTOA_BUFFER
    ensures PadWidth(negative, width, flags.(hash := hash)) == PadWidth(negative, width, flags)
    ensures PaddedDigits(digits, negative, prec, width, flags.(hash := hash))
            == PaddedDigits(digits, negative, prec, width, flags)
  {
    hide ZeroPad;
  }

  lemma HashAside(b: seq<char>, negative: bool, width: nat, flags: Flags, hash: bool)
    requires |b| <= NTOA_BUFFER
    ensures OutRev(WithSign(b, negative, flags.(hash := hash)), width, flags.(hash := hash))
            == OutRev(WithSign(b, negative, flags), width, flags)
  {
    hide Reverse;
  }

  /** The text of any conversion: padding, sign, prefix and digits, padding. */
  lemma Anatomy(value: nat, negative: bool, base: nat, prec: nat, width: nat, flags: Flags)
    requires Base(base)
    ensures var low := Body(value, negative, base, prec, width, flags);
            var sign := ShownSign(low, negative, flags);
            var room := Cols(PadWidth(negative, width, flags) - |low| - |sign|);
            Ntoa(value, negative, base, prec, width, flags)
            == Laid(if flags.left || flags.zeropad then 0 else room, sign, low, if flags.left then room else 0)
  {
    hide Ntoa, Body, PadWidth, OutRev, Laid;
    NtoaIs(value, negative, base, prec, width, flags);
    var low := Body(value, negative, base, prec, width, flags);
    assert WithSign(low, negative, flags) == low + ShownSign(low, negative, flags);
    OutRevLaid(low, ShownSign(low, negative, flags), PadWidth(negative, width, flags), flags);
  }

  lemma LaidPrefix(front: nat, sign: seq<char>, pre: seq<char>, low: seq<char>, back: nat)
    ensures Laid(front, sign, low + Reverse(pre), back) == Fill(' ', front) + (sign + (pre + (Reverse(low) + Fill(' ', back))))
    ensures sign == [' '] ==> Laid(front, sign, low + Reverse(pre), back) == Laid(front + 1, [], low + Reverse(pre), back)
    ensures sign == [] && pre == [] && low == [] ==> Laid(front, sign, low + Reverse(pre), back) == Fill(' ', front + back)
  {
    assert Reverse(low + Reverse(pre)) == pre + Reverse(low);
  }

  lemma ReadLaid(front: nat, sign: seq<char>, pre: seq<char>, low: seq<char>, back: nat, base: nat)
    requires Base(base) && AllDigits(low, base) && IsPrefix(pre, base)
    requires sign == [] || sign == ['-'] || sign == ['+'] || sign == [' ']
    ensures ReadInt(Laid(front, sign, low + Reverse(pre), back), base)
            == (sign == ['-'], if |pre| == 1 then 0 else Denote(low, base))
    decreases |sign|
  {
    hide ReadInt, Denote, Laid, IsPrefix, AllDigits, Reverse;
    LaidPrefix(front, sign, pre, low, back);
    if sign == [' '] {
      ReadLaid(front + 1, [], pre, low, back, base);
    } else if sign + (pre + low) == [] {
      ReadNothing(front + back, base);
      NothingDenoted(base);
    } else {
      ReadSigned(front, sign, pre, low, Fill(' ', back), base);
    }
  }

  /** What a reader gets back from a conversion whose prefix and digits are known. */
  lemma ReadText(value: nat, negative: bool, base: nat, prec: nat, width: nat, flags: Flags,
                 pre: seq<char>, low: seq<char>)
    requires Base(base) && AllDigits(low, base) && IsPrefix(pre, base)
    requires Body(value, negative, base, prec, width, flags) == low + Reverse(pre)
    ensures ReadInt(Ntoa(value, negative, base, prec, width, flags), base)
            == (negative && |Body(value, negative, base, prec, width, flags)| < NTOA_BUFFER,
                if |pre| == 1 then 0 else Denote(low, base))
  {
    hide Ntoa, Body, PadWidth, ReadInt, Denote, Laid, IsPrefix, AllDigits, Reverse;
    Anatomy(value, negative, base, prec, width, flags);
    var body := Body(value, negative, base, prec, width, flags);
    var sign := ShownSign(body, negative, flags);
    var room := Cols(PadWidth(negative, width, flags) - |body| - |sign|);
    ReadLaid(if flags.left || flags.zeropad then 0 else room, sign, pre, low, if flags.left then room else 0, base);
  }

  /** What a reader gets back when there is no prefix. */
  lemma ReadBack(value: nat, negative: bool, base: nat, prec: nat, width: nat, flags: Flags)
    requires Base(base) && !(flags.hash && value != 0)
    ensures var low := AllPadded(value, negative, base, prec, width, flags);
            ReadInt(Ntoa(value, negative, base, prec, width, flags), base)
            == (negative && |low| < NTOA_BUFFER, Denote(ValueDigits(value, base, flags), base))
  {
    hide Ntoa, AllPadded, ReadInt, Denote, ValueDigits, AllDigits, Body;
    NoPrefix(value, negative, base, prec, width, flags);
    PaddedAreDigits(value, negative, base, prec, width, flags);
    var low := AllPadded(value, negative, base, prec, width, flags);
    assert low + Reverse([]) == low;
    ReadText(value, negative, base, prec, width, flags, [], low);
  }

  /** The digits put in the buffer denote the value exactly when it fits in 32 of them. */
  lemma ValueDenoted(value: nat, base: nat, flags: Flags)
    requires Base(base)
    ensures Denote(ValueDigits(value, base, flags), base) == value <==> value < Pow(base, NTOA_BUFFER)
  {
    if !flags.precision || value != 0 {
      DigitsExact(value, base, flags.uppercase, NTOA_BUFFER);
    } else {
      NothingDenoted(base);
    }
  }

  /** Without a prefix, sign and value can be read back exactly when the value fits in 32 digits of
      its base and, for a negative number, the conversion buffer still has room for the sign. */
  lemma PlainRoundTrip(value: nat, negative: bool, base: nat, prec: nat, width: nat, flags: Flags)
    requires Base(base) && !(flags.hash && value != 0)
    ensures ReadInt(Ntoa(value, negative, base, prec, width, flags), base) == (negative, value)
            <==> value < Pow(base, NTOA_BUFFER)
                 && (negative ==> PaddedCount(value, negative, base, prec, width, flags) < NTOA_BUFFER)
  {
    hide Ntoa, ReadInt, Denote, Pow, ValueDigits, AllPadded, PaddedCount;
    ReadBack(value, negative, base, prec, width, flags);
    PaddedIs(value, negative, base, prec, width, flags);
    ValueDenoted(value, base, flags);
  }

  /** How many digit characters a conversion has: the value's own, the precision unless '-' is
      given, the zero-padded width; never more than the buffer. */
  function PaddedCount(value: nat, negative: bool, base: nat, prec: nat, width: nat, flags: Flags): int
    requires Base(base)
  {
    var own := |ValueDigits(value, base, flags)|;
    if flags.left then own
    else Max(own, Clip(Max(prec, if flags.zeropad then PadWidth(negative, width, flags) else 0)))
  }

  lemma PaddedIs(value: nat, negative: bool, base: nat, prec: nat, width: nat, flags: Flags)
    requires Base(base)
    ensures |AllPadded(value, negative, base, prec, width, flags)|
            == PaddedCount(value, negative, base, prec, width, flags)
  {
  }

  /** The precision is honoured exactly when '-' is absent and it fits the buffer, or the value has
      that many digits anyway: with '-' the code skips the padding to the precision. */
  lemma PrecisionHonoured(value: nat, negative: bool, base: nat, prec: nat, width: nat, flags: Flags)
    requires Base(base)
    ensures |AllPadded(value, negative, base, prec, width, flags)| >= prec
            <==> |ValueDigits(value, base, flags)| >= prec || (!flags.left && prec <= NTOA_BUFFER)
  {
    PaddedIs(value, negative, base, prec, width, flags);
  }

  /** The prefix never makes the text shorter: it takes no more columns than it fills. */
  lemma PrefixLength(b: seq<char>, base: nat, prec: nat, width: nat, flags: Flags)
    requires |b| <= NTOA_BUFFER
    ensures |HashPrefix(b, base, prec, width, flags)| >= |b|
  {
  }

  /** The field width is honoured exactly unless zero padding has to go beyond the buffer, with a
      prefix or without. */
  lemma WidthHonoured(value: nat, negative: bool, base: nat, prec: nat, width: nat, flags: Flags)
    requires Base(base)
    ensures |Ntoa(value, negative, base, prec, width, flags)| >= width
            <==> !(flags.zeropad && !flags.left && width > NTOA_BUFFER)
  {
    hide Ntoa, AllPadded, ValueDigits, HashPrefix;
    Anatomy(value, negative, base, prec, width, flags);
    PaddedIs(value, negative, base, prec, width, flags);
    PrefixLength(AllPadded(value, negative, base, prec, width, flags), base, prec, PadWidth(negative, width, flags),
                 flags.(hash := flags.hash && value != 0));
  }

  // ---------------------------------------------------------------------------
  // The cases callers rely on.

  lemma {:induction false} DigitCount(value: nat, base: nat, uppercase: bool, room: nat, n: nat)
    requires Base(base) && room >= 1 && n >= 1 && value < Pow(base, n)
    ensures |LowDigits(value, base, uppercase, room)| <= n
    decreases room
  {
    hide LowDigits, DigitChar, Pow;
    var q := value / base;
    DigitStep(value, base, uppercase, room);
    MoreIs(q, base, uppercase, room - 1);
    QuotientRemainder(value, base);
    if q != 0 && room > 1 {
      NothingDenoted(base);
      PowNext(base, n);
      if q >= Pow(base, n - 1) { Monotone(base, Pow(base, n - 1), q); }
      assert q < Pow(base, n - 1);
      DigitCount(q, base, uppercase, room - 1, n - 1);
    }
  }

  lemma {:induction false} PowMonotone(a: nat, b: nat, n: nat)
    requires a <= b
    ensures Pow(a, n) <= Pow(b, n)
  {
    if n > 0 {
      PowMonotone(a, b, n - 1);
      assert a * Pow(a, n - 1) <= b * Pow(b, n - 1) by {
        Monotone(a, Pow(a, n - 1), Pow(b, n - 1));
        Monotone(Pow(b, n - 1), a, b);
      }
    }
  }

  lemma Pow8()
    ensures Pow(8, 22) >= 0x1_0000_0000_0000_0000
  {
    assert Pow(8, 4) == 0x1000;
    assert Pow(8, 8) == 0x1000 * Pow(8, 4);
    assert Pow(8, 12) == 0x1000 * Pow(8, 8);
    assert Pow(8, 16) == 0x1000 * Pow(8, 12);
    assert Pow(8, 20) == 0x1000 * Pow(8, 16);
    assert Pow(8, 22) == 0x40 * Pow(8, 20);
  }

  lemma {:induction false} PowGrows(b: nat, i: nat, j: nat)
    requires b >= 1 && i <= j
    ensures Pow(b, i) <= Pow(b, j)
    decreases j
  {
    if i < j {
      PowGrows(b, i, j - 1);
      Monotone(Pow(b, j - 1), 1, b);
    }
  }

  /** Every 64-bit value round trips in octal, decimal and hexadecimal with a precision below 32 and
      zero padding up to 32 columns. */
  lemma UsualRoundTrip(value: nat, negative: bool, base: nat, prec: nat, width: nat, flags: Flags)
    requires 8 <= base <= 16 && !flags.hash && value < 0x1_0000_0000_0000_0000
    requires prec < NTOA_BUFFER && (flags.zeropad && !flags.left ==> width <= NTOA_BUFFER)
    ensures ReadInt(Ntoa(value, negative, base, prec, width, flags), base) == (negative, value)
  {
    Pow8();
    PowMonotone(8, base, 22);
    PowGrows(base, 22, NTOA_BUFFER);
    DigitCount(value, base, flags.uppercase, NTOA_BUFFER, 22);
    PlainRoundTrip(value, negative, base, prec, width, flags);
    hide Ntoa, Pow, ReadInt;
  }
}
