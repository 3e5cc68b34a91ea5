/** What section 7.21.6.1 of ISO/IEC 9899:2011 asks of the integer, character and string
    conversions, and exactly when _vsnprintf does it (solutions/d1_flashelf/libc/stdio2/printf.c). */
module PrintfStandard {
  import opened Basics
  import opened PrintfText
  import opened PrintfRoundTrip
  import opened PrintfFormat

  // ---------------------------------------------------------------------------
  // The reference.

  function Symbol(d: nat, uppercase: bool): char
    requires d < 16
  {
    if uppercase then "0123456789ABCDEF"[d] else "0123456789abcdef"[d]
  }

  /** A number in a base, most significant digit first. */
  function Digits(n: nat, base: nat, uppercase: bool): (s: seq<char>)
    requires 2 <= base <= 16
    ensures |s| >= 1
  {
    if n < base then [Symbol(n, uppercase)] else Digits(n / base, base, uppercase) + [Symbol(n % base, uppercase)]
  }

  function Sign(n: int, plus: bool, space: bool): (s: seq<char>)
    ensures |s| <= 1
  {
    if n < 0 then ['-'] else if plus then ['+'] else if space then [' '] else []
  }

  /** The digits: none for zero with precision zero. */
  function Figures(n: int, base: nat, uppercase: bool, f: Flags, prec: nat): seq<char>
    requires 2 <= base <= 16
  {
    if f.precision && prec == 0 && n == 0 then [] else Digits(if n < 0 then -n else n, base, uppercase)
  }

  function Arrange(sign: seq<char>, body: seq<char>, width: nat, left: bool, zeros: bool): seq<char> {
    var room := width - |sign| - |body|;
    if left then sign + body + Fill(' ', room)
    else if zeros then sign + Fill('0', room) + body
    else Fill(' ', room) + sign + body
  }

  /** A number in its field: the precision is the least number of digits and overrides '0', and '-'
      overrides '0' too. */
  function Standard(n: int, base: nat, uppercase: bool, f: Flags, width: nat, prec: nat): seq<char>
    requires 2 <= base <= 16
  {
    var digits := Figures(n, base, uppercase, f, prec);
    var sign := Sign(n, f.plus, f.space);
    var body := (if f.precision then Fill('0', prec - |digits|) else []) + digits;
    Arrange(sign, body, width, f.left, f.zeropad && !f.precision)
  }

  /** What the length field makes of an argument; char is unsigned on this target. */
  ghost predicate Converted(s: Spec, v: int, n: int) {
    match s.size
    case Plain => n == v
    case Wide => n == v
    case Short => (n - v) % 0x1_0000 == 0 && if s.conv == 'd' || s.conv == 'i' then -0x8000 <= n < 0x8000 else 0 <= n < 0x1_0000
    case Byte => (n - v) % 0x100 == 0 && 0 <= n < 0x100
  }

  function Radix(conv: char): (b: nat)
    ensures 2 <= b <= 16
  {
    match conv
    case 'o' => 8
    case 'x' => 16
    case 'X' => 16
    case 'b' => 2
    case _ => 10
  }

  /** An unsigned conversion has no use for '+' and space. */
  function Asked(s: Spec): Flags {
    if s.conv == 'd' || s.conv == 'i' then s.flags else s.flags.(plus := false, space := false)
  }

  /** The text of an integer conversion without '#'. */
  function Expected(s: Spec, n: int): seq<char> {
    Standard(n, Radix(s.conv), s.conv == 'X', Asked(s), s.width, s.prec)
  }

  // ---------------------------------------------------------------------------
  // Digits.

  lemma SymbolIs(d: nat, uppercase: bool)
    requires d < 16
    ensures DigitChar(d, uppercase) == Symbol(d, uppercase)
  {
  }

  lemma ReverseLast(s: seq<char>, c: char)
    ensures Reverse(s + [c]) == [c] + Reverse(s) && [] + [c] == [c] && [c] + [] == [c] && Reverse([]) == []
  {
  }

  lemma {:induction false} DigitsAre(n: nat, base: nat, uppercase: bool, room: nat)
    requires 2 <= base <= 16 && room >= 1 && n < Pow(base, room)
    ensures LowDigits(n, base, uppercase, room) == Reverse(Digits(n, base, uppercase))
    decreases room
  {
    hide LowDigits, Pow, DigitChar, Symbol, Reverse, Digits, MoreDigits;
    var q := Shifted(n, base);
    var c := LastDigit(n, base, uppercase);
    DigitStep(n, base, uppercase, room);
    MoreIs(q, base, uppercase, room - 1);
    DigitsStep(n, base, uppercase);
    PowNext(base, room);
    NothingDenoted(base);
    ShiftedBound(n, base, Pow(base, room - 1));
    if q == 0 {
      ReverseLast([], c);
    } else {
      DigitsAre(q, base, uppercase, room - 1);
      ReverseLast(Digits(q, base, uppercase), c);
    }
  }

  lemma DigitsStep(n: nat, base: nat, uppercase: bool)
    requires 2 <= base <= 16
    ensures var q, c := Shifted(n, base), LastDigit(n, base, uppercase);
            Digits(n, base, uppercase) == (if q == 0 then [] else Digits(q, base, uppercase)) + [c]
  {
    hide DigitChar, Symbol;
    QuotientRemainder(n, base);
    SymbolIs(n % base, uppercase);
    SmallQuotient(n, base);
  }

  lemma SmallQuotient(n: nat, base: nat)
    requires base > 0
    ensures n / base == 0 <==> n < base
    ensures n < base ==> n % base == n
  {
  }

  lemma ShiftedBound(n: nat, base: nat, p: nat)
    requires 2 <= base <= 16 && n < base * p
    ensures Shifted(n, base) < p
  {
    QuotientRemainder(n, base);
    if n / base >= p { Monotone(base, p, n / base); }
  }

  lemma ReverseBack(s: seq<char>)
    ensures Reverse(Reverse(s)) == s
  {
  }

  lemma ReverseZeros(s: seq<char>, n: int)
    ensures Reverse(Reverse(s) + Fill('0', n)) == Fill('0', n) + s
  {
  }

  // ---------------------------------------------------------------------------
  // The reference and the code as padding, sign, zeros, digits, padding.

  function Zeros(n: int, base: nat, uppercase: bool, f: Flags, width: nat, prec: nat): int
    requires 2 <= base <= 16
  {
    var d, s := |Figures(n, base, uppercase, f, prec)|, |Sign(n, f.plus, f.space)|;
    if f.precision then prec - d else if f.zeropad && !f.left then width - s - d else 0
  }

  lemma StandardLaid(n: int, base: nat, uppercase: bool, f: Flags, width: nat, prec: nat)
    requires 2 <= base <= 16
    ensures var digits := Figures(n, base, uppercase, f, prec);
            var sign := Sign(n, f.plus, f.space);
            var low := Reverse(digits) + Fill('0', Zeros(n, base, uppercase, f, width, prec));
            var room := Cols(width - |low| - |sign|);
            Standard(n, base, uppercase, f, width, prec)
            == Laid(if f.left then 0 else room, sign, low, if f.left then room else 0)
  {
    hide Laid, Figures, Sign, Arrange, Reverse, Fill;
    var digits := Figures(n, base, uppercase, f, prec);
    var k := if f.precision then prec - |digits| else 0;
    FillNone('0', k);
    assert [] + digits == digits;
    ArrangeLaid(Sign(n, f.plus, f.space), digits, k, width, f.left, f.zeropad && !f.precision);
  }

  lemma ArrangeLaid(sign: seq<char>, digits: seq<char>, k: int, width: nat, left: bool, zeros: bool)
    requires zeros ==> k == 0
    ensures var z := if zeros && !left then width - |sign| - |digits| else k;
            var low := Reverse(digits) + Fill('0', z);
            var room := Cols(width - |low| - |sign|);
            Arrange(sign, Fill('0', k) + digits, width, left, zeros)
            == Laid(if left then 0 else room, sign, low, if left then room else 0)
  {
    hide Laid, Reverse;
    var z := if zeros && !left then width - |sign| - |digits| else k;
    ReverseZeros(digits, z);
    LaidIs(sign, Reverse(digits) + Fill('0', z), Fill('0', z) + digits, width, left);
    if zeros && !left {
      assert sign + Fill('0', z) + digits == sign + (Fill('0', z) + digits);
    }
  }

  lemma LaidIs(sign: seq<char>, low: seq<char>, body: seq<char>, width: nat, left: bool)
    requires Reverse(low) == body
    ensures var room := Cols(width - |low| - |sign|);
            Laid(if left then 0 else room, sign, low, if left then room else 0)
            == if left then sign + body + Fill(' ', width - |sign| - |body|) else Fill(' ', width - |sign| - |body|) + sign + body
  {
    hide Reverse;
  }

  function Magnitude(n: int): nat { if n < 0 then -n else n }

  /** The flags the conversion code works with. */
  function CodeFlags(f: Flags, uppercase: bool): Flags {
    Flags(f.zeropad && !f.precision, f.left, f.plus, f.space, false, uppercase, f.precision)
  }

  function Code(n: int, base: nat, uppercase: bool, f: Flags, width: nat, prec: nat): seq<char>
    requires 2 <= base <= 16
  {
    Ntoa(Magnitude(n), n < 0, base, prec, width, CodeFlags(f, uppercase))
  }

  /** The digits the code puts down: none for zero with any precision. */
  function Put(n: int, base: nat, uppercase: bool, f: Flags): seq<char>
    requires 2 <= base <= 16
  {
    if f.precision && n == 0 then [] else Digits(Magnitude(n), base, uppercase)
  }

  /** How many zeros the code puts in front of them. */
  function PutZeros(n: int, base: nat, uppercase: bool, f: Flags, width: nat, prec: nat): int
    requires 2 <= base <= 16
  {
    var d, s := |Put(n, base, uppercase, f)|, |Sign(n, f.plus, f.space)|;
    if f.left then 0
    else if f.zeropad && !f.precision then Clip(if width > 0 then width - s else width) - d
    else Clip(prec) - d
  }

  lemma PaddedParts(value: nat, negative: bool, base: nat, prec: nat, width: nat, flags: Flags)
    requires Base(base)
    ensures var d := ValueDigits(value, base, flags);
            AllPadded(value, negative, base, prec, width, flags)
            == d + Fill('0', PaddedCount(value, negative, base, prec, width, flags) - |d|)
  {
    hide ValueDigits;
  }

  /** The code's text in the same terms, for a number that fits in 32 digits. */
  lemma CodeLaid(n: int, base: nat, uppercase: bool, f: Flags, width: nat, prec: nat)
    requires 2 <= base <= 16 && Magnitude(n) < Pow(base, NTOA_BUFFER) && (f.precision || prec == 0)
    ensures var low := Reverse(Put(n, base, uppercase, f)) + Fill('0', PutZeros(n, base, uppercase, f, width, prec));
            var sign := if |low| < NTOA_BUFFER then Sign(n, f.plus, f.space) else [];
            var w := PadWidth(n < 0, width, CodeFlags(f, uppercase));
            var room := Cols(w - |low| - |sign|);
            && |low| <= NTOA_BUFFER
            && Code(n, base, uppercase, f, width, prec)
               == Laid(if f.left || (f.zeropad && !f.precision) then 0 else room, sign, low, if f.left then room else 0)
  {
    hide Ntoa, AllPadded, Body, Pow, Laid, PadWidth, Reverse, Put, PutZeros, Fill, Digits;
    var flags, value := CodeFlags(f, uppercase), Magnitude(n);
    NoPrefix(value, n < 0, base, prec, width, flags);
    Anatomy(value, n < 0, base, prec, width, flags);
    LowIs(n, base, uppercase, f, width, prec);
  }

  lemma LowIs(n: int, base: nat, uppercase: bool, f: Flags, width: nat, prec: nat)
    requires 2 <= base <= 16 && Magnitude(n) < Pow(base, NTOA_BUFFER) && (f.precision || prec == 0)
    ensures AllPadded(Magnitude(n), n < 0, base, prec, width, CodeFlags(f, uppercase))
            == Reverse(Put(n, base, uppercase, f)) + Fill('0', PutZeros(n, base, uppercase, f, width, prec))
  {
    hide AllPadded, Pow, ValueDigits, Reverse, Put, PutZeros, PaddedCount, Digits;
    PaddedParts(Magnitude(n), n < 0, base, prec, width, CodeFlags(f, uppercase));
    PutIs(n, base, uppercase, f);
    CountIs(n, base, uppercase, f, width, prec);
    FillNone('0', PutZeros(n, base, uppercase, f, width, prec));
  }

  lemma FillNone(c: char, n: int)
    ensures n <= 0 ==> Fill(c, n) == []
    ensures Fill(c, 0) == []
  {
  }

  lemma PutIs(n: int, base: nat, uppercase: bool, f: Flags)
    requires 2 <= base <= 16 && Magnitude(n) < Pow(base, NTOA_BUFFER)
    ensures ValueDigits(Magnitude(n), base, CodeFlags(f, uppercase)) == Reverse(Put(n, base, uppercase, f))
  {
    hide LowDigits, Pow, Digits;
    DigitsAre(Magnitude(n), base, uppercase, NTOA_BUFFER);
  }

  lemma CountIs(n: int, base: nat, uppercase: bool, f: Flags, width: nat, prec: nat)
    requires 2 <= base <= 16 && Magnitude(n) < Pow(base, NTOA_BUFFER) && (f.precision || prec == 0)
    ensures var flags := CodeFlags(f, uppercase);
            var count := PaddedCount(Magnitude(n), n < 0, base, prec, width, flags);
            var d := |Put(n, base, uppercase, f)|;
            count - d == if PutZeros(n, base, uppercase, f, width, prec) > 0 then PutZeros(n, base, uppercase, f, width, prec) else 0
  {
    PutIs(n, base, uppercase, f);
    hide Pow, ValueDigits, Put;
  }

  // ---------------------------------------------------------------------------
  // When they are the same.

  /** The value fits in the conversion buffer; with '-' the number has as many digits as the
      precision asks for anyway; otherwise precision and sign, or the zero-padded width, fit in the
      buffer. A space for a sign may be lost when it stands beside padding. */
  predicate Conforms(n: int, base: nat, uppercase: bool, f: Flags, width: nat, prec: nat)
    requires 2 <= base <= 16
  {
    var sign := Sign(n, f.plus, f.space);
    && Magnitude(n) < Pow(base, NTOA_BUFFER)
    && if f.left then prec <= |Put(n, base, uppercase, f)|
       else if f.precision then
         prec < NTOA_BUFFER || (prec == NTOA_BUFFER && (sign == [] || (sign == [' '] && width > NTOA_BUFFER)))
       else f.zeropad ==> width <= NTOA_BUFFER
  }

  /** A sign goes with fewer than 32 digits: signed conversions are decimal. */
  predicate SignedShort(n: int, base: nat, uppercase: bool, f: Flags)
    requires 2 <= base <= 16
  {
    Sign(n, f.plus, f.space) == [] || |Digits(Magnitude(n), base, uppercase)| < NTOA_BUFFER
  }

  lemma SameLow(n: int, base: nat, uppercase: bool, f: Flags, width: nat, prec: nat)
    requires 2 <= base <= 16 && Conforms(n, base, uppercase, f, width, prec) && (f.precision || prec == 0)
    ensures Reverse(Figures(n, base, uppercase, f, prec)) + Fill('0', Zeros(n, base, uppercase, f, width, prec))
            == Reverse(Put(n, base, uppercase, f)) + Fill('0', PutZeros(n, base, uppercase, f, width, prec))
  {
    hide Pow, Reverse, Sign, Fill;
    FillNone('0', Zeros(n, base, uppercase, f, width, prec));
    FillNone('0', PutZeros(n, base, uppercase, f, width, prec));
    if f.precision && n == 0 && prec > 0 {
      OneZero(prec);
      assert Digits(0, base, uppercase) == ['0'];
    }
  }

  lemma OneZero(n: nat)
    requires n > 0
    ensures Reverse(['0']) + Fill('0', n - 1) == Reverse([]) + Fill('0', n)
  {
  }

  lemma SpaceBesideRoom(low: seq<char>, width: nat)
    requires width > |low|
    ensures Laid(width - |low| - 1, [' '], low, 0) == Laid(width - |low|, [], low, 0)
  {
  }

  /** A space for a sign that is lost beside padding. */
  predicate SpaceLost(n: int, f: Flags, width: nat, prec: nat) {
    !f.left && f.precision && prec == NTOA_BUFFER && Sign(n, f.plus, f.space) == [' '] && width > NTOA_BUFFER
  }

  lemma SameRooms(n: int, base: nat, uppercase: bool, f: Flags, width: nat, prec: nat)
    requires 2 <= base <= 16 && (f.precision || prec == 0) && SignedShort(n, base, uppercase, f)
    requires Conforms(n, base, uppercase, f, width, prec) && !SpaceLost(n, f, width, prec)
    ensures var len := |Put(n, base, uppercase, f)| + Cols(PutZeros(n, base, uppercase, f, width, prec));
            var s := |Sign(n, f.plus, f.space)|;
            var w := PadWidth(n < 0, width, CodeFlags(f, uppercase));
            && (len < NTOA_BUFFER || s == 0)
            && (f.left ==> w == width)
            && (!f.left && f.zeropad && !f.precision ==> width - len - s <= 0)
            && (!f.left && !(f.zeropad && !f.precision) ==> w == width)
  {
    hide Digits, Pow;
  }

  lemma ConformsSame(n: int, base: nat, uppercase: bool, f: Flags, width: nat, prec: nat)
    requires 2 <= base <= 16 && (f.precision || prec == 0) && SignedShort(n, base, uppercase, f)
    requires Conforms(n, base, uppercase, f, width, prec)
    ensures Code(n, base, uppercase, f, width, prec) == Standard(n, base, uppercase, f, width, prec)
  {
    hide Code, Standard, Pow, Reverse, Digits, Laid, Zeros, Figures, Put, PutZeros, PadWidth, SignedShort;
    CodeLaid(n, base, uppercase, f, width, prec);
    StandardLaid(n, base, uppercase, f, width, prec);
    SameLow(n, base, uppercase, f, width, prec);
    if SpaceLost(n, f, width, prec) {
      SpaceSame(n, base, uppercase, f, width, prec);
    } else {
      SameRooms(n, base, uppercase, f, width, prec);
    }
  }

  lemma SpaceSame(n: int, base: nat, uppercase: bool, f: Flags, width: nat, prec: nat)
    requires 2 <= base <= 16 && SignedShort(n, base, uppercase, f) && Magnitude(n) < Pow(base, NTOA_BUFFER)
    requires SpaceLost(n, f, width, prec)
    ensures Code(n, base, uppercase, f, width, prec) == Standard(n, base, uppercase, f, width, prec)
  {
    hide Code, Standard, Pow, Reverse, Digits, Laid;
    CodeLaid(n, base, uppercase, f, width, prec);
    StandardLaid(n, base, uppercase, f, width, prec);
    SameLow(n, base, uppercase, f, width, prec);
    var low := Reverse(Put(n, base, uppercase, f)) + Fill('0', PutZeros(n, base, uppercase, f, width, prec));
    assert |low| == NTOA_BUFFER;
    SpaceBesideRoom(low, width);
  }

  // ---------------------------------------------------------------------------
  // When they differ.

  lemma {:induction false} PowAbove(base: nat, n: nat)
    requires base >= 2
    ensures n < Pow(base, n)
  {
    if n > 0 {
      PowAbove(base, n - 1);
      Monotone(Pow(base, n - 1), 2, base);
      PowNext(base, n);
    }
  }

  lemma DigitsDenote(n: nat, base: nat, uppercase: bool)
    requires 2 <= base <= 16
    ensures AllDigits(Reverse(Digits(n, base, uppercase)), base)
    ensures Denote(Reverse(Digits(n, base, uppercase)), base) == n
  {
    hide LowDigits, Denote, Pow, AllDigits, Digits, Reverse;
    PowAbove(base, n + 1);
    DigitsAre(n, base, uppercase, n + 1);
    LowDigitsAreDigits(n, base, uppercase, n + 1);
    DigitsExact(n, base, uppercase, n + 1);
  }

  /** The reference can always be read back. */
  lemma StandardReadsBack(n: int, base: nat, uppercase: bool, f: Flags, width: nat, prec: nat)
    requires 2 <= base <= 16
    ensures ReadInt(Standard(n, base, uppercase, f, width, prec), base) == (n < 0, Magnitude(n))
  {
    hide ReadInt, Standard, Denote, Digits, Laid, Reverse, Zeros;
    StandardLaid(n, base, uppercase, f, width, prec);
    FiguresDenote(n, base, uppercase, f, prec);
    var digits := Figures(n, base, uppercase, f, prec);
    var z := Zeros(n, base, uppercase, f, width, prec);
    var low := Reverse(digits) + Fill('0', z);
    ZerosDenote(Reverse(digits), base, z);
    ZerosAreDigits(Reverse(digits), base, z);
    var sign := Sign(n, f.plus, f.space);
    var room := Cols(width - |low| - |sign|);
    NothingBehind(low);
    ReadLaid(if f.left then 0 else room, sign, [], low, if f.left then room else 0, base);
  }

  lemma NothingBehind(low: seq<char>)
    ensures low + Reverse([]) == low
  {
  }

  lemma ZerosAreDigits(s: seq<char>, base: nat, z: int)
    requires 2 <= base <= 16 && AllDigits(s, base)
    ensures AllDigits(s + Fill('0', z), base)
  {
    assert IsDigit('0', base);
  }

  lemma FiguresDenote(n: int, base: nat, uppercase: bool, f: Flags, prec: nat)
    requires 2 <= base <= 16
    ensures AllDigits(Reverse(Figures(n, base, uppercase, f, prec)), base)
    ensures Denote(Reverse(Figures(n, base, uppercase, f, prec)), base) == Magnitude(n)
  {
    hide Denote, Digits;
    NothingDenoted(base);
    assert Reverse([]) == [];
    DigitsDenote(Magnitude(n), base, uppercase);
  }

  lemma TooLargeDiffers(n: int, base: nat, uppercase: bool, f: Flags, width: nat, prec: nat)
    requires 2 <= base <= 16 && Magnitude(n) >= Pow(base, NTOA_BUFFER)
    ensures Code(n, base, uppercase, f, width, prec) != Standard(n, base, uppercase, f, width, prec)
  {
    hide Ntoa, Standard, ReadInt, Pow, PaddedCount;
    PlainRoundTrip(Magnitude(n), n < 0, base, prec, width, CodeFlags(f, uppercase));
    StandardReadsBack(n, base, uppercase, f, width, prec);
  }

  lemma SymbolNotZero(d: nat, uppercase: bool)
    requires 0 < d < 16
    ensures Symbol(d, uppercase) != '0'
  {
  }

  lemma {:induction false} FirstSymbol(n: nat, base: nat, uppercase: bool)
    requires 2 <= base <= 16 && n > 0
    ensures Digits(n, base, uppercase)[0] != '0'
    decreases n
  {
    hide Symbol;
    if n >= base {
      QuotientRemainder(n, base);
      assert n / base > 0;
      FirstSymbol(n / base, base, uppercase);
    } else {
      SymbolNotZero(n, uppercase);
    }
  }

  lemma LeftStandard(n: int, base: nat, uppercase: bool, f: Flags, width: nat, prec: nat)
    requires 2 <= base <= 16 && f.left && f.precision && prec > |Put(n, base, uppercase, f)|
    ensures var s, k := Standard(n, base, uppercase, f, width, prec), |Sign(n, f.plus, f.space)|;
            k < |s| && s[k] == '0'
  {
    if n == 0 { assert Digits(0, base, uppercase) == ['0']; }
    hide Digits, Sign;
    var digits := Figures(n, base, uppercase, f, prec);
    assert (Fill('0', prec - |digits|) + digits)[0] == '0';
  }

  lemma LeftCode(n: int, base: nat, uppercase: bool, f: Flags, width: nat, prec: nat)
    requires 2 <= base <= 16 && SignedShort(n, base, uppercase, f) && Magnitude(n) < Pow(base, NTOA_BUFFER)
    requires f.left && f.precision
    ensures var put, sign := Put(n, base, uppercase, f), Sign(n, f.plus, f.space);
            Code(n, base, uppercase, f, width, prec) == sign + (put + Fill(' ', Cols(width - |put| - |sign|)))
  {
    hide Code, Pow, Digits, Reverse, Fill, Laid, Put;
    CodeLaid(n, base, uppercase, f, width, prec);
    var put, sign := Put(n, base, uppercase, f), Sign(n, f.plus, f.space);
    PutShort(n, base, uppercase, f);
    LaidLeft(sign, put, Cols(width - |put| - |sign|));
  }

  lemma PutShort(n: int, base: nat, uppercase: bool, f: Flags)
    requires 2 <= base <= 16 && SignedShort(n, base, uppercase, f)
    ensures Sign(n, f.plus, f.space) == [] || |Put(n, base, uppercase, f)| < NTOA_BUFFER
  {
    hide Digits;
  }

  lemma LaidLeft(sign: seq<char>, put: seq<char>, room: nat)
    ensures |Reverse(put) + Fill('0', 0)| == |put|
    ensures Laid(0, sign, Reverse(put) + Fill('0', 0), room) == sign + (put + Fill(' ', room))
  {
    ReverseBack(put);
    FillNone('0', 0);
    FillNone(' ', 0);
    hide Reverse, Fill;
    assert Reverse(put) + [] == Reverse(put);
    assert [] + (sign + (put + Fill(' ', room))) == sign + (put + Fill(' ', room));
  }

  /** With '-' the code leaves out the zeros of the precision. */
  lemma LeftDiffers(n: int, base: nat, uppercase: bool, f: Flags, width: nat, prec: nat)
    requires 2 <= base <= 16 && SignedShort(n, base, uppercase, f) && Magnitude(n) < Pow(base, NTOA_BUFFER)
    requires f.left && f.precision && prec > |Put(n, base, uppercase, f)|
    ensures Code(n, base, uppercase, f, width, prec) != Standard(n, base, uppercase, f, width, prec)
  {
    hide Code, Standard, Pow, Digits, Sign;
    LeftCode(n, base, uppercase, f, width, prec);
    LeftStandard(n, base, uppercase, f, width, prec);
    if n != 0 { FirstSymbol(Magnitude(n), base, uppercase); }
    var c, k := Code(n, base, uppercase, f, width, prec), |Sign(n, f.plus, f.space)|;
    assert k < |c| ==> c[k] != '0';
  }

  /** A precision beyond the buffer is cut, and one that fills it takes the sign's place. */
  lemma PrecisionDiffers(n: int, base: nat, uppercase: bool, f: Flags, width: nat, prec: nat)
    requires 2 <= base <= 16 && Magnitude(n) < Pow(base, NTOA_BUFFER)
    requires !f.left && f.precision && |Digits(Magnitude(n), base, uppercase)| <= NTOA_BUFFER
    requires prec > NTOA_BUFFER || (prec == NTOA_BUFFER && Sign(n, f.plus, f.space) != [])
    requires !SpaceLost(n, f, width, prec)
    ensures Code(n, base, uppercase, f, width, prec) != Standard(n, base, uppercase, f, width, prec)
  {
    hide Code, Standard, Pow, Digits, Reverse, Laid, AllDigits, Fill;
    CodeLaid(n, base, uppercase, f, width, prec);
    StandardLaid(n, base, uppercase, f, width, prec);
    var put := Reverse(Put(n, base, uppercase, f)) + Fill('0', PutZeros(n, base, uppercase, f, width, prec));
    var digits := Reverse(Figures(n, base, uppercase, f, prec));
    var zeros := Zeros(n, base, uppercase, f, width, prec);
    FiguresDenote(n, base, uppercase, f, prec);
    ZerosAreDigits(digits, base, zeros);
    FigureCount(n, base, uppercase, f, prec);
    CutOrCovered(base, put, Sign(n, f.plus, f.space), digits + Fill('0', zeros), width, Cols(width - |digits + Fill('0', zeros)| - |Sign(n, f.plus, f.space)|));
  }

  lemma FigureCount(n: int, base: nat, uppercase: bool, f: Flags, prec: nat)
    requires 2 <= base <= 16 && f.precision && |Digits(Magnitude(n), base, uppercase)| <= NTOA_BUFFER <= prec
    ensures |Put(n, base, uppercase, f)| <= NTOA_BUFFER && |Figures(n, base, uppercase, f, prec)| <= NTOA_BUFFER
  {
    hide Digits;
  }

  lemma LaidAt(front: nat, sign: seq<char>, low: seq<char>, k: nat)
    requires k < front + |sign| + |low|
    ensures var t := Laid(front, sign, low, 0);
            && |t| == front + |sign| + |low|
            && t[k] == if k < front then ' ' else if k < front + |sign| then sign[k - front]
                       else low[|low| - 1 - (k - front - |sign|)]
  {
  }

  lemma DigitNoSpace(c: char, base: nat)
    requires 2 <= base <= 16 && IsDigit(c, base)
    ensures c != ' '
  {
  }

  /** 32 characters behind spaces are neither 33 digits nor a sign and 32 digits. */
  lemma CutOrCovered(base: nat, put: seq<char>, sign: seq<char>, low: seq<char>, width: nat, front: nat)
    requires 2 <= base <= 16 && |put| == NTOA_BUFFER && AllDigits(low, base) && |sign| <= 1
    requires |low| > NTOA_BUFFER || (|low| == NTOA_BUFFER && sign != [])
    requires sign != [' '] || |low| > NTOA_BUFFER || width <= NTOA_BUFFER
    requires front == Cols(width - |low| - |sign|)
    ensures Laid(Cols(width - NTOA_BUFFER), [], put, 0) != Laid(front, sign, low, 0)
  {
    hide Laid, Reverse;
    var n := front + |sign| + |low|;
    LaidAt(front, sign, low, n - 33);
    LaidAt(Cols(width - NTOA_BUFFER), [], put, 0);
    if width > NTOA_BUFFER {
      LaidAt(width - NTOA_BUFFER, [], put, width - 33);
      if |low| > NTOA_BUFFER { DigitNoSpace(low[32], base); }
    }
  }

  /** Zero padding stops at the end of the buffer. */
  lemma ZeroPadDiffers(n: int, base: nat, uppercase: bool, f: Flags, width: nat, prec: nat)
    requires 2 <= base <= 16 && Magnitude(n) < Pow(base, NTOA_BUFFER) && prec == 0
    requires !f.left && f.zeropad && !f.precision && width > NTOA_BUFFER
    ensures |Code(n, base, uppercase, f, width, prec)| < |Standard(n, base, uppercase, f, width, prec)|
  {
    CodeLaid(n, base, uppercase, f, width, prec);
    hide Code, Pow, Digits, Reverse;
  }

  /** The digits of a number below base^32 fit in the buffer. */
  lemma DigitsFit(n: nat, base: nat, uppercase: bool)
    requires 2 <= base <= 16 && n < Pow(base, NTOA_BUFFER)
    ensures |Digits(n, base, uppercase)| <= NTOA_BUFFER
  {
    hide Pow, LowDigits, Digits;
    DigitsAre(n, base, uppercase, NTOA_BUFFER);
  }

  /** The code's text is the reference's exactly when it conforms. */
  lemma SameExactly(n: int, base: nat, uppercase: bool, f: Flags, width: nat, prec: nat)
    requires 2 <= base <= 16 && (f.precision || prec == 0) && SignedShort(n, base, uppercase, f)
    ensures Code(n, base, uppercase, f, width, prec) == Standard(n, base, uppercase, f, width, prec)
            <==> Conforms(n, base, uppercase, f, width, prec)
  {
    hide Code, Standard, Pow, Digits, SignedShort;
    if Conforms(n, base, uppercase, f, width, prec) {
      ConformsSame(n, base, uppercase, f, width, prec);
    } else if Magnitude(n) >= Pow(base, NTOA_BUFFER) {
      TooLargeDiffers(n, base, uppercase, f, width, prec);
    } else if f.left {
      LeftDiffers(n, base, uppercase, f, width, prec);
    } else if f.precision {
      DigitsFit(Magnitude(n), base, uppercase);
      PrecisionDiffers(n, base, uppercase, f, width, prec);
    } else {
      ZeroPadDiffers(n, base, uppercase, f, width, prec);
    }
  }

  // ---------------------------------------------------------------------------
  // Integer conversions.

  lemma NarrowIs(s: Spec, v: int, n: int)
    requires Converted(s, v, n)
    ensures Narrow(v, s.size, s.conv == 'd' || s.conv == 'i') == n
  {
    if s.size == Short {
      SameLow16(v, n);
      SameLow16(v + 0x8000, n + 0x8000);
    }
    if s.size == Byte { SameLow8(v, n); }
  }

  lemma SameLow16(a: int, b: int)
    requires (b - a) % 0x1_0000 == 0
    ensures a % 0x1_0000 == b % 0x1_0000
  {
  }

  lemma SameLow8(a: int, b: int)
    requires (b - a) % 0x100 == 0
    ensures a % 0x100 == b % 0x100
  {
  }

  /** What the code works on. */
  lemma IntTextIs(s: Spec, v: int, n: int)
    requires Integer(s.conv) && Converted(s, v, n) && (s.flags.hash ==> Radix(s.conv) == 10)
    ensures IntText(s, v) == Code(n, Radix(s.conv), s.conv == 'X', Asked(s), s.width, s.prec)
  {
    hide Ntoa, Narrow;
    NarrowIs(s, v, n);
  }

  /** The arguments of an integer conversion as C's types have them, without the least value of a
      signed type. */
  predicate InRange(s: Spec, v: int) {
    if s.conv == 'd' || s.conv == 'i' then
      if s.size == Wide then -0x8000_0000_0000_0000 < v < 0x8000_0000_0000_0000 else -0x8000_0000 < v < 0x8000_0000
    else 0 <= v < if s.size == Wide then 0x1_0000_0000_0000_0000 else 0x1_0000_0000
  }

  lemma NumberRange(s: Spec, v: int, n: int)
    requires InRange(s, v) && Converted(s, v, n)
    ensures Magnitude(n) < 0x1_0000_0000_0000_0000
    ensures s.conv != 'd' && s.conv != 'i' ==> n >= 0
  {
  }

  lemma FewDigits(n: nat, base: nat, uppercase: bool)
    requires 8 <= base <= 16 && n < 0x1_0000_0000_0000_0000
    ensures n < Pow(base, NTOA_BUFFER) && |Digits(n, base, uppercase)| <= 22
  {
    hide LowDigits, Pow, Digits;
    Pow8();
    PowMonotone(8, base, 22);
    PowGrows(base, 22, NTOA_BUFFER);
    DigitCount(n, base, uppercase, NTOA_BUFFER, 22);
    DigitsAre(n, base, uppercase, NTOA_BUFFER);
  }

  lemma SignedAreShort(s: Spec, v: int, n: int)
    requires InRange(s, v) && Converted(s, v, n)
    ensures SignedShort(n, Radix(s.conv), s.conv == 'X', Asked(s))
  {
    hide Digits, Converted, InRange, Pow;
    NumberRange(s, v, n);
    FewDigits(Magnitude(n), 10, s.conv == 'X');
  }

  /** An integer conversion without '#' prints exactly what is asked of it if and only if it
      conforms. */
  lemma IntExactly(s: Spec, v: int, n: int)
    requires Integer(s.conv) && InRange(s, v) && Converted(s, v, n) && (s.flags.precision || s.prec == 0)
    requires s.flags.hash ==> Radix(s.conv) == 10
    ensures IntText(s, v) == Expected(s, n)
            <==> Conforms(n, Radix(s.conv), s.conv == 'X', Asked(s), s.width, s.prec)
  {
    hide IntText, Code, Standard, Conforms, Converted, Digits, InRange, SignedShort, Integer;
    IntTextIs(s, v, n);
    SignedAreShort(s, v, n);
    SameExactly(n, Radix(s.conv), s.conv == 'X', Asked(s), s.width, s.prec);
  }

  /** Reading a conversion's text back in the base of its letter gives n. */
  ghost predicate ReadsAs(conv: char, text: seq<char>, n: int) {
    match conv
    case 'o' => ReadInt(text, 8) == (false, n)
    case 'x' => ReadInt(text, 16) == (false, n)
    case 'X' => ReadInt(text, 16) == (false, n)
    case 'b' => ReadInt(text, 2) == (false, n)
    case 'u' => ReadInt(text, 10) == (false, n)
    case _ => ReadInt(text, 10) == (n < 0, if n < 0 then -n else n)
  }

  // ---------------------------------------------------------------------------
  // Characters and strings.

  /** `shown` stands in a field of at least `width` columns, the rest is spaces on one side. */
  ghost predicate InField(text: seq<char>, shown: seq<char>, width: nat, left: bool) {
    && |text| == (if width > |shown| then width else |shown|)
    && (if left then text[..|shown|] == shown && forall k :: |shown| <= k < |text| ==> text[k] == ' '
        else text[|text| - |shown|..] == shown && forall k :: 0 <= k < |text| - |shown| ==> text[k] == ' ')
  }

  lemma CharInField(s: Spec, c: char)
    ensures InField(CharText(s, c), [c], s.width, s.flags.left)
  {
  }

  lemma StrInField(s: Spec, t: seq<char>)
    ensures InField(StrText(s, t), if s.flags.precision && s.prec < |t| then t[..s.prec] else t, s.width, s.flags.left)
  {
  }

  /** A field determines its text. */
  lemma FieldUnique(a: seq<char>, b: seq<char>, shown: seq<char>, width: nat, left: bool)
    requires InField(a, shown, width, left) && InField(b, shown, width, left)
    ensures a == b
  {
    if left {
      assert a == a[..|shown|] + a[|shown|..] && b == b[..|shown|] + b[|shown|..];
    } else {
      var k := |a| - |shown|;
      assert a == a[..k] + a[k..] && b == b[..k] + b[k..];
    }
  }
}
