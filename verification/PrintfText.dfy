/** What the integer conversions of printf produce, as text
    (solutions/d1_flashelf/libc/stdio2/printf.c). */
module PrintfText {

  const NTOA_BUFFER: nat := 32  // PRINTF_NTOA_BUFFER_SIZE

  datatype Flags = Flags(zeropad: bool, left: bool, plus: bool, space: bool, hash: bool,
                         uppercase: bool, precision: bool)

  const NO_FLAGS := Flags(false, false, false, false, false, false, false)

  function Fill(c: char, n: int): (s: seq<char>)
    ensures |s| == if n > 0 then n else 0
    ensures forall i :: 0 <= i < |s| ==> s[i] == c
  {
    seq(if n > 0 then n else 0, _ => c)
  }

  function Reverse(s: seq<char>): (r: seq<char>)
    ensures |r| == |s|
    ensures forall i :: 0 <= i < |s| ==> r[i] == s[|s| - 1 - i]
  {
    seq(|s|, i requires 0 <= i < |s| => s[|s| - 1 - i])
  }

  function DigitChar(d: nat, uppercase: bool): (c: char)
    requires d < 16
    ensures c != '\0' && c != '-' && c != '+' && c != ' '
  {
    if d < 10 then ('0' as int + d) as char
    else ((if uppercase then 'A' else 'a') as int + d - 10) as char
  }

  predicate Base(b: nat) { 2 <= b <= 16 }

  /** The digits of a value, least significant first, at most `room` of them. */
  function LowDigits(value: nat, base: nat, uppercase: bool, room: nat): (s: seq<char>)
    requires Base(base) && room >= 1
    ensures 1 <= |s| <= room
    decreases room
  {
    [DigitChar(value % base, uppercase)] +
    if value / base != 0 && room > 1 then LowDigits(value / base, base, uppercase, room - 1) else []
  }

  /** What the digit loop still adds once `value` remains and `room` characters are left. */
  function MoreDigits(value: nat, base: nat, uppercase: bool, room: nat): seq<char>
    requires Base(base)
  {
    if value != 0 && room > 0 then LowDigits(value, base, uppercase, room) else []
  }

  lemma MoreIs(value: nat, base: nat, uppercase: bool, room: nat)
    requires Base(base)
    ensures MoreDigits(value, base, uppercase, room)
            == if value != 0 && room > 0 then LowDigits(value, base, uppercase, room) else []
  {
  }

  function LastDigit(value: nat, base: nat, uppercase: bool): char
    requires Base(base)
  {
    DigitChar(value % base, uppercase)
  }

  function Shifted(value: nat, base: nat): nat
    requires Base(base)
  {
    value / base
  }

  lemma DigitStep(value: nat, base: nat, uppercase: bool, room: nat)
    requires Base(base) && room >= 1
    ensures LowDigits(value, base, uppercase, room)
            == [LastDigit(value, base, uppercase)] + MoreDigits(Shifted(value, base), base, uppercase, room - 1)
  {
  }

  function ZeroPad(b: seq<char>, n: nat): (s: seq<char>)
    requires |b| <= NTOA_BUFFER
    ensures |b| <= |s| <= NTOA_BUFFER
  {
    b + Fill('0', (if n < NTOA_BUFFER then n else NTOA_BUFFER) - |b|)
  }

  /** The width that zero padding aims at: a sign takes one column. */
  function PadWidth(negative: bool, width: nat, flags: Flags): nat {
    if !flags.left && width > 0 && flags.zeropad && (negative || flags.plus || flags.space) then width - 1 else width
  }

  function PaddedDigits(digits: seq<char>, negative: bool, prec: nat, width: nat, flags: Flags): (s: seq<char>)
    requires |digits| <= NTOA_BUFFER
    ensures |digits| <= |s| <= NTOA_BUFFER
  {
    if flags.left then digits else
      var p := ZeroPad(digits, prec);
      if flags.zeropad then ZeroPad(p, PadWidth(negative, width, flags)) else p
  }

  /** One more character if the conversion buffer has room. */
  function Add(b: seq<char>, c: char): (s: seq<char>)
    requires |b| <= NTOA_BUFFER
    ensures |b| <= |s| <= NTOA_BUFFER
  {
    if |b| < NTOA_BUFFER then b + [c] else b
  }

  /** The '#' flag: make room in padding that the prefix replaces, then add the prefix. */
  function HashPrefix(b: seq<char>, base: nat, prec: nat, width: nat, flags: Flags): (s: seq<char>)
    requires |b| <= NTOA_BUFFER
    ensures |s| <= NTOA_BUFFER
  {
    if !flags.hash then b else
      var n := if !flags.precision && |b| > 0 && (|b| == prec || |b| == width)
               then (if |b| > 1 && base == 16 then |b| - 2 else |b| - 1) else |b|;
      var c := b[..n];
      var d := if base == 16 then Add(c, if flags.uppercase then 'X' else 'x')
               else if base == 2 then Add(c, 'b') else c;
      Add(d, '0')
  }

  function SignOf(negative: bool, flags: Flags): seq<char> {
    if negative then ['-'] else if flags.plus then ['+'] else if flags.space then [' '] else []
  }

  function WithSign(b: seq<char>, negative: bool, flags: Flags): (s: seq<char>)
    requires |b| <= NTOA_BUFFER
    ensures |b| <= |s| <= NTOA_BUFFER
  {
    if |b| < NTOA_BUFFER then b + SignOf(negative, flags) else b
  }

  /** _out_rev: the buffer in reverse, padded with spaces on one side. */
  function OutRev(b: seq<char>, width: nat, flags: Flags): seq<char> {
    (if flags.left || flags.zeropad then [] else Fill(' ', width - |b|))
    + Reverse(b)
    + (if flags.left then Fill(' ', width - |b|) else [])
  }

  /** _ntoa_format on the digits found so far. */
  function NtoaFormat(digits: seq<char>, negative: bool, base: nat, prec: nat, width: nat, flags: Flags): seq<char>
    requires |digits| <= NTOA_BUFFER
  {
    var w := PadWidth(negative, width, flags);
    OutRev(WithSign(HashPrefix(PaddedDigits(digits, negative, prec, width, flags), base, prec, w, flags), negative, flags),
           w, flags)
  }

  /** The digits put in the buffer; none for value 0 with an explicit precision. */
  function ValueDigits(value: nat, base: nat, flags: Flags): (s: seq<char>)
    requires Base(base)
    ensures |s| <= NTOA_BUFFER
  {
    if !flags.precision || value != 0 then LowDigits(value, base, flags.uppercase, NTOA_BUFFER) else []
  }

  /** _ntoa_long and _ntoa_long_long, which share one text. */
  function Ntoa(value: nat, negative: bool, base: nat, prec: nat, width: nat, flags: Flags): seq<char>
    requires Base(base)
  {
    NtoaFormat(ValueDigits(value, base, flags), negative, base, prec, width,
               flags.(hash := flags.hash && value != 0))
  }
}
