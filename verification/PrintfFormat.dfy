/** What a format string asks for: its directives, its arguments and the whole output
    (_vsnprintf in solutions/d1_flashelf/libc/stdio2/printf.c). */
module PrintfFormat {
  import opened PrintfText

  const UINT_MODULUS: nat := 0x1_0000_0000
  const ADDRESS_DIGITS: nat := 16  // two for every byte of a pointer

  /** One variadic argument. A string stands for its characters up to the terminator. */
  datatype Arg = Int(v: int) | Ch(c: char) | Str(s: seq<char>) | Ptr(a: nat)

  /** The length field on LP64: l, ll, t, j and z all mean 64 bits. */
  datatype Size = Plain | Short | Byte | Wide

  datatype Spec = Spec(flags: Flags, width: nat, prec: nat, size: Size, conv: char)

  /** *format; the terminator stands behind the last character. */
  function At(fmt: seq<char>, i: nat): char {
    if i < |fmt| then fmt[i] else '\0'
  }

  predicate Digit(c: char) { '0' <= c <= '9' }

  // ---------------------------------------------------------------------------
  // Fields of a directive.

  predicate IsFlag(c: char) { c == '0' || c == '-' || c == '+' || c == ' ' || c == '#' }

  function AddFlag(f: Flags, c: char): Flags {
    match c
    case '0' => f.(zeropad := true)
    case '-' => f.(left := true)
    case '+' => f.(plus := true)
    case ' ' => f.(space := true)
    case '#' => f.(hash := true)
    case _ => f
  }

  function ParseFlags(fmt: seq<char>, i: nat, f: Flags): (r: (Flags, nat))
    ensures i <= r.1 && (i <= |fmt| ==> r.1 <= |fmt|)
    decreases |fmt| - i
  {
    if i < |fmt| && IsFlag(fmt[i]) then ParseFlags(fmt, i + 1, AddFlag(f, fmt[i])) else (f, i)
  }

  /** _atoi, in 32-bit unsigned arithmetic */
  function ParseNumber(fmt: seq<char>, i: nat, acc: nat): (r: (nat, nat))
    ensures i <= r.1 && (i <= |fmt| ==> r.1 <= |fmt|)
    decreases |fmt| - i
  {
    if i < |fmt| && Digit(fmt[i])
    then ParseNumber(fmt, i + 1, (acc * 10 + (fmt[i] as int - '0' as int)) % UINT_MODULUS)
    else (acc, i)
  }

  function StarArg(args: seq<Arg>): int {
    if args != [] && args[0].Int? then args[0].v else 0
  }

  function Tail(args: seq<Arg>): seq<Arg> {
    if args != [] then args[1..] else args
  }

  datatype Fields = Fields(flags: Flags, width: nat, prec: nat, at: nat, args: seq<Arg>)

  /** A negative argument for '*' means '-' and its absolute value. */
  function ParseWidth(fmt: seq<char>, f: Fields): (r: Fields)
    ensures r.prec == f.prec
    ensures f.at <= r.at && (f.at <= |fmt| ==> r.at <= |fmt|)
  {
    if Digit(At(fmt, f.at)) then
      var (n, j) := ParseNumber(fmt, f.at, 0);
      f.(width := n, at := j)
    else if At(fmt, f.at) == '*' then
      var w := StarArg(f.args);
      f.(flags := if w < 0 then f.flags.(left := true) else f.flags,
         width := if w < 0 then -w else w, at := f.at + 1, args := Tail(f.args))
    else f
  }

  function ParsePrecision(fmt: seq<char>, f: Fields): (r: Fields)
    ensures r.flags.precision || r.prec == f.prec
    ensures f.at <= r.at && (f.at <= |fmt| ==> r.at <= |fmt|)
  {
    if At(fmt, f.at) != '.' then f else
      var g := f.(flags := f.flags.(precision := true), at := f.at + 1);
      if Digit(At(fmt, g.at)) then
        var (n, j) := ParseNumber(fmt, g.at, 0);
        g.(prec := n, at := j)
      else if At(fmt, g.at) == '*' then
        var p := StarArg(g.args);
        g.(prec := if p > 0 then p else 0, at := g.at + 1, args := Tail(g.args))
      else g
  }

  function ParseSize(fmt: seq<char>, i: nat): (r: (Size, nat))
    ensures i <= r.1 && (i <= |fmt| ==> r.1 <= |fmt|)
  {
    match At(fmt, i)
    case 'l' => (Wide, if At(fmt, i + 1) == 'l' then i + 2 else i + 1)
    case 'h' => if At(fmt, i + 1) == 'h' then (Byte, i + 2) else (Short, i + 1)
    case 't' => (Wide, i + 1)
    case 'j' => (Wide, i + 1)
    case 'z' => (Wide, i + 1)
    case _ => (Plain, i)
  }

  /** The directive whose fields start at i, the position of its conversion character and the
      arguments left. */
  function ParseSpec(fmt: seq<char>, i: nat, args: seq<Arg>): (r: (Spec, nat, seq<Arg>))
    ensures r.0.flags.precision || r.0.prec == 0
    ensures i <= r.1 && (i <= |fmt| ==> r.1 <= |fmt|)
  {
    var (flags, j) := ParseFlags(fmt, i, NO_FLAGS);
    var f := ParsePrecision(fmt, ParseWidth(fmt, Fields(flags, 0, 0, j, args)));
    var (size, k) := ParseSize(fmt, f.at);
    (Spec(f.flags, f.width, f.prec, size, At(fmt, k)), k, f.args)
  }

  // ---------------------------------------------------------------------------
  // Conversions.

  predicate Signed(c: char) { c == 'd' || c == 'i' }

  predicate Integer(c: char) {
    Signed(c) || c == 'u' || c == 'x' || c == 'X' || c == 'o' || c == 'b'
  }

  function BaseOf(c: char): (b: nat)
    ensures Base(b)
  {
    if c == 'x' || c == 'X' then 16 else if c == 'o' then 8 else if c == 'b' then 2 else 10
  }

  function IntFlags(s: Spec): Flags {
    var decimal := BaseOf(s.conv) == 10;
    Flags(s.flags.zeropad && !s.flags.precision, s.flags.left,
          s.flags.plus && Signed(s.conv), s.flags.space && Signed(s.conv),
          s.flags.hash && !decimal, s.conv == 'X', s.flags.precision)
  }

  /** The casts of the source; char is unsigned on this target. */
  function Narrow(v: int, size: Size, signed: bool): int {
    match size
    case Byte => v % 0x100
    case Short => if signed then (v + 0x8000) % 0x1_0000 - 0x8000 else v % 0x1_0000
    case Plain => v
    case Wide => v
  }

  function Abs(v: int): nat { if v < 0 then -v else v }

  function IntText(s: Spec, v: int): seq<char> {
    var n := Narrow(v, s.size, Signed(s.conv));
    Ntoa(Abs(n), n < 0, BaseOf(s.conv), s.prec, s.width, IntFlags(s))
  }

  /** %c: one character in its field. */
  function CharText(s: Spec, c: char): seq<char> {
    if s.flags.left then [c] + Fill(' ', s.width - 1) else Fill(' ', s.width - 1) + [c]
  }

  /** %s: as much of the string as the precision allows, in its field. */
  function StrText(s: Spec, t: seq<char>): seq<char> {
    var shown := if s.flags.precision && s.prec < |t| then t[..s.prec] else t;
    if s.flags.left then shown + Fill(' ', s.width - |shown|) else Fill(' ', s.width - |shown|) + shown
  }

  /** %p: sixteen hexadecimal digits in upper case, whatever width the directive has. */
  function PtrText(s: Spec, a: nat): seq<char> {
    Ntoa(a, false, 16, s.prec, ADDRESS_DIGITS, s.flags.(zeropad := true, uppercase := true))
  }

  function ConvText(s: Spec, args: seq<Arg>): seq<char> {
    if Integer(s.conv) then (if args != [] && args[0].Int? then IntText(s, args[0].v) else [])
    else if s.conv == 'c' then (if args != [] && args[0].Ch? then CharText(s, args[0].c) else [])
    else if s.conv == 's' then (if args != [] && args[0].Str? then StrText(s, args[0].s) else [])
    else if s.conv == 'p' then (if args != [] && args[0].Ptr? then PtrText(s, args[0].a) else [])
    else [s.conv]
  }

  function ConvRest(s: Spec, args: seq<Arg>): seq<Arg> {
    if Integer(s.conv) || s.conv == 'c' || s.conv == 's' || s.conv == 'p' then Tail(args) else args
  }

  // ---------------------------------------------------------------------------
  // Whole formats.

  /** Everything the format produces, without any bound. */
  function Render(fmt: seq<char>, i: nat, args: seq<Arg>): seq<char>
    decreases |fmt| - i
  {
    if i >= |fmt| then []
    else if fmt[i] != '%' then [fmt[i]] + Render(fmt, i + 1, args)
    else
      var (s, j, rest) := ParseSpec(fmt, i + 1, args);
      ConvText(s, rest) + Render(fmt, j + 1, ConvRest(s, rest))
  }

  /** Conversions outside this model: floating point. */
  predicate Unmodelled(c: char) {
    c == 'f' || c == 'F' || c == 'e' || c == 'E' || c == 'g' || c == 'G'
  }

  /** The argument a conversion takes has the type C requires; the least value of a signed type is
      excluded because negating it is undefined. */
  predicate ArgFits(s: Spec, args: seq<Arg>) {
    if Signed(s.conv) then
      && args != [] && args[0].Int?
      && (if s.size == Wide then -0x8000_0000_0000_0000 < args[0].v < 0x8000_0000_0000_0000
          else -0x8000_0000 < args[0].v < 0x8000_0000)
    else if Integer(s.conv) then
      && args != [] && args[0].Int?
      && 0 <= args[0].v < (if s.size == Wide then 0x1_0000_0000_0000_0000 else UINT_MODULUS)
    else if s.conv == 'c' then args != [] && args[0].Ch?
    else if s.conv == 's' then args != [] && args[0].Str? && '\0' !in args[0].s && |args[0].s| < UINT_MODULUS
    else if s.conv == 'p' then args != [] && args[0].Ptr? && args[0].a < 0x1_0000_0000_0000_0000
    else true
  }

  predicate StarFits(fmt: seq<char>, i: nat, args: seq<Arg>) {
    At(fmt, i) == '*' ==> args != [] && args[0].Int? && -0x8000_0000 < args[0].v < 0x8000_0000
  }

  /** The fields of the directive at i find the arguments they need. */
  predicate StarsFit(fmt: seq<char>, i: nat, args: seq<Arg>) {
    var (flags, j) := ParseFlags(fmt, i, NO_FLAGS);
    var f := ParseWidth(fmt, Fields(flags, 0, 0, j, args));
    StarFits(fmt, j, args) && (At(fmt, f.at) == '.' ==> StarFits(fmt, f.at + 1, f.args))
  }

  /** Every directive is complete, within this model, and finds arguments of the right type. */
  predicate WellFormed(fmt: seq<char>, i: nat, args: seq<Arg>)
    decreases |fmt| - i
  {
    if i >= |fmt| then true
    else if fmt[i] != '%' then fmt[i] != '\0' && WellFormed(fmt, i + 1, args)
    else
      var (s, j, rest) := ParseSpec(fmt, i + 1, args);
      && StarsFit(fmt, i + 1, args)
      && j < |fmt| && s.conv != '\0' && !Unmodelled(s.conv) && ArgFits(s, rest)
      && WellFormed(fmt, j + 1, ConvRest(s, rest))
  }
}
