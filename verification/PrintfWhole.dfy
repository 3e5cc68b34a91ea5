/** Whole formats: literal text and directives in any order, and everything _vsnprintf prints for
    them (solutions/d1_flashelf/libc/stdio2/printf.c). */
module PrintfWhole {
  import opened PrintfText
  import opened PrintfRoundTrip
  import opened PrintfFormat
  import opened PrintfDirective
  import opened PrintfStandard
  import opened PrintfReadBack

  datatype Item = Literal(text: seq<char>) | Use(d: Directive)

  function ItemText(item: Item): seq<char> {
    match item
    case Literal(t) => t
    case Use(d) => ['%'] + DirectiveText(d)
  }

  function FormatText(items: seq<Item>): seq<char> {
    if items == [] then [] else ItemText(items[0]) + FormatText(items[1..])
  }

  /** The number a length field leaves of an argument. */
  function Number(s: Spec, v: int): int {
    match s.size
    case Plain => v
    case Wide => v
    case Byte => v % 0x100
    case Short =>
      var low := v % 0x1_0000;
      if (s.conv == 'd' || s.conv == 'i') && low >= 0x8000 then low - 0x1_0000 else low
  }

  lemma NumberConverted(s: Spec, v: int)
    ensures Converted(s, v, Number(s, v))
  {
    match s.size
    case Plain =>
    case Wide =>
    case Byte => RemainderOf8(v);
    case Short => RemainderOf16(v);
  }

  lemma RemainderOf8(v: int)
    ensures (v % 0x100 - v) % 0x100 == 0
  {
    assert v % 0x100 - v == 0x100 * -(v / 0x100);
  }

  lemma RemainderOf16(v: int)
    ensures (v % 0x1_0000 - v) % 0x1_0000 == 0 && (v % 0x1_0000 - 0x1_0000 - v) % 0x1_0000 == 0
  {
    assert v % 0x1_0000 - v == 0x1_0000 * -(v / 0x1_0000);
    assert v % 0x1_0000 - 0x1_0000 - v == 0x1_0000 * (-(v / 0x1_0000) - 1);
  }

  function Field(shown: seq<char>, width: nat, left: bool): seq<char> {
    if left then shown + Fill(' ', width - |shown|) else Fill(' ', width - |shown|) + shown
  }

  /** The text asked for by a conversion that takes its argument from the front of args. */
  function Asks(s: Spec, args: seq<Arg>): seq<char> {
    match s.conv
    case 'c' => if args != [] && args[0].Ch? then Field([args[0].c], s.width, s.flags.left) else []
    case 's' =>
      if args != [] && args[0].Str? then
        var t := args[0].s;
        Field(if s.flags.precision && s.prec < |t| then t[..s.prec] else t, s.width, s.flags.left)
      else []
    case 'p' =>
      if args != [] && args[0].Ptr? then Standard(args[0].a, 16, true, NO_FLAGS.(zeropad := true), 16, 0) else []
    case 'd' => AsksInt(s, args)
    case 'i' => AsksInt(s, args)
    case 'u' => AsksInt(s, args)
    case 'o' => AsksInt(s, args)
    case 'x' => AsksInt(s, args)
    case 'X' => AsksInt(s, args)
    case 'b' => AsksInt(s, args)
    case c => [c]
  }

  function AsksInt(s: Spec, args: seq<Arg>): seq<char> {
    if args != [] && args[0].Int? then Expected(s, Number(s, args[0].v)) else []
  }

  function TakesArgument(conv: char): bool {
    conv in {'c', 's', 'p', 'd', 'i', 'u', 'o', 'x', 'X', 'b'}
  }

  function Left(d: Directive, args: seq<Arg>): seq<Arg> {
    var (s, rest) := Meaning(d, args);
    if TakesArgument(d.conv) && rest != [] then rest[1..] else rest
  }

  /** What one item asks for, and the arguments it leaves. */
  function First(item: Item, args: seq<Arg>): seq<char> {
    match item
    case Literal(t) => t
    case Use(d) => Asks(Meaning(d, args).0, Meaning(d, args).1)
  }

  function After(item: Item, args: seq<Arg>): seq<Arg> {
    match item
    case Literal(_) => args
    case Use(d) => Left(d, args)
  }

  /** What the items ask for, argument by argument. */
  function Output(items: seq<Item>, args: seq<Arg>): seq<char> {
    if items == [] then [] else First(items[0], args) + Output(items[1..], After(items[0], args))
  }

  function ArgsLeft(items: seq<Item>, args: seq<Arg>): seq<Arg> {
    if items == [] then args else ArgsLeft(items[1..], After(items[0], args))
  }

  /** The argument has the type the conversion needs, and an integer conversion conforms. */
  predicate ConversionOk(s: Spec, args: seq<Arg>) {
    if s.conv == 'c' then args != [] && args[0].Ch?
    else if s.conv == 's' then args != [] && args[0].Str?
    else if s.conv == 'p' then args != [] && args[0].Ptr? && args[0].a < 0x1_0000_0000_0000_0000 && s.flags == NO_FLAGS
    else if TakesArgument(s.conv) then
      && args != [] && args[0].Int? && InRange(s, args[0].v)
      && (s.flags.hash ==> Radix(s.conv) == 10)
      && Conforms(Number(s, args[0].v), Radix(s.conv), s.conv == 'X', Asked(s), s.width, s.prec)
    else true
  }

  predicate ItemOk(item: Item, args: seq<Arg>) {
    match item
    case Literal(t) => '%' !in t
    case Use(d) => Writable(d) && ConversionOk(Meaning(d, args).0, Meaning(d, args).1)
  }

  predicate ItemsOk(items: seq<Item>, args: seq<Arg>) {
    items == [] || (ItemOk(items[0], args) && ItemsOk(items[1..], After(items[0], args)))
  }

  // ---------------------------------------------------------------------------

  lemma FieldIs(shown: seq<char>, width: nat, left: bool)
    ensures InField(Field(shown, width, left), shown, width, left)
  {
  }

  lemma AddressExactly(s: Spec, a: nat)
    requires a < 0x1_0000_0000_0000_0000 && s.flags == NO_FLAGS && s.prec == 0
    ensures PtrText(s, a) == Standard(a, 16, true, NO_FLAGS.(zeropad := true), 16, 0)
  {
    hide Ntoa, Standard, Digits, Pow;
    FewDigits(a, 16, true);
    SameExactly(a, 16, true, NO_FLAGS.(zeropad := true), 16, 0);
  }

  /** A conversion that is in order prints what is asked for. */
  lemma ConversionExactly(s: Spec, args: seq<Arg>)
    requires ConversionOk(s, args) && (s.flags.precision || s.prec == 0)
    ensures ConvText(s, args) == Asks(s, args)
    ensures ConvRest(s, args) == if TakesArgument(s.conv) && args != [] then args[1..] else args
  {
    hide IntText, PtrText, CharText, StrText, Expected, Conforms, Field, Standard, InRange;
    if s.conv == 'c' {
      CharInField(s, args[0].c);
      FieldIs([args[0].c], s.width, s.flags.left);
      FieldUnique(CharText(s, args[0].c), Field([args[0].c], s.width, s.flags.left), [args[0].c], s.width, s.flags.left);
    } else if s.conv == 's' {
      var t := args[0].s;
      var shown := if s.flags.precision && s.prec < |t| then t[..s.prec] else t;
      StrInField(s, t);
      FieldIs(shown, s.width, s.flags.left);
      FieldUnique(StrText(s, t), Field(shown, s.width, s.flags.left), shown, s.width, s.flags.left);
    } else if s.conv == 'p' {
      AddressExactly(s, args[0].a);
    } else if Integer(s.conv) {
      NumberConverted(s, args[0].v);
      IntExactly(s, args[0].v, Number(s, args[0].v));
    }
  }

  /** Literal text is printed as it stands. */
  lemma {:induction false} LiteralRendered(fmt: seq<char>, i: nat, j: nat, args: seq<Arg>)
    requires i <= j <= |fmt| && forall k :: i <= k < j ==> fmt[k] != '%'
    ensures Render(fmt, i, args) == fmt[i..j] + Render(fmt, j, args)
    decreases j - i
  {
    hide Render;
    if i == j {
      assert [] + Render(fmt, i, args) == Render(fmt, i, args);
    } else {
      OneRendered(fmt, i, args);
      LiteralRendered(fmt, i + 1, j, args);
      assert fmt[i..j] == [fmt[i]] + fmt[i + 1..j];
      Together([fmt[i]], fmt[i + 1..j], Render(fmt, j, args));
    }
  }

  lemma OneRendered(fmt: seq<char>, i: nat, args: seq<Arg>)
    requires i < |fmt| && fmt[i] != '%'
    ensures Render(fmt, i, args) == [fmt[i]] + Render(fmt, i + 1, args)
  {
  }

  /** One item of a format is printed as asked. */
  lemma ItemRendered(item: Item, fmt: seq<char>, i: nat, args: seq<Arg>)
    requires Holds(fmt, i, ItemText(item)) && ItemOk(item, args)
    ensures Render(fmt, i, args) == First(item, args) + Render(fmt, i + |ItemText(item)|, After(item, args))
  {
    hide Render, DirectiveText, Meaning, ConversionOk, Asks, Left, Writable;
    match item
    case Literal(t) =>
      forall k | i <= k < i + |t| ensures fmt[k] != '%' {
        assert fmt[k] == fmt[i..i + |t|][k - i] && t[k - i] in t;
      }
      LiteralRendered(fmt, i, i + |t|, args);
    case Use(d) => UseRendered(d, fmt, i, args);
  }

  /** Everything a format prints: wherever these items stand in a format, the interpreter puts out
      what they ask for there and goes on behind them. */
  lemma {:induction false} ItemsRendered(items: seq<Item>, fmt: seq<char>, i: nat, args: seq<Arg>)
    requires Holds(fmt, i, FormatText(items)) && ItemsOk(items, args)
    ensures Render(fmt, i, args) == Output(items, args) + Render(fmt, i + |FormatText(items)|, ArgsLeft(items, args))
    decreases |items|
  {
    hide Render, Holds, ItemOk, First, After, ItemText;
    if items == [] {
      assert [] + Render(fmt, i, args) == Render(fmt, i, args);
    } else {
      var item, rest := items[0], items[1..];
      var j, left := i + |ItemText(item)|, After(item, args);
      HoldsParts(fmt, i, ItemText(item), FormatText(rest));
      ItemRendered(item, fmt, i, args);
      ItemsRendered(rest, fmt, j, left);
      Together(First(item, args), Output(rest, left), Render(fmt, j + |FormatText(rest)|, ArgsLeft(rest, left)));
    }
  }

  lemma Together(a: seq<char>, b: seq<char>, c: seq<char>)
    ensures a + (b + c) == (a + b) + c
  {
  }

  lemma UseRendered(d: Directive, fmt: seq<char>, i: nat, args: seq<Arg>)
    requires Holds(fmt, i, ['%'] + DirectiveText(d)) && Writable(d) && ConversionOk(Meaning(d, args).0, Meaning(d, args).1)
    ensures var (s, rest) := Meaning(d, args);
            Render(fmt, i, args) == Asks(s, rest) + Render(fmt, i + |['%'] + DirectiveText(d)|, Left(d, args))
  {
    hide Render, Holds, DirectiveText, ConversionOk, Asks, ConvText, ConvRest, Writable;
    DirectiveRendered(fmt, i, d, args);
    ConversionExactly(Meaning(d, args).0, Meaning(d, args).1);
  }

  /** A format made of items prints what its items ask for. */
  lemma WholeFormat(items: seq<Item>, args: seq<Arg>)
    requires ItemsOk(items, args)
    ensures Render(FormatText(items), 0, args) == Output(items, args)
  {
    hide Render, ItemsOk, Output, FormatText;
    var fmt := FormatText(items);
    assert fmt[0..0 + |fmt|] == fmt;
    ItemsRendered(items, fmt, 0, args);
    NothingRendered(fmt);
    assert Output(items, args) + [] == Output(items, args);
  }

  // ---------------------------------------------------------------------------
  // Such formats are ones the interpreter is called with.

  predicate StarOk(c: Count, args: seq<Arg>) {
    c.Star? ==> args != [] && args[0].Int? && -0x8000_0000 < args[0].v < 0x8000_0000
  }

  /** No terminator inside, no floating point, and arguments in the range of their C types. */
  predicate Callable(item: Item, args: seq<Arg>) {
    match item
    case Literal(t) => '\0' !in t
    case Use(d) =>
      var (s, rest) := Meaning(d, args);
      && d.conv != '\0' && !Unmodelled(d.conv)
      && StarOk(d.width, args) && StarOk(d.prec, CountRest(d.width, args))
      && (d.conv == 's' ==> rest != [] && rest[0].Str? && '\0' !in rest[0].s && |rest[0].s| < UINT_MODULUS)
  }

  predicate AllCallable(items: seq<Item>, args: seq<Arg>) {
    items == [] || (Callable(items[0], args) && AllCallable(items[1..], After(items[0], args)))
  }

  lemma StarsThere(fmt: seq<char>, i: nat, d: Directive, args: seq<Arg>)
    requires Writable(d) && Holds(fmt, i, DirectiveText(d))
    requires StarOk(d.width, args) && StarOk(d.prec, CountRest(d.width, args))
    ensures StarsFit(fmt, i, args)
  {
    hide ParseFlags, ParseWidth, ParsePrecision, FlagText, PrecText, LengthText, Holds, Digit, IsFlag, At, Writable,
         DirectiveText, CountOk, AddFlags, Numeral, StarOk, CountText, CountRest, CountValue;
    Layout(fmt, i, d);
    FlagTextMeans(d);
    var i1 := i + |FlagText(d)|;
    FlagsParsed(fmt, i, FlagText(d), NO_FLAGS);
    var f := Fields(AddFlags(NO_FLAGS, FlagText(d)), 0, 0, i1, args);
    WidthParsed(fmt, f, d.width);
    StarSeen(fmt, i1, d.width, args);
    DotSeen(fmt, i1 + |CountText(d.width)|, d.prec, CountRest(d.width, args));
  }

  /** A star in the format is a star of the directive. */
  lemma StarSeen(fmt: seq<char>, i: nat, c: Count, args: seq<Arg>)
    requires CountOk(c) && Holds(fmt, i, CountText(c)) && StarOk(c, args) && (c.Absent? ==> At(fmt, i) != '*')
    ensures StarFits(fmt, i, args)
  {
    if c.Given? {
      NumeralShape(c.n);
      HeadAt(fmt, i, Numeral(c.n));
    }
  }

  lemma DotSeen(fmt: seq<char>, i: nat, c: Count, args: seq<Arg>)
    requires CountOk(c) && Holds(fmt, i, PrecText(c)) && StarOk(c, args) && (c.Absent? ==> At(fmt, i) != '.')
    ensures At(fmt, i) == '.' ==> StarFits(fmt, i + 1, args)
  {
    hide Holds, At, StarFits;
    if !c.Absent? {
      HoldsParts(fmt, i, ['.'], CountText(c));
      StarSeen(fmt, i + 1, c, args);
    }
  }

  lemma FitsArguments(s: Spec, args: seq<Arg>)
    requires ConversionOk(s, args)
    requires s.conv == 's' ==> args != [] && args[0].Str? && '\0' !in args[0].s && |args[0].s| < UINT_MODULUS
    ensures ArgFits(s, args)
  {
    hide Conforms;
  }

  lemma UseWellFormed(d: Directive, fmt: seq<char>, i: nat, args: seq<Arg>)
    requires Holds(fmt, i, ['%'] + DirectiveText(d)) && ItemOk(Use(d), args) && Callable(Use(d), args)
    requires WellFormed(fmt, i + |['%'] + DirectiveText(d)|, Left(d, args))
    ensures WellFormed(fmt, i, args)
  {
    hide ParseSpec, ConvText, Writable, Holds, DirectiveText, Meaning, ConversionOk, ConvRest, ArgFits, StarsFit, StarOk;
    HoldsParts(fmt, i, ['%'], DirectiveText(d));
    HeadAt(fmt, i, ['%']);
    DirectiveParsed(fmt, i + 1, d, args);
    StarsThere(fmt, i + 1, d, args);
    var (s, rest) := Meaning(d, args);
    MeaningIs(d, args);
    FitsArguments(s, rest);
    ConversionExactly(s, rest);
    EndInside(fmt, i + 1, d);
  }

  lemma MeaningIs(d: Directive, args: seq<Arg>)
    ensures Meaning(d, args).0.conv == d.conv
    ensures Meaning(d, args).0.flags.precision || Meaning(d, args).0.prec == 0
  {
  }

  lemma EndInside(fmt: seq<char>, i: nat, d: Directive)
    requires Holds(fmt, i, DirectiveText(d))
    ensures i + |DirectiveText(d)| <= |fmt| && |DirectiveText(d)| >= 1
  {
    hide FlagText, CountText, PrecText, LengthText;
  }

  lemma {:induction false} LiteralWellFormed(fmt: seq<char>, i: nat, j: nat, args: seq<Arg>)
    requires i <= j <= |fmt| && forall k :: i <= k < j ==> fmt[k] != '%' && fmt[k] != '\0'
    requires WellFormed(fmt, j, args)
    ensures WellFormed(fmt, i, args)
    decreases j - i
  {
    if i < j {
      hide WellFormed;
      LiteralWellFormed(fmt, i + 1, j, args);
      OneWellFormed(fmt, i, args);
    }
  }

  lemma OneWellFormed(fmt: seq<char>, i: nat, args: seq<Arg>)
    requires i < |fmt| && fmt[i] != '%' && fmt[i] != '\0' && WellFormed(fmt, i + 1, args)
    ensures WellFormed(fmt, i, args)
  {
  }

  lemma {:induction false} ItemsWellFormed(items: seq<Item>, fmt: seq<char>, i: nat, args: seq<Arg>)
    requires Holds(fmt, i, FormatText(items)) && ItemsOk(items, args) && AllCallable(items, args)
    requires WellFormed(fmt, i + |FormatText(items)|, ArgsLeft(items, args))
    ensures WellFormed(fmt, i, args)
    decreases |items|
  {
    hide WellFormed, Holds, ItemOk, After, ItemText, Callable;
    if items != [] {
      var item, rest := items[0], items[1..];
      HoldsParts(fmt, i, ItemText(item), FormatText(rest));
      ItemsWellFormed(rest, fmt, i + |ItemText(item)|, After(item, args));
      ItemWellFormed(item, fmt, i, args);
    }
  }

  lemma ItemWellFormed(item: Item, fmt: seq<char>, i: nat, args: seq<Arg>)
    requires Holds(fmt, i, ItemText(item)) && ItemOk(item, args) && Callable(item, args)
    requires WellFormed(fmt, i + |ItemText(item)|, After(item, args))
    ensures WellFormed(fmt, i, args)
  {
    hide WellFormed, DirectiveText, Meaning, ConversionOk, Left, Writable, StarOk;
    match item
    case Literal(t) =>
      forall k | i <= k < i + |t| ensures fmt[k] != '%' && fmt[k] != '\0' {
        assert fmt[k] == fmt[i..i + |t|][k - i] && t[k - i] in t;
      }
      LiteralWellFormed(fmt, i, i + |t|, args);
    case Use(d) => UseWellFormed(d, fmt, i, args);
  }

  /** The interpreter may be called with every such format. */
  lemma WholeWellFormed(items: seq<Item>, args: seq<Arg>)
    requires ItemsOk(items, args) && AllCallable(items, args)
    ensures WellFormed(FormatText(items), 0, args)
  {
    hide ItemsOk, AllCallable, FormatText, ArgsLeft;
    var fmt := FormatText(items);
    assert fmt[0..0 + |fmt|] == fmt;
    ItemsWellFormed(items, fmt, 0, args);
  }
}
