/** The format interpreter _vsnprintf of solutions/d1_flashelf/libc/stdio2/printf.c, its loops and
    its truncating output. */
module PrintfCode {
  import opened PrintfText
  import opened PrintfInts
  import opened PrintfFormat
  import opened PrintfRoundTrip
  import opened PrintfDirective

  /** The loop over the flag characters. */
  method EvalFlags(fmt: seq<char>, from: nat) returns (flags: Flags, i: nat)
    ensures (flags, i) == ParseFlags(fmt, from, NO_FLAGS)
  {
    flags, i := NO_FLAGS, from;
    while i < |fmt| && IsFlag(fmt[i])
      invariant from <= i
      invariant ParseFlags(fmt, i, flags) == ParseFlags(fmt, from, NO_FLAGS)
      decreases |fmt| - i
    {
      flags := AddFlag(flags, fmt[i]);
      i := i + 1;
    }
  }

  /** _atoi: the number written by the longest run of digits, modulo 2^32 */
  method Atoi(fmt: seq<char>, from: nat) returns (n: nat, i: nat)
    ensures (n, i) == ParseNumber(fmt, from, 0)
    ensures from <= |fmt| ==> DigitRun(fmt, from, i) && n == ReadDigits(fmt[from..], 10, 0) % UINT_MODULUS
  {
    hide ReadDigits;
    if from <= |fmt| { NumberRead(fmt, from, 0); }
    n, i := 0, from;
    while i < |fmt| && Digit(fmt[i])
      invariant from <= i
      invariant ParseNumber(fmt, i, n) == ParseNumber(fmt, from, 0)
      decreases |fmt| - i
    {
      n := (n * 10 + (fmt[i] as int - '0' as int)) % UINT_MODULUS;
      i := i + 1;
    }
  }

  /** _strnlen_s on a string without terminator inside; `bound` is unlimited when absent. */
  method StrLen(s: seq<char>, bounded: bool, bound: nat) returns (l: nat)
    ensures l == if bounded && bound < |s| then bound else |s|
  {
    l := 0;
    while l < |s| && (!bounded || l < bound)
      invariant l <= |s| && (bounded ==> l <= bound || l == 0)
    {
      l := l + 1;
    }
  }

  /** The width field. */
  method EvalWidth(fmt: seq<char>, f: Fields) returns (r: Fields)
    ensures r == ParseWidth(fmt, f)
  {
    hide ParseNumber;
    r := f;
    if Digit(At(fmt, f.at)) {
      var n, j := Atoi(fmt, f.at);
      r := f.(width := n, at := j);
    } else if At(fmt, f.at) == '*' {
      var w := StarArg(f.args);
      if w < 0 {
        r := r.(flags := r.flags.(left := true), width := -w);
      } else {
        r := r.(width := w);
      }
      r := r.(at := r.at + 1, args := Tail(r.args));
    }
  }

  /** The precision field. */
  method EvalPrecision(fmt: seq<char>, f: Fields) returns (r: Fields)
    ensures r == ParsePrecision(fmt, f)
  {
    hide ParseNumber;
    r := f;
    if At(fmt, f.at) == '.' {
      r := r.(flags := r.flags.(precision := true), at := r.at + 1);
      if Digit(At(fmt, r.at)) {
        var n, j := Atoi(fmt, r.at);
        r := r.(prec := n, at := j);
      } else if At(fmt, r.at) == '*' {
        var p := StarArg(r.args);
        r := r.(prec := if p > 0 then p else 0, at := r.at + 1, args := Tail(r.args));
      }
    }
  }

  /** From the flags to the conversion character: a directive as it is written yields what it
      means. */
  method EvalSpec(fmt: seq<char>, from: nat, args: seq<Arg>) returns (s: Spec, i: nat, rest: seq<Arg>)
    ensures (s, i, rest) == ParseSpec(fmt, from, args)
    ensures forall d :: Writable(d) && Holds(fmt, from, DirectiveText(d)) ==>
              (s, rest) == Meaning(d, args) && i == from + |DirectiveText(d)| - 1
  {
    hide ParseFlags, ParseWidth, ParsePrecision, ParseSize, Writable, Holds, DirectiveText, Meaning;
    forall d | Writable(d) && Holds(fmt, from, DirectiveText(d))
      ensures ParseSpec(fmt, from, args) == (Meaning(d, args).0, from + |DirectiveText(d)| - 1, Meaning(d, args).1)
    {
      DirectiveParsed(fmt, from, d, args);
    }
    var flags, j := EvalFlags(fmt, from);
    var f := EvalWidth(fmt, Fields(flags, 0, 0, j, args));
    f := EvalPrecision(fmt, f);
    var (size, k) := ParseSize(fmt, f.at);
    s, i, rest := Spec(f.flags, f.width, f.prec, size, At(fmt, k)), k, f.args;
  }

  method EmitInt(sink: Sink, from: nat, s: Spec, v: int) returns (idx: nat)
    requires sink.Valid() && from == |sink.text| && Integer(s.conv)
    modifies sink, sink.buffer
    ensures sink.Valid() && idx == |sink.text|
    ensures sink.text == old(sink.text) + IntText(s, v)
  {
    hide Ntoa, Narrow;
    var flags, base := IntRequest(s);
    var value := Narrow(v, s.size, Signed(s.conv));
    idx := NtoaTo(sink, from, if value > 0 then value else 0 - value, value < 0, base, s.prec, s.width, flags);
  }

  method BaseFor(conv: char) returns (base: nat)
    ensures base == BaseOf(conv)
  {
    if conv == 'x' || conv == 'X' {
      base := 16;
    } else if conv == 'o' {
      base := 8;
    } else if conv == 'b' {
      base := 2;
    } else {
      base := 10;
    }
  }

  /** Base and flags of an integer conversion. */
  method IntRequest(s: Spec) returns (flags: Flags, base: nat)
    ensures flags == IntFlags(s) && base == BaseOf(s.conv)
  {
    flags := s.flags.(uppercase := false);
    base := BaseFor(s.conv);
    if base == 10 {
      flags := flags.(hash := false);
    }
    if s.conv == 'X' {
      flags := flags.(uppercase := true);
    }
    if s.conv != 'i' && s.conv != 'd' {
      flags := flags.(plus := false, space := false);
    }
    if flags.precision {
      flags := flags.(zeropad := false);
    }
  }

  method EmitChar(sink: Sink, from: nat, s: Spec, c: char) returns (idx: nat)
    requires sink.Valid() && from == |sink.text|
    modifies sink, sink.buffer
    ensures sink.Valid() && idx == |sink.text|
    ensures sink.text == old(sink.text) + CharText(s, c)
  {
    idx := from;
    if !s.flags.left {
      idx := sink.Pad(' ', idx, s.width - 1);
    }
    sink.Put(c, idx);
    idx := idx + 1;
    if s.flags.left {
      idx := sink.Pad(' ', idx, s.width - 1);
    }
  }

  method EmitStr(sink: Sink, from: nat, s: Spec, t: seq<char>) returns (idx: nat)
    requires sink.Valid() && from == |sink.text| && (s.flags.precision || s.prec == 0)
    modifies sink, sink.buffer
    ensures sink.Valid() && idx == |sink.text|
    ensures sink.text == old(sink.text) + StrText(s, t)
  {
    hide Written;
    idx := from;
    ghost var t0 := sink.text;
    var l := StrLen(t, s.prec != 0, s.prec);
    if s.flags.precision {
      l := if l < s.prec then l else s.prec;
    }
    var pad := s.width - l;
    if !s.flags.left {
      idx := sink.Pad(' ', idx, pad);
    }
    idx := EmitShown(sink, idx, t, s.flags.precision, s.prec);
    if s.flags.left {
      idx := sink.Pad(' ', idx, pad);
    }
    StrPieces(t0, s, t);
  }

  /** The loop of %s over the characters. */
  method EmitShown(sink: Sink, from: nat, t: seq<char>, bounded: bool, bound: nat) returns (idx: nat)
    requires sink.Valid() && from == |sink.text|
    modifies sink, sink.buffer
    ensures sink.Valid() && idx == |sink.text|
    ensures sink.text == old(sink.text) + if bounded && bound < |t| then t[..bound] else t
  {
    hide Written;
    idx := from;
    ghost var t0 := sink.text;
    var p, precision := 0, bound;
    while p < |t| && (!bounded || precision > 0)
      invariant p <= |t| && sink.Valid() && idx == |sink.text|
      invariant bounded ==> precision + p == bound && p <= bound
      invariant sink.text == t0 + t[..p]
      decreases |t| - p
    {
      sink.Put(t[p], idx);
      idx := idx + 1;
      p := p + 1;
      precision := precision - 1;
    }
    assert t[..|t|] == t;
  }

  lemma StrPieces(t0: seq<char>, s: Spec, t: seq<char>)
    ensures var shown := if s.flags.precision && s.prec < |t| then t[..s.prec] else t;
            var pad := Fill(' ', s.width - |shown|);
            t0 + StrText(s, t) == if s.flags.left then (t0 + shown) + pad else (t0 + pad) + shown
  {
  }

  method EmitPtr(sink: Sink, from: nat, s: Spec, a: nat) returns (idx: nat)
    requires sink.Valid() && from == |sink.text|
    modifies sink, sink.buffer
    ensures sink.Valid() && idx == |sink.text|
    ensures sink.text == old(sink.text) + PtrText(s, a)
  {
    hide Ntoa;
    var flags := s.flags.(zeropad := true, uppercase := true);
    idx := NtoaTo(sink, from, a, false, 16, s.prec, ADDRESS_DIGITS, flags);
  }

  /** The conversion a directive ends with. */
  method Emit(sink: Sink, from: nat, s: Spec, args: seq<Arg>) returns (idx: nat, rest: seq<Arg>)
    requires sink.Valid() && from == |sink.text| && (s.flags.precision || s.prec == 0)
    requires ArgFits(s, args)
    modifies sink, sink.buffer
    ensures sink.Valid() && idx == |sink.text|
    ensures sink.text == old(sink.text) + ConvText(s, args) && rest == ConvRest(s, args)
  {
    rest := args;
    if Integer(s.conv) {
      idx := EmitInt(sink, from, s, args[0].v);
      rest := Tail(args);
    } else if s.conv == 'c' {
      idx := EmitChar(sink, from, s, args[0].c);
      rest := Tail(args);
    } else if s.conv == 's' {
      idx := EmitStr(sink, from, s, args[0].s);
      rest := Tail(args);
    } else if s.conv == 'p' {
      idx := EmitPtr(sink, from, s, args[0].a);
      rest := Tail(args);
    } else {
      sink.Put(s.conv, from);
      idx := from + 1;
    }
  }

  /** The loop of _vsnprintf over the format. */
  method Interpret(sink: Sink, fmt: seq<char>, args: seq<Arg>) returns (idx: nat)
    requires sink.Valid() && sink.text == [] && WellFormed(fmt, 0, args)
    modifies sink, sink.buffer
    ensures sink.Valid() && idx == |sink.text|
    ensures sink.text == Render(fmt, 0, args)
  {
    hide ParseSpec, ConvText, ConvRest, ArgFits, StarsFit, Render, WellFormed, Written;
    ghost var all := Render(fmt, 0, args);
    var i: nat := 0;
    var rest := args;
    idx := 0;
    while i < |fmt|
      invariant sink.Valid() && idx == |sink.text|
      invariant WellFormed(fmt, i, rest)
      invariant sink.text + Render(fmt, i, rest) == all
      decreases |fmt| - i
    {
      ghost var t := sink.text;
      if fmt[i] != '%' {
        RenderPlain(fmt, i, rest);
        sink.Put(fmt[i], idx);
        idx := idx + 1;
        i := i + 1;
      } else {
        idx, i, rest := EmitDirective(sink, idx, fmt, i, rest);
      }
    }
    RenderEnd(fmt, i, rest);
  }

  /** One directive: evaluate it, then convert. */
  method EmitDirective(sink: Sink, from: nat, fmt: seq<char>, i: nat, args: seq<Arg>)
    returns (idx: nat, i': nat, rest: seq<Arg>)
    requires sink.Valid() && from == |sink.text| && i < |fmt| && fmt[i] == '%' && WellFormed(fmt, i, args)
    modifies sink, sink.buffer
    ensures sink.Valid() && idx == |sink.text| && i < i' && WellFormed(fmt, i', rest)
    ensures sink.text + Render(fmt, i', rest) == old(sink.text) + Render(fmt, i, args)
  {
    hide ParseSpec, ConvText, ConvRest, ArgFits, StarsFit, Render, WellFormed, Written, Writable, Holds, Meaning;
    RenderDirective(fmt, i, args);
    ghost var t := sink.text;
    var s, j, rest1 := EvalSpec(fmt, i + 1, args);
    idx, rest := Emit(sink, from, s, rest1);
    i' := j + 1;
    assert t + (ConvText(s, rest1) + Render(fmt, i', rest)) == sink.text + Render(fmt, i', rest);
  }

  lemma RenderEnd(fmt: seq<char>, i: nat, args: seq<Arg>)
    requires i >= |fmt|
    ensures Render(fmt, i, args) == []
  {
  }

  lemma RenderPlain(fmt: seq<char>, i: nat, args: seq<Arg>)
    requires i < |fmt| && fmt[i] != '%' && WellFormed(fmt, i, args)
    ensures Render(fmt, i, args) == [fmt[i]] + Render(fmt, i + 1, args) && WellFormed(fmt, i + 1, args)
  {
  }

  lemma RenderDirective(fmt: seq<char>, i: nat, args: seq<Arg>)
    requires i < |fmt| && fmt[i] == '%' && WellFormed(fmt, i, args)
    ensures var (s, j, rest) := ParseSpec(fmt, i + 1, args);
            && i < j < |fmt| && (s.flags.precision || s.prec == 0) && ArgFits(s, rest)
            && Render(fmt, i, args) == ConvText(s, rest) + Render(fmt, j + 1, ConvRest(s, rest))
            && WellFormed(fmt, j + 1, ConvRest(s, rest))
  {
  }

  /** (int) of a size_t */
  function ToInt(n: nat): int {
    (n + 0x8000_0000) % 0x1_0000_0000 - 0x8000_0000
  }

  /** The result is the length itself up to the largest int, and never anything but it modulo 2^32. */
  lemma ToIntMeans(n: nat)
    ensures n < 0x8000_0000 ==> ToInt(n) == n
    ensures -0x8000_0000 <= ToInt(n) < 0x8000_0000 && (n - ToInt(n)) % 0x1_0000_0000 == 0
  {
  }

  /** snprintf and vsnprintf: the result does not depend on the buffer or its size, nothing beyond
      `count` characters is written, and the buffer holds the beginning of the whole output and a
      terminator. */
  method Snprintf(buffer: array?<char>, count: nat, fmt: seq<char>, args: seq<Arg>) returns (ret: int)
    requires buffer != null ==> count <= buffer.Length
    requires WellFormed(fmt, 0, args)
    modifies buffer
    ensures ret == ToInt(|Render(fmt, 0, args)|)
    ensures buffer != null && count == 0 ==> buffer[..] == old(buffer[..])
    ensures buffer != null && count > 0 ==>
              var text := Render(fmt, 0, args);
              var n := if |text| < count then |text| else count - 1;
              buffer[..] == text[..n] + ['\0'] + old(buffer[..])[n + 1..]
  {
    hide Render, WellFormed, Written;
    var sink := new Sink(buffer, count);
    var idx := Interpret(sink, fmt, args);
    var end := if idx < count then idx else count - 1;
    if buffer != null && 0 <= end < count {
      Terminated(sink.before, count, sink.text);
      buffer[end] := '\0';
    }
    if buffer != null && count == 0 {
      NothingWritten(sink.before, sink.text);
    }
    ret := ToInt(idx);
  }

  /** The buffer after the terminator is put at the end of what fits. */
  lemma Terminated(before: seq<char>, count: nat, text: seq<char>)
    requires 0 < count <= |before|
    ensures var n := if |text| < count then |text| else count - 1;
            Written(before, count, text)[n := '\0'] == text[..n] + ['\0'] + before[n + 1..]
  {
  }

  lemma NothingWritten(before: seq<char>, text: seq<char>)
    ensures Written(before, 0, text) == before
  {
  }
}
