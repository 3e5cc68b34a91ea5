/** The bounded output sink and the integer conversions of
    solutions/d1_flashelf/libc/stdio2/printf.c. */
module PrintfInts {
  import opened PrintfText

  /** The buffer once `text` was sent to it character by character from index 0. */
  function Written(before: seq<char>, maxlen: nat, text: seq<char>): (after: seq<char>)
    ensures |after| == |before|
  {
    seq(|before|, i requires 0 <= i < |before| => if i < maxlen && i < |text| then text[i] else before[i])
  }

  /** A destination buffer and its bound; without a buffer output is only counted. */
  class Sink {
    const buffer: array?<char>
    const maxlen: nat
    ghost const before: seq<char>
    ghost var text: seq<char>

    ghost predicate Valid()
      reads this, buffer
    {
      buffer != null ==>
        maxlen <= buffer.Length && |before| == buffer.Length && buffer[..] == Written(before, maxlen, text)
    }

    constructor (buffer: array?<char>, maxlen: nat)
      requires buffer != null ==> maxlen <= buffer.Length
      ensures Valid() && text == [] && this.buffer == buffer && this.maxlen == maxlen
      ensures buffer != null ==> before == buffer[..]
    {
      this.buffer, this.maxlen := buffer, maxlen;
      before := if buffer != null then buffer[..] else [];
      text := [];
    }

    /** out(c, buffer, idx, maxlen) for _out_buffer and _out_null */
    method Put(c: char, idx: nat)
      requires Valid() && idx == |text|
      modifies this, buffer
      ensures Valid() && text == old(text) + [c]
    {
      if buffer != null && idx < maxlen {
        buffer[idx] := c;
      }
      text := text + [c];
    }

    /** A loop that pads with one character. */
    method Pad(c: char, from: nat, n: int) returns (idx: nat)
      requires Valid() && from == |text|
      modifies this, buffer
      ensures Valid() && text == old(text) + Fill(c, n) && idx == |text|
    {
      idx := from;
      ghost var t := text;
      var i := 0;
      while i < n
        invariant Valid() && idx == |text|
        invariant i == 0 || i <= n
        invariant text == t + Fill(c, i)
      {
        Put(c, idx);
        assert Fill(c, i) + [c] == Fill(c, i + 1);
        idx := idx + 1;
        i := i + 1;
      }
    }
  }

  /** _out_rev */
  method EmitReversed(sink: Sink, from: nat, buf: array<char>, len: nat, width: nat, flags: Flags) returns (idx: nat)
    requires sink.Valid() && from == |sink.text| && buf != sink.buffer && len <= buf.Length
    modifies sink, sink.buffer
    ensures sink.Valid() && idx == |sink.text|
    ensures sink.text == old(sink.text) + OutRev(buf[..len], width, flags)
  {
    idx := from;
    ghost var t0, b := sink.text, buf[..len];
    if !flags.left && !flags.zeropad {
      idx := sink.Pad(' ', idx, width - len);
    }
    ghost var t1 := sink.text;
    var n := len;
    while n > 0
      invariant sink.Valid() && idx == |sink.text| && n <= len
      invariant buf[..len] == b
      invariant sink.text == t1 + Reverse(b)[..len - n]
    {
      n := n - 1;
      sink.Put(buf[n], idx);
      assert Reverse(b)[..len - n] == Reverse(b)[..len - n - 1] + [b[n]];
      idx := idx + 1;
    }
    assert Reverse(b)[..len] == Reverse(b);
    if flags.left {
      idx := sink.Pad(' ', idx, width - (idx - from));
    }
    EmitPieces(t0, b, width, flags);
  }

  lemma EmitPieces(t0: seq<char>, b: seq<char>, width: nat, flags: Flags)
    ensures var t1 := if flags.left || flags.zeropad then t0 else t0 + Fill(' ', width - |b|);
            var t2 := t1 + Reverse(b);
            t0 + OutRev(b, width, flags) == if flags.left then t2 + Fill(' ', width - |b|) else t2
  {
  }

  /** A loop that appends zeros to the conversion buffer. */
  method PadZeros(buf: array<char>, len: nat, n: nat) returns (len': nat)
    requires buf.Length == NTOA_BUFFER && len <= NTOA_BUFFER
    modifies buf
    ensures len' <= NTOA_BUFFER && buf[..len'] == ZeroPad(old(buf[..len]), n)
  {
    len' := len;
    ghost var b := buf[..len];
    while len' < n && len' < NTOA_BUFFER
      invariant len <= len' <= NTOA_BUFFER
      invariant len' == len || len' <= n
      invariant buf[..len'] == b + Fill('0', len' - len)
    {
      buf[len'] := '0';
      assert Fill('0', len' - len) + ['0'] == Fill('0', len' + 1 - len);
      len' := len' + 1;
      assert buf[..len'] == buf[..len' - 1] + ['0'];
    }
  }

  /** The tail of _ntoa_format's hash and sign handling: one bounded append. */
  method Append(buf: array<char>, len: nat, c: char) returns (len': nat)
    requires buf.Length == NTOA_BUFFER && len <= NTOA_BUFFER
    modifies buf
    ensures len' <= NTOA_BUFFER && buf[..len'] == Add(old(buf[..len]), c)
  {
    len' := len;
    if len < NTOA_BUFFER {
      buf[len] := c;
      len' := len + 1;
    }
  }

  /** The '#' part of _ntoa_format */
  method AddPrefix(buf: array<char>, len: nat, base: nat, prec: nat, width: nat, flags: Flags) returns (len': nat)
    requires buf.Length == NTOA_BUFFER && len <= NTOA_BUFFER
    modifies buf
    ensures len' <= NTOA_BUFFER && buf[..len'] == HashPrefix(old(buf[..len]), base, prec, width, flags)
  {
    len' := len;
    ghost var b := buf[..len];
    if flags.hash {
      if !flags.precision && len' > 0 && (len' == prec || len' == width) {
        len' := len' - 1;
        if len' > 0 && base == 16 {
          len' := len' - 1;
        }
      }
      assert buf[..len'] == b[..len'];
      if base == 16 && !flags.uppercase {
        len' := Append(buf, len', 'x');
      } else if base == 16 && flags.uppercase {
        len' := Append(buf, len', 'X');
      } else if base == 2 {
        len' := Append(buf, len', 'b');
      }
      len' := Append(buf, len', '0');
    }
  }

  /** _ntoa_format; a width of zero padding is lowered first when a sign takes a column. */
  method FormatTo(sink: Sink, from: nat, buf: array<char>, len: nat, negative: bool, base: nat,
                  prec: nat, width: nat, flags: Flags) returns (idx: nat)
    requires sink.Valid() && from == |sink.text| && buf != sink.buffer
    requires buf.Length == NTOA_BUFFER && len <= NTOA_BUFFER
    modifies sink, sink.buffer, buf
    ensures sink.Valid() && idx == |sink.text|
    ensures sink.text == old(sink.text) + NtoaFormat(old(buf[..len]), negative, base, prec, width, flags)
  {
    hide OutRev, ZeroPad, HashPrefix, PaddedDigits, PadWidth, WithSign, Written;
    var n, w := AddZeros(buf, len, negative, prec, width, flags);
    n := AddPrefix(buf, n, base, prec, w, flags);
    n := AddSign(buf, n, negative, flags);
    idx := EmitReversed(sink, from, buf, n, w, flags);
  }

  /** The padding part of _ntoa_format, and the width that is left */
  method AddZeros(buf: array<char>, len: nat, negative: bool, prec: nat, width: nat, flags: Flags)
    returns (len': nat, w: nat)
    requires buf.Length == NTOA_BUFFER && len <= NTOA_BUFFER
    modifies buf
    ensures len' <= NTOA_BUFFER && buf[..len'] == PaddedDigits(old(buf[..len]), negative, prec, width, flags)
    ensures w == PadWidth(negative, width, flags)
  {
    hide ZeroPad;
    w, len' := width, len;
    if !flags.left {
      if w > 0 && flags.zeropad && (negative || flags.plus || flags.space) {
        w := w - 1;
      }
      len' := PadZeros(buf, len', prec);
      if flags.zeropad {
        len' := PadZeros(buf, len', w);
      }
    }
  }

  /** The sign part of _ntoa_format */
  method AddSign(buf: array<char>, len: nat, negative: bool, flags: Flags) returns (len': nat)
    requires buf.Length == NTOA_BUFFER && len <= NTOA_BUFFER
    modifies buf
    ensures len' <= NTOA_BUFFER && buf[..len'] == WithSign(old(buf[..len]), negative, flags)
  {
    len' := len;
    if len < NTOA_BUFFER {
      if negative {
        len' := Append(buf, len, '-');
      } else if flags.plus {
        len' := Append(buf, len, '+');
      } else if flags.space {
        len' := Append(buf, len, ' ');
      }
    }
  }

  /** The digit loop: the body runs once even for zero, and never past the 32-byte buffer. */
  method DigitsTo(buf: array<char>, value: nat, base: nat, uppercase: bool) returns (len: nat)
    requires buf.Length == NTOA_BUFFER && Base(base)
    modifies buf
    ensures 1 <= len <= NTOA_BUFFER && buf[..len] == LowDigits(value, base, uppercase, NTOA_BUFFER)
  {
    hide LowDigits, MoreDigits, LastDigit, Shifted;
    ghost var all := LowDigits(value, base, uppercase, NTOA_BUFFER);
    DigitStep(value, base, uppercase, NTOA_BUFFER);
    assert buf[..0] == [];
    len := PutBack(buf, 0, LastDigit(value, base, uppercase));
    var v: nat := Shifted(value, base);
    while v != 0 && len < NTOA_BUFFER
      invariant 1 <= len <= NTOA_BUFFER
      invariant all == buf[..len] + MoreDigits(v, base, uppercase, NTOA_BUFFER - len)
      decreases NTOA_BUFFER - len
    {
      NextDigit(buf[..len], v, base, uppercase, NTOA_BUFFER - len);
      len := PutBack(buf, len, LastDigit(v, base, uppercase));
      v := Shifted(v, base);
    }
    NoMoreDigits(buf[..len], v, base, uppercase, NTOA_BUFFER - len);
  }

  /** buf[len++] = c */
  method PutBack(buf: array<char>, len: nat, c: char) returns (len': nat)
    requires len < buf.Length
    modifies buf
    ensures len' == len + 1 && buf[..len'] == old(buf[..len]) + [c]
  {
    buf[len] := c;
    len' := len + 1;
  }

  lemma NextDigit(b: seq<char>, v: nat, base: nat, uppercase: bool, room: nat)
    requires Base(base) && v != 0 && room >= 1
    ensures b + MoreDigits(v, base, uppercase, room)
            == (b + [LastDigit(v, base, uppercase)]) + MoreDigits(Shifted(v, base), base, uppercase, room - 1)
  {
    hide LowDigits, MoreDigits, LastDigit, Shifted;
    MoreIs(v, base, uppercase, room);
    DigitStep(v, base, uppercase, room);
  }

  lemma NoMoreDigits(b: seq<char>, v: nat, base: nat, uppercase: bool, room: nat)
    requires Base(base) && (v == 0 || room == 0)
    ensures b + MoreDigits(v, base, uppercase, room) == b
  {
  }

  /** The digits of a conversion: none for value zero with a precision. */
  method FillDigits(buf: array<char>, value: nat, base: nat, flags: Flags) returns (len: nat)
    requires buf.Length == NTOA_BUFFER && Base(base)
    modifies buf
    ensures len <= NTOA_BUFFER && buf[..len] == ValueDigits(value, base, flags)
  {
    hide LowDigits;
    len := 0;
    if !flags.precision || value != 0 {
      len := DigitsTo(buf, value, base, flags.uppercase);
    }
  }

  /** _ntoa_long and _ntoa_long_long */
  method NtoaTo(sink: Sink, from: nat, value: nat, negative: bool, base: nat, prec: nat, width: nat, flags: Flags)
    returns (idx: nat)
    requires sink.Valid() && from == |sink.text| && Base(base)
    modifies sink, sink.buffer
    ensures sink.Valid() && idx == |sink.text|
    ensures sink.text == old(sink.text) + Ntoa(value, negative, base, prec, width, flags)
  {
    hide NtoaFormat, ValueDigits, Written;
    var buf := new char[NTOA_BUFFER];
    var f := if value == 0 then flags.(hash := false) else flags;
    var len := FillDigits(buf, value, base, flags);
    idx := FormatTo(sink, from, buf, len, negative, base, prec, width, f);
  }
}
