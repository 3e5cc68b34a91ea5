/** The mailbox driver: 32-bit words delivered by an interrupt callback into a 32-byte ring, and
    read back as bytes (components/chip_d1/drivers/mailbox.c). */
module Mailbox {
  import opened Basics
  import opened RingBytes
  import opened RingBuf

  const RING_BYTES: nat := 32  // MBOX_RINGBUF_LEN
  const WORD_BYTES: nat := 4

  type uint32 = x: int | 0 <= x < UINT32_MODULUS

  /** The bytes of a word in memory, least significant first. */
  function Bytes(w: uint32): (b: seq<byte>)
    ensures |b| == WORD_BYTES
  {
    var w1 := w / 256;
    var w2 := w1 / 256;
    [w % 256, w1 % 256, w2 % 256, w2 / 256]
  }

  function Value(b: seq<byte>): uint32
    requires |b| == WORD_BYTES
  {
    b[0] as int + 0x100 * (b[1] as int) + 0x1_0000 * (b[2] as int) + 0x100_0000 * (b[3] as int)
  }

  /** The least significant byte comes first, as this processor stores words. */
  lemma LittleEndian(b0: byte, b1: byte, b2: byte, b3: byte)
    ensures Bytes(b0 + 0x100 * b1 + 0x1_0000 * b2 + 0x100_0000 * b3) == [b0, b1, b2, b3]
  {
    var w: uint32 := b0 + 0x100 * b1 + 0x1_0000 * b2 + 0x100_0000 * b3;
    assert w / 256 == b1 + 0x100 * b2 + 0x1_0000 * b3;
    assert w / 256 / 256 == b2 + 0x100 * b3;
  }

  lemma BytesRoundTrip(w: uint32)
    ensures Value(Bytes(w)) == w
  {
  }

  // ---------------------------------------------------------------------------
  // The driver.

  class Driver {
    const ring: Ring
    var attached: bool           // a callback is set
    ghost var seen: seq<seq<byte>>  // the queue each time the callback was told of a word

    ghost predicate Valid()
      reads this, ring
    {
      ring.Valid() && ring.size == RING_BYTES
    }

    /** csi_mbox_init on a client without callback */
    constructor ()
      ensures Valid() && fresh(ring) && fresh(ring.buffer)
      ensures ring.Queue() == [] && !attached && seen == []
    {
      var memory := new byte[RING_BYTES];
      ring := new Ring(memory);
      attached, seen := false, [];
    }

    /** msgbox_rec: without a callback the word is ignored; the callback is told once the word is
        queued, or dropped. */
    method Deliver(d: uint32)
      requires Valid()
      modifies ring, ring.buffer, `seen
      ensures Valid()
      ensures ring.Queue() == AfterDeliver(old(ring.Queue()), attached, d)
      ensures seen == old(seen) + if attached then [ring.Queue()] else []
    {
      if attached {
        var data := new byte[WORD_BYTES](i requires 0 <= i < WORD_BYTES => Bytes(d)[i]);
        assert data[..] == Bytes(d);
        var n := ring.In(data, 0, WORD_BYTES);
        assert data[0..n] == Bytes(d)[..n];
        seen := seen + [ring.Queue()];
      }
    }

    /** csi_mbox_receive */
    method Receive(data: array<byte>, size: nat) returns (n: nat)
      requires Valid() && data != ring.buffer && size <= data.Length
      modifies ring, data
      ensures Valid()
      ensures n == Min(size, |old(ring.Queue())|)
      ensures data[..n] == old(ring.Queue())[..n]
      ensures ring.Queue() == old(ring.Queue())[n..]
    {
      var ringbufLen := ring.Len();
      n := ring.Out(data, 0, if ringbufLen < size then ringbufLen else size);
    }

    /** csi_mbox_attach_callback and csi_mbox_detach_callback */
    method SetCallback(on: bool)
      requires Valid()
      modifies `attached
      ensures Valid() && attached == on
    {
      attached := on;
    }
  }

  /** The queue after a word came in: as many of its bytes as there is room for. */
  function AfterDeliver(q: seq<byte>, attached: bool, d: uint32): seq<byte>
    requires |q| <= RING_BYTES
  {
    if attached then q + Bytes(d)[..Min(WORD_BYTES, RING_BYTES - |q|)] else q
  }

  // ---------------------------------------------------------------------------
  // Runs.

  datatype Event = Word(d: uint32) | Receive(size: nat) | Callback(on: bool)

  /** words: those that found any room; received: every byte handed out. */
  datatype State = State(queue: seq<byte>, attached: bool, words: seq<uint32>, received: seq<byte>)

  function Step(s: State, e: Event): (t: State)
    requires |s.queue| <= RING_BYTES
    ensures |t.queue| <= RING_BYTES
  {
    match e
    case Word(d) =>
      s.(queue := AfterDeliver(s.queue, s.attached, d),
         words := if s.attached && |s.queue| < RING_BYTES then s.words + [d] else s.words)
    case Receive(size) =>
      var n := Min(size, |s.queue|);
      s.(queue := s.queue[n..], received := s.received + s.queue[..n])
    case Callback(on) => s.(attached := on)
  }

  function Run(s: State, es: seq<Event>): (t: State)
    requires |s.queue| <= RING_BYTES
    ensures |t.queue| <= RING_BYTES
  {
    if es == [] then s else Step(Run(s, es[..|es| - 1]), es[|es| - 1])
  }

  function Flatten(ws: seq<uint32>): (b: seq<byte>)
    ensures |b| == WORD_BYTES * |ws|
  {
    if ws == [] then [] else Flatten(ws[..|ws| - 1]) + Bytes(ws[|ws| - 1])
  }

  const START: State := State([], false, [], [])

  ghost predicate WordReceives(es: seq<Event>) {
    forall i :: 0 <= i < |es| && es[i].Receive? ==> es[i].size % WORD_BYTES == 0
  }

  /** While every receive asks for whole words, each word that comes in is queued whole or not at
      all, and the bytes received and still queued are exactly the queued words in order. */
  lemma {:induction false} WordsStayWhole(es: seq<Event>)
    requires WordReceives(es)
    ensures var t := Run(START, es);
            && |t.queue| % WORD_BYTES == 0 && |t.received| % WORD_BYTES == 0
            && t.received + t.queue == Flatten(t.words)
  {
    if es != [] {
      var e := es[|es| - 1];
      var s := Run(START, es[..|es| - 1]);
      assert es[|es| - 1] == e;
      WordsStayWhole(es[..|es| - 1]);
      StepKeepsWords(s, e);
    }
  }

  lemma StepKeepsWords(s: State, e: Event)
    requires |s.queue| <= RING_BYTES && |s.queue| % WORD_BYTES == 0 && |s.received| % WORD_BYTES == 0
    requires s.received + s.queue == Flatten(s.words)
    requires e.Receive? ==> e.size % WORD_BYTES == 0
    ensures var t := Step(s, e);
            && |t.queue| % WORD_BYTES == 0 && |t.received| % WORD_BYTES == 0
            && t.received + t.queue == Flatten(t.words)
  {
    hide Flatten, Bytes, AfterDeliver;
    match e
    case Word(d) => WordKeepsWords(s, d);
    case Receive(size) => MovedOver(s.received, s.queue, Min(size, |s.queue|));
    case Callback(_) =>
  }

  lemma MovedOver(a: seq<byte>, b: seq<byte>, n: nat)
    requires n <= |b|
    ensures (a + b[..n]) + b[n..] == a + b
  {
  }

  lemma DeliveredWhole(q: seq<byte>, attached: bool, d: uint32)
    requires |q| <= RING_BYTES && |q| % WORD_BYTES == 0
    ensures AfterDeliver(q, attached, d) == if attached && |q| < RING_BYTES then q + Bytes(d) else q
  {
    hide Bytes;
    assert Bytes(d)[..WORD_BYTES] == Bytes(d);
    assert |q| < RING_BYTES ==> |q| + WORD_BYTES <= RING_BYTES;
  }

  lemma WordKeepsWords(s: State, d: uint32)
    requires |s.queue| <= RING_BYTES && |s.queue| % WORD_BYTES == 0
    requires s.received + s.queue == Flatten(s.words)
    ensures var t := Step(s, Word(d));
            |t.queue| % WORD_BYTES == 0 && t.received == s.received && t.received + t.queue == Flatten(t.words)
  {
    hide Bytes, AfterDeliver, Flatten;
    DeliveredWhole(s.queue, s.attached, d);
    FlattenOne(s.words, d);
    assert s.received + (s.queue + Bytes(d)) == (s.received + s.queue) + Bytes(d);
  }

  lemma FlattenOne(ws: seq<uint32>, d: uint32)
    ensures Flatten(ws + [d]) == Flatten(ws) + Bytes(d)
  {
    assert (ws + [d])[..|ws|] == ws;
  }

  /** The k-th word received is the k-th word queued. */
  lemma ReceivedWord(es: seq<Event>, k: nat)
    requires WordReceives(es) && WORD_BYTES * (k + 1) <= |Run(START, es).received|
    ensures var t := Run(START, es);
            k < |t.words| && Value(t.received[WORD_BYTES * k..WORD_BYTES * (k + 1)]) == t.words[k]
  {
    var t := Run(START, es);
    WordsStayWhole(es);
    FlattenAt(t.words, k);
    assert t.received[WORD_BYTES * k..WORD_BYTES * (k + 1)]
        == (t.received + t.queue)[WORD_BYTES * k..WORD_BYTES * (k + 1)];
    BytesRoundTrip(t.words[k]);
  }

  lemma {:induction false} FlattenAt(ws: seq<uint32>, k: nat)
    requires k < |ws|
    ensures Flatten(ws)[WORD_BYTES * k..WORD_BYTES * (k + 1)] == Bytes(ws[k])
  {
    var n := |ws| - 1;
    if k < n {
      FlattenAt(ws[..n], k);
      assert Flatten(ws)[WORD_BYTES * k..WORD_BYTES * (k + 1)]
          == Flatten(ws[..n])[WORD_BYTES * k..WORD_BYTES * (k + 1)];
    }
  }

  /** A word is cut exactly when one to three bytes are free. */
  lemma TornExactly(q: seq<byte>, d: uint32)
    requires |q| <= RING_BYTES
    ensures (AfterDeliver(q, true, d) == q || AfterDeliver(q, true, d) == q + Bytes(d))
            <==> RING_BYTES - |q| == 0 || RING_BYTES - |q| >= WORD_BYTES
  {
    var n := Min(WORD_BYTES, RING_BYTES - |q|);
    assert |AfterDeliver(q, true, d)| == |q| + n;
    if n == WORD_BYTES { assert Bytes(d)[..n] == Bytes(d); }
    if n == 0 { assert AfterDeliver(q, true, d) == q; }
  }

  /** Receiving two bytes out of a full ring leads to a torn word. */
  lemma OddReceiveTears(q: seq<byte>, d: uint32)
    requires |q| == RING_BYTES
    ensures var s := Step(State(q, true, [], []), Receive(2));
            Step(s, Word(d)).queue == q[2..] + Bytes(d)[..2]
  {
  }
}
