/** One producer and one consumer on the same ring, one of them in an interrupt handler: every
    read of a shared field, every byte copied and every update inside the interrupt-disabled
    section is a step of its own, and the steps interleave in any order. */
module RingProtocol {
  import opened Basics
  import opened RingBytes

  /** Where the producer stands in csi_ringbuf_in. */
  datatype Producer =
    | PIdle
    | PCheck(data: seq<byte>)                              // about to test is_full
    | PSample(data: seq<byte>)                             // about to read data_len again
    | PBranch(data: seq<byte>, n: nat)                     // about to compare write with read
    | PCopy(data: seq<byte>, n: nat, first: nat, i: nat)   // i of n bytes copied, `first` in the first piece

  /** Where the consumer stands in csi_ringbuf_out. */
  datatype Consumer =
    | CIdle
    | CCheck(len: nat)                                     // about to test is_empty
    | CSample(len: nat)                                    // about to read data_len again
    | CCopy(n: nat, first: nat, got: seq<byte>)            // |got| of n bytes copied

  /** accepted: every byte the producer published; taken: every byte the consumer handed out. */
  datatype State = State(buf: seq<byte>, write: nat, read: nat, dataLen: nat,
                         prod: Producer, cons: Consumer,
                         accepted: seq<byte>, taken: seq<byte>)

  datatype Action = CallIn(data: seq<byte>) | StepIn | CallOut(len: nat) | StepOut

  predicate Shape(s: State) {
    && 0 < |s.buf| <= MAX_RING
    && s.read < |s.buf| && s.write < |s.buf| && s.dataLen <= |s.buf|
    && s.write == Slot(|s.buf|, s.read, s.dataLen)
  }

  /** The slot the k-th byte of a copy that starts at `from` touches. */
  function CopySlot(from: int, first: int, k: int): int {
    if k < first then from + k else k - first
  }

  // ---------------------------------------------------------------------------
  // Steps.

  function StepProducer(s: State): State
    requires Shape(s)
  {
    var size := |s.buf|;
    match s.prod
    case PIdle => s
    case PCheck(data) =>
      if size - s.dataLen == 0 then s.(prod := PIdle) else s.(prod := PSample(data))
    case PSample(data) =>
      var room := size - s.dataLen;
      s.(prod := PBranch(data, if room > |data| then |data| else room))
    case PBranch(data, n) =>
      var tail := size - s.write;
      s.(prod := PCopy(data, n, if s.write < s.read || n <= tail then n else tail, 0))
    case PCopy(data, n, first, i) =>
      if i < n then
        var slot := CopySlot(s.write, first, i);
        if i < |data| && 0 <= slot < size
        then s.(buf := s.buf[slot := data[i]], prod := PCopy(data, n, first, i + 1))
        else s
      else
        s.(write := Advance(size, s.write, n), dataLen := s.dataLen + n, prod := PIdle,
           accepted := s.accepted + if n <= |data| then data[..n] else data)
  }

  function StepConsumer(s: State): State
    requires Shape(s)
  {
    var size := |s.buf|;
    match s.cons
    case CIdle => s
    case CCheck(len) =>
      if s.dataLen == 0 then s.(cons := CIdle) else s.(cons := CSample(len))
    case CSample(len) =>
      s.(cons := CCopy(if len > s.dataLen then s.dataLen else len, size - s.read, []))
    case CCopy(n, first, got) =>
      if |got| < n then
        var slot := CopySlot(s.read, first, |got|);
        if 0 <= slot < size then s.(cons := CCopy(n, first, got + [s.buf[slot]])) else s
      else
        s.(read := Advance(size, s.read, n), dataLen := if n <= s.dataLen then s.dataLen - n else 0,
           cons := CIdle, taken := s.taken + got)
  }

  /** A call starts only when its side is idle; a step is taken only inside a call. */
  function Next(s: State, a: Action): State
    requires Shape(s)
  {
    match a
    case CallIn(data) => if s.prod.PIdle? then s.(prod := PCheck(data)) else s
    case CallOut(len) => if s.cons.CIdle? then s.(cons := CCheck(len)) else s
    case StepIn => StepProducer(s)
    case StepOut => StepConsumer(s)
  }

  // ---------------------------------------------------------------------------
  // Invariant.

  ghost function Queue(s: State): seq<byte>
    requires Shape(s)
  {
    Contents(s.buf, s.read, s.dataLen)
  }

  ghost predicate ProducerOk(s: State)
    requires Shape(s)
  {
    match s.prod
    case PIdle => true
    case PCheck(_) => true
    case PSample(_) => true
    case PBranch(data, n) => n <= |data| && n <= |s.buf| - s.dataLen
    case PCopy(data, n, first, i) =>
      && i <= n <= |data| && n <= |s.buf| - s.dataLen
      && first == Min(n, |s.buf| - s.write)
      && forall k :: 0 <= k < i ==> s.buf[Slot(|s.buf|, s.write, k)] == data[k]
  }

  ghost predicate ConsumerOk(s: State)
    requires Shape(s)
  {
    match s.cons
    case CIdle => true
    case CCheck(_) => true
    case CSample(_) => true
    case CCopy(n, first, got) =>
      && |got| <= n <= s.dataLen && first == |s.buf| - s.read
      && got == Queue(s)[..|got|]
  }

  /** What is queued is what was accepted and not yet taken; both sides' copies are as far as their
      counters say. */
  ghost predicate Inv(s: State) {
    && Shape(s)
    && s.accepted == s.taken + Queue(s)
    && ProducerOk(s) && ConsumerOk(s)
  }

  ghost predicate Initial(s: State) {
    && 0 < |s.buf| <= MAX_RING && s.write == s.read == s.dataLen == 0
    && s.prod == PIdle && s.cons == CIdle && s.accepted == [] && s.taken == []
  }

  // ---------------------------------------------------------------------------
  // Ownership.

  /** The producer's next byte goes into a slot that holds no queued byte. */
  lemma ProducerSlotFree(s: State)
    requires Inv(s) && s.prod.PCopy? && s.prod.i < s.prod.n
    ensures var slot := CopySlot(s.write, s.prod.first, s.prod.i);
            && 0 <= slot < |s.buf| && slot == Slot(|s.buf|, s.write, s.prod.i)
            && forall k :: 0 <= k < s.dataLen ==> slot != Slot(|s.buf|, s.read, k)
  {
  }

  /** The consumer's next byte comes from the slot of the queued byte it is due. */
  lemma ConsumerSlotQueued(s: State)
    requires Inv(s) && s.cons.CCopy? && |s.cons.got| < s.cons.n
    ensures var slot, k := CopySlot(s.read, s.cons.first, |s.cons.got|), |s.cons.got|;
            && 0 <= slot < |s.buf| && k < s.dataLen && slot == Slot(|s.buf|, s.read, k)
            && s.buf[slot] == Queue(s)[k]
  {
  }

  /** The two sides never touch the same slot. */
  lemma NeverSameSlot(s: State)
    requires Inv(s) && s.prod.PCopy? && s.prod.i < s.prod.n && s.cons.CCopy? && |s.cons.got| < s.cons.n
    ensures CopySlot(s.write, s.prod.first, s.prod.i) != CopySlot(s.read, s.cons.first, |s.cons.got|)
  {
    ProducerSlotFree(s);
    ConsumerSlotQueued(s);
  }

  // ---------------------------------------------------------------------------
  // Every step.

  /** What a step does to an ideal queue: nothing, except that publishing appends the copied prefix
      of the data and taking removes the bytes handed out, each in one go. */
  ghost predicate Refines(s: State, t: State)
    requires Shape(s) && Shape(t)
  {
    || (t.accepted == s.accepted && t.taken == s.taken && Queue(t) == Queue(s))
    || (s.prod.PCopy? && s.prod.i == s.prod.n <= |s.prod.data| && t.prod == PIdle
        && t.accepted == s.accepted + s.prod.data[..s.prod.n] && t.taken == s.taken
        && Queue(t) == Queue(s) + s.prod.data[..s.prod.n])
    || (s.cons.CCopy? && |s.cons.got| == s.cons.n <= |Queue(s)| && t.cons == CIdle
        && t.accepted == s.accepted && t.taken == s.taken + Queue(s)[..s.cons.n]
        && Queue(t) == Queue(s)[s.cons.n..])
  }

  lemma BranchStep(s: State)
    requires Inv(s) && s.prod.PBranch?
    ensures Inv(StepProducer(s)) && Refines(s, StepProducer(s))
  {
  }

  lemma WriteByte(s: State)
    requires Inv(s) && s.prod.PCopy? && s.prod.i < s.prod.n
    ensures Inv(StepProducer(s)) && Refines(s, StepProducer(s))
  {
    ProducerSlotFree(s);
    var t := StepProducer(s);
    assert Queue(t) == Queue(s);
    var PCopy(data, n, first, i) := s.prod;
    forall k | 0 <= k < i + 1 ensures t.buf[Slot(|t.buf|, t.write, k)] == data[k] {
    }
  }

  /** Publishing makes the bytes copied part of the contents. */
  lemma PublishQueue(s: State)
    requires Inv(s) && s.prod.PCopy? && s.prod.i == s.prod.n
    ensures Shape(StepProducer(s))
    ensures Queue(StepProducer(s)) == Queue(s) + s.prod.data[..s.prod.n]
  {
    hide Advance, Contents, Slot;
    var PCopy(data, n, first, i) := s.prod;
    PublishedShape(s);
    SlotsInside(|s.buf|, s.read);
    forall k | 0 <= k < n ensures s.buf[Slot(|s.buf|, s.read, s.dataLen + k)] == data[..n][k] {
      CopiedBehind(s, k);
    }
    ContentsAppend(s.buf, s.buf, s.read, s.dataLen, data[..n]);
  }

  /** The bytes copied stand right behind the contents. */
  lemma CopiedBehind(s: State, k: nat)
    requires Inv(s) && s.prod.PCopy? && s.prod.i == s.prod.n && k < s.prod.n
    ensures 0 <= Slot(|s.buf|, s.read, s.dataLen + k) < |s.buf| && k < |s.prod.data|
    ensures s.buf[Slot(|s.buf|, s.read, s.dataLen + k)] == s.prod.data[k]
  {
    hide Queue, Slot;
    SlotShift(|s.buf|, s.read, s.dataLen, k);
    assert s.buf[Slot(|s.buf|, s.write, k)] == s.prod.data[k];
  }

  lemma SlotsInside(size: nat, read: nat)
    requires read < size
    ensures forall j :: 0 <= j <= size ==> 0 <= Slot(size, read, j) < size
  {
  }

  lemma SlotShift(size: nat, read: nat, len: nat, k: nat)
    requires read < size && len <= size && k < size && len + k <= size
    ensures Slot(size, Slot(size, read, len), k) == Slot(size, read, len + k)
    ensures 0 <= Slot(size, read, len + k) < size
  {
  }

  lemma PublishedShape(s: State)
    requires Inv(s) && s.prod.PCopy? && s.prod.i == s.prod.n
    ensures Shape(StepProducer(s))
  {
    AdvanceIsSlot(|s.buf|, s.write, s.prod.n);
    hide Advance, Queue;
  }

  lemma Publish(s: State)
    requires Inv(s) && s.prod.PCopy? && s.prod.i == s.prod.n
    ensures Inv(StepProducer(s)) && Refines(s, StepProducer(s))
  {
    hide Advance, Queue, Slot;
    PublishQueue(s);
    var d := s.prod.data[..s.prod.n];
    assert s.taken + Queue(s) + d == s.taken + (Queue(s) + d);
    QueueLength(s);
    if s.cons.CCopy? {
      assert (Queue(s) + d)[..|s.cons.got|] == Queue(s)[..|s.cons.got|];
    }
  }

  lemma QueueLength(s: State)
    requires Shape(s)
    ensures |Queue(s)| == s.dataLen
  {
  }

  lemma ReadByte(s: State)
    requires Inv(s) && s.cons.CCopy? && |s.cons.got| < s.cons.n
    ensures Inv(StepConsumer(s)) && Refines(s, StepConsumer(s))
  {
    ConsumerSlotQueued(s);
    var k := |s.cons.got|;
    assert Queue(s)[..k + 1] == Queue(s)[..k] + [Queue(s)[k]];
  }

  /** Taking drops the bytes handed out from the contents. */
  lemma TakeQueue(s: State)
    requires Inv(s) && s.cons.CCopy? && |s.cons.got| == s.cons.n
    ensures Shape(StepConsumer(s)) && s.cons.n <= |Queue(s)|
    ensures Queue(StepConsumer(s)) == Queue(s)[s.cons.n..]
  {
    AdvanceIsSlot(|s.buf|, s.read, s.cons.n);
    hide Advance, Contents;
    ContentsDrop(s.buf, s.read, s.dataLen, s.cons.n);
    assert Slot(|s.buf|, Slot(|s.buf|, s.read, s.cons.n), s.dataLen - s.cons.n) == s.write;
  }

  lemma TakeOut(s: State)
    requires Inv(s) && s.cons.CCopy? && |s.cons.got| == s.cons.n
    ensures Inv(StepConsumer(s)) && Refines(s, StepConsumer(s))
  {
    hide Advance, Queue, Slot;
    TakeQueue(s);
    var q, n := Queue(s), s.cons.n;
    assert q == q[..n] + q[n..];
    assert s.taken + q == s.taken + q[..n] + q[n..];
  }

  lemma ProducerKeepsInv(s: State)
    requires Inv(s)
    ensures Inv(StepProducer(s)) && Refines(s, StepProducer(s))
  {
    if s.prod.PBranch? {
      BranchStep(s);
    } else if s.prod.PCopy? {
      if s.prod.i < s.prod.n { WriteByte(s); } else { Publish(s); }
    }
  }

  lemma ConsumerKeepsInv(s: State)
    requires Inv(s)
    ensures Inv(StepConsumer(s)) && Refines(s, StepConsumer(s))
  {
    if s.cons.CCopy? {
      if |s.cons.got| < s.cons.n { ReadByte(s); } else { TakeOut(s); }
    }
  }

  /** Every step of either side keeps the invariant and acts on an ideal queue. */
  lemma StepKeepsInv(s: State, a: Action)
    requires Inv(s)
    ensures Inv(Next(s, a)) && Refines(s, Next(s, a))
  {
    match a
    case CallIn(_) =>
    case CallOut(_) =>
    case StepIn => ProducerKeepsInv(s);
    case StepOut => ConsumerKeepsInv(s);
  }

  // ---------------------------------------------------------------------------
  // Runs.

  ghost function Run(s: State, acts: seq<Action>): (t: State)
    requires Inv(s)
    ensures Inv(t)
    decreases |acts|
  {
    if acts == [] then s else
      StepKeepsInv(s, acts[0]);
      Run(Next(s, acts[0]), acts[1..])
  }

  /** However the steps interleave: what was taken is a prefix of what was accepted, and what is
      missing from it is exactly what is still queued. */
  lemma NothingLostOrReordered(s: State, acts: seq<Action>)
    requires Initial(s)
    ensures Inv(s)
    ensures var t := Run(s, acts); t.taken <= t.accepted && t.accepted == t.taken + Queue(t)
  {
  }

  /** What has been accepted or taken is never revised. */
  lemma {:induction false} HistoryGrows(s: State, acts: seq<Action>)
    requires Inv(s)
    ensures var t := Run(s, acts); s.accepted <= t.accepted && s.taken <= t.taken
    decreases |acts|
  {
    hide Queue, Next;
    if acts != [] {
      StepKeepsInv(s, acts[0]);
      HistoryGrows(Next(s, acts[0]), acts[1..]);
    }
  }

  /** The room sampled still suffices when the call publishes. */
  lemma PublishFits(s: State)
    requires Inv(s) && s.prod.PCopy?
    ensures |Queue(s)| + s.prod.n <= |s.buf|
  {
  }
}
