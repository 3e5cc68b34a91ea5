/** What whole calls of csi_ringbuf_in and csi_ringbuf_out achieve, with any steps of the other side
    in between (components/csi/csi2/src/csi_ringbuf.c). */
module RingCalls {
  import opened Basics
  import opened RingBytes
  import opened RingProtocol

  // ---------------------------------------------------------------------------
  // One step at a time.

  /** The consumer returns at once exactly when nothing is queued. */
  lemma ConsumerChecks(s: State)
    requires Inv(s) && s.cons.CCheck?
    ensures StepConsumer(s) == s.(cons := if Queue(s) == [] then CIdle else CSample(s.cons.len))
  {
  }

  /** Otherwise it takes as many bytes as are queued then, at most len. */
  lemma ConsumerSamples(s: State)
    requires Inv(s) && s.cons.CSample?
    ensures var t := StepConsumer(s);
            t == s.(cons := t.cons) && t.cons.CCopy? && t.cons.n == Min(s.cons.len, |Queue(s)|) && t.cons.got == []
  {
  }

  /** The producer gives up exactly when the ring is full. */
  lemma ProducerChecks(s: State)
    requires Inv(s) && s.prod.PCheck?
    ensures StepProducer(s) == s.(prod := if |Queue(s)| == |s.buf| then PIdle else PSample(s.prod.data))
  {
  }

  /** Otherwise it adds as many bytes as there is room for then. */
  lemma ProducerSamples(s: State)
    requires Inv(s) && s.prod.PSample?
    ensures StepProducer(s) == s.(prod := PBranch(s.prod.data, Min(|s.prod.data|, |s.buf| - |Queue(s)|)))
  {
  }

  lemma ProducerBranches(s: State)
    requires Inv(s) && s.prod.PBranch?
    ensures var t := StepProducer(s);
            t == s.(prod := t.prod) && t.prod.PCopy? && t.prod.i == 0 && t.prod.n == s.prod.n && t.prod.data == s.prod.data
  {
  }

  // ---------------------------------------------------------------------------
  // The consumer, whatever the producer does.

  function Count(acts: seq<Action>, a: Action): nat {
    if acts == [] then 0 else (if acts[0] == a then 1 else 0) + Count(acts[1..], a)
  }

  predicate NoCallOut(acts: seq<Action>) {
    forall i :: 0 <= i < |acts| ==> !acts[i].CallOut?
  }

  predicate NoCallIn(acts: seq<Action>) {
    forall i :: 0 <= i < |acts| ==> !acts[i].CallIn?
  }

  /** A step of the producer leaves the consumer alone and only adds at the end of the queue. */
  lemma ProducerAside(s: State, a: Action)
    requires Inv(s) && (a.CallIn? || a.StepIn?)
    ensures Inv(Next(s, a))
    ensures var t := Next(s, a); t.cons == s.cons && t.taken == s.taken && Queue(s) <= Queue(t)
  {
    StepKeepsInv(s, a);
  }

  lemma {:induction false} IdleConsumer(s: State, acts: seq<Action>)
    requires Inv(s) && s.cons.CIdle? && NoCallOut(acts)
    ensures Run(s, acts).cons.CIdle? && Run(s, acts).taken == s.taken
    decreases |acts|
  {
    if acts != [] {
      hide Queue, Inv;
      StepKeepsInv(s, acts[0]);
      if acts[0].CallIn? || acts[0].StepIn? { ProducerAside(s, acts[0]); }
      IdleConsumer(Next(s, acts[0]), acts[1..]);
    }
  }

  lemma ConsumerByte(s: State)
    requires Inv(s) && s.cons.CCopy? && |s.cons.got| < s.cons.n
    ensures var t := StepConsumer(s);
            && Inv(t) && t.cons.CCopy? && t.cons.n == s.cons.n && |t.cons.got| == |s.cons.got| + 1
            && t.taken == s.taken && Queue(t) == Queue(s) && t.accepted == s.accepted
  {
    ReadByte(s);
    ConsumerSlotQueued(s);
  }

  lemma ConsumerDone(s: State)
    requires Inv(s) && s.cons.CCopy? && |s.cons.got| == s.cons.n
    ensures var t := StepConsumer(s);
            && Inv(t) && t.cons.CIdle? && s.cons.n <= |Queue(s)|
            && t.taken == s.taken + Queue(s)[..s.cons.n]
  {
    TakeOut(s);
  }

  /** Once the consumer has sampled, enough steps of its own finish the call, and what it hands out
      are the n bytes that were first then. */
  lemma {:induction false} OutFinishes(s: State, acts: seq<Action>)
    requires Inv(s) && s.cons.CCopy? && NoCallOut(acts)
    requires Count(acts, StepOut) > s.cons.n - |s.cons.got|
    ensures s.cons.n <= |Queue(s)|
    ensures Run(s, acts).cons.CIdle? && Run(s, acts).taken == s.taken + Queue(s)[..s.cons.n]
    decreases |acts|
  {
    CopyBounds(s);
    hide Queue, Inv, StepConsumer;
    var t := Next(s, acts[0]);
    StepKeepsInv(s, acts[0]);
    if acts[0] == StepOut {
      if |s.cons.got| < s.cons.n {
        ConsumerByte(s);
        OutFinishes(t, acts[1..]);
      } else {
        ConsumerDone(s);
        IdleConsumer(t, acts[1..]);
      }
    } else {
      ProducerAside(s, acts[0]);
      OutFinishes(t, acts[1..]);
      assert Queue(t)[..s.cons.n] == Queue(s)[..s.cons.n];
    }
  }

  lemma CopyBounds(s: State)
    requires Inv(s) && s.cons.CCopy?
    ensures |s.cons.got| <= s.cons.n <= |Queue(s)|
  {
  }

  /** From the sample on: at least what is queued now, at most len. */
  lemma {:induction false} OutFromSample(s: State, acts: seq<Action>) returns (m: nat)
    requires Inv(s) && s.cons.CSample? && NoCallOut(acts) && Count(acts, StepOut) > 1 + |s.buf|
    ensures Min(s.cons.len, |Queue(s)|) <= m <= s.cons.len
    ensures Run(s, acts).cons.CIdle? && |Run(s, acts).taken| == |s.taken| + m
    decreases |acts|
  {
    QueueFits(s);
    hide Queue, Inv, StepConsumer;
    var t := Next(s, acts[0]);
    StepKeepsInv(s, acts[0]);
    if acts[0] == StepOut {
      ConsumerSamples(s);
      OutFinishes(t, acts[1..]);
      SameQueue(s, t);
      m := t.cons.n;
    } else {
      ProducerAside(s, acts[0]);
      BufferKept(s, acts[0]);
      m := OutFromSample(t, acts[1..]);
    }
  }

  lemma QueueFits(s: State)
    requires Inv(s)
    ensures Shape(s) && |Queue(s)| == s.dataLen <= |s.buf|
  {
  }

  lemma SameQueue(s: State, t: State)
    requires Inv(s) && Inv(t) && t == s.(cons := t.cons)
    ensures Queue(t) == Queue(s)
  {
  }

  lemma BufferKept(s: State, a: Action)
    requires Inv(s)
    ensures |Next(s, a).buf| == |s.buf|
  {
  }

  /** A whole call of csi_ringbuf_out with the producer at work in between: it ends once it had
      enough steps, and hands out at least what was queued when it began, at most len. Which bytes
      they are NothingLostOrReordered says. */
  lemma {:induction false} OutFromCheck(s: State, acts: seq<Action>) returns (m: nat)
    requires Inv(s) && s.cons.CCheck? && NoCallOut(acts) && Count(acts, StepOut) > 2 + |s.buf|
    ensures Min(s.cons.len, |Queue(s)|) <= m <= s.cons.len
    ensures Run(s, acts).cons.CIdle? && |Run(s, acts).taken| == |s.taken| + m
    decreases |acts|
  {
    QueueFits(s);
    hide Queue, Inv, StepConsumer;
    var t := Next(s, acts[0]);
    StepKeepsInv(s, acts[0]);
    if acts[0] == StepOut {
      ConsumerChecks(s);
      if t.cons.CIdle? {
        IdleConsumer(t, acts[1..]);
        m := 0;
      } else {
        SameQueue(s, t);
        m := OutFromSample(t, acts[1..]);
      }
    } else {
      ProducerAside(s, acts[0]);
      BufferKept(s, acts[0]);
      m := OutFromCheck(t, acts[1..]);
    }
  }

  function Repeat(a: Action, n: nat): seq<Action> {
    if n == 0 then [] else [a] + Repeat(a, n - 1)
  }

  lemma {:induction false} RepeatCounts(a: Action, n: nat)
    ensures Count(Repeat(a, n), a) == n && |Repeat(a, n)| == n
    ensures forall i :: 0 <= i < n ==> Repeat(a, n)[i] == a
  {
    if n > 0 { RepeatCounts(a, n - 1); }
  }

  lemma OutAloneSampled(s: State, k: nat)
    requires Inv(s) && s.cons.CSample? && k > 1 + Min(s.cons.len, |Queue(s)|)
    ensures var t := Run(s, Repeat(StepOut, k));
            t.cons.CIdle? && t.taken == s.taken + Queue(s)[..Min(s.cons.len, |Queue(s)|)]
  {
    QueueFits(s);
    hide Inv, Queue, StepConsumer, Count, Repeat, Run;
    RepeatFront(StepOut, k);
    RunStep(s, Repeat(StepOut, k));
    ConsumerSamples(s);
    SameQueue(s, Next(s, StepOut));
    RepeatCounts(StepOut, k - 1);
    OutFinishes(Next(s, StepOut), Repeat(StepOut, k - 1));
  }

  lemma OutAloneCalled(s: State, k: nat)
    requires Inv(s) && s.cons.CCheck? && k > 2 + Min(s.cons.len, |Queue(s)|)
    ensures var t := Run(s, Repeat(StepOut, k));
            t.cons.CIdle? && t.taken == s.taken + Queue(s)[..Min(s.cons.len, |Queue(s)|)]
  {
    QueueFits(s);
    hide Inv, Queue, StepConsumer, Count, Repeat, Run;
    RepeatFront(StepOut, k);
    RunStep(s, Repeat(StepOut, k));
    ConsumerChecks(s);
    SameQueue(s, Next(s, StepOut));
    if Queue(s) == [] {
      RepeatCounts(StepOut, k - 1);
      IdleConsumer(Next(s, StepOut), Repeat(StepOut, k - 1));
      assert Queue(s)[..0] == [];
    } else {
      OutAloneSampled(Next(s, StepOut), k - 1);
    }
  }

  /** csi_ringbuf_out on its own: with enough steps it ends, and what it hands out are the first
      Min(len, length) queued bytes. */
  lemma OutAlone(s: State, len: nat, k: nat)
    requires Inv(s) && s.cons.CIdle? && k > 2 + Min(len, |Queue(s)|)
    ensures var t := Run(s, [CallOut(len)] + Repeat(StepOut, k));
            t.cons.CIdle? && t.taken == s.taken + Queue(s)[..Min(len, |Queue(s)|)]
  {
    QueueFits(s);
    hide Inv, Queue, Repeat, Run;
    var acts := [CallOut(len)] + Repeat(StepOut, k);
    assert acts[1..] == Repeat(StepOut, k);
    RunStep(s, acts);
    SameQueue(s, Next(s, CallOut(len)));
    OutAloneCalled(Next(s, CallOut(len)), k);
  }

  lemma RepeatFront(a: Action, n: nat)
    requires n > 0
    ensures Repeat(a, n) != [] && Repeat(a, n)[0] == a && Repeat(a, n)[1..] == Repeat(a, n - 1)
  {
  }

  lemma RunStep(s: State, acts: seq<Action>)
    requires Inv(s) && acts != []
    ensures Inv(Next(s, acts[0])) && Run(s, acts) == Run(Next(s, acts[0]), acts[1..])
  {
    StepKeepsInv(s, acts[0]);
  }

  // ---------------------------------------------------------------------------
  // The producer, whatever the consumer does.

  /** A step of the consumer leaves the producer alone and only makes room. */
  lemma ConsumerAside(s: State, a: Action)
    requires Inv(s) && (a.CallOut? || a.StepOut?)
    ensures Inv(Next(s, a))
    ensures var t := Next(s, a);
            t.prod == s.prod && t.accepted == s.accepted && |Queue(t)| <= |Queue(s)| && |t.buf| == |s.buf|
  {
    StepKeepsInv(s, a);
  }

  lemma {:induction false} IdleProducer(s: State, acts: seq<Action>)
    requires Inv(s) && s.prod.PIdle? && NoCallIn(acts)
    ensures Run(s, acts).prod.PIdle? && Run(s, acts).accepted == s.accepted
    decreases |acts|
  {
    if acts != [] {
      hide Queue, Inv;
      StepKeepsInv(s, acts[0]);
      if acts[0].CallOut? || acts[0].StepOut? { ConsumerAside(s, acts[0]); }
      IdleProducer(Next(s, acts[0]), acts[1..]);
    }
  }

  lemma ProducerByte(s: State)
    requires Inv(s) && s.prod.PCopy? && s.prod.i < s.prod.n
    ensures var t := StepProducer(s);
            && Inv(t) && t.prod == s.prod.(i := s.prod.i + 1) && t.accepted == s.accepted
  {
    WriteByte(s);
    ProducerSlotFree(s);
  }

  lemma ProducerDone(s: State)
    requires Inv(s) && s.prod.PCopy? && s.prod.i == s.prod.n
    ensures var t := StepProducer(s);
            Inv(t) && t.prod.PIdle? && s.prod.n <= |s.prod.data| && t.accepted == s.accepted + s.prod.data[..s.prod.n]
  {
    Publish(s);
  }

  /** Once the copy has begun, enough steps of the producer finish the call, and what it adds are
      the first n bytes of its data. */
  lemma {:induction false} InFinishes(s: State, acts: seq<Action>)
    requires Inv(s) && s.prod.PCopy? && NoCallIn(acts)
    requires Count(acts, StepIn) > s.prod.n - s.prod.i
    ensures s.prod.n <= |s.prod.data|
    ensures Run(s, acts).prod.PIdle? && Run(s, acts).accepted == s.accepted + s.prod.data[..s.prod.n]
    decreases |acts|
  {
    PutBounds(s);
    hide Queue, Inv, StepProducer;
    var t := Next(s, acts[0]);
    StepKeepsInv(s, acts[0]);
    if acts[0] == StepIn {
      if s.prod.i < s.prod.n {
        ProducerByte(s);
        InFinishes(t, acts[1..]);
      } else {
        ProducerDone(s);
        IdleProducer(t, acts[1..]);
      }
    } else {
      ConsumerAside(s, acts[0]);
      InFinishes(t, acts[1..]);
    }
  }

  lemma PutBounds(s: State)
    requires Inv(s) && s.prod.PCopy?
    ensures s.prod.i <= s.prod.n <= |s.prod.data|
  {
  }

  lemma {:induction false} InFromBranch(s: State, acts: seq<Action>)
    requires Inv(s) && s.prod.PBranch? && NoCallIn(acts) && Count(acts, StepIn) > 1 + s.prod.n
    ensures s.prod.n <= |s.prod.data|
    ensures Run(s, acts).prod.PIdle? && Run(s, acts).accepted == s.accepted + s.prod.data[..s.prod.n]
    decreases |acts|
  {
    QueueFits(s);
    hide Queue, StepProducer, Inv;
    var t := Next(s, acts[0]);
    StepKeepsInv(s, acts[0]);
    if acts[0] == StepIn {
      ProducerBranches(s);
      InFinishes(t, acts[1..]);
    } else {
      ConsumerAside(s, acts[0]);
      InFromBranch(t, acts[1..]);
    }
  }

  /** From the sample on: at least what there is room for now, and a prefix of the data. */
  lemma {:induction false} InFromSample(s: State, acts: seq<Action>) returns (m: nat)
    requires Inv(s) && s.prod.PSample? && NoCallIn(acts) && Count(acts, StepIn) > 2 + |s.prod.data|
    ensures Min(|s.prod.data|, |s.buf| - |Queue(s)|) <= m <= |s.prod.data|
    ensures Run(s, acts).prod.PIdle? && Run(s, acts).accepted == s.accepted + s.prod.data[..m]
    decreases |acts|
  {
    QueueFits(s);
    hide Queue, StepProducer, Inv;
    var t := Next(s, acts[0]);
    StepKeepsInv(s, acts[0]);
    if acts[0] == StepIn {
      ProducerSamples(s);
      InFromBranch(t, acts[1..]);
      m := t.prod.n;
    } else {
      ConsumerAside(s, acts[0]);
      m := InFromSample(t, acts[1..]);
    }
  }

  /** A whole call of csi_ringbuf_in with the consumer at work in between: it ends once it had
      enough steps, and adds a prefix of its data at least as long as there was room for when it
      began. */
  lemma {:induction false} InFromCheck(s: State, acts: seq<Action>) returns (m: nat)
    requires Inv(s) && s.prod.PCheck? && NoCallIn(acts) && Count(acts, StepIn) > 3 + |s.prod.data|
    ensures Min(|s.prod.data|, |s.buf| - |Queue(s)|) <= m <= |s.prod.data|
    ensures Run(s, acts).prod.PIdle? && Run(s, acts).accepted == s.accepted + s.prod.data[..m]
    decreases |acts|
  {
    QueueFits(s);
    hide Queue, StepProducer, Inv;
    var t := Next(s, acts[0]);
    StepKeepsInv(s, acts[0]);
    if acts[0] == StepIn {
      ProducerChecks(s);
      if t.prod.PIdle? {
        IdleProducer(t, acts[1..]);
        m := 0;
        assert s.prod.data[..0] == [];
      } else {
        SameQueueIn(s, t);
        m := InFromSample(t, acts[1..]);
      }
    } else {
      ConsumerAside(s, acts[0]);
      m := InFromCheck(t, acts[1..]);
    }
  }

  lemma SameQueueIn(s: State, t: State)
    requires Inv(s) && Inv(t) && t == s.(prod := t.prod)
    ensures Queue(t) == Queue(s)
  {
  }

  lemma InAloneSampled(s: State, k: nat)
    requires Inv(s) && s.prod.PSample? && k > 2 + Min(|s.prod.data|, |s.buf| - |Queue(s)|)
    ensures |Queue(s)| <= |s.buf|
    ensures var t := Run(s, Repeat(StepIn, k));
            t.prod.PIdle? && t.accepted == s.accepted + s.prod.data[..Min(|s.prod.data|, |s.buf| - |Queue(s)|)]
  {
    QueueFits(s);
    hide Inv, Queue, StepProducer, Count, Repeat, Run, Shape;
    var n := Min(|s.prod.data|, |s.buf| - |Queue(s)|);
    RepeatFront(StepIn, k);
    RunStep(s, Repeat(StepIn, k));
    ProducerSamples(s);
    RepeatCounts(StepIn, k - 1);
    var t := Next(s, StepIn);
    assert t.prod == PBranch(s.prod.data, n) && t.accepted == s.accepted;
    InFromBranch(t, Repeat(StepIn, k - 1));
  }

  lemma InAloneCalled(s: State, k: nat)
    requires Inv(s) && s.prod.PCheck? && k > 3 + Min(|s.prod.data|, |s.buf| - |Queue(s)|)
    ensures |Queue(s)| <= |s.buf|
    ensures var t := Run(s, Repeat(StepIn, k));
            t.prod.PIdle? && t.accepted == s.accepted + s.prod.data[..Min(|s.prod.data|, |s.buf| - |Queue(s)|)]
  {
    QueueFits(s);
    hide Inv, Queue, StepProducer, Count, Repeat, Run;
    RepeatFront(StepIn, k);
    RunStep(s, Repeat(StepIn, k));
    ProducerChecks(s);
    SameQueueIn(s, Next(s, StepIn));
    if |Queue(s)| == |s.buf| {
      RepeatCounts(StepIn, k - 1);
      IdleProducer(Next(s, StepIn), Repeat(StepIn, k - 1));
      assert s.prod.data[..0] == [];
    } else {
      InAloneSampled(Next(s, StepIn), k - 1);
    }
  }

  /** csi_ringbuf_in on its own: with enough steps it ends, and what it adds are the first
      Min(length, room) bytes of its data. */
  lemma InAlone(s: State, data: seq<byte>, k: nat)
    requires Inv(s) && s.prod.PIdle? && k > 3 + Min(|data|, |s.buf| - |Queue(s)|)
    ensures |Queue(s)| <= |s.buf|
    ensures var t := Run(s, [CallIn(data)] + Repeat(StepIn, k));
            t.prod.PIdle? && t.accepted == s.accepted + data[..Min(|data|, |s.buf| - |Queue(s)|)]
  {
    QueueFits(s);
    hide Inv, Queue, Repeat, Run;
    var acts := [CallIn(data)] + Repeat(StepIn, k);
    assert acts[1..] == Repeat(StepIn, k);
    RunStep(s, acts);
    SameQueueIn(s, Next(s, CallIn(data)));
    InAloneCalled(Next(s, CallIn(data)), k);
  }
}
