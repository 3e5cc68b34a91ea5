/** Interrupt lines as their users see them: the registered actions in order, the enable counter
    and the enable bit; and what holds over runs of requests and frees
    (components/chip_d1/sys/d1/interrupt.c). */
module IrqModel {
  import opened Basics

  const NR_IRQS: nat := 100

  /** A registered action: the handler, the device it serves and the flag IRQF_NO_SUSPEND. */
  datatype Reg = Reg(handler: int, devId: int, noSuspend: bool)

  datatype Line = Line(chain: seq<Reg>, number: int, enabled: bool)

  // ---------------------------------------------------------------------------
  // What the calls do.

  /** __setup_irq: the action goes to the end of the chain; the counter restarts at one. */
  function AfterSetup(l: Line, r: Reg): Line {
    Line(l.chain + [r], 1, true)
  }

  /** Where the earliest action of a device stands, or |chain|. */
  function Earliest(chain: seq<Reg>, devId: int): (k: nat)
    ensures k <= |chain|
    ensures forall j :: 0 <= j < k ==> chain[j].devId != devId
    ensures k < |chain| ==> chain[k].devId == devId
  {
    if chain == [] || chain[0].devId == devId then 0 else 1 + Earliest(chain[1..], devId)
  }

  /** __free_irq: the earliest action of the device leaves; the last one turns the line off. */
  function AfterFree(l: Line, devId: int): Line {
    var k := Earliest(l.chain, devId);
    if k == |l.chain| then l else
      var rest := RemoveAt(l.chain, k);
      if rest == [] then Line([], l.number - 1, false) else l.(chain := rest)
  }

  /** Some action may be suspended. */
  predicate Suspendable(chain: seq<Reg>) {
    exists k :: 0 <= k < |chain| && !chain[k].noSuspend
  }

  function AfterSuspend(l: Line): Line {
    if l.number != 0 && Suspendable(l.chain) then l.(enabled := false) else l
  }

  function AfterResume(l: Line): Line {
    if l.number != 0 && Suspendable(l.chain) then l.(enabled := true) else l
  }

  // ---------------------------------------------------------------------------
  // Runs of requests and frees on one line.

  datatype Op = Request(r: Reg) | Free(devId: int)

  function Step(l: Line, op: Op): Line {
    match op
    case Request(r) => AfterSetup(l, r)
    case Free(d) => AfterFree(l, d)
  }

  function Run(l: Line, ops: seq<Op>): Line {
    if ops == [] then l else Step(Run(l, ops[..|ops| - 1]), ops[|ops| - 1])
  }

  /** The line is on with a count of one exactly while an action is registered. */
  predicate Consistent(l: Line) {
    if l.chain == [] then l.number == 0 && !l.enabled else l.number == 1 && l.enabled
  }

  lemma {:induction false} RunConsistent(l: Line, ops: seq<Op>)
    requires Consistent(l)
    ensures Consistent(Run(l, ops))
  {
    if ops != [] {
      RunConsistent(l, ops[..|ops| - 1]);
    }
  }

  /** The actions of one device, in order. */
  function Of(chain: seq<Reg>, d: int): seq<Reg> {
    if chain == [] then [] else
      var r := chain[|chain| - 1];
      Of(chain[..|chain| - 1], d) + if r.devId == d then [r] else []
  }

  /** Everything requested in a run, in order. */
  function Requested(ops: seq<Op>): seq<Reg> {
    if ops == [] then [] else
      var op := ops[|ops| - 1];
      Requested(ops[..|ops| - 1]) + if op.Request? then [op.r] else []
  }

  /** The frees of a device in a run that found an action. */
  function Freed(l: Line, ops: seq<Op>, d: int): nat {
    if ops == [] then 0 else
      var op := ops[|ops| - 1];
      var before := Run(l, ops[..|ops| - 1]);
      Freed(l, ops[..|ops| - 1], d)
      + if op == Free(d) && Earliest(before.chain, d) < |before.chain| then 1 else 0
  }

  lemma {:induction false} OfConcat(a: seq<Reg>, b: seq<Reg>, d: int)
    ensures Of(a + b, d) == Of(a, d) + Of(b, d)
    decreases |b|
  {
    if b == [] {
      assert a + b == a;
    } else {
      assert (a + b)[..|a + b| - 1] == a + b[..|b| - 1];
      OfConcat(a, b[..|b| - 1], d);
    }
  }

  lemma {:induction false} OfNone(a: seq<Reg>, d: int)
    requires forall k :: 0 <= k < |a| ==> a[k].devId != d
    ensures Of(a, d) == []
  {
    if a != [] {
      OfNone(a[..|a| - 1], d);
    }
  }

  lemma OfOne(r: Reg, d: int)
    ensures Of([r], d) == if r.devId == d then [r] else []
  {
    assert [r][..0] == [];
  }

  /** Removing the earliest action of a device takes the first of its actions and no other's. */
  lemma OfWithout(chain: seq<Reg>, devId: int, d: int)
    requires Earliest(chain, devId) < |chain|
    ensures d == devId ==> Of(chain, d) != []
    ensures Of(RemoveAt(chain, Earliest(chain, devId)), d) == if d == devId then Of(chain, d)[1..] else Of(chain, d)
  {
    hide Of;
    var k := Earliest(chain, devId);
    assert chain == chain[..k] + ([chain[k]] + chain[k + 1..]);
    OfConcat(chain[..k], [chain[k]] + chain[k + 1..], d);
    OfConcat([chain[k]], chain[k + 1..], d);
    OfConcat(chain[..k], chain[k + 1..], d);
    OfOne(chain[k], d);
    if d == devId {
      OfNone(chain[..k], d);
    }
  }

  lemma RunLast(l: Line, ops: seq<Op>, d: int)
    requires ops != []
    ensures var prev, op := ops[..|ops| - 1], ops[|ops| - 1];
            && Run(l, ops) == Step(Run(l, prev), op)
            && Requested(ops) == Requested(prev) + (if op.Request? then [op.r] else [])
            && Freed(l, ops, d) == Freed(l, prev, d)
                 + if op == Free(d) && Earliest(Run(l, prev).chain, d) < |Run(l, prev).chain| then 1 else 0
  {
  }

  /** What a line holds for a device after one more operation. */
  lemma StepOf(l: Line, op: Op, d: int)
    ensures var found := op == Free(d) && Earliest(l.chain, d) < |l.chain|;
            && (found ==> Of(l.chain, d) != [])
            && Of(Step(l, op).chain, d)
               == if found then Of(l.chain, d)[1..]
                  else Of(l.chain, d) + if op.Request? && op.r.devId == d then [op.r] else []
  {
    hide Of;
    match op
    case Request(r) =>
      OfConcat(l.chain, [r], d);
      OfOne(r, d);
    case Free(e) =>
      if Earliest(l.chain, e) < |l.chain| {
        OfWithout(l.chain, e, d);
      }
  }

  /** Over any run, what a line holds for a device are that device's requests in order, without as
      many of the earliest as were freed. */
  lemma {:induction false} ChainIsRequestsMinusFreed(l: Line, ops: seq<Op>, d: int)
    requires l.chain == []
    ensures Freed(l, ops, d) <= |Of(Requested(ops), d)|
    ensures Of(Run(l, ops).chain, d) == Of(Requested(ops), d)[Freed(l, ops, d)..]
  {
    if ops != [] {
      hide Of, Freed, Requested, Run, Step, Earliest;
      var prev, op := ops[..|ops| - 1], ops[|ops| - 1];
      ChainIsRequestsMinusFreed(l, prev, d);
      RunLast(l, ops, d);
      StepOf(Run(l, prev), op, d);
      var more: seq<Reg> := if op.Request? then [op.r] else [];
      OfConcat(Requested(prev), more, d);
      if op.Request? { OfOne(op.r, d); } else { OfNone([], d); }
      DropStep(Of(Requested(prev), d), Freed(l, prev, d), Of(more, d));
    }
  }

  lemma DropStep(all: seq<Reg>, n: nat, more: seq<Reg>)
    requires n <= |all|
    ensures (all + more)[n..] == all[n..] + more
    ensures n < |all| ==> all[n..][1..] == all[n + 1..]
    ensures all + [] == all && all[n..] + [] == all[n..]
  {
  }

  /** The requests that are left, in order, once n(d) of every device d were freed: a request
      stays exactly if at least n(d) requests of its device came before it. */
  ghost function Keep(rs: seq<Reg>, n: int -> nat): seq<Reg> {
    if rs == [] then [] else
      var prev, r := rs[..|rs| - 1], rs[|rs| - 1];
      Keep(prev, n) + if |Of(prev, r.devId)| >= n(r.devId) then [r] else []
  }

  lemma KeepOne(rs: seq<Reg>, r: Reg, n: int -> nat)
    ensures Keep(rs + [r], n) == Keep(rs, n) + if |Of(rs, r.devId)| >= n(r.devId) then [r] else []
    ensures Of(rs + [r], r.devId) == Of(rs, r.devId) + [r]
    ensures forall d :: d != r.devId ==> Of(rs + [r], d) == Of(rs, d)
  {
    assert (rs + [r])[..|rs|] == rs;
  }

  /** The choice depends on the counts of the devices requested only, and on no count up to what
      was requested before. */
  lemma {:induction false} KeepSame(rs: seq<Reg>, n: int -> nat, m: int -> nat, d: int)
    requires forall e :: e != d ==> m(e) == n(e)
    requires m(d) == n(d) || (|Of(rs, d)| <= n(d) && |Of(rs, d)| <= m(d))
    ensures Keep(rs, n) == Keep(rs, m)
  {
    if rs != [] {
      var prev, r := rs[..|rs| - 1], rs[|rs| - 1];
      assert rs == prev + [r];
      KeepOne(prev, r, n);
      KeepOne(prev, r, m);
      KeepSame(prev, n, m, d);
    }
  }

  lemma {:induction false} KeepCount(rs: seq<Reg>, n: int -> nat, d: int)
    ensures |Of(Keep(rs, n), d)| == if |Of(rs, d)| > n(d) then |Of(rs, d)| - n(d) else 0
  {
    hide Keep, Of;
    if rs != [] {
      var prev, r := rs[..|rs| - 1], rs[|rs| - 1];
      assert rs == prev + [r];
      KeepCount(prev, n, d);
      KeepOneOf(prev, r, n, d);
    } else {
      NothingKept(n, d);
    }
  }

  lemma KeepOneOf(rs: seq<Reg>, r: Reg, n: int -> nat, d: int)
    ensures |Of(rs + [r], d)| == |Of(rs, d)| + if r.devId == d then 1 else 0
    ensures |Of(Keep(rs + [r], n), d)| == |Of(Keep(rs, n), d)| + if r.devId == d && |Of(rs, d)| >= n(d) then 1 else 0
  {
    hide Keep, Of;
    KeepOne(rs, r, n);
    OfConcat(rs, [r], d);
    OfConcat(Keep(rs, n), [r], d);
    OfOne(r, d);
    assert Keep(rs, n) + [] == Keep(rs, n);
  }

  lemma NothingKept(n: int -> nat, d: int)
    ensures Keep([], n) == [] && Of([], d) == []
  {
  }

  lemma EarliestOf(c: seq<Reg>, d: int)
    ensures Earliest(c, d) < |c| <==> Of(c, d) != []
  {
    if Earliest(c, d) < |c| { OfWithout(c, d, d); } else { OfNone(c, d); }
  }

  lemma EarliestAppend(c: seq<Reg>, more: seq<Reg>, d: int)
    ensures Earliest(c, d) < |c| ==>
              Earliest(c + more, d) == Earliest(c, d) && RemoveAt(c + more, Earliest(c, d)) == RemoveAt(c, Earliest(c, d)) + more
  {
    var k := Earliest(c, d);
    if k < |c| {
      EarliestAt(c + more, d, k);
    }
  }

  lemma EarliestAt(c: seq<Reg>, d: int, k: nat)
    requires k < |c| && c[k].devId == d && forall j :: 0 <= j < k ==> c[j].devId != d
    ensures Earliest(c, d) == k
  {
  }

  /** One more free of a device takes the earliest of its requests that are left. */
  lemma {:induction false} KeepOneLess(rs: seq<Reg>, n: int -> nat, m: int -> nat, d: int)
    requires m(d) == n(d) + 1 && forall e :: e != d ==> m(e) == n(e)
    requires n(d) < |Of(rs, d)|
    ensures var c := Keep(rs, n); Earliest(c, d) < |c| && Keep(rs, m) == RemoveAt(c, Earliest(c, d))
  {
    hide Of, Earliest, Keep;
    NothingKept(n, d);
    var prev, r := rs[..|rs| - 1], rs[|rs| - 1];
    assert rs == prev + [r];
    KeepOne(prev, r, n);
    KeepOne(prev, r, m);
    var c := Keep(prev, n);
    if n(d) < |Of(prev, d)| {
      KeepOneLess(prev, n, m, d);
      EarliestAppend(c, if |Of(prev, r.devId)| >= n(r.devId) then [r] else [], d);
    } else {
      KeepSame(prev, n, m, d);
      KeepCount(prev, n, d);
      EarliestOf(c, d);
      assert forall j :: 0 <= j < |c| ==> c[j].devId != d;
      EarliestAt(c + [r], d, |c|);
      assert RemoveAt(c + [r], |c|) == c;
    }
  }

  ghost function FreedIn(l: Line, ops: seq<Op>): int -> nat {
    d => Freed(l, ops, d)
  }

  lemma FreeStep(rs: seq<Reg>, l: Line, e: int, n: int -> nat, m: int -> nat)
    requires l.chain == Keep(rs, n)
    requires forall d :: m(d) == n(d) + if d == e && Earliest(l.chain, e) < |l.chain| then 1 else 0
    ensures AfterFree(l, e).chain == Keep(rs, m)
  {
    hide Keep, Of;
    EarliestOf(l.chain, e);
    KeepCount(rs, n, e);
    if Earliest(l.chain, e) < |l.chain| {
      KeepOneLess(rs, n, m, e);
    } else {
      KeepSame(rs, n, m, e);
    }
  }

  /** Over any run a line's chain is the requests in order without, for each free that found one,
      the earliest action of its device: actions of different devices keep their order too. */
  lemma {:induction false} ChainIs(l: Line, ops: seq<Op>)
    requires l.chain == []
    ensures Run(l, ops).chain == Keep(Requested(ops), FreedIn(l, ops))
  {
    if ops != [] {
      hide Keep, Of, Freed, Requested, Run, Earliest;
      var prev, op := ops[..|ops| - 1], ops[|ops| - 1];
      ChainIs(l, prev);
      var rs, n, m := Requested(prev), FreedIn(l, prev), FreedIn(l, ops);
      forall d ensures m(d) == n(d) + if op == Free(d) && Earliest(Run(l, prev).chain, d) < |Run(l, prev).chain| then 1 else 0 {
        RunLast(l, ops, d);
      }
      match op {
        case Request(r) =>
          RunLast(l, ops, r.devId);
          KeepOne(rs, r, m);
          KeepSame(rs, n, m, r.devId);
          ChainIsRequestsMinusFreed(l, prev, r.devId);
        case Free(e) =>
          RunLast(l, ops, e);
          assert Requested(ops) == rs;
          FreeStep(rs, Run(l, prev), e, n, m);
      }
    } else {
      NothingKept(FreedIn(l, ops), 0);
    }
  }

  // ---------------------------------------------------------------------------
  // Suspend and resume.

  /** Suspending turns off exactly the lines with an action that allows it, and resuming with no
      change in between restores every line. */
  lemma {:induction false} SuspendResume(ops: seq<Op>)
    ensures var l := Run(Line([], 0, false), ops);
            && AfterSuspend(l).enabled == (l.enabled && forall k :: 0 <= k < |l.chain| ==> l.chain[k].noSuspend)
            && AfterResume(AfterSuspend(l)) == l
  {
    RunConsistent(Line([], 0, false), ops);
  }
}
