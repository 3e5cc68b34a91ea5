/** Interrupt descriptors: a linked chain of actions walked through its link fields, an enable
    counter and a controller enable bit, under nested interrupt locks
    (components/chip_d1/sys/d1/interrupt.c, plic.c and irqflags.h). */
module IrqTable {
  import opened Basics
  import opened IrqModel

  /** struct irqaction */
  class Action {
    const irq: nat
    const handler: int
    const devId: int
    const noSuspend: bool
    var irqNums: nat
    var next: Action?

    constructor (irq: nat, handler: int, devId: int, noSuspend: bool)
      ensures this.irq == irq && AsReg() == Reg(handler, devId, noSuspend)
      ensures next == null && irqNums == 0
    {
      this.irq, this.handler, this.devId, this.noSuspend := irq, handler, devId, noSuspend;
      irqNums, next := 0, null;
    }

    function AsReg(): Reg {
      Reg(handler, devId, noSuspend)
    }
  }

  /** What the outside world sees. */
  datatype Event = Called(irq: nat, handler: int, devId: int) | EndOfInterrupt(irq: nat)

  /** The status register's interrupt bit, and what happened so far. */
  class Cpu {
    var sie: bool
    ghost var bits: seq<bool>  // the bit after each lock and unlock
    var events: seq<Event>

    constructor (interrupts: bool)
      ensures sie == interrupts && events == [] && bits == []
    {
      sie, events, bits := interrupts, [], [];
    }

    /** awos_arch_lock_irq */
    method Lock() returns (flags: bool)
      modifies `sie, `bits
      ensures flags == old(sie) && !sie && bits == old(bits) + [sie]
    {
      flags := sie;
      sie := false;
      bits := bits + [sie];
    }

    /** awos_arch_unlock_irq: it only ever sets the bit. */
    method Unlock(flags: bool)
      modifies `sie, `bits
      ensures sie == (old(sie) || flags) && bits == old(bits) + [sie]
    {
      if flags {
        sie := true;
      }
      bits := bits + [sie];
    }

    method Emit(e: Event)
      modifies `events
      ensures events == old(events) + [e]
    {
      events := events + [e];
    }
  }

  ghost function Regs(c: seq<Action>): (r: seq<Reg>)
    ensures |r| == |c|
  {
    seq(|c|, k requires 0 <= k < |c| => c[k].AsReg())
  }

  /** Action k of a chain links to action k + 1; the last one ends it. */
  ghost predicate LinkAt(c: seq<Action>, k: nat)
    requires k < |c|
    reads c`next
  {
    c[k].next == if k + 1 < |c| then c[k + 1] else null
  }

  /** `head` starts exactly the chain c, which is acyclic and belongs to line i. */
  ghost predicate ChainOk(head: Action?, c: seq<Action>, i: nat)
    reads c`next
  {
    && head == (if c == [] then null else c[0])
    && (forall k :: 0 <= k < |c| ==> c[k].irq == i && LinkAt(c, k))
    && (forall j, k :: 0 <= j < k < |c| ==> c[j] != c[k])
  }

  lemma SetupLine(c: seq<Action>, a: Action, number: int, enabled: bool)
    ensures AfterSetup(Line(Regs(c), number, enabled), a.AsReg()) == Line(Regs(c + [a]), 1, true)
  {
  }

  /** What a walk for a device has learnt after k actions. */
  lemma EarliestIs(c: seq<Action>, devId: int, k: nat)
    requires k <= |c| && (forall j :: 0 <= j < k ==> c[j].devId != devId) && (k < |c| ==> c[k].devId == devId)
    ensures Earliest(Regs(c), devId) == k
  {
    assert forall j :: 0 <= j < |c| ==> Regs(c)[j].devId == c[j].devId;
  }

  lemma FreeLine(c: seq<Action>, devId: int, k: nat, number: int, enabled: bool)
    requires k < |c| && Earliest(Regs(c), devId) == k
    ensures var rest := c[..k] + c[k + 1..];
            AfterFree(Line(Regs(c), number, enabled), devId)
            == if rest == [] then Line([], number - 1, false) else Line(Regs(rest), number, enabled)
  {
    var rest := c[..k] + c[k + 1..];
    assert Regs(rest) == RemoveAt(Regs(c), k);
  }

  lemma NothingToFree(c: seq<Action>, devId: int, number: int, enabled: bool)
    requires Earliest(Regs(c), devId) == |c|
    ensures AfterFree(Line(Regs(c), number, enabled), devId) == Line(Regs(c), number, enabled)
  {
  }

  lemma EmptyMeansNull(head: Action?, c: seq<Action>, i: nat)
    requires ChainOk(head, c, i)
    ensures head == (if c == [] then null else c[0]) && (c == [] ==> Regs(c) == [])
  {
  }

  lemma LinkOf(head: Action?, c: seq<Action>, i: nat, k: nat)
    requires ChainOk(head, c, i) && k < |c|
    ensures c[k].next == if k + 1 < |c| then c[k + 1] else null
    ensures forall j :: 0 <= j < k ==> c[j] != c[k]
    ensures forall j :: k < j < |c| ==> c[j] != c[k]
  {
    assert LinkAt(c, k);
  }

  ghost predicate Linear(c: seq<Action>, i: nat) {
    && (forall k :: 0 <= k < |c| ==> c[k].irq == i)
    && (forall j, k :: 0 <= j < k < |c| ==> c[j] != c[k])
  }

  lemma ChainLinks(head: Action?, c: seq<Action>, i: nat)
    requires ChainOk(head, c, i)
    ensures Linear(c, i)
    ensures forall j :: 0 <= j < |c| ==> c[j].next == Follower(c, j)
  {
    assert forall j :: 0 <= j < |c| ==> LinkAt(c, j);
  }

  function Follower(c: seq<Action>, j: nat): Action? {
    if j + 1 < |c| then c[j + 1] else null
  }

  /** Action j's link once action k was skipped. */
  function SkipLink(c: seq<Action>, k: nat, j: nat): Action? {
    Follower(c, if j + 1 == k then k else j)
  }

  lemma SkippedLink(c: seq<Action>, k: nat, j: nat)
    requires k < |c| && j < |c| - 1
    requires var m := if j < k then j else j + 1; c[m].next == SkipLink(c, k, m)
    ensures LinkAt(c[..k] + c[k + 1..], j)
  {
    var r := c[..k] + c[k + 1..];
    assert r[j] == c[if j < k then j else j + 1];
    assert j + 1 < |r| ==> r[j + 1] == c[if j + 1 < k then j + 1 else j + 2];
  }

  lemma SkippedLinear(c: seq<Action>, i: nat, k: nat)
    requires k < |c| && Linear(c, i)
    ensures Linear(c[..k] + c[k + 1..], i)
  {
  }

  lemma SkippedIsOut(c: seq<Action>, i: nat, k: nat)
    requires k < |c| && Linear(c, i)
    ensures c[k] !in c[..k] + c[k + 1..]
  {
  }

  /** The chain without action k is linked if only its predecessor's link was changed to skip it. */
  lemma SkippedOk(head: Action?, c: seq<Action>, i: nat, k: nat)
    requires k < |c| && Linear(c, i)
    requires forall j :: 0 <= j < |c| ==> c[j].next == SkipLink(c, k, j)
    requires head == if k > 0 then c[0] else Follower(c, 0)
    ensures ChainOk(head, c[..k] + c[k + 1..], i)
  {
    var r := c[..k] + c[k + 1..];
    SkippedLinear(c, i, k);
    hide Linear, SkipLink;
    forall j | 0 <= j < |r| ensures LinkAt(r, j) {
      var m := if j < k then j else j + 1;
      assert c[m].next == SkipLink(c, k, m);
      SkippedLink(c, k, j);
    }
    LinearOk(head, r, i);
  }

  lemma LinearOk(head: Action?, r: seq<Action>, i: nat)
    requires Linear(r, i) && (forall j :: 0 <= j < |r| ==> LinkAt(r, j)) && head == if r == [] then null else r[0]
    ensures ChainOk(head, r, i)
  {
  }

  lemma SuspendableIs(c: seq<Action>)
    ensures Suspendable(Regs(c)) <==> exists k :: 0 <= k < |c| && !c[k].noSuspend
  {
    forall k | 0 <= k < |c| ensures Regs(c)[k].noSuspend == c[k].noSuspend {
    }
  }

  lemma ToggledIs(c: seq<Action>, number: int, enabled: bool, on: bool)
    ensures var l := Line(Regs(c), number, enabled);
            (if on then AfterResume(l) else AfterSuspend(l)).enabled
            == if number != 0 && exists k :: 0 <= k < |c| && !c[k].noSuspend then on else enabled
  {
    SuspendableIs(c);
  }

  /** struct irq_desc, with the line's enable bit of the controller */
  class Desc {
    const irq: nat
    const cpu: Cpu
    var action: Action?
    var number: int
    var enabled: bool
    ghost var chain: seq<Action>

    ghost predicate Valid()
      reads `chain, `action, chain`next
    {
      ChainOk(action, chain, irq)
    }

    ghost function AsLine(): Line
      reads this
    {
      Line(Regs(chain), number, enabled)
    }

    /** The state plic_init leaves; it does not touch the enable bit of line 0. */
    constructor (irq: nat, cpu: Cpu, enabled: bool)
      ensures Valid() && chain == [] && AsLine() == Line([], 0, enabled) && this.irq == irq && this.cpu == cpu
    {
      this.irq, this.cpu := irq, cpu;
      action, number, this.enabled, chain := null, 0, enabled, [];
    }

    /** enable_irq: count up and switch on, in a lock section of its own. */
    method EnableIrq()
      modifies `number, `enabled, cpu`sie, cpu`bits
      ensures number == old(number) + 1 && enabled && cpu.sie == old(cpu.sie)
      ensures cpu.bits == old(cpu.bits) + [false, cpu.sie]
    {
      var flags := cpu.Lock();
      number := number + 1;
      enabled := true;
      cpu.Unlock(flags);
    }

    /** disable_irq */
    method DisableIrq()
      modifies `number, `enabled, cpu`sie, cpu`bits
      ensures number == old(number) - 1 && !enabled && cpu.sie == old(cpu.sie)
      ensures cpu.bits == old(cpu.bits) + [false, cpu.sie]
    {
      var flags := cpu.Lock();
      number := number - 1;
      enabled := false;
      cpu.Unlock(flags);
    }

    /** The chain walk of __setup_irq: find the end through the link fields and hang the action
        there. */
    method Append(added: Action)
      requires Valid() && added.irq == irq && added.next == null && added !in chain
      modifies `chain, `action, chain`next
      ensures Valid() && chain == old(chain) + [added]
    {
      ghost var c := chain;
      var prev: Action? := null;
      var cur := action;
      ghost var k := 0;
      while cur != null
        invariant 0 <= k <= |c|
        invariant cur == if k < |c| then c[k] else null
        invariant prev == if k == 0 then null else c[k - 1]
        decreases |c| - k
      {
        assert LinkAt(c, k);
        prev := cur;
        cur := cur.next;
        k := k + 1;
      }
      if prev == null {
        action := added;
      } else {
        prev.next := added;
      }
      chain := c + [added];
      forall j | 0 <= j < |chain| ensures chain[j].irq == irq && LinkAt(chain, j) {
        if j < |c| { assert old(LinkAt(c, j)); }
      }
    }

    /** __setup_irq; interrupts stay masked from its lock to its unlock, through the section of
        enable_irq inside it. */
    method Setup(added: Action)
      requires Valid() && added.irq == irq && added.next == null && added !in chain
      modifies this, chain, cpu`sie, cpu`bits
      ensures Valid() && chain == old(chain) + [added]
      ensures AsLine() == AfterSetup(old(AsLine()), added.AsReg()) && number == 1 && enabled
      ensures cpu.sie == old(cpu.sie)
      ensures cpu.bits == old(cpu.bits) + [false, false, false, cpu.sie]
    {
      hide ChainOk, AfterSetup, Regs;
      SetupLine(chain, added, number, enabled);
      number := 0;
      var flags := cpu.Lock();
      Append(added);
      EnableIrq();
      cpu.Unlock(flags);
    }

    /** The walk of __free_irq through a pointer to a pointer: `prev` is the action whose link
        field it points at, or null for the descriptor's. */
    method Find(devId: int) returns (prev: Action?, found: Action?, ghost k: nat)
      requires Valid()
      ensures k == Earliest(Regs(chain), devId)
      ensures found == if k < |chain| then chain[k] else null
      ensures prev == if k == 0 then null else chain[k - 1]
    {
      ghost var c := chain;
      prev, found := null, action;
      k := 0;
      while found != null && found.devId != devId
        invariant 0 <= k <= |c|
        invariant found == if k < |c| then c[k] else null
        invariant prev == if k == 0 then null else c[k - 1]
        invariant forall j :: 0 <= j < k ==> c[j].devId != devId
        decreases |c| - k
      {
        assert LinkAt(c, k);
        prev := found;
        found := found.next;
        k := k + 1;
      }
      EarliestIs(c, devId, k);
    }

    /** The found action leaves the chain. */
    method Unhook(prev: Action?, found: Action, ghost k: nat)
      requires Valid() && k < |chain| && found == chain[k] && prev == if k == 0 then null else chain[k - 1]
      modifies `chain, `action, chain`next
      ensures Valid() && chain == old(chain)[..k] + old(chain)[k + 1..] && found !in chain
    {
      hide ChainOk;
      ghost var c := chain;
      ChainLinks(action, c, irq);
      SkippedIsOut(c, irq, k);
      EmptyMeansNull(action, c, irq);
      if prev == null {
        action := found.next;
      } else {
        prev.next := found.next;
      }
      SkippedOk(action, c, irq, k);
      chain := c[..k] + c[k + 1..];
    }

    /** __free_irq; interrupts stay masked here too, through the section of disable_irq inside. */
    method FreeAction(devId: int) returns (found: Action?)
      requires Valid()
      modifies this, chain, cpu`sie, cpu`bits
      ensures Valid()
      ensures AsLine() == AfterFree(old(AsLine()), devId)
      ensures found == null <==> Earliest(Regs(old(chain)), devId) == |old(chain)|
      ensures found != null ==> found == old(chain)[Earliest(Regs(old(chain)), devId)] && found !in chain
      ensures found != null ==> chain == RemoveAt(old(chain), Earliest(Regs(old(chain)), devId))
      ensures found == null || chain != [] ==> number == old(number) && enabled == old(enabled)
      ensures found != null && chain == [] ==> number == old(number) - 1 && !enabled
      ensures cpu.sie == old(cpu.sie)
      ensures cpu.bits == old(cpu.bits) + (if found != null && chain == [] then [false, false, false] else [false]) + [cpu.sie]
    {
      hide Regs, Earliest, ChainOk, AfterFree;
      ghost var c, n, e := chain, number, enabled;
      var flags := cpu.Lock();
      var prev;
      ghost var k;
      prev, found, k := Find(devId);
      if found == null {
        NothingToFree(c, devId, n, e);
        cpu.Unlock(flags);
        return;
      }
      FreeLine(c, devId, k, n, e);
      Unhook(prev, found, k);
      EmptyMeansNull(action, chain, irq);
      if action == null {
        DisableIrq();
      }
      cpu.Unlock(flags);
    }

    /** handle_level_irq: every handler once, in order, then one end of interrupt. */
    method HandleLevel()
      requires Valid()
      modifies chain`irqNums, cpu`events
      ensures Valid()
      ensures var before, n := |old(cpu.events)|, |chain|;
              && |cpu.events| == before + n + 1 && cpu.events[..before] == old(cpu.events)
              && (forall k :: 0 <= k < n ==> cpu.events[before + k] == Called(irq, chain[k].handler, chain[k].devId))
              && cpu.events[before + n] == EndOfInterrupt(irq)
      ensures forall k :: 0 <= k < |chain| ==> chain[k].irqNums == old(chain[k].irqNums) + 1
    {
      hide ChainOk;
      EmptyMeansNull(action, chain, irq);
      var cur := action;
      ghost var c, e := chain, cpu.events;
      ghost var k := 0;
      while cur != null
        invariant 0 <= k <= |c| && chain == c && Valid()
        invariant cur == if k < |c| then c[k] else null
        invariant |cpu.events| == |e| + k && cpu.events[..|e|] == e
        invariant forall j :: 0 <= j < k ==> cpu.events[|e| + j] == Called(irq, c[j].handler, c[j].devId)
        invariant forall j :: 0 <= j < |c| ==> c[j].irqNums == old(c[j].irqNums) + if j < k then 1 else 0
        decreases |c| - k
      {
        LinkOf(action, c, irq, k);
        cpu.Emit(Called(irq, cur.handler, cur.devId));
        cur.irqNums := cur.irqNums + 1;
        cur := cur.next;
        k := k + 1;
      }
      cpu.Emit(EndOfInterrupt(irq));
    }

    /** One line of irq_suspend (on == false) or irq_resume (on == true): the loop over the actions
        toggles the line at the first one that may be suspended. */
    method ToggleSuspendable(on: bool)
      requires Valid()
      modifies `enabled
      ensures Valid()
      ensures AsLine() == if on then AfterResume(old(AsLine())) else AfterSuspend(old(AsLine()))
      ensures enabled == if number != 0 && exists k :: 0 <= k < |chain| && !chain[k].noSuspend then on else old(enabled)
    {
      SuspendableIs(chain);
      var cur := action;
      ghost var c := chain;
      ghost var k := 0;
      while cur != null
        invariant 0 <= k <= |c|
        invariant cur == if k < |c| then c[k] else null
        invariant enabled == old(enabled)
        invariant number != 0 ==> forall j :: 0 <= j < k ==> c[j].noSuspend
        decreases |c| - k
      {
        assert LinkAt(c, k);
        if number != 0 && !cur.noSuspend {
          enabled := on;
          assert !c[k].noSuspend;
          break;
        }
        cur := cur.next;
        k := k + 1;
      }
    }
  }

  // ---------------------------------------------------------------------------
  // The table of all lines.

  const IRQ_NOTCONNECTED: nat := 0x8000_0000

  datatype IrqFlags = IrqFlags(shared: bool, noSuspend: bool, condSuspend: bool)

  class Table {
    const descs: seq<Desc>  // g_irq_desc
    const cpu: Cpu

    ghost predicate Valid()
      reads descs`chain, descs`action, set i, k | 0 <= i < |descs| && 0 <= k < |descs[i].chain| :: descs[i].chain[k]
    {
      && |descs| == NR_IRQS
      && forall i :: 0 <= i < NR_IRQS ==> descs[i].irq == i && descs[i].cpu == cpu && descs[i].Valid()
    }

    constructor (lines: seq<Desc>, cpu: Cpu)
      requires |lines| == NR_IRQS
      requires forall i :: 0 <= i < NR_IRQS ==> lines[i].irq == i && lines[i].cpu == cpu && lines[i].Valid()
      ensures Valid() && descs == lines && this.cpu == cpu
    {
      descs, this.cpu := lines, cpu;
    }

    /** Actions of different lines are different objects. */
    lemma LinesApart(i: nat, j: nat)
      requires Valid() && i < NR_IRQS && j < NR_IRQS && i != j
      ensures descs[i] != descs[j]
      ensures forall a :: a in descs[i].chain ==> a !in descs[j].chain
    {
      assert descs[i].Valid() && descs[j].Valid();
    }

    /** request_threaded_irq. A handler or device of zero is NULL; `memory` says whether malloc
        finds room. A handler on a shared line is called once right away. */
    method RequestIrq(irq: nat, handler: int, flags: IrqFlags, devId: int, memory: bool) returns (ret: int)
      requires Valid()
      modifies cpu, if irq < |descs| then {descs[irq]} else {}
      modifies if irq < |descs| then set a | a in descs[irq].chain else {}
      ensures Valid()
      ensures ret == 0 || ret == -1
      ensures !flags.shared ==> (ret == 0 <==> irq < 100 && handler != 0 && memory && !flags.condSuspend)
      ensures flags.shared ==>
                (ret == 0 <==> irq < 100 && handler != 0 && memory && devId != 0 && !(flags.condSuspend && flags.noSuspend))
      ensures ret == 0 ==>
                && descs[irq].AsLine() == AfterSetup(old(descs[irq].AsLine()), Reg(handler, devId, flags.noSuspend))
                && cpu.events == old(cpu.events) + if flags.shared then [Called(irq, handler, devId)] else []
      ensures ret != 0 ==> cpu.events == old(cpu.events) && (irq < NR_IRQS ==> descs[irq].AsLine() == old(descs[irq].AsLine()))
      ensures forall i :: 0 <= i < NR_IRQS && i != irq ==> descs[i].AsLine() == old(descs[i].AsLine())
      ensures cpu.sie == old(cpu.sie)
    {
      hide Desc.AsLine, AfterSetup, Desc.Valid;
      ret := Check(irq, handler, flags, devId);
      if ret != 0 || !memory {
        return -1;
      }
      SetupLineOf(irq, handler, devId, flags.noSuspend);
      if flags.shared {
        TryHandler(irq, handler, devId);
      }
    }

    /** The refusals of request_threaded_irq, in their order. */
    static method Check(irq: nat, handler: int, flags: IrqFlags, devId: int) returns (ret: int)
      ensures ret == 0 || ret == -1
      ensures !flags.shared ==> (ret == 0 <==> irq < 100 && handler != 0 && !flags.condSuspend)
      ensures flags.shared ==>
                (ret == 0 <==> irq < 100 && handler != 0 && devId != 0 && !(flags.condSuspend && flags.noSuspend))
    {
      if irq == IRQ_NOTCONNECTED {
        return -1;
      }
      if (flags.shared && devId == 0) || (!flags.shared && flags.condSuspend) || (flags.noSuspend && flags.condSuspend) {
        return -1;
      }
      if irq >= NR_IRQS {
        return -1;
      }
      if handler == 0 {
        return -1;
      }
      ret := 0;
    }

    /** The handler of a shared line is tried once with interrupts locked. */
    method TryHandler(irq: nat, handler: int, devId: int)
      modifies cpu
      ensures cpu.sie == old(cpu.sie) && cpu.events == old(cpu.events) + [Called(irq, handler, devId)]
    {
      var saved := cpu.Lock();
      cpu.Emit(Called(irq, handler, devId));
      cpu.Unlock(saved);
    }

    /** The new action goes to its line; the other lines keep theirs. */
    method SetupLineOf(irq: nat, handler: int, devId: int, noSuspend: bool)
      requires Valid() && irq < NR_IRQS
      modifies cpu`sie, cpu`bits, descs[irq], set a | a in descs[irq].chain
      ensures Valid()
      ensures descs[irq].AsLine() == AfterSetup(old(descs[irq].AsLine()), Reg(handler, devId, noSuspend))
      ensures forall i :: 0 <= i < NR_IRQS && i != irq ==> descs[i].AsLine() == old(descs[i].AsLine())
      ensures forall a :: a in descs[irq].chain ==> a in old(descs[irq].chain) || fresh(a)
      ensures cpu.sie == old(cpu.sie)
    {
      hide AfterSetup, Regs, ChainOk;
      var desc := descs[irq];
      assert desc.Valid();
      forall i | 0 <= i < NR_IRQS && i != irq ensures descs[i] != desc && forall a :: a in descs[i].chain ==> a !in desc.chain {
        LinesApart(i, irq);
      }
      var action := new Action(irq, handler, devId, noSuspend);
      desc.Setup(action);
      forall i | 0 <= i < NR_IRQS && i != irq ensures descs[i].Valid() {
        assert old(descs[i].Valid());
        assert descs[i].chain == old(descs[i].chain) && descs[i].action == old(descs[i].action);
        assert forall a :: a in descs[i].chain ==> a.next == old(a.next);
      }
    }

    /** free_irq */
    method FreeIrq(irq: nat, devId: int) returns (done: bool)
      requires Valid()
      modifies cpu`sie, cpu`bits, if irq < |descs| then {descs[irq]} else {}
      modifies if irq < |descs| then set a | a in descs[irq].chain else {}
      ensures Valid()
      ensures irq < NR_IRQS ==> descs[irq].AsLine() == AfterFree(old(descs[irq].AsLine()), devId)
      ensures done <==> irq < NR_IRQS && exists r :: r in old(descs[irq].AsLine()).chain && r.devId == devId
      ensures forall i :: 0 <= i < NR_IRQS && i != irq ==> descs[i].AsLine() == old(descs[i].AsLine())
      ensures cpu.sie == old(cpu.sie)
    {
      hide AfterFree, Regs, Earliest, ChainOk;
      if irq >= NR_IRQS {
        return false;
      }
      var desc := descs[irq];
      assert desc.Valid();
      forall i | 0 <= i < NR_IRQS && i != irq ensures descs[i] != desc && forall a :: a in descs[i].chain ==> a !in desc.chain {
        LinesApart(i, irq);
      }
      EarliestExists(Regs(desc.chain), devId);
      var found := desc.FreeAction(devId);
      done := found != null;
      forall i | 0 <= i < NR_IRQS && i != irq ensures descs[i].Valid() {
        assert old(descs[i].Valid());
        assert descs[i].chain == old(descs[i].chain) && descs[i].action == old(descs[i].action);
        assert forall a :: a in descs[i].chain ==> a.next == old(a.next);
      }
    }

    static lemma EarliestExists(c: seq<Reg>, devId: int)
      ensures Earliest(c, devId) < |c| <==> exists r :: r in c && r.devId == devId
    {
      if Earliest(c, devId) < |c| { assert c[Earliest(c, devId)] in c; }
    }

    /** generic_handle_irq */
    method HandleIrq(irq: nat) returns (ret: int)
      requires Valid()
      modifies cpu`events, (if irq < |descs| then set a | a in descs[irq].chain else {})`irqNums
      ensures Valid() && ret == if irq < NR_IRQS then 0 else -1
      ensures irq >= NR_IRQS ==> cpu.events == old(cpu.events)
      ensures irq < NR_IRQS ==>
                var before, chain := |old(cpu.events)|, descs[irq].chain;
                && |cpu.events| == before + |chain| + 1 && cpu.events[..before] == old(cpu.events)
                && (forall k :: 0 <= k < |chain| ==> cpu.events[before + k] == Called(irq, chain[k].handler, chain[k].devId))
                && cpu.events[before + |chain|] == EndOfInterrupt(irq)
    {
      hide ChainOk, Regs;
      if irq >= NR_IRQS {
        return -1;
      }
      assert descs[irq].Valid();
      descs[irq].HandleLevel();
      ret := 0;
    }

    /** irq_suspend (on == false) and irq_resume (on == true) */
    method ToggleAll(on: bool)
      requires Valid()
      modifies descs`enabled, cpu`sie, cpu`bits
      ensures Valid() && cpu.sie == old(cpu.sie)
      ensures forall i :: 0 <= i < NR_IRQS ==>
                descs[i].AsLine() == if on then AfterResume(old(descs[i].AsLine())) else AfterSuspend(old(descs[i].AsLine()))
      ensures forall i :: 0 <= i < NR_IRQS ==>
                descs[i].enabled == if descs[i].number != 0 && exists k :: 0 <= k < |descs[i].chain| && !descs[i].chain[k].noSuspend
                                    then on else old(descs[i].enabled)
    {
      hide AfterResume, AfterSuspend, Regs, ChainOk;
      forall j, k | 0 <= j < k < NR_IRQS ensures descs[j] != descs[k] {
      }
      var flags := cpu.Lock();
      var i := 0;
      while i < NR_IRQS
        invariant 0 <= i <= NR_IRQS && Valid() && !cpu.sie
        invariant forall j :: 0 <= j < NR_IRQS ==>
                    descs[j].AsLine() == if j >= i then old(descs[j].AsLine())
                                         else if on then AfterResume(old(descs[j].AsLine()))
                                         else AfterSuspend(old(descs[j].AsLine()))
      {
        assert descs[i].Valid();
        descs[i].ToggleSuspendable(on);
        i := i + 1;
      }
      forall j | 0 <= j < NR_IRQS
        ensures descs[j].enabled == if descs[j].number != 0 && exists k :: 0 <= k < |descs[j].chain| && !descs[j].chain[k].noSuspend
                                    then on else old(descs[j].enabled)
      {
        ToggledIs(descs[j].chain, descs[j].number, old(descs[j].enabled), on);
      }
      cpu.Unlock(flags);
    }
  }
}
