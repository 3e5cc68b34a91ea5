/** The totals mm_mallinfo reports and the recorded peak, over the abstract heap. */
module MmAccounts {
  import opened Basics
  import opened MmLayout
  import opened MmView
  import opened MmOps
  import opened MmRuns

  function UsedBytes(cs: seq<Chunk>): int {
    if cs == [] then 0 else
      var c := cs[|cs| - 1];
      UsedBytes(cs[..|cs| - 1]) + if c.used then c.size else 0
  }

  function FreeBytes(cs: seq<Chunk>): int {
    if cs == [] then 0 else
      var c := cs[|cs| - 1];
      FreeBytes(cs[..|cs| - 1]) + if c.used then 0 else c.size
  }

  function FreeCount(cs: seq<Chunk>): nat {
    if cs == [] then 0 else
      FreeCount(cs[..|cs| - 1]) + if cs[|cs| - 1].used then 0 else 1
  }

  /** The total is the size of the largest free chunk, or 0 if there is none. */
  ghost predicate IsMaxFree(cs: seq<Chunk>, m: int) {
    && (forall c :: c in cs && !c.used ==> c.size <= m)
    && (m == 0 || exists c :: c in cs && !c.used && c.size == m)
  }

  lemma MaxFreeMeans(cs: seq<Chunk>, m: int)
    requires IsMaxFree(cs, m)
    ensures forall c :: c in cs && !c.used ==> c.size <= m
    ensures m == 0 || exists c :: c in cs && !c.used && c.size == m
  {
  }

  lemma {:induction false} TotalsConcat(a: seq<Chunk>, b: seq<Chunk>)
    ensures UsedBytes(a + b) == UsedBytes(a) + UsedBytes(b)
    ensures FreeBytes(a + b) == FreeBytes(a) + FreeBytes(b)
    ensures FreeCount(a + b) == FreeCount(a) + FreeCount(b)
    decreases |b|
  {
    if b == [] {
      assert a + b == a;
    } else {
      var n := |b| - 1;
      assert (a + b)[..|a + b| - 1] == a + b[..n];
      TotalsConcat(a, b[..n]);
    }
  }

  lemma {:induction false} PrefixSpan(cs: seq<Chunk>, n: nat)
    requires Tiled(cs) && 0 < n <= |cs|
    ensures UsedBytes(cs[..n]) + FreeBytes(cs[..n]) == cs[n - 1].End() - cs[0].addr
    decreases n
  {
    assert cs[..n][..n - 1] == cs[..n - 1];
    if n > 1 {
      PrefixSpan(cs, n - 1);
      assert cs[n - 2].End() == cs[n - 1].addr;
    } else {
      assert cs[..0] == [];
    }
  }

  /** Every byte of the region is accounted for, as allocated or as free. */
  lemma BytesConserved(cs: seq<Chunk>)
    requires Tiled(cs)
    ensures UsedBytes(cs) + FreeBytes(cs) == cs[|cs| - 1].End() - cs[0].addr
  {
    PrefixSpan(cs, |cs|);
    assert cs[..|cs|] == cs;
  }

  lemma NoTotals()
    ensures UsedBytes([]) == FreeBytes([]) == FreeCount([]) == 0 && IsMaxFree([], 0)
  {
  }

  /** One more chunk of a walk. */
  lemma TotalsStep(cs: seq<Chunk>, k: nat)
    requires k < |cs|
    ensures UsedBytes(cs[..k + 1]) == UsedBytes(cs[..k]) + if cs[k].used then cs[k].size else 0
    ensures FreeBytes(cs[..k + 1]) == FreeBytes(cs[..k]) + if cs[k].used then 0 else cs[k].size
    ensures FreeCount(cs[..k + 1]) == FreeCount(cs[..k]) + if cs[k].used then 0 else 1
    ensures forall m :: IsMaxFree(cs[..k], m) && 0 <= m ==>
                        IsMaxFree(cs[..k + 1], if !cs[k].used && m < cs[k].size then cs[k].size else m)
  {
    assert cs[..k + 1][..k] == cs[..k];
    assert cs[..k + 1] == cs[..k] + [cs[k]];
    forall m | IsMaxFree(cs[..k], m) && 0 <= m
      ensures IsMaxFree(cs[..k + 1], if !cs[k].used && m < cs[k].size then cs[k].size else m)
    {
      assert cs[k] in cs[..k + 1];
    }
  }

  // ---------------------------------------------------------------------------
  // The number of free chunks is the length of the free list without its sentinels.

  ghost function FreeLinks(cs: seq<Chunk>): set<Link> {
    set c | c in cs && !c.used :: FreeNode(c.addr, c.size)
  }

  lemma {:induction false} CountFreeLinks(cs: seq<Chunk>)
    requires forall i, j :: 0 <= i < j < |cs| ==> cs[i].addr != cs[j].addr
    ensures |FreeLinks(cs)| == FreeCount(cs)
    decreases |cs|
  {
    if cs == [] {
      assert FreeLinks(cs) == {};
    } else {
      var n := |cs| - 1;
      var c := cs[n];
      CountFreeLinks(cs[..n]);
      assert cs == cs[..n] + [c];
      if c.used {
        assert FreeLinks(cs) == FreeLinks(cs[..n]);
      } else {
        assert FreeLinks(cs) == FreeLinks(cs[..n]) + {FreeNode(c.addr, c.size)};
      }
    }
  }

  lemma {:induction false} CountDistinct<T>(s: seq<T>)
    requires Distinct(s)
    ensures |set x | x in s| == |s|
    decreases |s|
  {
    if s != [] {
      var n := |s| - 1;
      CountDistinct(s[..n]);
      assert s == s[..n] + [s[n]];
      assert (set x | x in s) == (set x | x in s[..n]) + {s[n]};
    }
  }

  lemma ListMembers(cs: seq<Chunk>, l: seq<Link>)
    requires HooksPresent(l) && Agree(cs, l)
    ensures (set x | x in l) == (set x | x in Hooks(NNODES)) + FreeLinks(cs)
  {
    var hooks := Hooks(NNODES);
    forall x | x in l ensures x in hooks || x in FreeLinks(cs) {
      match x
      case Hook(k) => assert hooks[k] == x;
      case FreeNode(a, s) => assert Chunk(a, s, false) in cs;
    }
  }

  lemma FreeListLength(cs: seq<Chunk>, l: seq<Link>)
    requires Tiled(cs) && ListOk(l) && Agree(cs, l)
    ensures |l| == NNODES + FreeCount(cs)
  {
    hide Sorted, Agree;
    assert |FreeLinks(cs)| == FreeCount(cs) by {
      TiledDisjoint(cs);
      CountFreeLinks(cs);
    }
    CountDistinct(l);
    CountDistinct(Hooks(NNODES));
    ListMembers(cs, l);
    assert (set x | x in Hooks(NNODES)) !! FreeLinks(cs);
  }

  // ---------------------------------------------------------------------------
  // What each step does to the total in use.

  lemma SpliceTotals(cs: seq<Chunk>, i: nat, j: nat, mid: seq<Chunk>)
    requires i <= j <= |cs|
    ensures UsedBytes(Splice(cs, i, j, mid)) == UsedBytes(cs) - UsedBytes(cs[i..j]) + UsedBytes(mid)
  {
    assert cs == cs[..i] + cs[i..j] + cs[j..];
    TotalsConcat(cs[..i] + cs[i..j], cs[j..]);
    TotalsConcat(cs[..i], cs[i..j]);
    TotalsConcat(cs[..i] + mid, cs[j..]);
    TotalsConcat(cs[..i], mid);
  }

  lemma UsedOne(c: Chunk)
    ensures UsedBytes([c]) == if c.used then c.size else 0
  {
    assert [c][..0] == [];
  }

  lemma UsedTwo(b: Chunk, c: Chunk)
    ensures UsedBytes([b, c]) == (if b.used then b.size else 0) + (if c.used then c.size else 0)
  {
    assert [b, c] == [b] + [c];
    TotalsConcat([b], [c]);
    UsedOne(b);
    UsedOne(c);
  }

  /** An allocation adds exactly the size of the chunk it hands out. */
  lemma MallocAdds(v: View, request: nat)
    requires Inv(v) && Fits(request) && MallocResult(v, request) != 0
    ensures var a := MallocResult(v, request) - ALLOC_NODE;
            var w := AfterMalloc(v, request);
            a in w.live && UsedBytes(w.chunks) == UsedBytes(v.chunks) + w.live[a].size
  {
    hide UsedBytes, Coalesced, ListOk, Agree, LiveOk, Insert, Remove, FirstFit, Rounded;
    RoundedShape(request);
    var x := Taken(v, request);
    ListedChunk(v.chunks, v.list, x);
    PiecesAdd(v.chunks, ChunkAt(v.chunks, x.addr), Rounded(request));
  }

  lemma PiecesAdd(cs: seq<Chunk>, i: nat, need: int)
    requires i < |cs| && !cs[i].used
    ensures var mid := Pieces(cs[i], need); UsedBytes(Splice(cs, i, i + 1, mid)) == UsedBytes(cs) + mid[0].size
  {
    hide UsedBytes;
    var mid := Pieces(cs[i], need);
    SpliceTotals(cs, i, i + 1, mid);
    assert cs[i..i + 1] == [cs[i]];
    UsedOne(cs[i]);
    if |mid| == 2 { UsedTwo(mid[0], mid[1]); } else { UsedOne(mid[0]); }
  }

  lemma {:induction false} NoneUsed(cs: seq<Chunk>)
    requires forall c :: c in cs ==> !c.used
    ensures UsedBytes(cs) == 0
  {
    if cs != [] {
      assert cs[|cs| - 1] in cs;
      NoneUsed(cs[..|cs| - 1]);
    }
  }

  lemma RunUsed(cs: seq<Chunk>, i: nat)
    requires Mergeable(cs, i) && cs[i].used
    ensures UsedBytes(cs[RunLo(cs, i)..RunHi(cs, i)]) == cs[i].size
  {
    hide UsedBytes, RunLo, RunHi;
    RunParts(cs, i);
    var left, right := cs[RunLo(cs, i)..i], cs[i + 1..RunHi(cs, i)];
    TotalsConcat(left + [cs[i]], right);
    TotalsConcat(left, [cs[i]]);
    UsedOne(cs[i]);
    NoneUsed(left);
    NoneUsed(right);
  }

  lemma RunParts(cs: seq<Chunk>, i: nat)
    requires Mergeable(cs, i)
    ensures var lo, hi := RunLo(cs, i), RunHi(cs, i);
            && lo <= i < hi <= |cs| && cs[lo..hi] == cs[lo..i] + [cs[i]] + cs[i + 1..hi]
            && (forall c :: c in cs[lo..i] ==> !c.used) && (forall c :: c in cs[i + 1..hi] ==> !c.used)
  {
  }

  /** A release gives back exactly the size of its chunk. */
  lemma FreeSubtracts(v: View, mem: int)
    requires Inv(v) && mem != 0 && Freeable(v, mem)
    ensures UsedBytes(AfterFree(v, mem).chunks) == UsedBytes(v.chunks) - v.live[mem - ALLOC_NODE].size
  {
    LiveChunk(v, mem - ALLOC_NODE);
    var i := ChunkAt(v.chunks, mem - ALLOC_NODE);
    SpliceTotals(v.chunks, RunLo(v.chunks, i), RunHi(v.chunks, i), [Merged(v.chunks, i)]);
    RunUsed(v.chunks, i);
    UsedOne(Merged(v.chunks, i));
  }

  // ---------------------------------------------------------------------------
  // The peak. mm_malloc updates it on every call with a non-zero size, also when it fails;
  // mm_free never does.

  ghost function PeakStep(peak: int, v: View, op: Op): int
    requires Inv(v) && StepOk(v, op)
  {
    if op.Malloc? && op.request >= 1 then Max(peak, UsedBytes(Step(v, op).chunks)) else peak
  }

  ghost function PeakRun(peak: int, v: View, ops: seq<Op>): int
    requires Inv(v) && Legal(v, ops)
    decreases |ops|
  {
    if ops == [] then peak else PeakRun(PeakStep(peak, v, ops[0]), Step(v, ops[0]), ops[1..])
  }

  /** The largest total in use in any state the run visits, its first and last included. */
  ghost function MostUsed(v: View, ops: seq<Op>): int
    requires Inv(v) && Legal(v, ops)
    decreases |ops|
  {
    if ops == [] then UsedBytes(v.chunks)
    else Max(UsedBytes(v.chunks), MostUsed(Step(v, ops[0]), ops[1..]))
  }

  lemma MallocUsed(v: View, request: nat)
    requires Inv(v) && Fits(request)
    ensures UsedBytes(AfterMalloc(v, request).chunks) >= UsedBytes(v.chunks)
    ensures request == 0 ==> AfterMalloc(v, request) == v
  {
    hide UsedBytes, Inv, AfterMalloc;
    MallocComplete(v, request);
    if MallocResult(v, request) != 0 {
      MallocKeepsInv(v, request);
      MallocAdds(v, request);
      BlockGuarantee(AfterMalloc(v, request), MallocResult(v, request) - ALLOC_NODE);
    } else {
      MallocFails(v, request);
    }
  }

  lemma FreeUsed(v: View, mem: int)
    requires Inv(v) && Freeable(v, mem)
    ensures UsedBytes(AfterFree(v, mem).chunks) <= UsedBytes(v.chunks)
  {
    hide UsedBytes, Inv;
    if mem != 0 {
      FreeSubtracts(v, mem);
      BlockGuarantee(v, mem - ALLOC_NODE);
    }
  }

  lemma StepUsed(v: View, op: Op)
    requires Inv(v) && StepOk(v, op)
    ensures op.Release? ==> UsedBytes(Step(v, op).chunks) <= UsedBytes(v.chunks)
    ensures op.Malloc? ==> UsedBytes(Step(v, op).chunks) >= UsedBytes(v.chunks)
    ensures op == Malloc(0) ==> Step(v, op) == v
  {
    hide UsedBytes, Inv, AfterMalloc, AfterFree;
    match op
    case Malloc(r) => MallocUsed(v, r);
    case Release(m) => FreeUsed(v, m);
  }

  lemma {:induction false} PeakFrom(peak: int, v: View, ops: seq<Op>)
    requires Inv(v) && Legal(v, ops) && UsedBytes(v.chunks) <= peak
    ensures PeakRun(peak, v, ops) == Max(peak, MostUsed(v, ops))
    decreases |ops|
  {
    hide Inv, UsedBytes, Step;
    if ops != [] {
      StepUsed(v, ops[0]);
      PeakFrom(PeakStep(peak, v, ops[0]), Step(v, ops[0]), ops[1..]);
    }
  }

  predicate AsksForMemory(ops: seq<Op>) {
    exists i :: 0 <= i < |ops| && ops[i].Malloc? && ops[i].request >= 1
  }

  lemma {:induction false} UsedNonNegative(cs: seq<Chunk>)
    requires forall c :: c in cs ==> c.size >= 0
    ensures UsedBytes(cs) >= 0
  {
    if cs != [] {
      assert cs[|cs| - 1] in cs;
      UsedNonNegative(cs[..|cs| - 1]);
    }
  }

  lemma SizesOf(v: View)
    requires Inv(v)
    ensures UsedBytes(v.chunks) >= 0
  {
    forall c | c in v.chunks ensures c.size >= 0 {
      var i :| 0 <= i < |v.chunks| && v.chunks[i] == c;
    }
    UsedNonNegative(v.chunks);
  }

  /** Once one call has asked for a non-zero size, the recorded peak is the largest total in use
      the run ever reached; before that it is still zero. */
  lemma {:induction false} PeakIsMostUsed(v: View, ops: seq<Op>)
    requires Inv(v) && Legal(v, ops) && v.live == map[]
    ensures PeakRun(0, v, ops) == if AsksForMemory(ops) then MostUsed(v, ops) else 0
    decreases |ops|
  {
    hide Inv;
    if ops != [] {
      var op := ops[0];
      SizesOf(v);
      StepUsed(v, op);
      assert ops == [op] + ops[1..];
      AsksFirst(op, ops[1..]);
      if op.Malloc? && op.request >= 1 {
        PeakFrom(PeakStep(0, v, op), Step(v, op), ops[1..]);
      } else {
        assert op.Release? ==> op.mem == 0;
        assert Step(v, op) == v;
        PeakIsMostUsed(v, ops[1..]);
      }
    }
  }

  lemma AsksFirst(op: Op, rest: seq<Op>)
    ensures AsksForMemory([op] + rest) <==> (op.Malloc? && op.request >= 1) || AsksForMemory(rest)
  {
    var ops := [op] + rest;
    if i :| 0 <= i < |rest| && rest[i].Malloc? && rest[i].request >= 1 {
      assert ops[i + 1] == rest[i];
    }
    if i :| 0 < i < |ops| && ops[i].Malloc? && ops[i].request >= 1 {
      assert ops[i] == rest[i - 1];
    }
    assert ops[0] == op;
  }
}
