/** The single steps mm_malloc and mm_free are made of, each from one well-formed memory to the
    next: unlink, cut, join, flag. */
module MmSteps {
  import opened Basics
  import opened MmLayout
  import opened MmView
  import opened MmOps
  import opened MmRuns
  import opened MmAccounts
  import opened MmMemory
  import opened MmRewrites
  import opened MmSeparation

  /** Memory represents a tiling and a free list. Between two steps the list may lack free chunks
      of the tiling, and neighbours may both be free. */
  ghost predicate Represents(m: Memory, nodes: int, cs: seq<Chunk>, l: seq<Link>) {
    && Tiled(cs) && Fenced(|m|, nodes, cs) && Headers(m, cs)
    && ListOk(l) && Backed(cs, l) && Listed(m, nodes, l)
  }

  /** No byte of an allocated chunk's payload changed. */
  ghost predicate KeepsPayloads(m: Memory, m': Memory, cs: seq<Chunk>) {
    forall c :: c in cs && c.used ==> KeepsPayload(m, m', c)
  }

  lemma HeaderAt(m: Memory, nodes: int, cs: seq<Chunk>, l: seq<Link>, i: nat)
    requires Represents(m, nodes, cs, l) && i < |cs|
    ensures HeaderOk(m, cs, i)
  {
  }

  lemma UnlinkStep(m: Memory, nodes: int, cs: seq<Chunk>, l: seq<Link>, x: Link)
    requires Represents(m, nodes, cs, l) && x in l && x.FreeNode?
    ensures CanUnlink(m, x.addr)
    ensures Represents(Unlinked(m, x.addr), nodes, cs, Remove(l, x))
    ensures KeepsPayloads(m, Unlinked(m, x.addr), cs)
  {
    var j := IndexOf(l, x);
    assert 0 < j;
    UnlinkOk(m, nodes, l, j);
    var m' := Unlinked(m, x.addr);
    forall a | 0 <= a < |m| && !InLinks(nodes, l, a) ensures m'[a] == m[a] {
      UnlinkFrame(m, nodes, l, j, a);
    }
    LinkWrites(m, m', nodes, cs, l);
    RemoveOk(l, x);
  }

  /** A new node's links are written. */
  lemma LinkStep(m: Memory, m': Memory, nodes: int, cs: seq<Chunk>, l: seq<Link>, i: nat)
    requires Represents(m, nodes, cs, l) && 0 < i < |cs| - 1 && !cs[i].used
    requires FreeNode(cs[i].addr, cs[i].size) !in l && |m'| == |m|
    requires Listed(m', nodes, Insert(l, cs[i].addr, cs[i].size))
    requires forall a :: 0 <= a < |m| && !InLinks(nodes, l, a) && !LinkCell(cs[i].addr, a) ==> m'[a] == m[a]
    ensures Represents(m', nodes, cs, Insert(l, cs[i].addr, cs[i].size))
    ensures KeepsPayloads(m, m', cs)
  {
    var x := FreeNode(cs[i].addr, cs[i].size);
    var r := Insert(l, x.addr, x.bytes);
    InsertOk(l, x.addr, x.bytes);
    assert Backed(cs, r);
    forall a | 0 <= a < |m| && !InLinks(nodes, r, a) ensures m'[a] == m[a] {
      LinksGrow(nodes, l, r, x, a);
    }
    LinkWrites(m, m', nodes, cs, r);
  }

  lemma LinksGrow(nodes: int, l: seq<Link>, r: seq<Link>, x: Link, a: int)
    requires forall y :: y in r <==> y in l || y == x
    requires !InLinks(nodes, r, a)
    ensures !InLinks(nodes, l, a) && !LinkCell(AddrOf(nodes, x), a)
  {
    forall y | y in r ensures !LinkCell(AddrOf(nodes, y), a) {
      var i := IndexOf(r, y);
    }
    forall i | 0 <= i < |l| ensures !LinkCell(AddrOf(nodes, l[i]), a) {
      assert l[i] in r;
    }
  }

  lemma LinkReadyAt(m: Memory, nodes: int, cs: seq<Chunk>, l: seq<Link>, i: nat)
    requires Represents(m, nodes, cs, l) && 0 < i < |cs| - 1
    requires FreeNode(cs[i].addr, cs[i].size) !in l
    ensures 0 < cs[i].addr && cs[i].addr + FREE_NODE <= |m| && m[cs[i].addr] == cs[i].size >= FREE_NODE
    ensures Clear(nodes, l, cs[i].addr) && ListOk(l) && Listed(m, nodes, l)
  {
    assert HeaderOk(m, cs, i);
    TiledEnds(cs, i);
    UnlistedClear(|m|, nodes, cs, l, i);
  }

  // ---------------------------------------------------------------------------

  ghost predicate OffList(cs: seq<Chunk>, l: seq<Link>, i: nat)
    requires i < |cs|
  {
    cs[i].used || FreeNode(cs[i].addr, cs[i].size) !in l
  }

  lemma SpliceFenced(len: int, nodes: int, cs: seq<Chunk>, i: nat, j: nat, mid: seq<Chunk>)
    requires Fenced(len, nodes, cs) && 0 < i <= j < |cs|
    ensures Fenced(len, nodes, Splice(cs, i, j, mid))
  {
    SpliceEnds(cs, i, j, mid);
  }

  /** Replacing chunks that are not listed keeps the list backed. */
  lemma SpliceBacked(cs: seq<Chunk>, l: seq<Link>, i: nat, j: nat, mid: seq<Chunk>)
    requires Tiled(cs) && Backed(cs, l) && i <= j <= |cs|
    requires forall k :: i <= k < j ==> OffList(cs, l, k)
    ensures Backed(Splice(cs, i, j, mid), l)
  {
    DistinctChunks(cs);
    SpliceMembers(cs, i, j, mid);
    forall x | x in l && x.FreeNode? ensures Chunk(x.addr, x.bytes, false) !in cs[i..j] {
      forall k | i <= k < j ensures cs[k] != Chunk(x.addr, x.bytes, false) {
        assert OffList(cs, l, k);
      }
    }
  }

  function CutTiling(cs: seq<Chunk>, i: nat, need: int): seq<Chunk>
    requires i < |cs|
  {
    Splice(cs, i, i + 1, CutPieces(cs[i], need))
  }

  lemma CutStep(m: Memory, nodes: int, cs: seq<Chunk>, l: seq<Link>, i: nat, bytes: int)
    requires Represents(m, nodes, cs, l) && 0 < i < |cs| - 1
    requires OffList(cs, l, i) && cs[i + 1].used && !cs[i].used
    requires FREE_NODE <= bytes && bytes % GRANULE == 0 && bytes + FREE_NODE <= cs[i].size
    ensures CanCut(m, cs[i].addr, bytes)
    ensures Represents(Cut(m, cs[i].addr, bytes), nodes, CutTiling(cs, i, bytes), l)
    ensures KeepsPayloads(m, Cut(m, cs[i].addr, bytes), cs)
  {
    hide ListOk, Headers, Listed, Tiled, Backed, Fenced, Splice, KeepsPayloads, Cut;
    CutOk(m, cs, i, bytes);
    var m' := Cut(m, cs[i].addr, bytes);
    CutTiled(cs, i, bytes);
    SpliceFenced(|m|, nodes, cs, i, i + 1, CutPieces(cs[i], bytes));
    SpliceBacked(cs, l, i, i + 1, CutPieces(cs[i], bytes));
    SpanWritesKeepList(m, m', nodes, cs, l, i, i + 1);
    SpanKeeps(m, m', cs, i, i + 1);
  }

  lemma CutTiled(cs: seq<Chunk>, i: nat, bytes: int)
    requires Tiled(cs) && 0 < i < |cs| - 1
    requires FREE_NODE <= bytes && bytes % GRANULE == 0 && bytes + FREE_NODE <= cs[i].size
    ensures Tiled(CutTiling(cs, i, bytes))
  {
    hide Tiled, Splice, SameSpan;
    InnerChunk(cs, i);
    CutSpans(cs, i, bytes);
    SpliceTiled(cs, i, i + 1, CutPieces(cs[i], bytes));
  }

  lemma CutSpans(cs: seq<Chunk>, i: nat, bytes: int)
    requires 0 < i < |cs| - 1 && cs[i].End() == cs[i + 1].addr && cs[i].size % GRANULE == 0
    requires FREE_NODE <= bytes && bytes % GRANULE == 0 && bytes + FREE_NODE <= cs[i].size
    ensures SameSpan(cs, i, i + 1, CutPieces(cs[i], bytes))
  {
    GranulesLeft(cs[i].size, bytes);
  }

  lemma GranulesLeft(a: int, b: int)
    requires a % GRANULE == 0 && b % GRANULE == 0
    ensures (a - b) % GRANULE == 0
  {
  }

  lemma InnerChunk(cs: seq<Chunk>, i: nat)
    requires Tiled(cs) && 0 < i < |cs| - 1
    ensures cs[i].End() == cs[i + 1].addr && cs[i].size % GRANULE == 0 && cs[i].size >= FREE_NODE
  {
  }

  lemma SpanKeeps(m: Memory, m': Memory, cs: seq<Chunk>, i: nat, j: nat)
    requires Tiled(cs) && |m'| == |m| && i <= j < |cs|
    requires forall k :: i <= k < j ==> !cs[k].used
    requires forall a :: 0 <= a < |m| && !(cs[i].addr <= a < cs[j].addr + ALLOC_NODE) ==> m'[a] == m[a]
    ensures KeepsPayloads(m, m', cs)
  {
    forall c | c in cs && c.used ensures KeepsPayload(m, m', c) {
      SpanWritesKeepPayload(m, m', cs, i, j, c);
    }
  }

  lemma JoinStep(m: Memory, nodes: int, cs: seq<Chunk>, l: seq<Link>, i: nat)
    requires Represents(m, nodes, cs, l) && 0 < i && i + 2 < |cs|
    requires !cs[i].used && !cs[i + 1].used && cs[i + 2].used
    requires OffList(cs, l, i) && OffList(cs, l, i + 1)
    ensures CanJoin(m, cs[i].addr, cs[i + 1].addr)
    ensures Represents(Joined(m, cs[i].addr, cs[i + 1].addr), nodes,
                       Splice(cs, i, i + 2, [JoinedChunk(cs[i], cs[i + 1])]), l)
    ensures KeepsPayloads(m, Joined(m, cs[i].addr, cs[i + 1].addr), cs)
  {
    hide ListOk, Headers, Listed;
    var mid := [JoinedChunk(cs[i], cs[i + 1])];
    JoinOk(m, cs, i);
    var m' := Joined(m, cs[i].addr, cs[i + 1].addr);
    assert cs[i].End() == cs[i + 1].addr && cs[i + 1].End() == cs[i + 2].addr;
    assert cs[i].size % GRANULE == 0 && cs[i + 1].size % GRANULE == 0;
    SpliceTiled(cs, i, i + 2, mid);
    SpliceFenced(|m|, nodes, cs, i, i + 2, mid);
    SpliceBacked(cs, l, i, i + 2, mid);
    SpanWritesKeepList(m, m', nodes, cs, l, i, i + 2);
    SpanKeeps(m, m', cs, i, i + 2);
  }

  lemma FlagStep(m: Memory, nodes: int, cs: seq<Chunk>, l: seq<Link>, i: nat, used: bool)
    requires Represents(m, nodes, cs, l) && 0 < i < |cs| - 1 && OffList(cs, l, i)
    ensures 0 <= cs[i].addr && cs[i].addr + ALLOC_NODE <= |m|
    ensures var w := m[cs[i].addr + PRECEDING];
            var m' := m[cs[i].addr + PRECEDING := if used then SetAllocBit(w) else ClearAllocBit(w)];
            && Represents(m', nodes, cs[i := cs[i].(used := used)], l)
            && KeepsPayloads(m, m', cs)
  {
    hide ListOk, Headers, Listed;
    FlagOk(m, cs, i, used);
    var w := m[cs[i].addr + PRECEDING];
    var m' := m[cs[i].addr + PRECEDING := if used then SetAllocBit(w) else ClearAllocBit(w)];
    var mid := [cs[i].(used := used)];
    assert cs[i := cs[i].(used := used)] == Splice(cs, i, i + 1, mid);
    assert cs[i].End() == cs[i + 1].addr;
    SpliceTiled(cs, i, i + 1, mid);
    SpliceFenced(|m|, nodes, cs, i, i + 1, mid);
    SpliceBacked(cs, l, i, i + 1, mid);
    SpanWritesKeepList(m, m', nodes, cs, l, i, i);
    SpanKeeps(m, m', cs, i, i);
  }

  // ---------------------------------------------------------------------------
  // Glue.

  lemma KeepsRefl(m: Memory, cs: seq<Chunk>)
    ensures KeepsPayloads(m, m, cs)
  {
  }

  lemma KeepsTrans(a: Memory, b: Memory, c: Memory, cs: seq<Chunk>, cs': seq<Chunk>)
    requires KeepsPayloads(a, b, cs) && KeepsPayloads(b, c, cs')
    requires forall x :: x in cs && x.used ==> x in cs'
    ensures KeepsPayloads(a, c, cs)
  {
    forall x | x in cs && x.used ensures KeepsPayload(a, c, x) {
      assert KeepsPayload(a, b, x) && KeepsPayload(b, c, x);
    }
  }

  /** Replacing free chunks keeps every allocated one. */
  lemma KeepsSplice(m: Memory, nodes: int, l: seq<Link>, a: Memory, b: Memory, c: Memory,
                    cs: seq<Chunk>, i: nat, j: nat, mid: seq<Chunk>)
    requires Represents(m, nodes, cs, l) && i <= j <= |cs|
    requires forall k :: i <= k < j ==> !cs[k].used
    requires KeepsPayloads(a, b, cs) && KeepsPayloads(b, c, Splice(cs, i, j, mid))
    ensures KeepsPayloads(a, c, cs)
  {
    hide KeepsPayload;
    DistinctChunks(cs);
    SpliceMembers(cs, i, j, mid);
    KeepsTrans(a, b, c, cs, Splice(cs, i, j, mid));
  }

  lemma KeepsCut(m: Memory, nodes: int, l: seq<Link>, a: Memory, b: Memory, c: Memory, cs: seq<Chunk>, i: nat, need: int)
    requires Represents(m, nodes, cs, l) && i < |cs| && !cs[i].used
    requires KeepsPayloads(a, b, cs) && KeepsPayloads(b, c, CutTiling(cs, i, need))
    ensures KeepsPayloads(a, c, cs)
  {
    KeepsSplice(m, nodes, l, a, b, c, cs, i, i + 1, CutPieces(cs[i], need));
  }

  /** No node on the list starts at the taken chunk any more, nor at the part cut off it. */
  lemma TakenOffList(cs: seq<Chunk>, l: seq<Link>, i: nat, need: int)
    requires Tiled(cs) && ListOk(l) && Agree(cs, l)
    requires 0 < i < |cs| - 1 && !cs[i].used && FREE_NODE <= need <= cs[i].size
    ensures FreeNode(cs[i].addr, cs[i].size) in l
    ensures forall s :: FreeNode(cs[i].addr, s) !in ListAfterTake(l, cs[i], need)
    ensures cs[i].size - need >= FREE_NODE ==>
              FreeNode(cs[i].addr + need, cs[i].size - need) !in Remove(l, FreeNode(cs[i].addr, cs[i].size))
  {
    var c := cs[i];
    TakeListed(cs, l, i, need);
    RemoveOk(l, FreeNode(c.addr, c.size));
    DistinctChunks(cs);
    forall s | FreeNode(c.addr, s) in l ensures s == c.size {
      ChunkAtIs(cs, IndexOf(cs, Chunk(c.addr, s, false)));
      ChunkAtIs(cs, i);
    }
    if c.size - need >= FREE_NODE {
      NoChunkInside(cs, i, c.addr + need);
    }
  }

  // ---------------------------------------------------------------------------
  // The whole of an allocation.

  function TakenTiling(cs: seq<Chunk>, i: nat, need: int): seq<Chunk>
    requires i < |cs|
  {
    Splice(cs, i, i + 1, Pieces(cs[i], need))
  }

  /** The tiling before the flag of the chunk taken is set. */
  function BeforeFlag(cs: seq<Chunk>, i: nat, need: int): seq<Chunk>
    requires i < |cs|
  {
    if cs[i].size - need >= FREE_NODE then CutTiling(cs, i, need) else cs
  }

  lemma BeforeFlagAt(cs: seq<Chunk>, i: nat, need: int)
    requires 0 < i < |cs| - 1 && !cs[i].used
    ensures var b := BeforeFlag(cs, i, need);
            && 0 < i < |b| - 1 && b[i].addr == cs[i].addr && !b[i].used
            && b[i := b[i].(used := true)] == TakenTiling(cs, i, need)
  {
    var b := BeforeFlag(cs, i, need);
    assert b[i := b[i].(used := true)] == TakenTiling(cs, i, need);
  }

  lemma BeforeFlagIs(cs: seq<Chunk>, i: nat, need: int)
    requires i < |cs|
    ensures BeforeFlag(cs, i, need) == if cs[i].size - need >= FREE_NODE then CutTiling(cs, i, need) else cs
  {
  }

  lemma CutTilingAt(cs: seq<Chunk>, i: nat, need: int)
    requires 0 < i < |cs| - 1
    ensures var b := CutTiling(cs, i, need);
            0 < i + 1 < |b| - 1 && b[i + 1] == Chunk(cs[i].addr + need, cs[i].size - need, false)
  {
  }

  /** What mm_malloc starts from once it has picked the free chunk i. */
  ghost predicate Pick(m: Memory, nodes: int, cs: seq<Chunk>, l: seq<Link>, i: nat, need: int) {
    && Represents(m, nodes, cs, l) && Agree(cs, l)
    && 0 < i < |cs| - 1 && !cs[i].used && cs[i + 1].used
    && FREE_NODE <= need <= cs[i].size && need % GRANULE == 0
  }

  lemma PickUnlink(m: Memory, nodes: int, cs: seq<Chunk>, l: seq<Link>, i: nat, need: int)
    requires Pick(m, nodes, cs, l, i, need)
    ensures var x := FreeNode(cs[i].addr, cs[i].size);
            && x in l && CanUnlink(m, cs[i].addr)
            && Represents(Unlinked(m, cs[i].addr), nodes, cs, Remove(l, x))
            && KeepsPayloads(m, Unlinked(m, cs[i].addr), cs)
            && OffList(cs, Remove(l, x), i)
            && HeaderOk(Unlinked(m, cs[i].addr), cs, i)
            && (cs[i].size - need >= FREE_NODE ==> FreeNode(cs[i].addr + need, cs[i].size - need) !in Remove(l, x))
  {
    var x := FreeNode(cs[i].addr, cs[i].size);
    TakenOffList(cs, l, i, need);
    UnlinkStep(m, nodes, cs, l, x);
    RemoveOk(l, x);
    HeaderAt(Unlinked(m, cs[i].addr), nodes, cs, Remove(l, x), i);
  }

  /** Setting the flag completes the allocation, with or without a remainder. */
  lemma PickOff(m: Memory, nodes: int, cs: seq<Chunk>, l: seq<Link>, i: nat, need: int)
    requires Pick(m, nodes, cs, l, i, need)
    ensures 0 < i < |cs| - 1 && !cs[i].used && FreeNode(cs[i].addr, cs[i].size) in l
    ensures forall s :: FreeNode(cs[i].addr, s) !in ListAfterTake(l, cs[i], need)
  {
    TakenOffList(cs, l, i, need);
  }

  lemma PickFlag(m0: Memory, m2: Memory, nodes: int, cs: seq<Chunk>, l: seq<Link>, i: nat, need: int)
    requires Pick(m0, nodes, cs, l, i, need) && FreeNode(cs[i].addr, cs[i].size) in l
    requires Represents(m2, nodes, BeforeFlag(cs, i, need), ListAfterTake(l, cs[i], need))
    requires KeepsPayloads(m0, m2, cs)
    ensures cs[i].addr >= 0 && cs[i].addr + ALLOC_NODE <= |m2|
    ensures var m3 := m2[cs[i].addr + PRECEDING := SetAllocBit(m2[cs[i].addr + PRECEDING])];
            && Represents(m3, nodes, TakenTiling(cs, i, need), ListAfterTake(l, cs[i], need))
            && KeepsPayloads(m0, m3, cs)
  {
    hide Represents, KeepsPayloads, ListAfterTake, BeforeFlag, TakenTiling, Pick;
    PickOff(m0, nodes, cs, l, i, need);
    BeforeFlagAt(cs, i, need);
    var b := BeforeFlag(cs, i, need);
    assert OffList(b, ListAfterTake(l, cs[i], need), i);
    FlagStep(m2, nodes, b, ListAfterTake(l, cs[i], need), i, true);
    var m3 := m2[cs[i].addr + PRECEDING := SetAllocBit(m2[cs[i].addr + PRECEDING])];
    KeepsBeforeFlag(m0, m2, m3, nodes, l, cs, i, need);
  }

  lemma KeepsBeforeFlag(m0: Memory, m2: Memory, m3: Memory, nodes: int, l: seq<Link>, cs: seq<Chunk>, i: nat, need: int)
    requires Pick(m0, nodes, cs, l, i, need)
    requires KeepsPayloads(m0, m2, cs) && KeepsPayloads(m2, m3, BeforeFlag(cs, i, need))
    ensures KeepsPayloads(m0, m3, cs)
  {
    hide KeepsPayloads, Represents;
    if cs[i].size - need >= FREE_NODE {
      KeepsCut(m0, nodes, l, m0, m2, m3, cs, i, need);
    } else {
      KeepsTrans(m0, m2, m3, cs, cs);
    }
  }

  // ---------------------------------------------------------------------------
  // The whole of a release.

  function JoinTiling(cs: seq<Chunk>, i: nat): seq<Chunk>
    requires i + 1 < |cs|
  {
    Splice(cs, i, i + 2, [JoinedChunk(cs[i], cs[i + 1])])
  }

  ghost predicate StartsNone(l: seq<Link>, a: int) {
    forall s :: FreeNode(a, s) !in l
  }

  /** Two free neighbours i and i + 1, of which exactly k is on the list, before an allocated
      chunk: what mm_free merges on either side. */
  ghost predicate CanMerge(m: Memory, nodes: int, cs: seq<Chunk>, l: seq<Link>, i: nat, k: nat) {
    && Represents(m, nodes, cs, l)
    && 0 < i && i + 2 < |cs| && i <= k <= i + 1
    && !cs[i].used && !cs[i + 1].used && cs[i + 2].used
    && FreeNode(cs[k].addr, cs[k].size) in l
    && StartsNone(l, cs[2 * i + 1 - k].addr)
  }

  predicate Inside(m: Memory, a: int) {
    0 <= a && a + ALLOC_NODE <= |m|
  }

  lemma MergeStep(m: Memory, nodes: int, cs: seq<Chunk>, l: seq<Link>, i: nat, k: nat)
    requires CanMerge(m, nodes, cs, l, i, k)
    ensures CanUnlink(m, cs[k].addr) && Inside(m, cs[i].addr)
    ensures var m1 := Unlinked(m, cs[k].addr);
            && CanJoin(m1, cs[i].addr, cs[i + 1].addr)
            && HeaderOk(m1, cs, i + 1)
            && Represents(Joined(m1, cs[i].addr, cs[i + 1].addr), nodes, JoinTiling(cs, i),
                          Remove(l, FreeNode(cs[k].addr, cs[k].size)))
            && KeepsPayloads(m, Joined(m1, cs[i].addr, cs[i + 1].addr), cs)
  {
    var x := FreeNode(cs[k].addr, cs[k].size);
    var l1 := Remove(l, x);
    UnlinkStep(m, nodes, cs, l, x);
    RemoveOk(l, x);
    var m1 := Unlinked(m, cs[k].addr);
    HeaderAt(m1, nodes, cs, l1, i + 1);
    assert OffList(cs, l1, i) && OffList(cs, l1, i + 1);
    hide Represents, KeepsPayloads;
    JoinStep(m1, nodes, cs, l1, i);
    KeepsTrans(m, m1, Joined(m1, cs[i].addr, cs[i + 1].addr), cs, cs);
  }

  /** What mm_free starts from: chunk i is live. */
  ghost predicate Live(m: Memory, nodes: int, cs: seq<Chunk>, l: seq<Link>, i: nat) {
    Represents(m, nodes, cs, l) && Agree(cs, l) && Coalesced(cs) && Mergeable(cs, i) && cs[i].used
  }

  function Released(cs: seq<Chunk>, i: nat): seq<Chunk>
    requires i < |cs|
  {
    cs[i := cs[i].(used := false)]
  }

  /** The tiling once chunk i is free and merged with a free chunk behind it. */
  function AfterRight(cs: seq<Chunk>, i: nat): seq<Chunk>
    requires Mergeable(cs, i)
  {
    if cs[i + 1].used then Released(cs, i) else JoinTiling(Released(cs, i), i)
  }

  lemma AfterRightAt(cs: seq<Chunk>, i: nat)
    requires Mergeable(cs, i)
    ensures var r := AfterRight(cs, i);
            && i + 1 < |r| && r[i].addr == cs[i].addr && !r[i].used && r[i - 1] == cs[i - 1]
            && r[i + 1] == cs[RunHi(cs, i)]
            && |r| - 1 - i == |cs| - RunHi(cs, i)
  {
  }

  /** No node on the list starts at the chunk being released. */
  lemma LiveOff(m: Memory, nodes: int, cs: seq<Chunk>, l: seq<Link>, i: nat)
    requires Live(m, nodes, cs, l, i)
    ensures StartsNone(l, cs[i].addr)
    ensures !cs[i + 1].used ==> FreeNode(cs[i + 1].addr, cs[i + 1].size) in l && cs[i + 2].used && i + 3 <= |cs|
    ensures !cs[i - 1].used ==> FreeNode(cs[i - 1].addr, cs[i - 1].size) in l
    ensures cs[RunHi(cs, i)].used
  {
    DistinctChunks(cs);
    forall s | FreeNode(cs[i].addr, s) in l ensures false {
      var k := IndexOf(cs, Chunk(cs[i].addr, s, false));
    }
    assert cs[i + 1] in cs && cs[i - 1] in cs;
  }

  lemma LiveClear(m: Memory, nodes: int, cs: seq<Chunk>, l: seq<Link>, i: nat)
    requires Live(m, nodes, cs, l, i)
    ensures cs[i].addr >= 0 && cs[i].addr + ALLOC_NODE <= |m| && HeaderOk(m, cs, i)
    ensures var m1 := m[cs[i].addr + PRECEDING := ClearAllocBit(m[cs[i].addr + PRECEDING])];
            && Represents(m1, nodes, Released(cs, i), l)
            && (!cs[i + 1].used ==> CanMerge(m1, nodes, Released(cs, i), l, i, i + 1))
            && HeaderOk(m1, Released(cs, i), i) && HeaderOk(m1, Released(cs, i), i + 1)
  {
    LiveOff(m, nodes, cs, l, i);
    HeaderAt(m, nodes, cs, l, i);
    FlagStep(m, nodes, cs, l, i, false);
    var m1 := m[cs[i].addr + PRECEDING := ClearAllocBit(m[cs[i].addr + PRECEDING])];
    HeaderAt(m1, nodes, Released(cs, i), l, i);
    HeaderAt(m1, nodes, Released(cs, i), l, i + 1);
  }

  lemma ReleasedKeeps(m: Memory, nodes: int, cs: seq<Chunk>, l: seq<Link>, i: nat)
    requires Live(m, nodes, cs, l, i)
    ensures cs[i].addr >= 0 && cs[i].addr + ALLOC_NODE <= |m|
    ensures KeepsPayloads(m, m[cs[i].addr + PRECEDING := ClearAllocBit(m[cs[i].addr + PRECEDING])], Released(cs, i))
  {
    HeaderAt(m, nodes, cs, l, i);
    LiveOff(m, nodes, cs, l, i);
    FlagStep(m, nodes, cs, l, i, false);
    assert forall c :: c in Released(cs, i) && c.used ==> c in cs;
  }

  /** Memory after the merge with the chunk behind: what remains to be merged in front. */
  ghost predicate RightDone(m: Memory, nodes: int, cs: seq<Chunk>, l: seq<Link>, i: nat) {
    && Mergeable(cs, i) && cs[RunHi(cs, i)].used
    && Represents(m, nodes, AfterRight(cs, i), Unlisted(l, cs[i + 1]))
    && StartsNone(Unlisted(l, cs[i + 1]), cs[i].addr)
    && (!cs[i - 1].used ==> FreeNode(cs[i - 1].addr, cs[i - 1].size) in Unlisted(l, cs[i + 1]))
  }

  lemma UnlistedKeeps(m: Memory, nodes: int, cs: seq<Chunk>, l: seq<Link>, i: nat)
    requires Live(m, nodes, cs, l, i)
    ensures StartsNone(Unlisted(l, cs[i + 1]), cs[i].addr)
    ensures !cs[i - 1].used ==> FreeNode(cs[i - 1].addr, cs[i - 1].size) in Unlisted(l, cs[i + 1])
  {
    LiveOff(m, nodes, cs, l, i);
    UnlistedOk(cs, l, i + 1);
    TiledOrder(cs, i - 1, i + 1);
  }

  lemma RightDoneAt(m: Memory, nodes: int, cs: seq<Chunk>, l: seq<Link>, i: nat)
    requires RightDone(m, nodes, cs, l, i)
    ensures var r := AfterRight(cs, i);
            && 0 < i && i + 1 < |r| && r[i].addr == cs[i].addr && !r[i].used && r[i - 1] == cs[i - 1]
            && r[i + 1] == cs[RunHi(cs, i)]
            && HeaderOk(m, r, i) && HeaderOk(m, r, i - 1) && HeaderOk(m, r, i + 1)
            && cs[i - 1].End() == cs[i].addr
            && (!cs[i - 1].used ==> CanMerge(m, nodes, r, Unlisted(l, cs[i + 1]), i - 1, i - 1))
  {
    var r := AfterRight(cs, i);
    AfterRightAt(cs, i);
    HeaderAt(m, nodes, r, Unlisted(l, cs[i + 1]), i - 1);
    HeaderAt(m, nodes, r, Unlisted(l, cs[i + 1]), i);
    HeaderAt(m, nodes, r, Unlisted(l, cs[i + 1]), i + 1);
    assert r[i - 1].End() == r[i].addr;
    if !cs[i - 1].used {
      assert i - 1 > 0;
    }
  }

  function FullyMerged(cs: seq<Chunk>, i: nat): seq<Chunk>
    requires Mergeable(cs, i)
  {
    Splice(cs, RunLo(cs, i), RunHi(cs, i), [Merged(cs, i)])
  }

  /** Merging behind and then in front gives the tiling mm_free is specified by. */
  lemma MergedBothSides(cs: seq<Chunk>, i: nat)
    requires Tiled(cs) && Mergeable(cs, i)
    ensures var r := AfterRight(cs, i);
            i + 1 < |r| && FullyMerged(cs, i) == if cs[i - 1].used then r else JoinTiling(r, i - 1)
  {
    var r := AfterRight(cs, i);
    var hi := RunHi(cs, i);
    assert cs[i].End() == cs[i + 1].addr && cs[i - 1].End() == cs[i].addr;
    assert hi == i + 2 ==> cs[i + 1].End() == cs[hi].addr;
    assert r == cs[..i] + [Chunk(cs[i].addr, cs[hi].addr - cs[i].addr, false)] + cs[hi..];
    if !cs[i - 1].used {
      assert JoinTiling(r, i - 1) == cs[..i - 1] + [Merged(cs, i)] + cs[hi..];
    }
  }

  // ---------------------------------------------------------------------------
  // Between the abstract heap and memory.

  /** Memory represents the abstract heap. */
  ghost predicate Mirrors(m: Memory, nodes: int, v: View) {
    Inv(v) && Represents(m, nodes, v.chunks, v.list)
  }

  /** No byte handed out to a caller changed. */
  ghost predicate KeepsLive(m: Memory, m': Memory, live: map<int, Block>) {
    && |m'| == |m|
    && forall a, b :: a in live && a + ALLOC_NODE <= b < a + live[a].size && 0 <= b < |m| ==> m'[b] == m[b]
  }

  lemma KeepsLiveRefl(m: Memory, live: map<int, Block>)
    ensures KeepsLive(m, m, live)
  {
  }

  lemma PayloadsAreLive(m: Memory, m': Memory, cs: seq<Chunk>, live: map<int, Block>)
    requires KeepsPayloads(m, m', cs) && |m'| == |m|
    requires forall a :: a in live ==> Chunk(a, live[a].size, true) in cs
    ensures KeepsLive(m, m', live)
  {
    forall a, b | a in live && a + ALLOC_NODE <= b < a + live[a].size && 0 <= b < |m|
      ensures m'[b] == m[b]
    {
      assert KeepsPayload(m, m', Chunk(a, live[a].size, true));
    }
  }

  lemma MallocPick(m: Memory, nodes: int, v: View, size: nat)
    requires Mirrors(m, nodes, v) && size >= 1 && Fits(size) && CanServe(v, size)
    ensures var i := ChunkAt(v.chunks, Taken(v, size).addr);
            && Pick(m, nodes, v.chunks, v.list, i, Rounded(size))
            && v.chunks[i].addr == Taken(v, size).addr == AddrOf(nodes, Taken(v, size))
            && v.chunks[i].addr > 0
  {
    RoundedShape(size);
    var x := Taken(v, size);
    ListedChunk(v.chunks, v.list, x);
    var i := ChunkAt(v.chunks, x.addr);
    assert v.chunks[i + 1].used;
    HeaderAt(m, nodes, v.chunks, v.list, i);
  }

  lemma MallocDone(m: Memory, m': Memory, nodes: int, v: View, size: nat)
    requires Mirrors(m, nodes, v) && size >= 1 && Fits(size) && CanServe(v, size)
    requires var i := ChunkAt(v.chunks, Taken(v, size).addr);
             && i < |v.chunks| && FreeNode(v.chunks[i].addr, v.chunks[i].size) in v.list
             && Represents(m', nodes, TakenTiling(v.chunks, i, Rounded(size)),
                           ListAfterTake(v.list, v.chunks[i], Rounded(size)))
             && KeepsPayloads(m, m', v.chunks) && |m'| == |m|
    ensures Mirrors(m', nodes, AfterMalloc(v, size))
    ensures KeepsLive(m, m', v.live)
    ensures SameGuards(v, AfterMalloc(v, size))
    ensures MallocResult(v, size) == Taken(v, size).addr + ALLOC_NODE
  {
    PayloadsAreLive(m, m', v.chunks, v.live);
    hide Represents, ListAfterTake;
    MallocKeepsInv(v, size);
    MallocGuards(v, size);
  }

  /** Whether a search succeeded, in terms of the abstract heap. */
  lemma SearchMeans(m: Memory, nodes: int, v: View, size: nat)
    requires Mirrors(m, nodes, v) && size >= 1 && Fits(size)
    ensures Inv(v) && ListOk(v.list) && Listed(m, nodes, v.list) && nodes + NNODES * FREE_NODE <= |m|
    ensures Rounded(size) >= FREE_NODE
    ensures var j := FirstFit(v.list, Rounded(size));
            var node := if j < |v.list| then AddrOf(nodes, v.list[j]) else 0;
            && CanServe(v, size) == (node != 0)
            && (node != 0 ==> Taken(v, size).FreeNode? && Taken(v, size).addr == node)
            && (node == 0 ==> AfterMalloc(v, size) == v && MallocResult(v, size) == 0)
  {
    RoundedShape(size);
    var j := FirstFit(v.list, Rounded(size));
    if j < |v.list| {
      NodeAt(m, nodes, v.list, j);
    }
  }

  lemma FreeLive(m: Memory, nodes: int, v: View, mem: int)
    requires Mirrors(m, nodes, v) && mem != 0 && Freeable(v, mem)
    ensures var i := ChunkAt(v.chunks, mem - ALLOC_NODE);
            Live(m, nodes, v.chunks, v.list, i) && v.chunks[i].addr == mem - ALLOC_NODE
  {
    LiveChunk(v, mem - ALLOC_NODE);
  }

  lemma FreedLive(v: View, mem: int)
    requires Inv(v) && mem != 0 && Freeable(v, mem)
    ensures var i, live := ChunkAt(v.chunks, mem - ALLOC_NODE), v.live - {mem - ALLOC_NODE};
            i < |v.chunks| && forall a :: a in live ==> Chunk(a, live[a].size, true) in Released(v.chunks, i)
  {
    hide ListOk, Agree, Coalesced, Tiled, ChunkAt;
    LiveChunk(v, mem - ALLOC_NODE);
    var i, live := ChunkAt(v.chunks, mem - ALLOC_NODE), v.live - {mem - ALLOC_NODE};
    forall a | a in live ensures Chunk(a, live[a].size, true) in Released(v.chunks, i) {
      var k := IndexOf(v.chunks, Chunk(a, live[a].size, true));
      assert Released(v.chunks, i)[k] == v.chunks[k];
    }
  }

  lemma AfterFreeIs(v: View, mem: int)
    requires Inv(v) && mem != 0 && Freeable(v, mem)
    ensures var i := ChunkAt(v.chunks, mem - ALLOC_NODE);
            && Mergeable(v.chunks, i)
            && AfterFree(v, mem).chunks == FullyMerged(v.chunks, i)
            && AfterFree(v, mem).list == ListAfterMerge(v.chunks, v.list, i)
            && AfterFree(v, mem).live == v.live - {mem - ALLOC_NODE}
  {
    hide Merged, ListAfterMerge, ChunkAt;
    LiveChunk(v, mem - ALLOC_NODE);
  }

  lemma FreeDone(m: Memory, m': Memory, nodes: int, v: View, mem: int)
    requires Mirrors(m, nodes, v) && mem != 0 && Freeable(v, mem)
    requires var i := ChunkAt(v.chunks, mem - ALLOC_NODE);
             && Mergeable(v.chunks, i)
             && Represents(m', nodes, FullyMerged(v.chunks, i), ListAfterMerge(v.chunks, v.list, i))
             && KeepsPayloads(m, m', Released(v.chunks, i)) && |m'| == |m|
    ensures Mirrors(m', nodes, AfterFree(v, mem))
    ensures KeepsLive(m, m', AfterFree(v, mem).live)
    ensures SameGuards(v, AfterFree(v, mem))
  {
    hide Represents, ListAfterMerge, FullyMerged, Merged, Inv, KeepsPayloads, KeepsLive;
    FreedLive(v, mem);
    var i := ChunkAt(v.chunks, mem - ALLOC_NODE);
    var live := v.live - {mem - ALLOC_NODE};
    PayloadsAreLive(m, m', Released(v.chunks, i), live);
    FreeKeepsInv(v, mem);
    FreeGuards(v, mem);
    AfterFreeIs(v, mem);
  }

  /** What a walk of the tiling reads at chunk k, and where it goes next. */
  lemma WalkStep(m: Memory, nodes: int, cs: seq<Chunk>, l: seq<Link>, k: nat)
    requires Represents(m, nodes, cs, l) && k < |cs| - 1
    ensures 0 <= cs[k].addr && cs[k].addr + ALLOC_NODE <= |m|
    ensures m[cs[k].addr] == cs[k].size && HasAllocBit(m[cs[k].addr + PRECEDING]) == cs[k].used
    ensures cs[k].addr + m[cs[k].addr] == cs[k + 1].addr
    ensures cs[k].addr < cs[|cs| - 1].addr
  {
    assert HeaderOk(m, cs, k);
    if k > 0 { assert HeaderOk(m, cs, k - 1); }
    TagBits(if k == 0 then 0 else cs[k - 1].size, cs[k].used);
    TiledOrder(cs, k, |cs| - 1);
    assert cs[k].size > 0 && cs[k].End() == cs[k + 1].addr;
  }

  lemma LiveSteps(m: Memory, nodes: int, cs: seq<Chunk>, l: seq<Link>, i: nat)
    requires Live(m, nodes, cs, l, i)
    ensures Mergeable(cs, i) && cs[i].used && Inside(m, cs[i].addr)
    ensures var m1 := m[cs[i].addr + PRECEDING := ClearAllocBit(m[cs[i].addr + PRECEDING])];
            && |Released(cs, i)| == |cs|
            && Released(cs, i)[i].addr == cs[i].addr && Released(cs, i)[i + 1] == cs[i + 1]
            && Inside(m1, cs[i + 1].addr)
            && cs[i].addr + m1[cs[i].addr] == cs[i + 1].addr
            && HasAllocBit(m1[cs[i + 1].addr + PRECEDING]) == cs[i + 1].used
            && m1[cs[i + 1].addr] == cs[i + 1].size
            && (cs[i + 1].used ==> RightDone(m1, nodes, cs, l, i))
            && (!cs[i + 1].used ==> CanMerge(m1, nodes, Released(cs, i), l, i, i + 1) && cs[i + 1].End() == cs[i + 2].addr)
            && KeepsPayloads(m, m1, Released(cs, i))
  {
    LiveClear(m, nodes, cs, l, i);
    LiveOff(m, nodes, cs, l, i);
    UnlistedKeeps(m, nodes, cs, l, i);
    ReleasedKeeps(m, nodes, cs, l, i);
    TagBits(cs[i].size, cs[i + 1].used);
    assert cs[i].End() == cs[i + 1].addr;
    assert !cs[i + 1].used ==> cs[i + 1].End() == cs[i + 2].addr;
  }

  lemma RightMerged(m: Memory, m1: Memory, m3: Memory, nodes: int, cs: seq<Chunk>, l: seq<Link>, i: nat)
    requires Live(m, nodes, cs, l, i) && !cs[i + 1].used
    requires Represents(m1, nodes, Released(cs, i), l)
    requires KeepsPayloads(m, m1, Released(cs, i)) && KeepsPayloads(m1, m3, Released(cs, i))
    requires FreeNode(cs[i + 1].addr, cs[i + 1].size) in l
    requires Represents(m3, nodes, JoinTiling(Released(cs, i), i), Remove(l, FreeNode(cs[i + 1].addr, cs[i + 1].size)))
    ensures RightDone(m3, nodes, cs, l, i)
    ensures KeepsPayloads(m, m3, Released(cs, i))
  {
    LiveOff(m, nodes, cs, l, i);
    UnlistedKeeps(m, nodes, cs, l, i);
    KeepsTrans(m, m1, m3, Released(cs, i), Released(cs, i));
  }

  /** The front neighbour as mm_free finds it, and what the merge with it leads to. */
  lemma RightSteps(m: Memory, nodes: int, cs: seq<Chunk>, l: seq<Link>, i: nat)
    requires RightDone(m, nodes, cs, l, i)
    ensures var r := AfterRight(cs, i);
            && 0 < i && i + 1 < |r| && r[i].addr == cs[i].addr && r[i - 1] == cs[i - 1]
            && r[i + 1].addr == cs[RunHi(cs, i)].addr
            && Inside(m, cs[i].addr) && Inside(m, cs[i - 1].addr)
            && cs[i].addr - m[cs[i].addr + PRECEDING] == cs[i - 1].addr
            && HasAllocBit(m[cs[i - 1].addr + PRECEDING]) == cs[i - 1].used
            && (!cs[i - 1].used ==> CanMerge(m, nodes, r, Unlisted(l, cs[i + 1]), i - 1, i - 1))
  {
    RightDoneAt(m, nodes, cs, l, i);
    if i > 1 {
      HeaderAt(m, nodes, AfterRight(cs, i), Unlisted(l, cs[i + 1]), i - 2);
      TagBits(AfterRight(cs, i)[i - 2].size, cs[i - 1].used);
    } else {
      TagBits(0, cs[i - 1].used);
    }
  }

  /** The list once both free neighbours have left it. */
  function ListBeforeInsert(cs: seq<Chunk>, l: seq<Link>, i: nat): seq<Link>
    requires Mergeable(cs, i)
  {
    Unlisted(Unlisted(l, cs[i + 1]), cs[i - 1])
  }

  lemma BothMerged(m: Memory, m': Memory, nodes: int, cs: seq<Chunk>, l: seq<Link>, i: nat, orig: Memory)
    requires Live(orig, nodes, cs, l, i)
    requires RightDone(m, nodes, cs, l, i)
    requires cs[i - 1].used ==> m' == m
    requires !cs[i - 1].used ==>
               && i < |AfterRight(cs, i)|
               && Represents(m', nodes, JoinTiling(AfterRight(cs, i), i - 1),
                             Remove(Unlisted(l, cs[i + 1]), FreeNode(cs[i - 1].addr, cs[i - 1].size)))
    ensures Represents(m', nodes, FullyMerged(cs, i), ListBeforeInsert(cs, l, i))
  {
    hide Represents;
    assert Tiled(cs) by { LiveTiled(orig, nodes, cs, l, i); }
    MergedBothSides(cs, i);
  }

  lemma LiveTiled(m: Memory, nodes: int, cs: seq<Chunk>, l: seq<Link>, i: nat)
    requires Live(m, nodes, cs, l, i)
    ensures Tiled(cs) && ListOk(l) && Agree(cs, l)
  {
  }

  lemma MergedAt(m: Memory, nodes: int, cs: seq<Chunk>, l: seq<Link>, i: nat)
    requires Live(m, nodes, cs, l, i)
    ensures var f, lo, c := FullyMerged(cs, i), RunLo(cs, i), Merged(cs, i);
            && 0 < lo < |f| - 1 && f[lo] == c && !c.used
            && FreeNode(c.addr, c.size) !in ListBeforeInsert(cs, l, i)
            && ListAfterMerge(cs, l, i) == Insert(ListBeforeInsert(cs, l, i), c.addr, c.size)
  {
    LiveOff(m, nodes, cs, l, i);
    UnlistedOk(cs, l, i + 1);
    UnlistedOk(cs, Unlisted(l, cs[i + 1]), i - 1);
    var c := Merged(cs, i);
    assert c !in cs by { TiledDisjoint(cs); }
  }

  lemma UsedSurvive(s: seq<Chunk>, i: nat, j: nat, mid: seq<Chunk>)
    requires i <= j <= |s| && forall k :: i <= k < j ==> !s[k].used
    ensures forall x :: x in s && x.used ==> x in Splice(s, i, j, mid)
  {
    forall x | x in s && x.used ensures x in Splice(s, i, j, mid) {
      var k := IndexOf(s, x);
      assert Splice(s, i, j, mid)[if k < i then k else k - j + i + |mid|] == x;
    }
  }

  lemma ReleasedSurvive(cs: seq<Chunk>, i: nat)
    requires Mergeable(cs, i)
    ensures forall x :: x in Released(cs, i) && x.used ==> x in FullyMerged(cs, i)
    ensures forall x :: x in Released(cs, i) && x.used ==> x in AfterRight(cs, i)
  {
    var r := Released(cs, i);
    var lo, hi := RunLo(cs, i), RunHi(cs, i);
    assert FullyMerged(cs, i) == Splice(r, lo, hi, [Merged(cs, i)]);
    UsedSurvive(r, lo, hi, [Merged(cs, i)]);
    UsedSurvive(r, i, RunHi(cs, i), [JoinedChunk(r[i], r[i + 1])]);
  }

  /** Joining chunks keeps what the joins kept. */
  lemma KeepsMerged(a: Memory, b: Memory, c: Memory, cs: seq<Chunk>, i: nat)
    requires Mergeable(cs, i)
    requires KeepsPayloads(a, b, Released(cs, i))
    requires KeepsPayloads(b, c, FullyMerged(cs, i)) || KeepsPayloads(b, c, AfterRight(cs, i))
    ensures KeepsPayloads(a, c, Released(cs, i))
  {
    hide KeepsPayloads, FullyMerged, AfterRight, Released;
    ReleasedSurvive(cs, i);
    if KeepsPayloads(b, c, FullyMerged(cs, i)) {
      KeepsTrans(a, b, c, Released(cs, i), FullyMerged(cs, i));
    } else {
      KeepsTrans(a, b, c, Released(cs, i), AfterRight(cs, i));
    }
  }

  /** The words of sentinel k once the sentinels below n are chained up. */
  ghost predicate HookOk(m: Memory, nodes: int, n: nat, k: nat) {
    var a := nodes + k * FREE_NODE;
    && 0 <= a && a + FREE_NODE <= |m|
    && m[a] == 0
    && m[a + FLINK] == (if k + 1 < n then a + FREE_NODE else 0)
    && m[a + BLINK] == (if 0 < k < n then a - FREE_NODE else 0)
  }

  ghost predicate Chained(m: Memory, nodes: int, n: nat) {
    forall k :: 0 <= k < NNODES ==> HookOk(m, nodes, n, k)
  }

  lemma ChainStep(m: Memory, nodes: int, n: nat, k: nat)
    requires 0 < nodes && nodes + NNODES * FREE_NODE <= |m| && 1 <= n < NNODES && k < NNODES
    requires HookOk(m, nodes, n, k)
    ensures var a: nat, b: nat := nodes + n * FREE_NODE, nodes + (n - 1) * FREE_NODE;
            HookOk(m[b + FLINK := a][a + BLINK := b], nodes, n + 1, k)
  {
  }

  lemma ChainAll(m: Memory, m': Memory, nodes: int, n: nat, n': nat)
    requires 0 < nodes && nodes + NNODES * FREE_NODE <= |m| && 1 <= n < NNODES && n' == n + 1
    requires var a: nat, b: nat := nodes + n * FREE_NODE, nodes + (n - 1) * FREE_NODE;
             m' == m[b + FLINK := a][a + BLINK := b]
    requires Chained(m, nodes, n)
    ensures Chained(m', nodes, n')
  {
    forall k | 0 <= k < NNODES ensures HookOk(m', nodes, n', k) {
      ChainStep(m, nodes, n, k);
    }
  }

  lemma ChainStart(m: Memory, nodes: int)
    requires 0 < nodes && nodes + NNODES * FREE_NODE <= |m|
    requires forall a :: nodes <= a < nodes + NNODES * FREE_NODE ==> m[a] == 0
    ensures Chained(m, nodes, 1)
  {
  }

  lemma ChainDone(m: Memory, nodes: int)
    requires 0 < nodes && nodes + NNODES * FREE_NODE <= |m| && Chained(m, nodes, NNODES)
    ensures Listed(m, nodes, Hooks(NNODES))
  {
    var l := Hooks(NNODES);
    forall k | 0 <= k < |l| ensures NodeOk(m, nodes, l, k) {
      assert HookOk(m, nodes, NNODES, k);
    }
  }

  lemma HooksFrame(m: Memory, m': Memory, nodes: int)
    requires Listed(m, nodes, Hooks(NNODES)) && |m'| == |m|
    requires forall a :: nodes <= a < nodes + NNODES * FREE_NODE && 0 <= a < |m| ==> m'[a] == m[a]
    ensures Listed(m', nodes, Hooks(NNODES))
  {
    ListedFrame(m, m', nodes, Hooks(NNODES));
  }

  lemma FreeNull(v: View)
    requires Inv(v)
    ensures AfterFree(v, 0) == v
  {
  }

  /** The header words mm_addregion writes. */
  lemma FirstRegion(m: Memory, nodes: int, base: int, bytes: int)
    requires RegionOk(base, bytes) && base + bytes <= |m|
    requires 0 < nodes && nodes + NNODES * FREE_NODE <= |m|
    requires base + bytes <= nodes || nodes + NNODES * FREE_NODE <= base
    requires Listed(m, nodes, Hooks(NNODES))
    requires m[base] == ALLOC_NODE && m[base + PRECEDING] == ALLOC_BIT
    requires m[base + ALLOC_NODE] == bytes - 2 * ALLOC_NODE && m[base + ALLOC_NODE + PRECEDING] == ALLOC_NODE
    requires m[base + bytes - ALLOC_NODE] == ALLOC_NODE
    requires m[base + bytes - ALLOC_NODE + PRECEDING] == bytes - 2 * ALLOC_NODE + ALLOC_BIT
    ensures Represents(m, nodes, InitChunks(base, bytes), Hooks(NNODES))
  {
    HooksOk();
    var cs := InitChunks(base, bytes);
    assert HeaderOk(m, cs, 0) && HeaderOk(m, cs, 1) && HeaderOk(m, cs, 2);
  }

  lemma FirstDone(m: Memory, nodes: int, base: int, bytes: int)
    requires RegionOk(base, bytes)
    requires Represents(m, nodes, InitChunks(base, bytes),
                        Insert(Hooks(NNODES), base + ALLOC_NODE, bytes - 2 * ALLOC_NODE))
    ensures Mirrors(m, nodes, InitView(base, bytes))
  {
    hide Represents, Inv;
    InitInv(base, bytes);
  }

  lemma MirrorsTotals(m: Memory, nodes: int, v: View)
    requires Mirrors(m, nodes, v)
    ensures FreeCount(v.chunks) == |v.list| - NNODES
    ensures |v.chunks| >= 3 && v.chunks[|v.chunks| - 1].size == ALLOC_NODE && v.chunks[|v.chunks| - 1].used
    ensures UsedBytes(v.chunks) + FreeBytes(v.chunks) == v.chunks[|v.chunks| - 1].End() - v.chunks[0].addr
    ensures Represents(m, nodes, v.chunks, v.list)
  {
    hide UsedBytes, FreeBytes, FreeCount;
    FreeListLength(v.chunks, v.list);
    BytesConserved(v.chunks);
  }

  /** Every free chunk has a predecessor on the list: mm_malloc and mm_free write through the
      backward link of a free chunk without looking at it. */
  lemma BlinkNeverNull(m: Memory, nodes: int, v: View, c: Chunk)
    requires Mirrors(m, nodes, v) && c in v.chunks && !c.used
    ensures 0 < c.addr && c.addr + FREE_NODE <= |m|
    ensures 0 < m[c.addr + BLINK] && m[c.addr + BLINK] + FREE_NODE <= |m|
    ensures m[m[c.addr + BLINK] + FLINK] == c.addr
  {
    hide Tiled, Coalesced, Sorted, MayPrecede, Headers, Fenced, Spaced, LiveOk;
    var x := FreeNode(c.addr, c.size);
    assert x in v.list;
    var j := IndexOf(v.list, x);
    assert NodeOk(m, nodes, v.list, j);
    assert j > 0;
    assert NodeOk(m, nodes, v.list, j - 1);
  }
}
