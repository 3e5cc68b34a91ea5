/** What mm_malloc and mm_free do to the abstract heap, and the invariant both keep. */
module MmOps {
  import opened Basics
  import opened MmLayout
  import opened MmView

  /** The chunks without the allocated flag are exactly the chunk nodes of the free list. */
  ghost predicate Agree(cs: seq<Chunk>, l: seq<Link>) {
    && (forall c :: c in cs && !c.used ==> FreeNode(c.addr, c.size) in l)
    && (forall x :: x in l && x.FreeNode? ==> Chunk(x.addr, x.bytes, false) in cs)
  }

  /** The allocated chunks between the guards are exactly the chunks behind live blocks, and
      each has room for its request; guards are the only chunks too small for a free node. */
  ghost predicate LiveOk(cs: seq<Chunk>, live: map<int, Block>) {
    && (forall c :: c in cs && c.used && c.size >= FREE_NODE ==>
          c.addr in live && live[c.addr].size == c.size)
    && (forall a :: a in live ==> Chunk(a, live[a].size, true) in cs && BlockOk(live[a]))
  }

  /** The chunk holds its header and the request, and wastes less than a free node plus a
      granule: 47 bytes more than the request at most. */
  predicate BlockOk(b: Block) {
    1 <= b.request && b.request + ALLOC_NODE <= b.size <= b.request + 47
  }

  ghost predicate Inv(v: View) {
    && Tiled(v.chunks) && Coalesced(v.chunks)
    && v.chunks[0].addr > 0
    && ListOk(v.list)
    && Agree(v.chunks, v.list)
    && LiveOk(v.chunks, v.live)
  }

  /** The first chunk whose header is at `addr`, or |cs|. */
  function ChunkAt(cs: seq<Chunk>, addr: int): (i: nat)
    ensures i <= |cs|
    ensures i < |cs| ==> cs[i].addr == addr
    ensures forall k :: 0 <= k < i ==> cs[k].addr != addr
  {
    if cs == [] || cs[0].addr == addr then 0 else 1 + ChunkAt(cs[1..], addr)
  }

  lemma ChunkAtIs(cs: seq<Chunk>, i: nat)
    requires Tiled(cs) && i < |cs|
    ensures ChunkAt(cs, cs[i].addr) == i
  {
    TiledDisjoint(cs);
  }

  lemma DistinctChunks(cs: seq<Chunk>)
    requires Tiled(cs)
    ensures Distinct(cs)
    ensures forall i, j :: 0 <= i < |cs| && 0 <= j < |cs| && cs[i].addr == cs[j].addr ==> i == j
  {
    TiledDisjoint(cs);
  }

  /** The free list names only chunks between the guards, each with its true size. */
  lemma ListedChunk(cs: seq<Chunk>, l: seq<Link>, x: Link)
    requires Tiled(cs) && Agree(cs, l) && x in l && x.FreeNode?
    ensures 0 < ChunkAt(cs, x.addr) < |cs| - 1
    ensures cs[ChunkAt(cs, x.addr)] == Chunk(x.addr, x.bytes, false)
  {
    ChunkAtIs(cs, IndexOf(cs, Chunk(x.addr, x.bytes, false)));
  }

  /** A live block is a chunk between the guards. */
  lemma LiveChunk(v: View, a: int)
    requires Inv(v) && a in v.live
    ensures Mergeable(v.chunks, ChunkAt(v.chunks, a))
    ensures v.chunks[ChunkAt(v.chunks, a)] == Chunk(a, v.live[a].size, true)
  {
    var i := IndexOf(v.chunks, Chunk(a, v.live[a].size, true));
    ChunkAtIs(v.chunks, i);
  }

  // ---------------------------------------------------------------------------
  // Allocation.

  /** The best chunk is handed out whole, or cut if the rest can hold a free node. */
  function Pieces(c: Chunk, need: int): seq<Chunk> {
    if c.size - need >= FREE_NODE
    then [Chunk(c.addr, need, true), Chunk(c.addr + need, c.size - need, false)]
    else [Chunk(c.addr, c.size, true)]
  }

  /** The free list once the node of `c` is gone and the rest of `c`, if any, is back on it. */
  function ListAfterTake(l: seq<Link>, c: Chunk, need: int): seq<Link>
    requires FreeNode(c.addr, c.size) in l
  {
    var l1 := Remove(l, FreeNode(c.addr, c.size));
    if c.size - need >= FREE_NODE then Insert(l1, c.addr + need, c.size - need) else l1
  }

  predicate CanServe(v: View, request: int) {
    request >= 1 && FirstFit(v.list, Rounded(request)) < |v.list|
  }

  /** The chunk mm_malloc takes. */
  function Taken(v: View, request: nat): (x: Link)
    requires CanServe(v, request)
    ensures x in v.list && x.Size() >= Rounded(request)
  {
    v.list[FirstFit(v.list, Rounded(request))]
  }

  ghost function AfterMalloc(v: View, request: nat): View
    requires Inv(v) && Fits(request)
  {
    if !CanServe(v, request) then v else
      RoundedShape(request);
      var x := Taken(v, request);
      var i := ChunkAt(v.chunks, x.addr);
      ListedChunk(v.chunks, v.list, x);
      var need := Rounded(request);
      View(Splice(v.chunks, i, i + 1, Pieces(v.chunks[i], need)),
           ListAfterTake(v.list, v.chunks[i], need),
           v.live[x.addr := Block(request, Pieces(v.chunks[i], need)[0].size)])
  }

  /** The pointer mm_malloc returns; 0 is NULL. */
  ghost function MallocResult(v: View, request: nat): int
    requires Inv(v) && Fits(request)
  {
    if !CanServe(v, request) then 0 else
      RoundedShape(request);
      Taken(v, request).addr + ALLOC_NODE
  }

  lemma SpliceMembers(cs: seq<Chunk>, i: nat, j: nat, mid: seq<Chunk>)
    requires Distinct(cs) && i <= j <= |cs|
    ensures forall c :: c in Splice(cs, i, j, mid) <==> c in mid || (c in cs && c !in cs[i..j])
  {
    assert cs == cs[..i] + cs[i..j] + cs[j..];
    assert forall c :: c in cs[..i] ==> c !in cs[i..j];
    assert forall c :: c in cs[j..] ==> c !in cs[i..j];
  }

  /** The list names no chunk that starts inside another one. */
  lemma CutNotListed(cs: seq<Chunk>, l: seq<Link>, i: nat, addr: int, size: int)
    requires Tiled(cs) && Agree(cs, l) && i < |cs| && cs[i].addr < addr < cs[i].End()
    ensures FreeNode(addr, size) !in l
  {
    NoChunkInside(cs, i, addr);
  }

  lemma FreeChunkListed(cs: seq<Chunk>, l: seq<Link>, i: nat)
    requires Agree(cs, l) && i < |cs| && !cs[i].used
    ensures FreeNode(cs[i].addr, cs[i].size) in l
  {
    assert cs[i] in cs;
  }

  lemma TakeListed(cs: seq<Chunk>, l: seq<Link>, i: nat, need: int)
    requires Tiled(cs) && ListOk(l) && Agree(cs, l)
    requires 0 < i < |cs| - 1 && !cs[i].used && FREE_NODE <= need <= cs[i].size
    ensures FreeNode(cs[i].addr, cs[i].size) in l
    ensures ListOk(ListAfterTake(l, cs[i], need))
    ensures forall y :: y in ListAfterTake(l, cs[i], need) <==>
                        || (y in l && y != FreeNode(cs[i].addr, cs[i].size))
                        || (cs[i].size - need >= FREE_NODE && y == FreeNode(cs[i].addr + need, cs[i].size - need))
  {
    hide Tiled, ListOk, Agree, Insert, Remove;
    var c := cs[i];
    FreeChunkListed(cs, l, i);
    RemoveOk(l, FreeNode(c.addr, c.size));
    if c.size - need >= FREE_NODE {
      CutNotListed(cs, l, i, c.addr + need, c.size - need);
      InsertOk(Remove(l, FreeNode(c.addr, c.size)), c.addr + need, c.size - need);
    }
  }

  lemma NoChunkInside(cs: seq<Chunk>, i: nat, addr: int)
    requires Tiled(cs) && i < |cs| && cs[i].addr < addr < cs[i].End()
    ensures forall c :: c in cs ==> c.addr != addr
  {
    TiledDisjoint(cs);
    forall c | c in cs ensures c.addr != addr {
      var k := IndexOf(cs, c);
    }
  }

  lemma MallocAgree(cs: seq<Chunk>, l: seq<Link>, i: nat, need: int, l': seq<Link>)
    requires Distinct(cs) && Agree(cs, l) && i < |cs| && !cs[i].used
    requires forall y :: y in l' <==>
                         || (y in l && y != FreeNode(cs[i].addr, cs[i].size))
                         || (cs[i].size - need >= FREE_NODE && y == FreeNode(cs[i].addr + need, cs[i].size - need))
    ensures Agree(Splice(cs, i, i + 1, Pieces(cs[i], need)), l')
  {
    var mid := Pieces(cs[i], need);
    SpliceMembers(cs, i, i + 1, mid);
    assert cs[i..i + 1] == [cs[i]];
    if cs[i].size - need >= FREE_NODE { assert mid[1] in mid; }
  }

  lemma OnGranule(cs: seq<Chunk>, i: nat)
    requires Tiled(cs) && 0 < i < |cs| - 1
    ensures cs[i].size % GRANULE == 0
  {
  }

  lemma MallocKeepsLive(cs: seq<Chunk>, live: map<int, Block>, i: nat, request: nat)
    requires Tiled(cs) && LiveOk(cs, live)
    requires 0 < i < |cs| - 1 && !cs[i].used
    requires request >= 1 && Fits(request) && Rounded(request) <= cs[i].size
    ensures LiveOk(Splice(cs, i, i + 1, Pieces(cs[i], Rounded(request))),
                   live[cs[i].addr := Block(request, Pieces(cs[i], Rounded(request))[0].size)])
  {
    hide Tiled, Distinct, Splice, Rounded, Fits;
    RoundedShape(request);
    OnGranule(cs, i);
    var mid := Pieces(cs[i], Rounded(request));
    DistinctChunks(cs);
    SpliceMembers(cs, i, i + 1, mid);
    assert cs[i..i + 1] == [cs[i]];
    OthersElsewhere(cs, i);
    assert mid[0] in mid;
  }

  /** An allocation keeps the heap invariant. */
  lemma MallocKeepsInv(v: View, request: nat)
    requires Inv(v) && Fits(request)
    ensures Inv(AfterMalloc(v, request))
  {
    if CanServe(v, request) {
      RoundedShape(request);
      var x := Taken(v, request);
      ListedChunk(v.chunks, v.list, x);
      var i := ChunkAt(v.chunks, x.addr);
      var need := Rounded(request);
      TakeListed(v.chunks, v.list, i, need);
      DistinctChunks(v.chunks);
      MallocAgree(v.chunks, v.list, i, need, ListAfterTake(v.list, v.chunks[i], need));
      MallocKeepsLive(v.chunks, v.live, i, request);
      MallocKeepsTiling(v.chunks, i, need);
    }
  }

  lemma MallocKeepsTiling(cs: seq<Chunk>, i: nat, need: int)
    requires Tiled(cs) && Coalesced(cs)
    requires 0 < i < |cs| - 1 && !cs[i].used && FREE_NODE <= need <= cs[i].size && need % GRANULE == 0
    ensures Tiled(Splice(cs, i, i + 1, Pieces(cs[i], need)))
    ensures Coalesced(Splice(cs, i, i + 1, Pieces(cs[i], need)))
  {
    var mid := Pieces(cs[i], need);
    assert SameSpan(cs, i, i + 1, mid) by { assert cs[i].End() == cs[i + 1].addr; }
    assert cs[i + 1].used && cs[i - 1].used;
    hide Tiled, Coalesced;
    SpliceTiled(cs, i, i + 1, mid);
    assert Coalesced([cs[i - 1]] + mid + [cs[i + 1]]) by { FenceCoalesced(cs[i - 1], mid, cs[i + 1]); }
    SpliceCoalesced(cs, i, i + 1, mid);
  }

  lemma FenceCoalesced(b: Chunk, mid: seq<Chunk>, c: Chunk)
    requires b.used && c.used && (|mid| == 1 || (|mid| == 2 && mid[0].used))
    ensures Coalesced([b] + mid + [c])
  {
  }

  // ---------------------------------------------------------------------------
  // Release.

  /** First and one-past-last chunk of the free run that chunk i joins. */
  function RunLo(cs: seq<Chunk>, i: nat): nat
    requires 0 < i < |cs| - 1
  {
    if cs[i - 1].used then i else i - 1
  }

  function RunHi(cs: seq<Chunk>, i: nat): nat
    requires 0 < i < |cs| - 1
  {
    if cs[i + 1].used then i + 1 else i + 2
  }

  predicate Mergeable(cs: seq<Chunk>, i: nat) {
    0 < i < |cs| - 1 && RunHi(cs, i) < |cs|
  }

  function Merged(cs: seq<Chunk>, i: nat): Chunk
    requires Mergeable(cs, i)
  {
    var lo := RunLo(cs, i);
    Chunk(cs[lo].addr, cs[RunHi(cs, i)].addr - cs[lo].addr, false)
  }

  /** The list without the node of a free chunk; unchanged for an allocated chunk. */
  function Unlisted(l: seq<Link>, c: Chunk): seq<Link> {
    var x := FreeNode(c.addr, c.size);
    if !c.used && x in l then Remove(l, x) else l
  }

  function ListAfterMerge(cs: seq<Chunk>, l: seq<Link>, i: nat): seq<Link>
    requires Mergeable(cs, i)
  {
    var m := Merged(cs, i);
    Insert(Unlisted(Unlisted(l, cs[i + 1]), cs[i - 1]), m.addr, m.size)
  }

  ghost predicate Freeable(v: View, mem: int) {
    mem == 0 || mem - ALLOC_NODE in v.live
  }

  ghost function AfterFree(v: View, mem: int): View
    requires Inv(v) && Freeable(v, mem)
  {
    if mem == 0 then v else
      var i := ChunkAt(v.chunks, mem - ALLOC_NODE);
      LiveChunk(v, mem - ALLOC_NODE);
      View(Splice(v.chunks, RunLo(v.chunks, i), RunHi(v.chunks, i), [Merged(v.chunks, i)]),
           ListAfterMerge(v.chunks, v.list, i),
           v.live - {mem - ALLOC_NODE})
  }

  lemma UnlistedOk(cs: seq<Chunk>, l: seq<Link>, i: nat)
    requires ListOk(l) && i < |cs| && Tiled(cs)
    ensures ListOk(Unlisted(l, cs[i]))
    ensures forall y :: y in Unlisted(l, cs[i]) <==>
                        y in l && !(!cs[i].used && y == FreeNode(cs[i].addr, cs[i].size))
  {
    var x := FreeNode(cs[i].addr, cs[i].size);
    if !cs[i].used && x in l {
      RemoveOk(l, x);
    }
  }

  lemma MergeListed(cs: seq<Chunk>, l: seq<Link>, i: nat)
    requires Tiled(cs) && ListOk(l) && Agree(cs, l)
    requires Mergeable(cs, i) && cs[i].used
    ensures ListOk(ListAfterMerge(cs, l, i))
    ensures forall y :: y in ListAfterMerge(cs, l, i) <==>
                        || (y in l
                            && !(!cs[i + 1].used && y == FreeNode(cs[i + 1].addr, cs[i + 1].size))
                            && !(!cs[i - 1].used && y == FreeNode(cs[i - 1].addr, cs[i - 1].size)))
                        || y == FreeNode(Merged(cs, i).addr, Merged(cs, i).size)
  {
    var m := Merged(cs, i);
    assert m !in cs && m.size >= FREE_NODE by { TiledDisjoint(cs); }
    UnlistedOk(cs, l, i + 1);
    var l1 := Unlisted(l, cs[i + 1]);
    UnlistedOk(cs, l1, i - 1);
    InsertOk(Unlisted(l1, cs[i - 1]), m.addr, m.size);
  }

  lemma FreeAgree(cs: seq<Chunk>, l: seq<Link>, i: nat, l': seq<Link>)
    requires Distinct(cs) && Agree(cs, l) && Mergeable(cs, i) && cs[i].used
    requires forall y :: y in l' <==>
                         || (y in l
                             && !(!cs[i + 1].used && y == FreeNode(cs[i + 1].addr, cs[i + 1].size))
                             && !(!cs[i - 1].used && y == FreeNode(cs[i - 1].addr, cs[i - 1].size)))
                         || y == FreeNode(Merged(cs, i).addr, Merged(cs, i).size)
    ensures Agree(Splice(cs, RunLo(cs, i), RunHi(cs, i), [Merged(cs, i)]), l')
  {
    var lo, hi, m := RunLo(cs, i), RunHi(cs, i), Merged(cs, i);
    SpliceMembers(cs, lo, hi, [m]);
    forall c | c in cs && !c.used ensures c in cs[lo..hi] <==> c == cs[i + 1] || c == cs[i - 1] {
      if c == cs[i - 1] { assert cs[lo..hi][0] == c; }
      if c == cs[i + 1] { assert cs[lo..hi][i + 1 - lo] == c; }
    }
    assert m in [m];
  }

  lemma FreeKeepsLive(cs: seq<Chunk>, live: map<int, Block>, i: nat)
    requires Tiled(cs) && LiveOk(cs, live) && Mergeable(cs, i) && cs[i].used
    ensures LiveOk(Splice(cs, RunLo(cs, i), RunHi(cs, i), [Merged(cs, i)]), live - {cs[i].addr})
  {
    hide Tiled, Distinct, BlockOk, Splice;
    var lo, hi := RunLo(cs, i), RunHi(cs, i);
    OthersElsewhere(cs, i);
    DistinctChunks(cs);
    SpliceMembers(cs, lo, hi, [Merged(cs, i)]);
    RunMembers(cs, i);
  }

  /** Of the chunks a release merges only its own is allocated. */
  lemma RunMembers(cs: seq<Chunk>, i: nat)
    requires Mergeable(cs, i) && cs[i].used
    ensures cs[i] in cs[RunLo(cs, i)..RunHi(cs, i)]
    ensures forall c :: c in cs[RunLo(cs, i)..RunHi(cs, i)] && c.used ==> c == cs[i]
  {
    var lo, hi := RunLo(cs, i), RunHi(cs, i);
    assert cs[lo..hi][i - lo] == cs[i];
  }

  lemma OthersElsewhere(cs: seq<Chunk>, i: nat)
    requires Tiled(cs) && i < |cs|
    ensures forall c :: c in cs && c != cs[i] ==> c.addr != cs[i].addr
  {
    DistinctChunks(cs);
    forall c | c in cs && c != cs[i] ensures c.addr != cs[i].addr {
      var k := IndexOf(cs, c);
    }
  }

  /** The chunk a release puts in place of those it merges covers the same bytes. */
  lemma MergedSpan(cs: seq<Chunk>, i: nat)
    requires Tiled(cs) && Mergeable(cs, i) && RunHi(cs, i) < |cs|
    ensures var lo, hi := RunLo(cs, i), RunHi(cs, i); 0 < lo < hi && SameSpan(cs, lo, hi, [Merged(cs, i)])
  {
    hide Splice;
    var lo, hi := RunLo(cs, i), RunHi(cs, i);
    TiledOrder(cs, lo, hi);
    TiledAligned(cs, lo);
    TiledAligned(cs, hi);
    assert cs[lo].size >= FREE_NODE;
  }

  /** What is left around it is allocated. */
  lemma MergedBetween(cs: seq<Chunk>, i: nat)
    requires Coalesced(cs) && Mergeable(cs, i) && cs[0].used && cs[|cs| - 1].used
    ensures var lo, hi := RunLo(cs, i), RunHi(cs, i);
            0 < lo && cs[lo - 1].used && cs[hi].used && Coalesced([cs[lo - 1]] + [Merged(cs, i)] + [cs[hi]])
  {
  }

  lemma FreeKeepsTiling(cs: seq<Chunk>, i: nat)
    requires Tiled(cs) && Coalesced(cs) && Mergeable(cs, i)
    ensures Tiled(Splice(cs, RunLo(cs, i), RunHi(cs, i), [Merged(cs, i)]))
    ensures Coalesced(Splice(cs, RunLo(cs, i), RunHi(cs, i), [Merged(cs, i)]))
  {
    hide Splice, Coalesced, Inner, SameSpan;
    var lo, hi := RunLo(cs, i), RunHi(cs, i);
    MergedSpan(cs, i);
    MergedBetween(cs, i);
    SpliceTiled(cs, lo, hi, [Merged(cs, i)]);
    SpliceCoalesced(cs, lo, hi, [Merged(cs, i)]);
  }

  /** Releasing a live block keeps the heap invariant. */
  lemma FreeKeepsInv(v: View, mem: int)
    requires Inv(v) && Freeable(v, mem)
    ensures Inv(AfterFree(v, mem))
  {
    if mem != 0 {
      var cs := v.chunks;
      LiveChunk(v, mem - ALLOC_NODE);
      var i := ChunkAt(cs, mem - ALLOC_NODE);
      DistinctChunks(cs);
      MergeListed(cs, v.list, i);
      FreeAgree(cs, v.list, i, ListAfterMerge(cs, v.list, i));
      FreeKeepsLive(cs, v.live, i);
      FreeKeepsTiling(cs, i);
    }
  }
}
