/** Properties of the abstract heap over whole runs of mm_malloc and mm_free. */
module MmRuns {
  import opened Basics
  import opened MmLayout
  import opened MmView
  import opened MmOps

  // ---------------------------------------------------------------------------
  // The heap mm_initialize builds.

  function Hooks(n: nat): (l: seq<Link>)
    ensures |l| == n && forall k :: 0 <= k < n ==> l[k] == Hook(k)
  {
    seq(n, k requires 0 <= k => Hook(k))
  }

  function InitChunks(base: int, bytes: int): seq<Chunk> {
    [Chunk(base, ALLOC_NODE, true),
     Chunk(base + ALLOC_NODE, bytes - 2 * ALLOC_NODE, false),
     Chunk(base + bytes - ALLOC_NODE, ALLOC_NODE, true)]
  }

  /** One free chunk between the guards, listed among the sentinels; nothing handed out. */
  function InitView(base: int, bytes: int): View {
    View(InitChunks(base, bytes), Insert(Hooks(NNODES), base + ALLOC_NODE, bytes - 2 * ALLOC_NODE), map[])
  }

  predicate RegionOk(base: int, bytes: int) {
    && base > 0 && base % GRANULE == 0
    && bytes % GRANULE == 0 && 2 * ALLOC_NODE + FREE_NODE <= bytes < ALLOC_BIT
  }

  lemma HooksOk()
    ensures ListOk(Hooks(NNODES))
  {
    var l := Hooks(NNODES);
    forall i, j | 0 <= i < j < NNODES ensures MayPrecede(l[i], l[j]) {
      Pow2Grows(i, j);
    }
    forall k | 0 <= k < NNODES ensures Hook(k) in l {
      assert l[k] == Hook(k);
    }
  }

  lemma InitAgree(cs: seq<Chunk>, hooks: seq<Link>, l: seq<Link>)
    requires |cs| == 3 && cs[0].used && !cs[1].used && cs[2].used
    requires forall x :: x in hooks ==> x.Hook?
    requires forall x :: x in l <==> x in hooks || x == FreeNode(cs[1].addr, cs[1].size)
    ensures Agree(cs, l)
  {
    assert cs[1] in cs;
  }

  lemma InitTiled(base: int, bytes: int)
    requires RegionOk(base, bytes)
    ensures Tiled(InitChunks(base, bytes)) && Coalesced(InitChunks(base, bytes))
  {
  }

  lemma InitList(base: int, bytes: int)
    requires RegionOk(base, bytes)
    ensures ListOk(InitView(base, bytes).list)
    ensures forall x :: x in InitView(base, bytes).list <==>
                        x in Hooks(NNODES) || x == FreeNode(base + ALLOC_NODE, bytes - 2 * ALLOC_NODE)
  {
    HooksOk();
    assert FreeNode(base + ALLOC_NODE, bytes - 2 * ALLOC_NODE) !in Hooks(NNODES);
    hide ListOk;
    InsertOk(Hooks(NNODES), base + ALLOC_NODE, bytes - 2 * ALLOC_NODE);
  }

  lemma InitInv(base: int, bytes: int)
    requires RegionOk(base, bytes)
    ensures Inv(InitView(base, bytes))
  {
    hide Tiled, Coalesced, ListOk, Agree, Insert;
    InitTiled(base, bytes);
    InitList(base, bytes);
    InitAgree(InitChunks(base, bytes), Hooks(NNODES), InitView(base, bytes).list);
  }

  // ---------------------------------------------------------------------------
  // Runs.

  datatype Op = Malloc(request: nat) | Release(mem: int)

  /** Callers pass mm_free only NULL or a pointer that is live, and ask for no size whose
      rounding wraps. */
  ghost predicate StepOk(v: View, op: Op) {
    match op
    case Malloc(r) => Fits(r)
    case Release(m) => Freeable(v, m)
  }

  ghost function Step(v: View, op: Op): (v': View)
    requires Inv(v) && StepOk(v, op)
    ensures Inv(v')
  {
    match op
    case Malloc(r) => MallocKeepsInv(v, r); AfterMalloc(v, r)
    case Release(m) => FreeKeepsInv(v, m); AfterFree(v, m)
  }

  ghost predicate Legal(v: View, ops: seq<Op>)
    requires Inv(v)
    decreases |ops|
  {
    ops != [] ==> StepOk(v, ops[0]) && Legal(Step(v, ops[0]), ops[1..])
  }

  ghost function Run(v: View, ops: seq<Op>): (v': View)
    requires Inv(v) && Legal(v, ops)
    ensures Inv(v')
    decreases |ops|
  {
    if ops == [] then v else Run(Step(v, ops[0]), ops[1..])
  }

  /** No step moves or resizes the guards, so the region they enclose stays the same. */
  ghost predicate SameGuards(v: View, w: View) {
    SameEnds(v.chunks, w.chunks)
  }

  ghost predicate SameEnds(cs: seq<Chunk>, r: seq<Chunk>) {
    |cs| > 0 && |r| > 0 && r[0] == cs[0] && r[|r| - 1] == cs[|cs| - 1]
  }

  lemma SpliceEnds(cs: seq<Chunk>, i: nat, j: nat, mid: seq<Chunk>)
    requires 0 < i <= j < |cs|
    ensures SameEnds(cs, Splice(cs, i, j, mid))
  {
  }

  lemma MallocGuards(v: View, request: nat)
    requires Inv(v) && Fits(request)
    ensures SameGuards(v, AfterMalloc(v, request))
  {
    if CanServe(v, request) {
      RoundedShape(request);
      ListedChunk(v.chunks, v.list, Taken(v, request));
      var i := ChunkAt(v.chunks, Taken(v, request).addr);
      SpliceEnds(v.chunks, i, i + 1, Pieces(v.chunks[i], Rounded(request)));
    }
  }

  lemma FreeGuards(v: View, mem: int)
    requires Inv(v) && Freeable(v, mem)
    ensures SameGuards(v, AfterFree(v, mem))
  {
    if mem != 0 {
      LiveChunk(v, mem - ALLOC_NODE);
      var i := ChunkAt(v.chunks, mem - ALLOC_NODE);
      SpliceEnds(v.chunks, RunLo(v.chunks, i), RunHi(v.chunks, i), [Merged(v.chunks, i)]);
    }
  }

  lemma StepGuards(v: View, op: Op)
    requires Inv(v) && StepOk(v, op)
    ensures SameGuards(v, Step(v, op))
  {
    match op
    case Malloc(r) => MallocGuards(v, r);
    case Release(m) => FreeGuards(v, m);
  }

  lemma {:induction false} RunGuards(v: View, ops: seq<Op>)
    requires Inv(v) && Legal(v, ops)
    ensures SameGuards(v, Run(v, ops))
    decreases |ops|
  {
    hide Inv, Step, StepOk, SameEnds;
    GuardsTransitive();
    if ops != [] {
      StepGuards(v, ops[0]);
      RunGuards(Step(v, ops[0]), ops[1..]);
    } else {
      SameItself(v);
    }
  }

  lemma GuardsTransitive()
    ensures forall cs, r, s :: SameEnds(cs, r) && SameEnds(r, s) ==> SameEnds(cs, s)
  {
  }

  lemma SameItself(v: View)
    requires Inv(v)
    ensures SameGuards(v, v)
  {
    hide ListOk, Agree, LiveOk, Coalesced;
  }

  // ---------------------------------------------------------------------------
  // Full coalescing.

  ghost predicate Antisymmetric(l: seq<Link>) {
    forall x, y :: x in l && y in l && MayPrecede(x, y) && MayPrecede(y, x) ==> x == y
  }

  lemma SameHead(l: seq<Link>, m: seq<Link>)
    requires Sorted(l) && Sorted(m) && l != [] && m != []
    requires l[0] in m && m[0] in l && Antisymmetric(l)
    ensures l[0] == m[0]
  {
    hide MayPrecede;
    var i, j := IndexOf(m, l[0]), IndexOf(l, m[0]);
    if i > 0 && j > 0 {
      assert MayPrecede(m[0], m[i]) && MayPrecede(l[0], l[j]);
    }
  }

  lemma SortedTail(l: seq<Link>)
    requires Sorted(l) && Distinct(l) && l != []
    ensures Sorted(l[1..]) && Distinct(l[1..])
    ensures forall x :: x in l[1..] <==> x in l && x != l[0]
  {
    assert l == [l[0]] + l[1..];
  }

  lemma FirstIn(m: seq<Link>)
    ensures m == [] || m[0] in m
  {
  }

  lemma {:induction false} SortedUnique(l: seq<Link>, m: seq<Link>)
    requires Sorted(l) && Distinct(l) && Sorted(m) && Distinct(m)
    requires forall x :: x in l <==> x in m
    requires Antisymmetric(l)
    ensures l == m
    decreases |l|
  {
    if l == [] {
      FirstIn(m);
    } else {
      hide Sorted, Distinct, MayPrecede;
      assert l[0] in m;
      SameHead(l, m);
      SortedTail(l);
      SortedTail(m);
      SortedUnique(l[1..], m[1..]);
      assert l == [l[0]] + l[1..] && m == [m[0]] + m[1..];
    }
  }

  lemma LoneChunk(cs: seq<Chunk>, base: int, bytes: int)
    requires Tiled(cs) && Coalesced(cs) && SameEnds(InitChunks(base, bytes), cs)
    requires forall i :: 0 < i < |cs| - 1 ==> !cs[i].used
    ensures cs == InitChunks(base, bytes)
  {
    var first, second := cs[1], cs[2];
    assert |cs| == 3;
    assert cs[0].End() == cs[1].addr && cs[1].End() == cs[2].addr;
  }

  lemma LoneAntisymmetric(l: seq<Link>, x0: Link)
    requires forall x :: x in l ==> x.Hook? || x == x0
    ensures Antisymmetric(l)
  {
    forall x, y | x in l && y in l && MayPrecede(x, y) && MayPrecede(y, x) ensures x == y {
    }
  }

  lemma LoneList(l: seq<Link>, base: int, bytes: int)
    requires RegionOk(base, bytes) && ListOk(l) && Agree(InitChunks(base, bytes), l)
    ensures l == InitView(base, bytes).list
  {
    var cs, x0 := InitChunks(base, bytes), FreeNode(base + ALLOC_NODE, bytes - 2 * ALLOC_NODE);
    var m := InitView(base, bytes).list;
    InitList(base, bytes);
    hide Insert;
    assert cs[1] in cs;
    forall x ensures x in l <==> x in m {
      if x.Hook? {
        assert x in m ==> x in Hooks(NNODES);
        assert x in l ==> Hooks(NNODES)[x.k] == x;
      } else {
        assert x in l ==> Chunk(x.addr, x.bytes, false) in cs;
        assert x !in Hooks(NNODES);
      }
    }
    LoneAntisymmetric(l, x0);
    SortedUnique(l, m);
  }

  /** A heap with nothing handed out has one shape only: the one mm_initialize built. */
  lemma NothingLiveMeansInitial(v: View, base: int, bytes: int)
    requires Inv(v) && RegionOk(base, bytes) && SameEnds(InitChunks(base, bytes), v.chunks)
    requires v.live == map[]
    ensures v == InitView(base, bytes)
  {
    hide Insert, Agree, ListOk, Coalesced;
    var cs := v.chunks;
    forall i | 0 < i < |cs| - 1 ensures !cs[i].used {
      assert cs[i] in cs;
    }
    LoneChunk(cs, base, bytes);
    LoneList(v.list, base, bytes);
  }

  /** However blocks are allocated and in whatever order they are released, from the first call on
      or from any state reached since: once none is left, the heap is the single free chunk it
      started with, tiling and free list included. */
  lemma FullCoalescing(base: int, bytes: int, v: View, ops: seq<Op>)
    requires RegionOk(base, bytes) && SameEnds(InitChunks(base, bytes), v.chunks)
    requires Inv(v) && Legal(v, ops)
    requires Run(v, ops).live == map[]
    ensures Run(v, ops) == InitView(base, bytes)
  {
    hide Inv, Legal, Run, SameEnds, RegionOk, InitView;
    RunGuards(v, ops);
    GuardsTransitive();
    NothingLiveMeansInitial(Run(v, ops), base, bytes);
  }

  // ---------------------------------------------------------------------------
  // Order of the free list and best fit.

  /** The part of the list behind sentinel k and before sentinel k + 1 holds exactly the chunks of
      bucket k. */
  lemma BucketSegments(l: seq<Link>, j: nat, k: nat)
    requires ListOk(l) && j < |l| && l[j].FreeNode? && k < NNODES
    ensures InBucket(l[j].bytes, k) <==>
            IndexOf(l, Hook(k)) < j && (k + 1 < NNODES ==> j < IndexOf(l, Hook(k + 1)))
  {
    hide ListOk, InBucket, BucketLow, IndexOf;
    HookSplits(l, j, k);
    if k + 1 < NNODES { HookSplits(l, j, k + 1); }
    LargeBucket(l[j].bytes, k);
  }

  lemma LargeBucket(size: nat, k: nat)
    requires k < NNODES && FREE_NODE <= size
    ensures InBucket(size, k) <==> BucketLow(k) <= size && (k + 1 < NNODES ==> size < BucketLow(k + 1))
  {
    assert BucketLow(0) == GRANULE;
  }

  lemma HookSplits(l: seq<Link>, j: nat, k: nat)
    requires ListOk(l) && j < |l| && l[j].FreeNode? && k < NNODES
    ensures Hook(k) in l && l[j].bytes >= FREE_NODE && IndexOf(l, Hook(k)) != j
    ensures IndexOf(l, Hook(k)) < j <==> BucketLow(k) <= l[j].bytes
  {
    assert l[j] in l;
    var h := IndexOf(l, Hook(k));
    if h < j {
      assert MayPrecede(l[h], l[j]);
    } else {
      assert MayPrecede(l[j], l[h]);
    }
  }

  /** A chunk that is added stands before every chunk of its own size and behind every smaller one;
      the other nodes keep their order. */
  lemma InsertBeforeEquals(l: seq<Link>, addr: int, size: int) returns (p: nat)
    requires ListOk(l) && size >= FREE_NODE
    ensures p <= |l| && Insert(l, addr, size) == l[..p] + [FreeNode(addr, size)] + l[p..]
    ensures forall j :: 0 <= j < p && l[j].FreeNode? ==> l[j].bytes < size
    ensures forall j :: p <= j < |l| && l[j].FreeNode? ==> l[j].bytes >= size
  {
    p := Place(l, size);
    forall j | p <= j < |l| && l[j].FreeNode? ensures l[j].bytes >= size {
      if j > p { assert MayPrecede(l[p], l[j]); }
    }
    assert forall j :: 0 <= j < p ==> Below(l[j], size);
  }

  /** Sentinels stand in index order. */
  lemma HooksInOrder(l: seq<Link>, i: nat, k: nat)
    requires ListOk(l) && i < k < NNODES
    ensures IndexOf(l, Hook(i)) < IndexOf(l, Hook(k))
  {
    Pow2Grows(i, k);
    var a, b := IndexOf(l, Hook(i)), IndexOf(l, Hook(k));
  }

  /** Everything up to the sentinel of the request's bucket is too small, so a search may start
      there and still find what a scan of the whole list finds. */
  lemma SkippedTooSmall(l: seq<Link>, need: nat, ndx: nat, j: nat)
    requires ListOk(l) && InBucket(need, ndx) && 1 <= need
    requires j <= IndexOf(l, Hook(ndx))
    ensures l[j].Size() < need
    ensures FREE_NODE <= need ==> Below(l[j], need)
  {
    var h := IndexOf(l, Hook(ndx));
    assert BucketLow(0) == GRANULE;
    if need < FREE_NODE { SmallBucket(need, ndx); }
    if j < h {
      assert MayPrecede(l[j], l[h]);
    }
  }

  lemma SmallBucket(need: nat, ndx: nat)
    requires InBucket(need, ndx) && need < FREE_NODE
    ensures ndx == 0
  {
  }

  lemma SkippedAllTooSmall(l: seq<Link>, need: nat, ndx: nat)
    requires ListOk(l) && InBucket(need, ndx)
    ensures ndx < NNODES && Hook(ndx) in l
    ensures 1 <= need ==> forall i :: 0 <= i <= IndexOf(l, Hook(ndx)) ==> l[i].Size() < need
    ensures FREE_NODE <= need ==> forall i :: 0 <= i <= IndexOf(l, Hook(ndx)) ==> Below(l[i], need)
    ensures need < FREE_NODE ==> IndexOf(l, Hook(ndx)) == 0
  {
    if 1 <= need {
      forall i | 0 <= i <= IndexOf(l, Hook(ndx)) ensures l[i].Size() < need && (FREE_NODE <= need ==> Below(l[i], need)) {
        SkippedTooSmall(l, need, ndx, i);
      }
    }
    if need < FREE_NODE { SmallBucket(need, ndx); }
  }

  /** mm_malloc returns NULL exactly for size zero or when no free chunk is as large as the
      rounded request. */
  lemma MallocComplete(v: View, request: nat)
    requires Inv(v) && Fits(request)
    ensures MallocResult(v, request) == 0 <==>
            request == 0 || forall c :: c in v.chunks && !c.used ==> c.size < Rounded(request)
  {
    if request >= 1 {
      RoundedShape(request);
      var p := FirstFit(v.list, Rounded(request));
      if p < |v.list| {
        var x := v.list[p];
        assert Chunk(x.addr, x.bytes, false) in v.chunks;
        ListedChunk(v.chunks, v.list, x);
        TiledDisjoint(v.chunks);
      } else {
        forall c | c in v.chunks && !c.used ensures c.size < Rounded(request) {
          var i := IndexOf(v.list, FreeNode(c.addr, c.size));
          assert v.list[i].Size() < Rounded(request);
        }
      }
    }
  }

  /** The chunk taken is a smallest one among all free chunks the request fits in. */
  lemma MallocBestFit(v: View, request: nat, c: Chunk)
    requires Inv(v) && Fits(request) && MallocResult(v, request) != 0
    requires c in v.chunks && !c.used && c.size >= Rounded(request)
    ensures var x := MallocResult(v, request) - ALLOC_NODE;
            exists s :: Chunk(x, s, false) in v.chunks && Rounded(request) <= s <= c.size
  {
    RoundedShape(request);
    var p := FirstFit(v.list, Rounded(request));
    var i := IndexOf(v.list, FreeNode(c.addr, c.size));
    var x := v.list[p];
    assert p < i ==> MayPrecede(x, v.list[i]);
    assert Chunk(x.addr, x.bytes, false) in v.chunks;
  }

  // ---------------------------------------------------------------------------
  // Live blocks.

  /** A live payload lies strictly between the guards, is aligned, holds the request and wastes
      at most 47 bytes with its header. */
  lemma BlockGuarantee(v: View, a: int)
    requires Inv(v) && a in v.live
    ensures var b := v.live[a];
            && v.chunks[0].End() <= a && a + b.size <= v.chunks[|v.chunks| - 1].addr
            && (a + ALLOC_NODE) % GRANULE == 0
            && 0 < b.request
            && a + ALLOC_NODE + b.request <= a + b.size <= a + b.request + 47
  {
    hide Coalesced, ListOk, Agree, ChunkAt;
    LiveChunk(v, a);
    var i := ChunkAt(v.chunks, a);
    TiledOrder(v.chunks, 0, i);
    TiledOrder(v.chunks, i, |v.chunks| - 1);
    TiledAligned(v.chunks, i);
  }

  /** Live blocks are pairwise disjoint, headers included. */
  lemma BlocksDisjoint(v: View, a: int, b: int)
    requires Inv(v) && a in v.live && b in v.live && a < b
    ensures a + v.live[a].size <= b
  {
    LiveChunk(v, a);
    LiveChunk(v, b);
    TiledDisjoint(v.chunks);
  }

  /** A successful allocation hands out a fresh block for exactly this request and leaves every
      other block as it was. */
  lemma MallocLive(v: View, request: nat)
    requires Inv(v) && Fits(request) && MallocResult(v, request) != 0
    ensures var a := MallocResult(v, request) - ALLOC_NODE;
            var w := AfterMalloc(v, request);
            && a !in v.live && a in w.live
            && w.live[a].request == request
            && w.live - {a} == v.live
  {
    RoundedShape(request);
    var x := Taken(v, request);
    ListedChunk(v.chunks, v.list, x);
    if x.addr in v.live {
      LiveChunk(v, x.addr);
    }
    assert x.addr !in v.live;
    var w := AfterMalloc(v, request);
    assert w.live - {x.addr} == v.live;
  }

  /** A request that cannot be served changes nothing. */
  lemma MallocFails(v: View, request: nat)
    requires Inv(v) && Fits(request) && MallocResult(v, request) == 0
    ensures AfterMalloc(v, request) == v
  {
    if CanServe(v, request) {
      RoundedShape(request);
      var x := Taken(v, request);
      ListedChunk(v.chunks, v.list, x);
      TiledOrder(v.chunks, 0, ChunkAt(v.chunks, x.addr));
    }
  }
}
