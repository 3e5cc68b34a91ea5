/** Requests whose rounding wraps at 2^64: mm_malloc does not check for them
    (solutions/d1_flashelf/mm/src/mm_malloc.c). What it does with each of them, and exactly when the
    heap survives that. */
module MmWrap {
  import opened Basics
  import opened MmLayout
  import opened MmView
  import opened MmOps
  import opened MmRuns

  /** Where the search of mm_malloc stops, for any rounded size: Heap.Search. */
  function Found(l: seq<Link>, need: nat): nat {
    if need == 0 then 1 else FirstFit(l, need)
  }

  /** The chunk taken and its rest, whatever size was rounded to. */
  ghost function TakeChunk(v: View, x: Link, need: nat, request: nat): View
    requires Inv(v) && x in v.list && x.FreeNode?
  {
    ListedChunk(v.chunks, v.list, x);
    var i := ChunkAt(v.chunks, x.addr);
    View(Splice(v.chunks, i, i + 1, Pieces(v.chunks[i], need)),
         ListAfterTake(v.list, v.chunks[i], need),
         v.live[x.addr := Block(request, Pieces(v.chunks[i], need)[0].size)])
  }

  /** mm_malloc on every request of at least 1. A sentinel that is found is unlinked and handed out
      like a chunk of size zero; `nodes` is where the sentinels stand. */
  ghost function AfterAny(v: View, nodes: int, request: nat): View
    requires Inv(v)
  {
    var need := Rounded(request);
    var p := Found(v.list, need);
    if p >= |v.list| then v
    else match v.list[p]
         case FreeNode(_, _) => TakeChunk(v, v.list[p], need, request)
         case Hook(k) => v.(list := RemoveAt(v.list, p), live := v.live[nodes + k * FREE_NODE := Block(request, 0)])
  }

  /** Where rounding does not wrap this is the allocation all other results are about. */
  lemma AnyIsMalloc(v: View, nodes: int, request: nat)
    requires Inv(v) && 1 <= request && Fits(request)
    ensures AfterAny(v, nodes, request) == AfterMalloc(v, request)
  {
    RoundedShape(request);
  }

  /** The heap apart from what clients were promised. */
  ghost predicate Sound(v: View) {
    Tiled(v.chunks) && Coalesced(v.chunks) && ListOk(v.list) && Agree(v.chunks, v.list)
  }

  /** No chunk is below 32 bytes, so the first bucket is empty and its sentinel's follower is the
      next sentinel. */
  lemma SecondIsHook(l: seq<Link>)
    requires ListOk(l)
    ensures |l| > 1 && l[1] == Hook(1)
  {
    HooksInOrder(l, 0, 1);
    var p := IndexOf(l, Hook(1));
    assert BucketLow(1) == FREE_NODE && BucketLow(0) == GRANULE;
    if p > 1 {
      assert MayPrecede(l[1], l[p]);
    }
  }

  /** Rounded to zero: the second sentinel is handed out and lost. */
  lemma ZeroTakesSentinel(v: View, nodes: int, request: nat)
    requires Inv(v) && Rounded(request) == 0
    ensures Hook(1) !in AfterAny(v, nodes, request).list
  {
    SecondIsHook(v.list);
  }

  /** Rounded to one granule: the first free chunk, and so a smallest one. */
  lemma GranuleTakesFirst(v: View, request: nat)
    requires Inv(v) && Rounded(request) == GRANULE
    ensures var p := Found(v.list, GRANULE);
            && (p < |v.list| ==> v.list[p].FreeNode? && v.list[p].bytes >= FREE_NODE)
            && (p == |v.list| <==> forall c :: c in v.chunks ==> c.used)
            && p == FirstFit(v.list, FREE_NODE)
  {
    var p := FirstFit(v.list, GRANULE);
    FirstFitIs(v.list, FREE_NODE, p);
  }

  /** A chunk that is cut to one granule is too small for the tiling. */
  lemma CutTooSmall(v: View, x: Link, request: nat)
    requires Inv(v) && x in v.list && x.FreeNode? && x.bytes >= GRANULE + FREE_NODE
    ensures !Tiled(TakeChunk(v, x, GRANULE, request).chunks)
  {
    ListedChunk(v.chunks, v.list, x);
    var i := ChunkAt(v.chunks, x.addr);
    var r := TakeChunk(v, x, GRANULE, request).chunks;
    assert r[i].size == GRANULE && 0 < i < |r| - 1;
  }

  /** A smallest chunk is taken whole, as for a request that fits in it. */
  lemma TakenWhole(v: View, x: Link, request: nat)
    requires Inv(v) && x in v.list && x.FreeNode? && x.bytes < GRANULE + FREE_NODE
    requires Found(v.list, FREE_NODE) < |v.list| && v.list[Found(v.list, FREE_NODE)] == x
    ensures TakeChunk(v, x, GRANULE, request).chunks == AfterMalloc(v, 1).chunks
    ensures TakeChunk(v, x, GRANULE, request).list == AfterMalloc(v, 1).list
  {
    hide Inv;
    assert Rounded(1) == FREE_NODE;
    ChunkListed(v, x);
    AnyIsMalloc(v, 0, 1);
    assert AfterAny(v, 0, 1) == TakeChunk(v, x, FREE_NODE, 1);
  }

  lemma ChunkListed(v: View, x: Link)
    requires Inv(v) && x in v.list && x.FreeNode?
    ensures var i := ChunkAt(v.chunks, x.addr);
            i < |v.chunks| && v.chunks[i].size == x.bytes && FreeNode(v.chunks[i].addr, v.chunks[i].size) in v.list
  {
    ListedChunk(v.chunks, v.list, x);
  }

  /** Whatever a wrapped request is given, its block is not as large as what was asked for. */
  lemma NotHonoured(v: View, nodes: int, request: nat)
    requires Inv(v) && 1 <= request < WORD_MODULUS && !Fits(request)
    ensures Found(v.list, Rounded(request)) < |v.list| ==> !LiveOk(AfterAny(v, nodes, request).chunks, AfterAny(v, nodes, request).live)
  {
    RoundedHoldsRequest(request);
    var need, w := Rounded(request), AfterAny(v, nodes, request);
    var p := Found(v.list, need);
    if p < |v.list| {
      hide Inv, Fits, Rounded;
      var a := if v.list[p].Hook? then nodes + v.list[p].k * FREE_NODE else v.list[p].addr;
      if v.list[p].FreeNode? { ChunkListed(v, v.list[p]); }
      assert a in w.live && w.live[a].request == request && w.live[a].size < GRANULE + FREE_NODE;
      assert !BlockOk(w.live[a]);
    }
  }

  /** Tiling and list survive a request exactly when its rounding does not wrap, or wraps to one
      granule while no chunk, or none of more than 32 bytes, is the first free one. */
  lemma SoundExactly(v: View, nodes: int, request: nat)
    requires Inv(v) && 1 <= request < WORD_MODULUS
    ensures var p := Found(v.list, GRANULE);
            Sound(AfterAny(v, nodes, request)) <==>
            || Fits(request)
            || (Rounded(request) == GRANULE && (p < |v.list| ==> v.list[p].Size() < GRANULE + FREE_NODE))
  {
    hide Tiled, Coalesced, ListOk, Agree;
    RoundedHoldsRequest(request);
    if Fits(request) {
      AnyIsMalloc(v, nodes, request);
      MallocKeepsInv(v, request);
    } else if Rounded(request) == 0 {
      ZeroTakesSentinel(v, nodes, request);
      LostHook(AfterAny(v, nodes, request).list);
    } else {
      GranuleTakesFirst(v, request);
      var p := Found(v.list, GRANULE);
      if p < |v.list| {
        if v.list[p].bytes >= GRANULE + FREE_NODE {
          CutTooSmall(v, v.list[p], request);
        } else {
          TakenWhole(v, v.list[p], request);
          MallocKeepsInv(v, 1);
        }
      }
    }
  }

  lemma LostHook(l: seq<Link>)
    requires Hook(1) !in l
    ensures !ListOk(l)
  {
  }

  /** The whole invariant, with what clients were promised, survives exactly when rounding does not
      wrap or the request is refused because nothing is free. */
  lemma KeepsInvExactly(v: View, nodes: int, request: nat)
    requires Inv(v) && 1 <= request < WORD_MODULUS
    ensures Inv(AfterAny(v, nodes, request)) <==>
            Fits(request) || (Rounded(request) == GRANULE && forall c :: c in v.chunks ==> c.used)
  {
    if Fits(request) {
      AnyIsMalloc(v, nodes, request);
      MallocKeepsInv(v, request);
    } else {
      RoundedHoldsRequest(request);
      NotHonoured(v, nodes, request);
      if Rounded(request) == 0 { SecondIsHook(v.list); } else { GranuleTakesFirst(v, request); }
    }
  }

  /** The search finds nothing, and NULL is returned, exactly when every free chunk is smaller than
      the rounded size; rounded to zero it always finds something. */
  lemma NullExactly(v: View, request: nat)
    requires Inv(v) && 1 <= request < WORD_MODULUS
    ensures Found(v.list, Rounded(request)) >= |v.list| <==>
            Rounded(request) != 0 && forall c :: c in v.chunks && !c.used ==> c.size < Rounded(request)
  {
    RoundedHoldsRequest(request);
    if Rounded(request) == 0 {
      SecondIsHook(v.list);
    } else if Fits(request) {
      MallocComplete(v, request);
      ServedExactly(v, request);
    } else {
      GranuleTakesFirst(v, request);
      FreeAtLeast(v);
    }
  }

  lemma ServedExactly(v: View, request: nat)
    requires Inv(v) && 1 <= request && Fits(request)
    ensures MallocResult(v, request) == 0 <==> Found(v.list, Rounded(request)) >= |v.list|
  {
    RoundedShape(request);
    if CanServe(v, request) { ListedChunk(v.chunks, v.list, Taken(v, request)); TiledOrder(v.chunks, 0, ChunkAt(v.chunks, Taken(v, request).addr)); }
  }

  lemma FreeAtLeast(v: View)
    requires Inv(v)
    ensures forall c :: c in v.chunks && !c.used ==> c.size >= FREE_NODE
  {
    forall c | c in v.chunks && !c.used ensures c.size >= FREE_NODE {
      var i := IndexOf(v.chunks, c);
    }
  }
}
