/** The allocator itself: mm_initialize, mm_malloc, mm_free and mm_mallinfo over one memory,
    proved to do exactly what the abstract heap says and to leave live payloads alone. */
module MmHeap {
  import opened Basics
  import opened MmLayout
  import opened MmView
  import opened MmOps
  import opened MmRuns
  import opened MmAccounts
  import opened MmMemory
  import opened MmRewrites
  import opened MmSeparation
  import opened MmSteps
  import opened MmClients

  datatype MallInfo = MallInfo(arena: int, ordblks: int, mxordblk: int, uordblks: int, fordblks: int)

  class Heap {
    const mem: array<nat>
    const nodes: int   // address of mm_nodelist[0]
    const warnAt: int  // the peak a warning is due at: the space the linker left, less 2048 bytes

    var heapsize: int
    var heapstart: int
    var heapend: int
    var maxUsed: int  // g_max_used_size
    var warnings: seq<int>

    ghost var view: View

    ghost predicate Valid()
      reads this, mem
    {
      && Mirrors(mem[..], nodes, view)
      && heapstart == view.chunks[0].addr
      && heapend == view.chunks[|view.chunks| - 1].addr
      && heapsize == heapend + ALLOC_NODE - heapstart
    }

    constructor (memory: array<nat>, nodelist: int, warnAt: int)
      ensures mem == memory && nodes == nodelist && maxUsed == 0 && this.warnAt == warnAt && warnings == []
    {
      mem, nodes, this.warnAt := memory, nodelist, warnAt;
      heapsize, heapstart, heapend, maxUsed, warnings := 0, 0, 0, 0, [];
      view := View([], [], map[]);
    }

    /** mm_addfreechunk */
    method AddFreeChunk(node: int, ghost l: seq<Link>)
      requires ListOk(l) && Listed(mem[..], nodes, l)
      requires 0 < node && node + FREE_NODE <= mem.Length && mem[node] >= FREE_NODE
      requires Clear(nodes, l, node)
      modifies mem
      ensures Listed(mem[..], nodes, Insert(l, node, old(mem[node])))
      ensures forall a :: 0 <= a < mem.Length && !InLinks(nodes, l, a) && !LinkCell(node, a) ==> mem[a] == old(mem[a])
    {
      hide Listed, ListOk, Clear, InLinks, Linked, Insert, Below;
      ghost var m := mem[..];
      var size := mem[node];
      var prev, next;
      ghost var p;
      prev, next, p := FindPlace(size, l);
      LinkInPlace(m, nodes, l, p, node, size);
      mem[prev + FLINK] := node;
      mem[node + BLINK] := prev;
      mem[node + FLINK] := next;
      if next != 0 {
        mem[next + BLINK] := node;
      }
      assert mem[..] == Linked(m, node, prev, next) by { LinkedIs(m, node, prev, next); }
    }

    /** The scan of mm_addfreechunk from the sentinel of the size's bucket. */
    method FindPlace(size: nat, ghost l: seq<Link>) returns (prev: int, next: int, ghost p: nat)
      requires ListOk(l) && Listed(mem[..], nodes, l) && size >= FREE_NODE
      ensures 0 < p <= |l| && (forall i :: 0 <= i < p ==> Below(l[i], size)) && (p < |l| ==> !Below(l[p], size))
      ensures prev == AddrOf(nodes, l[p - 1]) && next == if p < |l| then AddrOf(nodes, l[p]) else 0
    {
      hide Listed, ListOk, InBucket, Below, IndexOf;
      ghost var m := mem[..];
      var ndx := Size2Ndx(size);
      SkippedAllTooSmall(l, size, ndx);
      ghost var h := IndexOf(l, Hook(ndx));
      p := h + 1;
      prev := nodes + ndx * FREE_NODE;
      NodeAt(m, nodes, l, h);
      if p < |l| { NodeAt(m, nodes, l, p); }
      next := mem[prev + FLINK];
      while next != 0 && mem[next] != 0 && mem[next] < size
        invariant h < p <= |l|
        invariant prev == AddrOf(nodes, l[p - 1])
        invariant next == if p < |l| then AddrOf(nodes, l[p]) else 0
        invariant p < |l| ==> NodeOk(m, nodes, l, p)
        invariant forall i :: 0 <= i < p ==> Below(l[i], size)
        decreases |l| - p
      {
        ScannedBelow(l, p, size);
        if p + 1 < |l| { NodeAt(m, nodes, l, p + 1); }
        prev := next;
        next := mem[next + FLINK];
        p := p + 1;
      }
      if p < |l| { StopsRight(l, size, ndx, p); }
    }

    /** A node of non-zero size that is too small stays in front. */
    static lemma ScannedBelow(l: seq<Link>, p: nat, size: nat)
      requires p < |l| && l[p].Size() != 0 && l[p].Size() < size
      ensures Below(l[p], size)
    {
    }

    /** The place a scan stops at is the node's place in the whole list. */
    static lemma LinkInPlace(m: Memory, nodes: int, l: seq<Link>, p: nat, node: int, size: nat)
      requires Listed(m, nodes, l) && 0 < p <= |l|
      requires 0 < node && node + FREE_NODE <= |m| && m[node] == size && Clear(nodes, l, node)
      requires forall i :: 0 <= i < p ==> Below(l[i], size)
      requires p < |l| ==> !Below(l[p], size)
      ensures var prev, next := AddrOf(nodes, l[p - 1]), if p < |l| then AddrOf(nodes, l[p]) else 0;
              && CanLink(m, node, prev, next)
              && Listed(Linked(m, node, prev, next), nodes, Insert(l, node, size))
              && forall a :: 0 <= a < |m| && !InLinks(nodes, l, a) && !LinkCell(node, a) ==>
                   Linked(m, node, prev, next)[a] == m[a]
    {
      assert p == Place(l, size);
      hide Place;
      LinkOk(m, nodes, l, p, FreeNode(node, size));
    }

    /** A scan that started at the size's own bucket stops where a scan of the whole list would:
        a sentinel it meets belongs to a higher bucket. */
    static lemma StopsRight(l: seq<Link>, size: nat, ndx: nat, p: nat)
      requires ListOk(l) && InBucket(size, ndx) && FREE_NODE <= size
      requires IndexOf(l, Hook(ndx)) < p < |l| && (l[p].Size() == 0 || size <= l[p].Size())
      ensures !Below(l[p], size)
    {
      if l[p].Hook? {
        HigherBucket(size, ndx, l[p].k) by {
          assert MayPrecede(l[IndexOf(l, Hook(ndx))], l[p]);
        }
      }
    }

    static lemma HigherBucket(size: nat, ndx: nat, k: nat)
      requires InBucket(size, ndx) && BucketLow(ndx) < BucketLow(k) && k < NNODES
      ensures size < BucketLow(k)
    {
      assert ndx < k by {
        if k < ndx { Pow2Grows(k, ndx); }
      }
      if ndx + 1 < k { Pow2Grows(ndx + 1, k); }
    }

    /** The search loop of mm_malloc: it starts behind the sentinel of the request's bucket. */
    method Search(need: nat, ghost l: seq<Link>) returns (node: int)
      requires ListOk(l) && Listed(mem[..], nodes, l) && nodes + NNODES * FREE_NODE <= mem.Length
      ensures var j := if need == 0 then 1 else FirstFit(l, need);
              node == if j < |l| then AddrOf(nodes, l[j]) else 0
    {
      hide ListOk, Listed, InBucket, FirstFit, Below, IndexOf;
      ghost var m := mem[..];
      var ndx;
      if need >= MAX_CHUNK {
        ndx := NNODES - 1;
        LastBucketHolds(need);
      } else {
        ndx := Size2Ndx(need);
      }
      SkippedAllTooSmall(l, need, ndx);
      ghost var h := IndexOf(l, Hook(ndx));
      ghost var j := h + 1;
      NodeAt(m, nodes, l, h);
      if j < |l| { NodeAt(m, nodes, l, j); }
      node := mem[nodes + ndx * FREE_NODE + FLINK];
      while node != 0 && mem[node] < need
        invariant h < j <= |l|
        invariant node == if j < |l| then AddrOf(nodes, l[j]) else 0
        invariant j < |l| ==> NodeOk(m, nodes, l, j)
        invariant need > 0 ==> forall i :: 0 <= i < j ==> l[i].Size() < need
        invariant need == 0 ==> j == 1
        decreases |l| - j
      {
        if j + 1 < |l| { NodeAt(m, nodes, l, j + 1); }
        node := mem[node + FLINK];
        j := j + 1;
      }
      if need > 0 { FirstFitIs(l, need, j); }
    }

    /** The header writes of mm_malloc that cut a chunk in two. */
    method CutChunk(node: int, need: nat, remaining: nat)
      requires CanCut(mem[..], node, need) && remaining == mem[node] - need
      modifies mem
      ensures mem[..] == Cut(old(mem[..]), node, need)
    {
      var beyond := node + mem[node];
      var remainder := node + need;
      mem[remainder] := remaining;
      mem[remainder + PRECEDING] := need;
      mem[node] := need;
      mem[beyond + PRECEDING] := CopyAllocBit(remaining, mem[beyond + PRECEDING]);
    }

    /** Keep `need` bytes of an unlisted free chunk and put the rest on the list. */
    method CutOff(node: int, need: nat, remaining: nat, ghost cs: seq<Chunk>, ghost l: seq<Link>, ghost i: nat)
      requires Represents(mem[..], nodes, cs, l)
      requires 0 < i < |cs| - 1 && cs[i].addr == node && !cs[i].used && cs[i + 1].used && OffList(cs, l, i)
      requires FREE_NODE <= need && need % GRANULE == 0 && remaining == cs[i].size - need >= FREE_NODE
      requires FreeNode(node + need, remaining) !in l
      modifies mem
      ensures Represents(mem[..], nodes, CutTiling(cs, i, need), Insert(l, node + need, remaining))
      ensures KeepsPayloads(old(mem[..]), mem[..], cs)
    {
      hide Represents, KeepsPayloads, Listed, ListOk, Clear, Cut, InLinks, CutTiling, Insert;
      ghost var m1 := mem[..];
      HeaderAt(m1, nodes, cs, l, i);
      CutStep(m1, nodes, cs, l, i, need);
      CutChunk(node, need, remaining);
      ghost var m2 := mem[..];
      CutTilingAt(cs, i, need);
      LinkReadyAt(m2, nodes, CutTiling(cs, i, need), l, i + 1);
      AddFreeChunk(node + need, l);
      LinkStep(m2, mem[..], nodes, CutTiling(cs, i, need), l, i + 1);
      KeepsCut(m1, nodes, l, m1, m2, mem[..], cs, i, need);
    }

    /** mm_malloc from the chunk found to the flag set on what is handed out. */
    method Take(node: int, need: nat, ghost cs: seq<Chunk>, ghost l: seq<Link>, ghost i: nat)
      requires Pick(mem[..], nodes, cs, l, i, need) && cs[i].addr == node
      modifies mem
      ensures FreeNode(node, cs[i].size) in l
      ensures Represents(mem[..], nodes, TakenTiling(cs, i, need), ListAfterTake(l, cs[i], need))
      ensures KeepsPayloads(old(mem[..]), mem[..], cs)
    {
      hide Represents, Agree, KeepsPayloads, Insert, BeforeFlag, TakenTiling, CutTiling, Remove;
      ghost var m0 := mem[..];
      PickUnlink(m0, nodes, cs, l, i, need);
      ghost var l1 := Remove(l, FreeNode(node, cs[i].size));

      var prev, next := mem[node + BLINK], mem[node + FLINK];
      mem[prev + FLINK] := next;
      if next != 0 {
        mem[next + BLINK] := prev;
      }
      ghost var m1 := mem[..];
      assert m1 == Unlinked(m0, node);

      KeepsRefl(m1, cs);
      var remaining := mem[node] - need;
      if remaining >= FREE_NODE {
        CutOff(node, need, remaining, cs, l1, i);
      }
      ghost var m2 := mem[..];
      assert Represents(m2, nodes, BeforeFlag(cs, i, need), ListAfterTake(l, cs[i], need)) by {
        BeforeFlagIs(cs, i, need);
      }
      KeepsTrans(m0, m1, m2, cs, cs);
      PickFlag(m0, m2, nodes, cs, l, i, need);
      mem[node + PRECEDING] := SetAllocBit(mem[node + PRECEDING]);
    }

    /** mm_malloc for a non-zero size, up to the update of the peak. */
    method Serve(size: nat) returns (ret: int)
      requires Valid() && size >= 1 && Fits(size)
      modifies mem, `view
      ensures Valid()
      ensures view == AfterMalloc(old(view), size) && ret == MallocResult(old(view), size)
      ensures KeepsLive(old(mem[..]), mem[..], old(view.live))
    {
      hide Inv, Mirrors, Represents, TakenTiling, ListAfterTake, ListOk, Listed, AfterMalloc, MallocResult, CanServe,
        KeepsLive, KeepsPayloads, Pick, FirstFit, Taken, ChunkAt, AlignUp;
      ghost var m, v := mem[..], view;
      SearchMeans(m, nodes, v, size);
      var need := AlignUp((size + ALLOC_NODE) % WORD_MODULUS);
      var node := Search(need, v.list);
      ret := 0;
      KeepsLiveRefl(m, v.live);
      if node != 0 {
        MallocPick(m, nodes, v, size);
        Take(node, need, v.chunks, v.list, ChunkAt(v.chunks, node));
        MallocDone(m, mem[..], nodes, v, size);
        view := AfterMalloc(v, size);
        ret := node + ALLOC_NODE;
      }
    }

    /** mm_malloc */
    method Malloc(size: nat) returns (ret: int)
      requires Valid() && Fits(size)
      modifies this, mem
      ensures Valid()
      ensures view == AfterMalloc(old(view), size) && ret == MallocResult(old(view), size)
      ensures KeepsLive(old(mem[..]), mem[..], old(view.live))
      ensures maxUsed == if size == 0 then old(maxUsed) else Max(old(maxUsed), UsedBytes(view.chunks))
      ensures warnings == old(warnings) + if maxUsed > old(maxUsed) && maxUsed >= warnAt then [maxUsed] else []
      ensures Called(old(mem[..]), nodes, old(view), Allocate(size), mem[..], view)
    {
      if size < 1 {
        KeepsLiveRefl(mem[..], view.live);
        return 0;
      }
      hide Mirrors, AfterMalloc, MallocResult, KeepsLive, UsedBytes;
      ret := Serve(size);
      var peak := UpdatePeak();
    }

    /** mm_mallinfo */
    method Mallinfo() returns (info: MallInfo)
      requires Valid()
      ensures info.arena == heapsize
      ensures info.ordblks == FreeCount(view.chunks) == |view.list| - NNODES
      ensures forall c :: c in view.chunks && !c.used ==> c.size <= info.mxordblk
      ensures info.mxordblk == 0 || exists c :: c in view.chunks && !c.used && c.size == info.mxordblk
      ensures info.uordblks == UsedBytes(view.chunks) && info.fordblks == FreeBytes(view.chunks)
      ensures info.uordblks + info.fordblks == heapsize
    {
      hide Mirrors, Represents, UsedBytes, FreeBytes, FreeCount, IsMaxFree, HasAllocBit;
      ghost var cs, m, l := view.chunks, mem[..], view.list;
      MirrorsTotals(m, nodes, view);
      assert cs[..0] == [];
      var mxordblk, ordblks, uordblks, fordblks := 0, 0, 0, 0;
      var node := heapstart;
      ghost var k := 0;
      NoTotals();
      while node < heapend
        invariant k < |cs| && node == cs[k].addr
        invariant uordblks == UsedBytes(cs[..k]) && fordblks == FreeBytes(cs[..k]) && ordblks == FreeCount(cs[..k])
        invariant 0 <= mxordblk && IsMaxFree(cs[..k], mxordblk)
        decreases |cs| - k
      {
        WalkStep(m, nodes, cs, l, k);
        TotalsStep(cs, k);
        if HasAllocBit(mem[node + PRECEDING]) {
          uordblks := uordblks + mem[node];
        } else {
          ordblks := ordblks + 1;
          fordblks := fordblks + mem[node];
          if mem[node] > mxordblk {
            mxordblk := mem[node];
          }
        }
        node := node + mem[node];
        k := k + 1;
      }
      if k < |cs| - 1 { WalkStep(m, nodes, cs, l, k); }
      TotalsStep(cs, k);
      assert cs[..k + 1] == cs;
      MaxFreeMeans(cs, mxordblk);
      uordblks := uordblks + ALLOC_NODE;
      info := MallInfo(heapsize, ordblks, mxordblk, uordblks, fordblks);
    }

    /** mm_max_usedsize_update: every new peak from warnAt on is reported. */
    method UpdatePeak() returns (peak: int)
      requires Valid()
      modifies this`maxUsed, this`warnings
      ensures Valid()
      ensures peak == maxUsed == Max(old(maxUsed), UsedBytes(view.chunks))
      ensures warnings == old(warnings) + if maxUsed > old(maxUsed) && maxUsed >= warnAt then [maxUsed] else []
    {
      var info := Mallinfo();
      if info.uordblks > maxUsed {
        maxUsed := info.uordblks;
        if maxUsed >= warnAt {
          warnings := warnings + [maxUsed];
        }
      }
      peak := maxUsed;
    }

    /** One merge of mm_free: take `listed`, which is `front` or `back`, off the list and let
        `front` absorb `back`. */
    method Merge(listed: int, front: int, back: int, ghost cs: seq<Chunk>, ghost l: seq<Link>, ghost i: nat, ghost k: nat)
      requires CanMerge(mem[..], nodes, cs, l, i, k)
      requires listed == cs[k].addr && front == cs[i].addr && back == cs[i + 1].addr
      modifies mem
      ensures Represents(mem[..], nodes, JoinTiling(cs, i), Remove(l, FreeNode(cs[k].addr, cs[k].size)))
      ensures KeepsPayloads(old(mem[..]), mem[..], cs)
    {
      hide CanMerge, Represents, KeepsPayloads, JoinTiling, Remove, HeaderOk;
      ghost var m := mem[..];
      MergeStep(m, nodes, cs, l, i, k);
      var prev, next := mem[listed + BLINK], mem[listed + FLINK];
      mem[prev + FLINK] := next;
      if next != 0 {
        mem[next + BLINK] := prev;
      }
      ghost var m1 := mem[..];
      assert m1 == Unlinked(m, listed);
      var beyond := back + mem[back];
      mem[front] := mem[front] + mem[back];
      mem[beyond + PRECEDING] := CopyAllocBit(mem[front], mem[beyond + PRECEDING]);
      assert mem[..] == Joined(m1, front, back);
    }

    /** mm_free from the block's header on. */
    method Release(block: int, ghost cs: seq<Chunk>, ghost l: seq<Link>, ghost i: nat)
      requires Live(mem[..], nodes, cs, l, i) && block == cs[i].addr
      modifies mem
      ensures Mergeable(cs, i)
      ensures Represents(mem[..], nodes, FullyMerged(cs, i), ListAfterMerge(cs, l, i))
      ensures KeepsPayloads(old(mem[..]), mem[..], Released(cs, i))
    {
      hide Live, Represents, KeepsPayloads, CanMerge, RightDone, Released, AfterRight, FullyMerged, JoinTiling,
        ListAfterMerge, ListBeforeInsert, Unlisted, Remove, Insert, Clear, Listed, ListOk, InLinks;
      ghost var m := mem[..];
      LiveSteps(m, nodes, cs, l, i);
      var node := block;
      mem[node + PRECEDING] := ClearAllocBit(mem[node + PRECEDING]);
      ghost var m1 := mem[..];

      var next := node + mem[node];
      if !HasAllocBit(mem[next + PRECEDING]) {
        var beyond := next + mem[next];
        Merge(next, node, next, Released(cs, i), l, i, i + 1);
        RightMerged(m, m1, mem[..], nodes, cs, l, i);
        next := beyond;
      }

      ghost var m2 := mem[..];
      RightSteps(m2, nodes, cs, l, i);
      var prev := node - mem[node + PRECEDING];
      if !HasAllocBit(mem[prev + PRECEDING]) {
        Merge(prev, prev, node, AfterRight(cs, i), Unlisted(l, cs[i + 1]), i - 1, i - 1);
        node := prev;
      }

      ghost var m3 := mem[..];
      KeepsRefl(m2, AfterRight(cs, i));
      KeepsMerged(m, m2, m3, cs, i);
      BothMerged(m2, m3, nodes, cs, l, i, m);
      MergedAt(m, nodes, cs, l, i);
      LinkReadyAt(m3, nodes, FullyMerged(cs, i), ListBeforeInsert(cs, l, i), RunLo(cs, i));
      AddFreeChunk(node, ListBeforeInsert(cs, l, i));
      LinkStep(m3, mem[..], nodes, FullyMerged(cs, i), ListBeforeInsert(cs, l, i), RunLo(cs, i));
      KeepsMerged(m, m3, mem[..], cs, i);
    }

    /** mm_free */
    method Free(p: int)
      requires Valid() && Freeable(view, p)
      modifies mem, `view
      ensures Valid()
      ensures view == AfterFree(old(view), p)
      ensures KeepsLive(old(mem[..]), mem[..], view.live)
      ensures Called(old(mem[..]), nodes, old(view), GiveBack(p), mem[..], view)
    {
      hide Inv, Live, Represents, FullyMerged, Released, ListAfterMerge, KeepsPayloads, KeepsLive, AfterFree, ChunkAt;
      if p == 0 {
        KeepsLiveRefl(mem[..], view.live);
        FreeNull(view);
        return;
      }
      ghost var m, v := mem[..], view;
      FreeLive(m, nodes, v, p);
      Release(p - ALLOC_NODE, v.chunks, v.list, ChunkAt(v.chunks, p - ALLOC_NODE));
      FreeDone(m, mem[..], nodes, v, p);
      view := AfterFree(v, p);
    }

    /** A client of the heap stores a word in a block it holds. */
    method StoreWord(block: int, at: int, word: nat)
      requires Valid() && InPayload(view.live, block, at) && at % 8 == 0 && word < WORD_MODULUS
      modifies mem
      ensures Valid() && Called(old(mem[..]), nodes, old(view), Store(block, at, word), mem[..], view)
    {
      hide Mirrors, InPayload;
      OneStore(mem[..], nodes, view, block, at, word);
      mem[at] := word;
    }

    /** The loop of mm_initialize that clears the sentinels and chains them up. */
    method ChainHooks()
      requires 0 < nodes && nodes + NNODES * FREE_NODE <= mem.Length
      modifies mem
      ensures Listed(mem[..], nodes, Hooks(NNODES))
    {
      forall a | nodes <= a < nodes + NNODES * FREE_NODE {
        mem[a] := 0;
      }
      hide Chained, Listed;
      ChainStart(mem[..], nodes);
      var i := 1;
      while i < NNODES
        invariant 1 <= i <= NNODES
        invariant Chained(mem[..], nodes, i)
      {
        ghost var m: Memory, a: nat, b: nat := mem[..], nodes + i * FREE_NODE, nodes + (i - 1) * FREE_NODE;
        mem[nodes + (i - 1) * FREE_NODE + FLINK] := nodes + i * FREE_NODE;
        mem[nodes + i * FREE_NODE + BLINK] := nodes + (i - 1) * FREE_NODE;
        assert mem[..] == m[b + FLINK := a][a + BLINK := b];
        ChainAll(m, mem[..], nodes, i, i + 1);
        i := i + 1;
      }
      ChainDone(mem[..], nodes);
    }

    /** The header writes of mm_addregion: two guards and one free chunk between them. */
    method WriteGuards(base: int, limit: int)
      requires RegionOk(base, limit - base) && limit <= mem.Length
      requires limit <= nodes || nodes + NNODES * FREE_NODE <= base
      requires 0 < nodes && nodes + NNODES * FREE_NODE <= mem.Length
      requires Listed(mem[..], nodes, Hooks(NNODES))
      modifies mem
      ensures Represents(mem[..], nodes, InitChunks(base, limit - base), Hooks(NNODES))
    {
      hide Represents, Listed, InitChunks, Hooks;
      ghost var m := mem[..];
      mem[base] := ALLOC_NODE;
      mem[base + PRECEDING] := ALLOC_BIT;
      var node := base + ALLOC_NODE;
      mem[node] := limit - base - 2 * ALLOC_NODE;
      mem[node + PRECEDING] := ALLOC_NODE;
      mem[limit - ALLOC_NODE] := ALLOC_NODE;
      mem[limit - ALLOC_NODE + PRECEDING] := SetAllocBit(mem[node]);
      HooksFrame(m, mem[..], nodes);
      FirstRegion(mem[..], nodes, base, limit - base);
    }

    /** mm_addregion for the first region. */
    method AddRegion(start: nat, size: nat)
      requires start + size <= mem.Length < WORD_MODULUS - GRANULE
      requires var base, limit := AlignUp(start), AlignDown(start + size);
               && RegionOk(base, limit - base)
               && (limit <= nodes || nodes + NNODES * FREE_NODE <= base)
      requires 0 < nodes && nodes + NNODES * FREE_NODE <= mem.Length
      requires Listed(mem[..], nodes, Hooks(NNODES)) && heapsize == 0
      modifies mem, `view, `heapsize, `heapstart, `heapend
      ensures Valid()
      ensures view == InitView(AlignUp(start), AlignDown(start + size) - AlignUp(start))
      ensures heapstart % 16 == 0 && start <= heapstart < start + 16
      ensures var end := heapend + ALLOC_NODE; end % 16 == 0 && end <= start + size < end + 16
      ensures heapsize == heapend + ALLOC_NODE - heapstart && view.live == map[]
      ensures view.chunks == [Chunk(heapstart, 16, true), Chunk(heapstart + 16, heapsize - 32, false), Chunk(heapend, 16, true)]
    {
      hide Mirrors, Represents, Listed, ListOk, Clear, InLinks, Insert, AlignUp, AlignDown, Hooks;
      AlignMeans(start);
      AlignMeans(start + size);
      var base, limit := AlignUp(start), AlignDown(start + size);
      var bytes := limit - base;
      heapsize := heapsize + bytes;
      heapstart := base;
      heapend := limit - ALLOC_NODE;
      WriteGuards(base, limit);
      ghost var m, cs := mem[..], InitChunks(base, bytes);
      LinkReadyAt(m, nodes, cs, Hooks(NNODES), 1);
      AddFreeChunk(base + ALLOC_NODE, Hooks(NNODES));
      LinkStep(m, mem[..], nodes, cs, Hooks(NNODES), 1);
      FirstDone(mem[..], nodes, base, bytes);
      view := InitView(base, bytes);
    }

    /** mm_initialize */
    method Initialize(start: nat, size: nat)
      requires start + size <= mem.Length < WORD_MODULUS - GRANULE
      requires var base, limit := AlignUp(start), AlignDown(start + size);
               && RegionOk(base, limit - base)
               && (limit <= nodes || nodes + NNODES * FREE_NODE <= base)
      requires 0 < nodes && nodes + NNODES * FREE_NODE <= mem.Length
      modifies mem, `view, `heapsize, `heapstart, `heapend
      ensures Valid()
      ensures view == InitView(AlignUp(start), AlignDown(start + size) - AlignUp(start))
      ensures heapstart % 16 == 0 && start <= heapstart < start + 16
      ensures var end := heapend + ALLOC_NODE; end % 16 == 0 && end <= start + size < end + 16
      ensures heapsize == heapend + ALLOC_NODE - heapstart && view.live == map[]
      ensures view.chunks == [Chunk(heapstart, 16, true), Chunk(heapstart + 16, heapsize - 32, false), Chunk(heapend, 16, true)]
    {
      heapsize := 0;
      ChainHooks();
      AddRegion(start, size);
    }
  }
}
