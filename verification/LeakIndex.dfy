/** The buckets of the leak checker as doubly linked queues of block headers
    (solutions/d1_flashelf/mm/src/mm_leak.c, dq_addlast.c and dq_rem.c). */
module LeakIndex {
  import opened Basics
  import opened LeakModel

  const MDBG_SZ_HEAD: nat := 32

  /** struct m_dbg_hdr at its address */
  class Header {
    const addr: Addr
    var flink: Header?
    var blink: Header?
    var referenced: bool

    constructor (addr: Addr)
      ensures this.addr == addr
    {
      this.addr := addr;
    }
  }

  function Addrs(c: seq<Header>): (r: seq<Addr>)
    ensures |r| == |c| && forall k :: 0 <= k < |c| ==> r[k] == c[k].addr
  {
    seq(|c|, k requires 0 <= k < |c| => c[k].addr)
  }

  function At(c: seq<Header>, k: int): Header? {
    if 0 <= k < |c| then c[k] else null
  }

  ghost predicate NodeAt(c: seq<Header>, k: nat)
    requires k < |c|
    reads c`flink, c`blink
  {
    c[k].flink == At(c, k + 1) && c[k].blink == At(c, k - 1)
  }

  /** The links of node j once node k was skipped. */
  function SkipNext(c: seq<Header>, k: nat, j: nat): Header? {
    At(c, if j + 1 == k then k + 1 else j + 1)
  }

  function SkipPrev(c: seq<Header>, k: nat, j: nat): Header? {
    At(c, if j == k + 1 then k - 1 else j - 1)
  }

  lemma SkippedNode(c: seq<Header>, k: nat, j: nat)
    requires k < |c| && j < |c| - 1
    requires var m := if j < k then j else j + 1; c[m].flink == SkipNext(c, k, m) && c[m].blink == SkipPrev(c, k, m)
    ensures NodeAt(RemoveAt(c, k), j)
  {
    var r := RemoveAt(c, k);
    assert forall i :: 0 <= i < |r| ==> r[i] == c[if i < k then i else i + 1];
  }

  /** dq_queue_t, with the headers it links in order */
  class Queue {
    var head: Header?
    var tail: Header?
    ghost var line: seq<Header>

    ghost predicate Valid()
      reads `head, `tail, `line, line`flink, line`blink
    {
      && Distinct(line) && head == At(line, 0) && tail == At(line, |line| - 1)
      && forall k :: 0 <= k < |line| ==> NodeAt(line, k)
    }

    constructor ()
      ensures Valid() && line == []
    {
      head, tail, line := null, null, [];
    }

    /** dq_addlast */
    method AddLast(node: Header)
      requires Valid() && node !in line
      modifies this, line`flink, node`flink, node`blink
      ensures Valid() && line == old(line) + [node]
    {
      ghost var c := line;
      assert c != [] ==> c[|c| - 1] in c;
      node.flink := null;
      node.blink := tail;
      if head == null {
        head := node;
        tail := node;
      } else {
        tail.flink := node;
        tail := node;
      }
      line := c + [node];
      forall k | 0 <= k < |line| ensures NodeAt(line, k) {
        if k < |c| { assert old(NodeAt(c, k)) && c[k] in c; }
      }
    }

    /** dq_rem of the k-th node of the queue */
    method Rem(node: Header, ghost k: nat)
      requires Valid() && k < |line| && line[k] == node
      modifies this, line`flink, line`blink
      ensures Valid() && line == RemoveAt(old(line), k)
      ensures node.flink == null && node.blink == null
    {
      ghost var c := line;
      assert NodeAt(c, k);
      var prev, next := node.blink, node.flink;
      if prev == null {
        head := next;
      } else {
        prev.flink := next;
      }
      if next == null {
        tail := prev;
      } else {
        next.blink := prev;
      }
      node.flink := null;
      node.blink := null;
      line := RemoveAt(c, k);
      RemoveAtMembers(c, k);
      forall j | 0 <= j < |line| ensures NodeAt(line, j) {
        ghost var m := if j < k then j else j + 1;
        assert old(NodeAt(c, m));
        assert c[m].flink == SkipNext(c, k, m) && c[m].blink == SkipPrev(c, k, m);
        SkippedNode(c, k, j);
      }
    }
  }

  /** Where an address stands in its bucket. */
  lemma PlaceOf(c: seq<Header>, a: Addr) returns (k: nat)
    requires a in Addrs(c)
    ensures k < |c| && c[k].addr == a
  {
    k :| 0 <= k < |c| && Addrs(c)[k] == a;
  }

  lemma RemovedAddrs(c: seq<Header>, k: nat)
    requires k < |c| && Distinct(Addrs(c))
    ensures Addrs(RemoveAt(c, k)) == Without(Addrs(c), c[k].addr)
  {
    WithoutIs(Addrs(c), c[k].addr, k);
  }

  ghost function Lines(qs: seq<Queue>): (b: Buckets)
    reads qs`line
    ensures |b| == |qs| && forall h :: 0 <= h < |qs| ==> b[h] == Addrs(qs[h].line)
  {
    if qs == [] then [] else [Addrs(qs[0].line)] + Lines(qs[1..])
  }

  /** mm_status, for a heap that spans [start, end) */
  class Index {
    const list: seq<Queue>
    const start: Addr
    const end: Addr

    ghost function AsBuckets(): (b: Buckets)
      ensures |b| == |list| && forall h :: 0 <= h < |list| ==> b[h] == Addrs(list[h].line)
      reads list`line
    {
      Lines(list)
    }

    static ghost predicate QueueOk(q: Queue, h: nat, live: set<Addr>)
      reads q`head, q`tail, q`line, q.line`flink, q.line`blink
    {
      q.Valid() && BucketOk(Addrs(q.line), h, live)
    }

    ghost predicate Valid(live: set<Addr>)
      reads list`head, list`tail, list`line
      reads (set h, k | 0 <= h < |list| && 0 <= k < |list[h].line| :: list[h].line[k])`flink
      reads (set h, k | 0 <= h < |list| && 0 <= k < |list[h].line| :: list[h].line[k])`blink
    {
      && |list| == MAX_HASH
      && (forall g, h :: 0 <= g < h < MAX_HASH ==> list[g] != list[h])
      && (forall h :: 0 <= h < MAX_HASH ==> QueueOk(list[h], h, live))
      && 0 < start <= end && end + MDBG_SZ_HEAD < 0x1_0000_0000_0000_0000
      && forall a :: a in live ==> start <= a < end
    }

    constructor (queues: seq<Queue>, start: Addr, end: Addr)
      requires |queues| == MAX_HASH && forall h :: 0 <= h < MAX_HASH ==> queues[h].Valid() && queues[h].line == []
      requires forall g, h :: 0 <= g < h < MAX_HASH ==> queues[g] != queues[h]
      requires 0 < start <= end && end + MDBG_SZ_HEAD < 0x1_0000_0000_0000_0000
      ensures Valid({}) && AsBuckets() == Run([])
    {
      list, this.start, this.end := queues, start, end;
    }

    lemma IsIndexOk(live: set<Addr>)
      requires Valid(live)
      ensures IndexOk(AsBuckets(), live)
    {
      forall h | 0 <= h < MAX_HASH ensures BucketOk(AsBuckets()[h], h, live) {
        assert QueueOk(list[h], h, live);
      }
    }

    /** is_valid_address */
    predicate InHeap(p: Addr) {
      start <= p < end
    }

    static lemma HashOf(c: seq<Header>, h: nat, live: set<Addr>)
      requires BucketOk(Addrs(c), h, live)
      ensures forall n :: n in c ==> Hash(n.addr) == h && n.addr in live
    {
      forall n | n in c ensures n.addr in Addrs(c) {
        var k :| 0 <= k < |c| && c[k] == n;
        assert Addrs(c)[k] == n.addr;
      }
    }

    lemma QueuesApart(g: nat, h: nat, live: set<Addr>)
      requires Valid(live) && g < MAX_HASH && h < MAX_HASH && g != h
      ensures list[g] != list[h]
      ensures forall n :: n in list[g].line ==> n !in list[h].line
    {
      assert QueueOk(list[g], g, live) && QueueOk(list[h], h, live);
      HashOf(list[g].line, g, live);
      HashOf(list[h].line, h, live);
    }

    lemma BucketIs(h: nat, live: set<Addr>)
      requires Valid(live) && h < MAX_HASH
      ensures list[h].Valid() && BucketOk(Addrs(list[h].line), h, live)
    {
      assert QueueOk(list[h], h, live);
    }

    /** What a change of one bucket makes of all buckets. */
    static lemma BucketsAfter(b: Buckets, live: set<Addr>, op: Op)
      requires IndexOk(b, live) && Legal(live, op)
      ensures forall i :: 0 <= i < MAX_HASH ==> BucketOk(Step(b, op)[i], i, Live(live, op))
    {
      StepKeeps(b, live, op);
    }

    /** mm_leak_add_chunk, for a block that is not in the index */
    method AddChunk(chunk: Header, ghost live: set<Addr>)
      requires Valid(live) && chunk.addr !in live && InHeap(chunk.addr)
      modifies list[Hash(chunk.addr)], list[Hash(chunk.addr)].line`flink, chunk`flink, chunk`blink
      ensures Valid(Live(live, Add(chunk.addr)))
      ensures AsBuckets() == Step(old(AsBuckets()), Add(chunk.addr))
    {
      hide Hash, BucketOk, Queue.Valid, QueueOk;
      ghost var h, op, b := Hash(chunk.addr), Add(chunk.addr), AsBuckets();
      var q := list[Hash(chunk.addr)];
      IsIndexOk(live);
      BucketsAfter(b, live, op);
      forall g | 0 <= g < MAX_HASH
        ensures list[g].Valid() && forall m :: 0 <= m < |list[g].line| ==> list[g].line[m] != chunk
        ensures g != h ==> list[g] != q
        ensures forall m :: 0 <= m < |list[g].line| && g != h ==> list[g].line[m] !in q.line
      {
        if g != h { QueuesApart(g, h, live); }
        BucketIs(g, live);
        HashOf(list[g].line, g, live);
      }
      q.AddLast(chunk);
      assert Addrs(q.line) == b[h] + [chunk.addr];
      forall g | 0 <= g < MAX_HASH ensures QueueOk(list[g], g, Live(live, op)) {
        assert Addrs(list[g].line) == Step(b, op)[g];
        assert list[g].Valid();
        QueueIs(list[g], g, Live(live, op));
      }
    }

    static lemma QueueIs(q: Queue, h: nat, live: set<Addr>)
      requires q.Valid() && BucketOk(Addrs(q.line), h, live)
      ensures QueueOk(q, h, live)
    {
    }

    /** mm_leak_del_chunk, for a block that is in the index */
    method DelChunk(chunk: Header, ghost live: set<Addr>, ghost k: nat)
      requires Valid(live) && k < |list[Hash(chunk.addr)].line| && list[Hash(chunk.addr)].line[k] == chunk
      modifies list[Hash(chunk.addr)], list[Hash(chunk.addr)].line`flink, list[Hash(chunk.addr)].line`blink
      ensures Valid(Live(live, Del(chunk.addr)))
      ensures AsBuckets() == Step(old(AsBuckets()), Del(chunk.addr))
      ensures chunk.flink == null && chunk.blink == null
    {
      hide Hash, BucketOk, Queue.Valid, QueueOk, Distinct, Without;
      ghost var h, op, b := Hash(chunk.addr), Del(chunk.addr), AsBuckets();
      var q := list[Hash(chunk.addr)];
      IsIndexOk(live);
      BucketIs(h, live);
      InLive(q.line, h, live, k);
      BucketsAfter(b, live, op);
      RemovedAddrs(q.line, k);
      forall g | 0 <= g < MAX_HASH
        ensures list[g].Valid()
        ensures g != h ==> list[g] != q
        ensures forall m :: 0 <= m < |list[g].line| && g != h ==> list[g].line[m] !in q.line
      {
        if g != h { QueuesApart(g, h, live); }
        BucketIs(g, live);
      }
      q.Rem(chunk, k);
      forall g | 0 <= g < MAX_HASH ensures QueueOk(list[g], g, Live(live, op)) {
        assert Addrs(list[g].line) == Step(b, op)[g];
        assert list[g].Valid();
        QueueIs(list[g], g, Live(live, op));
      }
    }

    static lemma InLive(c: seq<Header>, h: nat, live: set<Addr>, k: nat)
      requires BucketOk(Addrs(c), h, live) && k < |c|
      ensures Distinct(Addrs(c)) && c[k].addr in live
    {
      assert c[k] in c;
      HashOf(c, h, live);
    }

    lemma Walk(h: nat, live: set<Addr>, k: nat)
      requires Valid(live) && h < MAX_HASH && k < |list[h].line|
      ensures list[h].line[k].flink == At(list[h].line, k + 1) && InHeap(list[h].line[k].addr)
    {
      BucketIs(h, live);
      assert NodeAt(list[h].line, k);
      InLive(list[h].line, h, live, k);
    }

    /** traverse_one_list with search_nearest: it stops at an address outside the heap, and no
        header of the index is outside. */
    method SearchBucket(h: nat, p: Addr, caddr: Addr, caddrL: Addr, ghost seen: set<Addr>, ghost live: set<Addr>)
      returns (below: Addr, above: Addr)
      requires Valid(live) && h < MAX_HASH
      requires NearestBelow(seen, p, caddr) && NearestAbove(seen, p, caddrL)
      ensures NearestBelow(seen + AddrSet(list[h].line), p, below) && NearestAbove(seen + AddrSet(list[h].line), p, above)
    {
      hide NearestBelow, NearestAbove, Valid;
      HeadOf(h, live);
      ghost var c := list[h].line;
      var cur := list[h].head;
      below, above := caddr, caddrL;
      ghost var k := 0;
      assert seen + AddrSet(c[..0]) == seen;
      while cur != null
        invariant 0 <= k <= |c| && cur == At(c, k)
        invariant NearestBelow(seen + AddrSet(c[..k]), p, below) && NearestAbove(seen + AddrSet(c[..k]), p, above)
        decreases |c| - k
      {
        Walk(h, live, k);
        if !InHeap(cur.addr) {
          break;
        }
        CloserNearest(seen + AddrSet(c[..k]), cur.addr, p, below, above);
        assert c[..k + 1] == c[..k] + [cur];
        assert seen + AddrSet(c[..k + 1]) == seen + AddrSet(c[..k]) + {cur.addr};
        if cur.addr < p && cur.addr > below {
          below := cur.addr;
        }
        if cur.addr > p && cur.addr < above {
          above := cur.addr;
        }
        cur := cur.flink;
        k := k + 1;
      }
      assert c[..k] == c;
    }

    lemma HeadOf(h: nat, live: set<Addr>)
      requires Valid(live) && h < MAX_HASH
      ensures |list| == MAX_HASH && list[h].head == At(list[h].line, 0)
    {
      BucketIs(h, live);
    }

    /** The headers of the first buckets are the live ones with the smallest hashes. */
    lemma SeenSo(h: nat, live: set<Addr>)
      requires Valid(live) && h < MAX_HASH
      ensures Hashed(live, h) + AddrSet(list[h].line) == Hashed(live, h + 1)
    {
      hide Hash;
      BucketIs(h, live);
      HashOf(list[h].line, h, live);
      var c := list[h].line;
      forall a | a in live && Hash(a) == h ensures a in AddrSet(c) {
        assert a in Addrs(c);
        var k := PlaceOf(c, a);
        assert c[k] in c;
      }
    }

    /** mm_leak_search_chunk: however the blocks hash, the nearest live headers on both sides of
        an address. */
    method SearchChunk(p: Addr, ghost live: set<Addr>) returns (caddr: Addr, caddrL: Addr)
      requires Valid(live)
      ensures NearestBelow(live, p, caddr) && NearestAbove(live, p, caddrL)
      ensures forall a :: a in live && a < p ==> a <= caddr && caddr in live && caddr < p
      ensures forall a :: a in live && a > p ==> a >= caddrL && caddrL in live && caddrL > p
      ensures caddr != NONE_BELOW <==> exists a :: a in live && a < p
      ensures caddrL != NONE_ABOVE <==> exists a :: a in live && a > p
    {
      hide NearestBelow, NearestAbove, Hash;
      caddr, caddrL := NONE_BELOW, NONE_ABOVE;
      NothingSeen(p);
      var i := 0;
      assert Hashed(live, 0) == {};
      while i < MAX_HASH
        invariant 0 <= i <= MAX_HASH
        invariant NearestBelow(Hashed(live, i), p, caddr)
        invariant NearestAbove(Hashed(live, i), p, caddrL)
      {
        SeenSo(i, live);
        caddr, caddrL := SearchBucket(i, p, caddr, caddrL, Hashed(live, i), live);
        i := i + 1;
      }
      assert Hashed(live, i) == live;
      NearestMeans(live, p, caddr, caddrL);
    }

    static lemma NothingSeen(p: Addr)
      ensures NearestBelow({}, p, NONE_BELOW) && NearestAbove({}, p, NONE_ABOVE)
    {
    }

    /** The walk of scan_area for one word: looking in the bucket of the header in front of it is
        enough to find the live block whose payload starts there, if there is one. */
    method Lookup(p: Addr, ghost live: set<Addr>) returns (found: Header?, ghost k: nat)
      requires Valid(live)
      ensures found == null <==> HeaderFor(p) !in live
      ensures found != null ==>
                && found.addr == HeaderFor(p) && found.addr + MDBG_SZ_HEAD == p
                && k < |list[Hash(found.addr)].line| && list[Hash(found.addr)].line[k] == found
    {
      hide Hash, Valid;
      ghost var h := Hash(HeaderFor(p));
      HeadOf(h, live);
      LiveMeans(p, live);
      ghost var c := list[h].line;
      var cur := list[Hash(HeaderFor(p))].head;
      found, k := null, 0;
      while cur != null
        invariant 0 <= k <= |c| && cur == At(c, k)
        invariant forall j :: 0 <= j < k ==> c[j].addr + MDBG_SZ_HEAD != p
        decreases |c| - k
      {
        Walk(h, live, k);
        if !InHeap(cur.addr) {
          break;
        }
        if p == cur.addr + MDBG_SZ_HEAD {
          return cur, k;
        }
        cur := cur.flink;
        k := k + 1;
      }
    }

    /** mark_as_referenced: the block with its payload at p is marked, and no other. */
    method MarkReferenced(p: Addr, ghost live: set<Addr>)
      requires Valid(live)
      modifies (set h, k | 0 <= h < |list| && 0 <= k < |list[h].line| :: list[h].line[k])`referenced
      ensures Valid(live) && AsBuckets() == old(AsBuckets())
      ensures forall h, k :: 0 <= h < MAX_HASH && 0 <= k < |list[h].line| ==>
                list[h].line[k].referenced == (old(list[h].line[k].referenced) || list[h].line[k].addr == HeaderFor(p))
    {
      hide Hash, Valid, QueueOk, HeaderFor;
      var found, k := Lookup(p, live);
      Bounds(live);
      forall h, m | 0 <= h < MAX_HASH && 0 <= m < |list[h].line|
        ensures list[h].line[m] == found <==> list[h].line[m].addr == HeaderFor(p)
      {
        SameAddress(p, found, k, h, m, live);
      }
      if found != null {
        found.referenced := true;
      }
    }

    lemma Bounds(live: set<Addr>)
      requires Valid(live)
      ensures |list| == MAX_HASH
    {
    }

    /** Exactly when the header in front of p is live, its bucket has a header whose payload is p. */
    lemma LiveMeans(p: Addr, live: set<Addr>)
      requires Valid(live)
      ensures var c := list[Hash(HeaderFor(p))].line;
              && (HeaderFor(p) in live ==> exists k :: 0 <= k < |c| && c[k].addr + MDBG_SZ_HEAD == p)
              && forall k :: 0 <= k < |c| && c[k].addr + MDBG_SZ_HEAD == p ==> c[k].addr == HeaderFor(p) && c[k].addr in live
    {
      hide Hash;
      var a := HeaderFor(p);
      var h := Hash(a);
      var c := list[h].line;
      BucketIs(h, live);
      if a in live {
        assert a in Addrs(c);
        var k := PlaceOf(c, a);
      }
      forall k | 0 <= k < |c| && c[k].addr + MDBG_SZ_HEAD == p ensures c[k].addr == a && c[k].addr in live {
        InLive(c, h, live, k);
      }
    }

    /** Headers at the same address are one header. */
    lemma SameAddress(p: Addr, found: Header?, k: nat, h: nat, m: nat, live: set<Addr>)
      requires Valid(live) && h < MAX_HASH && m < |list[h].line|
      requires found == null <==> HeaderFor(p) !in live
      requires found != null ==>
                && found.addr == HeaderFor(p)
                && k < |list[Hash(found.addr)].line| && list[Hash(found.addr)].line[k] == found
      ensures list[h].line[m] == found <==> list[h].line[m].addr == HeaderFor(p)
    {
      hide Hash, HeaderFor;
      BucketIs(h, live);
      assert list[h].line[m] in list[h].line;
      HashOf(list[h].line, h, live);
      assert Distinct(Addrs(list[h].line));
    }
  }

  /** The header in front of a payload address; the subtraction wraps. */
  function HeaderFor(p: Addr): Addr {
    (p - MDBG_SZ_HEAD) % 0x1_0000_0000_0000_0000
  }

  function AddrSet(c: seq<Header>): set<Addr> {
    set n | n in c :: n.addr
  }
}
