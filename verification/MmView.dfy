/** The abstract heap: the physical tiling, the free list and the live blocks, with the
    invariant that ties them together and what an allocation and a release do to it. */
module MmView {
  import opened Basics
  import opened MmLayout

  /** One physical chunk: header address, size in bytes, allocated flag. */
  datatype Chunk = Chunk(addr: int, size: int, used: bool) {
    function End(): int { addr + size }
  }

  /** One node of the free list: a bucket sentinel of mm_nodelist or a free chunk. */
  datatype Link = Hook(k: nat) | FreeNode(addr: int, bytes: int) {
    /** The size field a scan of the list reads; sentinels hold zero. */
    function Size(): int {
      match this
      case Hook(_) => 0
      case FreeNode(_, s) => s
    }
  }

  /** What the caller asked for and the size of the chunk that serves it. */
  datatype Block = Block(request: int, size: int)

  /** live maps the header address of every block handed out and not yet released. */
  datatype View = View(chunks: seq<Chunk>, list: seq<Link>, live: map<int, Block>)

  // ---------------------------------------------------------------------------
  // Sequences.

  function Splice<T>(s: seq<T>, i: nat, j: nat, mid: seq<T>): seq<T>
    requires i <= j <= |s|
  {
    s[..i] + mid + s[j..]
  }

  /** Where x first stands in s. */
  function IndexOf<T(==)>(s: seq<T>, x: T): (i: nat)
    requires x in s
    ensures i < |s| && s[i] == x && x !in s[..i]
  {
    if s[0] == x then 0 else
      var i := 1 + IndexOf(s[1..], x);
      assert s[..i] == [s[0]] + s[1..][..i - 1];
      i
  }

  function InsertAt<T>(s: seq<T>, i: nat, x: T): (r: seq<T>)
    requires i <= |s|
    ensures |r| == |s| + 1
  {
    s[..i] + [x] + s[i..]
  }

  // ---------------------------------------------------------------------------
  // The tiling.

  /** Chunks follow each other without gaps; guards at both ends; every chunk between them can
      hold a free node and lies on the granule. */
  ghost predicate Tiled(cs: seq<Chunk>) {
    && |cs| >= 3
    && cs[0].size == ALLOC_NODE && cs[0].used
    && cs[|cs| - 1].size == ALLOC_NODE && cs[|cs| - 1].used
    && cs[0].addr % GRANULE == 0
    && Inner(cs)
    && (forall i, j :: 0 <= i && j == i + 1 && j < |cs| ==> cs[i].End() == cs[j].addr)
  }

  ghost predicate Inner(cs: seq<Chunk>) {
    forall i :: 0 < i < |cs| - 1 ==> cs[i].size >= FREE_NODE && cs[i].size % GRANULE == 0
  }

  /** No two neighbours are free. */
  ghost predicate Coalesced(cs: seq<Chunk>) {
    forall i, j :: 0 <= i && j == i + 1 && j < |cs| ==> cs[i].used || cs[j].used
  }

  lemma {:induction false} TiledOrder(cs: seq<Chunk>, i: nat, j: nat)
    requires Tiled(cs) && i < j < |cs|
    ensures cs[i].End() <= cs[j].addr
    decreases j
  {
    if i + 1 < j {
      TiledOrder(cs, i, j - 1);
    }
  }

  /** Chunks are pairwise disjoint and stand in address order. */
  lemma TiledDisjoint(cs: seq<Chunk>)
    requires Tiled(cs)
    ensures forall i, j :: 0 <= i < j < |cs| ==> cs[i].End() <= cs[j].addr
    ensures forall i :: 0 <= i < |cs| ==> cs[0].addr <= cs[i].addr && cs[i].End() <= cs[|cs| - 1].End()
  {
    forall i, j | 0 <= i < j < |cs| ensures cs[i].End() <= cs[j].addr {
      TiledOrder(cs, i, j);
    }
  }

  lemma {:induction false} TiledAligned(cs: seq<Chunk>, i: nat)
    requires Tiled(cs) && i < |cs|
    ensures cs[i].addr % GRANULE == 0
    decreases i
  {
    if i > 0 {
      TiledAligned(cs, i - 1);
      assert cs[i - 1].End() == cs[i].addr;
    }
  }

  /** Replacing an inner stretch of chunks by chunks that cover the same bytes. */
  ghost predicate SameSpan(cs: seq<Chunk>, i: nat, j: nat, mid: seq<Chunk>)
    requires 0 < i < j < |cs|
  {
    && |mid| > 0
    && mid[0].addr == cs[i].addr && mid[|mid| - 1].End() == cs[j].addr
    && (forall m :: 0 <= m < |mid| ==> mid[m].size >= FREE_NODE && mid[m].size % GRANULE == 0)
    && (forall m, n :: 0 <= m && n == m + 1 && n < |mid| ==> mid[m].End() == mid[n].addr)
  }

  lemma SpliceTiled(cs: seq<Chunk>, i: nat, j: nat, mid: seq<Chunk>)
    requires Tiled(cs) && 0 < i < j < |cs| && SameSpan(cs, i, j, mid)
    ensures Tiled(Splice(cs, i, j, mid))
  {
    var r := Splice(cs, i, j, mid);
    var shift := |mid| - (j - i);
    assert forall m :: 0 <= m < i ==> r[m] == cs[m];
    assert forall m :: i <= m < i + |mid| ==> r[m] == mid[m - i];
    assert forall m :: i + |mid| <= m < |r| ==> r[m] == cs[m - shift];
    forall m, n | 0 <= m && n == m + 1 && n < |r| ensures r[m].End() == r[n].addr {
      if n < i {
      } else if n == i {
        assert r[m] == cs[i - 1] && r[n] == mid[0];
      } else if n < i + |mid| {
        assert r[m] == mid[m - i] && r[n] == mid[n - i];
      } else if n == i + |mid| {
        assert r[m] == mid[|mid| - 1] && r[n] == cs[j];
      } else {
        assert r[m] == cs[m - shift] && r[n] == cs[n - shift];
      }
    }
  }

  lemma SpliceCoalesced(cs: seq<Chunk>, i: nat, j: nat, mid: seq<Chunk>)
    requires Coalesced(cs) && 0 < i < j < |cs| && |mid| > 0
    requires Coalesced([cs[i - 1]] + mid + [cs[j]])
    ensures Coalesced(Splice(cs, i, j, mid))
  {
    var r := Splice(cs, i, j, mid);
    var w := [cs[i - 1]] + mid + [cs[j]];
    var shift := |mid| - (j - i);
    forall m, n | 0 <= m && n == m + 1 && n < |r| ensures r[m].used || r[n].used {
      if n < i {
        assert r[m] == cs[m] && r[n] == cs[n];
      } else if n <= i + |mid| {
        assert r[m] == w[m - i + 1] && r[n] == w[n - i + 1];
      } else {
        assert r[m] == cs[m - shift] && r[n] == cs[n - shift];
      }
    }
  }

  // ---------------------------------------------------------------------------
  // The free list.

  /** The position of a node in size order: a sentinel stands at the lower bound of its bucket. */
  function Rank(x: Link): int {
    match x
    case Hook(k) => BucketLow(k)
    case FreeNode(_, s) => s
  }

  /** x may stand before y; a sentinel stands before every chunk of its bucket. */
  ghost predicate MayPrecede(x: Link, y: Link) {
    if y.Hook? then Rank(x) < Rank(y) else Rank(x) <= Rank(y)
  }

  ghost predicate Sorted(l: seq<Link>) {
    forall i, j :: 0 <= i < j < |l| ==> MayPrecede(l[i], l[j])
  }

  ghost predicate HooksPresent(l: seq<Link>) {
    && (forall k :: 0 <= k < NNODES ==> Hook(k) in l)
    && (forall x :: x in l && x.Hook? ==> x.k < NNODES)
  }

  /** A sorted, duplicate-free list with every sentinel on it, the first one in front. */
  ghost predicate ListOk(l: seq<Link>) {
    && Sorted(l) && Distinct(l) && HooksPresent(l)
    && |l| > 0 && l[0] == Hook(0)
    && (forall x :: x in l && x.FreeNode? ==> x.bytes >= FREE_NODE)
  }

  /** x stays in front of a chunk of `size` bytes that is being added. */
  predicate Below(x: Link, size: int) {
    match x
    case Hook(k) => BucketLow(k) <= size
    case FreeNode(_, s) => s < size
  }

  /** Where a chunk of `size` bytes goes, scanning the whole list from its head. */
  function Place(l: seq<Link>, size: int): (p: nat)
    ensures p <= |l|
    ensures forall i :: 0 <= i < p ==> Below(l[i], size)
    ensures p < |l| ==> !Below(l[p], size)
  {
    if l == [] || !Below(l[0], size) then 0 else 1 + Place(l[1..], size)
  }

  function Insert(l: seq<Link>, addr: int, size: int): seq<Link> {
    InsertAt(l, Place(l, size), FreeNode(addr, size))
  }

  function Remove(l: seq<Link>, x: Link): seq<Link>
    requires x in l
  {
    RemoveAt(l, IndexOf(l, x))
  }

  /** The first node a request of `need` bytes fits in, scanning the whole list. */
  function FirstFit(l: seq<Link>, need: int): (p: nat)
    ensures p <= |l|
    ensures forall i :: 0 <= i < p ==> l[i].Size() < need
    ensures p < |l| ==> l[p].Size() >= need
  {
    if l == [] || l[0].Size() >= need then 0 else 1 + FirstFit(l[1..], need)
  }

  lemma FirstFitIs(l: seq<Link>, need: int, p: nat)
    requires p <= |l| && (forall i :: 0 <= i < p ==> l[i].Size() < need) && (p < |l| ==> l[p].Size() >= need)
    ensures FirstFit(l, need) == p
  {
  }

  lemma InsertAtMembers<T>(s: seq<T>, i: nat, x: T)
    requires Distinct(s) && i <= |s| && x !in s
    ensures forall y :: y in InsertAt(s, i, x) <==> y in s || y == x
    ensures Distinct(InsertAt(s, i, x))
  {
    var r := InsertAt(s, i, x);
    assert forall m :: 0 <= m < |r| ==> r[m] == if m < i then s[m] else if m == i then x else s[m - 1];
    forall y | y in s || y == x ensures y in r {
      if y == x {
        assert r[i] == x;
      } else {
        var m := IndexOf(s, y);
        assert r[if m < i then m else m + 1] == y;
      }
    }
  }

  /** A free chunk's node can leave the list. */
  lemma RemoveSorted(l: seq<Link>, i: nat)
    requires Sorted(l) && i < |l|
    ensures Sorted(RemoveAt(l, i))
  {
    hide MayPrecede;
    var r := RemoveAt(l, i);
    assert forall m :: 0 <= m < |r| ==> r[m] == l[if m < i then m else m + 1];
  }

  lemma RemoveOk(l: seq<Link>, x: Link)
    requires ListOk(l) && x in l && x.FreeNode?
    ensures ListOk(Remove(l, x))
    ensures forall y :: y in Remove(l, x) <==> y in l && y != x
  {
    hide Sorted, Distinct;
    RemoveAtMembers(l, IndexOf(l, x));
    RemoveSorted(l, IndexOf(l, x));
  }

  lemma AtInsert<T>(s: seq<T>, i: nat, x: T, m: nat)
    requires i <= |s| && m <= |s|
    ensures InsertAt(s, i, x)[m] == if m < i then s[m] else if m == i then x else s[m - 1]
  {
  }

  /** Where a chunk goes it may stand behind what is below it and before the rest. */
  lemma BelowMeans(x: Link, addr: int, size: int)
    ensures Below(x, size) ==> MayPrecede(x, FreeNode(addr, size))
    ensures !Below(x, size) ==> MayPrecede(FreeNode(addr, size), x)
  {
  }

  lemma MayPrecedeTrans(x: Link, y: Link, z: Link)
    requires MayPrecede(x, y) && MayPrecede(y, z)
    ensures MayPrecede(x, z)
  {
  }

  lemma InsertSorted(l: seq<Link>, p: nat, addr: int, size: int)
    requires Sorted(l) && p <= |l|
    requires (forall i :: 0 <= i < p ==> Below(l[i], size)) && (p < |l| ==> !Below(l[p], size))
    ensures Sorted(InsertAt(l, p, FreeNode(addr, size)))
  {
    hide MayPrecede, Below, InsertAt;
    var e := FreeNode(addr, size);
    var r := InsertAt(l, p, e);
    forall i, j | 0 <= i < j < |r| ensures MayPrecede(r[i], r[j]) {
      AtInsert(l, p, e, i);
      AtInsert(l, p, e, j);
      if j == p {
        BelowMeans(l[i], addr, size);
      } else if i == p {
        BelowMeans(l[p], addr, size);
        if j - 1 > p { MayPrecedeTrans(e, l[p], l[j - 1]); }
      }
    }
  }

  /** The first sentinel stays in front. */
  lemma PlaceBehindFirst(l: seq<Link>, size: int)
    requires l != [] && l[0] == Hook(0) && size >= FREE_NODE
    ensures Place(l, size) > 0
  {
    assert BucketLow(0) == GRANULE;
  }

  /** A new chunk's node enters the list at its place in size order. */
  lemma InsertOk(l: seq<Link>, addr: int, size: int)
    requires ListOk(l) && size >= FREE_NODE && FreeNode(addr, size) !in l
    ensures ListOk(Insert(l, addr, size))
    ensures forall y :: y in Insert(l, addr, size) <==> y in l || y == FreeNode(addr, size)
  {
    hide Place, Below, Sorted, Distinct;
    var p := Place(l, size);
    InsertAtMembers(l, p, FreeNode(addr, size));
    InsertSorted(l, p, addr, size);
    PlaceBehindFirst(l, size);
  }
}
