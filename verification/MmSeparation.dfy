/** Why headers, list links and payloads stay out of each other's way in one memory. */
module MmSeparation {
  import opened Basics
  import opened MmLayout
  import opened MmView
  import opened MmOps
  import opened MmMemory

  /** The region lies in memory, away from the sentinels, and is below 2^31 bytes. */
  ghost predicate Fenced(len: int, nodes: int, cs: seq<Chunk>) {
    && 0 < nodes && nodes + NNODES * FREE_NODE <= len
    && |cs| > 0
    && 0 < cs[0].addr && cs[|cs| - 1].End() <= len
    && cs[|cs| - 1].End() - cs[0].addr < ALLOC_BIT
    && (cs[|cs| - 1].End() <= nodes || nodes + NNODES * FREE_NODE <= cs[0].addr)
  }

  /** Every chunk node on the list is a free chunk of the tiling. */
  ghost predicate Backed(cs: seq<Chunk>, l: seq<Link>) {
    && (forall x :: x in l && x.FreeNode? ==> Chunk(x.addr, x.bytes, false) in cs)
    && (forall x :: x in l && x.Hook? ==> x.k < NNODES)
  }

  ghost predicate KeepsPayload(m: Memory, m': Memory, c: Chunk) {
    |m'| == |m| && forall a :: c.addr + ALLOC_NODE <= a < c.End() && 0 <= a < |m| ==> m'[a] == m[a]
  }

  /** A listed node and any chunk: the node's chunk is that chunk or lies beside it. */
  lemma NodeBeside(len: int, nodes: int, cs: seq<Chunk>, l: seq<Link>, x: Link, i: nat)
    requires Tiled(cs) && Fenced(len, nodes, cs) && Backed(cs, l) && x in l && i < |cs|
    ensures 0 < AddrOf(nodes, x) && AddrOf(nodes, x) + FREE_NODE <= len
    ensures var a := AddrOf(nodes, x);
            || (x == FreeNode(cs[i].addr, cs[i].size) && !cs[i].used)
            || a + FREE_NODE <= cs[i].addr || cs[i].End() <= a
  {
    TiledEnds(cs, i);
    if x.FreeNode? {
      var k := IndexOf(cs, Chunk(x.addr, x.bytes, false));
      TiledEnds(cs, k);
      if k < i { TiledOrder(cs, k, i); } else if i < k { TiledOrder(cs, i, k); }
    }
  }

  lemma TiledEnds(cs: seq<Chunk>, i: nat)
    requires Tiled(cs) && i < |cs|
    ensures cs[0].addr <= cs[i].addr && cs[i].End() <= cs[|cs| - 1].End()
    ensures cs[i].size >= ALLOC_NODE
    ensures !cs[i].used ==> 0 < i < |cs| - 1 && cs[i].size >= FREE_NODE
  {
    if 0 < i { TiledOrder(cs, 0, i); }
    if i < |cs| - 1 { TiledOrder(cs, i, |cs| - 1); }
  }

  /** A chunk that is not listed can be linked in. */
  lemma UnlistedClear(len: int, nodes: int, cs: seq<Chunk>, l: seq<Link>, i: nat)
    requires Tiled(cs) && Fenced(len, nodes, cs) && Backed(cs, l) && i < |cs|
    requires cs[i].size >= FREE_NODE && FreeNode(cs[i].addr, cs[i].size) !in l
    ensures Clear(nodes, l, cs[i].addr)
  {
    forall j | 0 <= j < |l| ensures Apart(AddrOf(nodes, l[j]), cs[i].addr) {
      NodeBeside(len, nodes, cs, l, l[j], i);
    }
  }

  /** Link words are not header words. */
  lemma HeaderNotLinked(len: int, nodes: int, cs: seq<Chunk>, l: seq<Link>, i: nat, a: int)
    requires Tiled(cs) && Fenced(len, nodes, cs) && Backed(cs, l) && i < |cs| && HeaderCell(cs[i], a)
    ensures !InLinks(nodes, l, a)
  {
    TiledEnds(cs, i);
    forall j | 0 <= j < |l| ensures !LinkCell(AddrOf(nodes, l[j]), a) {
      NodeBeside(len, nodes, cs, l, l[j], i);
    }
  }

  /** Link words are not part of a live payload. */
  lemma PayloadNotLinked(len: int, nodes: int, cs: seq<Chunk>, l: seq<Link>, i: nat, a: int)
    requires Tiled(cs) && Fenced(len, nodes, cs) && Backed(cs, l) && i < |cs| && cs[i].used
    requires cs[i].addr + ALLOC_NODE <= a < cs[i].End()
    ensures !InLinks(nodes, l, a)
  {
    forall j | 0 <= j < |l| ensures !LinkCell(AddrOf(nodes, l[j]), a) {
      NodeBeside(len, nodes, cs, l, l[j], i);
    }
  }

  /** A write to link words only keeps the headers and every live payload. */
  lemma LinkWrites(m: Memory, m': Memory, nodes: int, cs: seq<Chunk>, l: seq<Link>)
    requires Tiled(cs) && Fenced(|m|, nodes, cs) && Backed(cs, l) && Headers(m, cs) && |m'| == |m|
    requires forall a :: 0 <= a < |m| && !InLinks(nodes, l, a) ==> m'[a] == m[a]
    ensures Headers(m', cs)
    ensures forall c :: c in cs && c.used ==> KeepsPayload(m, m', c)
  {
    forall i, a | 0 <= i < |cs| && HeaderCell(cs[i], a) && 0 <= a < |m| ensures m'[a] == m[a] {
      HeaderNotLinked(|m|, nodes, cs, l, i, a);
    }
    HeadersFrame(m, m', cs);
    forall c | c in cs && c.used ensures KeepsPayload(m, m', c) {
      var i := IndexOf(cs, c);
      forall a | c.addr + ALLOC_NODE <= a < c.End() && 0 <= a < |m| ensures m'[a] == m[a] {
        PayloadNotLinked(|m|, nodes, cs, l, i, a);
      }
    }
  }

  /** A write between the start of chunk i and the end of chunk j's header keeps the list, if none
      of the chunks i..j is on it. */
  lemma SpanWritesKeepList(m: Memory, m': Memory, nodes: int, cs: seq<Chunk>, l: seq<Link>, i: nat, j: nat)
    requires Tiled(cs) && Fenced(|m|, nodes, cs) && Backed(cs, l) && Listed(m, nodes, l) && |m'| == |m|
    requires i <= j < |cs|
    requires forall k :: i <= k <= j ==> cs[k].used || FreeNode(cs[k].addr, cs[k].size) !in l
    requires forall a :: 0 <= a < |m| && !(cs[i].addr <= a < cs[j].addr + ALLOC_NODE) ==> m'[a] == m[a]
    ensures Listed(m', nodes, l)
  {
    forall n, a | 0 <= n < |l| && AddrOf(nodes, l[n]) <= a < AddrOf(nodes, l[n]) + FREE_NODE && a < |m| && a >= 0
      ensures m'[a] == m[a]
    {
      NodeOutsideSpan(|m|, nodes, cs, l, l[n], i, j);
    }
    ListedFrame(m, m', nodes, l);
  }

  lemma NodeOutsideSpan(len: int, nodes: int, cs: seq<Chunk>, l: seq<Link>, x: Link, i: nat, j: nat)
    requires Tiled(cs) && Fenced(len, nodes, cs) && Backed(cs, l) && x in l && i <= j < |cs|
    requires forall k :: i <= k <= j ==> cs[k].used || FreeNode(cs[k].addr, cs[k].size) !in l
    ensures AddrOf(nodes, x) + FREE_NODE <= cs[i].addr || cs[j].addr + ALLOC_NODE <= AddrOf(nodes, x)
  {
    TiledEnds(cs, i);
    TiledEnds(cs, j);
    if x.FreeNode? {
      var k := IndexOf(cs, Chunk(x.addr, x.bytes, false));
      TiledEnds(cs, k);
      if k < i { TiledOrder(cs, k, i); } else if j < k { TiledOrder(cs, j, k); }
    }
  }

  /** Such a write keeps the payload of every chunk that is not among i..j - 1. */
  lemma SpanWritesKeepPayload(m: Memory, m': Memory, cs: seq<Chunk>, i: nat, j: nat, c: Chunk)
    requires Tiled(cs) && |m'| == |m| && i <= j < |cs| && c in cs && c !in cs[i..j]
    requires forall a :: 0 <= a < |m| && !(cs[i].addr <= a < cs[j].addr + ALLOC_NODE) ==> m'[a] == m[a]
    ensures KeepsPayload(m, m', c)
  {
    var k := IndexOf(cs, c);
    if k < i { TiledOrder(cs, k, i); } else if j < k { TiledOrder(cs, j, k); }
  }
}
