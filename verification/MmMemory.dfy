/** The heap's words in memory: what headers and list links look like, and what the writes of
    the allocator do to them. */
module MmMemory {
  import opened Basics
  import opened MmLayout
  import opened MmView
  import opened MmOps

  /** The cell at index a is the 64-bit word at byte address a; only multiples of eight carry
      words. Address 0 is NULL. */
  type Memory = seq<nat>

  // Offsets in struct mm_freenode_s. A block's payload starts where a free node has its links.
  const PRECEDING: int := 8
  const FLINK: int := 16
  const BLINK: int := 24

  /** Sentinels stand in mm_nodelist, which starts at address `nodes`. */
  function AddrOf(nodes: int, x: Link): int {
    match x
    case Hook(k) => nodes + k * FREE_NODE
    case FreeNode(a, _) => a
  }

  // ---------------------------------------------------------------------------
  // Headers.

  ghost predicate HeaderFits(len: int, cs: seq<Chunk>, i: nat)
    requires i < |cs|
  {
    0 < cs[i].addr && 0 < cs[i].size < ALLOC_BIT && cs[i].addr + ALLOC_NODE <= len
  }

  /** Chunk i's header holds its size, the size of the chunk before it and the flag. */
  ghost predicate HeaderOk(m: Memory, cs: seq<Chunk>, i: nat)
    requires i < |cs|
  {
    && HeaderFits(|m|, cs, i)
    && (i > 0 ==> cs[i - 1].size >= 0)
    && m[cs[i].addr] == cs[i].size
    && m[cs[i].addr + PRECEDING] == Tag(if i == 0 then 0 else cs[i - 1].size, cs[i].used)
  }

  ghost predicate Headers(m: Memory, cs: seq<Chunk>) {
    forall i :: 0 <= i < |cs| ==> HeaderOk(m, cs, i)
  }

  predicate HeaderCell(c: Chunk, a: int) {
    c.addr <= a < c.addr + ALLOC_NODE
  }

  // ---------------------------------------------------------------------------
  // Links.

  ghost predicate NodeFits(len: int, nodes: int, l: seq<Link>, i: nat)
    requires i < |l|
  {
    0 < AddrOf(nodes, l[i]) && AddrOf(nodes, l[i]) + FREE_NODE <= len
  }

  predicate Apart(a: int, b: int) {
    a + FREE_NODE <= b || b + FREE_NODE <= a
  }

  ghost predicate PairApart(nodes: int, l: seq<Link>, i: nat, j: nat)
    requires i < |l| && j < |l|
  {
    Apart(AddrOf(nodes, l[i]), AddrOf(nodes, l[j]))
  }

  /** Nodes lie in memory and do not overlap. */
  ghost predicate Spaced(len: int, nodes: int, l: seq<Link>) {
    && (forall i :: 0 <= i < |l| ==> NodeFits(len, nodes, l, i))
    && (forall i, j :: 0 <= i < |l| && 0 <= j < |l| && i != j ==> PairApart(nodes, l, i, j))
  }

  /** Node i holds its size and is linked both ways to its neighbours; NULL at the ends. */
  ghost predicate NodeOk(m: Memory, nodes: int, l: seq<Link>, i: nat)
    requires i < |l|
  {
    && NodeFits(|m|, nodes, l, i)
    && m[AddrOf(nodes, l[i])] == l[i].Size()
    && m[AddrOf(nodes, l[i]) + FLINK] == (if i + 1 < |l| then AddrOf(nodes, l[i + 1]) else 0)
    && m[AddrOf(nodes, l[i]) + BLINK] == (if i > 0 then AddrOf(nodes, l[i - 1]) else 0)
  }

  ghost predicate Listed(m: Memory, nodes: int, l: seq<Link>) {
    && Spaced(|m|, nodes, l)
    && forall i :: 0 <= i < |l| ==> NodeOk(m, nodes, l, i)
  }

  /** The cell at a belongs to the links of the node at n. */
  predicate LinkCell(n: int, a: int) {
    n + FLINK <= a < n + FREE_NODE
  }

  ghost predicate InLinks(nodes: int, l: seq<Link>, a: int) {
    exists i :: 0 <= i < |l| && LinkCell(AddrOf(nodes, l[i]), a)
  }

  // ---------------------------------------------------------------------------
  // Taking a node off the list.

  ghost predicate CanUnlink(m: Memory, node: int) {
    && 0 < node && node + FREE_NODE <= |m|
    && m[node + BLINK] + FREE_NODE <= |m|
    && m[node + FLINK] + FREE_NODE <= |m|
  }

  ghost function Unlinked(m: Memory, node: int): (m': Memory)
    requires CanUnlink(m, node)
    ensures |m'| == |m|
  {
    var prev, next := m[node + BLINK], m[node + FLINK];
    var m1 := m[prev + FLINK := next];
    if next != 0 then m1[next + BLINK := prev] else m1
  }

  lemma UnlinkReady(m: Memory, nodes: int, l: seq<Link>, j: nat)
    requires Listed(m, nodes, l) && 0 < j < |l|
    ensures CanUnlink(m, AddrOf(nodes, l[j]))
    ensures m[AddrOf(nodes, l[j]) + BLINK] == AddrOf(nodes, l[j - 1])
    ensures m[AddrOf(nodes, l[j]) + FLINK] == if j + 1 < |l| then AddrOf(nodes, l[j + 1]) else 0
  {
    assert NodeOk(m, nodes, l, j) && NodeOk(m, nodes, l, j - 1);
    if j + 1 < |l| { assert NodeOk(m, nodes, l, j + 1); }
  }

  lemma UnlinkOk(m: Memory, nodes: int, l: seq<Link>, j: nat)
    requires Listed(m, nodes, l) && 0 < j < |l|
    ensures CanUnlink(m, AddrOf(nodes, l[j]))
    ensures Listed(Unlinked(m, AddrOf(nodes, l[j])), nodes, RemoveAt(l, j))
  {
    UnlinkReady(m, nodes, l, j);
    var r := RemoveAt(l, j);
    var m' := Unlinked(m, AddrOf(nodes, l[j]));
    RemoveAtSpaced(|m|, nodes, l, j);
    forall i | 0 <= i < |r| ensures NodeOk(m', nodes, r, i) {
      UnlinkNode(m, nodes, l, j, i);
    }
  }

  lemma RemoveAtSpaced(len: int, nodes: int, l: seq<Link>, j: nat)
    requires Spaced(len, nodes, l) && j < |l|
    ensures Spaced(len, nodes, RemoveAt(l, j))
  {
    var r := RemoveAt(l, j);
    forall i | 0 <= i < |r| ensures NodeFits(len, nodes, r, i) {
      assert NodeFits(len, nodes, l, if i < j then i else i + 1);
    }
    forall i, k | 0 <= i < |r| && 0 <= k < |r| && i != k ensures PairApart(nodes, r, i, k) {
      assert PairApart(nodes, l, if i < j then i else i + 1, if k < j then k else k + 1);
    }
  }

  lemma UnlinkNode(m: Memory, nodes: int, l: seq<Link>, j: nat, i: nat)
    requires Listed(m, nodes, l) && 0 < j < |l| && i < |l| - 1
    requires CanUnlink(m, AddrOf(nodes, l[j]))
    ensures NodeOk(Unlinked(m, AddrOf(nodes, l[j])), nodes, RemoveAt(l, j), i)
  {
    UnlinkReady(m, nodes, l, j);
    var k := if i < j then i else i + 1;
    assert NodeOk(m, nodes, l, k);
    assert NodeFits(|m|, nodes, l, j - 1);
    assert k != j - 1 ==> PairApart(nodes, l, k, j - 1);
    if j + 1 < |l| {
      assert NodeFits(|m|, nodes, l, j + 1);
      assert PairApart(nodes, l, j - 1, j + 1);
      assert k != j + 1 ==> PairApart(nodes, l, k, j + 1);
    }
  }

  lemma UnlinkFrame(m: Memory, nodes: int, l: seq<Link>, j: nat, a: int)
    requires Listed(m, nodes, l) && 0 < j < |l| && CanUnlink(m, AddrOf(nodes, l[j]))
    requires 0 <= a < |m| && !InLinks(nodes, l, a)
    ensures Unlinked(m, AddrOf(nodes, l[j]))[a] == m[a]
  {
    UnlinkReady(m, nodes, l, j);
    assert !LinkCell(AddrOf(nodes, l[j - 1]), a);
    assert j + 1 < |l| ==> !LinkCell(AddrOf(nodes, l[j + 1]), a);
  }

  // ---------------------------------------------------------------------------
  // Putting a node on the list between prev and next.

  ghost predicate CanLink(m: Memory, node: int, prev: int, next: int) {
    && 0 < node && node + FREE_NODE <= |m|
    && 0 < prev && prev + FREE_NODE <= |m|
    && 0 <= next && next + FREE_NODE <= |m|
  }

  ghost function Linked(m: Memory, node: int, prev: int, next: int): (m': Memory)
    requires CanLink(m, node, prev, next)
    ensures |m'| == |m|
  {
    var m1 := m[prev + FLINK := node][node + BLINK := prev][node + FLINK := next];
    if next != 0 then m1[next + BLINK := node] else m1
  }

  lemma LinkedIs(m: Memory, node: int, prev: int, next: int)
    requires CanLink(m, node, prev, next)
    ensures Linked(m, node, prev, next) ==
            (var m1: Memory := m[prev + FLINK := node][node + BLINK := prev][node + FLINK := next];
             if next != 0 then m1[next + BLINK := node] else m1)
  {
  }

  ghost predicate Clear(nodes: int, l: seq<Link>, node: int) {
    forall i :: 0 <= i < |l| ==> Apart(AddrOf(nodes, l[i]), node)
  }

  lemma LinkReady(m: Memory, nodes: int, l: seq<Link>, p: nat, x: int)
    requires Listed(m, nodes, l) && 0 < p <= |l| && 0 < x && x + FREE_NODE <= |m| && Clear(nodes, l, x)
    ensures 0 < AddrOf(nodes, l[p - 1]) && AddrOf(nodes, l[p - 1]) + FREE_NODE <= |m|
    ensures Apart(AddrOf(nodes, l[p - 1]), x)
    ensures p < |l| ==> 0 < AddrOf(nodes, l[p]) && AddrOf(nodes, l[p]) + FREE_NODE <= |m|
    ensures p < |l| ==> Apart(AddrOf(nodes, l[p]), x) && PairApart(nodes, l, p - 1, p)
  {
    assert NodeFits(|m|, nodes, l, p - 1);
    assert p < |l| ==> NodeFits(|m|, nodes, l, p) && PairApart(nodes, l, p - 1, p);
  }

  lemma NodeAt(m: Memory, nodes: int, l: seq<Link>, i: nat)
    requires Listed(m, nodes, l) && i < |l|
    ensures NodeOk(m, nodes, l, i)
  {
  }

  lemma ListedAt(m: Memory, nodes: int, l: seq<Link>, i: nat, j: nat, x: int)
    requires Listed(m, nodes, l) && i < |l| && j < |l| && Clear(nodes, l, x)
    ensures NodeOk(m, nodes, l, i) && Apart(AddrOf(nodes, l[i]), x)
    ensures i != j ==> PairApart(nodes, l, i, j)
  {
  }

  /** The words of an old node once `node` stands between prev and next. */
  lemma LinkedWords(m: Memory, node: int, prev: int, next: int, k: int)
    requires CanLink(m, node, prev, next) && 0 <= k && k + FREE_NODE <= |m|
    requires Apart(prev, node) && (next != 0 ==> Apart(next, node) && Apart(prev, next))
    requires Apart(k, node) && (k == prev || Apart(k, prev)) && (next != 0 ==> k == next || Apart(k, next))
    ensures var m' := Linked(m, node, prev, next);
            && m'[k] == m[k]
            && m'[k + FLINK] == (if k == prev then node else m[k + FLINK])
            && m'[k + BLINK] == (if next != 0 && k == next then node else m[k + BLINK])
  {
  }

  lemma LinkedNewWords(m: Memory, node: int, prev: int, next: int)
    requires CanLink(m, node, prev, next)
    requires Apart(prev, node) && (next != 0 ==> Apart(next, node) && Apart(prev, next))
    ensures var m' := Linked(m, node, prev, next);
            m'[node] == m[node] && m'[node + FLINK] == next && m'[node + BLINK] == prev
  {
  }

  lemma LinkNode(m: Memory, nodes: int, l: seq<Link>, p: nat, x: Link, i: nat)
    requires Listed(m, nodes, l) && 0 < p <= |l| && i <= |l|
    requires x.FreeNode? && 0 < x.addr && x.addr + FREE_NODE <= |m| && m[x.addr] == x.bytes && Clear(nodes, l, x.addr)
    ensures var prev, next := AddrOf(nodes, l[p - 1]), if p < |l| then AddrOf(nodes, l[p]) else 0;
            CanLink(m, x.addr, prev, next) && NodeOk(Linked(m, x.addr, prev, next), nodes, InsertAt(l, p, x), i)
  {
    hide Listed, Spaced, Clear, Linked;
    LinkReady(m, nodes, l, p, x.addr);
    var prev, next := AddrOf(nodes, l[p - 1]), if p < |l| then AddrOf(nodes, l[p]) else 0;
    if i == p {
      LinkedNewWords(m, x.addr, prev, next);
    } else {
      var k := if i < p then i else i - 1;
      ListedAt(m, nodes, l, k, p - 1, x.addr);
      if p < |l| { ListedAt(m, nodes, l, k, p, x.addr); }
      LinkedWords(m, x.addr, prev, next, AddrOf(nodes, l[k]));
    }
  }

  lemma InsertAtSpaced(len: int, nodes: int, l: seq<Link>, p: nat, x: Link)
    requires Spaced(len, nodes, l) && p <= |l| && x.FreeNode?
    requires 0 < x.addr && x.addr + FREE_NODE <= len && Clear(nodes, l, x.addr)
    ensures Spaced(len, nodes, InsertAt(l, p, x))
  {
    var r := InsertAt(l, p, x);
    forall i | 0 <= i < |r| ensures NodeFits(len, nodes, r, i) {
      if i != p { assert NodeFits(len, nodes, l, if i < p then i else i - 1); }
    }
    forall i, k | 0 <= i < |r| && 0 <= k < |r| && i != k ensures PairApart(nodes, r, i, k) {
      var i', k' := if i < p then i else i - 1, if k < p then k else k - 1;
      if i == p {
        assert Apart(AddrOf(nodes, l[k']), x.addr);
      } else if k == p {
        assert Apart(AddrOf(nodes, l[i']), x.addr);
      } else {
        assert PairApart(nodes, l, i', k');
      }
    }
  }

  lemma LinkOk(m: Memory, nodes: int, l: seq<Link>, p: nat, x: Link)
    requires Listed(m, nodes, l) && 0 < p <= |l|
    requires x.FreeNode? && 0 < x.addr && x.addr + FREE_NODE <= |m| && m[x.addr] == x.bytes && Clear(nodes, l, x.addr)
    ensures var prev, next := AddrOf(nodes, l[p - 1]), if p < |l| then AddrOf(nodes, l[p]) else 0;
            && CanLink(m, x.addr, prev, next)
            && Listed(Linked(m, x.addr, prev, next), nodes, InsertAt(l, p, x))
            && forall a :: 0 <= a < |m| && !InLinks(nodes, l, a) && !LinkCell(x.addr, a) ==>
                 Linked(m, x.addr, prev, next)[a] == m[a]
  {
    var prev, next := AddrOf(nodes, l[p - 1]), if p < |l| then AddrOf(nodes, l[p]) else 0;
    LinkNode(m, nodes, l, p, x, 0);
    var m' := Linked(m, x.addr, prev, next);
    var r := InsertAt(l, p, x);
    InsertAtSpaced(|m|, nodes, l, p, x);
    forall i | 0 <= i < |r| ensures NodeOk(m', nodes, r, i) {
      LinkNode(m, nodes, l, p, x, i);
    }
    forall a | 0 <= a < |m| && !InLinks(nodes, l, a) && !LinkCell(x.addr, a) ensures m'[a] == m[a] {
      assert !LinkCell(AddrOf(nodes, l[p - 1]), a);
      assert p < |l| ==> !LinkCell(AddrOf(nodes, l[p]), a);
    }
  }

  // ---------------------------------------------------------------------------
  // Header writes leave the list alone and link writes leave the headers alone.

  /** Writes outside the first four words of every node keep the list. */
  lemma ListedFrame(m: Memory, m': Memory, nodes: int, l: seq<Link>)
    requires Listed(m, nodes, l) && |m'| == |m|
    requires forall i, a :: 0 <= i < |l| && AddrOf(nodes, l[i]) <= a < AddrOf(nodes, l[i]) + FREE_NODE && a < |m| && a >= 0
               ==> m'[a] == m[a]
    ensures Listed(m', nodes, l)
  {
    forall i | 0 <= i < |l| ensures NodeOk(m', nodes, l, i) {
      assert NodeOk(m, nodes, l, i);
    }
  }

  /** Writes outside every header keep the headers. */
  lemma HeadersFrame(m: Memory, m': Memory, cs: seq<Chunk>)
    requires Headers(m, cs) && |m'| == |m|
    requires forall i, a :: 0 <= i < |cs| && HeaderCell(cs[i], a) && 0 <= a < |m| ==> m'[a] == m[a]
    ensures Headers(m', cs)
  {
    forall i | 0 <= i < |cs| ensures HeaderOk(m', cs, i) {
      assert HeaderOk(m, cs, i);
      assert HeaderCell(cs[i], cs[i].addr) && HeaderCell(cs[i], cs[i].addr + PRECEDING);
    }
  }
}
