/** What clients do to the memory they were given: the heap does not notice, and what they stored
    stays until they give it back. */
module MmClients {
  import opened Basics
  import opened MmLayout
  import opened MmView
  import opened MmOps
  import opened MmRuns
  import opened MmMemory
  import opened MmSeparation
  import opened MmSteps

  /** The word at address b belongs to the payload of block a. */
  predicate InPayload(live: map<int, Block>, a: int, b: int) {
    a in live && a + ALLOC_NODE <= b < a + live[a].size
  }

  /** Nothing but payloads of live blocks changed. */
  ghost predicate OnlyPayloads(m: Memory, m': Memory, live: map<int, Block>) {
    |m'| == |m|
    && forall b :: 0 <= b < |m| && (forall a :: a in live ==> !InPayload(live, a, b)) ==> m'[b] == m[b]
  }

  lemma HeaderOutside(v: View, i: nat, a: int, b: int)
    requires Inv(v) && i < |v.chunks| && HeaderCell(v.chunks[i], b) && a in v.live
    ensures !InPayload(v.live, a, b)
  {
    hide Coalesced, ListOk, Agree, LiveOk;
    LiveChunk(v, a);
    var k := ChunkAt(v.chunks, a);
    TiledEnds(v.chunks, i);
    if i < k { TiledOrder(v.chunks, i, k); } else if k < i { TiledOrder(v.chunks, k, i); }
  }

  lemma NodeOutside(len: int, nodes: int, v: View, j: nat, a: int, b: int)
    requires Inv(v) && Fenced(len, nodes, v.chunks) && Backed(v.chunks, v.list) && j < |v.list| && a in v.live
    requires AddrOf(nodes, v.list[j]) <= b < AddrOf(nodes, v.list[j]) + FREE_NODE
    ensures !InPayload(v.live, a, b)
  {
    hide Coalesced, ListOk, Agree, LiveOk;
    LiveChunk(v, a);
    NodeBeside(len, nodes, v.chunks, v.list, v.list[j], ChunkAt(v.chunks, a));
  }

  /** A client that writes inside blocks it holds leaves headers and list alone. */
  lemma ClientsKeepMirrors(m: Memory, m': Memory, nodes: int, v: View)
    requires Mirrors(m, nodes, v) && OnlyPayloads(m, m', v.live)
    ensures Mirrors(m', nodes, v)
  {
    hide Inv, Headers, Listed, Tiled, Fenced, Backed, ListOk;
    forall i, b | 0 <= i < |v.chunks| && HeaderCell(v.chunks[i], b) && 0 <= b < |m| ensures m'[b] == m[b] {
      forall a | a in v.live ensures !InPayload(v.live, a, b) { HeaderOutside(v, i, a, b); }
    }
    HeadersFrame(m, m', v.chunks);
    forall j, b | 0 <= j < |v.list| && AddrOf(nodes, v.list[j]) <= b < AddrOf(nodes, v.list[j]) + FREE_NODE && b < |m| && b >= 0
      ensures m'[b] == m[b]
    {
      forall a | a in v.live ensures !InPayload(v.live, a, b) { NodeOutside(|m|, nodes, v, j, a, b); }
    }
    ListedFrame(m, m', nodes, v.list);
  }

  lemma OneStore(m: Memory, nodes: int, v: View, a: int, b: int, w: nat)
    requires Mirrors(m, nodes, v) && InPayload(v.live, a, b)
    ensures 0 <= b < |m| && Mirrors(m[b := w], nodes, v)
  {
    PayloadInMemory(m, nodes, v, a);
    hide Mirrors;
    ClientsKeepMirrors(m, m[b := w], nodes, v);
  }

  lemma PayloadInMemory(m: Memory, nodes: int, v: View, a: int)
    requires Mirrors(m, nodes, v) && a in v.live
    ensures 0 < a && a + v.live[a].size <= |m|
  {
    hide Coalesced, ListOk, Agree, LiveOk, Headers, Listed, Backed;
    LiveChunk(v, a);
    TiledEnds(v.chunks, ChunkAt(v.chunks, a));
  }

  // ---------------------------------------------------------------------------
  // Runs in which clients use their memory.

  datatype Call = Allocate(request: nat) | GiveBack(mem: int) | Store(block: int, at: int, word: nat)

  /** The heap before and after a call, in memory and as a value. */
  ghost predicate Called(m: Memory, nodes: int, v: View, c: Call, m': Memory, v': View) {
    && Mirrors(m, nodes, v) && Mirrors(m', nodes, v')
    && match c
       case Allocate(r) => Fits(r) && v' == AfterMalloc(v, r) && KeepsLive(m, m', v.live)
       case GiveBack(p) => Freeable(v, p) && v' == AfterFree(v, p) && KeepsLive(m, m', v'.live)
       case Store(a, b, w) => InPayload(v.live, a, b) && 0 <= b < |m| && v' == v && m' == m[b := w]
  }

  /** A call by somebody else: it neither gives block a back nor stores at address b. */
  predicate Foreign(c: Call, a: int, b: int) {
    c != GiveBack(a + ALLOC_NODE) && (c.Store? ==> c.at != b)
  }

  lemma AllocateKeepsBlocks(v: View, request: nat, a: int)
    requires Inv(v) && Fits(request) && a in v.live
    ensures a in AfterMalloc(v, request).live && AfterMalloc(v, request).live[a] == v.live[a]
  {
    hide Inv, AfterMalloc;
    if MallocResult(v, request) != 0 { MallocLive(v, request); } else { MallocFails(v, request); }
    var w := AfterMalloc(v, request);
    var x := MallocResult(v, request) - ALLOC_NODE;
    assert MallocResult(v, request) != 0 ==> (w.live - {x})[a] == v.live[a];
  }

  lemma GiveBackKeepsBlocks(v: View, mem: int, a: int)
    requires Inv(v) && Freeable(v, mem) && a in v.live && mem != a + ALLOC_NODE
    ensures a in AfterFree(v, mem).live && AfterFree(v, mem).live[a] == v.live[a]
  {
    hide Inv;
  }

  lemma CallRemembers(m: Memory, nodes: int, v: View, c: Call, m': Memory, v': View, a: int, b: int)
    requires Called(m, nodes, v, c, m', v') && InPayload(v.live, a, b) && Foreign(c, a, b)
    ensures InPayload(v'.live, a, b) && 0 <= b < |m| == |m'| && m'[b] == m[b]
  {
    PayloadInMemory(m, nodes, v, a);
    match c
    case Allocate(r) => AllocateKeepsBlocks(v, r, a);
    case GiveBack(p) => GiveBackKeepsBlocks(v, p, a);
    case Store(_, _, _) =>
  }

  lemma PayloadBounds(m: Memory, nodes: int, v: View, a: int, b: int)
    requires Mirrors(m, nodes, v) && InPayload(v.live, a, b)
    ensures 0 <= b < |m|
  {
    PayloadInMemory(m, nodes, v, a);
  }

  lemma CalledMirrors(m: Memory, nodes: int, v: View, c: Call, m': Memory, v': View)
    requires Called(m, nodes, v, c, m', v')
    ensures Mirrors(m', nodes, v')
  {
  }

  datatype State = State(mem: Memory, view: View)

  ghost predicate Trace(states: seq<State>, nodes: int, calls: seq<Call>) {
    && |states| == |calls| + 1 && Mirrors(states[0].mem, nodes, states[0].view)
    && forall i :: 0 <= i < |calls| ==>
         Called(states[i].mem, nodes, states[i].view, calls[i], states[i + 1].mem, states[i + 1].view)
  }

  /** Whatever others allocate, give back and store: a word of a block stays as it is until the
      block is given back or the word is stored again. */
  lemma {:induction false} WordsStay(states: seq<State>, nodes: int, calls: seq<Call>, a: int, b: int)
    requires Trace(states, nodes, calls) && InPayload(states[0].view.live, a, b)
    requires forall i :: 0 <= i < |calls| ==> Foreign(calls[i], a, b)
    ensures var n := |calls|;
            && InPayload(states[n].view.live, a, b)
            && 0 <= b < |states[0].mem| == |states[n].mem| && states[n].mem[b] == states[0].mem[b]
    decreases |calls|
  {
    hide Called, Foreign, InPayload, Mirrors;
    PayloadBounds(states[0].mem, nodes, states[0].view, a, b);
    if calls != [] {
      var s, t := states[0], states[1];
      assert Called(s.mem, nodes, s.view, calls[0], t.mem, t.view);
      CallRemembers(s.mem, nodes, s.view, calls[0], t.mem, t.view, a, b);
      CalledMirrors(s.mem, nodes, s.view, calls[0], t.mem, t.view);
      WordsStay(states[1..], nodes, calls[1..], a, b);
    }
  }
}
