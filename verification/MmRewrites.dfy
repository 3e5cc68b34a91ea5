/** Header rewriting: cutting a chunk in two, joining two chunks, setting and clearing the flag;
    and why header writes, link writes and payloads stay out of each other's way. */
module MmRewrites {
  import opened MmLayout
  import opened MmView
  import opened MmOps
  import opened MmMemory

  // ---------------------------------------------------------------------------
  // Cutting.

  ghost predicate CanCut(m: Memory, node: int, bytes: int) {
    && 0 <= node && FREE_NODE <= bytes && node + ALLOC_NODE <= |m|
    && bytes + FREE_NODE <= m[node] && node + m[node] + ALLOC_NODE <= |m|
  }

  /** The words mm_malloc writes when it keeps `bytes` of the chunk at `node`. */
  ghost function Cut(m: Memory, node: int, bytes: int): (m': Memory)
    requires CanCut(m, node, bytes)
    ensures |m'| == |m|
  {
    var rest := m[node] - bytes;
    var next := node + m[node];
    m[node + bytes := rest][node + bytes + PRECEDING := bytes][node := bytes]
     [next + PRECEDING := CopyAllocBit(rest, m[next + PRECEDING])]
  }

  function CutPieces(c: Chunk, bytes: int): seq<Chunk> {
    [Chunk(c.addr, bytes, c.used), Chunk(c.addr + bytes, c.size - bytes, false)]
  }

  lemma CutWords(m: Memory, node: int, bytes: int, k: int)
    requires CanCut(m, node, bytes)
    requires 0 <= k && k + ALLOC_NODE <= |m|
    requires var next := node + m[node]; k + ALLOC_NODE <= node || k == next || next + ALLOC_NODE <= k
    ensures Cut(m, node, bytes)[k] == m[k]
    ensures k != node + m[node] ==> Cut(m, node, bytes)[k + PRECEDING] == m[k + PRECEDING]
  {
  }

  lemma CutNewWords(m: Memory, node: int, bytes: int)
    requires CanCut(m, node, bytes)
    ensures var m' := Cut(m, node, bytes);
            && m'[node] == bytes && m'[node + PRECEDING] == m[node + PRECEDING]
            && m'[node + bytes] == m[node] - bytes && m'[node + bytes + PRECEDING] == bytes
            && m'[node + m[node] + PRECEDING] == CopyAllocBit(m[node] - bytes, m[node + m[node] + PRECEDING])
  {
  }

  lemma CutReady(m: Memory, cs: seq<Chunk>, i: nat, bytes: int)
    requires Headers(m, cs) && Tiled(cs) && 0 < i < |cs| - 1
    requires FREE_NODE <= bytes && bytes + FREE_NODE <= cs[i].size
    ensures CanCut(m, cs[i].addr, bytes) && m[cs[i].addr] == cs[i].size
    ensures HeaderOk(m, cs, i) && HeaderOk(m, cs, i + 1) && cs[i].End() == cs[i + 1].addr
  {
    assert HeaderOk(m, cs, i) && HeaderOk(m, cs, i + 1);
  }

  /** A header outside the chunks i..j keeps its distance from them. */
  lemma HeaderBefore(m: Memory, cs: seq<Chunk>, k: nat, i: nat)
    requires Headers(m, cs) && Tiled(cs) && k < i < |cs|
    ensures HeaderOk(m, cs, k) && HeaderOk(m, cs, i) && cs[k].addr + ALLOC_NODE <= cs[i].addr
  {
    TiledOrder(cs, k, i);
    assert HeaderOk(m, cs, k) && HeaderOk(m, cs, i);
    assert cs[k].size >= ALLOC_NODE;
  }

  lemma CutHeader(m: Memory, cs: seq<Chunk>, i: nat, bytes: int, k: nat)
    requires Headers(m, cs) && Tiled(cs) && 0 < i < |cs| - 1 && k <= |cs|
    requires FREE_NODE <= bytes && bytes + FREE_NODE <= cs[i].size
    requires CanCut(m, cs[i].addr, bytes)
    ensures HeaderOk(Cut(m, cs[i].addr, bytes), Splice(cs, i, i + 1, CutPieces(cs[i], bytes)), k)
  {
    hide Headers, Tiled, Cut;
    CutReady(m, cs, i, bytes);
    var node := cs[i].addr;
    var pieces := CutPieces(cs[i], bytes);
    var r := Splice(cs, i, i + 1, pieces);
    if k < i {
      HeaderBefore(m, cs, k, i);
      CutWords(m, node, bytes, cs[k].addr);
      assert r[k] == cs[k] && (k > 0 ==> r[k - 1] == cs[k - 1]);
    } else if k == i {
      CutNewWords(m, node, bytes);
      assert r[i] == pieces[0] && r[i - 1] == cs[i - 1];
    } else if k == i + 1 {
      CutNewWords(m, node, bytes);
      assert r[i + 1] == pieces[1] && r[i] == pieces[0];
    } else if k == i + 2 {
      CutNewWords(m, node, bytes);
      CutWords(m, node, bytes, cs[i + 1].addr);
      TagBits(cs[i].size, cs[i + 1].used);
      assert r[k] == cs[i + 1] && r[i + 1] == pieces[1];
    } else {
      HeaderBefore(m, cs, i + 1, k - 1);
      CutWords(m, node, bytes, cs[k - 1].addr);
      assert r[k] == cs[k - 1] && r[k - 1] == cs[k - 2];
    }
  }

  lemma CutOk(m: Memory, cs: seq<Chunk>, i: nat, bytes: int)
    requires Headers(m, cs) && Tiled(cs) && 0 < i < |cs| - 1
    requires FREE_NODE <= bytes && bytes + FREE_NODE <= cs[i].size
    ensures CanCut(m, cs[i].addr, bytes)
    ensures Headers(Cut(m, cs[i].addr, bytes), Splice(cs, i, i + 1, CutPieces(cs[i], bytes)))
    ensures forall a :: 0 <= a < |m| && !(cs[i].addr <= a < cs[i + 1].addr + ALLOC_NODE) ==>
                        Cut(m, cs[i].addr, bytes)[a] == m[a]
  {
    hide Headers, Tiled;
    CutReady(m, cs, i, bytes);
    var r := Splice(cs, i, i + 1, CutPieces(cs[i], bytes));
    var m' := Cut(m, cs[i].addr, bytes);
    forall k | 0 <= k < |r| ensures HeaderOk(m', r, k) {
      CutHeader(m, cs, i, bytes, k);
    }
    HeadersIntro(m', r);
  }

  lemma HeadersIntro(m: Memory, cs: seq<Chunk>)
    requires forall i :: 0 <= i < |cs| ==> HeaderOk(m, cs, i)
    ensures Headers(m, cs)
  {
  }

  // ---------------------------------------------------------------------------
  // Joining.

  ghost predicate CanJoin(m: Memory, front: int, back: int) {
    && 0 <= front && front + ALLOC_NODE <= back && back + ALLOC_NODE <= |m|
    && m[back] >= ALLOC_NODE && back + m[back] + ALLOC_NODE <= |m|
  }

  /** The words mm_free writes when the chunk at `front` absorbs the one at `back`. */
  ghost function Joined(m: Memory, front: int, back: int): (m': Memory)
    requires CanJoin(m, front, back)
    ensures |m'| == |m|
  {
    var beyond := back + m[back];
    var sum := m[front] + m[back];
    m[front := sum][beyond + PRECEDING := CopyAllocBit(sum, m[beyond + PRECEDING])]
  }

  function JoinedChunk(b: Chunk, c: Chunk): Chunk {
    Chunk(b.addr, b.size + c.size, b.used)
  }

  lemma JoinReady(m: Memory, cs: seq<Chunk>, i: nat)
    requires Headers(m, cs) && Tiled(cs) && 0 < i && i + 2 < |cs|
    requires cs[|cs| - 1].End() - cs[0].addr < ALLOC_BIT
    ensures CanJoin(m, cs[i].addr, cs[i + 1].addr)
    ensures m[cs[i].addr] == cs[i].size && m[cs[i + 1].addr] == cs[i + 1].size
    ensures HeaderOk(m, cs, i) && HeaderOk(m, cs, i + 1) && HeaderOk(m, cs, i + 2)
    ensures cs[i].End() == cs[i + 1].addr && cs[i + 1].End() == cs[i + 2].addr
    ensures FREE_NODE <= cs[i].size && FREE_NODE <= cs[i + 1].size
    ensures cs[i].size + cs[i + 1].size < ALLOC_BIT
  {
    assert HeaderOk(m, cs, i) && HeaderOk(m, cs, i + 1) && HeaderOk(m, cs, i + 2);
    TiledOrder(cs, 0, i);
    TiledOrder(cs, i + 1, |cs| - 1);
  }

  lemma JoinWords(m: Memory, front: int, back: int, k: int)
    requires CanJoin(m, front, back) && 0 <= k && k + ALLOC_NODE <= |m|
    requires var beyond := back + m[back]; k + ALLOC_NODE <= front || k == beyond || beyond + ALLOC_NODE <= k
    ensures Joined(m, front, back)[k] == m[k]
    ensures k != back + m[back] ==> Joined(m, front, back)[k + PRECEDING] == m[k + PRECEDING]
  {
  }

  lemma JoinNewWords(m: Memory, front: int, back: int)
    requires CanJoin(m, front, back)
    ensures var m', beyond := Joined(m, front, back), back + m[back];
            && m'[front] == m[front] + m[back] && m'[front + PRECEDING] == m[front + PRECEDING]
            && m'[beyond] == m[beyond] && m'[beyond + PRECEDING] == CopyAllocBit(m[front] + m[back], m[beyond + PRECEDING])
  {
  }

  lemma JoinHeader(m: Memory, cs: seq<Chunk>, i: nat, k: nat)
    requires Headers(m, cs) && Tiled(cs) && 0 < i && i + 2 < |cs| && k < |cs| - 1
    requires cs[|cs| - 1].End() - cs[0].addr < ALLOC_BIT
    requires CanJoin(m, cs[i].addr, cs[i + 1].addr)
    ensures HeaderOk(Joined(m, cs[i].addr, cs[i + 1].addr), Splice(cs, i, i + 2, [JoinedChunk(cs[i], cs[i + 1])]), k)
  {
    hide Headers, Tiled, Joined;
    JoinReady(m, cs, i);
    var front, back := cs[i].addr, cs[i + 1].addr;
    var c := JoinedChunk(cs[i], cs[i + 1]);
    var r := Splice(cs, i, i + 2, [c]);
    if k < i {
      HeaderBefore(m, cs, k, i);
      JoinWords(m, front, back, cs[k].addr);
      assert r[k] == cs[k] && (k > 0 ==> r[k - 1] == cs[k - 1]);
    } else if k == i {
      JoinNewWords(m, front, back);
      assert r[i] == c && r[i - 1] == cs[i - 1];
    } else if k == i + 1 {
      JoinNewWords(m, front, back);
      TagBits(cs[i + 1].size, cs[i + 2].used);
      assert r[k] == cs[i + 2] && r[i] == c;
    } else {
      HeaderBefore(m, cs, i + 2, k + 1);
      JoinWords(m, front, back, cs[k + 1].addr);
      assert r[k] == cs[k + 1] && r[k - 1] == cs[k];
    }
  }

  lemma JoinOk(m: Memory, cs: seq<Chunk>, i: nat)
    requires Headers(m, cs) && Tiled(cs) && 0 < i && i + 2 < |cs|
    requires cs[|cs| - 1].End() - cs[0].addr < ALLOC_BIT
    ensures CanJoin(m, cs[i].addr, cs[i + 1].addr)
    ensures Headers(Joined(m, cs[i].addr, cs[i + 1].addr), Splice(cs, i, i + 2, [JoinedChunk(cs[i], cs[i + 1])]))
    ensures forall a :: 0 <= a < |m| && !(cs[i].addr <= a < cs[i + 2].addr + ALLOC_NODE) ==>
                        Joined(m, cs[i].addr, cs[i + 1].addr)[a] == m[a]
  {
    hide Headers, Tiled;
    JoinReady(m, cs, i);
    var r := Splice(cs, i, i + 2, [JoinedChunk(cs[i], cs[i + 1])]);
    var m' := Joined(m, cs[i].addr, cs[i + 1].addr);
    forall k | 0 <= k < |r| ensures HeaderOk(m', r, k) {
      JoinHeader(m, cs, i, k);
    }
    HeadersIntro(m', r);
  }

  // ---------------------------------------------------------------------------
  // The flag.

  lemma FlagOk(m: Memory, cs: seq<Chunk>, i: nat, used: bool)
    requires Headers(m, cs) && Tiled(cs) && i < |cs|
    ensures 0 <= cs[i].addr && cs[i].addr + ALLOC_NODE <= |m|
    ensures var w := m[cs[i].addr + PRECEDING];
            Headers(m[cs[i].addr + PRECEDING := if used then SetAllocBit(w) else ClearAllocBit(w)],
                    cs[i := cs[i].(used := used)])
  {
    assert HeaderOk(m, cs, i);
    var w := m[cs[i].addr + PRECEDING];
    var m' := m[cs[i].addr + PRECEDING := if used then SetAllocBit(w) else ClearAllocBit(w)];
    var r := cs[i := cs[i].(used := used)];
    if i > 0 {
      assert HeaderOk(m, cs, i - 1);
      TagBits(cs[i - 1].size, cs[i].used);
    } else {
      TagBits(0, cs[i].used);
    }
    forall k | 0 <= k < |r| ensures HeaderOk(m', r, k) {
      assert HeaderOk(m, cs, k);
      if k < i { TiledOrder(cs, k, i); } else if i < k { TiledOrder(cs, i, k); }
    }
  }
}
