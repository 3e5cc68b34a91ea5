/** Slots and contents of a byte ring (components/csi/csi2/src/csi_ringbuf.c). */
module RingBytes {
  import opened Basics

  type byte = x: int | 0 <= x < 256

  const UINT32_MODULUS: int := 0x1_0000_0000
  const MAX_RING: int := 0x8000_0000

  /** The slot k places behind `from`, wrapping once. */
  function Slot(size: int, from: int, k: int): int {
    if from + k < size then from + k else from + k - size
  }

  /** The index update of the source: an unsigned 32-bit sum, then the remainder. */
  function Advance(size: nat, index: nat, n: nat): nat
    requires size > 0
  {
    (index + n) % UINT32_MODULUS % size
  }

  lemma AdvanceIsSlot(size: nat, index: nat, n: nat)
    requires 0 < size <= MAX_RING && index < size && n <= size
    ensures Advance(size, index, n) == Slot(size, index, n)
  {
    hide Advance;
    NoWrap(size, index, n);
    if index + n < size {
      ModSmall(index + n, size);
    } else {
      ModOnce(index + n, size);
    }
  }

  lemma NoWrap(size: nat, index: nat, n: nat)
    requires 0 < size && index + n < UINT32_MODULUS
    ensures Advance(size, index, n) == (index + n) % size
  {
  }

  lemma ModSmall(x: nat, size: nat)
    requires x < size
    ensures x % size == x
  {
  }

  lemma ModOnce(x: nat, size: nat)
    requires 0 < size <= x < 2 * size
    ensures x % size == x - size
  {
    assert x / size == 1;
  }

  /** The indices stay right for every fill level exactly when the ring has at most 2^31 bytes;
      above that the 32-bit sum can wrap before the remainder is taken. */
  lemma IndexBound(size: nat)
    requires 0 < size < UINT32_MODULUS
    ensures (forall index: nat, n: nat :: index < size && n <= size ==> Advance(size, index, n) == Slot(size, index, n))
            <==> size <= MAX_RING
  {
    if size <= MAX_RING {
      forall index: nat, n: nat | index < size && n <= size
        ensures Advance(size, index, n) == Slot(size, index, n)
      {
        AdvanceIsSlot(size, index, n);
      }
    } else {
      var sum := (size - 1) + size;
      assert sum % UINT32_MODULUS == sum - UINT32_MODULUS;
      ModSmall(sum - UINT32_MODULUS, size);
      assert Advance(size, size - 1, size) != Slot(size, size - 1, size);
    }
  }

  /** The bytes queued: `len` of them from slot `read` on. */
  ghost function Contents(buf: seq<byte>, read: nat, len: nat): (c: seq<byte>)
    requires read < |buf| && len <= |buf|
    ensures |c| == len
    ensures forall k :: 0 <= k < len ==> c[k] == buf[Slot(|buf|, read, k)]
  {
    seq(len, k requires 0 <= k < len => buf[Slot(|buf|, read, k)])
  }

  /** Bytes stored behind the contents extend them. */
  lemma ContentsAppend(buf: seq<byte>, buf': seq<byte>, read: nat, len: nat, data: seq<byte>)
    requires read < |buf| == |buf'| && len + |data| <= |buf|
    requires forall k :: 0 <= k < len ==> buf'[Slot(|buf|, read, k)] == buf[Slot(|buf|, read, k)]
    requires forall k :: 0 <= k < |data| ==> buf'[Slot(|buf|, read, len + k)] == data[k]
    ensures Contents(buf', read, len + |data|) == Contents(buf, read, len) + data
  {
    forall k | 0 <= k < len + |data|
      ensures Contents(buf', read, len + |data|)[k] == (Contents(buf, read, len) + data)[k]
    {
      if k >= len {
        var j := k - len;
        assert buf'[Slot(|buf|, read, len + j)] == data[j];
      }
    }
  }

  /** Moving the read index drops the bytes in front. */
  lemma ContentsDrop(buf: seq<byte>, read: nat, len: nat, n: nat)
    requires read < |buf| && n <= len <= |buf|
    ensures Slot(|buf|, read, n) < |buf|
    ensures Contents(buf, Slot(|buf|, read, n), len - n) == Contents(buf, read, len)[n..]
  {
    forall k | 0 <= k < len - n
      ensures Slot(|buf|, Slot(|buf|, read, n), k) == Slot(|buf|, read, n + k)
    {
    }
  }

  // ---------------------------------------------------------------------------
  // Copies in one or two pieces.

  /** n bytes from slot `from` on, as the source reads them. */
  function Fetch(buf: seq<byte>, from: nat, n: nat): seq<byte>
    requires from < |buf| && n <= |buf|
  {
    var first := |buf| - from;
    if n <= first then buf[from..from + n] else buf[from..] + buf[..n - first]
  }

  /** The storage after data went into the slots from w on, as the source writes them. */
  function Store(buf: seq<byte>, w: nat, data: seq<byte>): (buf': seq<byte>)
    requires w < |buf| && |data| <= |buf|
    ensures |buf'| == |buf|
  {
    var first := |buf| - w;
    if |data| <= first then buf[..w] + data + buf[w + |data|..]
    else data[first..] + buf[|data| - first..w] + data[..first]
  }

  lemma FetchPieces(p: seq<byte>, buf: seq<byte>, from: nat, n: nat)
    requires from < |buf| && n <= |buf|
    ensures var first := |buf| - from;
            p + Fetch(buf, from, n) ==
            if n <= first then p + buf[from..from + n] else (p + buf[from..]) + buf[..n - first]
  {
  }

  lemma FetchIsPrefix(buf: seq<byte>, read: nat, len: nat, n: nat)
    requires read < |buf| && n <= len <= |buf|
    ensures Fetch(buf, read, n) == Contents(buf, read, len)[..n]
  {
    forall k | 0 <= k < n ensures Fetch(buf, read, n)[k] == Contents(buf, read, len)[k] {
    }
  }

  lemma StoreAt(buf: seq<byte>, w: nat, data: seq<byte>, j: nat)
    requires w < |buf| && |data| <= |buf| && j < |buf|
    ensures var k := if j >= w then j - w else j - w + |buf|;
            Store(buf, w, data)[j] == if k < |data| then data[k] else buf[j]
  {
  }

  lemma StoreAppends(buf: seq<byte>, read: nat, len: nat, data: seq<byte>)
    requires read < |buf| && len + |data| <= |buf|
    requires var w := Slot(|buf|, read, len); w < |buf|
    ensures Contents(Store(buf, Slot(|buf|, read, len), data), read, len + |data|) == Contents(buf, read, len) + data
  {
    var w := Slot(|buf|, read, len);
    var buf' := Store(buf, w, data);
    hide Store;
    forall k | 0 <= k < len ensures buf'[Slot(|buf|, read, k)] == buf[Slot(|buf|, read, k)] {
      StoreAt(buf, w, data, Slot(|buf|, read, k));
    }
    forall k | 0 <= k < |data| ensures buf'[Slot(|buf|, read, len + k)] == data[k] {
      StoreAt(buf, w, data, Slot(|buf|, read, len + k));
    }
    ContentsAppend(buf, buf', read, len, data);
  }

  /** memcpy of d[from..from + n] to b[to..to + n] */
  function Patch(b: seq<byte>, to: nat, d: seq<byte>, from: nat, n: nat): (b': seq<byte>)
    requires to + n <= |b| && from + n <= |d|
    ensures |b'| == |b|
  {
    b[..to] + d[from..from + n] + b[to + n..]
  }

  lemma PatchOnce(b: seq<byte>, w: nat, d: seq<byte>, off: nat, n: nat)
    requires w < |b| && n <= |b| - w && off + n <= |d|
    ensures Patch(b, w, d, off, n) == Store(b, w, d[off..off + n])
  {
  }

  lemma PatchTwice(b: seq<byte>, w: nat, d: seq<byte>, off: nat, n: nat)
    requires w < |b| && |b| - w < n <= |b| && off + n <= |d|
    ensures var t := |b| - w;
            Patch(Patch(b, w, d, off, t), 0, d, off + t, n - t) == Store(b, w, d[off..off + n])
  {
    hide Patch, Store;
    var t := |b| - w;
    PatchEnd(b, w, d, off);
    PatchStart(b[..w] + d[off..off + t], w, d, off + t, n - t);
    DropFront(b, w, d[off..off + t], n - t);
    StoreWraps(b, w, d, off, n);
  }

  lemma DropFront(b: seq<byte>, w: nat, x: seq<byte>, k: nat)
    requires k <= w <= |b|
    ensures (b[..w] + x)[k..] == b[k..w] + x
  {
  }

  lemma StoreWraps(b: seq<byte>, w: nat, d: seq<byte>, off: nat, n: nat)
    requires w < |b| && |b| - w < n <= |b| && off + n <= |d|
    ensures var t := |b| - w; Store(b, w, d[off..off + n]) == d[off + t..off + n] + (b[n - t..w] + d[off..off + t])
  {
    var t := |b| - w;
    var data := d[off..off + n];
    assert data[..t] == d[off..off + t] && data[t..] == d[off + t..off + n];
  }

  lemma PatchEnd(b: seq<byte>, w: nat, d: seq<byte>, off: nat)
    requires w <= |b| && off + |b| - w <= |d|
    ensures var t := |b| - w; Patch(b, w, d, off, t) == b[..w] + d[off..off + t]
  {
  }

  lemma PatchStart(b: seq<byte>, w: nat, d: seq<byte>, off: nat, n: nat)
    requires n <= w <= |b| && off + n <= |d|
    ensures Patch(b, 0, d, off, n) == d[off..off + n] + b[n..]
  {
  }

  lemma PatchFetched(o: seq<byte>, off: nat, b: seq<byte>, from: nat, n: nat)
    requires from < |b| && n <= |b| && off + n <= |o|
    ensures var t := |b| - from;
            o[..off] + Fetch(b, from, n) + o[off + n..] ==
            if n <= t then Patch(o, off, b, from, n)
            else Patch(Patch(o, off, b, from, t), off + t, b, 0, n - t)
  {
    var t := |b| - from;
    if n > t {
      var o2 := Patch(Patch(o, off, b, from, t), off + t, b, 0, n - t);
      var r := o[..off] + Fetch(b, from, n) + o[off + n..];
      forall j | 0 <= j < |o| ensures o2[j] == r[j] {
      }
    }
  }
}
