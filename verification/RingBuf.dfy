/** The ring buffer as its callers see it (components/csi/csi2/src/csi_ringbuf.c, the same text as
    components/csi/csi1/src/csi_ringbuf.c), one call at a time. */
module RingBuf {
  import opened Basics
  import opened RingBytes

  /** memcpy between two objects */
  method Copy(dst: array<byte>, d: nat, src: array<byte>, s: nat, n: nat)
    requires dst != src && d + n <= dst.Length && s + n <= src.Length
    modifies dst
    ensures dst[..] == Patch(old(dst[..]), d, src[..], s, n)
  {
    forall k | 0 <= k < n {
      dst[d + k] := src[s + k];
    }
  }

  class Ring {
    const buffer: array<byte>
    const size: nat
    var write: nat
    var read: nat
    var dataLen: nat

    ghost predicate Valid()
      reads this
    {
      && 0 < size <= MAX_RING && buffer.Length == size
      && read < size && write < size && dataLen <= size
      && write == Slot(size, read, dataLen)
    }

    /** The queued bytes, oldest first. */
    ghost function Queue(): (q: seq<byte>)
      requires Valid()
      reads this, buffer
      ensures |q| == dataLen
    {
      Contents(buffer[..], read, dataLen)
    }

    constructor (memory: array<byte>)
      requires 0 < memory.Length <= MAX_RING
      ensures Valid() && Queue() == [] && buffer == memory && size == memory.Length
    {
      buffer, size := memory, memory.Length;
      write, read, dataLen := 0, 0, 0;
    }

    method Reset()
      requires Valid()
      modifies this
      ensures Valid() && Queue() == []
    {
      read := 0;
      write := read;
      dataLen := 0;
    }

    function Len(): (n: nat)
      requires Valid()
      reads this, buffer
      ensures n == |Queue()|
    {
      dataLen
    }

    function Avail(): (n: nat)
      requires Valid()
      reads this, buffer
      ensures n == size - |Queue()|
    {
      size - Len()
    }

    predicate IsEmpty()
      requires Valid()
      reads this, buffer
      ensures IsEmpty() <==> Queue() == []
    {
      Len() == 0
    }

    predicate IsFull()
      requires Valid()
      reads this, buffer
      ensures IsFull() <==> |Queue()| == size
    {
      Avail() == 0
    }

    /** The copies of csi_ringbuf_in: one piece, or two where the storage ends. */
    method CopyIn(data: array<byte>, off: nat, n: nat)
      requires Valid() && data != buffer && off + n <= data.Length && n <= size - dataLen
      modifies buffer
      ensures buffer[..] == Store(old(buffer[..]), write, data[off..off + n])
    {
      hide Store, Patch;
      ghost var b := buffer[..];
      assert data[..][off..off + n] == data[off..off + n];
      if write < read {
        Copy(buffer, write, data, off, n);
        PatchOnce(b, write, data[..], off, n);
      } else {
        var tmplen := size - write;
        if n <= tmplen {
          Copy(buffer, write, data, off, n);
          PatchOnce(b, write, data[..], off, n);
        } else {
          Copy(buffer, write, data, off, tmplen);
          Copy(buffer, 0, data, off + tmplen, n - tmplen);
          PatchTwice(b, write, data[..], off, n);
        }
      }
    }

    /** csi_ringbuf_in: queue as long a prefix of the len bytes as fits. */
    method In(data: array<byte>, off: nat, len: nat) returns (n: nat)
      requires Valid() && data != buffer && off + len <= data.Length
      modifies this, buffer
      ensures Valid()
      ensures n == Min(len, size - |old(Queue())|)
      ensures Queue() == old(Queue()) + data[off..off + n]
      ensures read == old(read)
    {
      hide Contents, Advance, Store;
      if IsFull() {
        assert data[off..off] == [];
        return 0;
      }
      ghost var b := buffer[..];
      var tmplen := size - dataLen;
      n := if tmplen > len then len else tmplen;
      CopyIn(data, off, n);
      StoreAppends(b, read, dataLen, data[off..off + n]);
      AdvanceIsSlot(size, write, n);
      write := Advance(size, write, n);
      dataLen := dataLen + n;
    }

    /** The copies of csi_ringbuf_out: one piece, or two where the storage ends. */
    method CopyOut(out: array<byte>, off: nat, n: nat)
      requires Valid() && out != buffer && off + n <= out.Length && n <= dataLen
      modifies out
      ensures out[..] == old(out[..])[..off] + Fetch(buffer[..], read, n) + old(out[..])[off + n..]
    {
      hide Patch, Fetch;
      ghost var b, o := buffer[..], out[..];
      PatchFetched(o, off, b, read, n);
      var tmplen := size - read;
      if n <= tmplen {
        Copy(out, off, buffer, read, n);
      } else {
        Copy(out, off, buffer, read, tmplen);
        assert buffer[..] == b;
        Copy(out, off + tmplen, buffer, 0, n - tmplen);
      }
    }

    /** csi_ringbuf_out: hand out the oldest bytes, at most len of them; without a destination
        they are dropped. */
    method Out(out: array?<byte>, off: nat, len: nat) returns (n: nat)
      requires Valid() && (out != null ==> out != buffer && off + len <= out.Length)
      modifies this, out
      ensures Valid()
      ensures n == Min(len, |old(Queue())|)
      ensures Queue() == old(Queue())[n..]
      ensures out != null ==> out[..] == old(out[..])[..off] + old(Queue())[..n] + old(out[..])[off + n..]
      ensures buffer[..] == old(buffer[..])
    {
      hide Contents, Advance, Fetch;
      if IsEmpty() {
        assert out != null ==> out[..] == out[..][..off] + Queue()[..0] + out[..][off..];
        return 0;
      }
      ghost var b := buffer[..];
      var len0 := dataLen;
      n := if len > len0 then len0 else len;
      FetchIsPrefix(b, read, dataLen, n);
      if out != null {
        CopyOut(out, off, n);
      }
      AdvanceIsSlot(size, read, n);
      ContentsDrop(b, read, dataLen, n);
      read := Advance(size, read, n);
      dataLen := dataLen - n;
    }

    /** The calls of csi_ringbuf_in in csi_ringbuf_move. */
    method TakePieces(source: Ring, n: nat)
      requires Valid() && source.Valid() && source != this && source.buffer != buffer
      requires n <= source.dataLen && n <= size - dataLen
      modifies this, buffer
      ensures Valid()
      ensures Queue() == old(Queue()) + Fetch(source.buffer[..], source.read, n)
    {
      hide Contents, Fetch, Slot, Ring.Queue;
      ghost var b, p := source.buffer[..], Queue();
      FetchPieces(p, b, source.read, n);
      var tmplen := source.size - source.read;
      if n <= tmplen {
        assert source.buffer[source.read..source.read + n] == b[source.read..source.read + n];
        var done := In(source.buffer, source.read, n);
      } else {
        assert source.buffer[source.read..source.read + tmplen] == b[source.read..];
        var first := In(source.buffer, source.read, tmplen);
        assert source.buffer[..] == b;
        assert source.buffer[0..n - tmplen] == b[..n - tmplen];
        var second := In(source.buffer, 0, n - tmplen);
      }
    }

    /** csi_ringbuf_move: this ring takes the oldest bytes of another ring, as many as it has room
        for, in at most two pieces of the other ring's storage. */
    method Move(source: Ring) returns (n: nat)
      requires Valid() && source.Valid() && source != this && source.buffer != buffer
      modifies this, buffer, source
      ensures Valid() && source.Valid()
      ensures n == Min(|old(source.Queue())|, size - |old(Queue())|)
      ensures Queue() == old(Queue()) + old(source.Queue())[..n]
      ensures source.Queue() == old(source.Queue())[n..]
    {
      hide Contents, Advance, Fetch;
      if source.IsEmpty() {
        return 0;
      }
      ghost var b := source.buffer[..];
      var len := Avail();
      var sourceLen := source.dataLen;
      n := if len > sourceLen then sourceLen else len;
      FetchIsPrefix(b, source.read, source.dataLen, n);
      TakePieces(source, n);
      AdvanceIsSlot(source.size, source.read, n);
      ContentsDrop(b, source.read, source.dataLen, n);
      source.read := Advance(source.size, source.read, n);
      source.dataLen := source.dataLen - n;
    }
  }
}
