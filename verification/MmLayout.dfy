/** Chunk sizes, request rounding, the allocated flag and the bucket index of the heap
    (solutions/d1_flashelf/mm/include/mm.h and mm_size2ndx.c, LP64 layout). */
module MmLayout {

  const WORD_MODULUS: int := 0x1_0000_0000_0000_0000  // size_t is 64 bits wide
  const GRANULE: int := 16                            // MM_MIN_CHUNK
  const ALLOC_NODE: int := 16                         // SIZEOF_MM_ALLOCNODE
  const FREE_NODE: int := 32                          // SIZEOF_MM_FREENODE
  const MAX_CHUNK: int := 0x40_0000                   // MM_MAX_CHUNK
  const NNODES: nat := 19                             // MM_NNODES
  const ALLOC_BIT: int := 0x8000_0000                 // MM_ALLOC_BIT

  /** MM_ALIGN_UP on a size_t: the addition wraps at 2^64. */
  function AlignUp(a: nat): nat {
    (a + (GRANULE - 1)) % WORD_MODULUS / GRANULE * GRANULE
  }

  function AlignDown(a: nat): nat {
    a / GRANULE * GRANULE
  }

  /** Rounding goes to the nearest multiple of the granule on either side. */
  lemma AlignMeans(a: nat)
    requires a + GRANULE <= WORD_MODULUS
    ensures AlignDown(a) % 16 == 0 && AlignDown(a) <= a < AlignDown(a) + 16
    ensures AlignUp(a) % 16 == 0 && a <= AlignUp(a) < a + 16
  {
    assert (a + 15) % WORD_MODULUS == a + 15;
    MultipleOfGranule(a / 16);
    MultipleOfGranule((a + 15) / 16);
  }

  lemma MultipleOfGranule(k: nat)
    ensures (k * 16) % 16 == 0
  {
  }

  /** The chunk size mm_malloc searches for. */
  function Rounded(request: nat): nat {
    AlignUp((request + ALLOC_NODE) % WORD_MODULUS)
  }

  /** A request that mm_malloc can round without wrapping. */
  predicate Fits(request: nat) {
    request + ALLOC_NODE + (GRANULE - 1) < WORD_MODULUS
  }

  /** Rounding leaves room for the header and the request exactly when it does not wrap; when it
      wraps, what is left is less than any free chunk has, so the search cannot fail for size. */
  lemma RoundedHoldsRequest(request: nat)
    requires request < WORD_MODULUS
    ensures Rounded(request) >= request + ALLOC_NODE <==> Fits(request)
    ensures !Fits(request) ==> Rounded(request) == 0 || Rounded(request) == GRANULE
  {
    if !Fits(request) {
      assert request + 31 - WORD_MODULUS < 31;
      if request + ALLOC_NODE < WORD_MODULUS {
        assert (request + ALLOC_NODE) % WORD_MODULUS == request + ALLOC_NODE;
        assert (request + 31) % WORD_MODULUS == request + 31 - WORD_MODULUS;
      } else {
        assert (request + ALLOC_NODE) % WORD_MODULUS == request + ALLOC_NODE - WORD_MODULUS;
        assert (request + 31 - WORD_MODULUS) % WORD_MODULUS == request + 31 - WORD_MODULUS;
      }
    }
  }

  /** The largest request of all is rounded to a single granule. */
  lemma RoundingWrapsExample()
    ensures Rounded(WORD_MODULUS - 1) == GRANULE
  {
    RoundedHoldsRequest(WORD_MODULUS - 1);
    assert (WORD_MODULUS - 1 + ALLOC_NODE) % WORD_MODULUS == ALLOC_NODE - 1;
  }

  /** Every non-zero request gets a size on the granule that can hold a free node, although
      MM_MIN_CHUNK itself is smaller than a free node, and wastes less than two granules. */
  lemma RoundedShape(request: nat)
    requires 1 <= request && Fits(request)
    ensures Rounded(request) % GRANULE == 0
    ensures FREE_NODE <= Rounded(request)
    ensures request + ALLOC_NODE <= Rounded(request) < request + ALLOC_NODE + GRANULE
  {
    assert (request + ALLOC_NODE) % WORD_MODULUS == request + ALLOC_NODE;
    assert (request + 31) % WORD_MODULUS == request + 31;
  }

  // ---------------------------------------------------------------------------
  // The allocated flag shares a word with the preceding chunk's size.

  predicate HasAllocBit(w: nat) {
    w / ALLOC_BIT % 2 == 1
  }

  /** w | MM_ALLOC_BIT */
  function SetAllocBit(w: nat): nat {
    if HasAllocBit(w) then w else w + ALLOC_BIT
  }

  /** w & ~MM_ALLOC_BIT: the complement is a 32-bit mask, so the upper half is cleared too. */
  function ClearAllocBit(w: nat): nat {
    w % ALLOC_BIT
  }

  /** w | (flags & MM_ALLOC_BIT) */
  function CopyAllocBit(w: nat, flags: nat): nat {
    if HasAllocBit(flags) then SetAllocBit(w) else w
  }

  /** The word that stores the preceding size and the flag. */
  function Tag(size: nat, used: bool): nat {
    if used then size + ALLOC_BIT else size
  }

  /** The size survives setting and clearing the flag exactly when it is below 2^31, which is
      why a region must stay below 2^31 bytes. */
  lemma AllocBitRoundTrip(size: nat)
    ensures ClearAllocBit(SetAllocBit(size)) == size <==> size < ALLOC_BIT
  {
    if size < ALLOC_BIT {
      assert size / ALLOC_BIT == 0;
      assert (size + ALLOC_BIT) % ALLOC_BIT == size;
    }
  }

  lemma TagBits(size: nat, used: bool)
    requires size < ALLOC_BIT
    ensures HasAllocBit(Tag(size, used)) == used
    ensures ClearAllocBit(Tag(size, used)) == size
    ensures SetAllocBit(Tag(size, used)) == Tag(size, true)
    ensures forall w: nat :: w < ALLOC_BIT ==> CopyAllocBit(w, Tag(size, used)) == Tag(w, used)
  {
  }

  // ---------------------------------------------------------------------------
  // Buckets.

  function Pow2(k: nat): (p: nat)
    ensures p >= 1
  {
    if k == 0 then 1 else 2 * Pow2(k - 1)
  }

  /** The least size that belongs to bucket k (for k >= 1). */
  function BucketLow(k: nat): nat {
    GRANULE * Pow2(k)
  }

  lemma {:induction false} Pow2Grows(i: nat, j: nat)
    requires i < j
    ensures 2 * Pow2(i) <= Pow2(j)
  {
    if i + 1 < j {
      Pow2Grows(i, j - 1);
    }
  }

  lemma LastBucket()
    ensures BucketLow(NNODES - 1) == MAX_CHUNK
  {
    assert Pow2(4) == 16;
    assert Pow2(8) == 16 * Pow2(4);
    assert Pow2(12) == 16 * Pow2(8);
    assert Pow2(16) == 16 * Pow2(12);
    assert Pow2(18) == 4 * Pow2(16);
  }

  /** The bucket of a size: the last k below NNODES whose lower bound the size reaches. */
  ghost predicate InBucket(size: nat, k: nat) {
    && k < NNODES
    && (k > 0 ==> BucketLow(k) <= size)
    && (k + 1 < NNODES ==> size < BucketLow(k + 1))
  }

  lemma LastBucketHolds(size: nat)
    requires size >= MAX_CHUNK
    ensures InBucket(size, NNODES - 1)
  {
    LastBucket();
  }

  lemma BucketUnique(size: nat, i: nat, j: nat)
    requires InBucket(size, i) && InBucket(size, j)
    ensures i == j
  {
    if i < j {
      if i + 1 < j { Pow2Grows(i + 1, j); }
    } else if j < i {
      if j + 1 < i { Pow2Grows(j + 1, i); }
    }
  }

  /** mm_size2ndx */
  method Size2Ndx(size: nat) returns (ndx: nat)
    ensures InBucket(size, ndx)
  {
    if size >= MAX_CHUNK {
      LastBucket();
      return NNODES - 1;
    }
    ndx := 0;
    var rest := size / 16;
    LastBucket();
    while rest > 1
      invariant ndx < NNODES
      invariant rest * BucketLow(ndx) <= size < (rest + 1) * BucketLow(ndx)
      invariant ndx > 0 ==> rest >= 1
      decreases rest
    {
      Halve(rest, BucketLow(ndx), size);
      ndx := ndx + 1;
      rest := rest / 2;
    }
    if rest == 1 && ndx + 1 < NNODES {
      assert BucketLow(ndx + 1) == 2 * BucketLow(ndx);
    }
    if ndx == 0 {
      assert size < 2 * BucketLow(0);
    }
  }

  lemma Halve(rest: nat, unit: nat, size: nat)
    requires rest * unit <= size < (rest + 1) * unit
    ensures rest / 2 * (2 * unit) <= size < (rest / 2 + 1) * (2 * unit)
  {
    var half := rest / 2;
    assert half * (2 * unit) == (2 * half) * unit <= rest * unit;
    assert (half + 1) * (2 * unit) == (2 * half + 2) * unit >= (rest + 1) * unit;
  }
}
