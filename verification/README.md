# Verified model of the D1 board support core

This project models the parts of the D1 board support code that keep state which is easy to get
wrong, and proves what they promise.

**Heap** (`Mm*.dfy`). A boundary-tag allocator: chunks tile a region between two guards, and the free
ones are also on one size-ordered doubly linked list with a sentinel in front of every size bucket.
`MmView` and `MmOps` describe the heap as values (tiling, list, live blocks) and what an allocation
and a release do to it; `MmRuns` and `MmAccounts` prove its properties over whole runs; `MmMemory`,
`MmRewrites`, `MmSeparation` and `MmSteps` say how memory words represent it; `MmHeap` holds the code,
which reads and writes one array of words and is proved to follow the values step by step.
`MmClients` adds clients that use the memory they hold, and `MmWrap` says what the code does with
requests whose rounding wraps, which it does not check for. The layout is the one of a 64-bit build:
granule 16, headers of 16 bytes, free nodes of 32, 19 buckets.

**Ring buffer** (`Ring*.dfy`, `Mailbox.dfy`). `RingBuf` is the ring one call at a time;
`RingProtocol` is one producer and one consumer interleaved step by step, one of them in an
interrupt handler, and `RingCalls` what their whole calls achieve; `Mailbox` queues 32-bit words on a 32-byte ring.

**Integer printing** (`Printf*.dfy`, `Printi.dfy`). The format interpreter with its bounded output,
the digit conversion through a 32-byte buffer, what a reader gets back from the text, and the
second, independent printer with the exact condition under which the two agree. What the
conversions mean (`PrintfStandard`), and what the directives of a format mean (`PrintfDirective`,
`PrintfWhole`), follows sections 7.21.6.1 and 7.21.6.5 of ISO/IEC 9899:2011; where the code departs
from them the model follows the code, states exactly when it departs and gives an input
(`PrintfStandard.SameExactly`, `PrintfHash`: with `-` the precision is ignored, zero padding stops at
32 characters, and the prefix of `#` can replace digits).

**Shared interrupts** (`Irq*.dfy`). Lines with chains of actions, an enable counter and an enable
bit, under nested interrupt locks. The comments of the source speak of nested enable and disable
calls; its code switches the line on every call, and the model follows the code.

**Intrusive lists** (`ListHead.dfy`, `LeakModel.dfy`, `LeakIndex.dfy`). Circular lists, and the hash
buckets of queues that index live blocks.

Callers are assumed to release only live pointers or NULL, to hand out memory for one region below
2^31 bytes and at least 64 bytes long after alignment, and to keep a ring's storage apart from the
buffers copied to and from it. Time, the hardware behind the interrupt controller and the success
of the memory allocation in a request are parameters or absent.

## Model

| member | source | states |
|---|---|---|
| MmLayout.Size2Ndx | solutions/d1_flashelf/mm/src/mm_size2ndx.c:59-76 | the result is the one bucket whose size range holds the size; sizes at or above the largest chunk share the last bucket |
| MmLayout.BucketUnique | solutions/d1_flashelf/mm/src/mm_size2ndx.c:59-76 | bucket ranges do not overlap: a size has one bucket only |
| MmLayout.AlignMeans | solutions/d1_flashelf/mm/include/mm.h:169-170 | aligning goes to the nearest multiple of 16 on either side |
| MmLayout.RoundedShape | solutions/d1_flashelf/mm/src/mm_malloc.c:118 | a request of at least 1 is rounded to a multiple of 16 that holds header and request with less than 16 bytes to spare and is never below 32, so what is handed out can be a free node later although the granule is only 16 |
| MmLayout.RoundedHoldsRequest | solutions/d1_flashelf/mm/src/mm_malloc.c:118 | the rounded size has room for header and request if and only if the 64-bit additions do not wrap; if they wrap it is 0 or 16 |
| MmLayout.RoundingWrapsExample | solutions/d1_flashelf/mm/src/mm_malloc.c:118 | a concrete request (2^64 - 1) whose rounded size is one granule |
| MmLayout.AllocBitRoundTrip | solutions/d1_flashelf/mm/include/mm.h:179 | a size stored beside the allocated flag comes back after setting and clearing it if and only if it is below 2^31, the reason a region must stay below 2^31 bytes |
| MmOps.MallocKeepsInv | solutions/d1_flashelf/mm/src/mm_malloc.c:118-209 | an allocation whose rounding does not wrap keeps the whole heap invariant: exact tiling between two allocated guards, chunks of at least 32 bytes on the granule, no two free neighbours, a sorted list of all sentinels and exactly the free chunks, and allocated chunks exactly those of live blocks |
| MmOps.FreeKeepsInv | solutions/d1_flashelf/mm/src/mm_free.c:112-174 | releasing a live block, with its merges to the right and to the left, keeps the same invariant |
| MmRuns.InitInv | solutions/d1_flashelf/mm/src/mm_initialize.c:113-151 | the freshly initialised heap satisfies the invariant |
| MmRuns.Run | solutions/d1_flashelf/mm/src/mm_malloc.c:92-236 | after any sequence of allocations whose rounding does not wrap and releases of live blocks the invariant holds |
| MmRuns.RunGuards | solutions/d1_flashelf/mm/src/mm_initialize.c:113-151 | no run moves or resizes either guard |
| MmRuns.FullCoalescing | solutions/d1_flashelf/mm/src/mm_free.c:117-170 | any run that ends with nothing live, in whatever order blocks were released, ends in exactly the heap mm_initialize built: one free chunk of the region size less two guards, and the same free list |
| MmRuns.NothingLiveMeansInitial | solutions/d1_flashelf/mm/src/mm_initialize.c:135-151 | a heap with no live block has only one possible shape, tiling and list included |
| MmRuns.SortedUnique | solutions/d1_flashelf/mm/src/mm_addfreechunk.c:71-90 | two sorted duplicate-free lists with the same nodes are the same list, if no two nodes may stand in either order |
| MmRuns.InsertBeforeEquals | solutions/d1_flashelf/mm/src/mm_addfreechunk.c:75-83 | a chunk that is added stands before every chunk of its own size and behind every smaller one; the other nodes keep their order |
| MmRuns.HooksInOrder | solutions/d1_flashelf/mm/src/mm_initialize.c:200-205 | the sentinels stand in index order |
| MmRuns.BucketSegments | solutions/d1_flashelf/mm/src/mm_addfreechunk.c:71-90 | a free chunk stands behind sentinel k and before sentinel k + 1 if and only if its size belongs to bucket k |
| MmRuns.SkippedAllTooSmall | solutions/d1_flashelf/mm/src/mm_malloc.c:129-149 | every node up to the sentinel the search starts from is too small for the request |
| MmRuns.MallocComplete | solutions/d1_flashelf/mm/src/mm_malloc.c:103-153 | where rounding does not wrap, NULL is returned if and only if the request is 0 or every free chunk is smaller than the rounded request |
| MmRuns.MallocBestFit | solutions/d1_flashelf/mm/src/mm_malloc.c:144-153 | the chunk taken fits and is no larger than any other free chunk that fits |
| MmRuns.BlockGuarantee | solutions/d1_flashelf/mm/src/mm_malloc.c:118-209 | a live payload lies strictly between the guards, is 16-aligned and holds the request; its chunk exceeds the request by at most 47 bytes |
| MmRuns.BlocksDisjoint | solutions/d1_flashelf/mm/src/mm_malloc.c:177-208 | live blocks are pairwise disjoint, headers included |
| MmRuns.MallocLive | solutions/d1_flashelf/mm/src/mm_malloc.c:177-208 | a successful allocation adds one fresh block for exactly this request and changes no other block |
| MmRuns.MallocFails | solutions/d1_flashelf/mm/src/mm_malloc.c:144-153 | a refused allocation leaves tiling, list and live blocks as they were |
| MmWrap.NullExactly | solutions/d1_flashelf/mm/src/mm_malloc.c:118-153 | for every request of at least 1, wrapping or not: nothing is found if and only if the rounded size is not 0 and every free chunk is smaller than it |
| MmWrap.KeepsInvExactly | solutions/d1_flashelf/mm/src/mm_malloc.c:118-209 | for every request of at least 1: the whole invariant survives if and only if rounding does not wrap, or it wraps to one granule and nothing is free |
| MmWrap.SoundExactly | solutions/d1_flashelf/mm/src/mm_malloc.c:118-209 | for every request of at least 1: tiling and free list survive if and only if rounding does not wrap, or it wraps to one granule and the first free chunk, if any, has 32 bytes |
| MmWrap.NotHonoured | solutions/d1_flashelf/mm/src/mm_malloc.c:118-209 | a wrapped request that is served gets a block smaller than what was asked for |
| MmWrap.ZeroTakesSentinel | solutions/d1_flashelf/mm/src/mm_malloc.c:144-170 | a request rounded to 0 is handed the second sentinel, which the free list loses |
| MmAccounts.BytesConserved | solutions/d1_flashelf/mm/src/mm_mallinfo.c:101-140 | allocated bytes plus free bytes are the bytes from the first guard to the end of the last |
| MmAccounts.FreeListLength | solutions/d1_flashelf/mm/src/mm_mallinfo.c:101-140 | the number of free chunks is the length of the free list without its 19 sentinels |
| MmAccounts.MallocAdds | solutions/d1_flashelf/mm/src/mm_malloc.c:177-208 | an allocation raises the bytes in use by exactly the size of the chunk handed out, whether or not a remainder was split off |
| MmAccounts.FreeSubtracts | solutions/d1_flashelf/mm/src/mm_free.c:112-174 | a release lowers the bytes in use by exactly that size, whatever merges happen |
| MmAccounts.PeakIsMostUsed | solutions/d1_flashelf/mm/src/mm_mallinfo.c:146-163 | over any run from an empty heap the recorded peak is the largest number of bytes in use in any state visited, as soon as one call asked for a non-zero size, and 0 before |
| MmMemory.UnlinkOk | solutions/d1_flashelf/mm/src/mm_malloc.c:164-170 | the two link writes that unlink a node leave exactly the list without it |
| MmMemory.LinkOk | solutions/d1_flashelf/mm/src/mm_addfreechunk.c:79-90 | the link writes that insert a node leave exactly the list with it at that place, and touch only link words of list nodes |
| MmSteps.BlinkNeverNull | solutions/d1_flashelf/mm/src/mm_free.c:133-134 | in every reachable heap each free chunk has a non-null backward link to a node that links forward to it, which the unguarded writes through that link need |
| MmHeap.Heap.AddFreeChunk | solutions/d1_flashelf/mm/src/mm_addfreechunk.c:64-91 | the scan from the bucket sentinel inserts where a scan of the whole list would, and only link words change |
| MmHeap.Heap.Search | solutions/d1_flashelf/mm/src/mm_malloc.c:129-149 | for any rounded size the scan from the bucket sentinel stops at the node a scan of the whole list stops at; for size 0 it stops at the second node |
| MmHeap.Heap.Malloc | solutions/d1_flashelf/mm/src/mm_malloc.c:92-236 | over memory words, for a request whose rounding does not wrap: headers, links and result are what the abstract allocation says, no byte of a live payload changes, the peak is updated for every non-zero size and a new peak reported from the threshold on |
| MmHeap.Heap.Free | solutions/d1_flashelf/mm/src/mm_free.c:69-176 | over memory words: unlinking, boundary tags and reinsertion give exactly the abstract release, and no byte of a remaining payload changes; NULL is ignored |
| MmHeap.Heap.Mallinfo | solutions/d1_flashelf/mm/src/mm_mallinfo.c:74-142 | the walk ends exactly at the last guard; the number of free chunks is the free-list length, the largest of them is reported, used plus free is the heap size |
| MmHeap.Heap.StoreWord | solutions/d1_flashelf/mm/src/mm_malloc.c:177-208 | a client that stores a word in a block it holds leaves the heap valid and everything else in memory as it was |
| MmClients.ClientsKeepMirrors | solutions/d1_flashelf/mm/src/mm_malloc.c:177-208 | whatever clients write inside live payloads, memory still represents the same heap |
| MmClients.WordsStay | solutions/d1_flashelf/mm/src/mm_free.c:112-174 | over any run of allocations, releases and stores a word of a block stays as it is until the block is released or that word is stored again |
| MmHeap.Heap.UpdatePeak | solutions/d1_flashelf/mm/src/mm_mallinfo.c:146-163 | the peak becomes the maximum of itself and the bytes in use and is returned; a new peak at or above the threshold is reported, once |
| MmHeap.Heap.AddRegion | solutions/d1_flashelf/mm/src/mm_initialize.c:88-152 | the heap starts and ends at the multiples of 16 nearest to the ends of the region inside it, with a 16-byte guard at either end and one listed free chunk of all the rest between them |
| MmHeap.Heap.Initialize | solutions/d1_flashelf/mm/src/mm_initialize.c:173-216 | sentinels cleared and chained, then the region added, with the same extent: memory represents the abstract initial heap |
| RingBytes.IndexBound | components/csi/csi2/src/csi_ringbuf.c:108 | the 32-bit index update is the intended slot for every index and fill level if and only if the ring has at most 2^31 bytes |
| RingBytes.StoreAppends | components/csi/csi2/src/csi_ringbuf.c:96-107 | storing in one or two pieces behind the contents appends to them |
| RingBytes.FetchIsPrefix | components/csi/csi2/src/csi_ringbuf.c:132-142 | reading in one or two pieces yields the oldest bytes in order |
| RingBuf.Ring.In | components/csi/csi2/src/csi_ringbuf.c:84-112 | the longest prefix that fits is appended to the queued bytes; its length is returned; 0 when full |
| RingBuf.Ring.Out | components/csi/csi2/src/csi_ringbuf.c:123-148 | the oldest bytes, at most the number asked for, are removed and written in order to the destination only; without destination they are dropped |
| RingBuf.Ring.Move | components/csi/csi2/src/csi_ringbuf.c:158-183 | exactly min(source length, room) bytes go from the front of one ring to the back of a distinct one, in order, in every wrap case of both |
| RingBuf.Ring.Reset | components/csi/csi2/src/csi_ringbuf.c:14-20 | the queue is empty afterwards |
| RingBuf.Ring.Avail | components/csi/csi2/src/csi_ringbuf.c:47-50 | the free room is the size less the number of queued bytes |
| RingBuf.Ring.IsFull | components/csi/csi2/src/csi_ringbuf.c:69-72 | full if and only if as many bytes are queued as the ring has |
| RingProtocol.StepKeepsInv | components/csi/csi2/src/csi_ringbuf.c:84-148 | each single step of producer or consumer (length sample, byte copied, update in the interrupt-disabled section) keeps the protocol invariant and either leaves the queue of an ideal ring alone or appends or removes a whole batch at once |
| RingProtocol.NothingLostOrReordered | components/csi/csi2/src/csi_ringbuf.c:84-148 | under every interleaving the bytes taken are a prefix of the bytes accepted, and the rest is exactly what is queued |
| RingProtocol.NeverSameSlot | components/csi/csi2/src/csi_ringbuf.c:96-107 | the two sides never touch the same slot |
| RingProtocol.ProducerSlotFree | components/csi/csi2/src/csi_ringbuf.c:96-107 | a byte being written goes to a slot that holds no queued byte |
| RingProtocol.ConsumerSlotQueued | components/csi/csi2/src/csi_ringbuf.c:132-142 | a byte being read is the queued byte it stands for |
| RingProtocol.HistoryGrows | components/csi/csi2/src/csi_ringbuf.c:84-148 | what was accepted or taken is never revised by any later step |
| RingCalls.ConsumerChecks | components/csi/csi2/src/csi_ringbuf.c:126-127 | the consumer returns at once if and only if nothing is queued, and otherwise goes on to sample |
| RingCalls.ConsumerSamples | components/csi/csi2/src/csi_ringbuf.c:129-131 | it goes on with exactly min(len, bytes queued then) bytes |
| RingCalls.ProducerChecks | components/csi/csi2/src/csi_ringbuf.c:88-89 | the producer gives up if and only if the ring is full, and otherwise goes on to sample |
| RingCalls.ProducerSamples | components/csi/csi2/src/csi_ringbuf.c:91-92 | it goes on with exactly min(data, room then) bytes |
| RingCalls.OutAlone | components/csi/csi2/src/csi_ringbuf.c:123-148 | a call of csi_ringbuf_out on its own ends, and has taken exactly the first min(len, length) queued bytes |
| RingCalls.InAlone | components/csi/csi2/src/csi_ringbuf.c:84-112 | a call of csi_ringbuf_in on its own ends, and has added exactly the first min(length, room) bytes of its data |
| RingCalls.OutFinishes | components/csi/csi2/src/csi_ringbuf.c:132-147 | once it has sampled n, whatever the producer does in between, enough steps of the consumer end the call with exactly the n bytes taken that were first then |
| RingCalls.OutFromCheck | components/csi/csi2/src/csi_ringbuf.c:123-148 | a whole call with the producer at work in between ends with at least what was queued when it began, at most len |
| RingCalls.InFromCheck | components/csi/csi2/src/csi_ringbuf.c:84-112 | a whole call with the consumer at work in between ends with a prefix of the data added, at least as long as there was room for when it began |
| RingProtocol.PublishFits | components/csi/csi2/src/csi_ringbuf.c:106-109 | that room still suffices when the call publishes, whatever the other side did in between |
| Mailbox.LittleEndian | components/chip_d1/drivers/mailbox.c:30 | a word is queued least significant byte first |
| Mailbox.WordsStayWhole | components/chip_d1/drivers/mailbox.c:14-33 | while every receive asks for a multiple of 4 bytes, each incoming word is queued whole or dropped whole, and bytes received plus bytes queued are the accepted words in order |
| Mailbox.ReceivedWord | components/chip_d1/drivers/mailbox.c:83-90 | the k-th word received is the k-th word accepted |
| Mailbox.TornExactly | components/chip_d1/drivers/mailbox.c:25-33 | a delivery cuts a word if and only if one to three bytes are free |
| Mailbox.OddReceiveTears | components/chip_d1/drivers/mailbox.c:83-90 | a concrete run with a two-byte receive after which half a word is queued |
| Mailbox.Driver.Deliver | components/chip_d1/drivers/mailbox.c:25-33 | with a callback attached the word goes to the ring as far as it fits, and the callback is told once, with the word queued; without one it is ignored |
| Mailbox.Driver.Receive | components/chip_d1/drivers/mailbox.c:83-90 | at most the bytes queued are handed out, oldest first, and leave the ring |
| PrintfRoundTrip.LowDigitsDenote | solutions/d1_flashelf/libc/stdio2/printf.c:318-324 | the digits kept denote the value modulo base^32 |
| PrintfRoundTrip.DigitsExact | solutions/d1_flashelf/libc/stdio2/printf.c:318-324 | they denote the value itself if and only if it is below base^32 |
| PrintfRoundTrip.Anatomy | solutions/d1_flashelf/libc/stdio2/printf.c:226-304 | the text of any conversion is padding, sign, prefix with digits and padding, with exactly these counts |
| PrintfHash.RoundTrip | solutions/d1_flashelf/libc/stdio2/printf.c:254-328 | for every base, width, precision and set of flags: parsing the text back, prefix included, gives sign and value if and only if the value is below base^32, # does not take the place of digits or have its own prefix cut, and a negative number has room for its sign in the 32-byte buffer |
| PrintfRoundTrip.UsualRoundTrip | solutions/d1_flashelf/libc/stdio2/printf.c:254-328 | every 64-bit value reads back in bases 8 to 16 with a precision below 32 and a zero-padded width up to 32 |
| PrintfRoundTrip.PrecisionHonoured | solutions/d1_flashelf/libc/stdio2/printf.c:257-264 | as many digits as the precision asks for appear if and only if the value has them anyway, or - is absent and the precision is at most 32 |
| PrintfRoundTrip.WidthHonoured | solutions/d1_flashelf/libc/stdio2/printf.c:226-304 | with any flags the field width is reached if and only if zero padding does not have to go beyond the buffer |
| PrintfStandard.SameExactly | solutions/d1_flashelf/libc/stdio2/printf.c:226-328 | digits, precision, sign, padding: for any base, flags, width and precision without #, the code prints exactly the text section 7.21.6.1 asks for if and only if the number has at most 32 digits, with - the precision asks for no more digits than it has, and otherwise the precision (with a sign) or the zero-padded width fits in the 32-byte buffer |
| PrintfStandard.IntExactly | solutions/d1_flashelf/libc/stdio2/printf.c:711-785 | the same for each integer conversion, in the base and case of its letter, on the argument itself or on what a short length field makes of it, with + and space for signed conversions only |
| PrintfStandard.StandardReadsBack | solutions/d1_flashelf/libc/stdio2/printf.c:254-328 | the text asked for always reads back as its number |
| PrintfStandard.CharInField | solutions/d1_flashelf/libc/stdio2/printf.c:803-821 | %c: the character in a field of at least one column, spaces on the side - selects |
| PrintfStandard.StrInField | solutions/d1_flashelf/libc/stdio2/printf.c:823-847 | %s: as much of the string as the precision allows in a field of its width, spaces on the side - selects |
| PrintfWhole.WholeFormat | solutions/d1_flashelf/libc/stdio2/printf.c:604-884 | a whole format of literal text and directives, %% included, prints the literal text and, argument by argument, exactly what each directive asks for, whenever every integer directive conforms |
| PrintfWhole.ItemsRendered | solutions/d1_flashelf/libc/stdio2/printf.c:604-884 | the same for any part of a format, wherever it stands |
| PrintfWhole.WholeWellFormed | solutions/d1_flashelf/libc/stdio2/printf.c:604-884 | the interpreter may be called with every such format |
| PrintfReadBack.DirectiveReadsBack | solutions/d1_flashelf/libc/stdio2/printf.c:711-785 | an integer conversion without # reads back, in the base of its letter, as the argument itself, or as the number congruent to it that lies in the range of a short type; in base 2 for numbers below 2^32 |
| PrintfReadBack.HashReadsBack | solutions/d1_flashelf/libc/stdio2/printf.c:711-785 | with # an octal, hexadecimal or binary conversion reads back if and only if the number fits, the prefix takes no digits away and is not cut itself |
| PrintfReadBack.IntegerReadsBack | solutions/d1_flashelf/libc/stdio2/printf.c:604-785 | wherever such a directive is written in a format, with width and precision in the format or among the arguments, its part of the whole output reads back in the same way and the output goes on behind it |
| PrintfReadBack.OneIntegerReadsBack | solutions/d1_flashelf/libc/stdio2/printf.c:604-884 | a format that is one such directive reads back in the same way |
| PrintfReadBack.PointerReadsBack | solutions/d1_flashelf/libc/stdio2/printf.c:849-865 | a pointer reads back from its hexadecimal digits; a plain %p has exactly sixteen |
| PrintfReadBack.BinaryReadsBack | solutions/d1_flashelf/libc/stdio2/printf.c:711-785 | a binary directive reads back if and only if the number is below 2^32 |
| PrintfReadBack.ByteShowsUnsigned | solutions/d1_flashelf/libc/stdio2/printf.c:762-763 | a concrete case: %hhd of -1 shows 255 |
| PrintfReadBack.LongReadsBack | solutions/d1_flashelf/libc/stdio2/printf.c:604-884 | "%ld" in particular: every long above the minimum comes back |
| PrintfReadBack.IntReadsBack | solutions/d1_flashelf/libc/stdio2/printf.c:604-884 | "%d" in particular: every int above the minimum comes back |
| PrintfHash.HashAnatomy | solutions/d1_flashelf/libc/stdio2/printf.c:254-304 | with # the text is padding, sign, prefix, the digits kept and padding, with exactly these counts |
| PrintfHash.HashKeepsDigits | solutions/d1_flashelf/libc/stdio2/printf.c:269-290 | with # the digits of a positive value survive the prefix if and only if there is a precision, or digits and zeros do not just fill the field, or at least as many zeros as the prefix replaces are there |
| PrintfHash.PrecisionIgnored | solutions/d1_flashelf/libc/stdio2/printf.c:257-264 | a concrete case: precision 5 with - leaves the 7 as it is |
| PrintfHash.WidthCut | solutions/d1_flashelf/libc/stdio2/printf.c:264-266 | a concrete case: zero padding to 40 columns stops at 32 |
| PrintfHash.SignLost | solutions/d1_flashelf/libc/stdio2/printf.c:292-301 | a concrete case: precision 32 loses the minus sign |
| PrintfHash.BinaryLost | solutions/d1_flashelf/libc/stdio2/printf.c:318-324 | a concrete case: 2^32 in base 2 reads back as 0 |
| PrintfHash.HashLosesDigits | solutions/d1_flashelf/libc/stdio2/printf.c:269-290 | a concrete case: 0x1234 under %#4x comes out as 0x34 |
| PrintfRoundTrip.TopDigit | solutions/d1_flashelf/libc/stdio2/printf.c:318-324 | the most significant digit written for a positive value below base^32 is not zero |
| PrintfInts.Sink.Put | solutions/d1_flashelf/libc/stdio2/printf.c:160-165 | a character is stored at its index only below the bound; beyond it is only counted |
| PrintfInts.EmitReversed | solutions/d1_flashelf/libc/stdio2/printf.c:226-250 | what is emitted is the padded reversal of the conversion buffer |
| PrintfInts.FormatTo | solutions/d1_flashelf/libc/stdio2/printf.c:254-304 | zero padding, # prefix and sign are added in the 32-byte buffer, never past its end, and the result emitted |
| PrintfInts.DigitsTo | solutions/d1_flashelf/libc/stdio2/printf.c:318-324 | the digit loop writes at least one and at most 32 digits, least significant first |
| PrintfInts.NtoaTo | solutions/d1_flashelf/libc/stdio2/printf.c:308-353 | the emitted text is the one the round-trip results are about, whatever the bound of the sink |
| PrintfCode.Atoi | solutions/d1_flashelf/libc/stdio2/printf.c:215-222 | the result is the number written by the longest run of digits, modulo 2^32, and the position is just behind that run |
| PrintfDirective.NumberRead | solutions/d1_flashelf/libc/stdio2/printf.c:215-222 | the field parser for numbers reads the longest run of digits to its value modulo 2^32 |
| PrintfDirective.DirectiveParsed | solutions/d1_flashelf/libc/stdio2/printf.c:628-706 | printing and parsing a directive: every directive whose numbers are below 2^32, written anywhere in a format, is parsed to exactly the flags, width, precision, length and conversion it means, at the position of its conversion character, with the arguments its stars leave |
| PrintfCode.EvalSpec | solutions/d1_flashelf/libc/stdio2/printf.c:628-706 | for every directive that stands at the position, the result is what the directive means, the position of its conversion character and the arguments left |
| PrintfCode.EmitStr | solutions/d1_flashelf/libc/stdio2/printf.c:823-847 | a string is cut to its precision and padded to its width on the side - selects |
| PrintfCode.Interpret | solutions/d1_flashelf/libc/stdio2/printf.c:604-884 | for every well-formed format the characters sent out are the whole rendered text |
| PrintfCode.Snprintf | solutions/d1_flashelf/libc/stdio2/printf.c:604-917 | the returned length does not depend on buffer or count, nothing at or beyond count changes, and the buffer holds the first min(count - 1, n) characters and a terminator |
| PrintfCode.ToIntMeans | solutions/d1_flashelf/libc/stdio2/printf.c:882-883 | the length returned is the number of characters up to the largest int, and always congruent to it modulo 2^32 |
| Printi.Prints | solutions/d1_flashelf/libc/stdio/printf.c:23-64 | the text and count of a padded string |
| Printi.DigitsBackward | solutions/d1_flashelf/libc/stdio/printf.c:87-99 | the backward fill never reaches the front of the buffer and leaves the digits most significant first |
| Printi.PrintInt | solutions/d1_flashelf/libc/stdio/printf.c:69-112 | the text and count for bases 10 and 16, signed or not |
| Printi.PrintiExactly | solutions/d1_flashelf/libc/stdio/printf.c:23-112 | in base 10, signed or not, and in base 16 in either case, the text is exactly the one asked for if and only if - is not combined with a 0 that would have to pad; a negative number that is not printed as one stands for itself plus 2^64 |
| Printi.PrintersAgree | solutions/d1_flashelf/libc/stdio/printf.c:23-112 | for base 10, signed or not, and base 16 in either case, the two printers emit the same text if and only if zero padding is at most 32 wide and - is not combined with zeros that would pad |
| Printi.PrintersDiffer | solutions/d1_flashelf/libc/stdio/printf.c:23-64 | a concrete case: 7 in three columns with - and 0 is 700 for one printer and 7 with two spaces for the other |
| IrqModel.RunConsistent | components/chip_d1/sys/d1/interrupt.c:122-189 | after any requests and frees a line is on with counter 1 if its chain is non-empty, and off with counter 0 if it is empty |
| IrqModel.ChainIs | components/chip_d1/sys/d1/interrupt.c:122-189 | over any run a line's chain is the requests in order without, for each free that found one, the earliest action of its device; actions of different devices keep their order |
| IrqModel.KeepOneLess | components/chip_d1/sys/d1/interrupt.c:335-380 | one more free of a device takes the earliest action of that device that is left |
| IrqModel.ChainIsRequestsMinusFreed | components/chip_d1/sys/d1/interrupt.c:335-380 | in particular the actions of one device are its requests in order less as many of the earliest as were freed |
| IrqModel.OfWithout | components/chip_d1/sys/d1/interrupt.c:347-366 | freeing a device takes the first of its actions and none of any other device |
| IrqModel.SuspendResume | components/chip_d1/sys/d1/interrupt.c:578-620 | suspending turns off exactly the lines with an action that allows it, and resuming with no change in between restores every line |
| IrqTable.Cpu.Unlock | components/chip_d1/sys/d1/irqflags.h:62-65 | restoring flags can only unmask, so an inner section never unmasks inside an outer one |
| IrqTable.Desc.Setup | components/chip_d1/sys/d1/interrupt.c:122-189 | the action is appended at the tail of an acyclic chain, counter 1 and enabled; interrupts stay masked through the inner lock section and are as before after the outer one only |
| IrqTable.Desc.FreeAction | components/chip_d1/sys/d1/interrupt.c:335-380 | the walk through the pointer to a pointer unhooks and returns the earliest action of the device, which is no longer on the chain; the last one leaves the line off; NULL if and only if there is none; interrupts stay masked until the outer unlock |
| IrqTable.Desc.HandleLevel | components/chip_d1/sys/d1/interrupt.c:59-84 | for a line with n actions exactly n + 1 events: event k is the call of the k-th handler with its device, in registration order, and the last is the end of interrupt |
| IrqTable.Desc.ToggleSuspendable | components/chip_d1/sys/d1/interrupt.c:578-620 | the loop over the actions of one line toggles it if and only if it is counted and some action may be suspended |
| IrqTable.Table.RequestIrq | components/chip_d1/sys/d1/interrupt.c:191-276 | an unshared request succeeds if and only if the line is below 100, there are a handler and memory, and no conditional suspend is asked for; a shared one if and only if it has these and a device and does not ask for conditional suspend and no suspend together; only that line changes; a shared handler is tried once |
| IrqTable.Table.FreeIrq | components/chip_d1/sys/d1/interrupt.c:397-420 | true if and only if the line has an action of the device; other lines keep theirs |
| IrqTable.Table.HandleIrq | components/chip_d1/sys/d1/interrupt.c:278-289 | these events for the line dispatched; nothing and -1 outside the table |
| IrqTable.Table.ToggleAll | components/chip_d1/sys/d1/interrupt.c:578-620 | every line becomes its suspended or resumed form, and the interrupt mask is restored |
| ListHead.AddBetween | components/chip_d1/melis/include/hal/aw_list.h:43-51 | a new entry between two neighbours gives the ring with it in that place, linked both ways |
| ListHead.DelEntry | components/chip_d1/melis/include/hal/aw_list.h:92-108 | the ring without the entry, linked both ways |
| ListHead.Del | components/chip_d1/melis/include/hal/aw_list.h:110-115 | the ring without the entry, whose own links are poisoned |
| ListHead.MoveTail | components/chip_d1/melis/include/hal/aw_list.h:170-175 | the entry leaves its list and ends up last on the other; both stay rings |
| ListHead.RotateLeft | components/chip_d1/melis/include/hal/aw_list.h:220-228 | the first entry becomes the last; an empty list stays empty |
| ListHead.EmptyMeans | components/chip_d1/melis/include/hal/aw_list.h:192-237 | the link tests for empty and singular lists hold if and only if the ring has 0 or 1 entries |
| ListHead.CutPosition | components/chip_d1/melis/include/hal/aw_list.h:239-277 | a non-empty list is split just behind any of its nodes, head included, into two rings; an empty one, and one whose only entry is another than the one given, stay untouched with the other head |
| ListHead.Splice | components/chip_d1/melis/include/hal/aw_list.h:279-303 | the entries of one list go in front of those of the other, as one ring |
| ListHead.SpliceTailInit | components/chip_d1/melis/include/hal/aw_list.h:341-349 | they go behind those of the other, and their own list is empty afterwards |
| ListHead.CutThenSplice | components/chip_d1/melis/include/hal/aw_list.h:239-303 | cutting and splicing back leaves every forward and backward link of the list as it was |
| LeakModel.HashBits | solutions/d1_flashelf/mm/src/mm_leak.c:34-40 | the bucket is given by bits 3 to 6 of the address, each flipped by the bit eleven places above it |
| LeakModel.RunKeeps | solutions/d1_flashelf/mm/src/mm_leak.c:107-115 | after any adds of new and deletes of present headers every bucket lists exactly the live headers its hash names, each once |
| LeakModel.EachOnce | solutions/d1_flashelf/mm/src/mm_leak.c:107-115 | over all 16 buckets together every live header appears exactly once |
| LeakModel.NearestMeans | solutions/d1_flashelf/mm/src/mm_leak.c:313-345 | no answer on a side means there is no live header on that side |
| LeakIndex.Queue.AddLast | solutions/d1_flashelf/mm/src/dq_addlast.c:54-69 | the node becomes the last of the doubly linked queue |
| LeakIndex.Queue.Rem | solutions/d1_flashelf/mm/src/dq_rem.c:54-79 | the node leaves the queue, at the head, the tail or between, and its own links are cleared |
| LeakIndex.Index.AddChunk | solutions/d1_flashelf/mm/src/mm_leak.c:107-110 | the header joins the bucket its address names; the index stays exact |
| LeakIndex.Index.DelChunk | solutions/d1_flashelf/mm/src/mm_leak.c:112-115 | the header leaves its bucket; the index stays exact |
| LeakIndex.Index.SearchChunk | solutions/d1_flashelf/mm/src/mm_leak.c:313-345 | the greatest live header below the address and the least above it, however the blocks hash |
| LeakIndex.Index.Lookup | solutions/d1_flashelf/mm/src/mm_leak.c:244-254 | the walk of a single bucket finds the live block whose payload starts at the word if and only if there is one |
| LeakIndex.Index.MarkReferenced | solutions/d1_flashelf/mm/src/mm_leak.c:234-242 | exactly that block is marked |

## Left out

- MmHeap.Heap.Malloc: takes only requests whose rounding does not wrap at 2^64; the code does not check. The writes it makes for the others are modelled on values only, in `MmWrap`, with the exact condition under which the heap survives them.
- MmOps.MallocKeepsInv: the same; `MmWrap.KeepsInvExactly` covers every request.
- MmRuns.Run: the same; a run goes on only while the invariant holds.
- MmRuns.MallocComplete: the same; `MmWrap.NullExactly` covers every request.
- MmHeap.Heap.UpdatePeak: reports a peak as an event; the list of blocks that is printed with it is not part of the model.
- MmHeap.Heap.StoreWord: stores whole words; narrower stores by clients are covered by `MmClients.ClientsKeepMirrors` only as changes of whole words.
- PrintfCode.Interpret: does not model floating point, formats that end inside a directive (the code then reads past the terminator), or arguments that equal the least value of a signed type (negating it is undefined in C).
- PrintfCode.Snprintf: leaves out the same formats and arguments.
- PrintfDirective.DirectiveParsed: does not cover a literal width of zero, which the code takes for a flag.
- PrintfStandard.IntExactly: takes %hhd as the code does, by a cast to char, which is unsigned on this target, so it shows -1 as 255.
- PrintfWhole.WholeFormat: covers %p without flags and integer directives that conform; for the others `PrintfReadBack` and `PrintfHash` say what is printed.
- Printi.PrintInt: does not take the least long as a signed decimal, because negating it is undefined in C.
- IrqTable.Table.RequestIrq: does not model the action's name, which is only copied for display, the thread function, which the code ignores, or a handler that frees itself.
- LeakIndex.Index.SearchChunk: returns the two headers the code prints; the check for corrupted headers on the way is not part of the model.
- The magic numbers and tail words of the heap's error detection: on a 64-bit build the magic is truncated to a truth value and the tail loop writes past the tail, so the intended check does not hold.
- Leak snapshots and scanning of memory areas, which depend on linker symbols and allocate while walking; only the lookup of one word is modelled.
- `realloc`, which copies as many bytes as the new size from the old block, and the other wrappers of the C library, which add only easy facts.
- More than one heap region, the 16-bit heap layout, and the heap semaphores, whose macros expand to nothing.
- A ring moved into itself, and a ring reset while another call is under way.
- `printf` and `sprintf` over stdio/printf.c, which echo each character to the console; only `prints` and `printi` matter for the integers, and the base of `printi` is 10 or 16 as its callers have it.
- Explicit enabling and disabling of lines by drivers; with them the counter is not tied to the chain.
- The register addresses of the interrupt controller, the control registers of the processor, and line 0, whose enable bit the controller's initialisation does not touch.
- Sending through the mailbox, which only calls the hardware layer.
- The flash, UART, fuse, GPIO, SPI, I2C, RTC, PWM, touch, codec and wireless drivers, which are thin wrappers over hardware code that is not part of this model.
- The second copy of the ring buffer under components/csi/csi1, which is the same text.
