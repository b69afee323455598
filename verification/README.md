# Implicit free-list allocator (malloc-lab mm.c) in Dafny

A model of the allocator in `malloc-lab/mm.c`, with proofs about it. The
allocator carves a heap obtained from `mem_sbrk` into blocks. Each block
carries a 4-byte header and a 4-byte footer, and both hold the block size
with the allocation bit in bit 0 (boundary tags). An allocated prologue
block of 8 bytes opens the heap. A size-0 allocated epilogue header closes
it. Requests are served by a next-fit search that starts at the global
`rover`. A found block is split when the rest is at least a minimum block
of 16 bytes. Freed blocks are coalesced at once with free neighbours. The
heap grows by at least CHUNKSIZE (4096) bytes when nothing fits.
`mm_realloc` allocates, copies and frees.

The header comment of `mm.c` says the search is first-fit. The code is
next-fit: the first-fit loop survives only as a comment. The model follows
the code. The first-fit loop is kept as the reference definition
`NextFitSearch.FirstFit`. `Scenarios.NextFitAfterFree` proves the
outcome of a sequence of calls from `mm_init` where the two differ. In that sequence, a request
after `free` is carved from the block at `rover` instead of reusing the
freed block.

## How it is modelled

- **Words.** The heap is `seq<Word>`, with `Word` the naturals below 2^32.
  Addresses are byte offsets from the start of the region, and word `i`
  holds bytes `4i..4i+3`. NULL is `None` of `Option`.
- **Macros.** `GET`, `PUT`, `HDRP`, `FTRP`, `NEXT_BLKP` and `PREV_BLKP` are
  functions on this sequence. `PACK`, `GET_SIZE` and `GET_ALLOC` are exact
  arithmetic on 32-bit words (`Tags`).
- **Globals.** `heap_listp` and `rover` are fields of the state value
  `HeapState.Heap`.
- **Abstraction.** `Layout.Walk` walks the chain by `NEXT_BLKP` and checks
  both tags of every block. Its result, `View`, is the chain of blocks as a
  `seq<Block>`. `Layout.LaidOut` is the inverse description: it gives the
  words the chain occupies. `Layout.LayoutUnique` ties the two together.
- **Invariant.** `HeapState.Valid` holds when:
  - the region has the prologue, a chain and the epilogue, within MAX_HEAP;
  - every block is at least the 16-byte minimum block (`BlockList.MinSized`);
  - no two neighbouring blocks are free;
  - `rover` is the start of a block or of the epilogue.

  Every public operation preserves `Valid`.
- **Client view.** `HeapState.Live` maps each allocated payload address to
  its block size.
- **Payloads.** `HeapState.PayloadsKept` says that the payload words of
  every block that stays allocated are the same after an operation.
  `mm_malloc`, `mm_free`, `coalesce`, `place` and `extend_heap` all
  promise it, so no tag write lands in a live payload. The bytes a client
  keeps in a payload are therefore kept apart from the heap words, in a
  map from each live address to its bytes (`Reallocation`).
- **mem_sbrk.** It is a pure function that appends words to the region, or
  fails when the region would pass MAX_HEAP = 20 MiB (`MemLib.Sbrk`).

Modules follow the file's structure:

| file | module | contents |
|---|---|---|
| `tags.dfy` | `Tags` | constants and the tag codec |
| `options.dfy` | `Options` | `Option` |
| `memlib.dfy` | `MemLib` | `mem_sbrk` |
| `blocklist.dfy` | `BlockList` | chains of blocks: sums, splicing, the allocated map |
| `layout.dfy` | `Layout` | words, macros, layout, walk |
| `state.dfy` | `HeapState` | state and invariant |
| `coalesce.dfy` | `Coalescing` | coalesce |
| `findfit.dfy` | `NextFitSearch` | find_fit |
| `place.dfy` | `Placement` | place |
| `extend.dfy` | `Extension` | extend_heap |
| `free.dfy` | `Release` | mm_free |
| `malloc.dfy` | `Allocation` | mm_init, mm_malloc |
| `realloc.dfy` | `Reallocation` | mm_realloc |
| `scenario.dfy` | `Scenarios` | sequences of calls from mm_init |

## Model

| member | source | states |
|---|---|---|
| Tags.Pack | malloc-lab/mm.c:46 | For every size that is a multiple of 8, GET_SIZE of PACK(size, a) gives back the size and GET_ALLOC gives back the bit (the tag round trip). |
| Tags.GetSize | malloc-lab/mm.c:53 | The size read from a tag is the largest multiple of 8 not above the tag. |
| Tags.GetAlloc | malloc-lab/mm.c:54 | The allocation bit is 0 or 1, and it is the tag's parity. |
| Tags.Max | malloc-lab/mm.c:45 | MAX is an upper bound of both arguments and equals one of them. |
| MemLib.Sbrk | malloc-lab/mm.c:114 | mem_sbrk fails exactly when the request is negative or would pass MAX_HEAP. Otherwise it returns the old break, the region grows by the request, and the old words are kept. |
| Layout.Put | malloc-lab/mm.c:50 | PUT stores the value at the address and keeps the region's length. |
| Layout.PutOther | malloc-lab/mm.c:50 | PUT leaves every other word unchanged. |
| Layout.Walk | malloc-lab/mm.c:188-194 | When walking from a payload address by NEXT_BLKP to the epilogue succeeds, the blocks it returns lie back to back from that address, and the epilogue ends the region right after them. |
| Layout.LayoutUnique | malloc-lab/mm.c:56-62 | A region laid out as a chain of blocks has exactly that chain as its view, so the tags determine the chain. |
| Layout.HeaderRead | malloc-lab/mm.c:53-57 | HDRP of block k holds PACK(size, alloc) of that block. Past the last block it holds the epilogue tag PACK(0, 1). |
| Layout.FooterRead | malloc-lab/mm.c:58-61 | FTRP of a block is 8 bytes before the next block and holds the same tag as the header. NEXT_BLKP leads to the next block. |
| Layout.PrevRead | malloc-lab/mm.c:62 | PREV_BLKP, read through the previous footer, leads to the previous block. From the first block it leads to the prologue. |
| Layout.PrologueNext | malloc-lab/mm.c:97 | NEXT_BLKP(heap_listp) is the first block of the chain. |
| Layout.SetTags | malloc-lab/mm.c:117-118 | Writing the header and then the footer (found through the new header) lays out exactly that block. |
| Layout.SetTagsFrame | malloc-lab/mm.c:117-118 | Writing a block's two tags changes no word outside the block. |
| Layout.PayloadFrame | malloc-lab/mm.c:143-161 | When tags are written only inside a run of blocks, the payload words of every block outside the run are unchanged. |
| HeapState.ValidInvariant | malloc-lab/mm.c:6-9 | In a valid heap every block size is a multiple of 8 and at least the 16-byte minimum block, and every header equals its footer. The epilogue PACK(0, 1) sits in the last word, right after the last block. |
| HeapState.KeptAround | malloc-lab/mm.c:143-161 | If the words before a run of blocks and after it are kept, and no allocated block of the run is still allocated at the same address, then every block allocated before and after keeps its payload words. |
| HeapState.KeptTrans | malloc-lab/mm.c:282-292 | Keeping payloads composes over two steps, for the blocks allocated throughout. |
| Coalescing.MergedSpec | malloc-lab/mm.c:140-161 | Case by case: the merged block has the combined size of the block and its free neighbours, and the blocks around it are untouched. The chain covers the same bytes, no two neighbours are free any more, and the allocated blocks are unchanged. |
| Coalescing.AbsorbNext | malloc-lab/mm.c:143-147 | Case 2: after the two tag writes, the region is laid out as the merged chain. No word outside the merged run changes. |
| Coalescing.AbsorbPrev | malloc-lab/mm.c:148-153 | Case 3: after the two tag writes, the region is laid out as the merged chain, and the result is the previous block. No word outside the merged run changes. |
| Coalescing.AbsorbBoth | malloc-lab/mm.c:154-161 | Case 4: after the two tag writes, the region is laid out as the merged chain, and the result is the previous block. No word outside the merged run changes. |
| Coalescing.Coalesce | malloc-lab/mm.c:131-164 | The invariant is restored and the chain becomes the merged chain. The result is the merged block. In case 1 the heap, rover included, is unchanged. Otherwise rover is the merged block. The allocated blocks are unchanged, and so are their payload words. |
| Coalescing.Unmerged | malloc-lab/mm.c:139-141 | Case 1: when neither neighbour is free, the chain is already the merged chain and the heap is valid as it stands. |
| Coalescing.Absorb | malloc-lab/mm.c:142-163 | Cases 2 to 4, chosen by the allocation bits read: the chain becomes the merged chain, and rover and the result are the merged block. The allocated blocks are unchanged, and so are their payload words. |
| Coalescing.MergeKept | malloc-lab/mm.c:143-161 | The merging tag writes fall inside the run of free blocks being merged, so every allocated block keeps its payload words. |
| NextFitSearch.FirstFit | malloc-lab/mm.c:177-184 | First fit over a range returns the first free block large enough, and no earlier one fits. It returns none exactly when no block of the range fits. |
| NextFitSearch.NextFitSpec | malloc-lab/mm.c:186-200 | Next fit fails exactly when first fit over the whole chain fails. It finds the first fitting block from rover on, or else the first one before rover. |
| NextFitSearch.NextFitFromFront | malloc-lab/mm.c:177-197 | With rover at the first block, next fit is first fit. |
| NextFitSearch.NextFitSkipsFreed | malloc-lab/mm.c:186-197 | On the chain of a free 112-byte block, an allocated 48-byte block and a free rest with rover on the rest, next fit picks the rest for a 104-byte block while first fit would pick the front block. |
| NextFitSearch.ScanToEnd | malloc-lab/mm.c:188-191 | The first loop returns first fit from rover to the epilogue. |
| NextFitSearch.ScanFront | malloc-lab/mm.c:194-197 | The second loop returns first fit from the first block up to rover. |
| NextFitSearch.FindFit | malloc-lab/mm.c:170-201 | find_fit returns the block next fit chooses from rover, and that block's position is the next-fit index. It returns NULL exactly when no free block is large enough. A returned block is free and large enough. |
| Placement.Carve | malloc-lab/mm.c:211-223 | A placement splits the block exactly when the rest is at least 2*DSIZE. The first part is always the allocated one. |
| Placement.CarveSpec | malloc-lab/mm.c:207-224 | The carved parts cover exactly the free block and hand out at least asize bytes: exactly asize when split, the whole block otherwise. A split-off rest is a free block of at least 16 bytes. |
| Placement.PlaceSplit | malloc-lab/mm.c:211-218 | The four tag writes lay out an allocated block of asize bytes followed by a free block of the rest. rover points at the rest. No word outside the placed block changes. |
| Placement.PlaceWhole | malloc-lab/mm.c:219-222 | The two tag writes mark the whole block allocated. rover points at the next block. No word outside the placed block changes. |
| Placement.Place | malloc-lab/mm.c:207-224 | place keeps the invariant and replaces the block by its carved parts. rover is the block right after the allocated part. The allocated map gains exactly the placed block, and every other allocated block keeps its payload words. |
| Placement.PlaceKept | malloc-lab/mm.c:211-222 | The tag writes of place fall inside the free block being placed, so every allocated block keeps its payload words. |
| Extension.ExtendSize | malloc-lab/mm.c:111 | The size is the word count rounded up to an even number of words, in bytes: a multiple of 8, less than 8 above the request. |
| Extension.GrownMerged | malloc-lab/mm.c:121-124 | Coalescing the appended free block merges it into a free last block, or leaves it as the new last block. |
| Extension.NewFreeBlock | malloc-lab/mm.c:116-119 | The new space becomes one free block whose header replaces the old epilogue, followed by a new epilogue in the last word. No word before the old epilogue changes. |
| Extension.AppendFree | malloc-lab/mm.c:116-121 | After the three tag writes on the grown region, the chain is the old chain plus one free block of the new size, rover is on it, the allocated blocks are the same and their payload words are kept. |
| Extension.GrowKept | malloc-lab/mm.c:113-118 | Growing the region and writing the new block's tags keeps the payload words of every allocated block. |
| Extension.ExtendHeap | malloc-lab/mm.c:105-125 | For a request of at least 4 words (both callers pass 1024 or more, mm.c:94 and mm.c:252), extend_heap returns NULL exactly when mem_sbrk refuses, and then nothing changes. Otherwise the region grows by the rounded size and the chain is the grown chain. The result and rover are the last block, and the allocated blocks are unchanged, payload words included. |
| Allocation.AdjustedSize | malloc-lab/mm.c:236-241 | The adjusted size is the least multiple of 8 that holds the request plus 8 bytes of tags and is at least 16. |
| Allocation.AdjustedSizeAsWritten | malloc-lab/mm.c:237-241 | The same computation in 64-bit size_t arithmetic stays a multiple of 8 within size_t. |
| Allocation.AdjustedSizeAgrees | malloc-lab/mm.c:241 | Unless size + 15 overflows size_t, the size_t computation gives the intended adjusted size. |
| Allocation.AdjustedSizeWraps | malloc-lab/mm.c:241 | For requests of SIZE_MAX - 7 and SIZE_MAX the size_t computation gives 0 and 8, below the intended sizes. |
| Allocation.ExtendSizeExact | malloc-lab/mm.c:251-252 | Passing a multiple of 8 to extend_heap as a word count asks for exactly that many bytes. |
| Allocation.NoHugeFit | malloc-lab/mm.c:244-253 | No block of a valid heap fits a request larger than MAX_HEAP minus the prologue. |
| Allocation.Serve | malloc-lab/mm.c:245-247 | Placing in a fitting block gives a fresh, 8-aligned allocated block of at least asize bytes, less than 16 bytes over. The block is carved in place, rover is the block after it, and other payloads are kept. |
| Allocation.MmMalloc | malloc-lab/mm.c:230-256 | The invariant holds after every request, and a request of 0 gives NULL. On NULL nothing changes. A success is a fresh, aligned allocated block of at least the adjusted size; no other block changes, and neither do their payload words. When next fit finds block k, the result is block k, the heap does not grow, the chain is the old chain with block k carved, and rover is block k + 1. Otherwise the heap grows by MAX(asize, CHUNKSIZE), NULL comes exactly when that is refused, and on success the last block of the grown chain is carved with rover after it. |
| Allocation.InitLayout | malloc-lab/mm.c:87-93 | The padding, the prologue's two tags and the epilogue form a region with an empty chain. |
| Allocation.MmInit | malloc-lab/mm.c:82-99 | After mm_init the heap is valid, with one free block of CHUNKSIZE bytes. rover is that block and nothing is allocated. |
| Release.Freed | malloc-lab/mm.c:265-267 | Clearing the bit marks exactly block k free with its size kept. Every other block is unchanged. |
| Release.FreedSpec | malloc-lab/mm.c:265-268 | Freeing an allocated block keeps the chain well sized, and only its own neighbours may now be free next to it. It leaves the allocated map and nothing else does. |
| Release.MmFree | malloc-lab/mm.c:261-269 | mm_free(NULL) changes nothing. Otherwise, as `Release.Released` states, the invariant holds, the chain is the freed-then-merged chain, and exactly that block leaves the allocated map. With no free neighbour rover stays on its block; otherwise rover is the merged block. The other allocated blocks keep their payload words. |
| Release.UnmarkKept | malloc-lab/mm.c:265-267 | The two tag writes of mm_free fall inside the freed block, so every block still allocated keeps its payload words. |
| Reallocation.PayloadSize | malloc-lab/mm.c:287 | The old payload size is the block size minus the two tags. |
| Reallocation.MallocData | malloc-lab/mm.c:279 | realloc(NULL, size) is mm_malloc(size), with every promise of mm_malloc, and the new payload is unwritten. |
| Reallocation.MallocKept | malloc-lab/mm.c:230-256 | Whatever mm_malloc returns, the blocks that stay allocated keep their payload words. |
| Reallocation.FreeData | malloc-lab/mm.c:280 | realloc(p, 0) is mm_free(p) with everything mm_free promises (`Release.Released`): the chain is the freed-then-merged chain, the region keeps its length, rover moves as mm_free moves it, and exactly p leaves the allocated map. Its payload goes with it, and the other payloads' words are kept. |
| Reallocation.Move | malloc-lab/mm.c:282-293 | The new block is what mm_malloc(size) returns, with all its promises. If that fails, NULL comes back and nothing changes: p stays allocated. Otherwise the first min(size, old payload) bytes are copied to the new block and the rest of it is unwritten. The old block is freed with everything mm_free promises (`Release.Released`), and every other payload is kept. |
| Reallocation.CopyFree | malloc-lab/mm.c:287-292 | After mm_malloc succeeds: the copy keeps min(size, old payload) bytes, the old block is freed with mm_free's whole outcome, and the other payloads keep their words. |
| Reallocation.MmRealloc | malloc-lab/mm.c:277-294 | The dispatch over the three cases, with each case's outcome: the full mm_malloc outcome for NULL, the full mm_free outcome for size 0, and on the main path the mm_malloc outcome followed by the mm_free outcome. The payload map stays in step with the allocated blocks, and the other payloads keep their words. |
| Scenarios.NextFitAfterFree | malloc-lab/mm.c:230-269 | From mm_init, allocate(100), allocate(40), free of the first block and allocate(90) return 16, 128 and 176: the third request does not get the freed block back. |
| Scenarios.AfterFreeChains | malloc-lab/mm.c:186-197 | The chains that sequence passes through, and on the last one next fit picks the block at rover while first fit picks the freed block. |
| Scenarios.BothNeighboursFree | malloc-lab/mm.c:154-161 | From mm_init, allocate(16) twice, free of both blocks and allocate(32): the second free merges all three blocks (case 4), and the last request gets the first address back without growing the heap. |
| Scenarios.BothFreeChains | malloc-lab/mm.c:131-164 | The chains of that sequence; the second free has free blocks on both sides and merges everything into one block of CHUNKSIZE bytes. |
| Scenarios.ReuseAfterFree | malloc-lab/mm.c:261-268 | On any valid heap, allocate(size) followed by its free lets the same request be served again without growing the heap. |
| Scenarios.FreedRoom | malloc-lab/mm.c:261-268 | After a block of at least asize bytes is freed and coalesced, first fit over the chain finds a block for asize. |

## Left out

- The C types: pointer casts, `team`, `ALIGN`/`SIZE_T_SIZE` and the
  includes. `ALIGN` and `SIZE_T_SIZE` are unused.
- `memlib.c`: it is not part of this model. `MemLib.Sbrk` stands for
  `mem_sbrk`: a region that grows at its end and refuses requests beyond
  MAX_HEAP = 20 MiB.
- MemLib.Sbrk: in the usual memlib interface `mem_sbrk` takes an `int`,
  so a `size_t` request above 2^31 would be narrowed. The narrowing is not
  modelled: the request is taken at its full value and refused, since it
  exceeds MAX_HEAP.
- Extension.ExtendHeap: `(words + 1) * WSIZE` is not reduced modulo 2^64.
  No call can make it wrap. `mm_init` passes 1024 words. `mm_malloc`
  passes a multiple of 8 bytes divided by WSIZE, an even word count whose
  byte size fits in `size_t`.
- Allocation.MmInit: it starts from an empty region, where neither
  `return -1` can happen, so it has no failure result. Re-initialising a
  non-empty heap is not modelled.
- Allocation.MmInit: `rover` is NULL until `extend_heap` sets it. That
  interval is modelled as address 0, which is never read.
- `memcpy` and payload contents: payload bytes live in a separate map from
  payload address to bytes, not in the heap words.
  - `None` stands for a byte nobody has written.
  - Bytes of a fresh block are unwritten rather than left-over heap words.
  - Clients never write outside their payloads.
- Misuse is excluded by preconditions, not modelled:
  - freeing or reallocating an address that is not allocated;
  - a double free.
- Concurrency: the allocator is single-threaded.
- Reallocation.MmRealloc: on the main path it states the mm_malloc and
  mm_free outcomes through the heap between the two calls (`mid`), not as
  a chain function of the heap before the call.

## Findings

| source | as written | input that shows it | evidently intended | confidence | as-written member | corrected member |
|---|---|---|---|---|---|---|
| malloc-lab/mm.c:241 | `asize = DSIZE * ((size + DSIZE + (DSIZE - 1)) / DSIZE)` in 64-bit `size_t`. The sum wraps for the top 15 request sizes. | size = SIZE_MAX - 7 gives asize 0, and size = SIZE_MAX gives asize 8. Both are below the 16-byte minimum block and far below the request. | The least multiple of 8 holding size + 8 bytes. A request no block could ever hold returns NULL. | high (plain arithmetic); not executed | Allocation.AdjustedSizeAsWritten, Allocation.AdjustedSizeWraps | Allocation.AdjustedSize, Allocation.MmMalloc |
