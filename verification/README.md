# A verified model of Blender's fixed-size memory pool

This project models `BLI_mempool`, Blender's single-threaded slab allocator
for elements of one size, in Dafny, and proves properties of the model.

A pool keeps an ordered list of chunks. Each chunk holds `pchunk` slots of
`esize` bytes. The unused slots are threaded into a singly linked free list.
When the pool is created with the iteration flag, every slot carries a tag
word that says whether it is free. With those tags the live elements can be
walked, looked up by position, and copied out as a table or a byte array.

The model is functional:

- `PoolState.Pool` is an immutable record. It holds:
  - the chunk ids in list order;
  - the tag of every slot of every chunk;
  - the free list as a sequence of slots, head first;
  - `totused`, the number of elements in use;
  - a counter standing for the addresses the backing allocator hands out.
- A slot is a pair (chunk id, index). A chunk id stands for the chunk's
  address.
- Every operation is a pure transition from one `Pool` to the next.
- `PoolState.Valid` is the invariant of every pool reachable from creation.
  It says:
  - the chunks are distinct;
  - the free list holds distinct owned slots, and exactly the slots tagged
    free;
  - free-list length plus `totused` equals the number of chunks times `pchunk`;
  - `totused` is the number of slots tagged live;
  - the pool has at least one chunk.
- `PoolState.LiveSlots` is the reference order of iteration: the live slots,
  chunk by chunk, each chunk in ascending index order.

The modules are:

- `PoolState`: the data model, the invariant, and lemmas about the live and free views.
- `PoolOps`: chunk initialisation, creation, alloc/calloc, free with the collapse on empty, the debug checks of free, clear, count.
- `PoolIter`: iternew and iterstep, then findelem, as_table and as_array built on them.
- `PoolLaws`: properties that relate several operations, and a worked client run.
- `PoolFindings`: the chunk count of creation as the source computes it.

All cited lines are in `blender/source/blender/blenlib/intern/BLI_mempool.c`,
written `BLI_mempool.c` below. Each cell of the source column gives the full
path.

## Model

| member | source | states |
|---|---|---|
| PoolState.LiveSlotsMembership | blender/source/blender/blenlib/intern/BLI_mempool.c:480-503 | A slot is among the elements iteration yields exactly when it lies in an owned chunk and its tag says it is not free. |
| PoolState.LiveSlotsDistinct | blender/source/blender/blenlib/intern/BLI_mempool.c:480-503 | Iteration order lists no element twice, because the chunks are distinct. |
| PoolState.AllSlotsMembership | blender/source/blender/blenlib/intern/BLI_mempool.c:253-260 | The free list built at creation contains every slot of every chunk and nothing else. |
| PoolState.AllSlotsDistinct | blender/source/blender/blenlib/intern/BLI_mempool.c:253-260 | That free list has no repeated slot, and its length is the number of chunks times `pchunk`. |
| PoolState.AllSlotsAt | blender/source/blender/blenlib/intern/BLI_mempool.c:156-182 | Slot i of the k-th chunk is entry k * pchunk + i of that free list: chunk-list order, then ascending index, with each chunk linked after the previous chunk's tail. |
| PoolState.SetTagLiveCount | blender/source/blender/blenlib/intern/BLI_mempool.c:279-281 | Rewriting one slot's tag changes the number of live slots by exactly that slot's change. |
| PoolOps.AddChunk | blender/source/blender/blenlib/intern/BLI_mempool.c:137-184 | The chunk is appended at the tail of the chunk list. All its slots are tagged free and appended to the free list in ascending order. No other slot's tag changes. |
| PoolOps.AddChunkShape | blender/source/blender/blenlib/intern/BLI_mempool.c:137-184 | Adding a chunk the pool does not own keeps the pool invariant and adds no live element. |
| PoolOps.Grow | blender/source/blender/blenlib/intern/BLI_mempool.c:271-275 | Growing appends exactly one fresh chunk and makes its slots the whole free list when the list was empty. Every tag the pool can read is unchanged, and so are the live elements. |
| PoolOps.CDiv | blender/source/blender/blenlib/intern/BLI_mempool.c:247 | C's integer division truncates toward zero. The remainder has the sign of the dividend and is smaller than the divisor in magnitude. |
| PoolOps.InitialChunkCount | blender/source/blender/blenlib/intern/BLI_mempool.c:247-250 | The chunk count is `totelem / pchunk + 1` for a non-negative hint, and never less than 1. Its capacity exceeds the hint. It agrees with the count as written whenever that count is positive. |
| PoolOps.Configure | blender/source/blender/blenlib/intern/BLI_mempool.c:225-245 | The element size is clamped up to two pointers. With the iteration flag it is also clamped up to the size of a free node. The pool starts with no chunk, an empty free list and nothing in use. |
| PoolOps.Build | blender/source/blender/blenlib/intern/BLI_mempool.c:252-260 | After k chunk additions the pool has chunks 0..k-1. Its free list is every slot in chunk order then index order, and every tag reads free. |
| PoolOps.Create | blender/source/blender/blenlib/intern/BLI_mempool.c:211-263 | Creation gives a valid pool with `InitialChunkCount` chunks, nothing in use, every owned slot free, and all slots on the free list in order. It also records the clamped element size and `csize == esize * pchunk`. |
| PoolOps.Pop | blender/source/blender/blenlib/intern/BLI_mempool.c:277-283 | Handing out the head keeps the invariant, tags only the head live, advances the head to its successor and counts one more element. |
| PoolOps.Alloc | blender/source/blender/blenlib/intern/BLI_mempool.c:265-286 | The result is valid, `totused` is one higher, and the returned slot was free and is now live; no other slot's tag changes. With a non-empty free list the result is the old head, the free list is its tail and the chunks are unchanged. With an empty free list exactly one chunk is appended, the result is its first slot, and the rest of its slots form the free list. |
| PoolOps.Calloc | blender/source/blender/blenlib/intern/BLI_mempool.c:288-293 | The pool and the element are those of alloc. In the user memory, the element's `esize` bytes become zero, and every other element's bytes and presence are unchanged. |
| PoolOps.Push | blender/source/blender/blenlib/intern/BLI_mempool.c:320-331 | The first half of free: the slot goes on the free-list head, it alone is retagged free, `totused` drops by one, the chunks are kept, and the pool stays well formed. |
| PoolOps.PushShape | blender/source/blender/blenlib/intern/BLI_mempool.c:320-331 | Pushing a live owned slot onto the free-list head, tagging it free and counting one fewer keeps the invariant. Only that slot's tag changes. |
| PoolOps.Collapse | blender/source/blender/blenlib/intern/BLI_mempool.c:333-354 | The collapse keeps only the first chunk and rebuilds its free list over all its slots in ascending order. It leaves that chunk's tags exactly as they were and does not change `totused`. |
| PoolOps.CollapseShape | blender/source/blender/blenlib/intern/BLI_mempool.c:333-354 | With nothing in use, keeping only the first chunk and rebuilding its free list in ascending order gives a valid pool, even though the tags are not rewritten: every tag already reads free. |
| PoolOps.FreeElem | blender/source/blender/blenlib/intern/BLI_mempool.c:300-355 | Freeing a live owned slot gives a valid pool with one fewer element in use, in which the slot is no longer live. While elements remain in use, the slot is pushed on the free-list head, only its tag changes, and the chunks are kept. When none remain, the pool collapses to its first chunk, whose slots form the free list in ascending order. |
| PoolOps.CheckFree | blender/source/blender/blenlib/intern/BLI_mempool.c:304-326 | The debug checks pass exactly for a freeable slot when the pool keeps tags. Without the iteration flag they pass for any owned slot, so a double free goes unnoticed. |
| PoolOps.Clear | blender/source/blender/blenlib/intern/BLI_mempool.c:507-523 | Clearing gives a valid pool with nothing in use and only the first chunk. That chunk's slots are all free and form the free list in ascending order. |
| PoolOps.Count | blender/source/blender/blenlib/intern/BLI_mempool.c:357-360 | The count is the number of live slots. |
| PoolIter.RemainingStep | blender/source/blender/blenlib/intern/BLI_mempool.c:489-500 | Examining one slot yields it exactly when it is tagged live. The still-to-come elements are that yield followed by those of the advanced position. |
| PoolIter.RemainingAreLive | blender/source/blender/blenlib/intern/BLI_mempool.c:489-500 | Whatever an iterator has still to yield is live. |
| PoolIter.IterNew | blender/source/blender/blenlib/intern/BLI_mempool.c:435-442 | A new iterator has exactly the live elements, in iteration order, still to yield. |
| PoolIter.Scan | blender/source/blender/blenlib/intern/BLI_mempool.c:488-502 | The scan loop yields the next still-to-come element and leaves the rest to come. At the end of the chunks it yields NULL. |
| PoolIter.IterStep | blender/source/blender/blenlib/intern/BLI_mempool.c:480-503 | iterstep returns NULL straight away when nothing is in use. Otherwise it returns the next element in chunk-then-index order, or NULL once all have been yielded. |
| PoolIter.FindElem | blender/source/blender/blenlib/intern/BLI_mempool.c:362-378 | findelem(i) is the i-th element iteration yields for i in [0, totused), and NULL otherwise. |
| PoolIter.AsTable | blender/source/blender/blenlib/intern/BLI_mempool.c:386-397 | Walking the pool from iternew with iterstep until NULL collects exactly the live elements, each once, in chunk-then-index order, and `totused` of them. |
| PoolIter.AsArray | blender/source/blender/blenlib/intern/BLI_mempool.c:412-423 | The array is the elements' bytes, laid end to end in iteration order, and has `totused * esize` bytes. |
| PoolIter.FlattenLength | blender/source/blender/blenlib/intern/BLI_mempool.c:418-422 | Copying n elements of `esize` bytes each advances the output by n * esize bytes. |
| PoolIter.FlattenBlock | blender/source/blender/blenlib/intern/BLI_mempool.c:418-421 | The k-th element copied occupies bytes [k * esize, (k + 1) * esize) of the array. |
| PoolLaws.LiveSlotsExact | blender/source/blender/blenlib/intern/BLI_mempool.c:90 | In a valid pool, `totused` is the number of elements iteration yields, each once, and these are exactly the owned live slots. |
| PoolLaws.CreateFreeListOrder | blender/source/blender/blenlib/intern/BLI_mempool.c:253-260 | In a new pool, slot i of chunk k is free-list entry k * pchunk + i. |
| PoolLaws.AllocMany | blender/source/blender/blenlib/intern/BLI_mempool.c:265-286 | n allocations in a row keep the pool valid, raise `totused` by n, and hand out n elements. |
| PoolLaws.AllocManyFollowsFreeList | blender/source/blender/blenlib/intern/BLI_mempool.c:277-283 | While the free list lasts, successive allocations hand out its entries in order, leave the rest of the list, and do not grow the pool. |
| PoolLaws.FillFollowsFreeList | blender/source/blender/blenlib/intern/BLI_mempool.c:277-283 | Allocating until the free list runs dry hands out exactly the free list, in order. |
| PoolLaws.CreateAllocOrder | blender/source/blender/blenlib/intern/BLI_mempool.c:253-286 | Filling a new pool hands out slot i of its k-th chunk as allocation number k * pchunk + i, counting from 0. |
| PoolLaws.FreeListEmptyWhenFull | blender/source/blender/blenlib/intern/BLI_mempool.c:271 | The free list is empty exactly when every owned slot is live. Equivalently, `totused` equals the number of chunks times `pchunk`. |
| PoolLaws.AllocLiveSlots | blender/source/blender/blenlib/intern/BLI_mempool.c:265-286 | Alloc adds exactly one element, which was not live before, to the live elements. |
| PoolLaws.FreeLiveSlots | blender/source/blender/blenlib/intern/BLI_mempool.c:300-355 | Free removes exactly the freed element from the live elements, including when the pool collapses. |
| PoolLaws.AllocKeepsLive | blender/source/blender/blenlib/intern/BLI_mempool.c:265-286 | An element in use stays in use across an alloc, and differs from the new element. |
| PoolLaws.FreeKeepsLive | blender/source/blender/blenlib/intern/BLI_mempool.c:300-355 | An element in use stays in use across the free of another element. |
| PoolLaws.FreeAllocRoundTrip | blender/source/blender/blenlib/intern/BLI_mempool.c:265-331 | While at least one other element stays in use, freeing an element and allocating again returns that same element and exactly the original pool: the free list is last in, first out. |
| PoolLaws.AllocFreeRoundTrip | blender/source/blender/blenlib/intern/BLI_mempool.c:265-331 | When the free list is not empty and something is already in use, allocating an element and freeing it again gives back exactly the original pool. |
| PoolLaws.CallocMemory | blender/source/blender/blenlib/intern/BLI_mempool.c:288-293 | After calloc, the user memory still holds `esize` bytes for every element in use, including the new one. So as_array can read the pool. |
| PoolLaws.CallocReadBack | blender/source/blender/blenlib/intern/BLI_mempool.c:288-293 | After calloc, the new element's block of the as_array output is all zeros. Every other block holds the bytes it held before. |
| PoolLaws.EmptyIsClear | blender/source/blender/blenlib/intern/BLI_mempool.c:507-523 | Every valid pool that has nothing in use, only the first chunk, all tags free and the ascending free list is the clear of its predecessor. |
| PoolLaws.AllocFreeIsClear | blender/source/blender/blenlib/intern/BLI_mempool.c:333-354 | On a pool with nothing in use, allocating one element and freeing it gives exactly the pool that clear gives: the collapse on empty is a clear. |
| PoolLaws.ClearIdempotent | blender/source/blender/blenlib/intern/BLI_mempool.c:507-523 | Clearing a cleared pool changes nothing. |
| PoolLaws.AllocFreeRoundsAreClear | blender/source/blender/blenlib/intern/BLI_mempool.c:265-355 | Any positive number of alloc/free rounds on a pool with nothing in use ends in that pool's clear. |
| PoolLaws.AllocStep | blender/source/blender/blenlib/intern/BLI_mempool.c:265-286 | For a client holding exactly the elements in use: one more alloc keeps that true and adds one element. The pool grows by one chunk exactly when the free list was empty. |
| PoolLaws.FreeStep | blender/source/blender/blenlib/intern/BLI_mempool.c:300-355 | For the same client: freeing the oldest element held keeps that true. The pool keeps its chunks while anything is in use, and otherwise collapses to the first chunk with a full free list. |
| PoolLaws.FillRun | blender/source/blender/blenlib/intern/BLI_mempool.c:247-286 | For 16-byte elements, no size hint and 4 per chunk: creation gives one chunk, and the first four allocations fill it without growing the pool. |
| PoolLaws.DrainRun | blender/source/blender/blenlib/intern/BLI_mempool.c:265-331 | The fifth allocation adds a second chunk. The next four frees keep both chunks, with 4, 3, 2, 1 elements in use. |
| PoolLaws.ReuseRun | blender/source/blender/blenlib/intern/BLI_mempool.c:333-354 | Freeing the last element in use collapses the pool to its first chunk. The next allocation returns that chunk's first slot. |
| PoolFindings.CreateAsWritten | blender/source/blender/blenlib/intern/BLI_mempool.c:247-260 | Creation as written adds `max(maxchunks, 0)` chunks and nothing in use. |
| PoolOps.ChunkCountAsWritten | blender/source/blender/blenlib/intern/BLI_mempool.c:247-250 | The guarded `maxchunks` is never 0, and it is `totelem / pchunk + 1` for a non-negative hint. It is below 1, in fact negative, exactly when `totelem <= -2 * pchunk`. |
| PoolFindings.NegativeHintLeavesNoChunk | blender/source/blender/blenlib/intern/BLI_mempool.c:247-260 | A hint of -8 with 4 per chunk leaves `maxchunks == -1`. The pool is created without a chunk and is not valid. |
| PoolFindings.NegativeHintCorrected | blender/source/blender/blenlib/intern/BLI_mempool.c:247-250 | The corrected creation gives the same hint one chunk. |
| PoolFindings.CreateAgreesWhenCountPositive | blender/source/blender/blenlib/intern/BLI_mempool.c:247-260 | Wherever the count as written is positive, the corrected creation builds exactly the same pool. |

## Left out

- Byte-level layout and the aliasing of user data:
  - The `next` pointer and the FREEWORD sentinel are overlaid on user data (lines 69-72, 280, 325).
  - In the model a slot's tag is a separate Free/Live state, kept whether or not the iteration flag is set.
  - A live element whose bytes happen to equal FREEWORD at the tag's offset would be skipped by iteration. The model does not capture that.
- The choice of backing allocator, system malloc or Blender's guarded allocator (`BLI_MEMPOOL_SYSMALLOC`, lines 104-126, 186-209):
  - A new chunk is a fresh id from a counter.
  - A released chunk simply leaves the chunk list.
  - Running out of memory is not modelled.
- The compiled-out variants `USE_DATA_PTR` and `USE_TOTALLOC`, and the `#if 0` readable iterator (lines 444-475). They are not live code.
- `BLI_mempool_as_tableN` and `BLI_mempool_as_arrayN` (lines 402-433). They allocate a buffer and call as_table and as_array, which are modelled.
- `BLI_mempool_destroy` (lines 528-538). It only releases memory.
- PoolOps.Create: 32-bit `int` arithmetic is not modelled.
  - `esize * pchunk` for `csize` and `totused * esize` could overflow in the source.
  - The model's integers are unbounded.
- PoolOps.Create and PoolOps.InitialChunkCount require `pchunk >= 1`. The source never checks `pchunk`, and every value below 1 fails there:
  - 0 divides by zero at line 247;
  - with a negative value, the slot loop at line 156 runs no time and line 169 writes through a NULL `curnode`.
- PoolOps.FreeElem requires the slot to be owned and live, as the note at line 298 asks. In the source a double free or a foreign address is undefined behaviour. Its debug-build detection is modelled separately by `PoolOps.CheckFree`.
- `PoolOps.CheckFree` checks ownership by slot; interior pointers are not modelled.
  - The source tests only that the address lies in some chunk's byte range, so an address inside an element would also pass.
  - In the model a slot is a whole element.
- Iteration, findelem, as_table and as_array require the iteration flag, as the debug assertions at lines 364, 391, 416 and 437 do. Iterating a pool while it is being changed is not modelled.
- PoolIter.AsArray: the element bytes are passed in. User memory (`PoolState.Memory`) is kept beside the pool, not inside it:
  - calloc writes it (`PoolOps.Calloc`) and as_array reads it;
  - nothing else in the model writes it;
  - in the source, the free-list node and the tag word that alloc and free write overlap the first bytes of an element, which the model does not represent.
- Tagging in the source is conditional: with the iteration flag off, no tag words are written at all (lines 150, 160, 178, 279, 320). The model keeps the logical tags in both cases, because no operation reads them without the flag.
- The rest of the repository is not part of this model. None of it touches the pool:
  - `blender/source/blender/blenkernel/BKE_modifier.h` is a dispatch table and declarations;
  - `blender/build_files/buildbot/slave_pack.py` is packaging scripting over processes, files and zip archives;
  - `node_composite_zcombine.c` is a socket table and registration calls;
  - `COM_EllipseMaskNode.cpp` and `COM_TonemapNode.cpp` are glue into the compositor's execution graph.
- The platform constants are those of a 64-bit build:
  - pointers are 8 bytes;
  - `MEMPOOL_ELEM_SIZE_MIN` is 16;
  - `sizeof(BLI_freenode)` is 16.
- The chunk count differs in form from a description as "at least the ceiling of hint / pchunk, and at least one chunk". The model follows the code, `hint / pchunk + 1`, which is never below that ceiling. Negative hints are described under Findings.

## Findings

| source | as written | input that shows it | evidently intended | confidence | as-written member | corrected member |
|---|---|---|---|---|---|---|
| blender/source/blender/blenlib/intern/BLI_mempool.c:247-250 | `maxchunks = totelem / pchunk + 1`, replaced by 1 only when it equals 0. A hint of `-2 * pchunk` or below makes `maxchunks` negative, so the creation loop adds no chunk. Clear then passes the NULL first chunk to `mempool_chunk_add` (line 522), which writes through it at line 145. | `BLI_mempool_create(16, -8, 4, BLI_MEMPOOL_ALLOW_ITER)` gives `maxchunks == -1` and a pool with no chunk | at least one chunk for every hint: `maxchunks < 1` should become 1 | not executed; follows from the C division rules | PoolFindings.CreateAsWritten, PoolFindings.NegativeHintLeavesNoChunk | PoolOps.InitialChunkCount, PoolOps.Create |
