# Heap allocator and mark phase of a small virtual machine

This project models the memory manager of a small virtual machine. It has two parts, and they
share one integer, the sweep id.

- **The allocator** (`src/allocator.cpp`) owns an arena of bytes, `[heapStart, maxHeapAddress)`.
  Its used part `[heapStart, heapTop)` is a singly linked list of blocks, each starting with a
  header. A header holds a sweep id, the link to the next block, the payload size and the size
  of the reference part of the payload.
  - `allocBlock` word-aligns the request.
  - It then runs a next-fit search from `searchStart` for a reusable block, splitting the block
    found when the leftover is large enough.
  - Failing that, it carves a new block at `heapTop`, or reports out of memory.
  - A block is reusable exactly when its sweep id differs from the current one; there is no
    free flag.
- **The collector** (`src/garbage_collector.cpp`) keeps the global sweep id.
  - `sweep` increments the sweep id and marks what every root refers to.
  - `mark` stamps a block with the current id and follows its reference words. It stops at null
    and at blocks already stamped, which is what stops it on cycles.
  - Nothing is freed explicitly. Blocks left with an older id are reused by the next-fit
    search.

The Dafny model has three files:

- `wrappers.dfy` holds `Option`, used for the null pointer.
- `allocator.dfy` holds module `Allocator`:
  - the pure size arithmetic;
  - the heap invariant `HeapInv`. Its part `Tiles` says the block list covers
    `[start, top)` with no gap and no overlap, every link leading to the next block or to
    the top;
  - class `Heap`, whose fields are the four globals and the map from block addresses to
    headers, and whose methods are the operations;
  - the members that state how the source departs from the intended behaviour (see Findings).
- `garbage_collector.dfy` holds module `GarbageCollector`:
  - reachability along reference words;
  - class `Collector`, with the sweep id and the methods `Mark`, `Trace` and `Sweep`.

Addresses are byte addresses in `nat`. A block is a `Block(sweepID, next, dataSize, pointers)`.
`pointers` stands for the reference words at the start of its payload, so the header's
pointerDataSize is `|pointers| * 4` bytes.

Three choices about the list follow the source's own code:

- The search never merges adjacent stale blocks; the source has no code that does.
- `searchStart` is set to the block the search finds (src/allocator.cpp:72).
- The last block links to the heap top, never to null: line 95 makes a fresh block's link the
  new heap top, so the last block of the list always links to heapTop.

## Model

| member | source | states |
|---|---|---|
| Allocator.Align | src/allocator.cpp:26-29 | the aligned size is a multiple of the word size, at least the request and less than the request plus one word |
| Allocator.AlignIsLeast | src/allocator.cpp:26-29 | the aligned size is the least word multiple that is at least the request |
| Allocator.AlignIdempotent | src/allocator.cpp:26-29 | aligning twice gives the same size as aligning once |
| Allocator.CanSplitLeavesWord | src/allocator.cpp:32-49 | for word-aligned sizes, a block can be split exactly when it has room for the request, a header (`SizeForAlloc` adds the header size to a payload size) and at least one more word |
| Allocator.TilesCover | src/allocator.cpp:7-23 | when the block list tiles [heapStart, heapTop), every byte of that range lies inside some block |
| Allocator.SplitKeepsTiling | src/allocator.cpp:36-44 | splitting a block into a head and a tail placed right after the head's bytes keeps the tiling of [heapStart, heapTop) |
| Allocator.SplitNoOverlap | src/allocator.cpp:36-44 | after a split, neither the head nor the tail overlaps the other or any other block |
| Allocator.SplitKeepsLinks | src/allocator.cpp:40-42 | after a split, the head links to the tail, which takes over the old link, so every link still leads to a block or to the top |
| Allocator.SplitKeepsInv | src/allocator.cpp:36-44 | a split of a block that can be split keeps the whole heap invariant, including word-aligned sizes and references that name blocks |
| Allocator.AppendKeepsInv | src/allocator.cpp:90-95 | appending a block at the old top that ends at the new top keeps the heap invariant and every other block |
| Allocator.ReuseKeepsInv | src/allocator.cpp:83-85 | stamping a block and recording its references in place keeps the heap invariant |
| Allocator.Reused | src/allocator.cpp:83-85 | a reused block serves no further request of the same sweep, whatever its size; its link and size are kept and it holds the requested number of reference words |
| Allocator.TakenLeavesTail | src/allocator.cpp:36-44 | taking a fitting block stamps it; when it is split, a new block with the rest of its bytes appears right after the request, inherits the stale id and the old link and stays reusable, and the taken block shrinks to the request and links to it; otherwise the taken block keeps its size and link |
| Allocator.ScanStep | src/allocator.cpp:61-71 | one step of the circular scan examines exactly the current block and moves to a block; coming back to searchStart means every block has been examined |
| Allocator.Heap.constructor | src/allocator.cpp:19-23 | before initialisation all globals are the null address and the heap is empty and valid |
| Allocator.Heap.InitHeap | src/allocator.cpp:99-105 | heapStart, heapTop and searchStart become `start`, maxHeapAddress becomes `end`, the block list is empty and the invariant holds |
| Allocator.Heap.Split | src/allocator.cpp:36-44 | the tail is created at byte address block + HeaderSize + n and inherits the block's sweep id and link; its size is the block's size less n + HeaderSize; the head keeps its address, links to the tail and gets size n; no other block changes; the invariant is kept |
| Allocator.Heap.Search | src/allocator.cpp:56-71 | returns null exactly when no block fits, including on an empty heap; a returned block is large enough and not stamped in this sweep; no block examined before it fits; the loop ends after at most one circuit |
| Allocator.Heap.NextFit | src/allocator.cpp:54-77 | returns null exactly when no block fits, leaving the heap and searchStart as they were; otherwise returns a fitting block, moves searchStart to it and splits it exactly when it can be split |
| Allocator.Heap.Reuse | src/allocator.cpp:82-85 | the found block is stamped with the current id and gets the requested reference words; nothing else changes |
| Allocator.Heap.Carve | src/allocator.cpp:87-96 | fails exactly when the new block would pass the limit, changing nothing; otherwise places a block at the old top with the current id and the aligned size, moves the top by exactly HeaderSize plus that size, and keeps every other block and the invariant |
| Allocator.Heap.AllocBlock | src/allocator.cpp:79-97 | works on the aligned size; returns null exactly when no block fits and the arena has no room, and then changes nothing; every returned block carries the current id, the requested reference words and at least the aligned size; a reused block is the next fit, and the new block map is the old one with that block split when it can be and then stamped; a fresh block sits at the old top; other blocks are kept |
| GarbageCollector.ReachStep | src/garbage_collector.cpp:23-27 | following one more reference from a reachable block reaches its target |
| GarbageCollector.StampClosedReachable | src/garbage_collector.cpp:1-5 | once the stamped blocks are closed under references, everything reachable from a stamped block is stamped |
| GarbageCollector.RestampedInv | src/garbage_collector.cpp:14-28 | changing only sweep ids keeps the allocator's heap invariant |
| GarbageCollector.Collector.constructor | src/garbage_collector.cpp:10-11 | the sweep id starts at 0 over a heap whose stamps are at most 0 |
| GarbageCollector.Collector.Mark | src/garbage_collector.cpp:13-28 | null changes nothing; a block already stamped changes nothing; otherwise the block ends up stamped; only sweep ids change, only to the current id, and only on blocks reachable from the block; stamps closed under references stay closed |
| GarbageCollector.Collector.Trace | src/garbage_collector.cpp:19-27 | the stamping walk terminates on any graph, since the unstamped blocks decrease; it stamps the start block, changes only sweep ids on blocks reachable from it, and keeps the stamps closed under references |
| GarbageCollector.SweepStep | src/garbage_collector.cpp:34-36 | after marking root i, the stamped blocks are exactly those reachable from the first i + 1 roots |
| GarbageCollector.Collector.Sweep | src/garbage_collector.cpp:30-38 | increments the sweep id by one and returns it; afterwards a block carries that id exactly when it is reachable from a root; the other blocks keep their older, smaller id and so are reusable; only sweep ids change |
| Allocator.SplitAddressAsWrittenOverruns | src/allocator.cpp:39 | the split point as written lands past the end of the block being split |
| Allocator.SplitHeadAsWrittenOverlaps | src/allocator.cpp:42-44 | the head left by split as written still spans the tail's bytes |
| Allocator.SearchStepAsWrittenStalls | src/allocator.cpp:62-71 | the search loop body as written stays on the same block |
| Allocator.KeepsSearchingAsWrittenStopsOnLive | src/allocator.cpp:62-63 | the loop guard as written stops at every live block, which does not fit |
| Allocator.OutOfMemoryAsWrittenOverruns | src/allocator.cpp:87-89 | the out-of-memory test as written lets a block run past the limit |
| Allocator.NextAddressAsWrittenLeavesGap | src/allocator.cpp:94-95 | the link of a fresh block as written lies past the block's end |
| Allocator.ReusedAsWrittenStillFits | src/allocator.cpp:83-85 | a block reused as written still fits a later request of the same sweep |

## Left out

- The width of `size_t` and `int` is not modelled: sizes, addresses and sweep ids are unbounded. So `align` never wraps near the top of `size_t`, and `sweepID` never overflows.
- `sizeof(BlockHeader)` is the constant `HeaderSize` = 16: four 4-byte fields, word-aligned. Platform padding is not modelled.
- Allocator.Heap.AllocBlock: it sets the reference words of every block it returns, reused or fresh, to null. The source leaves their old contents in place until the caller writes them. Stale words would break the invariant that every reference names a block.
- The number of reference words is a count, `|pointers|`. The source reads it as `numPointers` (src/garbage_collector.cpp:24), but the header field is `pointerDataSize`, a byte count (src/allocator.cpp:16). The model reads the one field as a count of words.
- `mark` reads reference words through a cast and a header-sized stride (src/garbage_collector.cpp:26). The model reads the block's own reference words.
- `sweep` turns a stack offset into a block address through a cast (src/garbage_collector.cpp:35). The model takes the roots as the references the stack slots hold.
- GarbageCollector.Collector.Trace: it visits blocks in the order of an explicit stack, not the order of the recursion. Which blocks end up stamped does not depend on the order.
- The source's `nullptr` link test (src/allocator.cpp:64) is modelled as the link reaching `heapTop`, because no link is ever null.
- `split` returns no value in the source. The model returns the head block, which is what `nextFit` goes on to hand out.
- src/interpreter.cpp is not part of this model. It is an opcode dispatch stub.
- src/memory.cpp is not part of this model. It holds declarations only.
- Merging adjacent stale blocks is not modelled, because the source has no code for it.
- Allocator.SplitBlocks: the tail of a split is given no reference words. The source never writes the tail's pointerDataSize (src/allocator.cpp:38-44), so it keeps whatever bytes were at that address.
- Allocator.Heap.AllocBlock: it accepts more reference words than the payload holds (`pointerCount * 4 > Align(dataSize)`). The source records the count unchecked (src/allocator.cpp:84, src/allocator.cpp:93), so those words would overlay the next block's header. The model keeps the reference words in a separate sequence, so this overlap is not captured.

## Findings

| source | as written | input that shows it | evidently intended | confidence | as-written member | corrected member |
|---|---|---|---|---|---|---|
| src/allocator.cpp:39 | `block + sizeForAlloc(n)` advances a `BlockHeader*`, so the tail lands HeaderSize * (n + HeaderSize) bytes on | a 24-byte block split for 4 bytes: the tail header goes 320 bytes on, while the block spans 40 | tail at byte address block + HeaderSize + n | high, not executed | Allocator.SplitAddressAsWrittenOverruns | Allocator.SplitKeepsTiling |
| src/allocator.cpp:42-44 | the head's dataSize is never reduced, and the function returns nothing | any block that can be split: the head still covers the tail's bytes | head dataSize set to n, head returned | high, not executed | Allocator.SplitHeadAsWrittenOverlaps | Allocator.SplitNoOverlap |
| src/allocator.cpp:62-71 | the loop never assigns currentBlock on a miss, and the null test never holds | any heap whose searchStart block is too small and not stamped in this sweep: the body never moves currentBlock, so the loop never ends | advance to the next block, wrap to heapStart after the last, stop after one circuit | high, not executed | Allocator.SearchStepAsWrittenStalls | Allocator.Heap.Search |
| src/allocator.cpp:62-63 | the guard joins "too small" and "not stamped" with `&&` | searchStart is a live block (stamped in this sweep): the search returns it for reuse | keep searching while the block is too small or stamped | high, not executed | Allocator.KeepsSearchingAsWrittenStopsOnLive | Allocator.Heap.Search |
| src/allocator.cpp:87-89 | out of memory only when heapTop == maxHeapAddress | heapTop 96, limit 100, request 8: a block reaching byte 120 is carved | fail when heapTop + HeaderSize + size > maxHeapAddress | high, not executed | Allocator.OutOfMemoryAsWrittenOverruns | Allocator.Heap.Carve |
| src/allocator.cpp:94 | `newBlock + dataSize + sizeof(BlockHeader)` advances a `BlockHeader*` | any request: the new top lies HeaderSize times too far, leaving a gap no block covers | new top = old top + HeaderSize + size in bytes | high, not executed | Allocator.NextAddressAsWrittenLeavesGap | Allocator.Heap.Carve |
| src/allocator.cpp:83-85 | a reused block is not stamped with the current sweep id | two allocations in one sweep with one stale block: both get the same block | stamp the reused block with the current id, as a fresh block is (line 91) | medium, not executed | Allocator.ReusedAsWrittenStillFits | Allocator.Heap.Reuse |
