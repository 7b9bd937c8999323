# my_malloc in Dafny

A model of `src/my_malloc.cpp`, a first-fit free-list allocator. It manages a
single region of `HEAP_SIZE` bytes, mapped the first time it is needed.
Every block of the region starts with a record `H` bytes long:

- while the block is free, the record is a node `{size, next}` on the free list;
- while the block is handed out, the record is a header `{size, magic}`.

`my_malloc` takes the first node that is large enough and splits it. `my_free`
asserts the header's MAGIC tag, pushes the block onto the head of the list, and
coalesces it.

`split` and `coalesce` as written have three bugs (see Findings). Everything
except the module `AsWritten` models the corrected `split` and `coalesce`:

- the remainder inherits the found node's `next`, and there is no byte test;
- `coalesce` absorbs into the freed block the node that begins where that block
  ends.

Rows below that speak of `split` or `coalesce` mean the corrected ones unless
they say "as written".

The model has five modules:

- `Layout` (layout.dfy) holds the constants, blocks, and the tiling of the
  region by blocks.
- `FreeList` (free_list.dfy) holds the free list as a value. It says what
  first fit, split, coalesce, `my_malloc` and `my_free` do to the list, and
  proves the byte and node accounting.
- `Arena` (arena.dfy) models the whole state as a value:
  - the cells of the region;
  - `head`;
  - the free list in list order;
  - the blocks in address order.

  It also defines the well-formedness invariant `Wf` and the exact effect of
  each step. Preservation of `Wf` is proved for every step.
- `MyMalloc` (allocator.dfy) holds the class `Allocator`: an `array<int>`
  region and the `head` field. Its methods follow the C functions loop for
  loop, and each is proved to reach exactly the state that the matching
  `Arena` step describes.
- `AsWritten` (as_written.dfy) holds `split` and `coalesce` as the source
  writes them. It also holds the call sequences on which they go wrong (see
  Findings).

Representation:

- The record at offset `o` keeps its `size` in cell `o` and its second field
  (`next` or `magic`) in cell `o + 1`.
- Pointers are `BASE + offset`, and NULL is 0, so freshly mapped zeroed
  memory reads as NULL.
- `H` stands for both `sizeof(node_t)` and `sizeof(header_t)`, which the code
  treats as equal.
- `include/my_malloc.h` is not part of this model. The values of `H` (16),
  `HEAP_SIZE` (4096) and `MAGIC` (1234567) are chosen here.

## Model

| member | source | states |
|---|---|---|
| MyMalloc.Allocator.constructor | src/my_malloc.cpp:7-8 | The program starts with `head` NULL and nothing mapped; the placeholder region is a fresh array, so callers can go on to any other operation. |
| MyMalloc.Allocator.Heap | src/my_malloc.cpp:13-23 | On the first call, maps a fresh zeroed region holding one free node of `HEAP_SIZE - H` bytes with `next` NULL. Later calls change nothing. It returns `head` and leaves the state well formed. |
| MyMalloc.Allocator.ResetHeap | src/my_malloc.cpp:26-32 | With a region mapped, the state becomes the freshly initialised one on a new region. Without one, nothing changes, and the region is the same array. |
| MyMalloc.Allocator.FreeListHead | src/my_malloc.cpp:34-35 | Returns `head`: NULL exactly when nothing is mapped, otherwise the first node of the free list. |
| MyMalloc.Allocator.AvailableMemory | src/my_malloc.cpp:38-46 | Walking `next` from `head` to NULL, returns the sum of the node sizes (`Available(free)`). Only the lazy mapping changes state: the region is the same array if one was mapped, a fresh one otherwise. |
| MyMalloc.Allocator.NumberOfFreeNodes | src/my_malloc.cpp:48-57 | Returns the number of nodes reachable from `head`, which is the length of the free list. Only the lazy mapping changes state: the region is the same array if one was mapped, a fresh one otherwise. |
| MyMalloc.Allocator.FindFree | src/my_malloc.cpp:83-105 | Returns the first node in list order with at least `H + size` bytes (`FirstFit`), and its predecessor (NULL for the head). When no node qualifies, both out-parameters keep the caller's values. Only the lazy mapping changes state. |
| MyMalloc.Allocator.Split | src/my_malloc.cpp:122-146 | Corrected `split` (see Findings). Leaves exactly `SplitStep`: a remainder node at `found + H + size` holding the bytes left over and the found node's `next`, put in the found node's place (as `head` or in the predecessor's `next`). The found record becomes a header with `size` and MAGIC. The state stays well formed. |
| MyMalloc.Allocator.MyMalloc | src/my_malloc.cpp:157-170 | Leaves exactly `MallocStep`, with the corrected `split`. It returns NULL with the state unchanged when no node fits; otherwise it splits the first fit and returns the address right after the new header. The region is the same array if one was mapped, a fresh one otherwise. |
| MyMalloc.Allocator.Coalesce | src/my_malloc.cpp:180-197 | Corrected `coalesce` (see Findings). Leaves exactly `CoalesceStep`. Walking from the given node, it absorbs into that node the first later node that begins where it ends, then stops. It merges at most once and keeps the state well formed. |
| MyMalloc.Allocator.MyFree | src/my_malloc.cpp:204-219 | Requires MAGIC in the header before `p`. The header becomes a free node of the same size whose `next` is the old head; it becomes the head and is coalesced with the corrected `coalesce` (`FreeStep`). |
| MyMalloc.MallocThenFree | src/my_malloc.cpp:157-219 | On a new allocator, `my_malloc(64)` returns the address right after the header at offset 0, and `my_free` of that pointer leaves the free list as the single node spanning the region. |
| FreeList.FirstFit | src/my_malloc.cpp:92-104 | The index found is the first whose node holds at least `need` bytes. Every earlier node is strictly smaller, and the list length means no node fits. |
| FreeList.SplitNodeAccounting | src/my_malloc.cpp:128-134 | The corrected split keeps the number of nodes and removes exactly `H + size` bytes from the free total. |
| FreeList.MallocAccounting | src/my_malloc.cpp:157-170 | With the corrected split, a request fails exactly when every node is smaller than `H + size`, and then the list is unchanged. A request that succeeds keeps the node count and takes exactly `H + size` bytes from the free total. |
| FreeList.MallocFirstFit | src/my_malloc.cpp:94-97 | If node `i` is large enough and every node before it is too small, the block handed out is node `i`. With the corrected split, its remainder takes position `i` and every other node is unchanged. |
| FreeList.NodeAt | src/my_malloc.cpp:185-194 | Returns the first position at or after `from` whose node starts at `target`, or the list length when there is none. |
| FreeList.CoalesceAccounting | src/my_malloc.cpp:180-197 | Corrected `coalesce`: either no later node starts where node `s` ends and the list is unchanged, or exactly one such node is absorbed. In the second case the list loses one node and gains `H` free bytes, node `s` keeps its start, and it now ends where the absorbed node ended. |
| FreeList.ReleaseAccounting | src/my_malloc.cpp:213-218 | With the corrected `coalesce`, the released block becomes the head. Either the list grows by one and the free total by the block's size, or (exactly when a node starts where the block ends) the length is kept and the total grows by size plus `H`. |
| Layout.TiledCarve | src/my_malloc.cpp:128-134 | Cutting a block into header and remainder keeps the region exactly covered by blocks, with one block more. |
| Layout.TiledFuse | src/my_malloc.cpp:188-189 | Joining a block with the block after it keeps the region exactly covered, with one block fewer. |
| Layout.TiledFootprint | src/my_malloc.cpp:18 | The footprints (record plus size) of the blocks of a tiling add up to `HEAP_SIZE`. |
| Arena.InitialWf | src/my_malloc.cpp:13-23 | The freshly mapped state is well formed, and its free total is `HEAP_SIZE - H`. |
| Arena.SplitCells | src/my_malloc.cpp:128-145 | The corrected `split` writes the header's size and MAGIC, the remainder's size and `next` (the code as written never writes that `next`), and the predecessor's `next` (or `head`). It writes no other cell. |
| Arena.SplitKeepsWf | src/my_malloc.cpp:122-146 | The corrected split of a free node large enough for the request keeps the state well formed: exact tiling, every record holding its size, a linked list of distinct free blocks, and MAGIC only in headers. |
| Arena.MarkedNotFree | src/my_malloc.cpp:208 | In a well-formed state, a block whose record carries MAGIC is not on the free list. |
| Arena.MagicIsHeader | src/my_malloc.cpp:206-213 | A cell holding MAGIC is the tag of an allocated block of the layout. So the assert in `my_free` accepts neither a free node nor an offset inside a block. |
| Arena.PushKeepsWf | src/my_malloc.cpp:210-216 | Pushing a block that passed the MAGIC assert onto the head keeps the state well formed. |
| Arena.MergeKeepsWf | src/my_malloc.cpp:187-191 | Absorbing the node that begins where node `sIdx` ends (the corrected merge) keeps the state well formed. |
| Arena.CoalesceKeepsWf | src/my_malloc.cpp:180-197 | The corrected `coalesce` from any free node keeps the state well formed. |
| Arena.MallocStepSpec | src/my_malloc.cpp:157-170 | `my_malloc` with the corrected `split` keeps `Wf` and acts on the free list as `Malloc`. NULL is returned exactly when `Malloc` fails, and then the state is unchanged. Otherwise the block before the returned pointer is an allocated block of the requested size, carrying MAGIC, and not on the free list. |
| Arena.FreeStepSpec | src/my_malloc.cpp:204-219 | `my_free` with the corrected `coalesce` keeps `Wf`, acts on the free list as `Release` of the recorded block, and clears MAGIC from that header, so a second `my_free` of the same pointer fails the assert. |
| Arena.ChainIsFreeList | src/my_malloc.cpp:41-44 | In a well-formed state, following `next` from `head` meets exactly the free list in order, then NULL. |
| AsWritten.ProbeByte | src/my_malloc.cpp:129-131 | The byte at the start of a cell read as a signed `char`: between -128 and 127, and congruent to the cell's value modulo 256. |
| AsWritten.AsSizeT | src/my_malloc.cpp:131 | A `char` converted to `size_t` for the comparison: below 2^64 and congruent to the `char` modulo 2^64. |
| AsWritten.SplitAsWritten | src/my_malloc.cpp:122-146 | `split` as the code writes it, for any node and predecessor. The header gets `size` and MAGIC. When the node's size is at least the probed byte converted to `size_t`, the remainder's size is written and the remainder replaces the node in `head` or in the predecessor's `next`, but the remainder's `next` cell keeps whatever it held. When the test fails, NULL replaces the node. A negative byte fails the test for every node size below 2^64 - 128. No other cell changes. |
| AsWritten.WalkAsWritten | src/my_malloc.cpp:185-196 | The loop of `coalesce` as written keeps the length of the region. |
| AsWritten.WalkAbsorbsAtMostOnce | src/my_malloc.cpp:185-196 | The loop as written either changes nothing or lets exactly one node absorb its `next`. That happens when the node's address plus the starting node's footprint equals its `next`, whatever the node's own size. |
| AsWritten.WalkMergesFirst | src/my_malloc.cpp:187-191 | When the first test of the loop succeeds, the starting node absorbs its `next`. |
| AsWritten.CoalesceAsWritten | src/my_malloc.cpp:180-197 | `coalesce` as written keeps `head` and the length of the region. |
| AsWritten.CoalesceAbsorbsAtMostOnce | src/my_malloc.cpp:180-197 | `coalesce(free_block)` as written either changes nothing or lets one node absorb the node that begins `free_block`'s footprint after it. That node need not be `free_block`. |
| AsWritten.Fresh | src/my_malloc.cpp:13-23 | Shorthand for `Arena.InitialState`: the freshly mapped state is well formed, holds one free node `Block(0, 4080)`, and every cell past the first record is zero. |
| AsWritten.Alloc | src/my_malloc.cpp:157-170 | Shorthand for `Arena.MallocStep`: `my_malloc` with the corrected `split` leaves a well-formed state whose free list is `Malloc`'s. |
| AsWritten.Dealloc | src/my_malloc.cpp:204-219 | Shorthand for `Arena.FreeStep`: `my_free` with the corrected `coalesce` leaves a well-formed state whose free list is `Release`'s. |
| AsWritten.AllocatedMarked | src/my_malloc.cpp:144-145 | A block of the layout that is not free has its size and MAGIC in its header. |
| AsWritten.AllocHead | src/my_malloc.cpp:122-146 | `my_malloc` with the corrected `split`, served by the head node: the remainder becomes the head, and exactly the header's and the remainder's cells change. |
| AsWritten.DeallocAlone | src/my_malloc.cpp:204-219 | `my_free` with the corrected `coalesce` of a block that no free node follows: the block is pushed, its `next` cell gets the old head, and nothing else changes. The code as written can still merge here (see `AsWritten.CoalesceMergesWrongNode`). |
| AsWritten.DeallocMergeHead | src/my_malloc.cpp:180-197 | `my_free` with the corrected `coalesce` of a block followed by the head node: the pushed block absorbs the old head. |
| AsWritten.AllocHeadAgrees | src/my_malloc.cpp:122-146 | When the head node is the only free node and the cells after its record are still zero, `split` as written leaves the same cells and `head` as the corrected one: the probed byte is 0, and the unwritten `next` already reads NULL. The cells after the new remainder's record stay zero. |
| AsWritten.FreeAloneAgrees | src/my_malloc.cpp:180-219 | When the only free node does not start where the freed block ends, `my_free` as written (push, then the `coalesce` walk) leaves the same cells and `head` as the corrected one. |
| AsWritten.FreeMergeHeadAgrees | src/my_malloc.cpp:180-219 | When the head node starts where the freed block ends, the first test of the `coalesce` walk as written succeeds, and `my_free` leaves the same cells and `head` as the corrected one. |
| AsWritten.LateStep1 | src/my_malloc.cpp:157-170 | `my_malloc(32)` on a fresh region leaves free list `[Block(48, 4032)]`, and cells 24 and 25 are still zero. The code as written reaches the same state. |
| AsWritten.LateStep2 | src/my_malloc.cpp:157-170 | A following `my_malloc(8)` leaves free list `[Block(72, 4008)]` and does not write cells 24 and 25. The code as written reaches the same state. |
| AsWritten.LateStep3 | src/my_malloc.cpp:204-219 | Freeing the first block gives free list `[Block(0, 32), Block(72, 4008)]` and does not write cells 24 and 25. The code as written reaches the same state. |
| AsWritten.LateSplit | src/my_malloc.cpp:157-219 | The three calls above, chained; on each of them the code as written reaches the same state as the corrected one: the final free list is `[Block(0, 32), Block(72, 4008)]`, and cells 24 and 25 hold zero. |
| AsWritten.SplitLeavesNextUnset | src/my_malloc.cpp:131-140 | From that state, `my_malloc(8)` as written leaves only `[Block(24, 8)]` reachable from `head`. The corrected step leaves `[Block(24, 8), Block(72, 4008)]`. |
| AsWritten.ProbeStep1 | src/my_malloc.cpp:157-170 | `my_malloc(8)` on a fresh region leaves free list `[Block(24, 4056)]`. The code as written reaches the same state. |
| AsWritten.ProbeStep2 | src/my_malloc.cpp:157-170 | A following `my_malloc(200)` leaves free list `[Block(240, 3840)]`. The code as written reaches the same state. |
| AsWritten.ProbeStep3 | src/my_malloc.cpp:157-170 | A following `my_malloc(8)` leaves free list `[Block(264, 3816)]`. The code as written reaches the same state. |
| AsWritten.ProbeStep4 | src/my_malloc.cpp:204-219 | Freeing the 200-byte block, which no free node follows, pushes it onto the list. The code as written reaches the same state. |
| AsWritten.ProbeStep5 | src/my_malloc.cpp:204-219 | Freeing the first block absorbs the 200-byte one into `Block(0, 224)`, and cell 24 still holds 200. The code as written reaches the same state. |
| AsWritten.StaleProbe | src/my_malloc.cpp:157-219 | The five calls above, chained; on each of them the code as written reaches the same state as the corrected one: the final free list is `[Block(0, 224), Block(264, 3816)]`, and cell 24 holds 200. |
| AsWritten.SplitProbeWraps | src/my_malloc.cpp:129-140 | From that state, `my_malloc(8)` as written reads the probe byte as -56, which fails the size test, so `head` becomes NULL and nothing is reachable. The corrected step leaves `[Block(24, 200), Block(264, 3816)]`. |
| AsWritten.GapStep3 | src/my_malloc.cpp:157-170 | A third `my_malloc(8)` after `my_malloc(32)` and `my_malloc(8)` leaves free list `[Block(96, 3984)]`. The code as written reaches the same state. |
| AsWritten.GapStep4 | src/my_malloc.cpp:157-170 | A fourth request leaves free list `[Block(120, 3960)]`. The code as written reaches the same state. |
| AsWritten.GapStep5 | src/my_malloc.cpp:157-170 | A fifth request leaves free list `[Block(144, 3936)]`. The code as written reaches the same state. |
| AsWritten.GapStep6 | src/my_malloc.cpp:204-219 | Freeing the fifth block absorbs the rest of the region: free list `[Block(120, 3960)]`. The code as written reaches the same state. |
| AsWritten.GapStep7 | src/my_malloc.cpp:204-219 | Freeing the third block, whose right neighbour is allocated, pushes it: free list `[Block(72, 8), Block(120, 3960)]`. The code as written reaches the same state. |
| AsWritten.TwoFreed | src/my_malloc.cpp:157-219 | The seven calls above, chained; on each of them the code as written reaches the same state as the corrected one, with their final free list and layout. |
| AsWritten.CoalesceMergesWrongNode | src/my_malloc.cpp:183-189 | From that state, freeing the first block as written absorbs the node at 120 into the node at 72. The result `Block(72, 3984)` spans the allocated block at 96, whose header still carries MAGIC. The corrected step merges nothing and leaves `[Block(0, 32), Block(72, 8), Block(120, 3960)]`. |

## Left out

- `print_free_list` (src/my_malloc.cpp:60-70) only prints, so it is not modelled.
- `mmap` and `munmap` are replaced by allocating a fresh zeroed array. A failed `mmap` is not modelled. In `reset_heap` the model only forgets the old region. Line 28 passes `head`, not the start of the region, to `munmap`. When `head` is not the region start (for example right after the head node served a request), `munmap` fails on the unaligned address and the old region leaks; when it is the start, the region is released.
- Raw pointer casts and byte layout:
  - A record is two cells, not `H` bytes.
  - Only the first two cells of a record carry meaning.
  - Writes by the client into the bytes it was handed out are not modelled. The invariant that MAGIC occurs only in headers depends on this.
- MyMalloc.Allocator.Split: it models the corrected `split` (see Findings), not the code at lines 131-137. The `assert` at line 124 becomes the precondition that `found` is a node of the list, and a ghost parameter names its position.
- MyMalloc.Allocator.Coalesce: it models the corrected `coalesce` (see Findings). It compares against the end of `free_block` at every step, not against `current_node` plus `block_size`.
- MyMalloc.Allocator.MyFree: the `assert` at line 208 becomes the precondition that the header before `p` carries MAGIC. The self-assignment at line 213 is not modelled because it has no effect.
- MyMalloc.Allocator.FindFree: `size` is unbounded, so the 64-bit wrap-around of `sizeof(header_t) + size` at line 90 for requests near 2^64 is not modelled.
- AsWritten.ProbeByte: it assumes a signed `char`, little-endian fields and a 64-bit `size_t`.
- AsWritten.SplitLeavesNextUnset, AsWritten.SplitProbeWraps and AsWritten.CoalesceMergesWrongNode:
  - `Arena.Chain` walks at most `fuel` nodes, and `AsWritten.WalkAsWritten` (the `coalesce` loop) at most `fuel` steps.
  - The three lemmas take enough fuel for the lists involved.
- Arena.FreeStepSpec: a second `my_free` of the same pointer fails the assert only because no pointer stored in a record can equal MAGIC. The region's address `BASE` is fixed here so that `BASE + HEAP_SIZE` lies below MAGIC. In the program, line 215 writes the old head pointer over the magic field, and whether its bytes can equal MAGIC depends on the address `mmap` returns. The same assumption underlies Arena.MarkedNotFree and Arena.MagicIsHeader.
- The as-written `split` and `coalesce` are stated for all inputs only as single calls on the cells (`AsWritten.SplitAsWritten`, `AsWritten.CoalesceAbsorbsAtMostOnce`). On whole states they are stated on concrete call sequences, and on the calls before them where they agree with the corrected steps. No invariant is proved about repeated use of them, because they break the free list.

## Findings

| source | as written | input that shows it | evidently intended | confidence | as-written member | corrected member |
|---|---|---|---|---|---|---|
| src/my_malloc.cpp:133-134 | The remainder node gets its `size` but its `next` is never written, so it holds whatever the memory held. | `my_malloc(32)`, `my_malloc(8)`, `my_free` of the first block, then `my_malloc(8)`. The remainder at offset 24 lands on zeroed memory, so the node at offset 72 (4008 bytes) becomes unreachable. | The remainder inherits the found node's `next`, as the comment at lines 111-112 says. | not executed | AsWritten.SplitLeavesNextUnset | MyMalloc.Allocator.Split |
| src/my_malloc.cpp:131 | The node's size is compared with one signed `char` read at the remainder's address, not with the request. When that byte is negative the test fails, and line 137 stores NULL in `head` or in the predecessor's `next`. | `my_malloc(8)`, `my_malloc(200)`, `my_malloc(8)`, `my_free` of the 200-byte block, `my_free` of the first, then `my_malloc(8)`. The byte at offset 24 is 200, read as -56, so `head` becomes NULL and 4016 free bytes are lost. | No test: `find_free` already guarantees that the node holds `H + size` bytes, so the remainder is never negative. | not executed | AsWritten.SplitProbeWraps | MyMalloc.Allocator.Split |
| src/my_malloc.cpp:183-187 | `block_size` is the footprint of `free_block`, but the walk tests `current_node + block_size == current_node->next` at every node and merges into `current_node`. | `my_malloc(32)` and four `my_malloc(8)`, `my_free` of the fifth and then of the third block, then `my_free` of the first. The node at 72 absorbs the one at 120 and spans the allocated block at 96. | Absorb into `free_block` the free node that begins where `free_block` ends, as the comment at lines 174-175 describes. | not executed | AsWritten.CoalesceMergesWrongNode | MyMalloc.Allocator.Coalesce |
