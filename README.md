# A verified model of a first-fit arena allocator and its overlap tracker

The allocator (`allocator.c`) carves blocks out of one arena. It starts at
`base` and never grows past `MAX_HEAP_SIZE` (128 MiB).

**Blocks and headers.** Every block starts with a 40-byte header
(`struct Metadata`): the payload size, a `used` flag, `prev`/`next` links in
address order, and a `next_free` link.

**The free list.** Free blocks form a singly linked, LIFO free list that
starts at `head`. `last` is the chain's last block. `used` is the
high-water mark: the arena offset where the next carved block would go.

**The routines.**
- `mymalloc` walks the free list for the first block that is large enough
  (first fit). It unlinks that block and splits off the remainder when the
  remainder can hold a header and 8 bytes. When no free block fits, it
  carves a new block at `used`. It returns NULL when the new block would
  pass `MAX_HEAP_SIZE`.
- `myfree` clears the flag, merges with a free successor, and then with a
  free predecessor. If the surviving block is the chain's last, `used`
  retreats to it. Otherwise the block is pushed on the free list.
- `myrealloc` frees and returns NULL for size 0, and allocates for a NULL
  pointer. Otherwise it tries, in order:
  1. shrink in place, splitting off a large enough tail;
  2. absorb a free successor;
  3. grow the last block in place;
  4. as a last resort, allocate, copy the old payload and free the old
     block.

**The test harness.** The harness (`testharness.c`) wraps the three
routines. It keeps a brute-force table of at most 256 live regions:
- `trackAdd` rejects a region below the arena, past its end, or
  overlapping a region already recorded. It then writes the region into a
  reused, appended or pseudo-randomly chosen slot.
- `trackFree` clears every slot holding the pointer.

Once an error has been raised, every wrapper call does nothing and returns
NULL.

## Structure

- `layout.dfy` (module `Layout`) holds the constants `H` = sizeof(Metadata)
  = 40, `MIN_REMAINDER` = 8 and `MAX_HEAP_SIZE`, and the abstract `Block`.
- `heap_spec.dfy` (module `HeapSpec`) is the abstract heap.
  - `HeapState(blocks, free, used)` holds the chain in address order, the
    free list in list order, and the high-water mark.
  - `Inv` says the chain is contiguous from offset 0 up to `used`, `used`
    is at most `MAX_HEAP_SIZE`, and the free list holds each free block
    exactly once.
  - One function per routine: `SplitAt`, `AbsorbNext`, `AbsorbPrev`,
    `Allocate`, `Release`, `ResizeAt`, `Resize`, and so on.
  - Lemmas show that each of these functions keeps `Inv`.
- `heap_rep.dfy` (module `HeapRep`) covers the headers. They are a map
  from header offset to `Header`. Its lemmas show that the header writes
  of each routine keep the `prev`/`next` links, `last`, and the
  `next_free` thread from `head` in agreement with the abstract state.
- `allocator.dfy` (module `Allocator`) is the class `Heap`.
  - Its fields are `base`, `used`, `head`, `last`, the header map and the
    byte array `mem`.
  - It has one method per C routine, plus the steps those routines are made
    of. The free-list walks are `while` loops.
  - Each method is proved to change the abstract state exactly as the
    matching `HeapSpec` function says.
- `arena.dfy` (module `Arena`) holds the pointer conversions
  (`base + offset`, with 0 for NULL) and `memcpy` as a loop over `mem`.
- `heap_props.dfy` (module `HeapProps`) holds properties of the abstract
  routines:
  - first fit;
  - capacity;
  - live payloads never overlap, and allocation keeps away from them;
  - myfree frees its pointer and keeps every other live block;
  - malloc/free keep the heap "coalesced", and realloc does not;
  - the 64-bit wrap-around findings.
- `resize_props.dfy` (module `ResizeProps`) holds what myrealloc promises
  its caller, case by case and as a whole. For size 0 the result is NULL
  and the old pointer is freed. Otherwise the result is NULL only when
  nothing changed, and else a live pointer whose block holds at least the
  requested size; when it differs from the old pointer, the old one has
  been freed. Every other live pointer stays live with its size, and the
  returned bytes overlap none of them.
- `tracker.dfy` (module `RegionTracker`) is the class `Tracker`, over an
  `array<Region>` of 256 slots. `trackAdd` and `trackFree` are loops,
  proved against the functions `Add` and `Untrack`. Lemmas state what each
  decision means.
- `harness.dfy` (module `Harness`) holds:
  - the wrappers `WrapMalloc`, `WrapFree` and `WrapRealloc`;
  - lemmas relating the tracker to the allocator. Against a table that
    mirrors the heap's live blocks, mymalloc never trips the overlap check,
    and malloc and free keep the table mirroring the heap. A NULL result is
    always flagged as an illegal address.
  - `ExactFitReportedAsOverflow`: because the tracker's bound test is `>=`,
    a request that fills the default 2^27-byte arena exactly is reported as
    "Allocation overflowed", although the allocator serves it.
  - `SmallArenaOverrun`: with an arena smaller than 2^27 bytes, the
    allocator still carves blocks up to MAX_HEAP_SIZE, past the arena.

## Model

| member | source | states |
|---|---|---|
| Allocator.Heap.constructor | allocator.c:20-25 | allocator_init: the heap is empty (no blocks, empty free list, `used` 0) at the given base |
| Allocator.Heap.Reset | allocator.c:27-31 | allocator_reset: the heap is empty again; the old headers stay in the arena untouched |
| Allocator.Heap.RemoveFromList | allocator.c:33-48 | the free list loses exactly the entry `x` (and is unchanged when `x` is absent); the thread from `head` stays well formed and only `next_free` fields change |
| Allocator.Heap.AddToList | allocator.c:50-53 | the block is pushed at the front of the free list, `head` names it, and its `next_free` is the old `head` |
| Allocator.Heap.Split | allocator.c:55-71 | the block keeps `size` bytes and a free block of the remaining bytes less a header follows it, is linked in address order (becoming `last` when it is the final block) and is pushed on the free list |
| Allocator.Heap.MergeNext | allocator.c:73-85 | a free successor is unlinked from the free list and absorbed with its header; otherwise nothing changes |
| Allocator.Heap.MergePrev | allocator.c:87-101 | a free predecessor is unlinked and absorbs the block, and the surviving block's header is returned |
| Allocator.Heap.ClearUsed | allocator.c:145-146 | only the block's `used` flag changes, to free |
| Allocator.Heap.Coalesce | allocator.c:146-149 | myfree's flag clear, merge_next and merge_prev together, returning the surviving block |
| Allocator.Heap.CutLast | allocator.c:150-157 | the last block leaves the chain, `last` becomes its predecessor (or NULL) and `used` retreats to its header |
| Allocator.Heap.Retire | allocator.c:150-160 | a surviving last block is cut off the chain, any other is pushed on the free list |
| Allocator.Heap.Free | allocator.c:141-161 | myfree: NULL changes nothing; a live block is released as `Release` says and the heap invariant holds afterwards |
| Allocator.Heap.FindFit | allocator.c:105-123 | the free-list walk stops at the first entry of size at least `size` (first fit) and returns it with its predecessor on the list, or NULL when none fits |
| Allocator.Heap.TakeEntry | allocator.c:110-115 | the entry is unlinked from the free list and its block marked used |
| Allocator.Heap.TakeFit | allocator.c:109-119 | a hit takes the first fit and splits off a remainder of at least a header plus 8 bytes |
| Allocator.Heap.Carve | allocator.c:124-138 | with no fit, a new used block is appended at `used` when it fits under MAX_HEAP_SIZE, else NULL and nothing changes |
| Allocator.Heap.Malloc | allocator.c:103-139 | mymalloc: the new state and returned pointer are those of `Allocate`, and the heap invariant holds |
| Allocator.Heap.Shrink | allocator.c:174-178 | a request no larger than the block stays in place and splits off a tail of at least a header plus 8 bytes |
| Allocator.Heap.GrowInto | allocator.c:180-195 | a grow into a large enough free successor absorbs it in place and splits off any large enough excess |
| Allocator.Heap.GrowLast | allocator.c:196-200 | the last block grows in place and `used` advances by the difference |
| Allocator.Heap.Move | allocator.c:201-206 | allocate elsewhere, copy the old payload's bytes, free the old block; a failed allocation returns NULL and changes nothing |
| Allocator.Heap.Relocate | allocator.c:203-204 | the old payload is copied to the new place and the old block is freed |
| Allocator.Heap.Realloc | allocator.c:163-208 | myrealloc: size 0 frees and returns NULL, NULL allocates, and a live block is resized as `ResizeAt` says; the bytes are untouched unless the block moved, when the new payload holds a copy of the old |
| Allocator.Heap.ReallocNonzero | allocator.c:168-170 | a nonzero request on NULL is mymalloc |
| Allocator.Heap.ReallocPtr | allocator.c:171-172 | a live pointer is resized through its block's index |
| Allocator.Heap.ReallocLive | allocator.c:174-207 | a live block is shrunk when the request fits, else grown |
| Allocator.Heap.ReallocShrink | allocator.c:174-178 | shrink case of `ResizeAt`, result the same pointer |
| Allocator.Heap.ReallocGrow | allocator.c:180-207 | grow cases, tried in order: absorb the successor, grow the last block, move |
| Allocator.Heap.ReallocFar | allocator.c:196-206 | when the successor cannot absorb the request: grow the last block in place or move |
| Allocator.Heap.ReallocMove | allocator.c:201-206 | when no in-place grow applies, the block moves with its bytes |
| Arena.MemCopy | allocator.c:203 | after the copy, the destination holds the source bytes and everything outside the destination is unchanged |
| Arena.CopyResultSpec | allocator.c:203 | memcpy's result preserves the `n` source bytes at the destination and touches nothing else |
| HeapSpec.FirstFit | allocator.c:108-123 | the chosen entry, when there is one, is large enough |
| HeapSpec.ChainOrdered | allocator.c:127-137 | blocks of a contiguous chain are in address order: each ends before any later block starts |
| HeapSpec.BlocksApart | allocator.c:127-137 | two different blocks of the chain do not overlap |
| HeapSpec.EndWithin | allocator.c:124-137 | every block ends at or below `used` |
| HeapSpec.IndexOfAt | allocator.c:145 | a header offset names exactly one block of the chain |
| HeapSpec.WithoutMembers | allocator.c:33-48 | removing `x` from the free list keeps it duplicate-free and drops exactly `x` |
| HeapSpec.FindPush | allocator.c:50-53 | after a push, an offset is listed iff it is the pushed one or was listed before |
| HeapSpec.FindRemove | allocator.c:110-114 | unlinking entry `k` drops exactly that offset from the list |
| HeapSpec.SplitShape | allocator.c:55-71 | the chain gains one block right after `i`: `i` keeps `size` bytes, the new free block holds the rest less a header, all other blocks stay |
| HeapSpec.SplitKeepsInv | allocator.c:55-71 | split keeps the chain contiguous and the free list exact |
| HeapSpec.FuseShape | allocator.c:77-78 | absorbing a successor removes it and adds its header and payload to the block's size, other blocks stay |
| HeapSpec.AbsorbNextKeeps | allocator.c:73-85 | merge_next keeps the chain contiguous and the free list exact except for the block being freed, and never moves that block |
| HeapSpec.AbsorbPrevKeeps | allocator.c:87-101 | merge_prev keeps the chain contiguous and returns a free surviving block that is the only one left off the free list |
| HeapSpec.TakeKeepsInv | allocator.c:110-115 | taking a free-list entry marks a free block used and keeps the invariant |
| HeapSpec.CarveKeepsInv | allocator.c:124-138 | appending a block at `used` within MAX_HEAP_SIZE keeps the invariant |
| HeapSpec.AllocateFit | allocator.c:108-120 | on a hit, mymalloc returns the first fit's payload and splits it exactly when the remainder reaches a header plus 8 bytes |
| HeapSpec.AllocateKeepsInv | allocator.c:103-139 | mymalloc keeps the heap invariant |
| HeapSpec.AllocateKeepsLive | allocator.c:103-139 | mymalloc never returns a live pointer and leaves every live block as it was |
| HeapSpec.AllocateResult | allocator.c:103-139 | a returned pointer is live, its block holds at least the requested size and less than the request plus a header plus 8 |
| HeapSpec.MarkFreeKeeps | allocator.c:145-146 | clearing the flag keeps the chain contiguous; only this block is missing from the free list |
| HeapSpec.TruncateKeepsInv | allocator.c:150-157 | cutting off a free last block keeps the invariant |
| HeapSpec.PushKeepsInv | allocator.c:158-160 | pushing the surviving free block keeps the invariant |
| HeapSpec.ReleaseSteps | allocator.c:141-161 | myfree is the flag clear and both merges, then either the cut of the last block or a push |
| HeapSpec.ReleaseKeepsInv | allocator.c:141-161 | myfree keeps the heap invariant |
| HeapSpec.GrowLastKeepsInv | allocator.c:196-200 | growing the last block within MAX_HEAP_SIZE keeps the invariant |
| HeapSpec.AbsorbLiveKeepsInv | allocator.c:180-195 | absorbing a free successor into a used block and splitting keeps the invariant |
| HeapSpec.MoveKeepsInv | allocator.c:201-206 | the allocate-then-free move keeps the invariant |
| HeapSpec.PayloadsApart | allocator.c:203 | the copied bytes and the new payload lie inside the arena and do not overlap |
| HeapSpec.MoveSteps | allocator.c:201-206 | a failed allocation leaves the heap unchanged; a successful one yields a different pointer whose payload is disjoint from the old one, which stays live |
| HeapSpec.ResizeAtKeepsInv | allocator.c:171-207 | every resize of a live block keeps the invariant |
| HeapSpec.ResizeLive | allocator.c:171-172 | a nonzero resize of a live pointer is the resize of its block |
| HeapSpec.ResizeAtMoves | allocator.c:201-206 | when no in-place case applies, the resize is the move |
| HeapSpec.ResizeKeepsInv | allocator.c:163-208 | myrealloc keeps the heap invariant |
| HeapRep.UnlinkKeepsThreaded | allocator.c:36-47 | relinking the predecessor's `next_free` (or `head`) past entry `k` threads exactly the list without `k` and changes no other header field |
| HeapRep.PushThreaded | allocator.c:50-53 | the pushed header's `next_free` on the old `head` threads the longer list |
| HeapRep.SplitRelinks | allocator.c:55-71 | split's header writes keep the address-order links, `last` and the free thread in agreement with `SplitAt` |
| HeapRep.FuseRelinks | allocator.c:73-85 | the merge's header writes keep the address-order links in agreement with `Fuse`; `next` is NULL exactly for the last block |
| HeapRep.FuseRep | allocator.c:87-101 | after unlinking, the merge's header writes keep all header links in agreement with the merged chain |
| HeapRep.TakeRep | allocator.c:110-115 | unlinking a hit and setting its flag keeps the headers in agreement with `Take` |
| HeapRep.CarveRep | allocator.c:127-137 | the new header at `used` is linked after `last` and becomes `last` |
| HeapRep.CutRep | allocator.c:150-157 | cutting the last block clears its predecessor's `next` and makes it `last` |
| HeapRep.GrowRep | allocator.c:196-200 | growing the last block's header size keeps the headers in agreement with the grown chain |
| HeapRep.NextNilIffLast | allocator.c:150-156 | a header's `next` is NULL exactly for the last block, and `prev` names the block before |
| HeapRep.ListedHeader | allocator.c:109 | a free-list entry's header holds its block's size and a clear `used` flag |
| HeapRep.FlagLinked | allocator.c:115 | setting a header's flag changes only that block's flag |
| HeapRep.ListedBelowUsed | allocator.c:127 | every free-list entry lies below `used`, so a carved header never collides with one |
| HeapProps.FitFromSkips | allocator.c:108-123 | every free-list entry the walk passes over is too small |
| HeapProps.AllocateTakesFirstFit | allocator.c:103-139 | mymalloc returns the first large enough entry on the free list, else a block carved at `used`; it returns NULL exactly when nothing fits and the carve would pass MAX_HEAP_SIZE, and then changes nothing |
| HeapProps.AllocateWithinCapacity | allocator.c:124-126 | a returned payload of `size` bytes ends at or below `used`, and so within MAX_HEAP_SIZE |
| HeapProps.PayloadsDisjoint | allocator.c:103-139 | the payloads of two different live pointers never overlap and end within the arena |
| HeapProps.AllocateApart | allocator.c:103-139 | the bytes mymalloc hands out overlap no payload that was live before the call, and that payload stays live with its size |
| HeapProps.AllocateKeepsCoalesced | allocator.c:103-139 | mymalloc keeps the heap coalesced: no two neighbours free and the last block in use |
| HeapProps.MergeNextShape | allocator.c:73-85 | on a coalesced heap, freeing and merge_next replace a run of blocks by one free block whose successor is in use |
| HeapProps.MergePrevShape | allocator.c:87-101 | merge_prev then extends that run backwards to a predecessor in use |
| HeapProps.ReleaseShape | allocator.c:141-161 | on a coalesced heap, myfree turns the freed block and its free neighbours into one free block between used ones, or drops them when they are the tail |
| HeapProps.MergeNextKeepsOthers | allocator.c:73-85 | merge_next keeps every other used block unchanged |
| HeapProps.MergePrevKeepsOthers | allocator.c:87-101 | merge_prev keeps every other used block unchanged |
| HeapProps.ReleaseKeepsOthers | allocator.c:141-161 | myfree keeps every other used block unchanged |
| HeapProps.ReleaseFrees | allocator.c:141-161 | after myfree the pointer passed to it is no longer live |
| HeapProps.CoalesceFreesAt | allocator.c:145-149 | after the flag clear and both merges, no block in use has its header where the freed block's was: the block is free or absorbed into a free predecessor |
| HeapProps.ReleaseKeepsLive | allocator.c:141-161 | freeing one pointer keeps every other live pointer live with the same size |
| HeapProps.ReleaseKeepsCoalesced | allocator.c:141-161 | myfree keeps the heap coalesced |
| HeapProps.ShrinkBreaksCoalesced | allocator.c:174-178 | a shrink can leave two free neighbours, because split does not merge |
| HeapProps.ShrinkFreesLast | allocator.c:174-178 | a shrink of the last block can leave a free last block |
| HeapProps.FreeUndoesCarve | allocator.c:150-157 | freeing the block just carved at the end restores the heap exactly |
| HeapProps.CarveGuardWraps | allocator.c:124 | with 64-bit sums, mymalloc's guard lets a request of 2^64 - 40 bytes through on an empty heap |
| HeapProps.GrowGuardWraps | allocator.c:196 | with 64-bit sums, myrealloc's grow-at-end guard lets a grow to 2^64 - 1 through |
| ResizeProps.SplitKeepsLive | allocator.c:55-71 | split keeps every live payload live; the split block's payload now holds exactly `size` bytes and every other payload keeps its size |
| ResizeProps.ShrinkKeepsLive | allocator.c:174-178 | the shrink case keeps every live payload live; the resized one holds at least `size` bytes and the others keep their size |
| ResizeProps.AbsorbNextKeepsLive | allocator.c:180-184 | merge_next of a used block with its free successor keeps every live payload live, and every other one keeps its size |
| ResizeProps.FuseKeepsLive | allocator.c:77-78 | fusing a used block with its free successor keeps every live payload live, and every other one keeps its size |
| ResizeProps.AbsorbToKeepsLive | allocator.c:180-195 | the absorb case keeps every live payload live; the resized one holds at least `size` bytes and the others keep their size |
| ResizeProps.GrowLastKeepsLive | allocator.c:196-200 | growing the last block keeps every live payload live; the last one holds exactly `size` bytes and the others keep their size |
| ResizeProps.MoveResult | allocator.c:201-206 | a failed move changes nothing; a successful one returns a pointer that was not live before, is live afterwards and holds at least `size` bytes, and the old pointer is no longer live |
| ResizeProps.MoveParts | allocator.c:201-206 | a move is mymalloc, which hands out a block not live before and leaves the old block live, followed by myfree of the old pointer |
| ResizeProps.NotLiveBefore | allocator.c:103-139 | mymalloc never returns a pointer that was already live |
| ResizeProps.MoveKeepsLive | allocator.c:201-206 | a move keeps every other live payload live with its size |
| ResizeProps.ResizeAtResult | allocator.c:171-207 | resizing a live block: NULL only when the move failed, and then nothing changed; otherwise the same pointer or one not live before, now live with at least `size` bytes; a different pointer means the old one is no longer live; a request no larger than the block keeps the pointer |
| ResizeProps.ResizeAtKeepsLive | allocator.c:171-207 | every resize case keeps every other live payload live with its size |
| ResizeProps.ResizeResult | allocator.c:163-208 | myrealloc returns NULL for size 0 and frees the old pointer; otherwise NULL only when nothing changed, and else the old pointer or one not live before, now live with a block of at least `size` bytes, and a different pointer means the old one is no longer live; a live block asked for no more than it holds stays where it is |
| ResizeProps.ResizeLiveResult | allocator.c:171-207 | myrealloc of a live pointer to a nonzero size: NULL only when nothing changed; otherwise the same pointer or one not live before, fitting `size`, with the old pointer freed when they differ; a request no larger than the block keeps the pointer |
| ResizeProps.ResizeInPlace | allocator.c:174-178 | myrealloc of a live pointer to a nonzero size no larger than its block returns that pointer |
| ResizeProps.AllocateFits | allocator.c:168-170 | myrealloc of NULL is mymalloc: NULL only when nothing changed, otherwise a pointer not live before, now live with at least `size` bytes |
| ResizeProps.ResizeKeepsLive | allocator.c:163-208 | myrealloc keeps every other live pointer live with the same size, whichever case applies |
| ResizeProps.ResizeApart | allocator.c:163-208 | the `size` bytes myrealloc returns overlap no other payload that was live before the call |
| RegionTracker.LastAt | testharness.c:35 | the last slot in use holding `p`, or -1 when none does |
| RegionTracker.FirstEmpty | testharness.c:40 | the first slot in use whose size is 0, or -1 when none is |
| RegionTracker.Slot | testharness.c:42-46 | the destination slot is below 256, and is a new slot only when the table has room |
| RegionTracker.SlotChoice | testharness.c:33-46 | on a resize, the last slot holding `p`; else the first slot of size 0; else a new slot at the end, or slot `p * 91 mod 256` when the table is full |
| RegionTracker.AddOutcome | testharness.c:28-53 | each error is raised exactly under its condition and leaves the table as it was. On success `(p, s)` is written at the chosen slot and no other slot changes, `usedRegions` grows by at most one, and `memUsed` covers `p + s` |
| RegionTracker.AddKeepsRecorded | testharness.c:28-53 | every slot in use stays cleared or inside the arena and within `memUsed` |
| RegionTracker.AddKeepsDisjoint | testharness.c:28-53 | no two slots in use overlap, before and after an accepted region |
| RegionTracker.UntrackForgets | testharness.c:55-63 | after trackFree no slot in use holds `p` (unless `p` is NULL), other slots and `memUsed` are unchanged, and `usedRegions` drops by at most one |
| RegionTracker.UntrackKeeps | testharness.c:55-63 | trackFree keeps the table recorded and disjoint |
| RegionTracker.Tracker.constructor | testharness.c:13-25 | the static table: all slots cleared, none in use, no peak, no error |
| RegionTracker.Tracker.Scan | testharness.c:33-41 | the scan finds a clash iff some checked slot overlaps `[p, p + s)`, and otherwise picks the last slot of `p` on a resize, else the first slot of size 0 |
| RegionTracker.Tracker.TrackAdd | testharness.c:28-53 | the table and error after trackAdd are those of `Add`; an error raised earlier stays when none is raised now |
| RegionTracker.Tracker.TrackFree | testharness.c:55-63 | the table after trackFree is `Untrack` of the old one and the error is unchanged |
| Harness.WrapMalloc | testharness.c:68-74 | with an error pending, NULL and nothing changes; otherwise mymalloc, then trackAdd of its result, and NULL when trackAdd raised an error |
| Harness.WrapFree | testharness.c:76-80 | with an error pending nothing changes; otherwise myfree and trackFree of the same pointer |
| Harness.WrapRealloc | testharness.c:82-93 | with an error pending, NULL and nothing changes. Otherwise myrealloc; an unchanged pointer is re-tracked as a resize, a new one is added and the old one forgotten; NULL when an error was raised |
| Harness.SlotSurvivesAllocate | allocator.c:103-139 | a tracked live payload stays live and does not overlap the region mymalloc hands out |
| Harness.SlotSurvivesRelease | allocator.c:141-161 | a tracked live payload other than the freed one stays live with its size |
| Harness.AllocateKeepsMirror | allocator.c:103-139 | after mymalloc every tracked payload is still live, and none overlaps the new region |
| Harness.AllocatedTracked | allocator.c:103-139 | the region mymalloc hands out lies within a live payload |
| Harness.AddKeepsMirror | testharness.c:28-53 | trackAdd of a live region keeps the table mirroring the heap, whatever it decides |
| Harness.MallocPassesOverlapCheck | testharness.c:68-74 | against a table mirroring the heap, mymalloc's region never raises "Allocated already-used memory", and the table mirrors the new heap afterwards |
| Harness.FreeKeepsMirror | testharness.c:76-80 | myfree and trackFree of the same pointer keep the table mirroring the heap |
| Harness.NullResultFlagged | testharness.c:29 | a failed mymalloc, and every wraprealloc to size 0, is reported as "Allocated illegal address" |
| Harness.Pow2Default | testharness.c:237-239 | the default arena of 2^27 bytes is exactly MAX_HEAP_SIZE |
| Harness.ExactFitReportedAsOverflow | testharness.c:30 | a request filling the default arena exactly succeeds in the allocator but is reported as "Allocation overflowed" |
| Harness.SmallArenaOverrun | testharness.c:237-242 | with an arena of 2^memBits bytes, memBits from 3 to 26, a first request for the whole arena succeeds in the allocator, whose block ends past the arena, and trackAdd then reports "Allocation overflowed" |

## Left out

- Headers live in a map from offset to `Header`, separate from the payload bytes in `mem`. A payload write therefore never corrupts a header, and pointer casts between headers and payloads are not modelled.
- `next_free` of a block that is no longer on the free list keeps whatever stale value it had. The model constrains only the links reachable from `head`.
- `size_t` and pointer arithmetic is unbounded in the model. In the allocator its wrap-around matters in the two capacity guards, described under Findings; the model uses the intended comparison.
- RegionTracker.Add: trackAdd's sums `p + s` (testharness.c:30 and 36) are unbounded in the model. In C they wrap: with `p` = allmem + 40 and `s` = 2^64 - 40, `p + s` wraps below `allmem + 2^memBits`, so the bound test passes, and the overlap test `p + s > regions[i].p` fails against every slot, so trackAdd records a region it should have refused. The tracker lemmas hold only for regions whose end fits in 64 bits.
- The allocator's arena is always MAX_HEAP_SIZE (2^27) bytes, but the harness accepts arenas of 2^memBits bytes for memBits from 3 to 31 (testharness.c:233-242). For memBits below 27, the C allocator can write headers and payloads past the end of the arena, and it does so before trackAdd objects (`Harness.SmallArenaOverrun`). The model's `mem` always holds MAX_HEAP_SIZE bytes, so this out-of-bounds write is not captured. For memBits above 27, the allocator uses only the first 2^27 bytes.
- The wrappers do not require the heap's `base` to be the tracker's `allmem`; the harness passes `allmem` to allocator_init (testharness.c:248).
- Pointers are natural numbers `base + offset`, with 0 for NULL. Alignment and the C pointer-comparison rules are not modelled.
- Calling allocator_init again on a live heap is modelled as constructing a new `Heap`.
- `resetTracing`, the timing code, workload loading (`dlopen`), the fast wrappers `wrapmalloc2`/`wraprealloc2`, and `main` are not part of this model. Neither are command-line parsing and the `memset` of the arena.
- Allocator.Heap.Free: requires a NULL or live pointer. Freeing anything else, such as a double free, is undefined behaviour in the C code.
- Allocator.Heap.Realloc: requires a NULL or live pointer, for the same reason.
- Harness.WrapFree: requires a NULL or live pointer, as `Allocator.Heap.Free` does.
- Harness.WrapRealloc: requires a NULL or live pointer, as `Allocator.Heap.Realloc` does.
- RegionTracker.AddKeepsDisjoint: on a resize, it requires at most one slot to hold the pointer. With two, trackAdd skips both in its overlap check and the table can keep an overlap.
- Harness.FreeKeepsMirror: proved for malloc and free. No lemma states that the table keeps mirroring the heap across realloc.

## Findings

| source | as written | input that shows it | evidently intended | confidence | as-written member | corrected member |
|---|---|---|---|---|---|---|
| allocator.c:124 | `used + total_size > MAX_HEAP_SIZE`, where `total_size = sizeof(Metadata) + size`, in 64-bit `size_t` | `used` = 0, `size` = 2^64 - 40: the sum wraps to 0, so the guard passes and a block reaching far past the arena is carved | refuse any block that does not end within MAX_HEAP_SIZE | high (not executed) | HeapProps.CarveGuardWraps | HeapProps.AllocateWithinCapacity |
| allocator.c:196 | `used + (size - old_size) <= MAX_HEAP_SIZE` in 64-bit `size_t` | one 8-byte block, `used` = 48, realloc to 2^64 - 1: the sum wraps to 39, so the block is grown in place past the arena | grow in place only when the grown block still ends within MAX_HEAP_SIZE | high (not executed) | HeapProps.GrowGuardWraps | HeapSpec.ResizeAtKeepsInv |
