# Large object spaces of the ART garbage collector, in Dafny

This project models `runtime/gc/space/large_object_space.cc`. That file holds the
allocators the ART runtime uses for large objects, such as big primitive
arrays and strings, and it proves properties of them.

- **FreeListSpace** (module `FreeList`, class `FreeListSpace`; layout in
  `FreeListLayout`). One mapped region `[begin, end)` is carved into
  page-aligned blocks. Each live block starts with an `AllocationHeader`. The
  header holds the block's size and the size of the free gap right before it.
  `free_blocks_` is the set of headers that record a non-empty gap.
  `free_end_` is the length of the free region at the top. `Alloc` takes the
  best-fitting gap (`lower_bound` on the gap size) or else the top region.
  `Free` merges the block with its gap and with the following gap.
  `Walk` reports the live objects in address order.
- **LargeObjectMapSpace** (module `MapSpace`). Each object gets an anonymous
  mapping of its own. `mem_maps_` is an ordered map from object address to
  mapping. `large_objects_` records every address handed out. `Walk`
  reports the mappings in address order.
- **ValgrindLargeObjectMapSpace** (module `ValgrindMapSpace`). A map space
  whose objects sit between two red zones of one page each. Every operation
  moves the address across the leading red zone, with `uintptr_t`
  arithmetic modulo 2^64, and delegates to the map space.
- **LargeObjectSpace** (module `LargeObjects`). What the three spaces share:
  - the live and mark bitmaps, and `SwapBitmaps`/`CopyLiveToMarked`;
  - `FreeList` over a batch of pointers;
  - `Sweep` with its `SweepCallback`, which frees every object that is live
    but unmarked and counts the objects and bytes freed.
  Virtual dispatch is a match on the `SpaceImpl` datatype.

State that C++ mutates in place is a Dafny class with `modifies` clauses:
- the headers and `free_blocks_`;
- `mem_maps_`, `large_objects_`, `begin_`, `end_` and the four counters;
- the bitmaps.

Header memory is a map from aligned address to header. Any slot without a
live header reads as zero. That is what `madvise(MADV_DONTNEED)` leaves
behind, and what `GetNextNonFree` relies on. The ghost field `blocks` lists
the live headers in address order. The invariant `Tiled` says that blocks
and gaps tile `[begin, end - free_end_)` exactly.

Inputs that come from outside the file are parameters:
- The mapping primitive `MemMap::MapAnonymous` is a `MapOutcome`. It is
  either a fresh range that overlaps no live mapping, or a failure.
- The walk of the live/mark bitmaps, `LargeObjectBitmap::SweepWalk`, is the
  sequence of pointer batches it hands to the callback. Its precondition
  says those batches list every live-but-unmarked address exactly once.

Constants: `kPageSize` = `kAlignment` = 4096 and `sizeof(AllocationHeader)` =
16. `size_t` and `uintptr_t` wrap modulo 2^64 wherever the model computes
addresses or sizes.

## Model

| member | source | states |
|---|---|---|
| WalkProtocol.WalkCallsShape | runtime/gc/space/large_object_space.cc:222-223 | each reported object gives exactly two callback calls: its span, then the `(NULL, NULL, 0)` sentinel |
| Sums.SortedKeysSpec | runtime/gc/space/large_object_space.cc:177 | iterating an ordered map visits each key once, in strictly ascending order |
| FreeListLayout.AllocationSizeAsWrittenWraps | runtime/gc/space/large_object_space.cc:321 | in `size_t`, a request in the last page below 2^64 rounds to a slot smaller than the request plus its header |
| FreeListLayout.AllocationSizeAsWrittenIsZeroAt | runtime/gc/space/large_object_space.cc:321 | the request 2^64 - 16 rounds to a slot of 0 bytes |
| FreeListLayout.AllocationSizeFor | runtime/gc/space/large_object_space.cc:321 | the slot for a request is aligned and is at least the request plus header, but less than a page more; it exists iff that fits in `size_t` |
| FreeListLayout.AllocationSizeAgrees | runtime/gc/space/large_object_space.cc:321 | where nothing wraps, the source's rounding and the checked one agree |
| FreeListLayout.TilingCovers | runtime/gc/space/large_object_space.cc:213-226 | every address below the top free region lies in exactly one block-with-its-gap |
| FreeListLayout.HeaderNeighbourhood | runtime/gc/space/large_object_space.cc:243-251 | a live header's recorded gap lies below it and holds no header; its block is non-empty and ends at or below the top free region |
| FreeListLayout.GapHoldsNoHeader | runtime/gc/space/large_object_space.cc:243-251 | no slot inside a recorded gap holds a header, so a scan over it reads zero headers only |
| FreeListLayout.Conservation | runtime/gc/space/large_object_space.cc:204-209 | `begin` plus live bytes plus recorded gaps is exactly where the top free region starts |
| FreeListLayout.CarveGapKeepsTiling | runtime/gc/space/large_object_space.cc:332-340 | carving a block from the front of a gap keeps the tiling; the new header joins the block order; live bytes grow by the block size |
| FreeListLayout.CarveTailKeepsTiling | runtime/gc/space/large_object_space.cc:343-346 | placing a block at the start of the top free region keeps the tiling, with that region shorter by the block |
| FreeListLayout.FreeLastKeepsTiling | runtime/gc/space/large_object_space.cc:271-274 | freeing the last block moves it and its gap into the top free region and keeps the tiling |
| FreeListLayout.FreeMiddleKeepsTiling | runtime/gc/space/large_object_space.cc:275-290 | freeing an inner block makes its gap, the block and the next gap one gap on the next header; the tiling holds |
| FreeListLayout.LiveSpans | runtime/gc/space/large_object_space.cc:219-222 | one span per live block: object address, object address plus size minus header, allocation size |
| FreeListLayout.LiveSpansAreObjects | runtime/gc/space/large_object_space.cc:219-222 | each reported span starts at a live object, carries its allocation size and ends inside the region below the top free region |
| FreeListLayout.LiveSpansCoverObjects | runtime/gc/space/large_object_space.cc:213-226 | every live object is reported |
| FreeListLayout.LiveSpansAscending | runtime/gc/space/large_object_space.cc:213-226 | reported spans are in strictly ascending address order and do not overlap |
| FreeList.FindBestFit | runtime/gc/space/large_object_space.cc:327-328 | finds a gap iff some gap of `free_blocks_` fits; the one found has the smallest fitting gap |
| FreeList.ObjectSizesAfterFree | runtime/gc/space/large_object_space.cc:253-301 | after either kind of free, the live objects are the old ones without the freed object |
| FreeList.FreeListSpace.constructor | runtime/gc/space/large_object_space.cc:204-209 | a fresh space is one top free region of `end - begin` bytes, with no headers and zero counters |
| FreeList.FreeListSpace.AllocationSize | runtime/gc/space/large_object_space.cc:307-316 | a live object's size is aligned and non-zero; its usable size is that minus the header; its block lies below the top free region |
| FreeList.FreeListSpace.ObjectBlockInside | runtime/gc/space/large_object_space.cc:237-241 | the header of a live object, one header below it, is well formed and its block lies inside the region |
| FreeList.FreeListSpace.LiveObjectsContained | runtime/gc/space/large_object_space.cc:303-305 | `Contains` holds for the first and the last usable byte of every live object |
| FreeList.FreeListSpace.Balance | runtime/gc/space/large_object_space.cc:292-294 | live bytes plus recorded gaps plus `free_end_` equal the region size |
| FreeList.FreeListSpace.RemoveFreePrev | runtime/gc/space/large_object_space.cc:228-235 | succeeds iff the header is live, records a gap and is in `free_blocks_`; only then is it erased |
| FreeList.FreeListSpace.GetNextNonFree | runtime/gc/space/large_object_space.cc:243-251 | from the start of a gap, returns the next live header; every slot passed reads free; the distance is that header's recorded gap |
| FreeList.FreeListSpace.Alloc | runtime/gc/space/large_object_space.cc:318-371 | see the list after this table |
| FreeList.FreeListSpace.AllocSlot | runtime/gc/space/large_object_space.cc:326-350 | the best-fit-or-top choice for an already rounded slot, with the resulting headers, free set and counters |
| FreeList.FreeListSpace.GapFitsBelowHeader | runtime/gc/space/large_object_space.cc:333 | a recorded gap lies below its header, so the address of the gap's start does not underflow |
| FreeList.FreeListSpace.TakeFromGap | runtime/gc/space/large_object_space.cc:329-340 | the block goes at the gap's start; the header keeps the rest of the gap and stays in `free_blocks_` iff some is left |
| FreeList.FreeListSpace.TakeFromTail | runtime/gc/space/large_object_space.cc:343-346 | the block goes at `end - free_end_`, and `free_end_` shrinks by the slot |
| FreeList.FreeListSpace.Free | runtime/gc/space/large_object_space.cc:253-301 | see the list after this table |
| FreeList.FreeListSpace.FreeLastBlock | runtime/gc/space/large_object_space.cc:262-274 | the last block ends exactly at the top free region (the `CHECK_EQ`), which grows by the block and its gap |
| FreeList.FreeListSpace.FreeInnerBlock | runtime/gc/space/large_object_space.cc:275-291 | the next live header, whether adjacent or behind free slots, records the merged gap and enters `free_blocks_` |
| FreeList.FreeListSpace.AbsorbPrevGap | runtime/gc/space/large_object_space.cc:265-270 | the freed range is the gap plus the block; the header leaves `free_blocks_` |
| FreeList.FreeListSpace.MergeIntoNext | runtime/gc/space/large_object_space.cc:276-290 | the next live header's gap becomes the freed range plus its own gap, and the header is in `free_blocks_` |
| FreeList.PlacedBlockFreesBack | runtime/gc/space/large_object_space.cc:262-290 | a block `Alloc` carved from a gap is followed by that gap's header with no header between, and merging it back restores the header table and `free_blocks_`; a block taken from the top ends at the top free region, and returning it restores the table, `free_blocks_` and `free_end_` |
| FreeList.TailSlotWasFree | runtime/gc/space/large_object_space.cc:343-345 | no live header sits at the start of the top free region, so a block placed there is fresh |
| FreeList.FreeListSpace.FreeJustPlaced | runtime/gc/space/large_object_space.cc:253-301 | `Free` of a block `Alloc` has just placed restores the headers, `free_blocks_` and `free_end_`; the live counters drop by the slot, the totals stay |
| FreeList.FreeListSpace.AllocThenFree | runtime/gc/space/large_object_space.cc:253-371 | an `Alloc` followed by a `Free` of its result restores the headers, `free_blocks_`, `free_end_` and the live counters; the totals keep the allocation |
| FreeList.FreeListSpace.Walk | runtime/gc/space/large_object_space.cc:213-226 | the callback calls are exactly the span-and-sentinel pair of every live block, in address order |
| MapSpace.MapSpans | runtime/gc/space/large_object_space.cc:177-181 | one span per mapping: start, end and size of each mapping, every mapping once, in ascending address order |
| MapSpace.AllocStep | runtime/gc/space/large_object_space.cc:120-137 | adding a fresh mapping keeps the invariant: the live counters are the number and total size of the mappings |
| MapSpace.FreeStep | runtime/gc/space/large_object_space.cc:148-153 | removing a mapping keeps the invariant; the `DCHECK_GE` on the byte counter holds |
| MapSpace.LargeObjectMapSpace.constructor | runtime/gc/space/large_object_space.cc:98-100 | a fresh space is valid (so `begin_` is null) and has no mappings, a null extent and zero counters |
| MapSpace.LargeObjectMapSpace.AllocationSize | runtime/gc/space/large_object_space.cc:157-162 | a size is returned iff the object is live (`Contains`); the failed `CHECK` is `None`; the mapping lies below `end_` |
| MapSpace.LargeObjectMapSpace.Alloc | runtime/gc/space/large_object_space.cc:110-139 | see the list after this table |
| MapSpace.LargeObjectMapSpace.Insert | runtime/gc/space/large_object_space.cc:119-137 | records a fresh mapping in `mem_maps_` and `large_objects_`, moves `begin_`/`end_` by the `std::min`/`std::max` of lines 125-129, counts it; `begin_` stays null |
| MapSpace.LargeObjectMapSpace.Widen | runtime/gc/space/large_object_space.cc:125-129 | `begin_`/`end_` become the `std::min`/`std::max` step of `WidenExtent`, so the object lies below `end_`; `begin_` stays null |
| MapSpace.LargeObjectMapSpace.Record | runtime/gc/space/large_object_space.cc:121-137 | the fresh mapping joins `mem_maps_` and `large_objects_`, and each counter grows by its size or by one |
| MapSpace.LargeObjectMapSpace.Free | runtime/gc/space/large_object_space.cc:141-155 | frees iff the pointer is live, returning the mapping size; the live counters drop and the rest is untouched; a non-live pointer (the `LOG(FATAL)`) is `None` and changes nothing |
| MapSpace.LargeObjectMapSpace.Walk | runtime/gc/space/large_object_space.cc:175-182 | the callback calls are the span-and-sentinel pair of every mapping, in address order |
| MapSpace.ExtentBeginIsNull | runtime/gc/space/large_object_space.cc:125 | `begin_` stays null after any sequence of allocations; the class invariant `Valid()` carries the same fact for the space's own `begin_` |
| MapSpace.ExtentEndIsGreatest | runtime/gc/space/large_object_space.cc:126-129 | `end_` is the greatest end of all objects ever allocated |
| ValgrindMapSpace.AddRedZone | runtime/gc/space/large_object_space.cc:45-46 | the object address is the mapping start plus a red zone, modulo 2^64 |
| ValgrindMapSpace.SubRedZone | runtime/gc/space/large_object_space.cc:57-58 | the mapping start is the object address minus a red zone, modulo 2^64 |
| ValgrindMapSpace.RedZoneRoundTrip | runtime/gc/space/large_object_space.cc:45-73 | adding then removing the red zone, or the reverse, is the identity for every address |
| ValgrindMapSpace.Request | runtime/gc/space/large_object_space.cc:43 | the map space is asked for `num_bytes` plus two red zones, as a `size_t` |
| ValgrindMapSpace.AllocationSize | runtime/gc/space/large_object_space.cc:56-60 | a size is returned iff the object one red zone up is live; it is the whole mapping |
| ValgrindMapSpace.ObjectSizes | runtime/gc/space/large_object_space.cc:69-73 | the live objects are exactly the addresses one red zone above a mapping start, each with its mapping's size |
| ValgrindMapSpace.ObjectSizesRemove | runtime/gc/space/large_object_space.cc:62-67 | dropping the mapping under an object drops exactly that object |
| ValgrindMapSpace.Alloc | runtime/gc/space/large_object_space.cc:40-54 | as written; see the list after this table |
| ValgrindMapSpace.AllocNullChecked | runtime/gc/space/large_object_space.cc:40-54 | with a null check: a failed mapping gives null and no change; on success, the same whole new map-space state as `Alloc` |
| ValgrindMapSpace.AllocatedAtShown | runtime/gc/space/large_object_space.cc:40-54 | a fresh mapping puts the object one red zone in, live, with the mapping's size; when nothing wraps, `num_bytes` and a whole red zone fit after it |
| ValgrindMapSpace.Free | runtime/gc/space/large_object_space.cc:62-67 | frees iff the object is live, returning the mapping size; only that mapping and the live counters change (totals, `large_objects_` and the extent stay); the failed size lookup is `None` and changes nothing |
| LargeObjects.LargeObjectBitmap.Clear | runtime/gc/space/large_object_space.cc:411 | the bit of the object is reset and nothing else changes |
| LargeObjects.LargeObjectBitmap.CopyFrom | runtime/gc/space/large_object_space.cc:95 | the bits become those of the source; the name is kept |
| LargeObjects.FreeInFreeList | runtime/gc/space/large_object_space.cc:253-301 | a free-list `Free` returns the object's size and removes exactly it from the live objects |
| LargeObjects.FreeInMapSpace | runtime/gc/space/large_object_space.cc:141-155 | a map-space `Free` of a live pointer returns the mapping size and removes exactly that mapping; a non-live pointer (the `LOG(FATAL)`) is `None` and changes nothing |
| LargeObjects.FreeInValgrindSpace | runtime/gc/space/large_object_space.cc:62-67 | a red-zoned `Free` of a live object returns the size and removes exactly that object; a non-live one is `None` and changes nothing |
| LargeObjects.SwapTwice | runtime/gc/space/large_object_space.cc:79-85 | swapping twice restores the bitmaps |
| LargeObjects.LargeObjectSpace.constructor | runtime/gc/space/large_object_space.cc:87-91 | given a valid concrete space and two distinct bitmaps, the space is valid and uses them |
| LargeObjects.LargeObjectSpace.SwapBitmaps | runtime/gc/space/large_object_space.cc:79-85 | the bitmaps trade roles; the names stay with the roles (live stays "live") |
| LargeObjects.LargeObjectSpace.CopyLiveToMarked | runtime/gc/space/large_object_space.cc:94-96 | the mark bitmap then holds the live bits; the live bitmap and both names are unchanged |
| LargeObjects.LargeObjectSpace.FreeObject | runtime/gc/space/large_object_space.cc:170 | the virtual `Free` on any of the three spaces frees iff the object is live, returning its size and removing it from the live objects; otherwise (the map spaces' `LOG(FATAL)`) it is `None` and changes nothing |
| LargeObjects.LargeObjectSpace.FreeList | runtime/gc/space/large_object_space.cc:164-173 | the total is the sum of the freed objects' sizes; exactly those objects leave the space |
| LargeObjects.LargeObjectSpace.SweepCallback | runtime/gc/space/large_object_space.cc:401-416 | freed objects grow by the batch size and bytes by its sizes; the batch leaves the space; its live bits are cleared iff bitmaps are not swapped |
| LargeObjects.LargeObjectSpace.Sweep | runtime/gc/space/large_object_space.cc:418-432 | see the list after this table |
| LargeObjects.LargeObjectSpace.SweepBatches | runtime/gc/space/large_object_space.cc:428-430 | the callbacks over all batches together free every listed object once and count them and their bytes |
| LargeObjects.LargeObjectSpace.SweepNext | runtime/gc/space/large_object_space.cc:410-415 | one more callback extends the freed prefix of the batches by the next batch |

The five longest contracts:

- `FreeList.FreeListSpace.Alloc`:
  - A request whose slot overflows `size_t` returns null.
  - Otherwise it takes the best-fitting gap, or else the top region, or returns null.
  - The new object is live; it was not live before.
  - The slot is the rounded request, and the usable size is the slot minus the header.
  - All four counters grow.
  - No other object's liveness changes.
- `FreeList.FreeListSpace.Free`:
  - Returns the allocation size.
  - The last block goes to the top region; an inner block's gap moves to the next live header (`next`).
  - `free_blocks_` stays exact.
  - The live counters drop.
  - Only the freed object stops being live.
- `MapSpace.LargeObjectMapSpace.Alloc`:
  - A failed mapping returns null and changes nothing.
  - Otherwise the object is the mapping start and is newly live.
  - bytes = usable = the mapping size.
  - `begin_` goes through `std::min`; `end_` widens.
  - All counters grow.
- `ValgrindMapSpace.Alloc`:
  - The usable size is `num_bytes`.
  - On success, as `AllocatedAtShown` states, and the map space's whole new state is recorded: the mapping in `mem_maps_` and `large_objects_`, the extent, and all four counters.
  - On a failed mapping it returns the non-null address `kValgrindRedZoneBytes`.
- `LargeObjects.LargeObjectSpace.Sweep`:
  - An empty extent frees nothing.
  - Otherwise every live object the collector left unmarked is freed exactly once.
  - `objects` is the number of such objects and `bytes` the sum of their sizes.
  - They leave the space; the live bits are cleared iff the bitmaps are not swapped.
  - The mark bitmap is untouched.

## Left out

- Locks: `MutexLock`, `IsExclusiveHeld` and `AssertExclusiveHeld`. Every operation runs atomically in the model.
- `LargeObjectMapSpace::Contains` and `FreeListSpace::Contains` are plain predicates. Their meaning is stated through `AllocationSize` (map space) and `LiveObjectsContained` (free list).
- `MemMap` internals, `madvise` and `mprotect`. A freed header slot simply reads as zero.
- `delete` of the `MemMap` in `Free`. The mapping leaves `mem_maps_`, and nothing is unmapped.
- Logging, `DumpSpaces` and `FreeListSpace::Dump`. They only produce diagnostics.
- `LogFragmentationAllocFailure` is `UNIMPLEMENTED(FATAL)`.
- `LargeObjectMapSpace::Create` and `FreeListSpace::Create`. The model starts from the constructors. `RunningOnValgrind()` becomes the choice of the `SpaceImpl` case.
- The `VALGRIND_MAKE_MEM_*` client requests have no effect on the allocator state.
- `LargeObjectBitmap::SweepWalk` is a parameter: the batches it would pass to `SweepCallback`. Its precondition describes them, and the bitmap's own word layout is not modelled (a bitmap is a set of addresses).
- `kDebugSpaces` is a compile-time switch that is off. The `CHECK(Contains(...))` in `FreeList` is not modelled.
- LargeObjects.LargeObjectSpace.FreeObject: on the free-list space it requires a live object, as `FreeList.FreeListSpace.Free` does. On the red-zoned space it requires an address below 2^64. Only the map spaces' non-live path (the `LOG(FATAL)` on lines 144-147) is modelled, as `None`.
- LargeObjects.LargeObjectSpace.FreeList: requires distinct, live pointers. A non-live or repeated pointer is fatal in the map spaces (lines 144-147) and reaches the paths listed for `FreeList.FreeListSpace.Free` in the free-list space. Neither is modelled; `FreeObject` models the single map-space case as `None`.
- The `SweepCallbackContext` and the heap bitmap lock are gone: `Sweep` passes the running `ObjectBytePair` along.
- FreeList.FreeListSpace.Free: requires a live object, so what happens to any other pointer is not modelled. The `DCHECK(Contains(obj))` is off in release builds. A pointer whose header is misaligned aborts at the `CHECK` on line 257. An already freed or never allocated object reads a stale or zero header. That ends in a `CHECK` of `RemoveFreePrev` (lines 229-233) or the `CHECK_EQ` on line 273. Otherwise it corrupts `free_blocks_` and the counters with a size of 0.
- FreeList.FreeListSpace.AllocationSize: requires a live object. For any other pointer, lines 307-316 read a stale or zero header with no check; that path is not modelled.
- FreeList.FindBestFit: among gaps of equal size, it does not say which one is taken. The `free_blocks_` comparator that breaks such ties is declared in `large_object_space.h`, which is not part of this model.
- MapSpace.LargeObjectMapSpace.Alloc: requires the mapping to overlap no live mapping. Disjointness of the live mappings is not kept as an invariant.
- `size_t` wrap of the four counters and of `end_` is not modelled. They are unbounded naturals; the live counters never go below zero, since a free only subtracts what an allocation added.
- `large_objects_` is appended to by `Alloc` and never erased. No operation of this file reads it.
- `begin_`, `end_` and the counters of `LargeObjectSpace` are fields of each concrete class in the model. `LargeObjectSpace.Begin()`/`End()` read them through the dispatch.
- The map space `Walk` follows the code. `mem_maps_` is an ordered map, so mappings are reported in address order, not in allocation order.

## Findings

| source | as written | input that shows it | evidently intended | confidence | as-written member | corrected member |
|---|---|---|---|---|---|---|
| runtime/gc/space/large_object_space.cc:40-54 | `ValgrindLargeObjectMapSpace::Alloc` adds the red zone to the map space's result without checking it for null | any request whose `MapAnonymous` fails: the base `Alloc` returns null and the caller gets the non-null address 4096 | return null when the base allocation fails | medium, not executed | ValgrindMapSpace.Alloc | ValgrindMapSpace.AllocNullChecked |
| runtime/gc/space/large_object_space.cc:321 | `RoundUp(num_bytes + sizeof(AllocationHeader), kAlignment)` in `size_t` wraps for requests in the last page below 2^64 | `num_bytes` = 2^64 - 16 rounds to a slot of 0 bytes; any request above 2^64 - 4096 - 16 gets a slot smaller than itself | fail the request (return null) when the rounded slot does not fit in `size_t` | low, not executed | FreeListLayout.AllocationSizeAsWrittenWraps | FreeListLayout.AllocationSizeFor |
