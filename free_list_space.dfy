/**
 * FreeListSpace: the large object space that carves one mapped region into
 * page-aligned blocks with in-band headers (see FreeListLayout for the
 * layout invariant). The allocator state is the header memory, the set of
 * headers that record a free gap (free_blocks_), the size of the trailing
 * free region (free_end_) and the allocation counters.
 */
module FreeList {
  import opened Wrappers
  import opened Sums
  import opened WalkProtocol
  import opened FreeListLayout

  /** The null object pointer. */
  const kNull: nat := 0

  /** Some recorded gap can hold a block of `a` bytes. */
  predicate SomeGapFits(headers: map<nat, AllocationHeader>, freeBlocks: set<nat>, a: nat)
  {
    exists g :: g in freeBlocks && g in headers && headers[g].prevFree >= a
  }

  /** The gap recorded on g holds `a` bytes and no recorded gap that holds them is smaller. */
  predicate IsBestFit(headers: map<nat, AllocationHeader>, freeBlocks: set<nat>, g: nat, a: nat)
  {
    && g in freeBlocks && g in headers && headers[g].prevFree >= a
    && forall x :: x in freeBlocks && x in headers && headers[x].prevFree >= a ==> headers[g].prevFree <= headers[x].prevFree
  }

  /**
   * free_blocks_.lower_bound for a gap of `a` bytes: the set is ordered by
   * prev_free, so the first entry at or past the probe records the smallest
   * gap that holds `a` bytes; None when no recorded gap is large enough.
   */
  method FindBestFit(headers: map<nat, AllocationHeader>, freeBlocks: set<nat>, a: nat) returns (best: Option<nat>)
    ensures best.Some? <==> SomeGapFits(headers, freeBlocks, a)
    ensures best.Some? ==> IsBestFit(headers, freeBlocks, best.value, a)
  {
    var fits := set x | x in freeBlocks && x in headers && headers[x].prevFree >= a;
    if fits == {} {
      forall w | w in freeBlocks && w in headers
        ensures headers[w].prevFree < a
      {
        assert w !in fits;
      }
      return None;
    }
    var sizes := set x | x in fits :: headers[x].prevFree;
    ghost var w :| w in fits;
    assert headers[w].prevFree in sizes;
    ghost var least := Least(sizes);
    var m :| m in sizes && forall y :: y in sizes ==> m <= y;
    var g :| g in fits && headers[g].prevFree == m;
    forall x | x in freeBlocks && x in headers && headers[x].prevFree >= a
      ensures headers[g].prevFree <= headers[x].prevFree
    {
      assert x in fits;
      assert headers[x].prevFree in sizes;
    }
    best := Some(g);
  }

  /**
   * The allocator invariant over the fields of a FreeListSpace: the region
   * and the trailing free region are aligned, the live blocks and their gaps
   * tile the rest, free_blocks_ holds exactly the headers that record a gap,
   * and the counters count the live blocks and their bytes.
   */
  ghost predicate Consistent(begin: nat, end: nat, freeEnd: nat, headers: map<nat, AllocationHeader>, freeBlocks: set<nat>,
                             blocks: seq<nat>, numObjects: nat, numBytes: nat, totalObjects: nat, totalBytes: nat)
  {
    && begin <= end <= kSizeLimit && Aligned(begin) && Aligned(end)
    && freeEnd <= end - begin && Aligned(freeEnd)
    && Tiled(blocks, headers, begin, end - freeEnd)
    && freeBlocks == FreeBlocksOf(headers)
    && numObjects == |blocks|
    && numBytes == Sum(Sizes(blocks, headers))
    && numObjects <= totalObjects
    && numBytes <= totalBytes
  }

  /** The front of the trailing free region holds no header: every live block ends at or below it. */
  lemma TailSlotWasFree(blocks: seq<nat>, headers: map<nat, AllocationHeader>, begin: nat, freeEndStart: nat)
    requires Tiled(blocks, headers, begin, freeEndStart)
    ensures freeEndStart !in headers
  {
    if freeEndStart in headers {
      HeaderNeighbourhood(blocks, headers, begin, freeEndStart, freeEndStart);
    }
  }

  /**
   * What Alloc did to the header table, free set and trailing free region
   * when it placed a block of `a` bytes with its header at `nh`: carved from
   * the front of the gap recorded on `gap`, or taken from the start of the
   * trailing free region.
   */
  ghost predicate AllocPlaced(headers0: map<nat, AllocationHeader>, freeBlocks0: set<nat>, freeEnd0: nat, end: nat,
                              a: nat, gap: Option<nat>, nh: nat,
                              headers1: map<nat, AllocationHeader>, freeBlocks1: set<nat>, freeEnd1: nat)
  {
    match gap
    case Some(g) =>
      && g in headers0 && a <= headers0[g].prevFree
      && nh + headers0[g].prevFree == g
      && headers1 == CarveGap(headers0, g, nh, a)
      && freeBlocks1 == (if headers0[g].prevFree > a then freeBlocks0 else freeBlocks0 - {g})
      && freeEnd1 == freeEnd0
    case None =>
      && a <= freeEnd0 && nh == end - freeEnd0
      && headers1 == headers0[nh := AllocationHeader(0, a)]
      && freeBlocks1 == freeBlocks0
      && freeEnd1 == freeEnd0 - a
  }

  /**
   * A block Alloc has just placed frees back to the state before Alloc. A
   * block carved from a gap is followed by that gap's header g, with no
   * header in between, and merging the block into g restores the old table
   * and free set. A block taken from the trailing free region ends at its
   * start, and returning it restores the old table, free set and region.
   */
  lemma PlacedBlockFreesBack(blocks0: seq<nat>, headers0: map<nat, AllocationHeader>, freeBlocks0: set<nat>,
                             begin: nat, end: nat, freeEnd0: nat, a: nat, gap: Option<nat>, nh: nat,
                             headers1: map<nat, AllocationHeader>, freeBlocks1: set<nat>, freeEnd1: nat)
    requires freeEnd0 <= end && Tiled(blocks0, headers0, begin, end - freeEnd0)
    requires freeBlocks0 == FreeBlocksOf(headers0) && 0 < a
    requires AllocPlaced(headers0, freeBlocks0, freeEnd0, end, a, gap, nh, headers1, freeBlocks1, freeEnd1)
    ensures nh in headers1 && headers1[nh] == AllocationHeader(0, a) && freeEnd1 <= end
    ensures gap.None? ==>
      && nh + a == end - freeEnd1
      && headers1 - {nh} == headers0 && freeBlocks1 - {nh} == freeBlocks0 && freeEnd1 + a == freeEnd0
    ensures gap.Some? ==>
      var g := gap.value;
      && g in headers1 && nh < g && nh + a != end - freeEnd1 && freeEnd1 == freeEnd0
      && (forall q :: nh < q < g ==> q !in headers1)
      && MergeGap(headers1, nh, g) == headers0 && freeBlocks1 - {nh} + {g} == freeBlocks0
  {
    match gap
    case None =>
      TailSlotWasFree(blocks0, headers0, begin, end - freeEnd0);
      assert headers1 - {nh} == headers0;
    case Some(g) =>
      HeaderNeighbourhood(blocks0, headers0, begin, end - freeEnd0, g);
      assert nh !in headers0;
      assert MergeGap(headers1, nh, g) == headers0;
  }

  /** Two live headers above nh with no live header between nh and either of them are the same header. */
  lemma FirstHeaderAbove(headers: map<nat, AllocationHeader>, nh: nat, g: nat, n: nat)
    requires g in headers && nh < g && (forall q :: nh < q < g ==> q !in headers)
    requires n in headers && nh < n && (forall q :: nh < q < n ==> q !in headers)
    ensures n == g
  {
    // n is not strictly between nh and g, and g is not strictly between nh and n.
    assert !(nh < n < g) && !(nh < g < n);
  }

  /** The live objects of a header table: each object address with its block's allocation size. */
  ghost function ObjectSizes(headers: map<nat, AllocationHeader>): (r: map<nat, nat>)
    ensures forall o: nat :: o in r <==> o >= kHeaderSize && o - kHeaderSize in headers
    ensures forall o: nat :: o in r ==> r[o] == headers[o - kHeaderSize].allocationSize
  {
    var objects := set h | h in headers :: h + kHeaderSize;
    map o | o in objects :: headers[o - kHeaderSize].allocationSize
  }

  /**
   * Freeing the object at obj, whose block either joins the trailing free
   * region (next is None) or the gap recorded on the next live header,
   * retires exactly that object, whose size was its block's allocation size.
   */
  lemma ObjectSizesAfterFree(headers: map<nat, AllocationHeader>, headers': map<nat, AllocationHeader>, obj: nat, next: Option<nat>)
    requires obj >= kHeaderSize && obj - kHeaderSize in headers
    requires next.None? ==> headers' == headers - {obj - kHeaderSize}
    requires next.Some? ==> next.value in headers && headers' == MergeGap(headers, obj - kHeaderSize, next.value)
    ensures obj in ObjectSizes(headers) && ObjectSizes(headers)[obj] == headers[obj - kHeaderSize].allocationSize
    ensures ObjectSizes(headers') == ObjectSizes(headers) - {obj}
  {
    var before := ObjectSizes(headers) - {obj};
    assert ObjectSizes(headers').Keys == before.Keys;
  }

  /**
   * Alloc from the gap recorded on g: the new block takes the front of the
   * gap (its header at nh), g keeps the rest of the gap, and g stays in
   * free_blocks_ exactly when some of the gap is left.
   */
  lemma AllocFromGapStep(begin: nat, end: nat, freeEnd: nat, headers: map<nat, AllocationHeader>, freeBlocks: set<nat>,
                         blocks: seq<nat>, numObjects: nat, numBytes: nat, totalObjects: nat, totalBytes: nat,
                         g: nat, a: nat, nh: nat, headers': map<nat, AllocationHeader>, freeBlocks': set<nat>)
    returns (blocks': seq<nat>)
    requires Consistent(begin, end, freeEnd, headers, freeBlocks, blocks, numObjects, numBytes, totalObjects, totalBytes)
    requires g in headers && 0 < a <= headers[g].prevFree && Aligned(a)
    requires nh + headers[g].prevFree == g
    requires headers' == CarveGap(headers, g, nh, a)
    requires freeBlocks' == if headers[g].prevFree > a then freeBlocks else freeBlocks - {g}
    ensures nh !in headers
    ensures Consistent(begin, end, freeEnd, headers', freeBlocks', blocks',
                       numObjects + 1, numBytes + a, totalObjects + 1, totalBytes + a)
  {
    var fes := end - freeEnd;
    var i := IndexOf(blocks, headers, begin, fes, g);
    CarveGapKeepsTiling(blocks, headers, begin, fes, i, a, nh, headers');
    FreeBlocksCarveGap(headers, g, nh, a);
    blocks' := blocks[..i] + [nh] + blocks[i..];
  }

  /** Alloc from the trailing free region: the new block takes its front. */
  lemma AllocFromTailStep(begin: nat, end: nat, freeEnd: nat, headers: map<nat, AllocationHeader>, freeBlocks: set<nat>,
                          blocks: seq<nat>, numObjects: nat, numBytes: nat, totalObjects: nat, totalBytes: nat,
                          a: nat, headers': map<nat, AllocationHeader>)
    returns (blocks': seq<nat>)
    requires Consistent(begin, end, freeEnd, headers, freeBlocks, blocks, numObjects, numBytes, totalObjects, totalBytes)
    requires 0 < a <= freeEnd && Aligned(a)
    requires end - freeEnd >= 0 && headers' == headers[end - freeEnd := AllocationHeader(0, a)]
    ensures end - freeEnd !in headers
    ensures Consistent(begin, end, freeEnd - a, headers', freeBlocks, blocks',
                       numObjects + 1, numBytes + a, totalObjects + 1, totalBytes + a)
  {
    var fes := end - freeEnd;
    CarveTailKeepsTiling(blocks, headers, begin, fes, a);
    CarveTailSizes(blocks, headers, fes, a);
    FreeBlocksInsert(headers, fes, a);
    SubAligned(freeEnd, a);
    blocks' := blocks + [fes];
  }

  /** The counters cover every live block: at least one object, at least its bytes. */
  lemma CountersCoverBlock(begin: nat, end: nat, freeEnd: nat, headers: map<nat, AllocationHeader>, freeBlocks: set<nat>,
                           blocks: seq<nat>, numObjects: nat, numBytes: nat, totalObjects: nat, totalBytes: nat, h: nat)
    requires Consistent(begin, end, freeEnd, headers, freeBlocks, blocks, numObjects, numBytes, totalObjects, totalBytes)
    requires h in headers
    ensures numObjects >= 1 && numBytes >= headers[h].allocationSize
  {
    var i := IndexOf(blocks, headers, begin, end - freeEnd, h);
    SumRemove(Sizes(blocks, headers), i);
  }

  /**
   * Free of the block at h when it ends at the trailing free region: the
   * block and the gap before it join that region.
   */
  lemma FreeLastBlockStep(begin: nat, end: nat, freeEnd: nat, headers: map<nat, AllocationHeader>, freeBlocks: set<nat>,
                          blocks: seq<nat>, numObjects: nat, numBytes: nat, totalObjects: nat, totalBytes: nat,
                          h: nat, freeEnd': nat, headers': map<nat, AllocationHeader>, freeBlocks': set<nat>)
    returns (blocks': seq<nat>)
    requires Consistent(begin, end, freeEnd, headers, freeBlocks, blocks, numObjects, numBytes, totalObjects, totalBytes)
    requires h in headers && h + headers[h].allocationSize >= end - freeEnd
    requires freeEnd' == freeEnd + headers[h].prevFree + headers[h].allocationSize
    requires headers' == headers - {h} && freeBlocks' == freeBlocks - {h}
    ensures h + headers[h].allocationSize == end - freeEnd
    ensures numObjects >= 1 && numBytes >= headers[h].allocationSize
    ensures Consistent(begin, end, freeEnd', headers', freeBlocks', blocks',
                       numObjects - 1, numBytes - headers[h].allocationSize, totalObjects, totalBytes)
  {
    var fes := end - freeEnd;
    var i := IndexOf(blocks, headers, begin, fes, h);
    LastBlockEnd(blocks, headers, begin, fes, i);
    FreeLastStep(blocks, headers, begin, fes);
    GapStartBounds(blocks, headers, begin, fes, i);
    AddAligned(freeEnd, headers[h].prevFree + headers[h].allocationSize);
    blocks' := blocks[..i];
  }

  /**
   * What Free relies on when a live block follows the block at h: its
   * position i, the next live header blocks[i + 1] with the gap it records
   * starting right where the block ends, and no header in between.
   */
  lemma NextBlockFacts(begin: nat, end: nat, freeEnd: nat, headers: map<nat, AllocationHeader>, freeBlocks: set<nat>,
                       blocks: seq<nat>, numObjects: nat, numBytes: nat, totalObjects: nat, totalBytes: nat, h: nat)
    returns (i: nat)
    requires Consistent(begin, end, freeEnd, headers, freeBlocks, blocks, numObjects, numBytes, totalObjects, totalBytes)
    requires h in headers && h + headers[h].allocationSize < end - freeEnd
    ensures i + 1 < |blocks| && blocks[i] == h && h != blocks[i + 1]
    ensures h + headers[h].allocationSize == GapStart(blocks, headers, begin, i + 1)
    ensures GapStart(blocks, headers, begin, i + 1) + headers[blocks[i + 1]].prevFree == blocks[i + 1]
    ensures forall q :: h < q < blocks[i + 1] ==> q !in headers
  {
    var fes := end - freeEnd;
    i := IndexOf(blocks, headers, begin, fes, h);
    LastBlockEnd(blocks, headers, begin, fes, i);
    Step(blocks, headers, begin, fes, i + 1);
    BlocksDistinct(blocks, headers, begin, fes, i, i + 1);
    FreeNextFacts(blocks, headers, begin, fes, i);
  }

  /**
   * Free of the block at h = blocks[i] when a live block n follows it: the
   * block, the gap before it and the gap after it become the gap recorded
   * on n.
   */
  lemma FreeInnerBlockStep(begin: nat, end: nat, freeEnd: nat, headers: map<nat, AllocationHeader>, freeBlocks: set<nat>,
                           blocks: seq<nat>, numObjects: nat, numBytes: nat, totalObjects: nat, totalBytes: nat,
                           i: nat, headers': map<nat, AllocationHeader>, freeBlocks': set<nat>)
    returns (blocks': seq<nat>)
    requires Consistent(begin, end, freeEnd, headers, freeBlocks, blocks, numObjects, numBytes, totalObjects, totalBytes)
    requires i + 1 < |blocks|
    requires headers' == MergeGap(headers, blocks[i], blocks[i + 1])
    requires freeBlocks' == freeBlocks - {blocks[i]} + {blocks[i + 1]}
    ensures numObjects >= 1 && numBytes >= headers[blocks[i]].allocationSize
    ensures Consistent(begin, end, freeEnd, headers', freeBlocks', blocks',
                       numObjects - 1, numBytes - headers[blocks[i]].allocationSize, totalObjects, totalBytes)
  {
    FreeMiddleStep(blocks, headers, begin, end - freeEnd, i, headers');
    blocks' := blocks[..i] + blocks[i + 1..];
  }

  class FreeListSpace {
    /** Begin() and End() of the mapped region. */
    const begin: nat
    const end: nat
    /** free_end_: length of the trailing free region, which ends at `end`. */
    var freeEnd: nat
    /** The header memory: every live header by address; any other slot reads as zero. */
    var headers: map<nat, AllocationHeader>
    /** free_blocks_: the headers that record a non-empty gap before them. */
    var freeBlocks: set<nat>
    var numBytesAllocated: nat
    var numObjectsAllocated: nat
    var totalBytesAllocated: nat
    var totalObjectsAllocated: nat
    /** The live headers in address order. */
    ghost var blocks: seq<nat>

    ghost predicate Valid()
      reads this
    {
      Consistent(begin, end, freeEnd, headers, freeBlocks, blocks,
                 numObjectsAllocated, numBytesAllocated, totalObjectsAllocated, totalBytesAllocated)
    }

    /** The whole region starts out as the trailing free region. */
    constructor (begin: nat, end: nat)
      requires begin <= end <= kSizeLimit && Aligned(begin) && Aligned(end)
      ensures Valid()
      ensures this.begin == begin && this.end == end && freeEnd == end - begin
      ensures headers == map[] && freeBlocks == {}
      ensures numBytesAllocated == 0 && numObjectsAllocated == 0
      ensures totalBytesAllocated == 0 && totalObjectsAllocated == 0
    {
      this.begin := begin;
      this.end := end;
      freeEnd := end - begin;
      headers := map[];
      freeBlocks := {};
      numBytesAllocated := 0;
      numObjectsAllocated := 0;
      totalBytesAllocated := 0;
      totalObjectsAllocated := 0;
      blocks := [];
      SubAligned(end, begin);
    }

    /** The header stored at address p; a slot without a live header reads as zeros. */
    function ReadHeader(p: nat): AllocationHeader
      reads this
    {
      if p in headers then headers[p] else AllocationHeader(0, 0)
    }

    /** obj is the address of a live object: the slot right after a live header. */
    predicate IsLive(obj: nat)
      reads this
    {
      obj >= kHeaderSize && obj - kHeaderSize in headers
    }

    /** mem_map_->HasAddress(obj). */
    predicate Contains(obj: nat)
      reads this
    {
      begin <= obj < end
    }

    /**
     * The allocation size of a live object and its usable size: a positive
     * multiple of kAlignment, of which all but the header is usable, and the
     * whole block lies inside the region.
     */
    function AllocationSize(obj: nat): (r: (nat, nat))
      reads this
      requires Valid() && IsLive(obj)
      ensures r.0 > 0 && Aligned(r.0) && r.1 == r.0 - kHeaderSize
      ensures begin <= obj - kHeaderSize && obj - kHeaderSize + r.0 <= end - freeEnd
    {
      ObjectBlockInside(obj);
      var header := ReadHeader(obj - kHeaderSize);
      (header.allocationSize, header.allocationSize - kHeaderSize)
    }

    lemma ObjectBlockInside(obj: nat)
      requires Valid() && IsLive(obj)
      ensures WellFormed(obj - kHeaderSize, headers[obj - kHeaderSize])
      ensures begin <= obj - kHeaderSize && BlockEnd(headers, obj - kHeaderSize) <= end - freeEnd
    {
      var i := IndexOf(blocks, headers, begin, end - freeEnd, obj - kHeaderSize);
      BlocksInside(blocks, headers, begin, end - freeEnd, i);
      assert WellFormed(blocks[i], headers[blocks[i]]);
    }

    /** Every byte of a live object lies inside the space. */
    lemma LiveObjectsContained(obj: nat)
      requires Valid() && IsLive(obj)
      ensures Contains(obj) && Contains(obj + AllocationSize(obj).1 - 1)
    {
      ObjectBlockInside(obj);
      AlignedNext(0, headers[obj - kHeaderSize].allocationSize);
    }

    /**
     * No byte of the region is unaccounted for: the live blocks, the recorded
     * gaps and the trailing free region add up to the whole region.
     */
    lemma Balance()
      requires Valid()
      ensures numBytesAllocated + Sum(Gaps(blocks, headers)) + freeEnd == end - begin
    {
      Conservation(blocks, headers, begin, end - freeEnd);
    }

    /**
     * Drop the gap entry of `header` from free_blocks_. ok is false exactly
     * when one of the fatal CHECKs would fire: the header is free, records no
     * gap, or is not in the set.
     */
    method RemoveFreePrev(header: nat) returns (ok: bool)
      modifies this`freeBlocks
      ensures ok <==> !ReadHeader(header).IsFree() && ReadHeader(header).prevFree > 0 && header in old(freeBlocks)
      ensures freeBlocks == if ok then old(freeBlocks) - {header} else old(freeBlocks)
    {
      var h := ReadHeader(header);
      ok := !h.IsFree() && h.prevFree > 0 && header in freeBlocks;
      if ok {
        freeBlocks := freeBlocks - {header};
      }
    }

    /**
     * AllocationHeader::GetNextNonFree from the start of the gap recorded on
     * the k-th live block: steps one kAlignment slot at a time to the first
     * slot that holds a live header, which is the one recording that gap.
     */
    method GetNextNonFree(pos: nat, ghost k: nat) returns (r: nat)
      requires freeEnd <= end && Tiled(blocks, headers, begin, end - freeEnd) && k < |blocks| && pos == GapStart(blocks, headers, begin, k)
      ensures r == blocks[k]
      ensures pos <= r && !ReadHeader(r).IsFree() && r - pos == ReadHeader(r).prevFree
      ensures forall q :: pos <= q < r ==> ReadHeader(q).IsFree()
    {
      Step(blocks, headers, begin, end - freeEnd, k);
      GapStartBounds(blocks, headers, begin, end - freeEnd, k);
      assert WellFormed(blocks[k], headers[blocks[k]]);
      r := pos;
      while ReadHeader(r).IsFree()
        invariant pos <= r <= blocks[k] && Aligned(r)
        decreases blocks[k] - r
      {
        AlignedNext(r, blocks[k]);
        AddAligned(r, kAlignment);
        r := r + kAlignment;
      }
      if r < blocks[k] {
        GapHoldsNoHeader(blocks, headers, begin, end - freeEnd, k, r);
      }
      forall q | pos <= q < r
        ensures q !in headers
      {
        GapHoldsNoHeader(blocks, headers, begin, end - freeEnd, k, q);
      }
    }

    /**
     * Allocate an object of numBytes: the slot is numBytes plus the header
     * rounded up to kAlignment. The smallest recorded gap that holds the
     * slot gets it at its front; when no gap holds it, the slot is cut from
     * the front of the trailing free region; when that is too short too, or
     * the slot size does not fit in size_t, the result is null and nothing
     * changes.
     */
    method Alloc(numBytes: nat) returns (obj: nat, bytesAllocated: nat, usableSize: nat, ghost gap: Option<nat>)
      requires Valid()
      modifies this
      ensures Valid()
      ensures AllocationSizeFor(numBytes).None? ==> obj == kNull && unchanged(this)
      ensures gap.Some? ==>
        && AllocationSizeFor(numBytes).Some?
        && var a := AllocationSizeFor(numBytes).value;
        && var g := gap.value;
        && IsBestFit(old(headers), old(freeBlocks), g, a)
        && obj >= kHeaderSize && obj - kHeaderSize + old(headers)[g].prevFree == g
        && headers == CarveGap(old(headers), g, obj - kHeaderSize, a)
        && freeBlocks == (if old(headers)[g].prevFree > a then old(freeBlocks) else old(freeBlocks) - {g})
        && freeEnd == old(freeEnd)
      ensures AllocationSizeFor(numBytes).Some? && gap.None? ==>
        var a := AllocationSizeFor(numBytes).value;
        && !SomeGapFits(old(headers), old(freeBlocks), a)
        && if old(freeEnd) >= a then
             && obj >= kHeaderSize && obj - kHeaderSize == end - old(freeEnd)
             && headers == old(headers)[obj - kHeaderSize := AllocationHeader(0, a)]
             && freeBlocks == old(freeBlocks)
             && freeEnd == old(freeEnd) - a
           else
             obj == kNull && unchanged(this)
      ensures obj != kNull ==>
        && AllocationSizeFor(numBytes).Some?
        && bytesAllocated == AllocationSizeFor(numBytes).value
        && !old(IsLive(obj)) && IsLive(obj)
        && usableSize >= numBytes
        && usableSize == bytesAllocated - kHeaderSize
        && numObjectsAllocated == old(numObjectsAllocated) + 1
        && totalObjectsAllocated == old(totalObjectsAllocated) + 1
        && numBytesAllocated == old(numBytesAllocated) + bytesAllocated
        && totalBytesAllocated == old(totalBytesAllocated) + bytesAllocated
      ensures forall o :: o != obj ==> (IsLive(o) <==> old(IsLive(o)))
    {
      obj, bytesAllocated, usableSize, gap := kNull, 0, 0, None;
      var size := AllocationSizeFor(numBytes);
      if size.Some? {
        var a := size.value;
        obj, gap := AllocSlot(a);
        if obj != kNull {
          bytesAllocated := a;
          usableSize := a - kHeaderSize;
        }
      }
    }

    /**
     * Alloc followed at once by Free of the object it returned leaves the
     * space as it was: the header table, free_blocks_ and free_end_ are
     * restored and the live counters are back; only the lifetime counters
     * remember the allocation.
     */
    method AllocThenFree(numBytes: nat) returns (obj: nat, freed: nat)
      requires Valid()
      modifies this
      ensures Valid()
      ensures obj != kNull ==> AllocationSizeFor(numBytes).Some? && freed == AllocationSizeFor(numBytes).value
      ensures obj == kNull ==> freed == 0
      ensures headers == old(headers) && freeBlocks == old(freeBlocks) && freeEnd == old(freeEnd)
      ensures numBytesAllocated == old(numBytesAllocated) && numObjectsAllocated == old(numObjectsAllocated)
      ensures totalBytesAllocated == old(totalBytesAllocated) + freed
      ensures totalObjectsAllocated == old(totalObjectsAllocated) + (if obj == kNull then 0 else 1)
    {
      ghost var headers0, freeBlocks0, freeEnd0, blocks0 := headers, freeBlocks, freeEnd, blocks;
      var bytesAllocated, usableSize;
      ghost var gap;
      obj, bytesAllocated, usableSize, gap := Alloc(numBytes);
      freed := 0;
      if obj != kNull {
        freed := FreeJustPlaced(obj, blocks0, headers0, freeBlocks0, freeEnd0, bytesAllocated, gap);
      }
    }

    /** The second half of AllocThenFree: Free of the block Alloc has just placed. */
    method FreeJustPlaced(obj: nat, ghost blocks0: seq<nat>, ghost headers0: map<nat, AllocationHeader>,
                          ghost freeBlocks0: set<nat>, ghost freeEnd0: nat, ghost a: nat, ghost gap: Option<nat>)
      returns (freed: nat)
      requires Valid() && IsLive(obj)
      requires freeEnd0 <= end && Tiled(blocks0, headers0, begin, end - freeEnd0)
      requires freeBlocks0 == FreeBlocksOf(headers0) && 0 < a
      requires AllocPlaced(headers0, freeBlocks0, freeEnd0, end, a, gap, obj - kHeaderSize, headers, freeBlocks, freeEnd)
      modifies this
      ensures Valid()
      ensures freed == a && headers == headers0 && freeBlocks == freeBlocks0 && freeEnd == freeEnd0
      ensures numBytesAllocated == old(numBytesAllocated) - a && numObjectsAllocated == old(numObjectsAllocated) - 1
      ensures totalObjectsAllocated == old(totalObjectsAllocated) && totalBytesAllocated == old(totalBytesAllocated)
    {
      PlacedBlockFreesBack(blocks0, headers0, freeBlocks0, begin, end, freeEnd0, a, gap, obj - kHeaderSize,
                           headers, freeBlocks, freeEnd);
      ghost var headers1 := headers;
      ghost var next;
      freed, next := Free(obj);
      if gap.Some? {
        FirstHeaderAbove(headers1, obj - kHeaderSize, gap.value, next.value);
      }
    }

    /**
     * The search of Alloc for a slot of `a` bytes: the best-fitting recorded
     * gap, else the front of the trailing free region, else null.
     */
    method AllocSlot(a: nat) returns (obj: nat, ghost gap: Option<nat>)
      requires Valid() && 0 < a && Aligned(a) && kHeaderSize <= a
      modifies this
      ensures Valid()
      ensures gap.Some? ==>
        && var g := gap.value;
        && IsBestFit(old(headers), old(freeBlocks), g, a)
        && obj >= kHeaderSize && obj - kHeaderSize + old(headers)[g].prevFree == g
        && headers == CarveGap(old(headers), g, obj - kHeaderSize, a)
        && freeBlocks == (if old(headers)[g].prevFree > a then old(freeBlocks) else old(freeBlocks) - {g})
        && freeEnd == old(freeEnd)
      ensures gap.None? ==>
        && !SomeGapFits(old(headers), old(freeBlocks), a)
        && if old(freeEnd) >= a then
             && obj >= kHeaderSize && obj - kHeaderSize == end - old(freeEnd)
             && headers == old(headers)[obj - kHeaderSize := AllocationHeader(0, a)]
             && freeBlocks == old(freeBlocks)
             && freeEnd == old(freeEnd) - a
           else
             obj == kNull && unchanged(this)
      ensures obj != kNull ==>
        && !old(IsLive(obj)) && IsLive(obj)
        && numObjectsAllocated == old(numObjectsAllocated) + 1
        && totalObjectsAllocated == old(totalObjectsAllocated) + 1
        && numBytesAllocated == old(numBytesAllocated) + a
        && totalBytesAllocated == old(totalBytesAllocated) + a
      ensures forall o :: o != obj ==> (IsLive(o) <==> old(IsLive(o)))
    {
      obj, gap := kNull, None;
      var best := FindBestFit(headers, freeBlocks, a);
      if best.Some? {
        obj := TakeFromGap(best.value, a);
        gap := best;
      } else if freeEnd >= a {
        obj := TakeFromTail(a);
      }
    }

    /** A recorded gap lies inside the region, below the header that records it. */
    lemma GapFitsBelowHeader(g: nat)
      requires Valid() && g in headers
      ensures headers[g].prevFree <= g
    {
      var i := IndexOf(blocks, headers, begin, end - freeEnd, g);
      Step(blocks, headers, begin, end - freeEnd, i);
    }

    /**
     * The gap case of Alloc: the block of a bytes takes the front of the gap
     * recorded on g, whose header keeps the rest of the gap and stays in
     * free_blocks_ only if some of it is left.
     */
    method TakeFromGap(g: nat, a: nat) returns (obj: nat)
      requires Valid() && g in headers && 0 < a <= headers[g].prevFree && Aligned(a)
      modifies this
      ensures Valid()
      ensures obj >= kHeaderSize && obj - kHeaderSize + old(headers)[g].prevFree == g
      ensures headers == CarveGap(old(headers), g, obj - kHeaderSize, a)
      ensures !old(IsLive(obj)) && IsLive(obj)
      ensures forall o :: o != obj ==> (IsLive(o) <==> old(IsLive(o)))
      ensures freeBlocks == if old(headers)[g].prevFree > a then old(freeBlocks) else old(freeBlocks) - {g}
      ensures freeEnd == old(freeEnd)
      ensures numObjectsAllocated == old(numObjectsAllocated) + 1 && numBytesAllocated == old(numBytesAllocated) + a
      ensures totalObjectsAllocated == old(totalObjectsAllocated) + 1 && totalBytesAllocated == old(totalBytesAllocated) + a
    {
      GapFitsBelowHeader(g);
      freeBlocks := freeBlocks - {g};
      var newHeader := g - headers[g].prevFree;
      headers := headers[g := headers[g].(prevFree := headers[g].prevFree - a)];
      if headers[g].prevFree > 0 {
        freeBlocks := freeBlocks + {g};
      }
      numObjectsAllocated := numObjectsAllocated + 1;
      totalObjectsAllocated := totalObjectsAllocated + 1;
      numBytesAllocated := numBytesAllocated + a;
      totalBytesAllocated := totalBytesAllocated + a;
      headers := headers[newHeader := AllocationHeader(0, a)];
      blocks := AllocFromGapStep(begin, end, old(freeEnd), old(headers), old(freeBlocks), old(blocks),
                                 old(numObjectsAllocated), old(numBytesAllocated), old(totalObjectsAllocated),
                                 old(totalBytesAllocated), g, a, newHeader, headers, freeBlocks);
      obj := newHeader + kHeaderSize;
    }

    /** The tail case of Alloc: the block of a bytes takes the front of the trailing free region. */
    method TakeFromTail(a: nat) returns (obj: nat)
      requires Valid() && 0 < a <= freeEnd && Aligned(a)
      modifies this
      ensures Valid()
      ensures obj >= kHeaderSize && obj - kHeaderSize == end - old(freeEnd)
      ensures headers == old(headers)[obj - kHeaderSize := AllocationHeader(0, a)]
      ensures !old(IsLive(obj)) && IsLive(obj)
      ensures forall o :: o != obj ==> (IsLive(o) <==> old(IsLive(o)))
      ensures freeBlocks == old(freeBlocks)
      ensures freeEnd == old(freeEnd) - a
      ensures numObjectsAllocated == old(numObjectsAllocated) + 1 && numBytesAllocated == old(numBytesAllocated) + a
      ensures totalObjectsAllocated == old(totalObjectsAllocated) + 1 && totalBytesAllocated == old(totalBytesAllocated) + a
    {
      var newHeader := end - freeEnd;
      freeEnd := freeEnd - a;
      numObjectsAllocated := numObjectsAllocated + 1;
      totalObjectsAllocated := totalObjectsAllocated + 1;
      numBytesAllocated := numBytesAllocated + a;
      totalBytesAllocated := totalBytesAllocated + a;
      headers := headers[newHeader := AllocationHeader(0, a)];
      blocks := AllocFromTailStep(begin, end, old(freeEnd), old(headers), old(freeBlocks), old(blocks),
                                  old(numObjectsAllocated), old(numBytesAllocated), old(totalObjectsAllocated),
                                  old(totalBytesAllocated), a, headers);
      obj := newHeader + kHeaderSize;
    }

    /**
     * Free a live object: its block and the gap before it merge with the
     * region after it, either the trailing free region (when the block is the
     * last one) or the gap recorded on the next live header (next), found by
     * scanning when the block is followed by a gap. The freed block is
     * returned to the OS, which zeroes its header.
     */
    method Free(obj: nat) returns (freed: nat, ghost next: Option<nat>)
      requires Valid() && IsLive(obj)
      modifies this
      ensures Valid()
      ensures freed == old(headers)[obj - kHeaderSize].allocationSize
      ensures next.None? <==> obj - kHeaderSize + freed == end - old(freeEnd)
      ensures next.None? ==>
        var h := obj - kHeaderSize;
        && freeEnd == old(freeEnd) + old(headers)[h].prevFree + freed
        && headers == old(headers) - {h}
        && freeBlocks == old(freeBlocks) - {h}
      ensures next.Some? ==>
        var h := obj - kHeaderSize;
        var n := next.value;
        && n in old(headers) && h + freed <= n && (forall q :: h < q < n ==> q !in old(headers))
        && freeEnd == old(freeEnd)
        && headers == MergeGap(old(headers), h, n)
        && freeBlocks == old(freeBlocks) - {h} + {n}
      ensures numObjectsAllocated == old(numObjectsAllocated) - 1
      ensures numBytesAllocated == old(numBytesAllocated) - freed
      ensures totalObjectsAllocated == old(totalObjectsAllocated) && totalBytesAllocated == old(totalBytesAllocated)
      ensures !IsLive(obj) && forall o :: o != obj ==> (IsLive(o) <==> old(IsLive(o)))
    {
      var header := obj - kHeaderSize;
      var nextHeader := header + ReadHeader(header).allocationSize;
      if nextHeader >= end - freeEnd {
        freed := FreeLastBlock(header);
        next := None;
      } else {
        var n;
        freed, n := FreeInnerBlock(header);
        next := Some(n);
      }
    }

    /**
     * Free when the block at header ends at the trailing free region: the
     * block and the gap before it (taken out of free_blocks_) join that region.
     */
    method FreeLastBlock(header: nat) returns (freed: nat)
      requires Valid() && header in headers && header + headers[header].allocationSize >= end - freeEnd
      modifies this
      ensures Valid()
      ensures freed == old(headers)[header].allocationSize && header + freed == end - old(freeEnd)
      ensures freeEnd == old(freeEnd) + old(headers)[header].prevFree + freed
      ensures headers == old(headers) - {header} && freeBlocks == old(freeBlocks) - {header}
      ensures numObjectsAllocated == old(numObjectsAllocated) - 1 && numBytesAllocated == old(numBytesAllocated) - freed
      ensures totalObjectsAllocated == old(totalObjectsAllocated) && totalBytesAllocated == old(totalBytesAllocated)
    {
      ObjectBlockInside(header + kHeaderSize);
      CountersCoverBlock(begin, end, freeEnd, headers, freeBlocks, blocks, numObjectsAllocated,
                         numBytesAllocated, totalObjectsAllocated, totalBytesAllocated, header);
      var allocationSize := ReadHeader(header).allocationSize;
      var newFreeSize := AbsorbPrevGap(header);
      freeEnd := freeEnd + newFreeSize;
      numObjectsAllocated := numObjectsAllocated - 1;
      numBytesAllocated := numBytesAllocated - allocationSize;
      // madvise(MADV_DONTNEED) hands the block back to the OS: it reads as zeros from now on.
      headers := headers - {header};
      freed := allocationSize;
      blocks := FreeLastBlockStep(begin, end, old(freeEnd), old(headers), old(freeBlocks), old(blocks),
                                  old(numObjectsAllocated), old(numBytesAllocated), old(totalObjectsAllocated),
                                  old(totalBytesAllocated), header, freeEnd, headers, freeBlocks);
    }

    /**
     * Free when a live block n follows the block at header: the block, the
     * gap before it (taken out of free_blocks_) and the gap after it become
     * the gap recorded on n.
     */
    method FreeInnerBlock(header: nat) returns (freed: nat, n: nat)
      requires Valid() && header in headers && header + headers[header].allocationSize < end - freeEnd
      modifies this
      ensures Valid()
      ensures freed == old(headers)[header].allocationSize
      ensures n in old(headers) && header + freed <= n && forall q :: header < q < n ==> q !in old(headers)
      ensures freeEnd == old(freeEnd)
      ensures headers == MergeGap(old(headers), header, n)
      ensures freeBlocks == old(freeBlocks) - {header} + {n}
      ensures numObjectsAllocated == old(numObjectsAllocated) - 1 && numBytesAllocated == old(numBytesAllocated) - freed
      ensures totalObjectsAllocated == old(totalObjectsAllocated) && totalBytesAllocated == old(totalBytesAllocated)
    {
      ghost var i := NextBlockFacts(begin, end, freeEnd, headers, freeBlocks, blocks, numObjectsAllocated,
                                    numBytesAllocated, totalObjectsAllocated, totalBytesAllocated, header);
      CountersCoverBlock(begin, end, freeEnd, headers, freeBlocks, blocks, numObjectsAllocated,
                         numBytesAllocated, totalObjectsAllocated, totalBytesAllocated, header);
      var allocationSize := ReadHeader(header).allocationSize;
      var nextHeader := header + allocationSize;
      var newFreeSize := AbsorbPrevGap(header);
      n := MergeIntoNext(nextHeader, newFreeSize, i + 1);
      numObjectsAllocated := numObjectsAllocated - 1;
      numBytesAllocated := numBytesAllocated - allocationSize;
      // madvise(MADV_DONTNEED) hands the block back to the OS: it reads as zeros from now on.
      headers := headers - {header};
      freed := allocationSize;
      blocks := FreeInnerBlockStep(begin, end, old(freeEnd), old(headers), old(freeBlocks), old(blocks),
                                   old(numObjectsAllocated), old(numBytesAllocated), old(totalObjectsAllocated),
                                   old(totalBytesAllocated), i, headers, freeBlocks);
    }

    /**
     * The first step of Free: the freed range starts as the block itself;
     * when a gap precedes the block, the range grows by that gap and the
     * header's entry leaves free_blocks_.
     */
    method AbsorbPrevGap(header: nat) returns (size: nat)
      requires header in headers && headers[header].allocationSize > 0
      requires header in freeBlocks <==> headers[header].prevFree > 0
      modifies this`freeBlocks
      ensures size == headers[header].prevFree + headers[header].allocationSize
      ensures freeBlocks == old(freeBlocks) - {header}
    {
      size := ReadHeader(header).allocationSize;
      var headerPrevFree := ReadHeader(header).prevFree;
      if headerPrevFree > 0 {
        size := size + headerPrevFree;
        var ok := RemoveFreePrev(header);
        assert ok;
      }
    }

    /**
     * The part of Free that hands `size` freed bytes, ending at pos, to the
     * next live header (the k-th block): when pos is a free slot it scans for
     * that header and takes it out of free_blocks_ (its gap grows), then
     * records the grown gap on it and puts it (back) into free_blocks_.
     */
    method MergeIntoNext(pos: nat, size: nat, ghost k: nat) returns (n: nat)
      requires freeEnd <= end && Tiled(blocks, headers, begin, end - freeEnd) && k < |blocks|
      requires pos == GapStart(blocks, headers, begin, k)
      requires headers[blocks[k]].prevFree > 0 ==> blocks[k] in freeBlocks
      modifies this`headers, this`freeBlocks
      ensures n == blocks[k]
      ensures headers == old(headers)[n := old(headers)[n].(prevFree := size + old(headers)[n].prevFree)]
      ensures freeBlocks == old(freeBlocks) + {n}
    {
      Step(blocks, headers, begin, end - freeEnd, k);
      var newFreeSize := size;
      if ReadHeader(pos).IsFree() {
        // Find the next live header by reading each slot up to it.
        n := GetNextNonFree(pos, k);
        var ok := RemoveFreePrev(n);
        assert ok;
        newFreeSize := newFreeSize + ReadHeader(n).prevFree;
      } else {
        if pos < blocks[k] {
          GapHoldsNoHeader(blocks, headers, begin, end - freeEnd, k, pos);
        }
        n := pos;
      }
      headers := headers[n := ReadHeader(n).(prevFree := newFreeSize)];
      freeBlocks := freeBlocks + {n};
    }

    /**
     * Walk the live objects in address order: for each, the callback gets
     * the object's span and allocation size, then a null sentinel.
     */
    method Walk() returns (calls: seq<WalkCall>)
      requires Valid()
      ensures calls == WalkCalls(LiveSpans(blocks, headers))
    {
      ghost var spans := LiveSpans(blocks, headers);
      var freeEndStart := end - freeEnd;
      var cur := begin;
      calls := [];
      ghost var k: nat := 0;
      while cur < freeEndStart
        invariant k <= |blocks| && cur == GapStart(blocks, headers, begin, k)
        invariant calls == WalkCalls(spans[..k])
        decreases |blocks| - k
      {
        cur := GetNextNonFree(cur, k);
        var allocSize := ReadHeader(cur).allocationSize;
        var byteStart := cur + kHeaderSize;
        var byteEnd := byteStart + allocSize - kHeaderSize;
        WalkCallsPrefix(spans, k);
        assert spans[k] == Span(byteStart, byteEnd, allocSize);
        calls := calls + [Visit(byteStart, byteEnd, allocSize), EndOfObject];
        cur := byteEnd;
        k := k + 1;
      }
      if k < |blocks| {
        BlocksInside(blocks, headers, begin, freeEndStart, k);
      }
      assert spans[..k] == spans;
    }
  }
}
