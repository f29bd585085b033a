/**
 * FreeListSpace: one mapped region [begin, end) carved into blocks by an
 * in-band free-list allocator.
 *
 * Every live block starts with an AllocationHeader (its own size and the
 * size of the free gap right before it). A gap has no header of its own: it
 * is recorded as the prev_free of the next live header. What is left after
 * the last live block is the trailing free region, free_end bytes long.
 * Headers are modelled as a map from their aligned address to their fields;
 * every other aligned slot of the region reads as a zero header (never
 * written, or returned to the OS by madvise(MADV_DONTNEED) when freed).
 */
module FreeListLayout {
  import opened Wrappers
  import opened Sums
  import opened WalkProtocol

  /** The page size of the targets the runtime supports. */
  const kPageSize: nat := 4096
  /** FreeListSpace::kAlignment: blocks start and end on page boundaries. */
  const kAlignment: nat := kPageSize
  /** sizeof(AllocationHeader): the two size_t words prev_free_ and alloc_size_. */
  const kHeaderSize: nat := 16
  /** 2^64: size_t arithmetic wraps modulo this. */
  const kSizeLimit: nat := 0x1_0000_0000_0000_0000

  /** The in-band header of a block; an all-zero header marks a free slot. */
  datatype AllocationHeader = AllocationHeader(prevFree: nat, allocationSize: nat)
  {
    predicate IsFree() { allocationSize == 0 }
  }

  predicate Aligned(x: int)
  {
    x % kAlignment == 0
  }

  // ---------------------------------------------------------------------------
  // Allocation size rounding (line 321)

  /** RoundUp(x, kAlignment) on unbounded naturals. */
  function RoundUpToAlignment(x: nat): nat
  {
    (x + kAlignment - 1) / kAlignment * kAlignment
  }

  /**
   * allocation_size as line 321 computes it in size_t: both the addition of
   * the header and the rounding addition wrap modulo 2^64.
   */
  function AllocationSizeAsWritten(numBytes: nat): nat
    requires numBytes < kSizeLimit
  {
    var withHeader := (numBytes + kHeaderSize) % kSizeLimit;
    ((withHeader + kAlignment - 1) % kSizeLimit) / kAlignment * kAlignment
  }

  /**
   * For every request in the last page below 2^64 the wrapped slot is smaller
   * than the request plus its header (for numBytes = 2^64 - 16 it is 0).
   */
  lemma AllocationSizeAsWrittenWraps(numBytes: nat)
    requires kSizeLimit - kAlignment - kHeaderSize < numBytes < kSizeLimit
    ensures AllocationSizeAsWritten(numBytes) < numBytes + kHeaderSize
    ensures AllocationSizeAsWritten(numBytes) <= kAlignment
  {
    var withHeader := (numBytes + kHeaderSize) % kSizeLimit;
    if numBytes + kHeaderSize < kSizeLimit {
      assert withHeader == numBytes + kHeaderSize;
      assert (withHeader + kAlignment - 1) % kSizeLimit == withHeader + kAlignment - 1 - kSizeLimit;
    } else {
      assert withHeader == numBytes + kHeaderSize - kSizeLimit;
    }
  }

  lemma AllocationSizeAsWrittenIsZeroAt()
    ensures AllocationSizeAsWritten(kSizeLimit - kHeaderSize) == 0
  {
  }

  /**
   * The slot Alloc carves for a request: the request plus its header rounded
   * up to kAlignment, or None when that slot is not representable in size_t
   * (the request then fails like an exhausted space).
   */
  function AllocationSizeFor(numBytes: nat): (r: Option<nat>)
    ensures r.Some? <==> numBytes + kHeaderSize <= kSizeLimit - kAlignment
    ensures r.Some? ==> Aligned(r.value) && r.value < kSizeLimit
    ensures r.Some? ==> numBytes + kHeaderSize <= r.value < numBytes + kHeaderSize + kAlignment
  {
    if numBytes + kHeaderSize <= kSizeLimit - kAlignment then
      Some(RoundUpToAlignment(numBytes + kHeaderSize))
    else
      None
  }

  /** Where no wrap-around happens, the source's computation and the corrected one agree. */
  lemma AllocationSizeAgrees(numBytes: nat)
    requires numBytes + kHeaderSize <= kSizeLimit - kAlignment
    ensures AllocationSizeAsWritten(numBytes) == AllocationSizeFor(numBytes).value
  {
    assert (numBytes + kHeaderSize) % kSizeLimit == numBytes + kHeaderSize;
    assert (numBytes + kHeaderSize + kAlignment - 1) % kSizeLimit == numBytes + kHeaderSize + kAlignment - 1;
  }

  // ---------------------------------------------------------------------------
  // The layout of the region

  /** A live header: on an alignment boundary, with an aligned non-zero size and an aligned gap. */
  predicate WellFormed(h: nat, header: AllocationHeader)
  {
    Aligned(h) && header.allocationSize > 0 && Aligned(header.allocationSize) && Aligned(header.prevFree)
  }

  /** GetNextAllocationHeader: the slot right after the block whose header is at h. */
  function BlockEnd(headers: map<nat, AllocationHeader>, h: nat): nat
    requires h in headers
  {
    h + headers[h].allocationSize
  }

  predicate Indexed(blocks: seq<nat>, headers: map<nat, AllocationHeader>)
  {
    forall i :: 0 <= i < |blocks| ==> blocks[i] in headers
  }

  /** Where the gap recorded on the i-th live block starts: the end of the block before it, or begin. */
  function GapStart(blocks: seq<nat>, headers: map<nat, AllocationHeader>, begin: nat, i: nat): nat
    requires Indexed(blocks, headers) && i <= |blocks|
  {
    if i == 0 then begin else BlockEnd(headers, blocks[i - 1])
  }

  /**
   * The tiling of [begin, freeEndStart) by the live blocks `blocks` (header
   * addresses in address order) and their gaps: the i-th block is preceded
   * by exactly the gap its header records, which starts where the previous
   * block ends; the last block ends where the trailing free region starts;
   * there are as many headers in memory as live blocks (so, the blocks
   * being distinct, the only headers are those of the live blocks).
   */
  ghost predicate Tiled(blocks: seq<nat>, headers: map<nat, AllocationHeader>, begin: nat, freeEndStart: nat)
  {
    && Aligned(begin)
    && Indexed(blocks, headers)
    && |headers| == |blocks|
    && (forall i :: 0 <= i < |blocks| ==> WellFormed(blocks[i], headers[blocks[i]]))
    && (forall i {:trigger GapStart(blocks, headers, begin, i)} :: 0 <= i < |blocks| ==>
          GapStart(blocks, headers, begin, i) + headers[blocks[i]].prevFree == blocks[i])
    && GapStart(blocks, headers, begin, |blocks|) == freeEndStart
  }

  lemma AddAligned(a: int, b: int)
    requires Aligned(a) && Aligned(b)
    ensures Aligned(a + b)
  {
  }

  lemma SubAligned(a: int, b: int)
    requires Aligned(a) && Aligned(b)
    ensures Aligned(a - b)
  {
  }

  /** Distinct aligned addresses are at least one alignment unit apart. */
  lemma AlignedNext(x: int, y: int)
    requires Aligned(x) && Aligned(y) && x < y
    ensures x + kAlignment <= y
  {
    assert (y - x) % kAlignment == 0;
  }

  /** The k-th block starts where its gap ends and ends where the next gap starts. */
  lemma Step(blocks: seq<nat>, headers: map<nat, AllocationHeader>, begin: nat, freeEndStart: nat, k: nat)
    requires Tiled(blocks, headers, begin, freeEndStart) && k < |blocks|
    ensures GapStart(blocks, headers, begin, k) + headers[blocks[k]].prevFree == blocks[k]
    ensures blocks[k] < BlockEnd(headers, blocks[k]) == GapStart(blocks, headers, begin, k + 1)
  {
    assert WellFormed(blocks[k], headers[blocks[k]]);
  }

  lemma {:induction false} GapStartMono(blocks: seq<nat>, headers: map<nat, AllocationHeader>, begin: nat, freeEndStart: nat, i: nat, j: nat)
    requires Tiled(blocks, headers, begin, freeEndStart) && i <= j <= |blocks|
    ensures GapStart(blocks, headers, begin, i) <= GapStart(blocks, headers, begin, j)
    decreases j - i
  {
    if i < j {
      Step(blocks, headers, begin, freeEndStart, i);
      GapStartMono(blocks, headers, begin, freeEndStart, i + 1, j);
    }
  }

  /** Blocks do not overlap: each ends at or before the start of every later one. */
  lemma Ordered(blocks: seq<nat>, headers: map<nat, AllocationHeader>, begin: nat, freeEndStart: nat, i: nat, j: nat)
    requires Tiled(blocks, headers, begin, freeEndStart) && i < j < |blocks|
    ensures BlockEnd(headers, blocks[i]) <= GapStart(blocks, headers, begin, j) <= blocks[j]
  {
    Step(blocks, headers, begin, freeEndStart, i);
    GapStartMono(blocks, headers, begin, freeEndStart, i + 1, j);
    Step(blocks, headers, begin, freeEndStart, j);
  }

  lemma BlocksDistinct(blocks: seq<nat>, headers: map<nat, AllocationHeader>, begin: nat, freeEndStart: nat, i: nat, j: nat)
    requires Tiled(blocks, headers, begin, freeEndStart) && i < |blocks| && j < |blocks|
    ensures blocks[i] == blocks[j] ==> i == j
  {
    Step(blocks, headers, begin, freeEndStart, i);
    Step(blocks, headers, begin, freeEndStart, j);
    if i < j {
      Ordered(blocks, headers, begin, freeEndStart, i, j);
    } else if j < i {
      Ordered(blocks, headers, begin, freeEndStart, j, i);
    }
  }

  /** The live headers are exactly the blocks: the blocks are distinct and as many as the headers. */
  lemma KeysAreBlocks(blocks: seq<nat>, headers: map<nat, AllocationHeader>, begin: nat, freeEndStart: nat)
    requires Tiled(blocks, headers, begin, freeEndStart)
    ensures forall h :: h in headers <==> h in blocks
  {
    forall i, j | 0 <= i < j < |blocks|
      ensures blocks[i] != blocks[j]
    {
      BlocksDistinct(blocks, headers, begin, freeEndStart, i, j);
    }
    DistinctCard(blocks);
    assert Elems(blocks) <= headers.Keys;
    SubsetSameSize(Elems(blocks), headers.Keys);
  }

  /** The position of a live header among the blocks. */
  lemma IndexOf(blocks: seq<nat>, headers: map<nat, AllocationHeader>, begin: nat, freeEndStart: nat, h: nat)
    returns (i: nat)
    requires Tiled(blocks, headers, begin, freeEndStart) && h in headers
    ensures i < |blocks| && blocks[i] == h
  {
    KeysAreBlocks(blocks, headers, begin, freeEndStart);
    i :| 0 <= i < |blocks| && blocks[i] == h;
  }

  /** Gap starts are aligned and lie inside [begin, freeEndStart]. */
  lemma GapStartBounds(blocks: seq<nat>, headers: map<nat, AllocationHeader>, begin: nat, freeEndStart: nat, k: nat)
    requires Tiled(blocks, headers, begin, freeEndStart) && k <= |blocks|
    ensures Aligned(GapStart(blocks, headers, begin, k))
    ensures begin <= GapStart(blocks, headers, begin, k) <= freeEndStart
  {
    GapStartMono(blocks, headers, begin, freeEndStart, 0, k);
    GapStartMono(blocks, headers, begin, freeEndStart, k, |blocks|);
    if k > 0 {
      assert WellFormed(blocks[k - 1], headers[blocks[k - 1]]);
      AddAligned(blocks[k - 1], headers[blocks[k - 1]].allocationSize);
    }
  }

  /** Each live block, with the gap before it, lies inside [begin, freeEndStart). */
  lemma BlocksInside(blocks: seq<nat>, headers: map<nat, AllocationHeader>, begin: nat, freeEndStart: nat, i: nat)
    requires Tiled(blocks, headers, begin, freeEndStart) && i < |blocks|
    ensures begin <= GapStart(blocks, headers, begin, i) <= blocks[i] < BlockEnd(headers, blocks[i]) <= freeEndStart
  {
    Step(blocks, headers, begin, freeEndStart, i);
    GapStartBounds(blocks, headers, begin, freeEndStart, i);
    GapStartBounds(blocks, headers, begin, freeEndStart, i + 1);
  }

  /**
   * Around one live header h: the gap it records lies right below it and
   * holds no header, and its block is non-empty and ends at or below the
   * trailing free region.
   */
  lemma HeaderNeighbourhood(blocks: seq<nat>, headers: map<nat, AllocationHeader>, begin: nat, freeEndStart: nat, h: nat)
    requires Tiled(blocks, headers, begin, freeEndStart) && h in headers
    ensures headers[h].prevFree <= h
    ensures forall q: nat :: h - headers[h].prevFree <= q < h ==> q !in headers
    ensures 0 < headers[h].allocationSize && h + headers[h].allocationSize <= freeEndStart
  {
    var i := IndexOf(blocks, headers, begin, freeEndStart, h);
    Step(blocks, headers, begin, freeEndStart, i);
    BlocksInside(blocks, headers, begin, freeEndStart, i);
    forall q: nat | h - headers[h].prevFree <= q < h
      ensures q !in headers
    {
      GapHoldsNoHeader(blocks, headers, begin, freeEndStart, i, q);
    }
  }

  /** No live header lies in the gap recorded on the k-th block. */
  lemma GapHoldsNoHeader(blocks: seq<nat>, headers: map<nat, AllocationHeader>, begin: nat, freeEndStart: nat, k: nat, q: nat)
    requires Tiled(blocks, headers, begin, freeEndStart) && k < |blocks|
    requires GapStart(blocks, headers, begin, k) <= q < blocks[k]
    ensures q !in headers
  {
    KeysAreBlocks(blocks, headers, begin, freeEndStart);
    forall m | 0 <= m < |blocks|
      ensures blocks[m] != q
    {
      if m < k {
        Ordered(blocks, headers, begin, freeEndStart, m, k);
        Step(blocks, headers, begin, freeEndStart, m);
      } else if m > k {
        Ordered(blocks, headers, begin, freeEndStart, k, m);
        Step(blocks, headers, begin, freeEndStart, k);
      }
    }
  }

  /** No live header lies strictly inside a live block. */
  lemma NoHeaderInsideBlock(blocks: seq<nat>, headers: map<nat, AllocationHeader>, begin: nat, freeEndStart: nat, k: nat, q: nat)
    requires Tiled(blocks, headers, begin, freeEndStart) && k < |blocks|
    requires blocks[k] < q < BlockEnd(headers, blocks[k])
    ensures q !in headers
  {
    KeysAreBlocks(blocks, headers, begin, freeEndStart);
    forall m | 0 <= m < |blocks|
      ensures blocks[m] != q
    {
      if m < k {
        Ordered(blocks, headers, begin, freeEndStart, m, k);
        Step(blocks, headers, begin, freeEndStart, m);
      } else if m > k {
        Ordered(blocks, headers, begin, freeEndStart, k, m);
      }
    }
  }

  /** A block ends exactly at the trailing free region iff it is the last one; otherwise before it. */
  lemma LastBlockEnd(blocks: seq<nat>, headers: map<nat, AllocationHeader>, begin: nat, freeEndStart: nat, k: nat)
    requires Tiled(blocks, headers, begin, freeEndStart) && k < |blocks|
    ensures k + 1 == |blocks| ==> BlockEnd(headers, blocks[k]) == freeEndStart
    ensures k + 1 < |blocks| ==> BlockEnd(headers, blocks[k]) < freeEndStart
  {
    Step(blocks, headers, begin, freeEndStart, k);
    if k + 1 < |blocks| {
      BlocksInside(blocks, headers, begin, freeEndStart, k + 1);
    }
  }

  /** The region [GapStart(i), BlockEnd(blocks[i])): the i-th block with the gap before it. */
  ghost predicate InRegion(blocks: seq<nat>, headers: map<nat, AllocationHeader>, begin: nat, i: nat, p: nat)
    requires Indexed(blocks, headers) && i < |blocks|
  {
    GapStart(blocks, headers, begin, i) <= p < BlockEnd(headers, blocks[i])
  }

  lemma RegionsDisjoint(blocks: seq<nat>, headers: map<nat, AllocationHeader>, begin: nat, freeEndStart: nat, i: nat, j: nat, p: nat)
    requires Tiled(blocks, headers, begin, freeEndStart) && i < |blocks| && j < |blocks|
    ensures InRegion(blocks, headers, begin, i, p) && InRegion(blocks, headers, begin, j, p) ==> i == j
  {
    if i < j {
      Ordered(blocks, headers, begin, freeEndStart, i, j);
    } else if j < i {
      Ordered(blocks, headers, begin, freeEndStart, j, i);
    }
  }

  lemma {:induction false} FindRegion(blocks: seq<nat>, headers: map<nat, AllocationHeader>, begin: nat, freeEndStart: nat, p: nat, k: nat)
    returns (i: nat)
    requires Tiled(blocks, headers, begin, freeEndStart)
    requires k < |blocks| && GapStart(blocks, headers, begin, k) <= p < freeEndStart
    ensures k <= i < |blocks| && InRegion(blocks, headers, begin, i, p)
    decreases |blocks| - k
  {
    Step(blocks, headers, begin, freeEndStart, k);
    if k + 1 == |blocks| {
      i := k;
    } else if p < BlockEnd(headers, blocks[k]) {
      i := k;
    } else {
      i := FindRegion(blocks, headers, begin, freeEndStart, p, k + 1);
    }
  }

  /**
   * The tiling covers [begin, freeEndStart) exactly: every address below the
   * trailing region lies in the gap or the block of exactly one live header.
   */
  lemma TilingCovers(blocks: seq<nat>, headers: map<nat, AllocationHeader>, begin: nat, freeEndStart: nat, p: nat)
    returns (i: nat)
    requires Tiled(blocks, headers, begin, freeEndStart) && begin <= p < freeEndStart
    ensures i < |blocks| && InRegion(blocks, headers, begin, i, p)
    ensures forall j :: 0 <= j < |blocks| && InRegion(blocks, headers, begin, j, p) ==> j == i
  {
    i := FindRegion(blocks, headers, begin, freeEndStart, p, 0);
    forall j | 0 <= j < |blocks|
      ensures InRegion(blocks, headers, begin, j, p) ==> j == i
    {
      RegionsDisjoint(blocks, headers, begin, freeEndStart, i, j, p);
    }
  }

  /** Sizes of the live blocks, in address order. */
  function Sizes(blocks: seq<nat>, headers: map<nat, AllocationHeader>): (r: seq<nat>)
    requires Indexed(blocks, headers)
    ensures |r| == |blocks|
    ensures forall i :: 0 <= i < |blocks| ==> r[i] == headers[blocks[i]].allocationSize
  {
    seq(|blocks|, i requires 0 <= i < |blocks| => headers[blocks[i]].allocationSize)
  }

  /** Sizes of the gaps recorded on the live blocks, in address order. */
  function Gaps(blocks: seq<nat>, headers: map<nat, AllocationHeader>): (r: seq<nat>)
    requires Indexed(blocks, headers)
    ensures |r| == |blocks|
    ensures forall i :: 0 <= i < |blocks| ==> r[i] == headers[blocks[i]].prevFree
  {
    seq(|blocks|, i requires 0 <= i < |blocks| => headers[blocks[i]].prevFree)
  }

  lemma {:induction false} ConservationPrefix(blocks: seq<nat>, headers: map<nat, AllocationHeader>, begin: nat, freeEndStart: nat, k: nat)
    requires Tiled(blocks, headers, begin, freeEndStart) && k <= |blocks|
    ensures begin + Sum(Sizes(blocks, headers)[..k]) + Sum(Gaps(blocks, headers)[..k]) == GapStart(blocks, headers, begin, k)
  {
    if k > 0 {
      ConservationPrefix(blocks, headers, begin, freeEndStart, k - 1);
      var sizes, gaps := Sizes(blocks, headers), Gaps(blocks, headers);
      assert sizes[..k][..k - 1] == sizes[..k - 1];
      assert gaps[..k][..k - 1] == gaps[..k - 1];
      assert Sum(sizes[..k]) == Sum(sizes[..k - 1]) + sizes[k - 1];
      assert Sum(gaps[..k]) == Sum(gaps[..k - 1]) + gaps[k - 1];
      Step(blocks, headers, begin, freeEndStart, k - 1);
    }
  }

  /**
   * No byte is unaccounted for: the live blocks and the recorded gaps add up
   * to exactly the part of the region below the trailing free region.
   */
  lemma Conservation(blocks: seq<nat>, headers: map<nat, AllocationHeader>, begin: nat, freeEndStart: nat)
    requires Tiled(blocks, headers, begin, freeEndStart)
    ensures begin + Sum(Sizes(blocks, headers)) + Sum(Gaps(blocks, headers)) == freeEndStart
  {
    ConservationPrefix(blocks, headers, begin, freeEndStart, |blocks|);
    assert Sizes(blocks, headers)[..|blocks|] == Sizes(blocks, headers);
    assert Gaps(blocks, headers)[..|blocks|] == Gaps(blocks, headers);
  }

  // ---------------------------------------------------------------------------
  // How Alloc and Free change the tiling

  /**
   * Alloc from a recorded gap: a block of size a placed at the front of the
   * gap recorded on blocks[i], whose header keeps the rest of the gap.
   */
  lemma SplitGapKeepsTiling(blocks: seq<nat>, headers: map<nat, AllocationHeader>, begin: nat, freeEndStart: nat, i: nat, a: nat,
                             headers': map<nat, AllocationHeader>)
    requires Tiled(blocks, headers, begin, freeEndStart) && i < |blocks|
    requires 0 < a <= headers[blocks[i]].prevFree && Aligned(a)
    requires
      var g, nh := blocks[i], GapStart(blocks, headers, begin, i);
      headers' == headers[nh := AllocationHeader(0, a)][g := headers[g].(prevFree := headers[g].prevFree - a)]
    ensures GapStart(blocks, headers, begin, i) !in headers
    ensures GapStart(blocks, headers, begin, i) + headers[blocks[i]].prevFree == blocks[i]
    ensures Tiled(blocks[..i] + [GapStart(blocks, headers, begin, i)] + blocks[i..], headers', begin, freeEndStart)
  {
    var nh := GapStart(blocks, headers, begin, i);
    var blocks' := blocks[..i] + [nh] + blocks[i..];
    Step(blocks, headers, begin, freeEndStart, i);
    GapHoldsNoHeader(blocks, headers, begin, freeEndStart, i, nh);
    SplitGapKeys(blocks, headers, begin, freeEndStart, i, a, blocks', headers');
    SplitGapWellFormed(blocks, headers, begin, freeEndStart, i, a, blocks', headers');
    SplitGapAdjacent(blocks, headers, begin, freeEndStart, i, a, blocks', headers');
  }

  lemma InsertIndexing(blocks: seq<nat>, i: nat, nh: nat, blocks': seq<nat>)
    requires i < |blocks| && blocks' == blocks[..i] + [nh] + blocks[i..]
    ensures |blocks'| == |blocks| + 1 && blocks'[i] == nh
    ensures forall j :: 0 <= j < i ==> blocks'[j] == blocks[j]
    ensures forall j :: i < j < |blocks'| ==> blocks'[j] == blocks[j - 1]
  {
  }

  lemma SplitGapKeys(blocks: seq<nat>, headers: map<nat, AllocationHeader>, begin: nat, freeEndStart: nat, i: nat, a: nat,
                     blocks': seq<nat>, headers': map<nat, AllocationHeader>)
    requires Tiled(blocks, headers, begin, freeEndStart) && i < |blocks|
    requires blocks' == blocks[..i] + [GapStart(blocks, headers, begin, i)] + blocks[i..]
    requires headers'.Keys == headers.Keys + {GapStart(blocks, headers, begin, i)}
    requires GapStart(blocks, headers, begin, i) !in headers
    ensures Indexed(blocks', headers')
    ensures |headers'| == |blocks'|
  {
    var nh := GapStart(blocks, headers, begin, i);
    InsertIndexing(blocks, i, nh, blocks');
    assert headers'.Keys == headers.Keys + {nh};
    assert |headers'.Keys| == |headers.Keys| + 1;
  }

  lemma SplitGapWellFormed(blocks: seq<nat>, headers: map<nat, AllocationHeader>, begin: nat, freeEndStart: nat, i: nat, a: nat,
                           blocks': seq<nat>, headers': map<nat, AllocationHeader>)
    requires Tiled(blocks, headers, begin, freeEndStart) && i < |blocks|
    requires 0 < a <= headers[blocks[i]].prevFree && Aligned(a)
    requires blocks' == blocks[..i] + [GapStart(blocks, headers, begin, i)] + blocks[i..]
    requires GapStart(blocks, headers, begin, i) !in headers
    requires headers' == headers[GapStart(blocks, headers, begin, i) := AllocationHeader(0, a)]
                                [blocks[i] := headers[blocks[i]].(prevFree := headers[blocks[i]].prevFree - a)]
    ensures forall j :: 0 <= j < |blocks'| ==> WellFormed(blocks'[j], headers'[blocks'[j]])
  {
    var g := blocks[i];
    var nh := GapStart(blocks, headers, begin, i);
    InsertIndexing(blocks, i, nh, blocks');
    GapStartBounds(blocks, headers, begin, freeEndStart, i);
    assert WellFormed(g, headers[g]);
    assert headers[g].prevFree == (headers[g].prevFree - a) + a;
    forall j | 0 <= j < |blocks'|
      ensures WellFormed(blocks'[j], headers'[blocks'[j]])
    {
      if j < i {
        assert WellFormed(blocks[j], headers[blocks[j]]);
        BlocksDistinct(blocks, headers, begin, freeEndStart, i, j);
      } else if j > i + 1 {
        assert WellFormed(blocks[j - 1], headers[blocks[j - 1]]);
        BlocksDistinct(blocks, headers, begin, freeEndStart, i, j - 1);
      } else if j == i + 1 {
        SubAligned(headers[g].prevFree, a);
      }
    }
  }

  lemma SplitGapAdjacent(blocks: seq<nat>, headers: map<nat, AllocationHeader>, begin: nat, freeEndStart: nat, i: nat, a: nat,
                         blocks': seq<nat>, headers': map<nat, AllocationHeader>)
    requires Tiled(blocks, headers, begin, freeEndStart) && i < |blocks|
    requires 0 < a <= headers[blocks[i]].prevFree
    requires blocks' == blocks[..i] + [GapStart(blocks, headers, begin, i)] + blocks[i..]
    requires GapStart(blocks, headers, begin, i) !in headers
    requires headers' == headers[GapStart(blocks, headers, begin, i) := AllocationHeader(0, a)]
                                [blocks[i] := headers[blocks[i]].(prevFree := headers[blocks[i]].prevFree - a)]
    requires Indexed(blocks', headers')
    ensures forall j {:trigger GapStart(blocks', headers', begin, j)} :: 0 <= j < |blocks'| ==>
              GapStart(blocks', headers', begin, j) + headers'[blocks'[j]].prevFree == blocks'[j]
    ensures GapStart(blocks', headers', begin, |blocks'|) == freeEndStart
  {
    InsertIndexing(blocks, i, GapStart(blocks, headers, begin, i), blocks');
    forall j | 0 <= j < |blocks'|
      ensures GapStart(blocks', headers', begin, j) + headers'[blocks'[j]].prevFree == blocks'[j]
    {
      SplitGapAdjacentAt(blocks, headers, begin, freeEndStart, i, a, blocks', headers', j);
    }
    SplitGapLast(blocks, headers, begin, freeEndStart, i, a, blocks', headers');
  }

  lemma SplitGapLast(blocks: seq<nat>, headers: map<nat, AllocationHeader>, begin: nat, freeEndStart: nat, i: nat, a: nat,
                     blocks': seq<nat>, headers': map<nat, AllocationHeader>)
    requires Tiled(blocks, headers, begin, freeEndStart) && i < |blocks|
    requires 0 < a <= headers[blocks[i]].prevFree
    requires blocks' == blocks[..i] + [GapStart(blocks, headers, begin, i)] + blocks[i..]
    requires GapStart(blocks, headers, begin, i) !in headers
    requires headers' == headers[GapStart(blocks, headers, begin, i) := AllocationHeader(0, a)]
                                [blocks[i] := headers[blocks[i]].(prevFree := headers[blocks[i]].prevFree - a)]
    requires Indexed(blocks', headers')
    ensures GapStart(blocks', headers', begin, |blocks'|) == freeEndStart
  {
    InsertIndexing(blocks, i, GapStart(blocks, headers, begin, i), blocks');
    assert blocks'[|blocks'| - 1] == blocks[|blocks| - 1];
    SplitGapSameSize(blocks, headers, begin, freeEndStart, i, a, headers', |blocks| - 1);
  }

  /** Every old block keeps its size, and every old block other than blocks[i] its whole header. */
  lemma SplitGapSameSize(blocks: seq<nat>, headers: map<nat, AllocationHeader>, begin: nat, freeEndStart: nat, i: nat, a: nat,
                         headers': map<nat, AllocationHeader>, m: nat)
    requires Tiled(blocks, headers, begin, freeEndStart) && i < |blocks| && m < |blocks|
    requires 0 < a <= headers[blocks[i]].prevFree
    requires GapStart(blocks, headers, begin, i) !in headers
    requires headers' == headers[GapStart(blocks, headers, begin, i) := AllocationHeader(0, a)]
                                [blocks[i] := headers[blocks[i]].(prevFree := headers[blocks[i]].prevFree - a)]
    ensures blocks[m] in headers' && headers'[blocks[m]].allocationSize == headers[blocks[m]].allocationSize
    ensures m != i ==> headers'[blocks[m]] == headers[blocks[m]]
  {
    BlocksDistinct(blocks, headers, begin, freeEndStart, i, m);
  }

  lemma SplitGapAdjacentAt(blocks: seq<nat>, headers: map<nat, AllocationHeader>, begin: nat, freeEndStart: nat, i: nat, a: nat,
                           blocks': seq<nat>, headers': map<nat, AllocationHeader>, j: nat)
    requires Tiled(blocks, headers, begin, freeEndStart) && i < |blocks|
    requires 0 < a <= headers[blocks[i]].prevFree
    requires blocks' == blocks[..i] + [GapStart(blocks, headers, begin, i)] + blocks[i..]
    requires GapStart(blocks, headers, begin, i) !in headers
    requires headers' == headers[GapStart(blocks, headers, begin, i) := AllocationHeader(0, a)]
                                [blocks[i] := headers[blocks[i]].(prevFree := headers[blocks[i]].prevFree - a)]
    requires Indexed(blocks', headers') && j < |blocks'|
    ensures GapStart(blocks', headers', begin, j) + headers'[blocks'[j]].prevFree == blocks'[j]
  {
    InsertIndexing(blocks, i, GapStart(blocks, headers, begin, i), blocks');
    if j < i {
      Step(blocks, headers, begin, freeEndStart, j);
      SplitGapSameSize(blocks, headers, begin, freeEndStart, i, a, headers', j);
      if j > 0 {
        SplitGapSameSize(blocks, headers, begin, freeEndStart, i, a, headers', j - 1);
      }
    } else if j == i {
      if j > 0 {
        SplitGapSameSize(blocks, headers, begin, freeEndStart, i, a, headers', j - 1);
      }
    } else if j == i + 1 {
      Step(blocks, headers, begin, freeEndStart, i);
    } else {
      Step(blocks, headers, begin, freeEndStart, j - 1);
      SplitGapSameSize(blocks, headers, begin, freeEndStart, i, a, headers', j - 1);
      SplitGapSameSize(blocks, headers, begin, freeEndStart, i, a, headers', j - 2);
    }
  }

  /** Alloc from the trailing region: a block of size a placed at its start. */
  lemma CarveTailKeepsTiling(blocks: seq<nat>, headers: map<nat, AllocationHeader>, begin: nat, freeEndStart: nat, a: nat)
    requires Tiled(blocks, headers, begin, freeEndStart)
    requires 0 < a && Aligned(a)
    ensures freeEndStart !in headers
    ensures Tiled(blocks + [freeEndStart], headers[freeEndStart := AllocationHeader(0, a)], begin, freeEndStart + a)
  {
    var blocks' := blocks + [freeEndStart];
    var headers' := headers[freeEndStart := AllocationHeader(0, a)];
    TailSlotIsFree(blocks, headers, begin, freeEndStart);
    CarveTailSteps(blocks, headers, begin, freeEndStart, a, blocks', headers');
    assert GapStart(blocks', headers', begin, |blocks'|) == freeEndStart + a;
  }

  /** The trailing free region starts on an aligned slot that holds no header. */
  lemma TailSlotIsFree(blocks: seq<nat>, headers: map<nat, AllocationHeader>, begin: nat, freeEndStart: nat)
    requires Tiled(blocks, headers, begin, freeEndStart)
    ensures freeEndStart !in headers && Aligned(freeEndStart)
  {
    KeysAreBlocks(blocks, headers, begin, freeEndStart);
    forall m | 0 <= m < |blocks|
      ensures blocks[m] != freeEndStart
    {
      BlocksInside(blocks, headers, begin, freeEndStart, m);
    }
    GapStartBounds(blocks, headers, begin, freeEndStart, |blocks|);
  }

  /** After a block is appended at the trailing free region, every block is still well formed and preceded by its gap. */
  lemma CarveTailSteps(blocks: seq<nat>, headers: map<nat, AllocationHeader>, begin: nat, freeEndStart: nat, a: nat,
                       blocks': seq<nat>, headers': map<nat, AllocationHeader>)
    requires Tiled(blocks, headers, begin, freeEndStart) && freeEndStart !in headers && Aligned(freeEndStart)
    requires 0 < a && Aligned(a)
    requires blocks' == blocks + [freeEndStart] && headers' == headers[freeEndStart := AllocationHeader(0, a)]
    ensures Indexed(blocks', headers')
    ensures forall j :: 0 <= j < |blocks'| ==> WellFormed(blocks'[j], headers'[blocks'[j]])
    ensures forall j {:trigger GapStart(blocks', headers', begin, j)} :: 0 <= j < |blocks'| ==>
      GapStart(blocks', headers', begin, j) + headers'[blocks'[j]].prevFree == blocks'[j]
  {
    assert forall j :: 0 <= j < |blocks| ==> blocks'[j] == blocks[j];
    assert Indexed(blocks', headers');
    forall j | 0 <= j < |blocks'|
      ensures WellFormed(blocks'[j], headers'[blocks'[j]])
      ensures GapStart(blocks', headers', begin, j) + headers'[blocks'[j]].prevFree == blocks'[j]
    {
      if j < |blocks| {
        Step(blocks, headers, begin, freeEndStart, j);
        assert WellFormed(blocks[j], headers[blocks[j]]);
      }
    }
  }

  /** Free of the last live block: it and its gap join the trailing region. */
  lemma FreeLastKeepsTiling(blocks: seq<nat>, headers: map<nat, AllocationHeader>, begin: nat, freeEndStart: nat)
    requires Tiled(blocks, headers, begin, freeEndStart) && |blocks| > 0
    ensures var i := |blocks| - 1;
      Tiled(blocks[..i], headers - {blocks[i]}, begin, GapStart(blocks, headers, begin, i))
  {
    var i := |blocks| - 1;
    FreeLastSteps(blocks, headers, begin, freeEndStart, blocks[..i], headers - {blocks[i]});
  }

  /** After the last block is dropped, every remaining block is still well formed and preceded by its gap. */
  lemma FreeLastSteps(blocks: seq<nat>, headers: map<nat, AllocationHeader>, begin: nat, freeEndStart: nat,
                      blocks': seq<nat>, headers': map<nat, AllocationHeader>)
    requires Tiled(blocks, headers, begin, freeEndStart) && |blocks| > 0
    requires blocks' == blocks[..|blocks| - 1] && headers' == headers - {blocks[|blocks| - 1]}
    ensures Indexed(blocks', headers') && |headers'| == |blocks'|
    ensures forall j :: 0 <= j < |blocks'| ==> WellFormed(blocks'[j], headers'[blocks'[j]])
    ensures forall j {:trigger GapStart(blocks', headers', begin, j)} :: 0 <= j < |blocks'| ==>
      GapStart(blocks', headers', begin, j) + headers'[blocks'[j]].prevFree == blocks'[j]
  {
    var i := |blocks| - 1;
    var h := blocks[i];
    forall m | 0 <= m < i
      ensures blocks[m] != h
    {
      BlocksDistinct(blocks, headers, begin, freeEndStart, m, i);
    }
    assert Indexed(blocks', headers');
    forall j | 0 <= j < |blocks'|
      ensures WellFormed(blocks'[j], headers'[blocks'[j]])
      ensures GapStart(blocks', headers', begin, j) + headers'[blocks'[j]].prevFree == blocks'[j]
    {
      assert WellFormed(blocks[j], headers[blocks[j]]);
      Step(blocks, headers, begin, freeEndStart, j);
    }
  }

  lemma RemoveIndexing(blocks: seq<nat>, i: nat, blocks': seq<nat>)
    requires i < |blocks| && blocks' == blocks[..i] + blocks[i + 1..]
    ensures |blocks'| == |blocks| - 1
    ensures forall j :: 0 <= j < i ==> blocks'[j] == blocks[j]
    ensures forall j :: i <= j < |blocks'| ==> blocks'[j] == blocks[j + 1]
  {
  }

  /**
   * Free of a block that has a live successor: the block, its own gap and the
   * successor's gap become one gap, recorded on the successor.
   */
  lemma FreeMiddleKeepsTiling(blocks: seq<nat>, headers: map<nat, AllocationHeader>, begin: nat, freeEndStart: nat, i: nat,
                              headers': map<nat, AllocationHeader>)
    requires Tiled(blocks, headers, begin, freeEndStart) && i + 1 < |blocks|
    requires
      var n := blocks[i + 1];
      headers' == (headers - {blocks[i]})[n := headers[n].(prevFree := headers[blocks[i]].prevFree + headers[blocks[i]].allocationSize + headers[n].prevFree)]
    ensures GapStart(blocks, headers, begin, i) + headers[blocks[i]].prevFree + headers[blocks[i]].allocationSize
              + headers[blocks[i + 1]].prevFree == blocks[i + 1]
    ensures Tiled(blocks[..i] + blocks[i + 1..], headers', begin, freeEndStart)
  {
    var blocks' := blocks[..i] + blocks[i + 1..];
    MergedGap(blocks, headers, begin, freeEndStart, i);
    FreeMiddleKeys(blocks, headers, begin, freeEndStart, i, blocks', headers');
    FreeMiddleWellFormed(blocks, headers, begin, freeEndStart, i, blocks', headers');
    FreeMiddleAdjacent(blocks, headers, begin, freeEndStart, i, blocks', headers');
    FreeMiddleLast(blocks, headers, begin, freeEndStart, i, blocks', headers');
  }

  /** The gap of blocks[i], blocks[i] itself and the gap of blocks[i + 1] are contiguous. */
  lemma MergedGap(blocks: seq<nat>, headers: map<nat, AllocationHeader>, begin: nat, freeEndStart: nat, i: nat)
    requires Tiled(blocks, headers, begin, freeEndStart) && i + 1 < |blocks|
    ensures GapStart(blocks, headers, begin, i) + headers[blocks[i]].prevFree + headers[blocks[i]].allocationSize
              + headers[blocks[i + 1]].prevFree == blocks[i + 1]
  {
    Step(blocks, headers, begin, freeEndStart, i);
    Step(blocks, headers, begin, freeEndStart, i + 1);
  }

  lemma FreeMiddleAdjacent(blocks: seq<nat>, headers: map<nat, AllocationHeader>, begin: nat, freeEndStart: nat, i: nat,
                           blocks': seq<nat>, headers': map<nat, AllocationHeader>)
    requires Tiled(blocks, headers, begin, freeEndStart) && i + 1 < |blocks|
    requires blocks' == blocks[..i] + blocks[i + 1..]
    requires headers' == (headers - {blocks[i]})[blocks[i + 1] := headers[blocks[i + 1]].(prevFree :=
                 headers[blocks[i]].prevFree + headers[blocks[i]].allocationSize + headers[blocks[i + 1]].prevFree)]
    requires Indexed(blocks', headers')
    ensures forall j {:trigger GapStart(blocks', headers', begin, j)} :: 0 <= j < |blocks'| ==>
              GapStart(blocks', headers', begin, j) + headers'[blocks'[j]].prevFree == blocks'[j]
  {
    forall j | 0 <= j < |blocks'|
      ensures GapStart(blocks', headers', begin, j) + headers'[blocks'[j]].prevFree == blocks'[j]
    {
      FreeMiddleAdjacentAt(blocks, headers, begin, freeEndStart, i, blocks', headers', j);
    }
  }

  /** After merging, every remaining block keeps its size, and all but the successor their whole header. */
  lemma FreeMiddleSameSize(blocks: seq<nat>, headers: map<nat, AllocationHeader>, begin: nat, freeEndStart: nat, i: nat,
                           headers': map<nat, AllocationHeader>, m: nat)
    requires Tiled(blocks, headers, begin, freeEndStart) && i + 1 < |blocks| && m < |blocks| && m != i
    requires headers' == (headers - {blocks[i]})[blocks[i + 1] := headers[blocks[i + 1]].(prevFree :=
                 headers[blocks[i]].prevFree + headers[blocks[i]].allocationSize + headers[blocks[i + 1]].prevFree)]
    ensures blocks[m] in headers' && headers'[blocks[m]].allocationSize == headers[blocks[m]].allocationSize
    ensures m != i + 1 ==> headers'[blocks[m]] == headers[blocks[m]]
  {
    BlocksDistinct(blocks, headers, begin, freeEndStart, i, m);
    BlocksDistinct(blocks, headers, begin, freeEndStart, i + 1, m);
  }

  lemma FreeMiddleKeys(blocks: seq<nat>, headers: map<nat, AllocationHeader>, begin: nat, freeEndStart: nat, i: nat,
                       blocks': seq<nat>, headers': map<nat, AllocationHeader>)
    requires Tiled(blocks, headers, begin, freeEndStart) && i + 1 < |blocks|
    requires blocks' == blocks[..i] + blocks[i + 1..]
    requires headers' == (headers - {blocks[i]})[blocks[i + 1] := headers[blocks[i + 1]].(prevFree :=
                 headers[blocks[i]].prevFree + headers[blocks[i]].allocationSize + headers[blocks[i + 1]].prevFree)]
    ensures Indexed(blocks', headers')
    ensures |headers'| == |blocks'|
  {
    RemoveIndexing(blocks, i, blocks');
    forall j | 0 <= j < |blocks'|
      ensures blocks'[j] in headers'
    {
      FreeMiddleSameSize(blocks, headers, begin, freeEndStart, i, headers', if j < i then j else j + 1);
    }
    BlocksDistinct(blocks, headers, begin, freeEndStart, i, i + 1);
    assert headers'.Keys == headers.Keys - {blocks[i]};
  }

  lemma FreeMiddleWellFormed(blocks: seq<nat>, headers: map<nat, AllocationHeader>, begin: nat, freeEndStart: nat, i: nat,
                             blocks': seq<nat>, headers': map<nat, AllocationHeader>)
    requires Tiled(blocks, headers, begin, freeEndStart) && i + 1 < |blocks|
    requires blocks' == blocks[..i] + blocks[i + 1..]
    requires headers' == (headers - {blocks[i]})[blocks[i + 1] := headers[blocks[i + 1]].(prevFree :=
                 headers[blocks[i]].prevFree + headers[blocks[i]].allocationSize + headers[blocks[i + 1]].prevFree)]
    requires Indexed(blocks', headers')
    ensures forall j :: 0 <= j < |blocks'| ==> WellFormed(blocks'[j], headers'[blocks'[j]])
  {
    RemoveIndexing(blocks, i, blocks');
    var h, n := blocks[i], blocks[i + 1];
    assert WellFormed(h, headers[h]) && WellFormed(n, headers[n]);
    AddAligned(headers[h].prevFree, headers[h].allocationSize);
    AddAligned(headers[h].prevFree + headers[h].allocationSize, headers[n].prevFree);
    forall j | 0 <= j < |blocks'|
      ensures WellFormed(blocks'[j], headers'[blocks'[j]])
    {
      var m := if j < i then j else j + 1;
      assert WellFormed(blocks[m], headers[blocks[m]]);
      FreeMiddleSameSize(blocks, headers, begin, freeEndStart, i, headers', m);
    }
  }

  lemma FreeMiddleAdjacentAt(blocks: seq<nat>, headers: map<nat, AllocationHeader>, begin: nat, freeEndStart: nat, i: nat,
                             blocks': seq<nat>, headers': map<nat, AllocationHeader>, j: nat)
    requires Tiled(blocks, headers, begin, freeEndStart) && i + 1 < |blocks|
    requires blocks' == blocks[..i] + blocks[i + 1..]
    requires headers' == (headers - {blocks[i]})[blocks[i + 1] := headers[blocks[i + 1]].(prevFree :=
                 headers[blocks[i]].prevFree + headers[blocks[i]].allocationSize + headers[blocks[i + 1]].prevFree)]
    requires Indexed(blocks', headers') && j < |blocks'|
    ensures GapStart(blocks', headers', begin, j) + headers'[blocks'[j]].prevFree == blocks'[j]
  {
    RemoveIndexing(blocks, i, blocks');
    if j < i {
      Step(blocks, headers, begin, freeEndStart, j);
      FreeMiddleSameSize(blocks, headers, begin, freeEndStart, i, headers', j);
      if j > 0 {
        FreeMiddleSameSize(blocks, headers, begin, freeEndStart, i, headers', j - 1);
      }
    } else if j == i {
      Step(blocks, headers, begin, freeEndStart, i);
      Step(blocks, headers, begin, freeEndStart, i + 1);
      if j > 0 {
        FreeMiddleSameSize(blocks, headers, begin, freeEndStart, i, headers', j - 1);
      }
    } else {
      Step(blocks, headers, begin, freeEndStart, j + 1);
      FreeMiddleSameSize(blocks, headers, begin, freeEndStart, i, headers', j + 1);
      FreeMiddleSameSize(blocks, headers, begin, freeEndStart, i, headers', j);
    }
  }

  lemma FreeMiddleLast(blocks: seq<nat>, headers: map<nat, AllocationHeader>, begin: nat, freeEndStart: nat, i: nat,
                       blocks': seq<nat>, headers': map<nat, AllocationHeader>)
    requires Tiled(blocks, headers, begin, freeEndStart) && i + 1 < |blocks|
    requires blocks' == blocks[..i] + blocks[i + 1..]
    requires headers' == (headers - {blocks[i]})[blocks[i + 1] := headers[blocks[i + 1]].(prevFree :=
                 headers[blocks[i]].prevFree + headers[blocks[i]].allocationSize + headers[blocks[i + 1]].prevFree)]
    requires Indexed(blocks', headers')
    ensures GapStart(blocks', headers', begin, |blocks'|) == freeEndStart
  {
    RemoveIndexing(blocks, i, blocks');
    assert blocks'[|blocks'| - 1] == blocks[|blocks| - 1];
    FreeMiddleSameSize(blocks, headers, begin, freeEndStart, i, headers', |blocks| - 1);
  }

  // ---------------------------------------------------------------------------
  // What the layout shows to clients: objects, free-gap headers, walk spans

  /** The headers free_blocks_ must hold: those recording a non-empty gap. */
  function FreeBlocksOf(headers: map<nat, AllocationHeader>): set<nat>
  {
    set h | h in headers && headers[h].prevFree > 0
  }

  lemma FreeBlocksInsert(headers: map<nat, AllocationHeader>, h: nat, size: nat)
    requires h !in headers
    ensures FreeBlocksOf(headers[h := AllocationHeader(0, size)]) == FreeBlocksOf(headers)
  {
  }

  lemma FreeBlocksSetPrevFree(headers: map<nat, AllocationHeader>, h: nat, prevFree: nat)
    requires h in headers
    ensures FreeBlocksOf(headers[h := headers[h].(prevFree := prevFree)]) ==
              if prevFree > 0 then FreeBlocksOf(headers) + {h} else FreeBlocksOf(headers) - {h}
  {
  }

  lemma FreeBlocksRemove(headers: map<nat, AllocationHeader>, h: nat)
    ensures FreeBlocksOf(headers - {h}) == FreeBlocksOf(headers) - {h}
  {
  }

  /** The span Walk reports for the live block whose header is at h. */
  function LiveSpan(headers: map<nat, AllocationHeader>, h: nat): Span
    requires h in headers
  {
    Span(h + kHeaderSize, BlockEnd(headers, h), headers[h].allocationSize)
  }

  /** The spans of the live blocks, in address order. */
  function LiveSpans(blocks: seq<nat>, headers: map<nat, AllocationHeader>): (r: seq<Span>)
    requires Indexed(blocks, headers)
    ensures |r| == |blocks|
    ensures forall i :: 0 <= i < |blocks| ==> r[i] == LiveSpan(headers, blocks[i])
  {
    seq(|blocks|, i requires 0 <= i < |blocks| => LiveSpan(headers, blocks[i]))
  }

  /**
   * Each span a walk reports is a live object (its header plus the header
   * size) with its allocation size, running from the object to the end of
   * its block, inside the part of the region below the trailing free region.
   */
  lemma LiveSpansAreObjects(blocks: seq<nat>, headers: map<nat, AllocationHeader>, begin: nat, freeEndStart: nat)
    requires Tiled(blocks, headers, begin, freeEndStart)
    ensures forall i :: 0 <= i < |blocks| ==>
      var sp := LiveSpans(blocks, headers)[i];
      sp.start >= kHeaderSize && sp.start - kHeaderSize in headers &&
      sp.size == headers[sp.start - kHeaderSize].allocationSize &&
      sp.end == sp.start + sp.size - kHeaderSize && sp.start < sp.end <= freeEndStart
  {
    var spans := LiveSpans(blocks, headers);
    forall i | 0 <= i < |blocks|
      ensures spans[i].start >= kHeaderSize && spans[i].start - kHeaderSize in headers
      ensures spans[i].size == headers[spans[i].start - kHeaderSize].allocationSize
      ensures spans[i].end == spans[i].start + spans[i].size - kHeaderSize && spans[i].start < spans[i].end <= freeEndStart
    {
      BlocksInside(blocks, headers, begin, freeEndStart, i);
      assert WellFormed(blocks[i], headers[blocks[i]]);
    }
  }

  /** Every live object is reported by some span. */
  lemma LiveSpansCoverObjects(blocks: seq<nat>, headers: map<nat, AllocationHeader>, begin: nat, freeEndStart: nat)
    requires Tiled(blocks, headers, begin, freeEndStart)
    ensures forall h :: h in headers ==> exists i :: 0 <= i < |blocks| && LiveSpans(blocks, headers)[i].start == h + kHeaderSize
  {
    KeysAreBlocks(blocks, headers, begin, freeEndStart);
    var spans := LiveSpans(blocks, headers);
    forall h | h in headers
      ensures exists i :: 0 <= i < |blocks| && spans[i].start == h + kHeaderSize
    {
      var m :| 0 <= m < |blocks| && blocks[m] == h;
      assert spans[m].start == h + kHeaderSize;
    }
  }

  /** Spans come in strictly increasing address order and do not overlap. */
  lemma LiveSpansAscending(blocks: seq<nat>, headers: map<nat, AllocationHeader>, begin: nat, freeEndStart: nat)
    requires Tiled(blocks, headers, begin, freeEndStart)
    ensures forall i, j :: 0 <= i < j < |blocks| ==> LiveSpans(blocks, headers)[i].end < LiveSpans(blocks, headers)[j].start
  {
    var spans := LiveSpans(blocks, headers);
    forall i, j | 0 <= i < j < |blocks|
      ensures spans[i].end < spans[j].start
    {
      Ordered(blocks, headers, begin, freeEndStart, i, j);
    }
  }

  // ---------------------------------------------------------------------------
  // Byte accounting across Alloc and Free

  lemma SumInsert(s: seq<nat>, i: nat, x: nat)
    requires i <= |s|
    ensures Sum(s[..i] + [x] + s[i..]) == Sum(s) + x
  {
    SumAppend(s[..i] + [x], s[i..]);
    SumAppend(s[..i], [x]);
    SumAppend(s[..i], s[i..]);
    assert s[..i] + s[i..] == s;
    assert Sum([x]) == Sum([x][..0]) + x;
  }

  /** A sequence is its prefix, the element at i and its suffix. */
  lemma SplitAt(s: seq<nat>, i: nat)
    requires i < |s|
    ensures s == s[..i] + ([s[i]] + s[i + 1..])
  {
    assert s[i..] == [s[i]] + s[i + 1..];
    assert s == s[..i] + s[i..];
  }

  lemma SumRemove(s: seq<nat>, i: nat)
    requires i < |s|
    ensures Sum(s[..i] + s[i + 1..]) + s[i] == Sum(s)
  {
    var a, b := s[..i], s[i + 1..];
    SplitAt(s, i);
    SumAppend(a, [s[i]] + b);
    SumAppend([s[i]], b);
    SumAppend(a, b);
    assert [s[i]][..0] == [];
  }

  /**
   * The header table after a block of `a` bytes, with its header at nh, is
   * carved from the front of the gap recorded on g: g keeps what is left.
   */
  function CarveGap(headers: map<nat, AllocationHeader>, g: nat, nh: nat, a: nat): map<nat, AllocationHeader>
    requires g in headers && a <= headers[g].prevFree
  {
    headers[g := headers[g].(prevFree := headers[g].prevFree - a)][nh := AllocationHeader(0, a)]
  }

  /**
   * Carving a block from the front of the i-th gap inserts its header into
   * the block order at i; the tiling holds and the live bytes grow by `a`.
   */
  lemma CarveGapKeepsTiling(blocks: seq<nat>, headers: map<nat, AllocationHeader>, begin: nat, freeEndStart: nat, i: nat, a: nat,
                             nh: nat, headers': map<nat, AllocationHeader>)
    requires Tiled(blocks, headers, begin, freeEndStart) && i < |blocks|
    requires 0 < a <= headers[blocks[i]].prevFree && Aligned(a)
    requires nh + headers[blocks[i]].prevFree == blocks[i]
    requires headers' == CarveGap(headers, blocks[i], nh, a)
    ensures nh !in headers
    ensures Tiled(blocks[..i] + [nh] + blocks[i..], headers', begin, freeEndStart)
    ensures Sum(Sizes(blocks[..i] + [nh] + blocks[i..], headers')) == Sum(Sizes(blocks, headers)) + a
  {
    Step(blocks, headers, begin, freeEndStart, i);
    assert nh == GapStart(blocks, headers, begin, i);
    CarveGapReorder(headers, blocks[i], nh, a);
    SplitGapKeepsTiling(blocks, headers, begin, freeEndStart, i, a, headers');
    SplitGapSizes(blocks, headers, begin, freeEndStart, i, a, headers');
  }

  /** Recording the shrunk gap and writing the new header commute: they touch different slots. */
  lemma CarveGapReorder(headers: map<nat, AllocationHeader>, g: nat, nh: nat, a: nat)
    requires g in headers && a <= headers[g].prevFree && nh != g
    ensures CarveGap(headers, g, nh, a) ==
      headers[nh := AllocationHeader(0, a)][g := headers[g].(prevFree := headers[g].prevFree - a)]
  {
  }

  /** Carving keeps free_blocks_ exact: g stays in it only if some of its gap is left. */
  lemma FreeBlocksCarveGap(headers: map<nat, AllocationHeader>, g: nat, nh: nat, a: nat)
    requires g in headers && nh !in headers && 0 < a <= headers[g].prevFree
    ensures FreeBlocksOf(CarveGap(headers, g, nh, a)) ==
              if headers[g].prevFree > a then FreeBlocksOf(headers) else FreeBlocksOf(headers) - {g}
  {
    var headers1 := headers[g := headers[g].(prevFree := headers[g].prevFree - a)];
    FreeBlocksSetPrevFree(headers, g, headers[g].prevFree - a);
    FreeBlocksInsert(headers1, nh, a);
  }

  /**
   * The header table after the block at h is freed into the gap recorded on
   * n, the next live header: h's header is gone and n records h's gap, h's
   * block and its own gap as one gap.
   */
  function MergeGap(headers: map<nat, AllocationHeader>, h: nat, n: nat): map<nat, AllocationHeader>
    requires h in headers && n in headers
  {
    headers[n := headers[n].(prevFree := headers[h].prevFree + headers[h].allocationSize + headers[n].prevFree)] - {h}
  }

  lemma SplitGapSizes(blocks: seq<nat>, headers: map<nat, AllocationHeader>, begin: nat, freeEndStart: nat, i: nat, a: nat,
                      headers': map<nat, AllocationHeader>)
    requires Tiled(blocks, headers, begin, freeEndStart) && i < |blocks|
    requires 0 < a <= headers[blocks[i]].prevFree
    requires GapStart(blocks, headers, begin, i) !in headers
    requires
      var g, nh := blocks[i], GapStart(blocks, headers, begin, i);
      headers' == headers[nh := AllocationHeader(0, a)][g := headers[g].(prevFree := headers[g].prevFree - a)]
    ensures
      var blocks' := blocks[..i] + [GapStart(blocks, headers, begin, i)] + blocks[i..];
      Indexed(blocks', headers') && Sum(Sizes(blocks', headers')) == Sum(Sizes(blocks, headers)) + a
  {
    SplitGapSizeSeq(blocks, headers, begin, freeEndStart, i, a, headers');
    SumInsert(Sizes(blocks, headers), i, a);
  }

  /** Carving a block of `a` bytes before the i-th block inserts `a` into the size sequence at i. */
  lemma SplitGapSizeSeq(blocks: seq<nat>, headers: map<nat, AllocationHeader>, begin: nat, freeEndStart: nat, i: nat, a: nat,
                        headers': map<nat, AllocationHeader>)
    requires Tiled(blocks, headers, begin, freeEndStart) && i < |blocks|
    requires 0 < a <= headers[blocks[i]].prevFree
    requires GapStart(blocks, headers, begin, i) !in headers
    requires
      var g, nh := blocks[i], GapStart(blocks, headers, begin, i);
      headers' == headers[nh := AllocationHeader(0, a)][g := headers[g].(prevFree := headers[g].prevFree - a)]
    ensures
      var blocks' := blocks[..i] + [GapStart(blocks, headers, begin, i)] + blocks[i..];
      var sizes := Sizes(blocks, headers);
      Indexed(blocks', headers') && Sizes(blocks', headers') == sizes[..i] + [a] + sizes[i..]
  {
    var nh := GapStart(blocks, headers, begin, i);
    var blocks' := blocks[..i] + [nh] + blocks[i..];
    InsertIndexing(blocks, i, nh, blocks');
    var sizes := Sizes(blocks, headers);
    forall j | 0 <= j < |blocks'|
      ensures blocks'[j] in headers'
      ensures Sizes(blocks', headers')[j] == (sizes[..i] + [a] + sizes[i..])[j]
    {
      if j != i {
        SplitGapSameSize(blocks, headers, begin, freeEndStart, i, a, headers', if j < i then j else j - 1);
      }
    }
  }

  lemma CarveTailSizes(blocks: seq<nat>, headers: map<nat, AllocationHeader>, freeEndStart: nat, a: nat)
    requires Indexed(blocks, headers) && freeEndStart !in headers
    ensures Indexed(blocks + [freeEndStart], headers[freeEndStart := AllocationHeader(0, a)])
    ensures Sum(Sizes(blocks + [freeEndStart], headers[freeEndStart := AllocationHeader(0, a)])) == Sum(Sizes(blocks, headers)) + a
  {
    var blocks' := blocks + [freeEndStart];
    var headers' := headers[freeEndStart := AllocationHeader(0, a)];
    var sizes := Sizes(blocks, headers);
    assert forall j :: 0 <= j < |blocks| ==> blocks'[j] == blocks[j];
    assert Sizes(blocks', headers') == sizes + [a];
    assert (sizes + [a])[..|sizes|] == sizes;
  }

  lemma FreeLastSizes(blocks: seq<nat>, headers: map<nat, AllocationHeader>, begin: nat, freeEndStart: nat)
    requires Tiled(blocks, headers, begin, freeEndStart) && |blocks| > 0
    ensures var i := |blocks| - 1;
      Indexed(blocks[..i], headers - {blocks[i]}) &&
      Sum(Sizes(blocks[..i], headers - {blocks[i]})) + headers[blocks[i]].allocationSize == Sum(Sizes(blocks, headers))
  {
    var i := |blocks| - 1;
    forall m | 0 <= m < i
      ensures blocks[m] != blocks[i]
    {
      BlocksDistinct(blocks, headers, begin, freeEndStart, m, i);
    }
    var sizes := Sizes(blocks, headers);
    assert Sizes(blocks[..i], headers - {blocks[i]}) == sizes[..i];
  }

  lemma FreeMiddleSizes(blocks: seq<nat>, headers: map<nat, AllocationHeader>, begin: nat, freeEndStart: nat, i: nat,
                        headers': map<nat, AllocationHeader>)
    requires Tiled(blocks, headers, begin, freeEndStart) && i + 1 < |blocks|
    requires
      var n := blocks[i + 1];
      headers' == (headers - {blocks[i]})[n := headers[n].(prevFree := headers[blocks[i]].prevFree + headers[blocks[i]].allocationSize + headers[n].prevFree)]
    ensures
      var blocks' := blocks[..i] + blocks[i + 1..];
      Indexed(blocks', headers') &&
      Sum(Sizes(blocks', headers')) + headers[blocks[i]].allocationSize == Sum(Sizes(blocks, headers))
  {
    FreeMiddleSizeSeq(blocks, headers, begin, freeEndStart, i, headers');
    SumRemove(Sizes(blocks, headers), i);
  }

  /** Freeing the i-th of several blocks removes exactly its entry from the size sequence. */
  lemma FreeMiddleSizeSeq(blocks: seq<nat>, headers: map<nat, AllocationHeader>, begin: nat, freeEndStart: nat, i: nat,
                          headers': map<nat, AllocationHeader>)
    requires Tiled(blocks, headers, begin, freeEndStart) && i + 1 < |blocks|
    requires
      var n := blocks[i + 1];
      headers' == (headers - {blocks[i]})[n := headers[n].(prevFree := headers[blocks[i]].prevFree + headers[blocks[i]].allocationSize + headers[n].prevFree)]
    ensures
      var blocks' := blocks[..i] + blocks[i + 1..];
      var sizes := Sizes(blocks, headers);
      Indexed(blocks', headers') && Sizes(blocks', headers') == sizes[..i] + sizes[i + 1..]
  {
    var blocks' := blocks[..i] + blocks[i + 1..];
    FreeMiddleKeys(blocks, headers, begin, freeEndStart, i, blocks', headers');
    RemoveIndexing(blocks, i, blocks');
    var sizes := Sizes(blocks, headers);
    forall j | 0 <= j < |blocks'|
      ensures Sizes(blocks', headers')[j] == (sizes[..i] + sizes[i + 1..])[j]
    {
      FreeMiddleSameSize(blocks, headers, begin, freeEndStart, i, headers', if j < i then j else j + 1);
    }
  }

  // ---------------------------------------------------------------------------
  // Everything Free relies on, per case

  /** Freeing the last live block: it and its gap join the trailing free region. */
  lemma FreeLastStep(blocks: seq<nat>, headers: map<nat, AllocationHeader>, begin: nat, freeEndStart: nat)
    requires Tiled(blocks, headers, begin, freeEndStart) && |blocks| > 0
    ensures
      var i := |blocks| - 1;
      var h := blocks[i];
      && GapStart(blocks, headers, begin, i) + headers[h].prevFree + headers[h].allocationSize == freeEndStart
      && Aligned(headers[h].prevFree + headers[h].allocationSize)
      && Tiled(blocks[..i], headers - {h}, begin, GapStart(blocks, headers, begin, i))
      && Sum(Sizes(blocks[..i], headers - {h})) + headers[h].allocationSize == Sum(Sizes(blocks, headers))
      && FreeBlocksOf(headers - {h}) == FreeBlocksOf(headers) - {h}
  {
    var i := |blocks| - 1;
    var h := blocks[i];
    Step(blocks, headers, begin, freeEndStart, i);
    assert WellFormed(h, headers[h]);
    AddAligned(headers[h].prevFree, headers[h].allocationSize);
    FreeLastKeepsTiling(blocks, headers, begin, freeEndStart);
    FreeLastSizes(blocks, headers, begin, freeEndStart);
    FreeBlocksRemove(headers, h);
  }

  /** Freeing a block with a live successor n: one merged gap, recorded on n. */
  lemma FreeMiddleStep(blocks: seq<nat>, headers: map<nat, AllocationHeader>, begin: nat, freeEndStart: nat, i: nat,
                       headers': map<nat, AllocationHeader>)
    requires Tiled(blocks, headers, begin, freeEndStart) && i + 1 < |blocks|
    requires headers' == MergeGap(headers, blocks[i], blocks[i + 1])
    ensures
      var h, n := blocks[i], blocks[i + 1];
      var blocks' := blocks[..i] + blocks[i + 1..];
      && h != n
      && Tiled(blocks', headers', begin, freeEndStart)
      && Sum(Sizes(blocks', headers')) + headers[h].allocationSize == Sum(Sizes(blocks, headers))
      && FreeBlocksOf(headers') == FreeBlocksOf(headers) - {h} + {n}
  {
    var h, n := blocks[i], blocks[i + 1];
    BlocksDistinct(blocks, headers, begin, freeEndStart, i, i + 1);
    assert WellFormed(h, headers[h]);
    MergeGapReorder(headers, h, n);
    FreeMiddleKeepsTiling(blocks, headers, begin, freeEndStart, i, headers');
    FreeMiddleSizes(blocks, headers, begin, freeEndStart, i, headers');
    FreeBlocksMergeGap(headers, h, n);
  }

  /** Removing h and growing n's gap commute when h and n differ. */
  lemma MergeGapReorder(headers: map<nat, AllocationHeader>, h: nat, n: nat)
    requires h in headers && n in headers && h != n
    ensures MergeGap(headers, h, n) ==
      (headers - {h})[n := headers[n].(prevFree := headers[h].prevFree + headers[h].allocationSize + headers[n].prevFree)]
  {
  }

  /** Merging keeps free_blocks_ exact: h leaves it and n, whose gap is now non-empty, is in it. */
  lemma FreeBlocksMergeGap(headers: map<nat, AllocationHeader>, h: nat, n: nat)
    requires h in headers && n in headers && h != n && headers[h].allocationSize > 0
    ensures FreeBlocksOf(MergeGap(headers, h, n)) == FreeBlocksOf(headers) - {h} + {n}
  {
    var gap := headers[h].prevFree + headers[h].allocationSize + headers[n].prevFree;
    FreeBlocksSetPrevFree(headers, n, gap);
    FreeBlocksRemove(headers[n := headers[n].(prevFree := gap)], h);
  }

  /** The live header after blocks[i] is the first header past it: none lies in between. */
  lemma FreeNextFacts(blocks: seq<nat>, headers: map<nat, AllocationHeader>, begin: nat, freeEndStart: nat, i: nat)
    requires Tiled(blocks, headers, begin, freeEndStart) && i + 1 < |blocks|
    ensures BlockEnd(headers, blocks[i]) <= blocks[i + 1]
    ensures forall q :: blocks[i] < q < blocks[i + 1] ==> q !in headers
  {
    Step(blocks, headers, begin, freeEndStart, i);
    Step(blocks, headers, begin, freeEndStart, i + 1);
    forall q | blocks[i] < q < blocks[i + 1]
      ensures q !in headers
    {
      if q < BlockEnd(headers, blocks[i]) {
        NoHeaderInsideBlock(blocks, headers, begin, freeEndStart, i, q);
      } else {
        GapHoldsNoHeader(blocks, headers, begin, freeEndStart, i + 1, q);
      }
    }
  }
}
