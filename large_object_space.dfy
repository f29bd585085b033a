/**
 * LargeObjectSpace: what the three large object spaces share. It owns the
 * live and mark bitmaps of the space, swaps and copies them between
 * collections, frees batches of dead objects through the concrete space's
 * Free, and sweeps: every object marked live but not reached by the
 * collector is freed and counted.
 */
module LargeObjects {
  import opened Wrappers
  import opened Sums
  import FreeListLayout
  import Blocks = FreeList
  import MapSpace
  import ValgrindMapSpace

  /** A large object bitmap: the set of addresses whose bit is set, and a name for diagnostics. */
  class LargeObjectBitmap {
    var name: string
    var marked: set<nat>

    constructor (name: string)
      ensures this.name == name && marked == {}
    {
      this.name := name;
      marked := {};
    }

    /** Clear(obj): the bit of obj is reset. */
    method Clear(obj: nat)
      modifies this
      ensures marked == old(marked) - {obj} && name == old(name)
    {
      marked := marked - {obj};
    }

    /** CopyFrom(source): the bits become those of source. */
    method CopyFrom(source: LargeObjectBitmap)
      requires source != this
      modifies this
      ensures marked == source.marked && name == old(name)
    {
      marked := source.marked;
    }
  }

  /** collector::ObjectBytePair: how many objects and how many bytes a sweep freed. */
  datatype ObjectBytePair = ObjectBytePair(objects: nat, bytes: nat)

  /** The concrete space behind a LargeObjectSpace; the virtual calls dispatch on it. */
  datatype SpaceImpl =
    | FreeListImpl(freeList: Blocks.FreeListSpace)
    | MapImpl(maps: MapSpace.LargeObjectMapSpace)
    | ValgrindImpl(redZoned: MapSpace.LargeObjectMapSpace)


  /** The live objects of a free-list space with their allocation sizes. */
  ghost function FreeListSizes(s: Blocks.FreeListSpace): map<nat, nat>
    reads s
  {
    Blocks.ObjectSizes(s.headers)
  }

  /** The live objects of a red-zoned map space, addressed past their red zones, with their mapping sizes. */
  ghost function ValgrindSizes(s: MapSpace.LargeObjectMapSpace): map<nat, nat>
    reads s
    requires s.Valid()
  {
    assert forall k :: k in s.memMaps ==> k < FreeListLayout.kSizeLimit;
    ValgrindMapSpace.ObjectSizes(s.memMaps)
  }

  /** Free in a free-list space, stated on its live objects. */
  method FreeInFreeList(s: Blocks.FreeListSpace, obj: nat) returns (freed: nat)
    requires s.Valid() && obj in FreeListSizes(s)
    modifies s
    ensures s.Valid()
    ensures freed == old(FreeListSizes(s))[obj]
    ensures FreeListSizes(s) == old(FreeListSizes(s)) - {obj}
  {
    ghost var headers0 := s.headers;
    ghost var next;
    freed, next := s.Free(obj);
    Blocks.ObjectSizesAfterFree(headers0, s.headers, obj, next);
  }

  /**
   * Free in a map space, stated on its live objects; None stands for the
   * fatal error on an object that is not live, which changes nothing.
   */
  method FreeInMapSpace(s: MapSpace.LargeObjectMapSpace, obj: nat) returns (freed: Option<nat>)
    requires s.Valid()
    modifies s
    ensures s.Valid()
    ensures freed.Some? <==> obj in old(s.memMaps)
    ensures freed.None? ==> unchanged(s)
    ensures freed.Some? ==> freed.value == old(s.memMaps)[obj] && s.memMaps == old(s.memMaps) - {obj}
  {
    freed := s.Free(obj);
  }

  /**
   * Free in a red-zoned map space, stated on its live objects; None stands
   * for the fatal error on an object that is not live, which changes nothing.
   */
  method FreeInValgrindSpace(s: MapSpace.LargeObjectMapSpace, obj: nat) returns (freed: Option<nat>)
    requires s.Valid() && obj < FreeListLayout.kSizeLimit
    modifies s
    ensures s.Valid()
    ensures freed.Some? <==> obj in old(ValgrindSizes(s))
    ensures freed.None? ==> unchanged(s)
    ensures freed.Some? ==>
      freed.value == old(ValgrindSizes(s))[obj] && ValgrindSizes(s) == old(ValgrindSizes(s)) - {obj}
  {
    ghost var maps0 := s.memMaps;
    freed := ValgrindMapSpace.Free(s, obj);
    if freed.Some? {
      ValgrindMapSpace.ObjectSizesRemove(maps0, obj);
    }
  }

  /** The contents and names of a live/mark bitmap pair. */
  datatype BitmapPair = BitmapPair(live: set<nat>, liveName: string, mark: set<nat>, markName: string)

  /**
   * The pair after SwapBitmaps: the contents trade places while each name
   * stays with its role, so diagnostics still say which bitmap is live.
   */
  function Swapped(b: BitmapPair): BitmapPair
  {
    BitmapPair(b.mark, b.liveName, b.live, b.markName)
  }

  /** Swapping twice restores the pair. */
  lemma SwapTwice(b: BitmapPair)
    ensures Swapped(Swapped(b)) == b
  {
  }

  class LargeObjectSpace {
    var liveBitmap: LargeObjectBitmap
    var markBitmap: LargeObjectBitmap
    const impl: SpaceImpl
    /** The concrete space object, whose fields hold the space's state. */
    const store: object

    ghost predicate Valid()
      reads this, store
    {
      && liveBitmap != markBitmap
      && store != this && store != liveBitmap && store != markBitmap
      && match impl
         case FreeListImpl(s) => store == s && s.Valid()
         case MapImpl(s) => store == s && s.Valid()
         case ValgrindImpl(s) => store == s && s.Valid()
    }

    constructor (impl: SpaceImpl, liveBitmap: LargeObjectBitmap, markBitmap: LargeObjectBitmap)
      requires liveBitmap != markBitmap
      requires match impl
        case FreeListImpl(s) => s.Valid()
        case MapImpl(s) => s.Valid()
        case ValgrindImpl(s) => s.Valid()
      ensures Valid()
      ensures this.impl == impl && this.liveBitmap == liveBitmap && this.markBitmap == markBitmap
    {
      this.impl := impl;
      this.store := match impl
        case FreeListImpl(s) => s
        case MapImpl(s) => s
        case ValgrindImpl(s) => s;
      this.liveBitmap := liveBitmap;
      this.markBitmap := markBitmap;
    }

    /** Begin() of the concrete space. */
    function Begin(): nat
      reads this, store
      requires Valid()
    {
      match impl
      case FreeListImpl(s) => s.begin
      case MapImpl(s) => s.begin
      case ValgrindImpl(s) => s.begin
    }

    /** End() of the concrete space. */
    function End(): nat
      reads this, store
      requires Valid()
    {
      match impl
      case FreeListImpl(s) => s.end
      case MapImpl(s) => s.end
      case ValgrindImpl(s) => s.end
    }

    /** The live objects, as the heap addresses them, with the size Free returns for each. */
    ghost function LiveSizes(): map<nat, nat>
      reads this, store
      requires Valid()
    {
      match impl
      case FreeListImpl(s) => FreeListSizes(s)
      case MapImpl(s) => s.memMaps
      case ValgrindImpl(s) => ValgrindSizes(s)
    }

    function Bitmaps(): BitmapPair
      reads this, liveBitmap, markBitmap
    {
      BitmapPair(liveBitmap.marked, liveBitmap.name, markBitmap.marked, markBitmap.name)
    }

    /** The objects a sweep frees: set in the (possibly swapped) live bitmap and clear in the mark bitmap. */
    ghost function Dead(swapBitmaps: bool): set<nat>
      reads this, liveBitmap, markBitmap
    {
      if swapBitmaps then markBitmap.marked - liveBitmap.marked else liveBitmap.marked - markBitmap.marked
    }

    /**
     * SwapBitmaps: the live and mark bitmaps trade places, then trade names
     * back, so each name stays with its role.
     */
    method SwapBitmaps()
      requires Valid()
      modifies this, liveBitmap, markBitmap
      ensures Valid()
      ensures liveBitmap == old(markBitmap) && markBitmap == old(liveBitmap)
      ensures Bitmaps() == Swapped(old(Bitmaps()))
    {
      liveBitmap, markBitmap := markBitmap, liveBitmap;
      var tempName := liveBitmap.name;
      liveBitmap.name := markBitmap.name;
      markBitmap.name := tempName;
    }

    /** CopyLiveToMarked: the mark bitmap becomes a copy of the live bitmap. */
    method CopyLiveToMarked()
      requires Valid()
      modifies markBitmap
      ensures Valid()
      ensures markBitmap.marked == liveBitmap.marked
      ensures liveBitmap.marked == old(liveBitmap.marked)
      ensures Bitmaps().liveName == old(Bitmaps()).liveName && Bitmaps().markName == old(Bitmaps()).markName
    {
      markBitmap.CopyFrom(liveBitmap);
    }

    /**
     * The virtual Free: the concrete space frees obj and returns its size.
     * The map spaces report an object that is not live (their fatal error)
     * as None and change nothing; the free-list space requires a live
     * object, as its own Free does.
     */
    method FreeObject(obj: nat) returns (freed: Option<nat>)
      requires Valid()
      requires impl.FreeListImpl? ==> obj in LiveSizes()
      requires impl.ValgrindImpl? ==> obj < FreeListLayout.kSizeLimit
      modifies store
      ensures Valid()
      ensures freed.Some? <==> obj in old(LiveSizes())
      ensures freed.None? ==> unchanged(store)
      ensures freed.Some? ==> freed.value == old(LiveSizes())[obj] && LiveSizes() == old(LiveSizes()) - {obj}
    {
      match impl
      case FreeListImpl(s) =>
        var size := FreeInFreeList(s, obj);
        freed := Some(size);
      case MapImpl(s) =>
        freed := FreeInMapSpace(s, obj);
      case ValgrindImpl(s) =>
        freed := FreeInValgrindSpace(s, obj);
    }

    /**
     * FreeList: free each object of a batch of distinct live objects and
     * return the bytes freed, the sum of their sizes.
     */
    method FreeList(ptrs: seq<nat>) returns (total: nat)
      requires Valid() && Distinct(ptrs) && forall p :: p in ptrs ==> p in LiveSizes()
      modifies store
      ensures Valid()
      ensures total == SumOver(ptrs, old(LiveSizes()))
      ensures LiveSizes() == old(LiveSizes()) - Elems(ptrs)
    {
      ghost var live0 := LiveSizes();
      total := 0;
      for i := 0 to |ptrs|
        invariant Valid()
        invariant LiveSizes() == live0 - Elems(ptrs[..i])
        invariant total == SumOver(ptrs[..i], live0)
      {
        TakeOne(ptrs, i, live0);
        MapSubtract(live0, Elems(ptrs[..i]), {ptrs[i]});
        assert ptrs[i] in LiveSizes();
        var freed := FreeObject(ptrs[i]);
        total := total + freed.value;
      }
      assert ptrs[..|ptrs|] == ptrs;
    }

    /**
     * SweepCallback for one batch of dead objects: unless the bitmaps are to
     * be swapped, the objects' live bits are cleared; the objects are freed,
     * and the batch's count and bytes are added to `freed`.
     */
    method SweepCallback(swapBitmaps: bool, ptrs: seq<nat>, freed: ObjectBytePair) returns (r: ObjectBytePair)
      requires Valid() && Distinct(ptrs) && forall p :: p in ptrs ==> p in LiveSizes()
      modifies liveBitmap, store
      ensures Valid()
      ensures r == ObjectBytePair(freed.objects + |ptrs|, freed.bytes + SumOver(ptrs, old(LiveSizes())))
      ensures LiveSizes() == old(LiveSizes()) - Elems(ptrs)
      ensures liveBitmap.marked == if swapBitmaps then old(liveBitmap.marked) else old(liveBitmap.marked) - Elems(ptrs)
      ensures liveBitmap.name == old(liveBitmap.name)
    {
      if !swapBitmaps {
        var bitmap := liveBitmap;
        for i := 0 to |ptrs|
          modifies bitmap
          invariant bitmap.marked == old(bitmap.marked) - Elems(ptrs[..i])
          invariant bitmap.name == old(bitmap.name)
        {
          assert ptrs[..i + 1] == ptrs[..i] + [ptrs[i]];
          bitmap.Clear(ptrs[i]);
        }
        assert ptrs[..|ptrs|] == ptrs;
      }
      var bytes := FreeList(ptrs);
      r := ObjectBytePair(freed.objects + |ptrs|, freed.bytes + bytes);
    }

    /**
     * What the bitmap's SweepWalk hands the callback: batches that together
     * list every dead object exactly once; the dead objects are live objects
     * of the space.
     */
    ghost predicate SweepWalkBatches(swapBitmaps: bool, batches: seq<seq<nat>>)
      reads this, liveBitmap, markBitmap, store
      requires Valid()
    {
      && Distinct(Flatten(batches))
      && Elems(Flatten(batches)) == Dead(swapBitmaps)
      && Dead(swapBitmaps) <= LiveSizes().Keys
    }

    /**
     * Sweep: an empty space frees nothing. Otherwise every dead object is
     * freed: the objects freed are the dead objects, the bytes freed are
     * their sizes, and their live bits are cleared unless the bitmaps are to
     * be swapped.
     */
    method Sweep(swapBitmaps: bool, batches: seq<seq<nat>>) returns (freed: ObjectBytePair)
      requires Valid()
      requires Begin() < End() ==> SweepWalkBatches(swapBitmaps, batches)
      modifies liveBitmap, store
      ensures Valid()
      ensures old(Begin()) >= old(End()) ==> freed == ObjectBytePair(0, 0) && unchanged(store, liveBitmap)
      ensures old(Begin()) < old(End()) ==>
        && freed.objects == |old(Dead(swapBitmaps))| == |Flatten(batches)|
        && freed.bytes == SumOver(Flatten(batches), old(LiveSizes()))
        && LiveSizes() == old(LiveSizes()) - old(Dead(swapBitmaps))
        && liveBitmap.marked == if swapBitmaps then old(liveBitmap.marked)
                                else old(liveBitmap.marked) - old(Dead(swapBitmaps))
      ensures markBitmap.marked == old(markBitmap.marked)
      ensures liveBitmap.name == old(liveBitmap.name)
    {
      if Begin() >= End() {
        return ObjectBytePair(0, 0);
      }
      var live, mark := liveBitmap, markBitmap;
      if swapBitmaps {
        live, mark := mark, live;
      }
      assert live.marked - mark.marked == Dead(swapBitmaps);
      DistinctCard(Flatten(batches));
      // SweepWalk(live, mark, Begin(), End()) passes the dead objects to SweepCallback, batch by batch.
      freed := SweepBatches(swapBitmaps, batches);
    }

    /** The callbacks of one sweep walk over its batches, from a zero count. */
    method SweepBatches(swapBitmaps: bool, batches: seq<seq<nat>>) returns (freed: ObjectBytePair)
      requires Valid() && Distinct(Flatten(batches)) && forall p :: p in Flatten(batches) ==> p in LiveSizes()
      modifies liveBitmap, store
      ensures Valid()
      ensures freed == ObjectBytePair(|Flatten(batches)|, SumOver(Flatten(batches), old(LiveSizes())))
      ensures LiveSizes() == old(LiveSizes()) - Elems(Flatten(batches))
      ensures liveBitmap.marked == if swapBitmaps then old(liveBitmap.marked)
                                   else old(liveBitmap.marked) - Elems(Flatten(batches))
      ensures markBitmap.marked == old(markBitmap.marked)
      ensures liveBitmap.name == old(liveBitmap.name)
    {
      ghost var live0 := LiveSizes();
      ghost var marked0 := liveBitmap.marked;
      ghost var done: seq<nat> := [];
      assert batches[..0] == [];
      freed := ObjectBytePair(0, 0);
      for j := 0 to |batches|
        invariant Valid()
        invariant done == Flatten(batches[..j])
        invariant forall p :: p in done ==> p in live0
        invariant freed == ObjectBytePair(|done|, SumOver(done, live0))
        invariant LiveSizes() == live0 - Elems(done)
        invariant liveBitmap.marked == if swapBitmaps then marked0 else marked0 - Elems(done)
        invariant markBitmap.marked == old(markBitmap.marked)
        invariant liveBitmap.name == old(liveBitmap.name)
      {
        freed := SweepNext(swapBitmaps, batches, j, live0, marked0, done, freed);
        done := done + batches[j];
      }
      assert batches[..|batches|] == batches;
    }

    /** One turn of the sweep loop: the callback on batch j keeps the loop's accounting. */
    method SweepNext(swapBitmaps: bool, batches: seq<seq<nat>>, j: nat, ghost live0: map<nat, nat>,
                     ghost marked0: set<nat>, ghost done: seq<nat>, freed: ObjectBytePair)
      returns (freed': ObjectBytePair)
      requires Valid() && Distinct(Flatten(batches)) && j < |batches|
      requires forall p :: p in Flatten(batches) ==> p in live0
      requires done == Flatten(batches[..j]) && forall p :: p in done ==> p in live0
      requires freed == ObjectBytePair(|done|, SumOver(done, live0))
      requires LiveSizes() == live0 - Elems(done)
      requires liveBitmap.marked == if swapBitmaps then marked0 else marked0 - Elems(done)
      modifies liveBitmap, store
      ensures Valid()
      ensures done + batches[j] == Flatten(batches[..j + 1]) && forall p :: p in done + batches[j] ==> p in live0
      ensures freed' == ObjectBytePair(|done + batches[j]|, SumOver(done + batches[j], live0))
      ensures LiveSizes() == live0 - Elems(done + batches[j])
      ensures liveBitmap.marked == if swapBitmaps then marked0 else marked0 - Elems(done + batches[j])
      ensures liveBitmap.name == old(liveBitmap.name)
    {
      BatchStep(batches, j, live0, done, LiveSizes());
      freed' := SweepCallback(swapBitmaps, batches[j], freed);
    }
  }
}
