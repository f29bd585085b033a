/**
 * ValgrindLargeObjectMapSpace: a LargeObjectMapSpace whose objects sit
 * between two red zones of kValgrindRedZoneBytes each. It keeps no state of
 * its own: every operation moves the object address across the leading red
 * zone and delegates to the map space. Pointer arithmetic is uintptr_t
 * arithmetic and sizes are size_t, both modulo 2^64.
 */
module ValgrindMapSpace {
  import opened Wrappers
  import opened FreeListLayout
  import opened MapSpace

  /** kValgrindRedZoneBytes: one page on each side of the object. */
  const kValgrindRedZoneBytes: nat := kPageSize

  /** The object address for the mapping that starts at p: past the leading red zone. */
  function AddRedZone(p: nat): (r: nat)
    requires p < kSizeLimit
    ensures r < kSizeLimit
    ensures p + kValgrindRedZoneBytes < kSizeLimit ==> r == p + kValgrindRedZoneBytes
  {
    (p + kValgrindRedZoneBytes) % kSizeLimit
  }

  /** The mapping start for the object at p: back across the leading red zone. */
  function SubRedZone(p: nat): (r: nat)
    requires p < kSizeLimit
    ensures r < kSizeLimit
    ensures kValgrindRedZoneBytes <= p ==> r == p - kValgrindRedZoneBytes
  {
    (p - kValgrindRedZoneBytes) % kSizeLimit
  }

  /** Crossing the red zone one way and back is the identity, wrap-around included. */
  lemma RedZoneRoundTrip(p: nat)
    requires p < kSizeLimit
    ensures SubRedZone(AddRedZone(p)) == p
    ensures AddRedZone(SubRedZone(p)) == p
  {
    if p + kValgrindRedZoneBytes < kSizeLimit {
      assert AddRedZone(p) == p + kValgrindRedZoneBytes;
    } else {
      assert AddRedZone(p) == p + kValgrindRedZoneBytes - kSizeLimit;
      assert AddRedZone(p) - kValgrindRedZoneBytes == p - kSizeLimit;
    }
    if kValgrindRedZoneBytes <= p {
      assert SubRedZone(p) == p - kValgrindRedZoneBytes;
    } else {
      assert SubRedZone(p) == p - kValgrindRedZoneBytes + kSizeLimit;
    }
  }

  /** The size requested from the map space: num_bytes plus both red zones, as a size_t. */
  function Request(numBytes: nat): (r: nat)
    requires numBytes < kSizeLimit
    ensures r < kSizeLimit
    ensures numBytes + 2 * kValgrindRedZoneBytes < kSizeLimit ==> r == numBytes + 2 * kValgrindRedZoneBytes
  {
    (numBytes + 2 * kValgrindRedZoneBytes) % kSizeLimit
  }

  /** The object at obj is live: its mapping, one red zone below it, is in mem_maps_. */
  predicate Contains(space: LargeObjectMapSpace, obj: nat)
    reads space
    requires obj < kSizeLimit
  {
    space.Contains(SubRedZone(obj))
  }

  /**
   * AllocationSize of the object at obj: the size of its whole mapping, red
   * zones included; None stands for the fatal CHECK on an object that is
   * not live.
   */
  function AllocationSize(space: LargeObjectMapSpace, obj: nat): (r: Option<nat>)
    reads space
    requires space.Valid() && obj < kSizeLimit
    ensures r.Some? <==> Contains(space, obj)
    ensures r.Some? ==> SubRedZone(obj) + r.value <= space.end
  {
    space.AllocationSize(SubRedZone(obj))
  }

  /** The live objects as the heap sees them, each with its allocation size. */
  ghost function ObjectSizes(maps: map<nat, nat>): (r: map<nat, nat>)
    requires forall k :: k in maps ==> k < kSizeLimit
    ensures forall o: nat :: o in r <==> o < kSizeLimit && SubRedZone(o) in maps
    ensures forall o :: o in r ==> r[o] == maps[SubRedZone(o)]
  {
    var objects := set k | k in maps :: AddRedZone(k);
    assert forall o :: o in objects ==> SubRedZone(o) in maps by {
      forall o | o in objects
        ensures SubRedZone(o) in maps
      {
        var k :| k in maps && o == AddRedZone(k);
        RedZoneRoundTrip(k);
      }
    }
    forall o: nat | o < kSizeLimit && SubRedZone(o) in maps
      ensures o in objects
    {
      RedZoneRoundTrip(o);
    }
    map o | o in objects :: maps[SubRedZone(o)]
  }

  /** Dropping the mapping under obj drops exactly obj from the live objects. */
  lemma ObjectSizesRemove(maps: map<nat, nat>, obj: nat)
    requires forall k :: k in maps ==> k < kSizeLimit
    requires obj < kSizeLimit
    ensures ObjectSizes(maps - {SubRedZone(obj)}) == ObjectSizes(maps) - {obj}
  {
    var a := ObjectSizes(maps - {SubRedZone(obj)});
    var b := ObjectSizes(maps) - {obj};
    assert forall o :: o in a ==> o in b;
    forall o | o in b
      ensures o in a
    {
      if SubRedZone(o) == SubRedZone(obj) {
        RedZoneRoundTrip(o);
        RedZoneRoundTrip(obj);
      }
    }
  }

  /**
   * Alloc, as written: asks the map space for num_bytes plus two red zones
   * and returns the address one red zone into the mapping, with num_bytes
   * usable. The null check is missing, so a failed mapping yields the
   * non-null address kValgrindRedZoneBytes.
   */
  method Alloc(space: LargeObjectMapSpace, numBytes: nat, outcome: MapOutcome)
    returns (obj: nat, bytesAllocated: nat, usableSize: nat)
    requires space.Valid() && numBytes < kSizeLimit
    requires outcome.Mapped? ==> FreshMapping(space.memMaps, outcome.base, outcome.size, Request(numBytes))
    modifies space
    ensures space.Valid()
    ensures usableSize == numBytes
    ensures outcome.MapFailed? ==> obj == kValgrindRedZoneBytes && obj != kNull && unchanged(space)
    ensures outcome.Mapped? ==> AllocatedAt(space, numBytes, outcome, obj, bytesAllocated)
    ensures outcome.Mapped? ==> MappingRecorded(space, outcome)
  {
    var base;
    base, bytesAllocated, usableSize := space.Alloc(Request(numBytes), outcome);
    obj := AddRedZone(base);
    usableSize := numBytes;
    if outcome.Mapped? {
      AllocatedAtShown(space, numBytes, outcome, obj, bytesAllocated);
    }
  }

  /** Alloc with the null check evidently intended: a failed mapping yields null. */
  method AllocNullChecked(space: LargeObjectMapSpace, numBytes: nat, outcome: MapOutcome)
    returns (obj: nat, bytesAllocated: nat, usableSize: nat)
    requires space.Valid() && numBytes < kSizeLimit
    requires outcome.Mapped? ==> FreshMapping(space.memMaps, outcome.base, outcome.size, Request(numBytes))
    modifies space
    ensures space.Valid()
    ensures usableSize == numBytes
    ensures outcome.MapFailed? ==> obj == kNull && unchanged(space)
    ensures outcome.Mapped? ==> AllocatedAt(space, numBytes, outcome, obj, bytesAllocated)
    ensures outcome.Mapped? ==> MappingRecorded(space, outcome)
  {
    var base;
    base, bytesAllocated, usableSize := space.Alloc(Request(numBytes), outcome);
    obj := if base == kNull then kNull else AddRedZone(base);
    usableSize := numBytes;
    if outcome.Mapped? {
      AllocatedAtShown(space, numBytes, outcome, obj, bytesAllocated);
    }
  }

  /**
   * A successful Alloc of num_bytes in `space`: the object lies one red zone
   * into a fresh mapping recorded in mem_maps_, is live, reports the whole
   * mapping as its allocation size, and (when the request did not wrap) has
   * its num_bytes followed by a whole red zone inside the mapping.
   */
  ghost predicate AllocatedAt(space: LargeObjectMapSpace, numBytes: nat, outcome: MapOutcome, obj: nat, bytesAllocated: nat)
    reads space
    requires space.Valid() && outcome.Mapped? && outcome.base < kSizeLimit
  {
    var base := outcome.base;
    && obj == AddRedZone(base) && bytesAllocated == outcome.size
    && base in space.memMaps && space.memMaps[base] == outcome.size
    && Contains(space, obj) && AllocationSize(space, obj) == Some(bytesAllocated)
    && (numBytes + 2 * kValgrindRedZoneBytes < kSizeLimit ==>
          base + kValgrindRedZoneBytes == obj && obj + numBytes + kValgrindRedZoneBytes <= base + bytesAllocated)
  }

  /**
   * The map space's bookkeeping for the mapping behind a successful Alloc:
   * it joins mem_maps_ and large_objects_, the extent widens over it, and
   * all four counters grow by its size.
   */
  twostate predicate MappingRecorded(space: LargeObjectMapSpace, outcome: MapOutcome)
    reads space
    requires outcome.Mapped?
  {
    var base, size := outcome.base, outcome.size;
    && space.memMaps == old(space.memMaps)[base := size]
    && space.largeObjects == old(space.largeObjects) + [base]
    && (space.begin, space.end) == WidenExtent(old(space.begin), old(space.end), base, base + size)
    && space.numBytesAllocated == old(space.numBytesAllocated) + size
    && space.totalBytesAllocated == old(space.totalBytesAllocated) + size
    && space.numObjectsAllocated == old(space.numObjectsAllocated) + 1
    && space.totalObjectsAllocated == old(space.totalObjectsAllocated) + 1
  }

  lemma AllocatedAtShown(space: LargeObjectMapSpace, numBytes: nat, outcome: MapOutcome, obj: nat, bytesAllocated: nat)
    requires space.Valid() && outcome.Mapped? && outcome.base < kSizeLimit && numBytes < kSizeLimit
    requires obj == AddRedZone(outcome.base) && bytesAllocated == outcome.size
    requires outcome.base in space.memMaps && space.memMaps[outcome.base] == outcome.size
    requires Request(numBytes) <= outcome.size && outcome.base + outcome.size <= kSizeLimit
    ensures AllocatedAt(space, numBytes, outcome, obj, bytesAllocated)
  {
    RedZoneRoundTrip(outcome.base);
  }

  /**
   * Free of the object at obj: the mapping one red zone below it is freed
   * and its size returned. None stands for the fatal error on an object
   * that is not live (the size lookup before the free already fails).
   */
  method Free(space: LargeObjectMapSpace, obj: nat) returns (freed: Option<nat>)
    requires space.Valid() && obj < kSizeLimit
    modifies space
    ensures space.Valid()
    ensures freed.Some? <==> old(Contains(space, obj))
    ensures freed.None? ==> unchanged(space)
    ensures freed.Some? ==>
      && freed.value == old(space.memMaps)[SubRedZone(obj)]
      && !Contains(space, obj)
      && space.memMaps == old(space.memMaps) - {SubRedZone(obj)}
      && space.numBytesAllocated == old(space.numBytesAllocated) - freed.value
      && space.numObjectsAllocated == old(space.numObjectsAllocated) - 1
      && space.totalBytesAllocated == old(space.totalBytesAllocated)
      && space.totalObjectsAllocated == old(space.totalObjectsAllocated)
      && space.largeObjects == old(space.largeObjects)
      && space.begin == old(space.begin) && space.end == old(space.end)
  {
    var size := AllocationSize(space, obj);
    if size.None? {
      freed := None;
    } else {
      freed := space.Free(SubRedZone(obj));
    }
  }
}
