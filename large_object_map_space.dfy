/**
 * LargeObjectMapSpace: every large object gets an anonymous mapping of its
 * own. mem_maps_ maps each live object's address to its mapping, which is
 * modelled by its size; large_objects_ records every address handed out.
 * The extent [begin_, end_) starts out null and is widened by Alloc.
 */
module MapSpace {
  import opened Wrappers
  import opened Sums
  import opened WalkProtocol
  import opened FreeListLayout

  /** The null object pointer. */
  const kNull: nat := 0

  /**
   * The result of MemMap::MapAnonymous for one request: a mapping that
   * starts at base and spans size bytes, or failure.
   */
  datatype MapOutcome = Mapped(base: nat, size: nat) | MapFailed

  /**
   * What the mapping primitive guarantees for a request of n bytes: a
   * non-null, non-empty range of at least n bytes inside the address space
   * that overlaps none of the mappings in maps.
   */
  predicate FreshMapping(maps: map<nat, nat>, base: nat, size: nat, n: nat)
  {
    && base != kNull && 0 < size && n <= size && base + size <= kSizeLimit
    && forall p :: p in maps ==> p + maps[p] <= base || base + size <= p
  }

  /** The spans of the mappings at `keys`: start, end and size of each. */
  function SpansAt(maps: map<nat, nat>, keys: seq<nat>): (r: seq<Span>)
    requires forall k :: k in keys ==> k in maps
    ensures |r| == |keys|
    ensures forall i :: 0 <= i < |keys| ==> r[i] == Span(keys[i], keys[i] + maps[keys[i]], maps[keys[i]])
  {
    seq(|keys|, i requires 0 <= i < |keys| => Span(keys[i], keys[i] + maps[keys[i]], maps[keys[i]]))
  }

  /**
   * The spans Walk reports: mem_maps_ is ordered by address, so one span per
   * mapping, each mapping exactly once, in ascending address order.
   */
  ghost function MapSpans(maps: map<nat, nat>): (r: seq<Span>)
    ensures |r| == |maps|
    ensures forall i :: 0 <= i < |r| ==>
      r[i].start in maps && r[i].size == maps[r[i].start] && r[i].end == r[i].start + r[i].size
    ensures forall p :: p in maps ==> exists i :: 0 <= i < |r| && r[i].start == p
    ensures forall i, j :: 0 <= i < j < |r| ==> r[i].start < r[j].start
  {
    var keys := SortedKeys(maps.Keys);
    SortedKeysSpec(maps.Keys);
    assert |maps.Keys| == |maps|;
    var r := SpansAt(maps, keys);
    forall p | p in maps
      ensures exists i :: 0 <= i < |r| && r[i].start == p
    {
      var i :| 0 <= i < |keys| && keys[i] == p;
      assert r[i].start == p;
    }
    r
  }

  /** The least key of a key set leads its ascending order. */
  lemma SortedKeysFirst(s: set<nat>, p: nat)
    requires p in s && forall q :: q in s ==> p <= q
    ensures SortedKeys(s) == [p] + SortedKeys(s - {p})
  {
    var l := Least(s);
    assert l <= p && p <= l;
  }

  /**
   * The invariant of a LargeObjectMapSpace: the mappings are non-null,
   * non-empty and end at or below end_; the live counters count
   * the mappings and their bytes and stay within the lifetime counters.
   */
  ghost predicate Consistent(maps: map<nat, nat>, end: nat,
                             numBytes: nat, numObjects: nat, totalBytes: nat, totalObjects: nat)
  {
    && end <= kSizeLimit
    && (forall p :: p in maps ==> p != kNull && 0 < maps[p] && p + maps[p] <= end)
    && numObjects == |maps|
    && numBytes == SumValues(maps)
    && numObjects <= totalObjects
    && numBytes <= totalBytes
  }

  /** Alloc keeps the invariant: the fresh mapping joins mem_maps_ and end_ covers it. */
  lemma AllocStep(maps: map<nat, nat>, end: nat,
                  numBytes: nat, numObjects: nat, totalBytes: nat, totalObjects: nat,
                  base: nat, size: nat, end': nat)
    requires Consistent(maps, end, numBytes, numObjects, totalBytes, totalObjects)
    requires FreshMapping(maps, base, size, 0)
    requires end' == if end == kNull || base + size > end then base + size else end
    ensures base !in maps
    ensures Consistent(maps[base := size], end',
                       numBytes + size, numObjects + 1, totalBytes + size, totalObjects + 1)
  {
    SumValuesAdd(maps, base, size);
    var maps' := maps[base := size];
    assert forall p :: p in maps' ==> p != kNull && 0 < maps'[p] && p + maps'[p] <= end';
    assert |maps'| == |maps| + 1;
  }

  /** Widening end_ keeps the invariant: a null end_ bounds no mapping, and a larger one bounds them all. */
  lemma ConsistentWiden(maps: map<nat, nat>, end: nat,
                        numBytes: nat, numObjects: nat, totalBytes: nat, totalObjects: nat, end': nat)
    requires Consistent(maps, end, numBytes, numObjects, totalBytes, totalObjects)
    requires end' <= kSizeLimit && (end == kNull || end <= end')
    ensures Consistent(maps, end', numBytes, numObjects, totalBytes, totalObjects)
  {
  }

  /** Free keeps the invariant: the mapping of ptr leaves mem_maps_ and the live counters. */
  lemma FreeStep(maps: map<nat, nat>, end: nat,
                 numBytes: nat, numObjects: nat, totalBytes: nat, totalObjects: nat, ptr: nat)
    requires Consistent(maps, end, numBytes, numObjects, totalBytes, totalObjects)
    requires ptr in maps
    ensures maps[ptr] <= numBytes && 1 <= numObjects
    ensures Consistent(maps - {ptr}, end, numBytes - maps[ptr], numObjects - 1, totalBytes, totalObjects)
  {
    SumValuesRemove(maps, ptr);
    assert (maps - {ptr}).Keys == maps.Keys - {ptr};
  }

  /** The spans of one more key are the spans so far and that key's span. */
  lemma SpansAtSnoc(maps: map<nat, nat>, keys: seq<nat>, p: nat)
    requires p in maps && forall k :: k in keys ==> k in maps
    ensures SpansAt(maps, keys + [p]) == SpansAt(maps, keys) + [Span(p, p + maps[p], maps[p])]
  {
    var a, b := SpansAt(maps, keys + [p]), SpansAt(maps, keys) + [Span(p, p + maps[p], maps[p])];
    forall i | 0 <= i < |a|
      ensures a[i] == b[i]
    {
      if i < |keys| {
        assert (keys + [p])[i] == keys[i];
      }
    }
  }

  lemma WalkStep(maps: map<nat, nat>, done: seq<nat>, rest: set<nat>, p: nat)
    requires rest <= maps.Keys && forall k :: k in done ==> k in maps
    requires SortedKeys(maps.Keys) == done + SortedKeys(rest)
    requires p in rest && forall q :: q in rest ==> p <= q
    ensures SortedKeys(maps.Keys) == (done + [p]) + SortedKeys(rest - {p})
    ensures WalkCalls(SpansAt(maps, done + [p])) ==
      WalkCalls(SpansAt(maps, done)) + [Visit(p, p + maps[p], maps[p]), EndOfObject]
  {
    SortedKeysFirst(rest, p);
    assert done + ([p] + SortedKeys(rest - {p})) == (done + [p]) + SortedKeys(rest - {p});
    SpansAtSnoc(maps, done, p);
    WalkCallsSnoc(SpansAt(maps, done), Span(p, p + maps[p], maps[p]));
  }

  class LargeObjectMapSpace {
    /** mem_maps_: the size of the mapping of each live object, by address. */
    var memMaps: map<nat, nat>
    /** large_objects_: every address Alloc has handed out, in order. */
    var largeObjects: seq<nat>
    /** begin_ and end_: the extent of the space; both start out null. */
    var begin: nat
    var end: nat
    var numBytesAllocated: nat
    var numObjectsAllocated: nat
    var totalBytesAllocated: nat
    var totalObjectsAllocated: nat

    /**
     * The invariant: Consistent over the fields, and begin_ null in every
     * state, because std::min of null and an address is null (the fold of
     * ExtentBeginIsNull, one Alloc at a time).
     */
    ghost predicate Valid()
      reads this
    {
      && Consistent(memMaps, end, numBytesAllocated, numObjectsAllocated,
                    totalBytesAllocated, totalObjectsAllocated)
      && begin == kNull
    }

    constructor ()
      ensures Valid()
      ensures memMaps == map[] && largeObjects == [] && begin == kNull && end == kNull
      ensures numBytesAllocated == 0 && numObjectsAllocated == 0
      ensures totalBytesAllocated == 0 && totalObjectsAllocated == 0
    {
      memMaps := map[];
      largeObjects := [];
      begin := kNull;
      end := kNull;
      numBytesAllocated := 0;
      numObjectsAllocated := 0;
      totalBytesAllocated := 0;
      totalObjectsAllocated := 0;
    }

    /** Whether obj is a live object: the same lookup whether or not the caller holds lock_. */
    predicate Contains(obj: nat)
      reads this
    {
      obj in memMaps
    }

    /**
     * The size of the mapping of a live object; None stands for the fatal
     * CHECK on an address that is not live.
     */
    function AllocationSize(obj: nat): (r: Option<nat>)
      reads this
      requires Valid()
      ensures r.Some? <==> Contains(obj)
      ensures r.Some? ==> 0 < r.value && obj + r.value <= end
    {
      if obj in memMaps then Some(memMaps[obj]) else None
    }

    /**
     * Alloc of num_bytes: maps a region of its own for the object. On
     * failure nothing changes and the result is null; otherwise the object
     * is the mapping's start, is recorded in mem_maps_ and large_objects_,
     * and the counters grow by the mapping's size. begin_ only moves
     * through std::min, so once null it stays null; end_ widens to the
     * object's end.
     */
    method Alloc(numBytes: nat, outcome: MapOutcome) returns (obj: nat, bytesAllocated: nat, usableSize: nat)
      requires Valid()
      requires outcome.Mapped? ==> FreshMapping(memMaps, outcome.base, outcome.size, numBytes)
      modifies this
      ensures Valid()
      ensures outcome.MapFailed? ==> obj == kNull && bytesAllocated == 0 && usableSize == 0 && unchanged(this)
      ensures outcome.Mapped? ==>
        && obj == outcome.base && obj != kNull
        && bytesAllocated == outcome.size && usableSize == outcome.size && numBytes <= usableSize
        && !old(Contains(obj)) && Contains(obj)
        && memMaps == old(memMaps)[obj := outcome.size]
        && largeObjects == old(largeObjects) + [obj]
        && (begin, end) == WidenExtent(old(begin), old(end), obj, obj + bytesAllocated)
        && (old(begin) == kNull ==> begin == kNull)
        && numBytesAllocated == old(numBytesAllocated) + bytesAllocated
        && totalBytesAllocated == old(totalBytesAllocated) + bytesAllocated
        && numObjectsAllocated == old(numObjectsAllocated) + 1
        && totalObjectsAllocated == old(totalObjectsAllocated) + 1
    {
      obj, bytesAllocated, usableSize := kNull, 0, 0;
      if outcome.Mapped? {
        obj := outcome.base;
        bytesAllocated := outcome.size;
        Insert(obj, bytesAllocated);
        usableSize := bytesAllocated;
      }
    }

    /** The bookkeeping of a successful Alloc of a fresh mapping of size bytes at obj. */
    method Insert(obj: nat, allocationSize: nat)
      requires Valid() && FreshMapping(memMaps, obj, allocationSize, 0)
      modifies this
      ensures Valid()
      ensures !old(Contains(obj)) && Contains(obj)
      ensures memMaps == old(memMaps)[obj := allocationSize]
      ensures largeObjects == old(largeObjects) + [obj]
      ensures (begin, end) == WidenExtent(old(begin), old(end), obj, obj + allocationSize)
      ensures numBytesAllocated == old(numBytesAllocated) + allocationSize
      ensures totalBytesAllocated == old(totalBytesAllocated) + allocationSize
      ensures numObjectsAllocated == old(numObjectsAllocated) + 1
      ensures totalObjectsAllocated == old(totalObjectsAllocated) + 1
    {
      Widen(obj, allocationSize);
      Record(obj, allocationSize);
    }

    /** begin_ and end_ take in [obj, obj + size), through std::min and std::max. */
    method Widen(obj: nat, size: nat)
      requires Valid() && obj + size <= kSizeLimit
      modifies this`begin, this`end
      ensures Valid()
      ensures (begin, end) == WidenExtent(old(begin), old(end), obj, obj + size)
      ensures obj + size <= end
    {
      var extent := WidenExtent(begin, end, obj, obj + size);
      ConsistentWiden(memMaps, end, numBytesAllocated, numObjectsAllocated,
                      totalBytesAllocated, totalObjectsAllocated, extent.1);
      begin, end := extent.0, extent.1;
    }

    /** mem_maps_ and large_objects_ take in the fresh mapping, and the counters count it. */
    method Record(obj: nat, size: nat)
      requires Valid() && FreshMapping(memMaps, obj, size, 0) && obj + size <= end
      modifies this`memMaps, this`largeObjects, this`numBytesAllocated, this`numObjectsAllocated,
               this`totalBytesAllocated, this`totalObjectsAllocated
      ensures Valid()
      ensures !old(Contains(obj)) && Contains(obj)
      ensures memMaps == old(memMaps)[obj := size]
      ensures largeObjects == old(largeObjects) + [obj]
      ensures numBytesAllocated == old(numBytesAllocated) + size
      ensures totalBytesAllocated == old(totalBytesAllocated) + size
      ensures numObjectsAllocated == old(numObjectsAllocated) + 1
      ensures totalObjectsAllocated == old(totalObjectsAllocated) + 1
    {
      AllocStep(memMaps, end, numBytesAllocated, numObjectsAllocated,
                totalBytesAllocated, totalObjectsAllocated, obj, size, end);
      memMaps, largeObjects := memMaps[obj := size], largeObjects + [obj];
      numBytesAllocated, totalBytesAllocated, numObjectsAllocated, totalObjectsAllocated :=
        numBytesAllocated + size, totalBytesAllocated + size, numObjectsAllocated + 1, totalObjectsAllocated + 1;
    }

    /**
     * Free of ptr: drops its mapping and returns the mapping's size; the
     * live counters shrink by it, the lifetime counters, large_objects_ and
     * the extent stay. None stands for the fatal error on an address that
     * is not live, which changes nothing.
     */
    method Free(ptr: nat) returns (freed: Option<nat>)
      requires Valid()
      modifies this
      ensures Valid()
      ensures freed.Some? <==> old(Contains(ptr))
      ensures freed.None? ==> unchanged(this)
      ensures freed.Some? ==>
        && freed.value == old(memMaps)[ptr]
        && !Contains(ptr)
        && memMaps == old(memMaps) - {ptr}
        && numBytesAllocated == old(numBytesAllocated) - freed.value
        && numObjectsAllocated == old(numObjectsAllocated) - 1
        && totalBytesAllocated == old(totalBytesAllocated)
        && totalObjectsAllocated == old(totalObjectsAllocated)
        && largeObjects == old(largeObjects) && begin == old(begin) && end == old(end)
    {
      if ptr !in memMaps {
        freed := None;
      } else {
        var allocationSize := memMaps[ptr];
        FreeStep(memMaps, end, numBytesAllocated, numObjectsAllocated,
                 totalBytesAllocated, totalObjectsAllocated, ptr);
        numBytesAllocated := numBytesAllocated - allocationSize;
        numObjectsAllocated := numObjectsAllocated - 1;
        memMaps := memMaps - {ptr};
        freed := Some(allocationSize);
      }
    }

    /**
     * Walk: the callback protocol over every mapping in mem_maps_ order,
     * which is ascending address order.
     */
    method Walk() returns (calls: seq<WalkCall>)
      ensures calls == WalkCalls(MapSpans(memMaps))
    {
      var rest := memMaps.Keys;
      ghost var done: seq<nat> := [];
      calls := [];
      while rest != {}
        invariant rest <= memMaps.Keys
        invariant forall k :: k in done ==> k in memMaps
        invariant SortedKeys(memMaps.Keys) == done + SortedKeys(rest)
        invariant calls == WalkCalls(SpansAt(memMaps, done))
        decreases rest
      {
        ghost var least := Least(rest);
        var p :| p in rest && forall q :: q in rest ==> p <= q;
        var size := memMaps[p];
        WalkStep(memMaps, done, rest, p);
        calls := calls + [Visit(p, p + size, size), EndOfObject];
        done := done + [p];
        rest := rest - {p};
      }
      assert SortedKeys(memMaps.Keys) == done;
    }
  }

  /**
   * One widening of the extent by Alloc for an object spanning
   * [objBegin, objEnd): begin_ through std::min, end_ unless it is null or
   * already past the object.
   */
  function WidenExtent(begin: nat, end: nat, objBegin: nat, objEnd: nat): (nat, nat)
  {
    (if objBegin < begin then objBegin else begin,
     if end == kNull || objEnd > end then objEnd else end)
  }

  /** The extent after allocating `ranges` in order, starting from the null extent the constructor sets. */
  function Extent(ranges: seq<(nat, nat)>): (nat, nat)
  {
    if ranges == [] then (kNull, kNull)
    else
      var e := Extent(ranges[..|ranges| - 1]);
      var r := ranges[|ranges| - 1];
      WidenExtent(e.0, e.1, r.0, r.1)
  }

  /**
   * begin_ never leaves null, whatever was allocated: std::min of null and
   * any address is null. Begin() < End() therefore holds as soon as one
   * object was ever allocated, and Sweep walks from address 0.
   */
  lemma {:induction false} ExtentBeginIsNull(ranges: seq<(nat, nat)>)
    ensures Extent(ranges).0 == kNull
  {
    if ranges != [] {
      ExtentBeginIsNull(ranges[..|ranges| - 1]);
    }
  }

  /**
   * end_ is the greatest end of the objects ever allocated, freed ones
   * included.
   */
  lemma {:induction false} ExtentEndIsGreatest(ranges: seq<(nat, nat)>)
    requires ranges != []
    ensures var e := Extent(ranges);
      && (forall i :: 0 <= i < |ranges| ==> ranges[i].1 <= e.1)
      && (exists j :: 0 <= j < |ranges| && e.1 == ranges[j].1)
  {
    var init := ranges[..|ranges| - 1];
    var r := ranges[|ranges| - 1];
    var e := Extent(ranges);
    if init == [] {
      assert Extent(init) == (kNull, kNull);
      assert e.1 == ranges[0].1;
    } else {
      ExtentEndIsGreatest(init);
      var e0 := Extent(init);
      var j0 :| 0 <= j0 < |init| && e0.1 == init[j0].1;
      assert init[j0] == ranges[j0];
      forall i | 0 <= i < |ranges|
        ensures ranges[i].1 <= e.1
      {
        if i < |init| {
          assert init[i] == ranges[i];
        }
      }
      if r.1 > e0.1 {
        assert e.1 == ranges[|ranges| - 1].1;
      } else {
        assert e.1 == ranges[j0].1;
      }
    }
  }
}
