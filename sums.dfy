/**
 * Finite sums and orderings used by the space accounting: the sum of a
 * sequence of sizes, the sum of the sizes a set of live objects occupies,
 * the least element of a finite set and the ascending order of a key set.
 */
module Sums {

  /** Sum of a sequence of byte counts, accumulated from the front. */
  function Sum(s: seq<nat>): nat
  {
    if s == [] then 0 else Sum(s[..|s| - 1]) + s[|s| - 1]
  }

  lemma {:induction false} SumAppend(a: seq<nat>, b: seq<nat>)
    ensures Sum(a + b) == Sum(a) + Sum(b)
    decreases |b|
  {
    if b == [] {
      assert a + b == a;
    } else {
      var b' := b[..|b| - 1];
      assert (a + b)[..|a + b| - 1] == a + b';
      SumAppend(a, b');
    }
  }

  /** The bytes the objects `ptrs` occupy according to the size table `m`. */
  function SumOver(ptrs: seq<nat>, m: map<nat, nat>): nat
    requires forall p :: p in ptrs ==> p in m
  {
    if ptrs == [] then 0 else SumOver(ptrs[..|ptrs| - 1], m) + m[ptrs[|ptrs| - 1]]
  }

  lemma {:induction false} SumOverAppend(a: seq<nat>, b: seq<nat>, m: map<nat, nat>)
    requires forall p :: p in a ==> p in m
    requires forall p :: p in b ==> p in m
    ensures SumOver(a + b, m) == SumOver(a, m) + SumOver(b, m)
    decreases |b|
  {
    if b == [] {
      assert a + b == a;
    } else {
      var b' := b[..|b| - 1];
      assert (a + b)[..|a + b| - 1] == a + b';
      SumOverAppend(a, b', m);
    }
  }

  /** Concatenation of the batches a sweep hands over, in order. */
  function Flatten(batches: seq<seq<nat>>): seq<nat>
  {
    if batches == [] then [] else Flatten(batches[..|batches| - 1]) + batches[|batches| - 1]
  }

  function Elems(s: seq<nat>): set<nat>
  {
    set x | x in s
  }

  predicate Distinct(s: seq<nat>)
  {
    forall i, j :: 0 <= i < j < |s| ==> s[i] != s[j]
  }

  /** A sequence without repetitions has as many elements as its element set. */
  lemma {:induction false} DistinctCard(s: seq<nat>)
    requires Distinct(s)
    ensures |Elems(s)| == |s|
  {
    if s != [] {
      var s' := s[..|s| - 1];
      var x := s[|s| - 1];
      assert Distinct(s');
      forall i | 0 <= i < |s'|
        ensures s'[i] != x
      {
        assert s'[i] == s[i];
      }
      assert x !in Elems(s');
      assert Elems(s) == Elems(s') + {x} by {
        assert s == s' + [x];
      }
      DistinctCard(s');
    }
  }

  /** Splitting a repetition-free sequence yields two repetition-free, disjoint parts. */
  lemma DistinctSplit(a: seq<nat>, b: seq<nat>)
    requires Distinct(a + b)
    ensures Distinct(a) && Distinct(b) && Elems(a) !! Elems(b)
  {
    assert forall i :: 0 <= i < |a| ==> (a + b)[i] == a[i];
    assert forall j :: 0 <= j < |b| ==> (a + b)[|a| + j] == b[j];
    forall i, j | 0 <= i < |a| && 0 <= j < |b|
      ensures a[i] != b[j]
    {
      assert (a + b)[i] != (a + b)[|a| + j];
    }
  }

  /** A subset is no larger than its superset. */
  lemma {:induction false} SubsetSize(a: set<nat>, b: set<nat>)
    requires a <= b
    ensures |a| <= |b|
    decreases a
  {
    if a != {} {
      var x :| x in a;
      SubsetSize(a - {x}, b - {x});
    }
  }

  /** A subset as large as its superset is the whole superset. */
  lemma SubsetSameSize(a: set<nat>, b: set<nat>)
    requires a <= b && |a| == |b|
    ensures a == b
  {
    forall x | x in b
      ensures x in a
    {
      if x !in a {
        SubsetSize(a, b - {x});
      }
    }
  }

  /** The least element of a non-empty finite set of naturals. */
  ghost function Least(s: set<nat>): (m: nat)
    requires s != {}
    ensures m in s && forall y :: y in s ==> m <= y
    decreases s
  {
    var z :| z in s;
    if s == {z} then z
    else
      var r := Least(s - {z});
      assert forall y :: y in s ==> y == z || y in s - {z};
      if z < r then z else r
  }

  /** The elements of `s` in ascending order: the order of an ordered map's keys. */
  ghost function SortedKeys(s: set<nat>): seq<nat>
    decreases s
  {
    if s == {} then [] else [Least(s)] + SortedKeys(s - {Least(s)})
  }

  lemma {:induction false} SortedKeysSpec(s: set<nat>)
    ensures |SortedKeys(s)| == |s|
    ensures forall k :: k in s <==> k in SortedKeys(s)
    ensures forall i, j :: 0 <= i < j < |SortedKeys(s)| ==> SortedKeys(s)[i] < SortedKeys(s)[j]
    decreases s
  {
    if s != {} {
      var m := Least(s);
      var rest := s - {m};
      SortedKeysSpec(rest);
      var r := SortedKeys(s);
      assert r == [m] + SortedKeys(rest);
      assert |s| == |rest| + 1;
      forall i, j | 0 <= i < j < |r|
        ensures r[i] < r[j]
      {
        if i == 0 {
          assert r[j] == SortedKeys(rest)[j - 1];
          assert r[j] in rest;
        } else {
          assert r[i] == SortedKeys(rest)[i - 1] && r[j] == SortedKeys(rest)[j - 1];
        }
      }
    }
  }

  /** Sum of the values of a finite map, taken in ascending key order. */
  ghost function SumValues(m: map<nat, nat>): nat
    decreases m.Keys
  {
    if m.Keys == {} then 0
    else
      var k := Least(m.Keys);
      assert (m - {k}).Keys < m.Keys;
      m[k] + SumValues(m - {k})
  }

  /** Removing one entry removes exactly its value from the sum. */
  lemma {:induction false} SumValuesRemove(m: map<nat, nat>, k: nat)
    requires k in m
    ensures SumValues(m) == SumValues(m - {k}) + m[k]
    decreases m.Keys
  {
    var l := Least(m.Keys);
    if l != k {
      assert (m - {l}).Keys < m.Keys;
      SumValuesRemove(m - {l}, k);
      var mk := m - {k};
      assert l in mk.Keys;
      assert Least(mk.Keys) == l;
      assert (m - {l}) - {k} == mk - {l};
    }
  }

  /** Adding a fresh entry adds exactly its value to the sum. */
  lemma SumValuesAdd(m: map<nat, nat>, k: nat, v: nat)
    requires k !in m
    ensures SumValues(m[k := v]) == SumValues(m) + v
  {
    SumValuesRemove(m[k := v], k);
    assert m[k := v] - {k} == m;
  }

  /** Flattening distributes over concatenation of batch sequences. */
  lemma {:induction false} FlattenAppend(a: seq<seq<nat>>, b: seq<seq<nat>>)
    ensures Flatten(a + b) == Flatten(a) + Flatten(b)
    decreases |b|
  {
    if b == [] {
      assert a + b == a;
    } else {
      var b' := b[..|b| - 1];
      assert (a + b)[..|a + b| - 1] == a + b';
      FlattenAppend(a, b');
    }
  }

  /**
   * Taking one more pointer of a repetition-free sequence whose pointers all
   * have sizes in m: it is not among those taken so far, and the element set
   * and the size sum grow by exactly that pointer.
   */
  lemma TakeOne(ptrs: seq<nat>, i: nat, m: map<nat, nat>)
    requires Distinct(ptrs) && i < |ptrs|
    requires forall p :: p in ptrs ==> p in m
    ensures ptrs[i] !in Elems(ptrs[..i])
    ensures Elems(ptrs[..i + 1]) == Elems(ptrs[..i]) + {ptrs[i]}
    ensures SumOver(ptrs[..i + 1], m) == SumOver(ptrs[..i], m) + m[ptrs[i]]
  {
    assert ptrs[..i + 1][..i] == ptrs[..i];
    assert ptrs[..i + 1] == ptrs[..i] + [ptrs[i]];
  }

  /**
   * Taking one more batch of a sweep whose pointers are repetition-free and
   * all have sizes in m: the batch is repetition-free, none of its pointers
   * was taken before, and the flattened prefix, its element set and its size
   * sum grow by exactly the batch.
   */
  lemma TakeBatch(batches: seq<seq<nat>>, j: nat, m: map<nat, nat>)
    requires Distinct(Flatten(batches)) && j < |batches|
    requires forall p :: p in Flatten(batches) ==> p in m
    ensures Flatten(batches[..j + 1]) == Flatten(batches[..j]) + batches[j]
    ensures Distinct(batches[j]) && Elems(batches[j]) !! Elems(Flatten(batches[..j]))
    ensures forall p :: p in batches[j] ==> p in m
    ensures forall p :: p in Flatten(batches[..j + 1]) ==> p in m
    ensures Elems(Flatten(batches[..j + 1])) == Elems(Flatten(batches[..j])) + Elems(batches[j])
    ensures SumOver(Flatten(batches[..j + 1]), m) == SumOver(Flatten(batches[..j]), m) + SumOver(batches[j], m)
  {
    var pre, rest := Flatten(batches[..j]), Flatten(batches[j + 1..]);
    assert batches[..j + 1][..j] == batches[..j];
    assert batches == batches[..j + 1] + batches[j + 1..];
    FlattenAppend(batches[..j + 1], batches[j + 1..]);
    assert Flatten(batches) == (pre + batches[j]) + rest;
    DistinctSplit(pre + batches[j], rest);
    DistinctSplit(pre, batches[j]);
    SumOverAppend(pre, batches[j], m);
  }

  /** Removing two sets of keys one after the other removes their union. */
  lemma MapSubtract(m: map<nat, nat>, a: set<nat>, b: set<nat>)
    ensures (m - a) - b == m - (a + b)
  {
  }

  /** Removing keys that none of ptrs uses leaves their size sum unchanged. */
  lemma {:induction false} SumOverUnaffected(ptrs: seq<nat>, m: map<nat, nat>, e: set<nat>)
    requires forall p :: p in ptrs ==> p in m && p !in e
    ensures SumOver(ptrs, m - e) == SumOver(ptrs, m)
    decreases |ptrs|
  {
    if ptrs != [] {
      SumOverUnaffected(ptrs[..|ptrs| - 1], m, e);
    }
  }

  /**
   * One more batch of a sweep, stated on the pointers done so far: the
   * batch is repetition-free, its pointers still have sizes once `done` is
   * removed from m, and removing or summing over done plus the batch is
   * removing or summing over done, then over the batch.
   */
  lemma BatchStep(batches: seq<seq<nat>>, j: nat, m: map<nat, nat>, done: seq<nat>, rest: map<nat, nat>)
    requires Distinct(Flatten(batches)) && j < |batches|
    requires forall p :: p in Flatten(batches) ==> p in m
    requires done == Flatten(batches[..j]) && rest == m - Elems(done)
    ensures done + batches[j] == Flatten(batches[..j + 1])
    ensures Distinct(batches[j]) && forall p :: p in batches[j] ==> p in rest
    ensures forall p :: p in done + batches[j] ==> p in m
    ensures Elems(done + batches[j]) == Elems(done) + Elems(batches[j])
    ensures m - Elems(done + batches[j]) == rest - Elems(batches[j])
    ensures SumOver(done + batches[j], m) == SumOver(done, m) + SumOver(batches[j], rest)
  {
    TakeBatch(batches, j, m);
    MapSubtract(m, Elems(done), Elems(batches[j]));
    SumOverUnaffected(batches[j], m, Elems(done));
  }
}
