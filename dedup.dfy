/**
 * Keep-first deduplication by a key, the operation behind PHP's
 * remove_duplicate_keys and JavaScript's removeDuplicateKey: the records
 * whose key has not been seen before, in their original order.
 */
module Dedup {
  import opened Strings
  import opened Sorting
  import opened Filtering

  /** Some record of xs has key k. */
  predicate KeyIn<T, K(==)>(xs: seq<T>, key: T -> K, k: K) {
    exists j :: 0 <= j < |xs| && key(xs[j]) == k
  }

  /** xs[i] is the first record carrying its key. */
  predicate IsFirst<T, K(==)>(xs: seq<T>, key: T -> K, i: int) {
    0 <= i < |xs| && !KeyIn(xs[..i], key, key(xs[i]))
  }

  /** The first record of every key, in input order. */
  function FirstOccurrences<T, K(==)>(xs: seq<T>, key: T -> K): seq<T>
    decreases |xs|
  {
    if xs == [] then []
    else
      var init := xs[..|xs| - 1];
      var x := xs[|xs| - 1];
      FirstOccurrences(init, key) + (if KeyIn(init, key, key(x)) then [] else [x])
  }

  /** The positions FirstOccurrences keeps, ascending. */
  ghost function KeptIndices<T, K>(xs: seq<T>, key: T -> K): seq<nat>
    decreases |xs|
  {
    if xs == [] then []
    else
      var init := xs[..|xs| - 1];
      KeptIndices(init, key) + (if KeyIn(init, key, key(xs[|xs| - 1])) then [] else [|xs| - 1])
  }

  /** FirstOccurrences and KeptIndices grow together, one position at a time. */
  lemma KeptStep<T, K>(xs: seq<T>, key: T -> K)
    requires xs != []
    ensures var init, x := xs[..|xs| - 1], xs[|xs| - 1];
            && FirstOccurrences(xs, key) ==
                 FirstOccurrences(init, key) + (if KeyIn(init, key, key(x)) then [] else [x])
            && KeptIndices(xs, key) ==
                 KeptIndices(init, key) + (if KeyIn(init, key, key(x)) then [] else [|xs| - 1])
  {
  }

  /** There are as many kept positions as kept records, each in range. */
  lemma {:induction false} KeptIndicesBounded<T, K>(xs: seq<T>, key: T -> K)
    ensures |KeptIndices(xs, key)| == |FirstOccurrences(xs, key)| <= |xs|
    ensures forall k :: 0 <= k < |KeptIndices(xs, key)| ==> KeptIndices(xs, key)[k] < |xs|
    decreases |xs|
  {
    if xs != [] {
      KeptIndicesBounded(xs[..|xs| - 1], key);
      KeptStep(xs, key);
    }
  }

  /** The kept positions are strictly ascending. */
  lemma {:induction false} KeptIndicesAscending<T, K>(xs: seq<T>, key: T -> K)
    ensures var idx := KeptIndices(xs, key);
            forall k, l :: 0 <= k < l < |idx| ==> idx[k] < idx[l]
    decreases |xs|
  {
    if xs != [] {
      KeptIndicesAscending(xs[..|xs| - 1], key);
      KeptIndicesBounded(xs[..|xs| - 1], key);
      KeptStep(xs, key);
    }
  }

  /** The k-th kept record is the input record at the k-th kept position. */
  lemma {:induction false} KeptIndicesElements<T, K>(xs: seq<T>, key: T -> K)
    ensures var r, idx := FirstOccurrences(xs, key), KeptIndices(xs, key);
            forall k :: 0 <= k < |idx| && k < |r| && idx[k] < |xs| ==> r[k] == xs[idx[k]]
    decreases |xs|
  {
    if xs != [] {
      var init := xs[..|xs| - 1];
      KeptIndicesElements(init, key);
      KeptIndicesBounded(init, key);
      KeptStep(xs, key);
      assert forall k :: 0 <= k < |init| ==> init[k] == xs[k];
    }
  }

  /** A position is kept exactly when its record is the first with its key. */
  lemma {:induction false} KeptIndicesExact<T, K>(xs: seq<T>, key: T -> K)
    ensures forall i :: 0 <= i < |xs| ==> (i in KeptIndices(xs, key) <==> IsFirst(xs, key, i))
    decreases |xs|
  {
    if xs != [] {
      var init := xs[..|xs| - 1];
      KeptIndicesExact(init, key);
      KeptIndicesBounded(init, key);
      KeptStep(xs, key);
      forall i | 0 <= i < |init| ensures IsFirst(xs, key, i) <==> IsFirst(init, key, i) {
        assert xs[..i] == init[..i];
      }
    }
  }

  /**
   * FirstOccurrences is the subsequence of xs at the ascending positions
   * KeptIndices, and a position is kept exactly when its record is the first
   * with its key.
   */
  lemma FirstOccurrencesPositions<T, K>(xs: seq<T>, key: T -> K)
    ensures var r, idx := FirstOccurrences(xs, key), KeptIndices(xs, key);
            && |r| == |idx|
            && (forall k :: 0 <= k < |idx| ==> idx[k] < |xs| && r[k] == xs[idx[k]])
            && (forall k, l :: 0 <= k < l < |idx| ==> idx[k] < idx[l])
            && (forall i :: 0 <= i < |xs| ==> (i in idx <==> IsFirst(xs, key, i)))
  {
    KeptIndicesBounded(xs, key);
    KeptIndicesAscending(xs, key);
    KeptIndicesElements(xs, key);
    KeptIndicesExact(xs, key);
  }

  /** Every kept record is a record of the input. */
  lemma FirstOccurrencesMembers<T, K>(xs: seq<T>, key: T -> K)
    ensures forall x :: x in FirstOccurrences(xs, key) ==> x in xs
  {
    FirstOccurrencesPositions(xs, key);
    var r, idx := FirstOccurrences(xs, key), KeptIndices(xs, key);
    forall x | x in r ensures x in xs {
      var k :| 0 <= k < |r| && r[k] == x;
      assert xs[idx[k]] == x;
    }
  }

  /** No two kept records share a key. */
  lemma FirstOccurrencesDistinct<T, K>(xs: seq<T>, key: T -> K)
    ensures var r := FirstOccurrences(xs, key);
            forall p, q :: 0 <= p < q < |r| ==> key(r[p]) != key(r[q])
  {
    FirstOccurrencesPositions(xs, key);
    var r, idx := FirstOccurrences(xs, key), KeptIndices(xs, key);
    forall p, q | 0 <= p < q < |r| ensures key(r[p]) != key(r[q]) {
      assert idx[p] < idx[q];
      assert idx[q] in idx;
      assert xs[..idx[q]][idx[p]] == r[p];
    }
  }

  /** Every key of the input is the key of some kept record. */
  lemma FirstOccurrencesCover<T, K>(xs: seq<T>, key: T -> K)
    ensures forall i :: 0 <= i < |xs| ==> KeyIn(FirstOccurrences(xs, key), key, key(xs[i]))
  {
    FirstOccurrencesPositions(xs, key);
    var r, idx := FirstOccurrences(xs, key), KeptIndices(xs, key);
    forall i | 0 <= i < |xs| ensures KeyIn(r, key, key(xs[i])) {
      FirstWithKey(xs, key, i);
      var f :| 0 <= f <= i && IsFirst(xs, key, f) && key(xs[f]) == key(xs[i]);
      assert f in idx;
      var k :| 0 <= k < |idx| && idx[k] == f;
      assert key(r[k]) == key(xs[i]);
    }
  }

  lemma {:induction false} FirstWithKey<T, K>(xs: seq<T>, key: T -> K, i: nat)
    requires i < |xs|
    ensures exists f :: 0 <= f <= i && IsFirst(xs, key, f) && key(xs[f]) == key(xs[i])
    decreases i
  {
    if !IsFirst(xs, key, i) {
      var j :| 0 <= j < i && key(xs[..i][j]) == key(xs[i]);
      FirstWithKey(xs, key, j);
    }
  }

  /**
   * After sorting by `order`, the record kept for each key has the least
   * `order` value among all records with that key.
   */
  lemma FirstOfSortedIsLeast<T, K>(xs: seq<T>, key: T -> K, order: T -> string)
    requires SortedBy(xs, order)
    ensures forall x, y :: x in FirstOccurrences(xs, key) && y in xs && key(y) == key(x) ==>
      Leq(order(x), order(y))
  {
    FirstOccurrencesPositions(xs, key);
    var r, idx := FirstOccurrences(xs, key), KeptIndices(xs, key);
    forall x, y | x in r && y in xs && key(y) == key(x) ensures Leq(order(x), order(y)) {
      var k :| 0 <= k < |r| && r[k] == x;
      var j :| 0 <= j < |xs| && xs[j] == y;
      var i := idx[k];
      assert IsFirst(xs, key, i);
      forall j' | 0 <= j' < i ensures key(xs[j']) != key(xs[i]) {
        assert xs[..i][j'] == xs[j'];
      }
      if j == i {
        LeqReflexive(order(x));
      }
    }
  }

  /** Keeping the first of each key leaves a sorted input sorted. */
  lemma FirstOccurrencesSorted<T, K>(xs: seq<T>, key: T -> K, order: T -> string)
    requires SortedBy(xs, order)
    ensures SortedBy(FirstOccurrences(xs, key), order)
  {
    FirstOccurrencesPositions(xs, key);
    var r, idx := FirstOccurrences(xs, key), KeptIndices(xs, key);
    forall p, q | 0 <= p < q < |r| ensures Leq(order(r[p]), order(r[q])) {
      assert idx[p] < idx[q];
    }
  }

  /**
   * The index of the first record with key k, or -1 when there is none
   * (Array.prototype.findIndex with a strict-equality test on the key).
   */
  function FindIndex<T, K(==)>(xs: seq<T>, key: T -> K, k: K): (r: int)
    ensures -1 <= r < |xs|
    ensures r >= 0 ==> key(xs[r]) == k && !KeyIn(xs[..r], key, k)
    ensures r == -1 ==> !KeyIn(xs, key, k)
    decreases |xs|
  {
    if xs == [] then -1
    else if key(xs[0]) == k then 0
    else
      var r := FindIndex(xs[1..], key, k);
      if r == -1 then
        assert forall j :: 0 < j < |xs| ==> xs[j] == xs[1..][j - 1];
        -1
      else
        var prefix := xs[..r + 1];
        assert !KeyIn(prefix, key, k) by {
          forall j | 0 < j < |prefix| ensures key(prefix[j]) != k {
            assert prefix[j] == xs[1..][..r][j - 1];
          }
        }
        r + 1
  }

  /**
   * removeDuplicateKey: keeps the record at index i exactly when findIndex
   * for its key returns i.
   */
  function RemoveDuplicateKey<T, K(==)>(xs: seq<T>, key: T -> K): seq<T> {
    FilterByIndex(xs, FoundAt(xs, key))
  }

  /** The test removeDuplicateKey applies to an index: findIndex of its key lands on it. */
  function FoundAt<T, K(==)>(xs: seq<T>, key: T -> K): nat -> bool {
    (i: nat) => i < |xs| && FindIndex(xs, key, key(xs[i])) == i
  }

  /** findIndex returns i for the key of xs[i] exactly when xs[i] is the first record with that key. */
  lemma FindIndexIsFirst<T, K>(xs: seq<T>, key: T -> K, i: nat)
    requires i < |xs|
    ensures FindIndex(xs, key, key(xs[i])) == i <==> IsFirst(xs, key, i)
  {
    var k := key(xs[i]);
    var r := FindIndex(xs, key, k);
    assert KeyIn(xs, key, k) by {
      assert key(xs[i]) == k;
    }
    assert forall j :: 0 <= j < r ==> xs[..r][j] == xs[j];
    assert forall j :: 0 <= j < i ==> xs[..i][j] == xs[j];
  }

  /** On every prefix, the index-filter of removeDuplicateKey and the keep-first loop agree. */
  lemma {:induction false} RemoveDuplicateKeyPrefix<T, K>(xs: seq<T>, key: T -> K, n: nat)
    requires n <= |xs|
    ensures FilterByIndex(xs[..n], FoundAt(xs, key)) == FirstOccurrences(xs[..n], key)
    decreases n
  {
    if n > 0 {
      RemoveDuplicateKeyPrefix(xs, key, n - 1);
      var prefix := xs[..n];
      assert prefix[..n - 1] == xs[..n - 1];
      FindIndexIsFirst(xs, key, n - 1);
      assert xs[..n - 1] == prefix[..n - 1];
    }
  }

  /**
   * removeDuplicateKey keeps exactly what the keep-first loop keeps: the first
   * record of every key, in input order.
   */
  lemma RemoveDuplicateKeyIsFirst<T, K>(xs: seq<T>, key: T -> K)
    ensures RemoveDuplicateKey(xs, key) == FirstOccurrences(xs, key)
  {
    RemoveDuplicateKeyPrefix(xs, key, |xs|);
    assert xs[..|xs|] == xs;
  }
}
