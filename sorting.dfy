/**
 * Sorting records in place by a string key in strcmp order: PHP's usort in
 * sort_dates_ascending and the in-place Array.prototype.sort of the
 * browser script both come down to this.
 */
module Sorting {
  import opened Strings

  /** Every earlier record's key is at most every later record's key. */
  ghost predicate SortedBy<T>(s: seq<T>, key: T -> string) {
    forall i, j :: 0 <= i < j < |s| ==> Leq(key(s[i]), key(s[j]))
  }

  lemma {:induction false} ChainLeq<T>(s: seq<T>, key: T -> string, i: nat, j: nat)
    requires forall k :: 0 <= k < |s| - 1 ==> Leq(key(s[k]), key(s[k + 1]))
    requires i <= j < |s|
    ensures Leq(key(s[i]), key(s[j]))
    decreases j - i
  {
    if i == j {
      LeqReflexive(key(s[i]));
    } else {
      ChainLeq(s, key, i, j - 1);
      LeqTransitive(key(s[i]), key(s[j - 1]), key(s[j]));
    }
  }

  /** Neighbours in order means everything in order (strcmp order is transitive). */
  lemma AdjacentSorted<T>(s: seq<T>, key: T -> string)
    requires forall k :: 0 <= k < |s| - 1 ==> Leq(key(s[k]), key(s[k + 1]))
    ensures SortedBy(s, key)
  {
    forall i, j | 0 <= i < j < |s| ensures Leq(key(s[i]), key(s[j])) {
      ChainLeq(s, key, i, j);
    }
  }

  /** Two lists with the same multiset of elements have the same members. */
  lemma PermutationMembers<T>(a: seq<T>, b: seq<T>)
    requires multiset(a) == multiset(b)
    ensures forall x :: x in a <==> x in b
  {
    forall x ensures x in a <==> x in b {
      assert x in a <==> x in multiset(a);
      assert x in b <==> x in multiset(b);
    }
  }

  /**
   * One step of a stable insertion sort: x goes after the last element whose
   * key is not larger than its own, so it stays behind every equal key.
   */
  function Insert<T>(s: seq<T>, x: T, key: T -> string): (r: seq<T>)
    ensures |r| == |s| + 1
    decreases |s|
  {
    if s == [] || !Less(key(x), key(s[|s| - 1])) then s + [x]
    else Insert(s[..|s| - 1], x, key) + [s[|s| - 1]]
  }

  /**
   * The stable sort by key: the elements inserted one after the other. Both
   * usort (PHP 8) and Array.prototype.sort (ES2019) sort stably, so elements
   * with equal keys keep their input order.
   */
  function StableSorted<T>(s: seq<T>, key: T -> string): (r: seq<T>)
    ensures |r| == |s|
    decreases |s|
  {
    if s == [] then [] else Insert(StableSorted(s[..|s| - 1], key), s[|s| - 1], key)
  }

  /** The elements whose key is k, in their order. */
  function WithKey<T>(s: seq<T>, key: T -> string, k: string): seq<T>
    decreases |s|
  {
    if s == [] then []
    else WithKey(s[..|s| - 1], key, k) + (if key(s[|s| - 1]) == k then [s[|s| - 1]] else [])
  }

  lemma WithKeySnoc<T>(s: seq<T>, x: T, key: T -> string, k: string)
    ensures WithKey(s + [x], key, k) == WithKey(s, key, k) + (if key(x) == k then [x] else [])
  {
    assert (s + [x])[..|s|] == s;
  }

  /** Inserting x adds it behind the elements with its key and leaves the other keys' order alone. */
  lemma {:induction false} InsertWithKey<T>(s: seq<T>, x: T, key: T -> string, k: string)
    ensures WithKey(Insert(s, x, key), key, k) == WithKey(s, key, k) + (if key(x) == k then [x] else [])
    decreases |s|
  {
    if s == [] || !Less(key(x), key(s[|s| - 1])) {
      WithKeySnoc(s, x, key, k);
    } else {
      var init, y := s[..|s| - 1], s[|s| - 1];
      InsertWithKey(init, x, key, k);
      WithKeySnoc(Insert(init, x, key), y, key, k);
      assert s == init + [y];
      WithKeySnoc(init, y, key, k);
      LeqReflexive(key(y));
    }
  }

  /** Stability: for every key, the elements with that key come out in their input order. */
  lemma {:induction false} StableSortedKeepsTies<T>(s: seq<T>, key: T -> string, k: string)
    ensures WithKey(StableSorted(s, key), key, k) == WithKey(s, key, k)
    decreases |s|
  {
    if s != [] {
      var init, x := s[..|s| - 1], s[|s| - 1];
      StableSortedKeepsTies(init, key, k);
      InsertWithKey(StableSorted(init, key), x, key, k);
      assert StableSorted(s, key) == Insert(StableSorted(init, key), x, key);
      assert WithKey(s, key, k) == WithKey(init, key, k) + (if key(x) == k then [x] else []);
    }
  }

  /** Filtering by key distributes over concatenation. */
  lemma {:induction false} WithKeyAppend<T>(a: seq<T>, b: seq<T>, key: T -> string, k: string)
    ensures WithKey(a + b, key, k) == WithKey(a, key, k) + WithKey(b, key, k)
    decreases |b|
  {
    if b == [] {
      assert a + b == a;
    } else {
      WithKeyAppend(a, b[..|b| - 1], key, k);
      assert (a + b)[..|a + b| - 1] == a + b[..|b| - 1];
    }
  }

  /** The elements with key k are elements of s with key k. */
  lemma {:induction false} WithKeyMembers<T>(s: seq<T>, key: T -> string, k: string)
    ensures forall y :: y in WithKey(s, key, k) ==> y in s && key(y) == k
    decreases |s|
  {
    if s != [] {
      WithKeyMembers(s[..|s| - 1], key, k);
      assert s == s[..|s| - 1] + [s[|s| - 1]];
    }
  }

  /** Some element satisfies q, so a first one does. */
  lemma {:induction false} FirstSatisfying<T>(s: seq<T>, q: T -> bool, i0: nat)
    requires i0 < |s| && q(s[i0])
    ensures exists i :: 0 <= i <= i0 && q(s[i]) && forall j :: 0 <= j < i ==> !q(s[j])
    decreases i0
  {
    if j :| 0 <= j < i0 && q(s[j]) {
      FirstSatisfying(s, q, j);
    }
  }

  /**
   * If t[a] satisfies p and no earlier element with its key does, then t[a]
   * is the first element satisfying p among the elements with its key.
   */
  lemma FirstMatchWithKey<T>(t: seq<T>, key: T -> string, p: T -> bool, a: nat)
    requires a < |t| && p(t[a])
    requires forall j :: 0 <= j < a && key(t[j]) == key(t[a]) ==> !p(t[j])
    ensures var w := WithKey(t, key, key(t[a]));
            exists m :: 0 <= m < |w| && w[m] == t[a] && forall n :: 0 <= n < m ==> !p(w[n])
  {
    var k := key(t[a]);
    assert t == t[..a] + [t[a]] + t[a + 1..];
    WithKeyAppend(t[..a] + [t[a]], t[a + 1..], key, k);
    WithKeyAppend(t[..a], [t[a]], key, k);
    WithKeySnoc([], t[a], key, k);
    assert [] + [t[a]] == [t[a]];
    var before := WithKey(t[..a], key, k);
    WithKeyMembers(t[..a], key, k);
    var w := WithKey(t, key, k);
    assert w == before + [t[a]] + WithKey(t[a + 1..], key, k);
    forall n | 0 <= n < |before| ensures !p(w[n]) {
      assert w[n] == before[n] && before[n] in t[..a];
    }
    assert w[|before|] == t[a];
  }

  /**
   * Stability seen from one element of the sorted result: if sorted[a] is
   * the first element satisfying p there, it comes from an index i of the
   * input before which no element satisfying p has its key.
   */
  lemma StableFirstAmongTies<T>(s: seq<T>, key: T -> string, p: T -> bool, a: nat)
    requires a < |StableSorted(s, key)| && p(StableSorted(s, key)[a])
    requires forall j :: 0 <= j < a ==> !p(StableSorted(s, key)[j])
    ensures exists i :: 0 <= i < |s| && s[i] == StableSorted(s, key)[a]
              && forall j :: 0 <= j < i && p(s[j]) ==> key(s[j]) != key(s[i])
  {
    var sorted := StableSorted(s, key);
    var x := sorted[a];
    var k := key(x);
    var i := FirstWithKeyAndP(s, key, p, x);
    FirstMatchWithKey(s, key, p, i);
    FirstMatchWithKey(sorted, key, p, a);
    StableSortedKeepsTies(s, key, k);
    FirstMatchUnique(WithKey(s, key, k), p, s[i], x);
  }

  /** An element of the sorted result is in the input, and a first one with its key satisfying p exists there. */
  lemma FirstWithKeyAndP<T>(s: seq<T>, key: T -> string, p: T -> bool, x: T) returns (i: nat)
    requires x in StableSorted(s, key) && p(x)
    ensures i < |s| && key(s[i]) == key(x) && p(s[i])
    ensures forall j :: 0 <= j < i && key(s[j]) == key(x) ==> !p(s[j])
  {
    StableSortedPermutation(s, key);
    PermutationMembers(StableSorted(s, key), s);
    var i0 :| 0 <= i0 < |s| && s[i0] == x;
    var q := (y: T) => key(y) == key(x) && p(y);
    FirstSatisfying(s, q, i0);
    i :| 0 <= i <= i0 && q(s[i]) && forall j :: 0 <= j < i ==> !q(s[j]);
  }

  /** Two elements that are each the first satisfying p in w are the same. */
  lemma FirstMatchUnique<T>(w: seq<T>, p: T -> bool, x: T, y: T)
    requires exists m :: 0 <= m < |w| && w[m] == x && forall n :: 0 <= n < m ==> !p(w[n])
    requires exists m :: 0 <= m < |w| && w[m] == y && forall n :: 0 <= n < m ==> !p(w[n])
    requires p(x) && p(y)
    ensures x == y
  {
    var m1 :| 0 <= m1 < |w| && w[m1] == x && forall n :: 0 <= n < m1 ==> !p(w[n]);
    var m2 :| 0 <= m2 < |w| && w[m2] == y && forall n :: 0 <= n < m2 ==> !p(w[n]);
    assert !(m1 < m2) && !(m2 < m1);
  }

  /** Inserting behind an element smaller than x only grows the prefix. */
  lemma InsertStep<T>(s: seq<T>, x: T, key: T -> string)
    requires |s| > 0 && Less(key(x), key(s[|s| - 1]))
    ensures Insert(s, x, key) == Insert(s[..|s| - 1], x, key) + [s[|s| - 1]]
  {
  }

  /** Inserting adds exactly x. */
  lemma {:induction false} InsertPermutation<T>(s: seq<T>, x: T, key: T -> string)
    ensures multiset(Insert(s, x, key)) == multiset(s) + multiset{x}
    decreases |s|
  {
    if s != [] && Less(key(x), key(s[|s| - 1])) {
      InsertPermutation(s[..|s| - 1], x, key);
      assert s == s[..|s| - 1] + [s[|s| - 1]];
    }
  }

  /** Inserting into a sorted list keeps it sorted. */
  lemma {:induction false} InsertSorted<T>(s: seq<T>, x: T, key: T -> string)
    requires SortedBy(s, key)
    ensures SortedBy(Insert(s, x, key), key)
    decreases |s|
  {
    var r := Insert(s, x, key);
    if s == [] || !Less(key(x), key(s[|s| - 1])) {
      LeqReflexive(key(x));
      forall i | 0 <= i < |s| ensures Leq(key(s[i]), key(x)) {
        LeqReflexive(key(s[|s| - 1]));
        LeqTransitive(key(s[i]), key(s[|s| - 1]), key(x));
      }
    } else {
      var init, y := s[..|s| - 1], s[|s| - 1];
      var t := Insert(init, x, key);
      InsertSorted(init, x, key);
      InsertPermutation(init, x, key);
      LeqTotal(key(x), key(y));
      forall z | z in t ensures Leq(key(z), key(y)) {
        assert z in multiset(t);
        if z != x {
          assert z in multiset(init);
          var k :| 0 <= k < |init| && init[k] == z;
          assert s[k] == z;
        }
      }
      forall p, q | 0 <= p < q < |r| ensures Leq(key(r[p]), key(r[q])) {
        if q == |t| {
          assert r[p] == t[p] && r[q] == y;
          assert t[p] in t;
        } else {
          assert r[p] == t[p] && r[q] == t[q];
        }
      }
    }
  }

  /** The stable sort is a permutation of its input. */
  lemma {:induction false} StableSortedPermutation<T>(s: seq<T>, key: T -> string)
    ensures multiset(StableSorted(s, key)) == multiset(s)
    decreases |s|
  {
    if s != [] {
      StableSortedPermutation(s[..|s| - 1], key);
      InsertPermutation(StableSorted(s[..|s| - 1], key), s[|s| - 1], key);
      assert s == s[..|s| - 1] + [s[|s| - 1]];
    }
  }

  /** The stable sort is sorted. */
  lemma {:induction false} StableSortedSorted<T>(s: seq<T>, key: T -> string)
    ensures SortedBy(StableSorted(s, key), key)
    decreases |s|
  {
    if s != [] {
      StableSortedSorted(s[..|s| - 1], key);
      InsertSorted(StableSorted(s[..|s| - 1], key), s[|s| - 1], key);
    }
  }

  /** Exchanges a[j - 1] and a[j]. */
  method Swap<T>(a: array<T>, j: nat)
    requires 0 < j < a.Length
    modifies a
    ensures a[..] == old(a[..])[j - 1 := old(a[j])][j := old(a[j - 1])]
  {
    a[j - 1], a[j] := a[j], a[j - 1];
  }

  /** Passing one more larger element moves it from before x to behind x. */
  lemma InsertPassed<T>(s: seq<T>, x: T, key: T -> string, i: nat, j: nat)
    requires 0 < j <= i <= |s| && Less(key(x), key(s[j - 1]))
    requires Insert(s[..i], x, key) == Insert(s[..j], x, key) + s[j..i]
    ensures Insert(s[..i], x, key) == Insert(s[..j - 1], x, key) + s[j - 1..i]
  {
    InsertStep(s[..j], x, key);
    assert s[..j][..j - 1] == s[..j - 1];
    assert s[j - 1..i] == [s[j - 1]] + s[j..i];
  }

  /** x stops at the front or behind an element that is not larger. */
  lemma InsertStops<T>(s: seq<T>, x: T, key: T -> string, j: nat)
    requires j <= |s| && (j == 0 || !Less(key(x), key(s[j - 1])))
    ensures Insert(s[..j], x, key) == s[..j] + [x]
  {
  }

  /** The array during InsertAt: x sits at j, the elements it has passed follow it. */
  lemma ShiftedAt<T>(s: seq<T>, x: T, i: nat, j: nat, b: seq<T>)
    requires j <= i < |s| && b == s[..j] + [x] + s[j..i] + s[i + 1..]
    ensures |b| == |s| && b[j] == x && (j > 0 ==> b[j - 1] == s[j - 1])
    ensures j > 0 ==> b[j - 1 := x][j := s[j - 1]] == s[..j - 1] + [x] + s[j - 1..i] + s[i + 1..]
  {
    if j > 0 {
      var c := b[j - 1 := x][j := s[j - 1]];
      var d := s[..j - 1] + [x] + s[j - 1..i] + s[i + 1..];
      assert |c| == |d|;
      forall k | 0 <= k < |c| ensures c[k] == d[k] {
        if k < j - 1 {
        } else if k == j - 1 {
        } else if k == j {
        } else if k <= i {
          assert c[k] == s[k - 1];
        } else {
          assert c[k] == s[k];
        }
      }
    }
  }

  /**
   * Moves a[i] left past every strictly larger key, so that it lands behind
   * every equal key: a[..i + 1] becomes the insertion of old a[i] into old
   * a[..i], and the rest of the array stays.
   */
  method InsertAt<T>(a: array<T>, i: nat, key: T -> string)
    requires i < a.Length
    modifies a
    ensures a[..] == Insert(old(a[..i]), old(a[i]), key) + old(a[i + 1..])
  {
    ghost var s, x := a[..], a[i];
    var j := i;
    ShiftedAt(s, x, i, j, a[..]);
    while j > 0 && Less(key(a[j]), key(a[j - 1]))
      invariant 0 <= j <= i
      invariant a[..] == s[..j] + [x] + s[j..i] + s[i + 1..]
      invariant a[j] == x && (j > 0 ==> a[j - 1] == s[j - 1])
      invariant Insert(s[..i], x, key) == Insert(s[..j], x, key) + s[j..i]
    {
      InsertPassed(s, x, key, i, j);
      ShiftedAt(s, x, i, j, a[..]);
      Swap(a, j);
      ShiftedAt(s, x, i, j - 1, a[..]);
      j := j - 1;
    }
    InsertStops(s, x, key, j);
  }

  /** The array during SortByKey: inserting its next element extends the sorted prefix by one. */
  lemma SortStep<T>(s: seq<T>, key: T -> string, i: nat, b: seq<T>)
    requires i < |s| && b == StableSorted(s[..i], key) + s[i..]
    ensures Insert(b[..i], b[i], key) + b[i + 1..] == StableSorted(s[..i + 1], key) + s[i + 1..]
  {
    assert b[..i] == StableSorted(s[..i], key) && b[i] == s[i] && b[i + 1..] == s[i + 1..];
    assert s[..i + 1][..i] == s[..i];
  }

  /**
   * Sorts `a` in place, ascending by `key`: the array becomes the stable sort
   * of its old contents, so a sorted permutation of them in which equal keys
   * keep their order.
   */
  method SortByKey<T>(a: array<T>, key: T -> string)
    modifies a
    ensures a[..] == StableSorted(old(a[..]), key)
    ensures SortedBy(a[..], key)
    ensures multiset(a[..]) == multiset(old(a[..]))
  {
    ghost var s := a[..];
    var i := 0;
    while i < a.Length
      invariant i <= a.Length
      invariant a[..] == StableSorted(s[..i], key) + s[i..]
    {
      SortStep(s, key, i, a[..]);
      InsertAt(a, i, key);
      i := i + 1;
    }
    assert s[..a.Length] == s;
    StableSortedSorted(s, key);
    StableSortedPermutation(s, key);
  }
}
