/**
 * Filter-then-map over a sequence, the shape of a foreach loop that appends
 * a reshaped copy of every element passing a test.
 */
module Filtering {

  /** f(x) for every x of xs that passes `keep`, in order. */
  function FilterMap<T, U>(xs: seq<T>, keep: T -> bool, f: T -> U): seq<U>
    decreases |xs|
  {
    if xs == [] then []
    else
      var x := xs[|xs| - 1];
      FilterMap(xs[..|xs| - 1], keep, f) + (if keep(x) then [f(x)] else [])
  }

  /** The positions of the elements that pass `keep`, ascending. */
  ghost function KeptPositions<T>(xs: seq<T>, keep: T -> bool): seq<nat>
    decreases |xs|
  {
    if xs == [] then []
    else KeptPositions(xs[..|xs| - 1], keep) + (if keep(xs[|xs| - 1]) then [|xs| - 1] else [])
  }

  /** There are no more kept positions than elements, and each is in range. */
  lemma {:induction false} KeptPositionsBounded<T>(xs: seq<T>, keep: T -> bool)
    ensures |KeptPositions(xs, keep)| <= |xs|
    ensures forall k :: 0 <= k < |KeptPositions(xs, keep)| ==> KeptPositions(xs, keep)[k] < |xs|
    decreases |xs|
  {
    if xs != [] {
      var init := xs[..|xs| - 1];
      KeptPositionsBounded(init, keep);
      assert KeptPositions(xs, keep) ==
        KeptPositions(init, keep) + (if keep(xs[|xs| - 1]) then [|xs| - 1] else []);
    }
  }

  /** The kept positions are strictly ascending. */
  lemma {:induction false} KeptPositionsAscending<T>(xs: seq<T>, keep: T -> bool)
    ensures var idx := KeptPositions(xs, keep);
            forall k, l :: 0 <= k < l < |idx| ==> idx[k] < idx[l]
    decreases |xs|
  {
    if xs != [] {
      var init := xs[..|xs| - 1];
      KeptPositionsAscending(init, keep);
      KeptPositionsBounded(init, keep);
      assert KeptPositions(xs, keep) ==
        KeptPositions(init, keep) + (if keep(xs[|xs| - 1]) then [|xs| - 1] else []);
    }
  }

  /** A position is kept exactly when its element passes `keep`. */
  lemma {:induction false} KeptPositionsExact<T>(xs: seq<T>, keep: T -> bool)
    ensures forall i :: 0 <= i < |xs| ==> (i in KeptPositions(xs, keep) <==> keep(xs[i]))
    decreases |xs|
  {
    if xs != [] {
      var init := xs[..|xs| - 1];
      KeptPositionsExact(init, keep);
      KeptPositionsBounded(init, keep);
      assert KeptPositions(xs, keep) ==
        KeptPositions(init, keep) + (if keep(xs[|xs| - 1]) then [|xs| - 1] else []);
      assert forall k :: 0 <= k < |init| ==> init[k] == xs[k];
    }
  }

  /** The k-th result is f of the element at the k-th kept position. */
  lemma {:induction false} FilterMapAt<T, U>(xs: seq<T>, keep: T -> bool, f: T -> U)
    ensures var r, idx := FilterMap(xs, keep, f), KeptPositions(xs, keep);
            && |r| == |idx|
            && (forall k :: 0 <= k < |idx| ==> idx[k] < |xs| && r[k] == f(xs[idx[k]]))
    decreases |xs|
  {
    if xs != [] {
      var init := xs[..|xs| - 1];
      FilterMapAt(init, keep, f);
      KeptPositionsBounded(init, keep);
      assert KeptPositions(xs, keep) ==
        KeptPositions(init, keep) + (if keep(xs[|xs| - 1]) then [|xs| - 1] else []);
    }
  }

  /**
   * FilterMap keeps, in order, f of exactly the elements passing `keep`: the
   * k-th result comes from the k-th kept position.
   */
  lemma FilterMapPositions<T, U>(xs: seq<T>, keep: T -> bool, f: T -> U)
    ensures var r, idx := FilterMap(xs, keep, f), KeptPositions(xs, keep);
            && |r| == |idx| <= |xs|
            && (forall k :: 0 <= k < |idx| ==> idx[k] < |xs| && r[k] == f(xs[idx[k]]))
            && (forall k, l :: 0 <= k < l < |idx| ==> idx[k] < idx[l])
            && (forall i :: 0 <= i < |xs| ==> (i in idx <==> keep(xs[i])))
  {
    KeptPositionsBounded(xs, keep);
    KeptPositionsAscending(xs, keep);
    KeptPositionsExact(xs, keep);
    FilterMapAt(xs, keep, f);
  }

  /** f applied to every element, in order (Array.prototype.map, a foreach that appends). */
  function Map<T, U>(xs: seq<T>, f: T -> U): (r: seq<U>)
    ensures |r| == |xs|
    ensures forall k :: 0 <= k < |xs| ==> r[k] == f(xs[k])
    decreases |xs|
  {
    if xs == [] then [] else Map(xs[..|xs| - 1], f) + [f(xs[|xs| - 1])]
  }

  /** Mapping one more element of a list appends its image. */
  lemma MapSnoc<T, U>(xs: seq<T>, i: nat, f: T -> U)
    requires i < |xs|
    ensures Map(xs[..i + 1], f) == Map(xs[..i], f) + [f(xs[i])]
  {
    assert xs[..i + 1][..i] == xs[..i];
  }

  /** The elements at the positions `keep` accepts, in order (a filter whose test reads the index). */
  function FilterByIndex<T>(xs: seq<T>, keep: nat -> bool): (r: seq<T>)
    ensures |r| <= |xs|
    decreases |xs|
  {
    if xs == [] then []
    else FilterByIndex(xs[..|xs| - 1], keep) + (if keep(|xs| - 1) then [xs[|xs| - 1]] else [])
  }

  /** The lists concatenated in order (Array.prototype.flat on a list of lists). */
  function Flatten<T>(lists: seq<seq<T>>): seq<T>
    decreases |lists|
  {
    if lists == [] then [] else Flatten(lists[..|lists| - 1]) + lists[|lists| - 1]
  }

  /** An element is in the concatenation exactly when it is in one of the lists. */
  lemma {:induction false} FlattenMembers<T>(lists: seq<seq<T>>, x: T)
    ensures x in Flatten(lists) <==> exists i :: 0 <= i < |lists| && x in lists[i]
    decreases |lists|
  {
    if lists != [] {
      var init := lists[..|lists| - 1];
      FlattenMembers(init, x);
      if x in Flatten(lists) && x !in Flatten(init) {
        assert x in lists[|lists| - 1];
      }
      if exists i :: 0 <= i < |lists| && x in lists[i] {
        var i :| 0 <= i < |lists| && x in lists[i];
        if i < |lists| - 1 {
          assert init[i] == lists[i];
        }
      }
    }
  }

  /** The non-empty lists, in order (a filter on length != 0). */
  function NonEmptyLists<T>(lists: seq<seq<T>>): seq<seq<T>>
    decreases |lists|
  {
    if lists == [] then []
    else
      var last := lists[|lists| - 1];
      NonEmptyLists(lists[..|lists| - 1]) + (if |last| != 0 then [last] else [])
  }

  /** Dropping the empty lists first does not change the concatenation. */
  lemma {:induction false} FlattenSkipsEmpty<T>(lists: seq<seq<T>>)
    ensures Flatten(NonEmptyLists(lists)) == Flatten(lists)
    decreases |lists|
  {
    if lists != [] {
      var init := lists[..|lists| - 1];
      var kept := NonEmptyLists(init);
      FlattenSkipsEmpty(init);
      var last := lists[|lists| - 1];
      if |last| != 0 {
        assert (kept + [last])[..|kept|] == kept;
      } else {
        assert kept + [] == kept;
      }
    }
  }
}
