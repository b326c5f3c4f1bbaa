/** The two sorts of the reconstruction: fragments by y before line clustering, and each line's
    fragments by x before cell grouping. Both are calls of Array.prototype.sort with a comparator
    that subtracts one coordinate from the other; ECMAScript requires that sort to be stable, so
    its result is fully determined and is modelled here as a stable insertion sort. */
module Sorting {
  import opened Tables

  /** Which coordinate a sort compares: y for the line sort, x for the sort within a line. */
  datatype Axis = Vertical | Horizontal

  function Key(f: Fragment, axis: Axis): real {
    match axis
    case Vertical => f.y
    case Horizontal => f.x
  }

  predicate SortedBy(s: seq<Fragment>, axis: Axis) {
    forall i, j :: 0 <= i < j < |s| ==> Key(s[i], axis) <= Key(s[j], axis)
  }

  /** Puts f in front of the first fragment whose key is not smaller than f's. */
  function Insert(f: Fragment, s: seq<Fragment>, axis: Axis): (r: seq<Fragment>)
    ensures multiset(r) == multiset(s) + multiset{f} && |r| == |s| + 1
  {
    if s == [] || Key(f, axis) <= Key(s[0], axis) then [f] + s
    else
      assert s == [s[0]] + s[1..];
      [s[0]] + Insert(f, s[1..], axis)
  }

  /** Every fragment of Insert(f, s) is f or a fragment of s. */
  lemma InsertFrom(f: Fragment, s: seq<Fragment>, axis: Axis, k: nat)
    requires k < |Insert(f, s, axis)|
    ensures Insert(f, s, axis)[k] == f || Insert(f, s, axis)[k] in s
  {
    var t := Insert(f, s, axis);
    assert t[k] in multiset(t);
  }

  /** A bound below f and below every fragment of s is below every fragment of Insert(f, s). */
  lemma InsertBound(f: Fragment, s: seq<Fragment>, axis: Axis, b: real)
    requires b <= Key(f, axis)
    requires forall k :: 0 <= k < |s| ==> b <= Key(s[k], axis)
    ensures forall k :: 0 <= k < |Insert(f, s, axis)| ==> b <= Key(Insert(f, s, axis)[k], axis)
  {
    forall k | 0 <= k < |Insert(f, s, axis)| ensures b <= Key(Insert(f, s, axis)[k], axis) {
      InsertFrom(f, s, axis, k);
    }
  }

  /** Putting a fragment no greater than any of a sorted sequence in front keeps it sorted. */
  lemma ConsSorted(a: Fragment, t: seq<Fragment>, axis: Axis)
    requires SortedBy(t, axis)
    requires forall k :: 0 <= k < |t| ==> Key(a, axis) <= Key(t[k], axis)
    ensures SortedBy([a] + t, axis)
  {
    var r := [a] + t;
    forall i, j | 0 <= i < j < |r| ensures Key(r[i], axis) <= Key(r[j], axis) {
      assert r[j] == t[j - 1];
      if i > 0 { assert r[i] == t[i - 1]; }
    }
  }

  lemma {:induction false} InsertSorted(f: Fragment, s: seq<Fragment>, axis: Axis)
    requires SortedBy(s, axis)
    ensures SortedBy(Insert(f, s, axis), axis)
  {
    if s != [] && Key(f, axis) > Key(s[0], axis) {
      var t := Insert(f, s[1..], axis);
      InsertSorted(f, s[1..], axis);
      InsertBound(f, s[1..], axis, Key(s[0], axis));
      ConsSorted(s[0], t, axis);
    } else {
      ConsSorted(f, s, axis);
    }
  }

  /** The sort: a permutation of its input, ordered by the key. */
  function SortBy(s: seq<Fragment>, axis: Axis): (r: seq<Fragment>)
    ensures multiset(r) == multiset(s) && |r| == |s|
    ensures SortedBy(r, axis)
  {
    if s == [] then []
    else
      assert s == [s[0]] + s[1..];
      InsertSorted(s[0], SortBy(s[1..], axis), axis);
      Insert(s[0], SortBy(s[1..], axis), axis)
  }

  /** The fragments of s whose key is v, in their order in s. */
  function WithKey(s: seq<Fragment>, axis: Axis, v: real): seq<Fragment> {
    if s == [] then [] else (if Key(s[0], axis) == v then [s[0]] else []) + WithKey(s[1..], axis, v)
  }

  lemma {:induction false} InsertWithKey(f: Fragment, s: seq<Fragment>, axis: Axis, v: real)
    ensures WithKey(Insert(f, s, axis), axis, v) == (if Key(f, axis) == v then [f] else []) + WithKey(s, axis, v)
  {
    if s == [] || Key(f, axis) <= Key(s[0], axis) {
      var r := [f] + s;
      assert r[0] == f && r[1..] == s;
    } else {
      var t := Insert(f, s[1..], axis);
      var r := [s[0]] + t;
      assert r[0] == s[0] && r[1..] == t;
      InsertWithKey(f, s[1..], axis, v);
      var a := if Key(s[0], axis) == v then [s[0]] else [];
      var b := if Key(f, axis) == v then [f] else [];
      assert WithKey(r, axis, v) == a + (b + WithKey(s[1..], axis, v));
      assert WithKey(s, axis, v) == a + WithKey(s[1..], axis, v);
      if a != [] {
        assert b == [];
      }
    }
  }

  /** Stability: for every key, the fragments carrying that key keep their relative input order. */
  lemma {:induction false} SortByStable(s: seq<Fragment>, axis: Axis, v: real)
    ensures WithKey(SortBy(s, axis), axis, v) == WithKey(s, axis, v)
  {
    if s != [] {
      SortByStable(s[1..], axis, v);
      InsertWithKey(s[0], SortBy(s[1..], axis), axis, v);
    }
  }
}
