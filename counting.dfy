/** Counting arguments shared by the slot search and the event id search. */
module Counting {

  /** The integers in [lo, hi). */
  function Range(lo: int, hi: int): (r: set<int>)
    ensures forall s :: s in r <==> lo <= s < hi
    ensures |r| == if lo <= hi then hi - lo else 0
    decreases hi - lo
  {
    if hi <= lo then {} else Range(lo, hi - 1) + {hi - 1}
  }

  /** A sequence has no more distinct elements than entries. */
  lemma {:induction false} ElementsCard(o: seq<int>)
    ensures |set x | x in o| <= |o|
  {
    if o != [] {
      var init := o[..|o| - 1];
      ElementsCard(init);
      assert (set x | x in o) == (set x | x in init) + {o[|o| - 1]};
    }
  }

  /** A sequence without repeated entries has as many distinct elements as entries. */
  lemma {:induction false} DistinctCard(o: seq<int>)
    requires forall i, j :: 0 <= i < j < |o| ==> o[i] != o[j]
    ensures |set x | x in o| == |o|
  {
    if o != [] {
      var init := o[..|o| - 1];
      DistinctCard(init);
      assert (set x | x in o) == (set x | x in init) + {o[|o| - 1]};
      assert forall k :: 0 <= k < |init| ==> init[k] == o[k];
      assert o[|o| - 1] !in init;
    }
  }

  /** Distinct entries drawn from [0, n) without `gap` number at most n - 1. */
  lemma DistinctAvoidingGap(o: seq<int>, n: int, gap: int)
    requires 0 <= gap < n
    requires forall i :: 0 <= i < |o| ==> 0 <= o[i] < n && o[i] != gap
    requires forall i, j :: 0 <= i < j < |o| ==> o[i] != o[j]
    ensures |o| <= n - 1
  {
    DistinctCard(o);
    var rest := Range(0, n) - {gap};
    RangeWithoutOne(n, gap);
    var elems := set x | x in o;
    SubsetCard(elems, rest);
  }

  /** [0, n) without one of its members has n - 1 elements. */
  lemma RangeWithoutOne(n: int, gap: int)
    requires 0 <= gap < n
    ensures |Range(0, n) - {gap}| == n - 1
  {
    var rest := Range(0, n) - {gap};
    assert Range(0, n) == rest + {gap} && gap !in rest;
  }

  /** A subset is no larger than its superset. */
  lemma SubsetCard(a: set<int>, b: set<int>)
    requires a <= b
    ensures |a| <= |b|
  {
    assert b == a + (b - a) && a * (b - a) == {};
  }

  /** A sequence that contains every integer of [lo, hi) has at least hi - lo entries. */
  lemma Pigeonhole(o: seq<int>, lo: int, hi: int)
    requires lo <= hi
    requires forall s :: lo <= s < hi ==> s in o
    ensures |o| >= hi - lo
  {
    var range := Range(lo, hi);
    var elems := set x | x in o;
    ElementsCard(o);
    assert range <= elems;
    assert elems == range + (elems - range) && range * (elems - range) == {};
  }
}
