/**
 * Nearest-index lookup: `find_index` and `find_range`. Vectors hold integers; the index of the
 * value nearest to `x` is numpy's `argmin` of `|vec - x|`, which picks the FIRST minimising position.
 */
module Nearest {
  import opened Wrappers
  import opened Errors
  import opened Slices

  function Dist(a: int, b: int): nat { if a < b then b - a else a - b }

  /** `k` is the first position of `vec` whose value is nearest to `x`. */
  predicate IsFirstNearest(vec: seq<int>, x: int, k: int)
  {
    && 0 <= k < |vec|
    && (forall i :: 0 <= i < |vec| ==> Dist(vec[k], x) <= Dist(vec[i], x))
    && (forall i :: 0 <= i < k ==> Dist(vec[k], x) < Dist(vec[i], x))
  }

  /** `np.abs(vec - x).argmin()` on a non-empty vector. */
  function ArgMin(vec: seq<int>, x: int): (k: nat)
    requires |vec| > 0
    ensures IsFirstNearest(vec, x, k)
    decreases |vec|
  {
    if |vec| == 1 then 0
    else
      var k := ArgMin(vec[..|vec| - 1], x);
      if Dist(vec[|vec| - 1], x) < Dist(vec[k], x) then |vec| - 1 else k
  }

  /** The first nearest position is unique, so `ArgMin` is the only index the source can return. */
  lemma FirstNearestUnique(vec: seq<int>, x: int, k: int, k': int)
    requires IsFirstNearest(vec, x, k) && IsFirstNearest(vec, x, k')
    ensures k == k'
  {
    var d, d' := Dist(vec[k], x), Dist(vec[k'], x);
    assert d <= d' && d' <= d;
    assert k < k' ==> d' < d;
    assert k' < k ==> d < d';
  }

  predicate Sorted(vec: seq<int>)
  {
    forall i, j :: 0 <= i < j < |vec| ==> vec[i] <= vec[j]
  }

  /**
   * In a sorted vector the nearest index is monotone in the value looked up, so a range
   * `(lo, hi)` with `lo <= hi` becomes a non-empty slice.
   */
  lemma ArgMinMonotone(vec: seq<int>, x: int, y: int)
    requires |vec| > 0 && Sorted(vec) && x <= y
    ensures ArgMin(vec, x) <= ArgMin(vec, y)
  {
    var k, k' := ArgMin(vec, x), ArgMin(vec, y);
    var a, b := vec[k'], vec[k];
    // were k' < k, then b would be strictly nearer x than a <= b is, while a is at least as
    // near y as b: that needs y < x
    assert Dist(a, y) <= Dist(b, y);
    assert k' < k ==> a <= b && Dist(b, x) < Dist(a, x);
  }

  /** `vals` of `find_index`: a bare number is wrapped into a one-element list. */
  datatype Query = Scalar(x: int) | Values(xs: seq<int>)

  function QueryValues(q: Query): (xs: seq<int>)
  {
    match q
    case Scalar(x) => [x]
    case Values(xs) => xs
  }

  /**
   * `find_index(vec, vals)`: one first-nearest index per value; numpy raises `ValueError` when
   * asked for the argmin of an empty vector.
   */
  function FindIndex(vec: seq<int>, vals: Query): (r: Result<seq<nat>, Error>)
    ensures var xs := QueryValues(vals);
      && (r.Failure? <==> |vec| == 0 && |xs| > 0)
      && (r.Failure? ==> r.error == ValueError)
      && (r.Success? ==> |r.value| == |xs|
                         && forall i :: 0 <= i < |xs| ==> IsFirstNearest(vec, xs[i], r.value[i]))
  {
    var xs := QueryValues(vals);
    if |xs| == 0 then Success([])
    else if |vec| == 0 then Failure(ValueError)
    else Success(seq(|xs|, i requires 0 <= i < |xs| => ArgMin(vec, xs[i])))
  }

  /**
   * `ranges` of `find_range`: either one flat two-element list `[lo, hi]` (or a flat list of
   * some other length), or a list of lists.
   */
  datatype Ranges = Flat(bounds: seq<int>) | Nested(ranges: seq<seq<int>>)

  /** A single slice when one flat pair was given, a list of slices otherwise. */
  datatype Found = OneSlice(slice: Slice) | SliceList(slices: seq<Slice>)

  /** The slice `find_range` makes of one range: from the nearest of `lo` to one past the nearest of `hi`. */
  predicate RangeSlice(vec: seq<int>, rng: seq<int>, s: Slice)
  {
    && |rng| == 2
    && IsFirstNearest(vec, rng[0], s.start)
    && IsFirstNearest(vec, rng[1], s.stop - 1)
    && s.step == None
  }

  /** What `find_range` iterates over once it has wrapped a flat pair. */
  function RangeList(ranges: Ranges): seq<seq<int>>
  {
    match ranges
    case Flat(bounds) => [bounds]
    case Nested(rs) => rs
  }

  /** `find_range(vec, ranges)`. */
  method FindRange(vec: seq<int>, ranges: Ranges) returns (r: Result<Found, Error>)
    ensures r == Failure(AssertionError) <==> ranges == Flat([]) || ranges == Nested([])
    ensures r == Failure(TypeError) <==> ranges.Flat? && |ranges.bounds| != 0 && |ranges.bounds| != 2
    ensures r.Success? <==>
      && (ranges.Flat? ==> |ranges.bounds| == 2)
      && |RangeList(ranges)| > 0
      && |vec| > 0
      && forall i :: 0 <= i < |RangeList(ranges)| ==> |RangeList(ranges)[i]| == 2
    ensures r.Failure? ==> r.error in {AssertionError, TypeError, ValueError}
    ensures r.Success? ==> (r.value.OneSlice? <==> ranges.Flat?)
    ensures r.Success? && r.value.OneSlice? ==> RangeSlice(vec, ranges.bounds, r.value.slice)
    ensures r.Success? && r.value.SliceList? ==>
      && |r.value.slices| == |ranges.ranges|
      && forall i :: 0 <= i < |ranges.ranges| ==> RangeSlice(vec, ranges.ranges[i], r.value.slices[i])
  {
    var rngs: seq<seq<int>>;
    match ranges {
      case Flat(bounds) =>
        if |bounds| == 0 { return Failure(AssertionError); }
        if |bounds| != 2 { return Failure(TypeError); }
        rngs := [bounds];
      case Nested(rs) =>
        if |rs| == 0 { return Failure(AssertionError); }
        rngs := rs;
    }
    var slices: seq<Slice> := [];
    var i := 0;
    while i < |rngs|
      invariant 0 <= i <= |rngs|
      invariant |vec| > 0 || i == 0
      invariant forall j :: 0 <= j < i ==> |rngs[j]| == 2
      invariant |slices| == i
      invariant forall j :: 0 <= j < i ==> RangeSlice(vec, rngs[j], slices[j])
    {
      var rng := rngs[i];
      if |vec| == 0 || |rng| != 2 {
        // numpy's argmin of an empty vector, or `start, stop = ...` unpacking the wrong count
        return Failure(ValueError);
      }
      var start, stop := ArgMin(vec, rng[0]), ArgMin(vec, rng[1]);
      slices := slices + [Slice(start, stop + 1, None)];
      i := i + 1;
    }
    if ranges.Flat? {
      r := Success(OneSlice(slices[0]));
    } else {
      r := Success(SliceList(slices));
    }
  }
}
