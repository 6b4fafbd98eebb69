/**
 * `group(vec, diff=False, return_slice)`: the bounds of every maximal run of true elements of a
 * boolean vector, found by one pass over `vec + [False]` with an `in_grp` flag.
 */
module Runs {
  import opened Wrappers
  import opened Slices

  /** `[s, e]` (both inclusive) is a maximal run of true elements of `vec`. */
  predicate IsRun(vec: seq<bool>, s: int, e: int)
  {
    && 0 <= s <= e < |vec|
    && (forall j :: s <= j <= e ==> vec[j])
    && (s == 0 || !vec[s - 1])
    && (e + 1 == |vec| || !vec[e + 1])
  }

  /** True position `j` lies inside one of the pairs of `lims`. */
  predicate Covered(lims: seq<(int, int)>, j: int)
  {
    exists i :: 0 <= i < |lims| && lims[i].0 <= j <= lims[i].1
  }

  /** Every pair is a maximal run, and each ends more than one position before the next starts. */
  predicate RunsInOrder(vec: seq<bool>, lims: seq<(int, int)>)
  {
    && (forall i :: 0 <= i < |lims| ==> IsRun(vec, lims[i].0, lims[i].1))
    && (forall i :: 0 < i < |lims| ==> lims[i - 1].1 + 1 < lims[i].0)
  }

  /** Every true position of `vec` before `n` is covered. */
  predicate CoveredBefore(vec: seq<bool>, lims: seq<(int, int)>, n: int)
  {
    forall j :: 0 <= j < n && j < |vec| && vec[j] ==> Covered(lims, j)
  }

  /** `lims` lists every maximal run of `vec`, left to right. */
  predicate IsRunList(vec: seq<bool>, lims: seq<(int, int)>)
  {
    RunsInOrder(vec, lims) && CoveredBefore(vec, lims, |vec|)
  }

  /** Closing the run `[s, e]`: positions covered before stay covered, and `s..e` become covered. */
  lemma CloseRun(vec: seq<bool>, lims: seq<(int, int)>, s: int, e: int)
    requires CoveredBefore(vec, lims, s)
    ensures CoveredBefore(vec, lims + [(s, e)], e + 1)
  {
    var lims' := lims + [(s, e)];
    forall j | 0 <= j < e + 1 && j < |vec| && vec[j]
      ensures Covered(lims', j)
    {
      if j < s {
        var i :| 0 <= i < |lims| && lims[i].0 <= j <= lims[i].1;
        assert lims'[i] == lims[i];
      } else {
        assert lims'[|lims|] == (s, e);
      }
    }
  }

  /** The loop of `group` in its non-`diff` mode: the `[start, end]` pair of every run. */
  method FindRuns(vec: seq<bool>) returns (lims: seq<(int, int)>)
    ensures IsRunList(vec, lims)
  {
    var ext := vec + [false];
    var inGrp := false;
    var start := 0;
    lims := [];
    var ii := 0;
    while ii < |ext|
      invariant 0 <= ii <= |ext|
      invariant inGrp ==> 0 <= start < ii <= |vec| && (start == 0 || !vec[start - 1])
      invariant inGrp ==> forall j :: start <= j < ii ==> vec[j]
      invariant !inGrp && 0 < ii ==> !ext[ii - 1]
      invariant RunsInOrder(vec, lims)
      invariant forall i :: 0 <= i < |lims| ==> lims[i].1 + 1 < ii
      invariant inGrp && |lims| > 0 ==> lims[|lims| - 1].1 + 1 < start
      invariant CoveredBefore(vec, lims, if inGrp then start else ii)
    {
      var el := ext[ii];
      if inGrp && !el {
        assert IsRun(vec, start, ii - 1);
        CloseRun(vec, lims, start, ii - 1);
        inGrp := false;
        lims := lims + [(start, ii - 1)];
      } else if !inGrp && el {
        inGrp := true;
        start := ii;
      }
      ii := ii + 1;
    }
  }

  /** The `return_slice` formatting: each `[start, end]` becomes the half-open `slice(start, end + 1)`. */
  method ToSlices(lims: seq<(int, int)>) returns (slc: seq<Slice>)
    ensures |slc| == |lims|
    ensures forall i :: 0 <= i < |lims| ==> slc[i] == Slice(lims[i].0, lims[i].1 + 1, None)
  {
    slc := [];
    for i := 0 to |lims|
      invariant |slc| == i
      invariant forall k :: 0 <= k < i ==> slc[k] == Slice(lims[k].0, lims[k].1 + 1, None)
    {
      slc := slc + [Slice(lims[i].0, lims[i].1 + 1, None)];
    }
  }

  /** The inclusive bounds a half-open slice covers. */
  function Bounds(slc: seq<Slice>): (lims: seq<(int, int)>)
  {
    seq(|slc|, i requires 0 <= i < |slc| => (slc[i].start, slc[i].stop - 1))
  }

  /** What `group` returns: an array of `[start, end]` rows, or a list of slices. */
  datatype Grouped = Pairs(pairs: seq<(int, int)>) | Slices(slices: seq<Slice>)

  /** `group(vec, diff=False, return_slice=returnSlice)`. */
  method Group(vec: seq<bool>, returnSlice: bool) returns (r: Grouped)
    ensures r.Slices? <==> returnSlice
    ensures r.Pairs? ==> IsRunList(vec, r.pairs)
    ensures r.Slices? ==> IsRunList(vec, Bounds(r.slices))
    ensures r.Slices? ==> forall i :: 0 <= i < |r.slices| ==> r.slices[i].step == None
  {
    var grp := FindRuns(vec);
    if returnSlice {
      var slc := ToSlices(grp);
      assert Bounds(slc) == grp;
      r := Slices(slc);
    } else {
      r := Pairs(grp);
    }
  }

  /** The pairs of a run list are strictly increasing and pairwise disjoint, not only adjacent ones. */
  lemma {:induction false} RunListOrdered(vec: seq<bool>, lims: seq<(int, int)>, i: int, k: int)
    requires IsRunList(vec, lims)
    requires 0 <= i < k < |lims|
    ensures lims[i].1 + 1 < lims[k].0
    decreases k - i
  {
    if i + 1 < k {
      RunListOrdered(vec, lims, i, k - 1);
      assert lims[k - 1].0 <= lims[k - 1].1;
    }
  }

  /** Every true position lies in exactly one pair. */
  lemma RunListCoversOnce(vec: seq<bool>, lims: seq<(int, int)>, j: int)
    requires IsRunList(vec, lims)
    requires 0 <= j < |vec| && vec[j]
    ensures Covered(lims, j)
    ensures forall i, k :: 0 <= i < |lims| && 0 <= k < |lims| && lims[i].0 <= j <= lims[i].1 && lims[k].0 <= j <= lims[k].1 ==> i == k
  {
    forall i, k | 0 <= i < |lims| && 0 <= k < |lims| && lims[i].0 <= j <= lims[i].1 && lims[k].0 <= j <= lims[k].1
      ensures i == k
    {
      if i < k {
        RunListOrdered(vec, lims, i, k);
      } else if k < i {
        RunListOrdered(vec, lims, k, i);
      }
    }
  }
}
