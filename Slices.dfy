/** Python `slice` objects and `extend_slice`. */
module Slices {
  import opened Wrappers

  /** A `slice(start, stop, step)` with integer bounds; `step` may be `None`. */
  datatype Slice = Slice(start: int, stop: int, step: Option<int>)

  function Max(a: int, b: int): int { if a < b then b else a }
  function Min(a: int, b: int): int { if a < b then a else b }

  /**
   * `extend_slice(slc, val, maxval, minval)`: move `start` down and `stop` up by `val`,
   * clamped to `[minval, maxval]`; an endpoint that already sits on its bound is left alone.
   */
  function ExtendSlice(slc: Slice, val: int, maxval: int, minval: int := 0): (r: Slice)
    ensures r.step == slc.step
    ensures minval <= slc.start <= slc.stop <= maxval && 0 <= val ==>
      minval <= r.start <= slc.start && slc.stop <= r.stop <= maxval
  {
    var start := if slc.start == minval then slc.start
                 else if slc.start - val < minval then minval else slc.start - val;
    var stop := if slc.stop == maxval then slc.stop
                else if slc.stop + val > maxval then maxval else slc.stop + val;
    Slice(start, stop, slc.step)
  }

  /** Each endpoint stays on its bound or moves by `val` and is clamped. */
  lemma ExtendSliceEndpoints(slc: Slice, val: int, maxval: int, minval: int)
    ensures ExtendSlice(slc, val, maxval, minval).start
            == if slc.start == minval then minval else Max(slc.start - val, minval)
    ensures ExtendSlice(slc, val, maxval, minval).stop
            == if slc.stop == maxval then maxval else Min(slc.stop + val, maxval)
  {
  }

  /**
   * For a slice inside `[minval, maxval]` and a non-negative `val`, the extended slice is the
   * original one widened by `val` on both sides and clamped to the bounds.
   */
  lemma ExtendSliceWidens(slc: Slice, val: int, maxval: int, minval: int)
    requires minval <= slc.start <= slc.stop <= maxval && 0 <= val
    ensures ExtendSlice(slc, val, maxval, minval)
            == Slice(Max(slc.start - val, minval), Min(slc.stop + val, maxval), slc.step)
  {
  }

  /** Extending twice, by `a` and then by `b`, is extending once by `a + b`. */
  lemma ExtendSliceCompose(slc: Slice, a: int, b: int, maxval: int, minval: int)
    requires minval <= slc.start <= slc.stop <= maxval && 0 <= a && 0 <= b
    ensures ExtendSlice(ExtendSlice(slc, a, maxval, minval), b, maxval, minval)
            == ExtendSlice(slc, a + b, maxval, minval)
  {
  }

  /** Extending by zero changes nothing, unless an endpoint lies outside the bounds (it is then clamped). */
  lemma ExtendSliceByZero(slc: Slice, maxval: int, minval: int)
    ensures ExtendSlice(slc, 0, maxval, minval) == slc <==> minval <= slc.start && slc.stop <= maxval
    ensures ExtendSlice(slc, 0, maxval, minval)
            == Slice(Max(slc.start, minval), Min(slc.stop, maxval), slc.step)
  {
  }
}
