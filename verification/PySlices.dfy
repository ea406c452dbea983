/** Slices and slice assignments of Python arrays, bounds clipped to the array. */
module PySlices {
  import opened Arithmetic

  function Min(x: nat, y: nat): nat {
    if x < y then x else y
  }

  /** a[lo:hi] */
  function Slice<T>(a: seq<T>, lo: nat, hi: nat): seq<T> {
    var h := Min(hi, |a|);
    if lo < h then a[lo..h] else []
  }

  /** a[lo:hi] = values, which may change the length. */
  function Splice<T>(a: seq<T>, lo: nat, hi: nat, values: seq<T>): seq<T> {
    var l := Min(lo, |a|);
    var h := Min(hi, |a|);
    a[..l] + values + a[if l < h then h else l..]
  }

  /** Number of elements of a[lo:hi:step]. */
  function StrideCount(length: nat, lo: nat, hi: nat, step: nat): nat
    requires step > 0
  {
    var h := Min(hi, length);
    if lo < h then CeilDiv(h - lo, step) else 0
  }

  lemma StrideIndex(length: nat, lo: nat, hi: nat, step: nat, j: nat)
    requires step > 0 && j < StrideCount(length, lo, hi, step)
    ensures lo + j * step < Min(hi, length)
  {
    var h := Min(hi, length);
    var n := CeilDiv(h - lo, step);
    CeilDivIs(h - lo, step, n);
    MulMono(j + 1, n, step);
    MulDistrib(j, 1, step);
  }

  /** a[lo:hi:step] */
  function Stride<T>(a: seq<T>, lo: nat, hi: nat, step: nat): (r: seq<T>)
    requires step > 0
    ensures |r| == StrideCount(|a|, lo, hi, step)
  {
    seq(StrideCount(|a|, lo, hi, step), j requires 0 <= j < StrideCount(|a|, lo, hi, step) =>
      StrideIndex(|a|, lo, hi, step, j); a[lo + j * step])
  }

  /** Position `i` is one that a[lo:hi:step] selects. */
  predicate Selected(lo: nat, hi: nat, step: nat, i: nat)
    requires step > 0
  {
    lo <= i < hi && (i - lo) % step == 0
  }

  lemma SelectedCount(length: nat, lo: nat, hi: nat, step: nat, i: nat)
    requires step > 0 && i < length && Selected(lo, hi, step, i)
    ensures (i - lo) / step < StrideCount(length, lo, hi, step)
  {
    var h := Min(hi, length);
    var n, j := CeilDiv(h - lo, step), (i - lo) / step;
    CeilDivIs(h - lo, step, n);
    if j >= n { MulMono(n, j, step); }
  }

  /** a[lo:hi:step] = values, for values of the right number. */
  function Restride<T>(a: seq<T>, lo: nat, hi: nat, step: nat, values: seq<T>): (r: seq<T>)
    requires step > 0 && |values| == StrideCount(|a|, lo, hi, step)
    ensures |r| == |a|
    ensures forall i :: 0 <= i < |a| && !Selected(lo, hi, step, i) ==> r[i] == a[i]
  {
    seq(|a|, i requires 0 <= i < |a| =>
      if Selected(lo, hi, step, i) then SelectedCount(|a|, lo, hi, step, i); values[(i - lo) / step] else a[i])
  }

  /** Assigning to a slice and taking it again gives the values assigned. */
  lemma StrideOfRestride<T>(a: seq<T>, lo: nat, hi: nat, step: nat, values: seq<T>)
    requires step > 0 && |values| == StrideCount(|a|, lo, hi, step)
    ensures Stride(Restride(a, lo, hi, step, values), lo, hi, step) == values
  {
    var r := Restride(a, lo, hi, step, values);
    forall j | 0 <= j < |values|
      ensures Stride(r, lo, hi, step)[j] == values[j]
    {
      StrideIndex(|a|, lo, hi, step, j);
      QuotientIs(j * step, step, j, 0);
    }
  }
}
