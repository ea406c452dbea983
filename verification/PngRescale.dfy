/** Samples of a depth PNG does not have: the writer scales them up to the next depth and records
    the real one in sBIT; the reader shifts them down again. */
module PngRescale {
  import opened Arithmetic
  import opened PngPacking

  /** The depth a sample of `depth` bits is stored with when there is no palette. Several channels
      (colour or alpha) need 8 or 16 bits, plain grey also has 1, 2 and 4. */
  function TargetDepth(depth: nat, plainGrey: bool): nat
    requires 1 <= depth <= 16
  {
    if !plainGrey then
      if depth in {8, 16} then depth else if depth > 8 then 16 else 8
    else if depth in {1, 2, 4, 8, 16} then depth
    else if depth > 8 then 16
    else if depth == 3 then 4
    else 8
  }

  /** int(round(x * factor)) with factor = (2**target - 1) / (2**depth - 1), on exact rationals. */
  function Rescale(depth: nat, target: nat, x: nat): nat
    requires depth >= 1
  {
    var m, n := Pow(2, depth) - 1, Pow(2, target) - 1;
    Pow2AtLeastTwo(depth);
    (2 * (x * n) + m) / (2 * m)
  }

  lemma {:induction false} Pow2AtLeastTwo(n: nat)
    requires n >= 1
    ensures Pow(2, n) >= 2
  {
    if n > 1 { Pow2AtLeastTwo(n - 1); }
  }

  /** The quotient never lies half-way between two integers, so it does not matter how ties round. */
  lemma NoTies(depth: nat, target: nat, x: nat, k: nat)
    requires depth >= 1 && target >= 1
    ensures 2 * (x * (Pow(2, target) - 1)) != (2 * k + 1) * (Pow(2, depth) - 1)
  {
    var half := Pow(2, depth - 1);
    var m := Pow(2, depth) - 1;
    assert m == 2 * half - 1;
    calc {
      (2 * k + 1) * m;
      { MulDistrib(2 * k, 1, m); MulAssoc(2, k, m); }
      2 * (k * m) + m;
      2 * (k * m + half) - 1;
    }
  }

  /** The distance of q to x * n / m, as a fraction of m, is less than a half. */
  predicate IsNearest(q: nat, x: nat, m: nat, n: nat) {
    2 * (q * m) < 2 * (x * n) + m && 2 * (x * n) < 2 * (q * m) + m
  }

  lemma RoundedBounds(x: nat, m: nat, n: nat)
    requires m > 0
    ensures var r := (2 * (x * n) + m) / (2 * m);
            2 * (r * m) <= 2 * (x * n) + m && 2 * (x * n) < 2 * (r * m) + m
  {
    var a, r := 2 * (x * n) + m, (2 * (x * n) + m) / (2 * m);
    Division(a, 2 * m);
    MulAssoc(r, 2, m);
    MulAssoc(2, r, m);
  }

  lemma OddMultiple(r: nat, m: nat)
    requires r > 0
    ensures (2 * (r - 1) + 1) * m == 2 * (r * m) - m
  {
    MulDistrib(2 * (r - 1) + 1, 1, m);
    MulAssoc(2, r, m);
  }

  lemma OnlyOneNearest(q: nat, r: nat, x: nat, m: nat, n: nat)
    requires IsNearest(q, x, m, n) && IsNearest(r, x, m, n)
    ensures q == r
  {
    if q < r { MulMono(q + 1, r, m); MulDistrib(q, 1, m); }
    if r < q { MulMono(r + 1, q, m); MulDistrib(r, 1, m); }
  }

  /** Rescaling gives the integer nearest to the sample times (2**target - 1) / (2**depth - 1), and no
      other integer is as near. */
  lemma RescaleIsNearest(depth: nat, target: nat, x: nat, q: nat)
    requires depth >= 1 && target >= 1
    ensures Pow(2, depth) >= 1 && Pow(2, target) >= 1
    ensures q == Rescale(depth, target, x) <==> IsNearest(q, x, Pow(2, depth) - 1, Pow(2, target) - 1)
  {
    hide Pow;
    Pow2AtLeastTwo(depth);
    Pow2AtLeastTwo(target);
    var m, n := Pow(2, depth) - 1, Pow(2, target) - 1;
    var r := Rescale(depth, target, x);
    RoundedBounds(x, m, n);
    if r > 0 {
      NoTies(depth, target, x, r - 1);
      OddMultiple(r, m);
    }
    if IsNearest(q, x, m, n) { OnlyOneNearest(q, r, x, m, n); }
  }

  /** Nothing stays nothing, and the greatest sample becomes the greatest. */
  lemma RescaleOfExtremes(depth: nat, target: nat)
    requires depth >= 1 && target >= 1
    ensures Pow(2, depth) >= 1 && Rescale(depth, target, 0) == 0
    ensures Rescale(depth, target, Pow(2, depth) - 1) == Pow(2, target) - 1
  {
    hide Pow, Rescale;
    Pow2AtLeastTwo(depth);
    Pow2AtLeastTwo(target);
    RescaleIsNearest(depth, target, 0, 0);
    RescaleIsNearest(depth, target, Pow(2, depth) - 1, Pow(2, target) - 1);
  }

  lemma Expand(m: nat, k: nat, x: nat)
    requires k >= 1
    ensures x * (k * m + (k - 1)) == (x * k) * m + x * (k - 1)
  {
    MulDistrib(k * m, k - 1, x);
    MulAssoc(x, k, m);
  }

  lemma BlockStart(m: nat, k: nat, x: nat)
    ensures (x * k) * (2 * m) == 2 * (x * k * m)
    ensures (x * k + k) * (2 * m) == 2 * (x * k * m) + 2 * (k * m)
  {
    var low := x * k;
    MulAssoc(low, 2, m);
    MulDistrib(low, k, 2 * m);
    MulAssoc(k, 2, m);
  }

  lemma RestFits(m: nat, k: nat, x: nat)
    requires k >= 1 && x <= m
    ensures x * (k - 1) <= k * m - m
  {
    MulMono(x, m, k - 1);
    MulDistrib(k - 1, 1, m);
  }

  lemma InBlock(xn: nat, start: nat, rest: nat, km: nat, m: nat)
    requires xn == start + rest && rest <= km - m && m >= 1
    ensures 2 * start <= 2 * xn + m < 2 * start + 2 * km
  {
  }

  /** The rounding step in plain numbers: m = 2^depth - 1, k = 2^(target - depth). */
  lemma RoundingStaysInBlock(m: nat, k: nat, x: nat, n: nat)
    requires m >= 1 && k >= 1 && x <= m && n == k * m + (k - 1)
    ensures x * k <= (2 * (x * n) + m) / (2 * m) < x * k + k
  {
    Expand(m, k, x);
    RestFits(m, k, x);
    BlockStart(m, k, x);
    MulMono(1, k, m);
    InBlock(x * n, x * k * m, x * (k - 1), k * m, m);
    Squeeze(2 * (x * n) + m, 2 * m, x * k, x * k + k);
  }

  /** Scaling up leaves the original value in the top bits. */
  lemma RescaleBounds(depth: nat, target: nat, x: nat)
    requires 1 <= depth <= target && x < Pow(2, depth)
    ensures var k := Pow(2, target - depth);
            x * k <= Rescale(depth, target, x) < x * k + k
  {
    hide Pow;
    var m, k := Pow(2, depth) - 1, Pow(2, target - depth);
    Pow2AtLeastTwo(depth);
    PowAdds(2, target - depth, depth);
    MulDistrib(m, 1, k);
    RoundingStaysInBlock(m, k, x, Pow(2, target) - 1);
  }

  lemma Squeeze(a: nat, b: nat, low: nat, high: nat)
    requires b > 0 && low * b <= a < high * b
    ensures low <= a / b < high
  {
    var q := a / b;
    if q < low { MulMono(q + 1, low, b); MulDistrib(q, 1, b); }
    if q >= high { MulMono(high, q, b); }
  }

  /** The sBIT shift undoes the rescaling of every sample, for every pair of depths; the scaled
      sample fits the target depth. */
  lemma ShiftUndoesRescale(depth: nat, target: nat, x: nat)
    requires 1 <= depth <= target && x < Pow(2, depth)
    ensures Rescale(depth, target, x) < Pow(2, target)
    ensures Rescale(depth, target, x) / Pow(2, target - depth) == x
  {
    hide Pow, Rescale;
    var k, y := Pow(2, target - depth), Rescale(depth, target, x);
    RescaleBounds(depth, target, x);
    MulDistrib(x, 1, k);
    QuotientIs(y, k, x, y - x * k);
    PowAdds(2, target - depth, depth);
    MulMono(x + 1, Pow(2, depth), k);
  }

  // ----- Rows

  /** The extend function of a writer that rescales. */
  function RescaleRow(depth: nat, target: nat, row: seq<nat>): (r: seq<nat>)
    requires depth >= 1
    ensures |r| == |row|
  {
    seq(|row|, i requires 0 <= i < |row| => Rescale(depth, target, row[i]))
  }

  function Shr(x: nat, n: nat): nat {
    x / Pow(2, n)
  }

  datatype Shifted = Shifted(depth: nat, row: seq<nat>) | SbitError

  /** The sBIT part of asDirect for a row of an image of depth `target`. */
  function ApplySbit(sbit: seq<nat>, target: nat, row: seq<nat>): Shifted
    requires sbit != []
  {
    var most, least := Greatest(sbit), Least(sbit);
    if most > target || least <= 0 then SbitError
    else if most == target then Shifted(target, row)
    else Shifted(most, seq(|row|, i requires 0 <= i < |row| => Shr(row[i], target - most)))
  }

  function Greatest(s: seq<nat>): (g: nat)
    requires s != []
    ensures g in s && forall x :: x in s ==> x <= g
  {
    if |s| == 1 then s[0]
    else
      var g := Greatest(s[1..]);
      assert s == [s[0]] + s[1..];
      if s[0] > g then s[0] else g
  }

  function Least(s: seq<nat>): (l: nat)
    requires s != []
    ensures l in s && forall x :: x in s ==> l <= x
  {
    if |s| == 1 then s[0]
    else
      var l := Least(s[1..]);
      assert s == [s[0]] + s[1..];
      if s[0] < l then s[0] else l
  }

  /** Any sBIT chunk: refused if a value is 0 or greater than the depth of the image; otherwise the
      greatest value becomes the depth, and every sample loses as many low bits. */
  lemma ApplySbitMeans(sbit: seq<nat>, target: nat, row: seq<nat>)
    requires sbit != []
    ensures var r := ApplySbit(sbit, target, row);
            if exists x :: x in sbit && (x == 0 || x > target) then r == SbitError
            else
              && r.Shifted? && r.depth in sbit && (forall x :: x in sbit ==> x <= r.depth) && r.depth <= target
              && |r.row| == |row|
              && forall i :: 0 <= i < |row| ==>
                   var k := Pow(2, target - r.depth); r.row[i] * k <= row[i] < r.row[i] * k + k
  {
    var r := ApplySbit(sbit, target, row);
    if r.Shifted? {
      forall i | 0 <= i < |row|
        ensures var k := Pow(2, target - r.depth); r.row[i] * k <= row[i] < r.row[i] * k + k
      {
        PowPositive(target - r.depth);
        if r.depth < target { Division(row[i], Pow(2, target - r.depth)); }
      }
    }
    hide Pow, Shr;
  }

  lemma PowPositive(n: nat)
    ensures Pow(2, n) >= 1 && Pow(2, 0) == 1
  {
    if n > 0 { Pow2AtLeastTwo(n); }
  }

  lemma {:induction false} ConstantExtremes(s: seq<nat>, x: nat)
    requires s != [] && forall i :: 0 <= i < |s| ==> s[i] == x
    ensures Greatest(s) == x && Least(s) == x
  {
    if |s| > 1 { ConstantExtremes(s[1..], x); }
  }

  /** The target depth is the least one PNG has for the kind of image that is not smaller than the
      source's. */
  lemma TargetDepthIsLegal(depth: nat, plainGrey: bool)
    requires 1 <= depth <= 16
    ensures var t := TargetDepth(depth, plainGrey);
            && depth <= t && t in {1, 2, 4, 8, 16} && (!plainGrey ==> t in {8, 16})
            && (t == depth <==> depth in {8, 16} || (plainGrey && depth in {1, 2, 4}))
            && forall u :: IsDepth(u) && (plainGrey || u >= 8) && depth <= u ==> t <= u
  {
  }

  /** A row of any source depth comes back with its own depth: scaled up by the writer, recorded as
      the same sBIT value for every plane, shifted down by the reader. */
  lemma RowSurvivesRescaling(depth: nat, plainGrey: bool, planes: nat, row: seq<nat>)
    requires 1 <= depth <= 16 && planes >= 1 && InRange(depth, row)
    ensures var target := TargetDepth(depth, plainGrey);
            var sbit := seq(planes, _ => depth);
            && InRange(target, RescaleRow(depth, target, row))
            && ApplySbit(sbit, target, RescaleRow(depth, target, row)) == Shifted(depth, row)
  {
    hide Rescale, Pow;
    var target := TargetDepth(depth, plainGrey);
    TargetDepthIsLegal(depth, plainGrey);
    var sbit: seq<nat> := seq(planes, _ => depth);
    ConstantExtremes(sbit, depth);
    forall i | 0 <= i < |row|
      ensures RescaleRow(depth, target, row)[i] < Pow(2, target)
      ensures RescaleRow(depth, target, row)[i] / Pow(2, target - depth) == row[i]
      ensures target == depth ==> RescaleRow(depth, target, row)[i] == row[i]
    {
      ShiftUndoesRescale(depth, target, row[i]);
      if target == depth { assert Pow(2, 0) == 1 by { PowZero(); } }
    }
    if target == depth { assert RescaleRow(depth, target, row) == row; }
  }

  lemma PowZero()
    ensures Pow(2, 0) == 1
  {
  }
}
