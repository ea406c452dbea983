/** Interlaced streams that are too short: the reader never makes a full image of one. The writer makes
    one exactly when it filters the first row of a pass with "up". */
module PngTruncated {
  import opened Arithmetic
  import opened PngFilter
  import opened PngPacking
  import opened PngInterlace
  import opened PngDeinterlace
  import opened PySlices
  import opened Wrappers

  // ----- A short line gives too few samples

  lemma SmallByteCount(n: nat, depth: nat)
    requires depth in {1, 2, 4}
    ensures var bytes, spb := ByteCount(n, depth), Spb(depth); n <= bytes * spb < n + spb
  {
    CeilDivIs(n * depth, 8, ByteCount(n, depth));
  }

  /** Within a row, all samples are kept but the padding. */
  lemma {:induction false} FlatRowsLength(depth: nat, bytes: seq<Byte>, width: nat, l: nat)
    requires depth in {1, 2, 4} && |bytes| * Spb(depth) < l + Spb(depth)
    ensures |FlatRows(depth, bytes, width, l)| == Min(l, |bytes| * Spb(depth))
    decreases |bytes|
  {
    hide Samples;
    var spb := Spb(depth);
    if bytes != [] {
      MulDistrib(1, |bytes| - 1, spb);
      if l > spb {
        FlatRowsLength(depth, bytes[1..], width, l - spb);
      } else if |bytes| > 1 {
        MulMono(1, |bytes| - 1, spb);
      }
    }
  }

  /** A line gives as many samples as a row has exactly when it is complete. */
  lemma SamplesOfLine(depth: nat, line: seq<Byte>, width: nat, n: nat)
    requires IsDepth(depth) && (depth < 8 ==> width == n) && |line| <= ByteCount(n, depth)
    requires SerialToFlat(depth, line, width).Row?
    ensures var flat := SerialToFlat(depth, line, width).samples;
            |flat| <= n && (|flat| == n <==> |line| == ByteCount(n, depth))
  {
    hide FlatRows;
    if depth < 8 {
      var spb := Spb(depth);
      SmallByteCount(n, depth);
      MulMono(|line|, ByteCount(n, depth), spb);
      FlatRowsLength(depth, line, width, n);
      if |line| < ByteCount(n, depth) {
        MulMono(|line| + 1, ByteCount(n, depth), spb);
        MulDistrib(|line|, 1, spb);
      }
    }
  }

  // ----- Too few samples are refused

  /** If all planes could be placed, the row had at least one sample per pixel and plane. */
  lemma {:induction false} PlacedPlanes(img: Image, canvas: seq<nat>, p: Pass, y: nat, flat: seq<nat>, c: nat)
    requires img.Legal() && p.xstart < img.width && p.xstep > 0 && y < img.height && c < img.planes
    requires |canvas| == Size(img) && PutPlanes(img, canvas, p, y, flat, c).Ok?
    ensures |PutPlanes(img, canvas, p, y, flat, c).value| == |canvas|
    ensures |flat| >= img.Ppr(p) * img.planes
    decreases img.planes - c
  {
    hide Size, Offset, EndOffset, Skip, Stride, Restride, StrideCount, Image.Ppr;
    SkipPositive(img, p);
    StridesMatch(img, p, y, c);
    var lo, hi, skip := Offset(img, p, y) + c, EndOffset(img, y), Skip(img, p);
    var values := Stride(flat, c, |flat|, img.planes);
    if c + 1 < img.planes {
      PlacedPlanes(img, Restride(canvas, lo, hi, skip, values), p, y, flat, c + 1);
    } else {
      LastPlane(|flat|, img.planes, img.Ppr(p));
    }
  }

  lemma LastPlane(length: nat, planes: nat, n: nat)
    requires planes > 0 && StrideCount(length, planes - 1, length, planes) == n
    ensures length >= n * planes
  {
    if n > 0 {
      CeilDivIs(length - (planes - 1), planes, n);
    }
  }

  /** Placing a row keeps the size of the array, or shrinks it: in the last pass, by a short line. */
  lemma PlacedRow(img: Image, canvas: seq<nat>, p: Pass, y: nat, flat: seq<nat>)
    requires img.Legal() && p.xstart < img.width && p.xstep > 0 && y < img.height && (p.xstep == 1 ==> p.xstart == 0)
    requires |canvas| == Size(img) && |flat| <= img.Ppr(p) * img.planes
    requires PutRow(img, canvas, p, y, flat).Ok?
    ensures var now := PutRow(img, canvas, p, y, flat).value;
            && (|flat| == img.Ppr(p) * img.planes ==> |now| == Size(img))
            && (|flat| < img.Ppr(p) * img.planes ==> p.xstep == 1 && |now| < Size(img))
  {
    hide PutPlanes;
    if p.xstep == 1 {
      CeilDivIs(img.width, 1, img.width);
      assert img.Ppr(p) * img.planes == img.Vpr();
      IndexBounds(img, 0, y, 0);
      MulDistrib(y, 1, img.Vpr());
      hide Size, Index;
      SpliceSize(canvas, y * img.Vpr(), y * img.Vpr() + img.Vpr(), flat);
    } else {
      hide Size;
      PlacedPlanes(img, canvas, p, y, flat, 0);
    }
  }

  lemma SpliceSize(canvas: seq<nat>, lo: nat, hi: nat, values: seq<nat>)
    requires lo <= hi <= |canvas|
    ensures |Splice(canvas, lo, hi, values)| == |canvas| - (hi - lo) + |values|
  {
  }

  // ----- The bytes a reader needs

  function RowsNeed(img: Image, p: Pass, y: nat): nat
    requires p.xstart < img.width && p.xstep > 0 && p.ystep > 0
    decreases if y < img.height then img.height - y else 0
  {
    if y >= img.height then 0 else 1 + RowSize(img, p) + RowsNeed(img, p, y + p.ystep)
  }

  function PassesNeed(img: Image, k: nat): nat
    requires k <= 7
    decreases 7 - k
  {
    if k == 7 then 0
    else
      var p := PassAt(k);
      (if p.xstart >= img.width then 0 else RowsNeed(img, p, p.ystart)) + PassesNeed(img, k + 1)
  }

  /** A row that was read had all its bytes, or it came from the end of the stream, in the last pass, and
      has shrunk the array. */
  lemma ReadRowSize(img: Image, raw: seq<Byte>, r: Reading, p: Pass, y: nat)
    requires img.Legal() && p.xstart < img.width && p.xstep > 0 && y < img.height && (p.xstep == 1 ==> p.xstart == 0)
    requires |r.canvas| == Size(img) && ReadRow(img, raw, r, p, y).Ok?
    ensures var next := ReadRow(img, raw, r, p, y).value;
            && next.offset == r.offset + 1 + RowSize(img, p)
            && if next.offset <= |raw| then |next.canvas| == Size(img) else p.xstep == 1 && |next.canvas| < Size(img)
  {
    hide *;
    RowFacts(img, p);
    ReadRowUnfolds(img, raw, r, p, y);
    var next := r.offset + 1 + RowSize(img, p);
    SliceLength(raw, r.offset + 1, RowSize(img, p));
    var line := Unfiltered(raw[r.offset], Slice(raw, r.offset + 1, next), r.recon, img.FilterUnit());
    SamplesOfLine(img.depth, line, img.Ppr(p), img.Ppr(p) * img.planes);
    PlacedRow(img, r.canvas, p, y, SerialToFlat(img.depth, line, img.Ppr(p)).samples);
  }

  lemma RowFacts(img: Image, p: Pass)
    requires img.Legal() && p.xstart < img.width && p.xstep > 0
    ensures IsDepth(img.depth) && (img.depth < 8 ==> img.Ppr(p) == img.Ppr(p) * img.planes)
    ensures RowSize(img, p) == ByteCount(img.Ppr(p) * img.planes, img.depth)
  {
  }

  lemma SliceLength(raw: seq<Byte>, lo: nat, n: nat)
    requires lo <= |raw|
    ensures |Slice(raw, lo, lo + n)| <= n && (|Slice(raw, lo, lo + n)| == n <==> lo + n <= |raw|)
  {
  }

  lemma {:induction false} ReadRowsSize(img: Image, raw: seq<Byte>, r: Reading, k: nat, y: nat)
    requires img.Legal() && k < 7 && PassAt(k).xstart < img.width && r.offset <= |raw|
    requires |r.canvas| == Size(img) && ReadRows(img, raw, r, PassAt(k), y).Ok?
    ensures var last := ReadRows(img, raw, r, PassAt(k), y).value;
            && last.offset == r.offset + RowsNeed(img, PassAt(k), y)
            && if last.offset <= |raw| then |last.canvas| == Size(img) else k == 6 && |last.canvas| < Size(img)
    decreases if y < img.height then img.height - y else 0
  {
    hide ReadRow, RowSize, Size;
    var p := PassAt(k);
    if y < img.height {
      ReadRowSize(img, raw, r, p, y);
      var next := ReadRow(img, raw, r, p, y).value;
      if next.offset <= |raw| {
        ReadRowsSize(img, raw, next, k, y + p.ystep);
      } else if y + p.ystep < img.height {
        ReadRowUnfolds(img, raw, next, p, y + p.ystep);
      }
    }
  }

  /** From a stream that is too short the reader makes no array of the image's size. */
  lemma {:induction false} ReadPassesSize(img: Image, raw: seq<Byte>, canvas: seq<nat>, offset: nat, k: nat)
    requires img.Legal() && k <= 7 && offset <= |raw| && |canvas| == Size(img)
    requires ReadPasses(img, raw, canvas, offset, k).Ok?
    ensures var now := ReadPasses(img, raw, canvas, offset, k).value;
            |now| <= Size(img) && (|now| == Size(img) ==> offset + PassesNeed(img, k) <= |raw|)
    decreases 7 - k
  {
    hide ReadRows, RowsNeed, Size;
    if k == 7 {
    } else if PassAt(k).xstart >= img.width {
      ReadPassesSize(img, raw, canvas, offset, k + 1);
    } else {
      var p := PassAt(k);
      var r := Reading(canvas, offset, []);
      ReadRowsSize(img, raw, r, k, p.ystart);
      var last := ReadRows(img, raw, r, p, p.ystart).value;
      if last.offset <= |raw| { ReadPassesSize(img, raw, last.canvas, last.offset, k + 1); }
    }
  }

  // ----- The bytes a writer makes

  lemma {:induction false} PassStreamLength(img: Image, pixels: seq<nat>, choice: Choice, k: nat, y: nat,
                                            prev: seq<Byte>)
    requires Holds(img, pixels) && FiveTypes(choice) && k < 7 && PassAt(k).xstart < img.width
    ensures var missing := if prev == [] && y < img.height && choice(k, y) == 2 then 1 else 0;
            |PassStream(img, pixels, choice, k, y, prev)| + missing == RowsNeed(img, PassAt(k), y)
    decreases if y < img.height then img.height - y else 0
  {
    hide ReducedRow, Packed, Filtered, ByteCount, Size;
    var p := PassAt(k);
    if y < img.height {
      ReducedInRange(img, pixels, p, y);
      var line := PackedReduced(img, pixels, p, y);
      PackedLength(img.depth, ReducedRow(img, pixels, p, y));
      LineNotEmpty(img, pixels, p, y);
      PassStreamLength(img, pixels, choice, k, y + p.ystep, line);
    }
  }

  /** Every first row filtered with "up" costs a byte. */
  lemma {:induction false} InterlacedStreamLength(img: Image, pixels: seq<nat>, choice: Choice, k: nat)
    requires Holds(img, pixels) && FiveTypes(choice) && k <= 7
    ensures |InterlacedStream(img, pixels, choice, k)| <= PassesNeed(img, k)
    ensures forall m :: k <= m < 7 && Visited(img, PassAt(m)) && choice(m, PassAt(m).ystart) == 2 ==>
              |InterlacedStream(img, pixels, choice, k)| < PassesNeed(img, k)
    decreases 7 - k
  {
    hide PassStream, RowsNeed, Size;
    if k < 7 {
      InterlacedStreamLength(img, pixels, choice, k + 1);
      if PassAt(k).xstart < img.width { PassStreamLength(img, pixels, choice, k, PassAt(k).ystart, []); }
    }
  }

  /** The exact condition: an interlaced stream, filtered in any way, reads back as the image if and only
      if no pass has "up" on its first row. Otherwise reading fails or the array is too short. */
  lemma FirstUpIsUnreadable(img: Image, pixels: seq<nat>, choice: Choice)
    requires Holds(img, pixels) && FiveTypes(choice)
    ensures Deinterlaced(img, InterlacedStream(img, pixels, choice, 0)) == Ok(pixels) <==> NoFirstUp(img, choice)
    ensures var r := Deinterlaced(img, InterlacedStream(img, pixels, choice, 0));
            !NoFirstUp(img, choice) ==> r.Fail? || |r.value| < |pixels|
  {
    hide InterlacedStream, ReadPasses, PassesNeed, Size;
    var raw := InterlacedStream(img, pixels, choice, 0);
    if NoFirstUp(img, choice) {
      InterlacedRoundTrip(img, pixels, choice);
    } else {
      InterlacedStreamLength(img, pixels, choice, 0);
      if Deinterlaced(img, raw).Ok? { ReadPassesSize(img, raw, Zeros(Size(img)), 0, 0); }
    }
  }
}
