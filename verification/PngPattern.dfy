/** The interlaced order straight from the eight-by-eight pattern of the standard (section 8.2 of W3C
    REC-PNG-20031110): for each pass the rows of the pixels that the pattern gives to it. */
module PngPattern {
  import opened Arithmetic
  import opened PngInterlace

  const PATTERN: seq<seq<nat>> :=
    [[1, 6, 4, 6, 2, 6, 4, 6],
     [7, 7, 7, 7, 7, 7, 7, 7],
     [5, 6, 5, 6, 5, 6, 5, 6],
     [7, 7, 7, 7, 7, 7, 7, 7],
     [3, 6, 4, 6, 3, 6, 4, 6],
     [7, 7, 7, 7, 7, 7, 7, 7],
     [5, 6, 5, 6, 5, 6, 5, 6],
     [7, 7, 7, 7, 7, 7, 7, 7]]

  /** The pass of a pixel, counted from 1. */
  function PassNumber(x: nat, y: nat): nat {
    PATTERN[y % 8][x % 8]
  }

  lemma PatternTable(r: nat, s: nat)
    requires r < 8 && s < 8
    ensures PATTERN[s][r] == PassOf(r, s) + 1
  {
  }

  /** The pass table of the code is the pattern. */
  lemma PassesArePattern(x: nat, y: nat, k: nat)
    requires k < 7
    ensures InPass(PassAt(k), x, y) <==> PassNumber(x, y) == k + 1
  {
    hide PATTERN, PassAt;
    PassesPartition(x, y, k);
    PassOfLowBits(x, y);
    PatternTable(x % 8, y % 8);
  }

  /** The values of a pixel. */
  function Pixel(img: Image, pixels: seq<nat>, x: nat, y: nat): (values: seq<nat>)
    requires |pixels| == Size(img) && x < img.width && y < img.height && img.planes > 0
    ensures |values| == img.planes
  {
    var at := (y * img.width + x) * img.planes;
    PixelInside(img, x, y, at);
    pixels[at..at + img.planes]
  }

  lemma PixelInside(img: Image, x: nat, y: nat, at: nat)
    requires x < img.width && y < img.height && img.planes > 0 && at == (y * img.width + x) * img.planes
    ensures at + img.planes <= Size(img)
  {
    hide Size;
    IndexBounds(img, x, y, img.planes - 1);
  }

  /** The pixels of pass `k` in row `y`, from column `x` on. */
  function PixelsFrom(img: Image, pixels: seq<nat>, k: nat, y: nat, x: nat): seq<nat>
    requires |pixels| == Size(img) && y < img.height && img.planes > 0
    decreases img.width - x
  {
    if x >= img.width then []
    else
      (if PassNumber(x, y) == k then Pixel(img, pixels, x, y) else []) + PixelsFrom(img, pixels, k, y, x + 1)
  }

  /** The rows of pass `k` that have pixels, from row `y` on. */
  function RowsFrom(img: Image, pixels: seq<nat>, k: nat, y: nat): seq<seq<nat>>
    requires |pixels| == Size(img) && img.planes > 0
    decreases img.height - y
  {
    if y >= img.height then []
    else
      var row := PixelsFrom(img, pixels, k, y, 0);
      (if row == [] then [] else [row]) + RowsFrom(img, pixels, k, y + 1)
  }

  /** All rows of the passes from `k` to 7. */
  function PassesFrom(img: Image, pixels: seq<nat>, k: nat): seq<seq<nat>>
    requires |pixels| == Size(img) && img.planes > 0 && k <= 8
    decreases 8 - k
  {
    if k == 8 then [] else RowsFrom(img, pixels, k, 0) + PassesFrom(img, pixels, k + 1)
  }

  // ----- A row

  predicate IsColumn(p: Pass, x: nat)
    requires p.xstep > 0
  {
    x >= p.xstart && (x - p.xstart) % p.xstep == 0
  }

  predicate IsRow(p: Pass, y: nat)
    requires p.ystep > 0
  {
    y >= p.ystart && (y - p.ystart) % p.ystep == 0
  }

  /** Columns of a pass to the left of `x`. */
  function ColumnsBefore(p: Pass, x: nat): nat
    requires p.xstep > 0
  {
    if x <= p.xstart then 0 else CeilDiv(x - p.xstart, p.xstep)
  }

  lemma NextColumn(p: Pass, x: nat)
    requires p.xstep > 0
    ensures ColumnsBefore(p, x + 1) == ColumnsBefore(p, x) + if IsColumn(p, x) then 1 else 0
    ensures IsColumn(p, x) ==> x == p.xstart + ColumnsBefore(p, x) * p.xstep
  {
    if x >= p.xstart {
      var d, s := x - p.xstart, p.xstep;
      Division(d, s);
      var q, r := d / s, d % s;
      CeilDivIs(d + 1, s, q + 1);
      MulDistrib(q, 1, s);
      if r == 0 { CeilDivIs(d, s, q); } else { CeilDivIs(d, s, q + 1); }
    }
  }

  /** What the pattern selects in a row of the pass is the reduced row. */
  lemma {:induction false} PixelsAreReduced(img: Image, pixels: seq<nat>, k: nat, y: nat, x: nat)
    requires img.Legal() && |pixels| == Size(img) && k < 7 && PassAt(k).xstart < img.width
    requires y < img.height && IsRow(PassAt(k), y) && x <= img.width
    ensures var p := PassAt(k);
            var row, n := ReducedRow(img, pixels, p, y), ColumnsBefore(p, x) * img.planes;
            n <= |row| && PixelsFrom(img, pixels, k + 1, y, x) == row[n..]
    decreases img.width - x
  {
    hide ReducedRow, PassAt, PassNumber, ColumnsBefore, Size, Image.Ppr, Pixel, IsColumn, IsRow;
    var p := PassAt(k);
    var row := ReducedRow(img, pixels, p, y);
    if x == img.width {
      AllColumns(img, p);
    } else {
      PixelsAreReduced(img, pixels, k, y, x + 1);
      NextColumn(p, x);
      SelectedByPattern(x, y, k);
      var n := ColumnsBefore(p, x) * img.planes;
      if IsColumn(p, x) {
        MulDistrib(ColumnsBefore(p, x), 1, img.planes);
        PixelOfRow(img, pixels, p, y, x, ColumnsBefore(p, x), n);
        OnePixelMore(row, n, img.planes, Pixel(img, pixels, x, y));
      }
    }
  }

  lemma SelectedByPattern(x: nat, y: nat, k: nat)
    requires k < 7 && IsRow(PassAt(k), y)
    ensures PassNumber(x, y) == k + 1 <==> IsColumn(PassAt(k), x)
  {
    hide PassNumber, PassAt;
    PassesArePattern(x, y, k);
  }

  lemma OnePixelMore(row: seq<nat>, n: nat, planes: nat, values: seq<nat>)
    requires n + planes <= |row| && row[n..n + planes] == values
    ensures row[n..] == values + row[n + planes..]
  {
  }

  lemma AllColumns(img: Image, p: Pass)
    requires p.xstart < img.width && p.xstep > 0
    ensures ColumnsBefore(p, img.width) == img.Ppr(p)
  {
  }

  /** The j-th pixel of a reduced row, which is in column x. */
  lemma PixelOfRow(img: Image, pixels: seq<nat>, p: Pass, y: nat, x: nat, j: nat, n: nat)
    requires img.Legal() && |pixels| == Size(img) && p.xstart < img.width && p.xstep > 0 && y < img.height
    requires x == p.xstart + j * p.xstep < img.width && n == j * img.planes
    ensures var row := ReducedRow(img, pixels, p, y);
            n + img.planes <= |row| && row[n..n + img.planes] == Pixel(img, pixels, x, y)
  {
    hide ReducedRow, Size, Image.Ppr, Pixel;
    SlotCount(img, p, j);
    var a, b := ReducedRow(img, pixels, p, y)[n..n + img.planes], Pixel(img, pixels, x, y);
    forall i | 0 <= i < |a|
      ensures a[i] == b[i]
    {
      PlaneOfPixel(img, pixels, p, y, x, j, i);
    }
  }

  lemma PlaneOfPixel(img: Image, pixels: seq<nat>, p: Pass, y: nat, x: nat, j: nat, c: nat)
    requires img.Legal() && |pixels| == Size(img) && p.xstart < img.width && p.xstep > 0 && y < img.height
    requires x == p.xstart + j * p.xstep < img.width && c < img.planes
    ensures var row := ReducedRow(img, pixels, p, y);
            j * img.planes + c < |row| && row[j * img.planes + c] == Pixel(img, pixels, x, y)[c]
  {
    hide ReducedRow, Size, Image.Ppr;
    SlotCount(img, p, j);
    SlotIsPosition(img, pixels, p, y, c, j);
    IndexBounds(img, x, y, img.planes - 1);
  }

  lemma SlotCount(img: Image, p: Pass, j: nat)
    requires p.xstart < img.width && p.xstep > 0 && p.xstart + j * p.xstep < img.width
    ensures j < img.Ppr(p) && j * img.planes + img.planes <= img.Ppr(p) * img.planes
  {
    CeilDivIs(img.width - p.xstart, p.xstep, img.Ppr(p));
    if img.Ppr(p) <= j { MulMono(img.Ppr(p), j, p.xstep); }
    MulMono(j + 1, img.Ppr(p), img.planes);
    MulDistrib(j, 1, img.planes);
  }

  // ----- The rows of a pass

  lemma {:induction false} NoPixels(img: Image, pixels: seq<nat>, k: nat, y: nat, x: nat)
    requires |pixels| == Size(img) && y < img.height && img.planes > 0 && k < 7
    requires !IsRow(PassAt(k), y) || PassAt(k).xstart >= img.width
    ensures PixelsFrom(img, pixels, k + 1, y, x) == []
    decreases img.width - x
  {
    hide PassNumber, Size, PassAt;
    if x < img.width {
      PassesArePattern(x, y, k);
      NoPixels(img, pixels, k, y, x + 1);
    }
  }

  /** The first row of a pass from `y` on. */
  function NextRow(p: Pass, y: nat): nat
    requires p.ystep > 0
  {
    if y <= p.ystart then p.ystart else p.ystart + CeilDiv(y - p.ystart, p.ystep) * p.ystep
  }

  lemma NextRowIs(p: Pass, y: nat)
    requires p.ystep > 0
    ensures y <= NextRow(p, y)
    ensures if IsRow(p, y) then NextRow(p, y) == y && NextRow(p, y + 1) == y + p.ystep
            else NextRow(p, y) == NextRow(p, y + 1)
  {
    if y >= p.ystart {
      var d, s := y - p.ystart, p.ystep;
      Division(d, s);
      var q, r := d / s, d % s;
      CeilDivIs(d + 1, s, q + 1);
      MulDistrib(q, 1, s);
      if r == 0 { CeilDivIs(d, s, q); } else { CeilDivIs(d, s, q + 1); }
    }
  }

  lemma {:induction false} RowsArePass(img: Image, pixels: seq<nat>, k: nat, y: nat)
    requires img.Legal() && |pixels| == Size(img) && k < 7 && PassAt(k).xstart < img.width
    ensures RowsFrom(img, pixels, k + 1, y) == RowsOfPass(img, pixels, PassAt(k), NextRow(PassAt(k), y))
    decreases img.height - y
  {
    hide ReducedRow, PixelsFrom, PassAt, Size, NextRow, IsRow;
    var p := PassAt(k);
    NextRowIs(p, y);
    if y < img.height {
      RowsArePass(img, pixels, k, y + 1);
      if IsRow(p, y) {
        PixelsAreReduced(img, pixels, k, y, 0);
        NoColumnsBefore(p);
        RowNotEmpty(img, pixels, p, y);
        var row := ReducedRow(img, pixels, p, y);
        assert row[0..] == row;
      } else {
        NoPixels(img, pixels, k, y, 0);
        assert [] + RowsFrom(img, pixels, k + 1, y + 1) == RowsFrom(img, pixels, k + 1, y + 1);
      }
    }
  }

  lemma NoColumnsBefore(p: Pass)
    requires p.xstep > 0
    ensures ColumnsBefore(p, 0) == 0
  {
  }

  lemma RowNotEmpty(img: Image, pixels: seq<nat>, p: Pass, y: nat)
    requires img.Legal() && |pixels| == Size(img) && p.xstart < img.width && p.xstep > 0 && y < img.height
    ensures ReducedRow(img, pixels, p, y) != []
  {
    hide ReducedRow, Size;
    SlotCount(img, p, 0);
  }

  lemma {:induction false} NoRows(img: Image, pixels: seq<nat>, k: nat, y: nat)
    requires |pixels| == Size(img) && img.planes > 0 && k < 7 && PassAt(k).xstart >= img.width
    ensures RowsFrom(img, pixels, k + 1, y) == []
    decreases img.height - y
  {
    hide PixelsFrom, PassAt, Size;
    if y < img.height {
      NoPixels(img, pixels, k, y, 0);
      NoRows(img, pixels, k, y + 1);
    }
  }

  /** The reduced rows of the writer are those of the pattern, in the order of the pattern. */
  lemma {:induction false} InterlacedRowsArePattern(img: Image, pixels: seq<nat>, k: nat)
    requires img.Legal() && |pixels| == Size(img) && k <= 7
    ensures InterlacedRows(img, pixels, k) == PassesFrom(img, pixels, k + 1)
    decreases 7 - k
  {
    hide RowsFrom, RowsOfPass, PassAt, Size;
    if k < 7 {
      InterlacedRowsArePattern(img, pixels, k + 1);
      if PassAt(k).xstart < img.width {
        RowsArePass(img, pixels, k, 0);
        FirstRow(PassAt(k));
      } else {
        NoRows(img, pixels, k, 0);
      }
    }
  }

  lemma FirstRow(p: Pass)
    requires p.ystep > 0
    ensures NextRow(p, 0) == p.ystart
  {
  }
}
