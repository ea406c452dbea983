/** Adam7 interlacing: the writer's reduced rows, the reader's deinterlacing of a filtered stream, and
    why together they are the identity on images of every size. */
module PngInterlace {
  import opened Arithmetic
  import opened PngFilter
  import opened PngPacking
  import opened PySlices
  import PngStraight

  datatype Pass = Pass(xstart: nat, ystart: nat, xstep: nat, ystep: nat)

  const ADAM7: seq<Pass> :=
    [Pass(0, 0, 8, 8), Pass(4, 0, 8, 8), Pass(0, 4, 4, 8), Pass(2, 0, 4, 4), Pass(0, 2, 2, 4), Pass(1, 0, 2, 2),
     Pass(0, 1, 1, 2)]

  /** A row of the table. Only the last pass takes whole rows. */
  function PassAt(k: nat): (p: Pass)
    requires k < 7
    ensures p.xstep > 0 && p.ystep > 0 && (p.xstep == 1 ==> k == 6 && p.xstart == 0)
  {
    ADAM7[k]
  }

  /** Width, height, values per pixel and bits per value. */
  datatype Image = Image(width: nat, height: nat, planes: nat, depth: nat) {

    /** The combinations a header may announce, with a size of at least one pixel. */
    predicate Legal() {
      width > 0 && height > 0 && 1 <= planes <= 4 && IsDepth(depth) && (depth < 8 ==> planes == 1)
    }

    /** Values per row. */
    function Vpr(): nat {
      width * planes
    }

    function FilterUnit(): (fu: nat)
      ensures fu > 0
    {
      if depth * planes < 8 then 1 else depth * planes / 8
    }

    /** Pixels per row of a pass. */
    function Ppr(p: Pass): nat
      requires p.xstart < width && p.xstep > 0
    {
      CeilDiv(width - p.xstart, p.xstep)
    }
  }

  /** `unit` is the number of bytes of a pixel, or 1 if a pixel has fewer bits than a byte (section 9.2 of
      W3C REC-PNG-20031110). */
  predicate IsPixelSize(img: Image, unit: nat) {
    if img.depth * img.planes < 8 then unit == 1 else 8 * unit == img.depth * img.planes
  }

  /** In an image of a legal depth pixels of at least a byte fill whole bytes. */
  lemma FilterUnitIsPixelSize(img: Image, unit: nat)
    requires img.Legal()
    ensures IsPixelSize(img, unit) <==> unit == img.FilterUnit()
  {
    assert img.depth >= 8 ==> img.depth * img.planes % 8 == 0;
  }

  // ----- Which pass a pixel belongs to

  predicate InPass(p: Pass, x: nat, y: nat)
    requires p.xstep > 0 && p.ystep > 0
  {
    && x >= p.xstart && (x - p.xstart) % p.xstep == 0
    && y >= p.ystart && (y - p.ystart) % p.ystep == 0
  }

  /** The pass of a pixel, from the lowest set bits of its coordinates. */
  function PassOf(x: nat, y: nat): (k: nat)
    ensures k < 7
  {
    if y % 2 == 1 then 6
    else if x % 2 == 1 then 5
    else if y % 4 == 2 then 4
    else if x % 4 == 2 then 3
    else if y % 8 == 4 then 2
    else if x % 8 == 4 then 1
    else 0
  }

  lemma OffsetModulo(x: nat, start: nat, step: nat)
    requires start < step
    ensures x >= start && (x - start) % step == 0 <==> x % step == start
  {
    if x >= start && (x - start) % step == 0 {
      QuotientIs(x, step, (x - start) / step, start);
    }
    if x % step == start {
      MulMono(0, x / step, step);
      QuotientIs(x - start, step, x / step, 0);
    }
  }

  lemma LowBits(x: nat)
    ensures x % 8 % 4 == x % 4 && x % 8 % 2 == x % 2 && x % 8 < 8
  {
    var q, r := x / 8, x % 8;
    QuotientIs(x, 4, 2 * q + r / 4, r % 4);
    QuotientIs(x, 2, 4 * q + r / 2, r % 2);
  }

  /** The pass table on the three low bits of the coordinates. */
  lemma PassTable(r: nat, s: nat, k: nat)
    requires r < 8 && s < 8 && k < 7
    ensures r % PassAt(k).xstep == PassAt(k).xstart && s % PassAt(k).ystep == PassAt(k).ystart <==> k == PassOf(r, s)
  {
  }

  /** The seven passes partition the plane: pass k visits a pixel exactly if k is its pass. */
  lemma PassesPartition(x: nat, y: nat, k: nat)
    requires k < 7
    ensures InPass(PassAt(k), x, y) <==> k == PassOf(x, y)
  {
    var p := PassAt(k);
    OffsetModulo(x, p.xstart, p.xstep);
    OffsetModulo(y, p.ystart, p.ystep);
    PassTable(x % 8, y % 8, k);
    PassOfLowBits(x, y);
    StepDivides(x, p.xstep);
    StepDivides(y, p.ystep);
    hide PassOf;
  }

  lemma PassOfLowBits(x: nat, y: nat)
    ensures PassOf(x, y) == PassOf(x % 8, y % 8)
  {
    LowBits(x);
    LowBits(y);
  }

  lemma StepDivides(x: nat, step: nat)
    requires step in {1, 2, 4, 8}
    ensures x % 8 % step == x % step
  {
    LowBits(x);
  }

  // ----- Positions

  /** Position of plane `c` of pixel (x, y) in the flat array. */
  function Index(img: Image, x: nat, y: nat, c: nat): nat {
    (y * img.width + x) * img.planes + c
  }

  lemma IndexBounds(img: Image, x: nat, y: nat, c: nat)
    requires x < img.width && y < img.height && c < img.planes
    ensures Index(img, x, y, c) < Size(img)
    ensures y * img.Vpr() <= Index(img, x, y, c) < EndOffset(img, y) <= Size(img)
  {
    var w, n := img.width, img.planes;
    IndexIsOffset(img, x, y, c);
    MulMono(x + 1, w, n);
    MulDistrib(x, 1, n);
    MulDistrib(y, 1, w * n);
    MulMono(y + 1, img.height, w * n);
  }

  lemma IndexIsOffset(img: Image, x: nat, y: nat, c: nat)
    ensures Index(img, x, y, c) == y * img.Vpr() + x * img.planes + c
  {
    MulDistrib(y * img.width, x, img.planes);
    MulAssoc(y, img.width, img.planes);
  }

  /** The plane of a position, its pixel, and the place of that pixel. */
  function PlaneAt(img: Image, i: nat): (c: nat)
    requires img.planes > 0
    ensures c < img.planes
  {
    i % img.planes
  }

  function PixelAt(img: Image, i: nat): nat
    requires img.planes > 0
  {
    i / img.planes
  }

  function ColumnAt(img: Image, i: nat): (x: nat)
    requires img.planes > 0 && img.width > 0
    ensures x < img.width
  {
    PixelAt(img, i) % img.width
  }

  function RowAt(img: Image, i: nat): nat
    requires img.planes > 0 && img.width > 0
  {
    PixelAt(img, i) / img.width
  }

  /** Every position is the position of some plane of some pixel. */
  lemma IndexSurjective(img: Image, i: nat)
    requires img.Legal() && i < Size(img)
    ensures RowAt(img, i) < img.height && i == Index(img, ColumnAt(img, i), RowAt(img, i), PlaneAt(img, i))
  {
    Division(i, img.planes);
    assert i == PixelAt(img, i) * img.planes + PlaneAt(img, i);
    PixelInside(img, i);
    hide PixelAt, PlaneAt;
    Division(PixelAt(img, i), img.width);
    assert PixelAt(img, i) == RowAt(img, i) * img.width + ColumnAt(img, i);
    QuotientBelow(PixelAt(img, i), img.width, img.height);
  }

  lemma PixelInside(img: Image, i: nat)
    requires img.Legal() && i < Size(img)
    ensures PixelAt(img, i) < img.width * img.height
  {
    MulAssoc(img.height, img.width, img.planes);
    QuotientBelow(i, img.planes, img.height * img.width);
  }

  /** First position of row `y` of a pass, end of image row `y`, and distance between the positions of
      one plane of neighbouring pixels of the pass. */
  function Offset(img: Image, p: Pass, y: nat): nat {
    y * img.Vpr() + p.xstart * img.planes
  }

  function EndOffset(img: Image, y: nat): nat {
    (y + 1) * img.Vpr()
  }

  function Skip(img: Image, p: Pass): nat {
    img.planes * p.xstep
  }

  function Size(img: Image): nat {
    img.Vpr() * img.height
  }

  /** The j-th pixel of a reduced row, plane c: its place in the row. */
  function Slot(img: Image, j: nat, c: nat): nat {
    j * img.planes + c
  }

  // ----- Reduced rows

  /** Row `y` of a pass, as a selection of the flat array. */
  function ReducedRow(img: Image, pixels: seq<nat>, p: Pass, y: nat): (row: seq<nat>)
    requires img.Legal() && |pixels| == Size(img)
    requires p.xstart < img.width && p.xstep > 0 && y < img.height
    ensures |row| == img.Ppr(p) * img.planes
  {
    seq(img.Ppr(p) * img.planes, i requires 0 <= i < img.Ppr(p) * img.planes =>
      SourceInImage(img, p, y, i);
      pixels[Source(img, p, y, i)])
  }

  /** The array position that place i of a reduced row is taken from. */
  function Source(img: Image, p: Pass, y: nat, i: nat): nat
    requires img.planes > 0
  {
    Index(img, p.xstart + i / img.planes * p.xstep, y, i % img.planes)
  }

  lemma SourceInImage(img: Image, p: Pass, y: nat, i: nat)
    requires img.Legal() && p.xstart < img.width && p.xstep > 0 && y < img.height && i < img.Ppr(p) * img.planes
    ensures Source(img, p, y, i) < Size(img)
  {
    hide Size, Index, Image.Ppr, Image.Vpr, EndOffset;
    SlotInImage(img, p, i);
    IndexBounds(img, p.xstart + i / img.planes * p.xstep, y, i % img.planes);
  }

  lemma SlotInImage(img: Image, p: Pass, i: nat)
    requires img.Legal() && p.xstart < img.width && p.xstep > 0 && i < img.Ppr(p) * img.planes
    ensures p.xstart + i / img.planes * p.xstep < img.width
  {
    var j := i / img.planes;
    if j >= img.Ppr(p) { MulMono(img.Ppr(p), j, img.planes); }
    CeilDivIs(img.width - p.xstart, p.xstep, img.Ppr(p));
    MulMono(j + 1, img.Ppr(p), p.xstep);
    MulDistrib(j, 1, p.xstep);
  }

  /** Both strided slices of one plane select one value per pixel of the reduced row, so the slice
      assignments are length-correct. */
  lemma StridesMatch(img: Image, p: Pass, y: nat, c: nat)
    requires img.Legal() && p.xstart < img.width && p.xstep > 0 && y < img.height && c < img.planes
    ensures EndOffset(img, y) <= Size(img) && Skip(img, p) > 0
    ensures StrideCount(Size(img), Offset(img, p, y) + c, EndOffset(img, y), Skip(img, p)) == img.Ppr(p)
    ensures StrideCount(img.Ppr(p) * img.planes, c, img.Ppr(p) * img.planes, img.planes) == img.Ppr(p)
  {
    var n, d, s, ppr := img.planes, img.width - p.xstart, p.xstep, img.Ppr(p);
    IndexBounds(img, p.xstart, y, c);
    IndexIsOffset(img, p.xstart, y, c);
    CeilDivIs(d, s, ppr);
    MulDistrib(p.xstart, d, n);
    MulDistrib(y, 1, img.Vpr());
    assert EndOffset(img, y) - (Offset(img, p, y) + c) == d * n - c;
    PlaneCount(d, s, n, c, ppr);
    if ppr > 0 {
      MulMono(1, ppr, n);
      CeilDivIs(ppr * n - c, n, ppr);
    }
  }

  lemma PlaneCount(d: nat, s: nat, n: nat, c: nat, ppr: nat)
    requires d > 0 && s > 0 && c < n && ppr * s >= d && ppr * s < d + s
    ensures n * s > 0 && d * n > c && CeilDiv(d * n - c, n * s) == ppr && ppr > 0
  {
    MulMono(1, n, s);
    MulMono(1, d, n);
    var m := ppr * s;
    assert ppr * (n * s) == m * n by {
      MulAssoc(ppr, n, s);
      MulAssoc(ppr, s, n);
    }
    MulMono(d, m, n);
    MulMono(m + 1, d + s, n);
    MulDistrib(m, 1, n);
    MulDistrib(d, s, n);
    CeilDivIs(d * n - c, n * s, ppr);
  }

  // ----- The writer

  /** Reduced rows of one pass, from row `y` on. */
  function RowsOfPass(img: Image, pixels: seq<nat>, p: Pass, y: nat): seq<seq<nat>>
    requires img.Legal() && |pixels| == Size(img)
    requires p.xstart < img.width && p.xstep > 0 && p.ystep > 0
    decreases if y < img.height then img.height - y else 0
  {
    if y >= img.height then [] else [ReducedRow(img, pixels, p, y)] + RowsOfPass(img, pixels, p, y + p.ystep)
  }

  /** Reduced rows of the passes from `k` on. A pass that starts right of the image has none. */
  function InterlacedRows(img: Image, pixels: seq<nat>, k: nat): seq<seq<nat>>
    requires img.Legal() && |pixels| == Size(img) && k <= 7
    decreases 7 - k
  {
    if k == 7 then []
    else (if PassAt(k).xstart >= img.width then [] else RowsOfPass(img, pixels, PassAt(k), PassAt(k).ystart))
         + InterlacedRows(img, pixels, k + 1)
  }

  /** Only planes below `c` have their final value. */
  predicate PlanesDone(row: seq<nat>, goal: seq<nat>, planes: nat, c: nat)
    requires planes > 0
  {
    |row| == |goal| && forall i :: 0 <= i < |row| && i % planes < c ==> row[i] == goal[i]
  }

  /** The j-th value of plane c: its slot in the reduced row, its position in the image. */
  lemma SlotIsPosition(img: Image, pixels: seq<nat>, p: Pass, y: nat, c: nat, j: nat)
    requires img.Legal() && |pixels| == Size(img)
    requires p.xstart < img.width && p.xstep > 0 && y < img.height && c < img.planes && j < img.Ppr(p)
    ensures Slot(img, j, c) < |ReducedRow(img, pixels, p, y)|
    ensures p.xstart + j * p.xstep < img.width
    ensures Index(img, p.xstart + j * p.xstep, y, c) < |pixels|
    ensures ReducedRow(img, pixels, p, y)[Slot(img, j, c)] == pixels[Index(img, p.xstart + j * p.xstep, y, c)]
  {
    var n := img.planes;
    QuotientIs(j * n + c, n, j, c);
    MulMono(j + 1, img.Ppr(p), n);
    MulDistrib(j, 1, n);
    SlotInImage(img, p, j * n + c);
    IndexBounds(img, p.xstart + j * p.xstep, y, c);
  }

  lemma StridePosition(img: Image, p: Pass, y: nat, c: nat, j: nat)
    ensures Offset(img, p, y) + c + j * Skip(img, p) == Index(img, p.xstart + j * p.xstep, y, c)
  {
    var n := img.planes;
    IndexIsOffset(img, p.xstart + j * p.xstep, y, c);
    MulDistrib(p.xstart, j * p.xstep, n);
    MulAssoc(j, p.xstep, n);
  }

  /** Assigning plane c of a row from values that are plane c of the goal. */
  lemma PlaneAssigned(was: seq<nat>, goal: seq<nat>, n: nat, c: nat, values: seq<nat>)
    requires c < n && PlanesDone(was, goal, n, c) && |values| == StrideCount(|was|, c, |was|, n)
    requires forall j :: 0 <= j < |values| ==> j * n + c < |goal| && values[j] == goal[j * n + c]
    ensures PlanesDone(Restride(was, c, |was|, n, values), goal, n, c + 1)
  {
    var now := Restride(was, c, |was|, n, values);
    forall i | 0 <= i < |was| && i % n < c + 1
      ensures now[i] == goal[i]
    {
      OffsetModulo(i, c, n);
      if i % n == c {
        QuotientIs(i - c, n, i / n, 0);
        SelectedCount(|was|, c, |was|, n, i);
      }
    }
  }

  /** One row of array_scanlines_interlace: a row of the right length, its planes assigned in turn. */
  method BuildReducedRow(img: Image, pixels: seq<nat>, p: Pass, y: nat) returns (row: seq<nat>)
    requires img.Legal() && |pixels| == Size(img)
    requires p.xstart < img.width && p.xstep > 0 && y < img.height
    ensures row == ReducedRow(img, pixels, p, y)
  {
    hide ReducedRow, Index, Offset, EndOffset, Skip, Size, Restride, PlanesDone;
    var planes := img.planes;
    ghost var goal := ReducedRow(img, pixels, p, y);
    var rowLen := img.Ppr(p) * planes;
    RowFits(img, p);
    row := Slice(pixels, 0, rowLen);
    NothingDone(row, goal, planes);
    var offset, endOffset, skip := Offset(img, p, y), EndOffset(img, y), Skip(img, p);
    for c := 0 to planes
      invariant |row| == rowLen && PlanesDone(row, goal, planes, c)
    {
      StridesMatch(img, p, y, c);
      var values := Stride(pixels, offset + c, endOffset, skip);
      forall j | 0 <= j < |values|
        ensures j * planes + c < |goal| && values[j] == goal[j * planes + c]
      {
        SlotIsPosition(img, pixels, p, y, c, j);
        StridePosition(img, p, y, c, j);
      }
      PlaneAssigned(row, goal, planes, c, values);
      row := Restride(row, c, |row|, planes, values);
    }
    AllDone(row, goal, planes);
  }

  lemma NothingDone(row: seq<nat>, goal: seq<nat>, planes: nat)
    requires planes > 0 && |row| == |goal|
    ensures PlanesDone(row, goal, planes, 0)
  {
  }

  lemma AllDone(row: seq<nat>, goal: seq<nat>, planes: nat)
    requires planes > 0 && PlanesDone(row, goal, planes, planes)
    ensures row == goal
  {
  }

  lemma RowFits(img: Image, p: Pass)
    requires img.Legal() && p.xstart < img.width && p.xstep > 0
    ensures img.Ppr(p) * img.planes <= Size(img)
  {
    CeilDivIs(img.width - p.xstart, p.xstep, img.Ppr(p));
    if img.Ppr(p) > img.width {
      MulMono(img.width + 1, img.Ppr(p), p.xstep);
      MulMono(1, p.xstep, img.width + 1);
      MulDistrib(img.width, 1, p.xstep);
      assert (img.width + 1) * p.xstep == img.width * p.xstep + p.xstep;
      MulMono(1, p.xstep, img.width);
    }
    MulMono(img.Ppr(p), img.width, img.planes);
    MulMono(1, img.height, img.Vpr());
  }

  /** array_scanlines_interlace, with the rows it yields collected. */
  method ArrayScanlinesInterlace(img: Image, pixels: seq<nat>) returns (rows: seq<seq<nat>>)
    requires img.Legal() && |pixels| == Size(img)
    ensures rows == InterlacedRows(img, pixels, 0)
  {
    hide InterlacedRows, ReducedRow, RowsOfPass;
    rows := [];
    for k := 0 to 7
      invariant rows + InterlacedRows(img, pixels, k) == InterlacedRows(img, pixels, 0)
    {
      NextPass(img, pixels, k);
      var p := PassAt(k);
      ghost var later: seq<seq<nat>> := InterlacedRows(img, pixels, k + 1);
      if p.xstart >= img.width {
        assert [] + later == later;
        continue;
      }
      ghost var before, y0 := rows, p.ystart;
      var y := p.ystart;
      while y < img.height
        invariant rows + RowsOfPass(img, pixels, p, y) == before + RowsOfPass(img, pixels, p, y0)
        decreases img.height - y
      {
        RowsOfPassCons(img, pixels, p, y);
        var row;
        if p.xstep == 1 {
          WholeRow(img, pixels, p, y);
          row := Slice(pixels, y * img.Vpr(), y * img.Vpr() + img.Vpr());
        } else {
          row := BuildReducedRow(img, pixels, p, y);
        }
        rows := rows + [row];
        y := y + p.ystep;
      }
      NoMoreRows(img, pixels, p, y);
      assert rows + [] == rows;
      assert before + RowsOfPass(img, pixels, p, y0) + later == before + (RowsOfPass(img, pixels, p, y0) + later);
    }
    assert rows + [] == rows && InterlacedRows(img, pixels, 7) == [] by { NoMorePasses(img, pixels); }
  }

  lemma NextPass(img: Image, pixels: seq<nat>, k: nat)
    requires img.Legal() && |pixels| == Size(img) && k < 7
    ensures var p := PassAt(k);
            InterlacedRows(img, pixels, k) ==
            (if p.xstart >= img.width then [] else RowsOfPass(img, pixels, p, p.ystart))
                + InterlacedRows(img, pixels, k + 1)
  {
  }

  lemma NoMorePasses(img: Image, pixels: seq<nat>)
    requires img.Legal() && |pixels| == Size(img)
    ensures InterlacedRows(img, pixels, 7) == []
  {
  }

  lemma RowsOfPassCons(img: Image, pixels: seq<nat>, p: Pass, y: nat)
    requires img.Legal() && |pixels| == Size(img)
    requires p.xstart < img.width && p.xstep > 0 && p.ystep > 0 && y < img.height
    ensures RowsOfPass(img, pixels, p, y) == [ReducedRow(img, pixels, p, y)] + RowsOfPass(img, pixels, p, y + p.ystep)
  {
  }

  lemma NoMoreRows(img: Image, pixels: seq<nat>, p: Pass, y: nat)
    requires img.Legal() && |pixels| == Size(img)
    requires p.xstart < img.width && p.xstep > 0 && p.ystep > 0 && y >= img.height
    ensures RowsOfPass(img, pixels, p, y) == []
  {
  }

  /** The rows of the last pass are whole rows of the image. */
  lemma WholeRow(img: Image, pixels: seq<nat>, p: Pass, y: nat)
    requires img.Legal() && |pixels| == Size(img)
    requires p.xstart == 0 && p.xstep == 1 && y < img.height
    ensures y * img.Vpr() + img.Vpr() == EndOffset(img, y) <= |pixels|
    ensures ReducedRow(img, pixels, p, y) == pixels[y * img.Vpr()..y * img.Vpr() + img.Vpr()]
    ensures ReducedRow(img, pixels, p, y) == Slice(pixels, y * img.Vpr(), y * img.Vpr() + img.Vpr())
  {
    hide Index, Size;
    IndexBounds(img, 0, y, 0);
    MulDistrib(y, 1, img.Vpr());
    MulMono(1, img.width, img.planes);
    assert img.Ppr(p) == img.width;
    var row := ReducedRow(img, pixels, p, y);
    forall i | 0 <= i < img.Vpr()
      ensures row[i] == pixels[y * img.Vpr() + i]
    {
      WholeRowAt(img, pixels, p, y, i);
    }
    assert row == pixels[y * img.Vpr()..y * img.Vpr() + img.Vpr()];
  }

  lemma WholeRowAt(img: Image, pixels: seq<nat>, p: Pass, y: nat, i: nat)
    requires img.Legal() && |pixels| == Size(img)
    requires p.xstart == 0 && p.xstep == 1 && y < img.height && i < img.Vpr()
    requires img.Ppr(p) == img.width
    ensures y * img.Vpr() + i < |pixels| && ReducedRow(img, pixels, p, y)[i] == pixels[y * img.Vpr() + i]
  {
    hide ReducedRow, Index, Size;
    var n := img.planes;
    var j, c := i / n, i % n;
    QuotientBelow(i, n, img.width);
    SlotIsPosition(img, pixels, p, y, c, j);
    IndexIsOffset(img, j, y, c);
  }
}
