/** Whole images: what write_array puts into the IDAT chunks and what read_flat takes out of them, for
    straight and for interlaced images. Compression is the identity on bytes. */
module PngImage {
  import opened Arithmetic
  import opened PngFilter
  import opened PngPacking
  import opened PngInterlace
  import opened PngDeinterlace
  import opened PySlices
  import opened Wrappers
  import PngStraight

  /** array_scanlines: the image rows from `y` on. */
  function StraightRows(img: Image, pixels: seq<nat>, y: nat): (rows: seq<seq<nat>>)
    requires |pixels| == Size(img) && y <= img.height
    ensures |rows| == img.height - y
    ensures forall i :: 0 <= i < |rows| ==> |rows[i]| == img.Vpr()
    decreases img.height - y
  {
    if y == img.height then []
    else
      RowInside(img, y);
      [pixels[y * img.Vpr()..y * img.Vpr() + img.Vpr()]] + StraightRows(img, pixels, y + 1)
  }

  lemma RowInside(img: Image, y: nat)
    requires y < img.height
    ensures y * img.Vpr() + img.Vpr() == (y + 1) * img.Vpr() <= Size(img)
  {
    MulDistrib(y, 1, img.Vpr());
    MulMono(y + 1, img.height, img.Vpr());
  }

  lemma {:induction false} StraightRowsInRange(img: Image, pixels: seq<nat>, y: nat)
    requires Holds(img, pixels) && y <= img.height
    ensures PngStraight.RowsInRange(img.depth, StraightRows(img, pixels, y))
    decreases img.height - y
  {
    hide Pow;
    if y < img.height {
      RowInside(img, y);
      StraightRowsInRange(img, pixels, y + 1);
    }
  }

  lemma {:induction false} StraightRowsFlatten(img: Image, pixels: seq<nat>, y: nat)
    requires |pixels| == Size(img) && y <= img.height
    ensures y * img.Vpr() <= |pixels|
    ensures PngStraight.Flatten(StraightRows(img, pixels, y)) == pixels[y * img.Vpr()..]
    decreases img.height - y
  {
    hide Image.Vpr;
    MulMono(y, img.height, img.Vpr());
    if y < img.height {
      RowInside(img, y);
      StraightRowsFlatten(img, pixels, y + 1);
      MulDistrib(y, 1, img.Vpr());
      var lo, hi := y * img.Vpr(), (y + 1) * img.Vpr();
      assert hi == lo + img.Vpr();
      Rejoin(pixels, lo, hi);
      assert StraightRows(img, pixels, y)[1..] == StraightRows(img, pixels, y + 1);
      hide StraightRows;
    }
  }

  lemma Rejoin(pixels: seq<nat>, lo: nat, hi: nat)
    requires lo <= hi <= |pixels|
    ensures pixels[lo..hi] + pixels[hi..] == pixels[lo..]
  {
  }

  /** The rows in file order. */
  function FileRows(img: Image, interlace: bool, pixels: seq<nat>): seq<seq<nat>>
    requires Holds(img, pixels)
  {
    if interlace then InterlacedRows(img, pixels, 0) else StraightRows(img, pixels, 0)
  }

  lemma FileRowsInRange(img: Image, interlace: bool, pixels: seq<nat>)
    requires Holds(img, pixels)
    ensures PngStraight.RowsInRange(img.depth, FileRows(img, interlace, pixels))
    ensures FileRows(img, interlace, pixels) != []
  {
    hide ReducedRow;
    InterlacedRowsInRange(img, pixels, 0);
    NextPass(img, pixels, 0);
    RowsOfPassCons(img, pixels, PassAt(0), 0);
    StraightRowsInRange(img, pixels, 0);
  }

  method ArrayScanlines(img: Image, pixels: seq<nat>) returns (rows: seq<seq<nat>>)
    requires |pixels| == Size(img)
    ensures rows == StraightRows(img, pixels, 0)
  {
    rows := [];
    var stop := 0;
    for y := 0 to img.height
      invariant stop == y * img.Vpr()
      invariant rows + StraightRows(img, pixels, y) == StraightRows(img, pixels, 0)
    {
      RowInside(img, y);
      var start := stop;
      stop := start + img.Vpr();
      rows := rows + [pixels[start..stop]];
    }
  }

  /** write_array, the IDAT chunks only. */
  method WriteArray(img: Image, interlace: bool, pixels: seq<nat>, chunkLimit: nat) returns (idat: seq<seq<Byte>>)
    requires Holds(img, pixels)
    ensures PngStraight.RowsInRange(img.depth, FileRows(img, interlace, pixels))
    ensures PngStraight.Flatten(idat) == PngStraight.Stream(img.depth, FileRows(img, interlace, pixels))
    ensures forall i :: 0 <= i < |idat| - 1 ==> |idat[i]| > chunkLimit
  {
    hide PngStraight.Stream, PngStraight.Flatten, InterlacedRows, StraightRows, Size;
    FileRowsInRange(img, interlace, pixels);
    var rows;
    if interlace {
      rows := ArrayScanlinesInterlace(img, pixels);
    } else {
      rows := ArrayScanlines(img, pixels);
    }
    var written := PngStraight.WritePasses(img.depth, rows, chunkLimit);
    idat := written.idat;
  }

  /** asvalues on every row; the values of all rows in order. */
  function ValuesOfRows(img: Image, lines: seq<seq<Byte>>): Result<seq<nat>, Error>
    requires IsDepth(img.depth)
  {
    if lines == [] then Ok([])
    else
      match AsValues(img.depth, img.width, lines[0])
      case StructError => Fail(Error.StructError)
      case Row(samples) =>
        match ValuesOfRows(img, lines[1..])
        case Fail(e) => Fail(e)
        case Ok(rest) => Ok(samples + rest)
  }

  /** The values in whole rows of `n`: an incomplete last row is dropped. */
  function WholeRows(values: seq<nat>, n: nat): (r: seq<nat>)
    requires n > 0
    ensures |r| % n == 0 && r <= values && |values| < |r| + n
  {
    Division(|values|, n);
    var k := |values| / n;
    QuotientIs(k * n, n, k, 0);
    values[..k * n]
  }

  /** read_flat as a function of the decompressed bytes. */
  function ReadFlatOf(img: Image, interlace: bool, bytes: seq<Byte>): Result<seq<nat>, Error>
    requires img.Legal()
  {
    MulMono(1, img.width, img.planes);
    if interlace then
      match Deinterlaced(img, bytes)
      case Fail(e) => Fail(e)
      case Ok(values) => Ok(WholeRows(values, img.Vpr()))
    else
      var lines := PngStraight.Lined(ByteCount(img.Vpr(), img.depth), img.FilterUnit(), bytes, []);
      if lines.status != PngStraight.Complete then Fail(FormatError) else ValuesOfRows(img, lines.rows)
  }

  /** What the rows of a straight image are, in terms of the bits of a pixel and of a row. */
  lemma StraightRowIsUnfiltered(img: Image, bytes: seq<Byte>, unit: nat, rb: nat, k: nat)
    requires img.Legal() && IsPixelSize(img, unit)
    requires img.width * img.planes * img.depth <= 8 * rb < img.width * img.planes * img.depth + 8
    requires k < |PngStraight.Lined(ByteCount(img.Vpr(), img.depth), img.FilterUnit(), bytes, []).rows|
    ensures var rows := PngStraight.Lined(ByteCount(img.Vpr(), img.depth), img.FilterUnit(), bytes, []).rows;
            PngStraight.UnfiltersTo(bytes, k * (rb + 1), rb, rows[k], if k == 0 then [] else rows[k - 1], unit)
  {
    assert img.Vpr() == img.width * img.planes;
    hide *;
    ByteCountIsLeast(img.Vpr(), img.depth, rb);
    FilterUnitIsPixelSize(img, unit);
    PngStraight.LinedIsUnfiltered(rb, unit, bytes, [], k);
  }

  /** read_flat on the pieces the decompressor yields. */
  method ReadFlat(img: Image, interlace: bool, raw: seq<seq<Byte>>) returns (pixels: Result<seq<nat>, Error>)
    requires img.Legal()
    ensures pixels == ReadFlatOf(img, interlace, PngStraight.Flatten(raw))
  {
    hide PngStraight.Lined, PngStraight.Flatten, Deinterlaced, AsValues, ByteCount;
    if interlace {
      var values := Deinterlace(img, PngStraight.Flatten(raw));
      if values.Fail? { return values; }
      MulMono(1, img.width, img.planes);
      pixels := GroupRows(values.value, img.Vpr());
    } else {
      var lines := PngStraight.IterStraight(raw, ByteCount(img.Vpr(), img.depth), img.FilterUnit());
      if lines.status != PngStraight.Complete { return Fail(FormatError); }
      pixels := CollectValues(img, lines.rows);
    }
  }

  /** The grouping of read, and the rows chained again. */
  method GroupRows(values: seq<nat>, n: nat) returns (pixels: Result<seq<nat>, Error>)
    requires n > 0
    ensures pixels == Ok(WholeRows(values, n))
  {
    var chained: seq<nat>, rows := [], 0;
    while |chained| + n <= |values|
      invariant |chained| == rows * n <= |values| && chained == values[..rows * n]
      decreases |values| - |chained|
    {
      MulDistrib(rows, 1, n);
      chained := chained + values[rows * n..rows * n + n];
      rows := rows + 1;
    }
    QuotientIs(|values|, n, rows, |values| - rows * n);
    pixels := Ok(chained);
  }

  /** asvalues on each row, the rows chained. */
  method CollectValues(img: Image, lines: seq<seq<Byte>>) returns (pixels: Result<seq<nat>, Error>)
    requires img.Legal()
    ensures pixels == ValuesOfRows(img, lines)
  {
    hide AsValues;
    var values: seq<nat> := [];
    assert lines[0..] == lines;
    BehindNothing(ValuesOfRows(img, lines));
    for i := 0 to |lines|
      invariant ValuesOfRows(img, lines) == Behind(values, ValuesOfRows(img, lines[i..]))
    {
      var row := ToValues(img.depth, img.width, lines[i]);
      assert lines[i..][1..] == lines[i + 1..];
      if row.StructError? { return Fail(Error.StructError); }
      BehindMore(values, row.samples, ValuesOfRows(img, lines[i + 1..]));
      values := values + row.samples;
    }
    assert values + [] == values;
    pixels := Ok(values);
  }

  lemma BehindNothing(r: Result<seq<nat>, Error>)
    ensures Behind([], r) == r
  {
    if r.Ok? { assert [] + r.value == r.value; }
  }

  lemma BehindMore(values: seq<nat>, more: seq<nat>, r: Result<seq<nat>, Error>)
    ensures Behind(values + more, r) == if r.Fail? then r else Behind(values, Ok(more + r.value))
  {
    if r.Ok? { assert values + more + r.value == values + (more + r.value); }
  }

  function Behind(values: seq<nat>, rest: Result<seq<nat>, Error>): Result<seq<nat>, Error> {
    if rest.Fail? then rest else Ok(values + rest.value)
  }

  lemma {:induction false} ValuesOfPackedRows(img: Image, rows: seq<seq<nat>>, lines: seq<seq<Byte>>)
    requires IsDepth(img.depth) && |rows| == |lines|
    requires forall i :: 0 <= i < |rows| ==> AsValues(img.depth, img.width, lines[i]) == Row(rows[i])
    ensures ValuesOfRows(img, lines) == Ok(PngStraight.Flatten(rows))
    decreases |rows|
  {
    hide AsValues;
    if rows != [] { ValuesOfPackedRows(img, rows[1..], lines[1..]); }
  }

  /** The width given to asvalues matters only below 8 bits, where there is one plane. */
  lemma WidthIsValuesPerRow(img: Image, raw: seq<Byte>)
    requires img.Legal()
    ensures AsValues(img.depth, img.width, raw) == AsValues(img.depth, img.Vpr(), raw)
  {
  }

  /** Reading what was written gives the pixels: straight or interlaced, every size, every legal
      number of planes and depth, every content. */
  lemma ImageRoundTrip(img: Image, interlace: bool, pixels: seq<nat>)
    requires Holds(img, pixels)
    ensures PngStraight.RowsInRange(img.depth, FileRows(img, interlace, pixels))
    ensures ReadFlatOf(img, interlace, PngStraight.Stream(img.depth, FileRows(img, interlace, pixels))) == Ok(pixels)
  {
    hide PngStraight.Stream, PngStraight.Lined, PngStraight.Flatten, InterlacedStream, InterlacedRows, StraightRows,
        Deinterlaced, AsValues, ByteCount, ValuesOfRows;
    FileRowsInRange(img, interlace, pixels);
    if interlace {
      InterlacedStreamUnfiltered(img, pixels, 0);
      InterlacedRoundTrip(img, pixels, NO_FILTER);
      MulMono(1, img.width, img.planes);
      AllRowsWhole(img, pixels);
    } else {
      var rows := StraightRows(img, pixels, 0);
      var bytes := PngStraight.Stream(img.depth, rows);
      assert PngStraight.Flatten([bytes]) == bytes by { OnePiece(bytes); }
      MulMono(1, img.width, img.planes);
      PngStraight.StraightRoundTrip(img.depth, rows, img.Vpr(), img.FilterUnit(), [bytes]);
      var lines := PngStraight.Lined(ByteCount(img.Vpr(), img.depth), img.FilterUnit(), bytes, []);
      forall i | 0 <= i < |rows|
        ensures AsValues(img.depth, img.width, lines.rows[i]) == Row(rows[i])
      {
        WidthIsValuesPerRow(img, lines.rows[i]);
      }
      ValuesOfPackedRows(img, rows, lines.rows);
      StraightRowsFlatten(img, pixels, 0);
      assert pixels[0 * img.Vpr()..] == pixels;
    }
  }

  lemma AllRowsWhole(img: Image, pixels: seq<nat>)
    requires img.Vpr() > 0 && |pixels| == Size(img)
    ensures WholeRows(pixels, img.Vpr()) == pixels
  {
    QuotientIs(|pixels|, img.Vpr(), img.height, 0);
    assert pixels[..|pixels|] == pixels;
  }

  lemma OnePiece(bytes: seq<Byte>)
    ensures PngStraight.Flatten([bytes]) == bytes
  {
    assert bytes + [] == bytes;
  }
}
