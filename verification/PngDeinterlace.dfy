/** The reader of interlaced images: what deinterlace computes from any byte stream, errors included,
    and that it recovers the image from any filtered interlaced stream. */
module PngDeinterlace {
  import opened Arithmetic
  import opened PngFilter
  import opened PngPacking
  import opened PngInterlace
  import opened PySlices
  import opened Wrappers
  import PngStraight

  /** Running past the end of the stream; an unknown filter type; a slice assignment of the wrong
      length; an odd number of bytes for 16-bit values. */
  datatype Error = IndexError | FormatError | ValueError | StructError

  /** The output array, the position in the stream and the reconstructed line above ([] for none). */
  datatype Reading = Reading(canvas: seq<nat>, offset: nat, recon: seq<Byte>)

  /** Bytes per row of a pass. */
  function RowSize(img: Image, p: Pass): nat
    requires p.xstart < img.width && p.xstep > 0
  {
    ByteCount(img.Ppr(p) * img.planes, img.depth)
  }

  /** The line above is as long as a row, or there is none, or the stream has run out. */
  predicate Ready(img: Image, raw: seq<Byte>, r: Reading, p: Pass)
    requires p.xstart < img.width && p.xstep > 0
  {
    r.recon == [] || |r.recon| == RowSize(img, p) || r.offset >= |raw|
  }

  /** The slice assignments of a reduced row, plane by plane from plane `c` on. */
  function PutPlanes(img: Image, canvas: seq<nat>, p: Pass, y: nat, flat: seq<nat>, c: nat): Result<seq<nat>, Error>
    requires img.Legal() && p.xstep > 0 && c <= img.planes
    decreases img.planes - c
  {
    if c == img.planes then Ok(canvas)
    else
      SkipPositive(img, p);
      var values := Stride(flat, c, |flat|, img.planes);
      if |values| != StrideCount(|canvas|, Offset(img, p, y) + c, EndOffset(img, y), Skip(img, p)) then
        Fail(ValueError)
      else
        var next := Restride(canvas, Offset(img, p, y) + c, EndOffset(img, y), Skip(img, p), values);
        PutPlanes(img, next, p, y, flat, c + 1)
  }

  lemma SkipPositive(img: Image, p: Pass)
    requires img.Legal() && p.xstep > 0
    ensures Skip(img, p) > 0
  {
    MulMono(1, img.planes, p.xstep);
  }

  /** Placing one row. In the last pass the row replaces a whole image row, whatever its length. */
  function PutRow(img: Image, canvas: seq<nat>, p: Pass, y: nat, flat: seq<nat>): Result<seq<nat>, Error>
    requires img.Legal() && p.xstep > 0
  {
    if p.xstep == 1 then Ok(Splice(canvas, y * img.Vpr(), y * img.Vpr() + img.Vpr(), flat))
    else PutPlanes(img, canvas, p, y, flat, 0)
  }

  function ReadRow(img: Image, raw: seq<Byte>, r: Reading, p: Pass, y: nat): (s: Result<Reading, Error>)
    requires img.Legal() && p.xstart < img.width && p.xstep > 0
  {
    if r.offset >= |raw| then Fail(IndexError)
    else
      var filter := raw[r.offset];
      var next := r.offset + 1 + RowSize(img, p);
      if filter > 4 then Fail(FormatError)
      else
        var line := Unfiltered(filter, Slice(raw, r.offset + 1, next), r.recon, img.FilterUnit());
        PlacedLine(img, r.canvas, p, y, line, next)
  }

  /** A reconstructed line taken apart and placed; `next` is the position behind it. */
  function PlacedLine(img: Image, canvas: seq<nat>, p: Pass, y: nat, line: seq<Byte>, next: nat): Result<Reading, Error>
    requires img.Legal() && p.xstart < img.width && p.xstep > 0
  {
    match SerialToFlat(img.depth, line, img.Ppr(p))
    case StructError => Fail(Error.StructError)
    case Row(flat) =>
      match PutRow(img, canvas, p, y, flat)
      case Fail(e) => Fail(e)
      case Ok(now) => Ok(Reading(now, next, line))
  }

  function ReadRows(img: Image, raw: seq<Byte>, r: Reading, p: Pass, y: nat): Result<Reading, Error>
    requires img.Legal() && p.xstart < img.width && p.xstep > 0 && p.ystep > 0
    decreases if y < img.height then img.height - y else 0
  {
    if y >= img.height then Ok(r)
    else
      match ReadRow(img, raw, r, p, y)
      case Fail(e) => Fail(e)
      case Ok(r') => ReadRows(img, raw, r', p, y + p.ystep)
  }

  function ReadPasses(img: Image, raw: seq<Byte>, canvas: seq<nat>, offset: nat, k: nat): Result<seq<nat>, Error>
    requires img.Legal() && k <= 7
    decreases 7 - k
  {
    if k == 7 then Ok(canvas)
    else if PassAt(k).xstart >= img.width then ReadPasses(img, raw, canvas, offset, k + 1)
    else
      match ReadRows(img, raw, Reading(canvas, offset, []), PassAt(k), PassAt(k).ystart)
      case Fail(e) => Fail(e)
      case Ok(r) => ReadPasses(img, raw, r.canvas, r.offset, k + 1)
  }

  function Deinterlaced(img: Image, raw: seq<Byte>): Result<seq<nat>, Error>
    requires img.Legal()
  {
    ReadPasses(img, raw, Zeros(Size(img)), 0, 0)
  }

  // ----- The loops

  method PlaceRow(img: Image, canvas: seq<nat>, p: Pass, y: nat, flat: seq<nat>) returns (r: Result<seq<nat>, Error>)
    requires img.Legal() && p.xstep > 0
    ensures r == PutRow(img, canvas, p, y, flat)
  {
    hide Restride, Stride, StrideCount, Splice, Offset, EndOffset, Skip;
    if p.xstep == 1 {
      var offset := y * img.Vpr();
      return Ok(Splice(canvas, offset, offset + img.Vpr(), flat));
    }
    var a, offset, endOffset, skip := canvas, Offset(img, p, y), EndOffset(img, y), Skip(img, p);
    SkipPositive(img, p);
    for c := 0 to img.planes
      invariant PutPlanes(img, a, p, y, flat, c) == PutPlanes(img, canvas, p, y, flat, 0)
    {
      var values := Stride(flat, c, |flat|, img.planes);
      if |values| != StrideCount(|a|, offset + c, endOffset, skip) { return Fail(ValueError); }
      a := Restride(a, offset + c, endOffset, skip, values);
    }
    r := Ok(a);
  }

  method UndoneLine(filter: nat, scanline: seq<Byte>, previous: seq<Byte>, fu: nat)
    returns (ok: bool, recon: seq<Byte>)
    requires fu > 0 && Covers(filter, previous, |scanline|)
    ensures ok <==> filter < 5
    ensures ok ==> recon == Unfiltered(filter, scanline, previous, fu)
  {
    var line;
    ok, line := UndoFilter(filter, scanline, previous, fu);
    recon := line[..];
  }

  /** The body of deinterlace's loop over rows. */
  method DeinterlaceRow(img: Image, raw: seq<Byte>, r: Reading, p: Pass, y: nat) returns (s: Result<Reading, Error>)
    requires img.Legal() && p.xstart < img.width && p.xstep > 0 && Ready(img, raw, r, p)
    ensures s == ReadRow(img, raw, r, p, y)
    ensures s.Ok? ==> Ready(img, raw, s.value, p)
  {
    hide *;
    ReadRowLine(img, raw, r, p, y);
    ReadRowReady(img, raw, r, p, y);
    var sourceOffset := r.offset;
    if sourceOffset >= |raw| { return Fail(IndexError); }
    ReadyCovers(img, raw, r, p);
    var filter := raw[sourceOffset];
    sourceOffset := sourceOffset + 1;
    var rowSize := RowSize(img, p);
    var scanline := Slice(raw, sourceOffset, sourceOffset + rowSize);
    sourceOffset := sourceOffset + rowSize;
    var ok, recon := UndoneLine(filter, scanline, r.recon, img.FilterUnit());
    if !ok { return Fail(FormatError); }
    s := PlaceLine(img, r.canvas, p, y, recon, sourceOffset);
  }

  method PlaceLine(img: Image, canvas: seq<nat>, p: Pass, y: nat, recon: seq<Byte>, sourceOffset: nat)
    returns (s: Result<Reading, Error>)
    requires img.Legal() && p.xstart < img.width && p.xstep > 0
    ensures s == PlacedLine(img, canvas, p, y, recon, sourceOffset)
  {
    hide PutRow, SerialToFlat;
    var flat := ToFlat(img.depth, recon, img.Ppr(p));
    if flat.StructError? { return Fail(Error.StructError); }
    var placed := PlaceRow(img, canvas, p, y, flat.samples);
    if placed.Fail? { return Fail(placed.error); }
    s := Ok(Reading(placed.value, sourceOffset, recon));
  }

  lemma ReadRowLine(img: Image, raw: seq<Byte>, r: Reading, p: Pass, y: nat)
    requires img.Legal() && p.xstart < img.width && p.xstep > 0
    ensures ReadRow(img, raw, r, p, y) ==
            if r.offset >= |raw| then Fail(IndexError)
            else if raw[r.offset] > 4 then Fail(FormatError)
            else
              var next := r.offset + 1 + RowSize(img, p);
              var line := Unfiltered(raw[r.offset], Slice(raw, r.offset + 1, next), r.recon, img.FilterUnit());
              PlacedLine(img, r.canvas, p, y, line, next)
  {
    hide PlacedLine, RowSize, Unfiltered;
  }

  lemma ReadyCovers(img: Image, raw: seq<Byte>, r: Reading, p: Pass)
    requires p.xstart < img.width && p.xstep > 0 && Ready(img, raw, r, p) && r.offset < |raw|
    ensures Covers(raw[r.offset], r.recon, |Slice(raw, r.offset + 1, r.offset + 1 + RowSize(img, p))|)
  {
    hide RowSize;
  }

  lemma DeinterlacedIs(img: Image, raw: seq<Byte>)
    requires img.Legal()
    ensures Deinterlaced(img, raw) == ReadPasses(img, raw, Zeros(Size(img)), 0, 0)
  {
    hide ReadPasses;
  }

  lemma ReadRowReady(img: Image, raw: seq<Byte>, r: Reading, p: Pass, y: nat)
    requires img.Legal() && p.xstart < img.width && p.xstep > 0
    ensures ReadRow(img, raw, r, p, y).Ok? ==> Ready(img, raw, ReadRow(img, raw, r, p, y).value, p)
  {
    hide PutRow, SerialToFlat, RowSize;
    ReadRowUnfolds(img, raw, r, p, y);
  }

  /** deinterlace. */
  method Deinterlace(img: Image, raw: seq<Byte>) returns (a: Result<seq<nat>, Error>)
    requires img.Legal()
    ensures a == Deinterlaced(img, raw)
  {
    hide ReadRow, ReadRows, ReadPasses, Deinterlaced, RowSize, Size;
    var canvas, sourceOffset: nat := Zeros(Size(img)), 0;
    DeinterlacedIs(img, raw);
    for k := 0 to 7
      invariant ReadPasses(img, raw, canvas, sourceOffset, k) == Deinterlaced(img, raw)
    {
      ReadPassesStep(img, raw, canvas, sourceOffset, k);
      var p := PassAt(k);
      if p.xstart >= img.width { continue; }
      var recon: seq<Byte> := [];
      ghost var start := Reading(canvas, sourceOffset, []);
      var y := p.ystart;
      while y < img.height
        invariant ReadRows(img, raw, Reading(canvas, sourceOffset, recon), p, y)
            == ReadRows(img, raw, start, p, p.ystart)
        invariant Ready(img, raw, Reading(canvas, sourceOffset, recon), p)
        decreases img.height - y
      {
        ReadRowsStep(img, raw, Reading(canvas, sourceOffset, recon), p, y);
        var row := DeinterlaceRow(img, raw, Reading(canvas, sourceOffset, recon), p, y);
        if row.Fail? { return Fail(row.error); }
        canvas, sourceOffset, recon := row.value.canvas, row.value.offset, row.value.recon;
        y := y + p.ystep;
      }
      ReadRowsStep(img, raw, Reading(canvas, sourceOffset, recon), p, y);
    }
    ReadPassesStep(img, raw, canvas, sourceOffset, 7);
    a := Ok(canvas);
  }

  lemma ReadRowUnfolds(img: Image, raw: seq<Byte>, r: Reading, p: Pass, y: nat)
    requires img.Legal() && p.xstart < img.width && p.xstep > 0
    ensures r.offset >= |raw| ==> ReadRow(img, raw, r, p, y) == Fail(IndexError)
    ensures r.offset < |raw| && raw[r.offset] > 4 ==> ReadRow(img, raw, r, p, y) == Fail(FormatError)
    ensures r.offset < |raw| && raw[r.offset] <= 4 ==>
              var next := r.offset + 1 + RowSize(img, p);
              var line := Unfiltered(raw[r.offset], Slice(raw, r.offset + 1, next), r.recon, img.FilterUnit());
              var flat := SerialToFlat(img.depth, line, img.Ppr(p));
              ReadRow(img, raw, r, p, y) ==
              if flat.StructError? then Fail(Error.StructError)
              else
                var placed := PutRow(img, r.canvas, p, y, flat.samples);
                if placed.Fail? then Fail(placed.error) else Ok(Reading(placed.value, next, line))
  {
    hide PutRow, SerialToFlat, Unfiltered, RowSize;
  }

  /** What a row read from an interlaced stream is: the line that the filter named by its first byte turns
      into the bytes that follow, with a pixel to the left and the row above as neighbours. */
  lemma RowIsUnfiltered(img: Image, raw: seq<Byte>, r: Reading, p: Pass, y: nat, unit: nat)
    requires img.Legal() && p.xstart < img.width && p.xstep > 0 && IsPixelSize(img, unit)
    requires ReadRow(img, raw, r, p, y).Ok?
    ensures var s := ReadRow(img, raw, r, p, y).value;
            && r.offset < |raw| && raw[r.offset] <= 4 && s.offset == r.offset + 1 + RowSize(img, p)
            && IsFilteredLine(raw[r.offset], Slice(raw, r.offset + 1, s.offset), s.recon, r.recon, unit)
  {
    hide *;
    ReadRowUnfolds(img, raw, r, p, y);
    FilterUnitIsPixelSize(img, unit);
    FilteredExactly(raw[r.offset], Slice(raw, r.offset + 1, r.offset + 1 + RowSize(img, p)),
                    ReadRow(img, raw, r, p, y).value.recon, r.recon, unit);
  }

  // ----- A filtered interlaced stream

  /** The filter type for row `y` of pass `k`. */
  type Choice = (nat, nat) -> nat

  /** Only the five types. */
  ghost predicate FiveTypes(choice: Choice) {
    forall k: nat, y: nat :: k < 7 ==> choice(k, y) < 5
  }

  /** The pass has a row in the image. */
  predicate Visited(img: Image, p: Pass) {
    p.xstart < img.width && p.ystart < img.height
  }

  /** No pass has "up" on its first row. */
  ghost predicate NoFirstUp(img: Image, choice: Choice) {
    forall k: nat :: k < 7 && Visited(img, PassAt(k)) ==> choice(k, PassAt(k).ystart) != 2
  }

  predicate Holds(img: Image, pixels: seq<nat>) {
    img.Legal() && |pixels| == Size(img) && InRange(img.depth, pixels)
  }

  function PackedReduced(img: Image, pixels: seq<nat>, p: Pass, y: nat): seq<Byte>
    requires Holds(img, pixels) && p.xstart < img.width && p.xstep > 0 && y < img.height
  {
    ReducedInRange(img, pixels, p, y);
    Packed(img.depth, ReducedRow(img, pixels, p, y))
  }

  lemma ReducedInRange(img: Image, pixels: seq<nat>, p: Pass, y: nat)
    requires Holds(img, pixels) && p.xstart < img.width && p.xstep > 0 && y < img.height
    ensures InRange(img.depth, ReducedRow(img, pixels, p, y))
  {
    forall i | 0 <= i < |ReducedRow(img, pixels, p, y)|
      ensures ReducedRow(img, pixels, p, y)[i] in pixels
    {
      ReducedElement(img, pixels, p, y, i);
    }
    hide ReducedRow, Size;
  }

  lemma ReducedElement(img: Image, pixels: seq<nat>, p: Pass, y: nat, i: nat)
    requires img.Legal() && |pixels| == Size(img) && p.xstart < img.width && p.xstep > 0 && y < img.height
    requires i < |ReducedRow(img, pixels, p, y)|
    ensures ReducedRow(img, pixels, p, y)[i] in pixels
  {
    hide Source, Size;
    SourceInImage(img, p, y, i);
  }

  ghost function PassStream(img: Image, pixels: seq<nat>, choice: Choice, k: nat, y: nat, prev: seq<Byte>): seq<Byte>
    requires Holds(img, pixels) && FiveTypes(choice) && k < 7 && PassAt(k).xstart < img.width
    decreases if y < img.height then img.height - y else 0
  {
    if y >= img.height then []
    else
      var line := PackedReduced(img, pixels, PassAt(k), y);
      FilterScanline(choice(k, y), line, img.FilterUnit(), prev)
      + PassStream(img, pixels, choice, k, y + PassAt(k).ystep, line)
  }

  ghost function InterlacedStream(img: Image, pixels: seq<nat>, choice: Choice, k: nat): seq<Byte>
    requires Holds(img, pixels) && FiveTypes(choice) && k <= 7
    decreases 7 - k
  {
    if k == 7 then []
    else (if PassAt(k).xstart >= img.width then [] else PassStream(img, pixels, choice, k, PassAt(k).ystart, []))
         + InterlacedStream(img, pixels, choice, k + 1)
  }

  // ----- The reader on such a stream

  /** `now` differs from `before` only where it has taken the value of the image. */
  predicate Improves(before: seq<nat>, now: seq<nat>, pixels: seq<nat>) {
    && |now| == |before| == |pixels|
    && forall i :: 0 <= i < |now| ==> now[i] == before[i] || now[i] == pixels[i]
  }

  lemma ImprovesTransitive(a: seq<nat>, b: seq<nat>, c: seq<nat>, pixels: seq<nat>)
    requires Improves(a, b, pixels) && Improves(b, c, pixels)
    ensures Improves(a, c, pixels)
  {
  }

  /** Pixel (x, y) has its value in plane `c`. */
  predicate Right(img: Image, canvas: seq<nat>, pixels: seq<nat>, x: nat, y: nat, c: nat) {
    var i := Index(img, x, y, c);
    i < |canvas| && i < |pixels| && canvas[i] == pixels[i]
  }

  predicate InColumns(img: Image, p: Pass, x: nat)
    requires p.xstep > 0
  {
    p.xstart <= x < img.width && (x - p.xstart) % p.xstep == 0
  }

  /** Every pixel that the pass visits in row `y` has its values in the planes below `c`. */
  ghost predicate RowDone(img: Image, canvas: seq<nat>, pixels: seq<nat>, p: Pass, y: nat, c: nat)
    requires p.xstep > 0
  {
    forall x: nat, d: nat :: InColumns(img, p, x) && d < c ==> Right(img, canvas, pixels, x, y, d)
  }

  lemma RowStaysDone(img: Image, before: seq<nat>, now: seq<nat>, pixels: seq<nat>, p: Pass, y: nat, c: nat)
    requires p.xstep > 0 && Improves(before, now, pixels) && RowDone(img, before, pixels, p, y, c)
    ensures RowDone(img, now, pixels, p, y, c)
  {
    hide Index;
    forall x: nat, d: nat | InColumns(img, p, x) && d < c
      ensures Right(img, now, pixels, x, y, d)
    {
      assert Right(img, before, pixels, x, y, d);
    }
  }

  /** A column of the pass is one of the pixels of the reduced row. */
  lemma ColumnSlot(img: Image, p: Pass, x: nat)
    requires img.Legal() && p.xstart < img.width && p.xstep > 0 && InColumns(img, p, x)
    ensures var j := (x - p.xstart) / p.xstep;
            j < img.Ppr(p) && x == p.xstart + j * p.xstep
  {
    var j := (x - p.xstart) / p.xstep;
    CeilDivIs(img.width - p.xstart, p.xstep, img.Ppr(p));
    if j >= img.Ppr(p) { MulMono(img.Ppr(p), j, p.xstep); }
  }

  lemma SelectedMeans(lo: nat, hi: nat, step: nat, i: nat)
    requires step > 0 && Selected(lo, hi, step, i)
    ensures lo <= i < hi && (i - lo) % step == 0
  {
  }

  lemma SlotValue(img: Image, row: seq<nat>, c: nat, j: nat)
    requires img.planes > 0 && j < StrideCount(|row|, c, |row|, img.planes) && Slot(img, j, c) < |row|
    ensures Stride(row, c, |row|, img.planes)[j] == row[Slot(img, j, c)]
  {
  }

  /** A position that the assignment of plane `c` selects gets the value of the image. */
  lemma SelectedIsRight(img: Image, canvas: seq<nat>, pixels: seq<nat>, p: Pass, y: nat, c: nat, values: seq<nat>,
                        i: nat)
    requires img.Legal() && |pixels| == Size(img) == |canvas|
    requires p.xstart < img.width && p.xstep > 0 && y < img.height && c < img.planes && Skip(img, p) > 0
    requires values == Stride(ReducedRow(img, pixels, p, y), c, |ReducedRow(img, pixels, p, y)|, img.planes)
    requires |values| == StrideCount(|canvas|, Offset(img, p, y) + c, EndOffset(img, y), Skip(img, p)) == img.Ppr(p)
    requires i < |canvas| && Selected(Offset(img, p, y) + c, EndOffset(img, y), Skip(img, p), i)
    ensures Restride(canvas, Offset(img, p, y) + c, EndOffset(img, y), Skip(img, p), values)[i] == pixels[i]
  {
    SelectedMeans(Offset(img, p, y) + c, EndOffset(img, y), Skip(img, p), i);
    hide *;
    var lo, hi, skip := Offset(img, p, y) + c, EndOffset(img, y), Skip(img, p);
    var j := (i - lo) / skip;
    Division(i - lo, skip);
    assert i == lo + j * skip;
    RestrideAt(canvas, lo, hi, skip, values, i);
    SlotIsPosition(img, pixels, p, y, c, j);
    StridePosition(img, p, y, c, j);
    SlotValue(img, ReducedRow(img, pixels, p, y), c, j);
  }

  /** Assigning plane `c` of a reduced row puts right values and only those. */
  lemma PutPlane(img: Image, canvas: seq<nat>, pixels: seq<nat>, p: Pass, y: nat, c: nat) returns (now: seq<nat>)
    requires img.Legal() && |pixels| == Size(img) == |canvas|
    requires p.xstart < img.width && p.xstep > 0 && y < img.height && c < img.planes
    requires RowDone(img, canvas, pixels, p, y, c)
    ensures Skip(img, p) > 0
    ensures var flat := ReducedRow(img, pixels, p, y);
            var values := Stride(flat, c, |flat|, img.planes);
            && |values| == StrideCount(|canvas|, Offset(img, p, y) + c, EndOffset(img, y), Skip(img, p))
            && now == Restride(canvas, Offset(img, p, y) + c, EndOffset(img, y), Skip(img, p), values)
    ensures Improves(canvas, now, pixels) && RowDone(img, now, pixels, p, y, c + 1)
  {
    hide ReducedRow, Index, Offset, EndOffset, Skip, Size, Restride, StrideCount, Stride, Selected, InColumns;
    var flat := ReducedRow(img, pixels, p, y);
    var lo, hi, skip := Offset(img, p, y) + c, EndOffset(img, y), Skip(img, p);
    StridesMatch(img, p, y, c);
    var values := Stride(flat, c, |flat|, img.planes);
    now := Restride(canvas, lo, hi, skip, values);
    forall i | 0 <= i < |canvas| && Selected(lo, hi, skip, i)
      ensures now[i] == pixels[i]
    {
      SelectedIsRight(img, canvas, pixels, p, y, c, values, i);
    }
    forall x: nat, d: nat | InColumns(img, p, x) && d < c + 1
      ensures Right(img, now, pixels, x, y, d)
    {
      if d == c { ColumnSelected(img, p, x, y, c); } else { assert Right(img, canvas, pixels, x, y, d); }
    }
  }

  lemma RestrideAt<T>(a: seq<T>, lo: nat, hi: nat, step: nat, values: seq<T>, i: nat)
    requires step > 0 && |values| == StrideCount(|a|, lo, hi, step) && i < |a| && Selected(lo, hi, step, i)
    ensures (i - lo) / step < |values| && Restride(a, lo, hi, step, values)[i] == values[(i - lo) / step]
  {
    SelectedCount(|a|, lo, hi, step, i);
  }

  lemma ColumnSelected(img: Image, p: Pass, x: nat, y: nat, c: nat)
    requires img.Legal() && p.xstart < img.width && p.xstep > 0 && y < img.height && c < img.planes
    requires InColumns(img, p, x) && Skip(img, p) > 0
    ensures Index(img, x, y, c) < Size(img)
    ensures Selected(Offset(img, p, y) + c, EndOffset(img, y), Skip(img, p), Index(img, x, y, c))
  {
    hide Index, Offset, Skip, EndOffset, Size;
    var j := (x - p.xstart) / p.xstep;
    ColumnSlot(img, p, x);
    IndexBounds(img, x, y, c);
    StridePosition(img, p, y, c, j);
    QuotientIs(j * Skip(img, p), Skip(img, p), j, 0);
  }

  lemma {:induction false} PutPlanesGood(img: Image, canvas: seq<nat>, pixels: seq<nat>, p: Pass, y: nat, c: nat)
    returns (now: seq<nat>)
    requires img.Legal() && |pixels| == Size(img) == |canvas|
    requires p.xstart < img.width && p.xstep > 0 && y < img.height && c <= img.planes
    requires RowDone(img, canvas, pixels, p, y, c)
    ensures PutPlanes(img, canvas, p, y, ReducedRow(img, pixels, p, y), c) == Ok(now)
    ensures Improves(canvas, now, pixels) && RowDone(img, now, pixels, p, y, img.planes)
    decreases img.planes - c
  {
    hide ReducedRow, Index, Offset, EndOffset, Skip, Size, Restride, Stride, StrideCount, RowDone;
    now := canvas;
    if c < img.planes {
      var next := PutPlane(img, canvas, pixels, p, y, c);
      now := PutPlanesGood(img, next, pixels, p, y, c + 1);
      ImprovesTransitive(canvas, next, now, pixels);
    }
  }

  lemma PutRowGood(img: Image, canvas: seq<nat>, pixels: seq<nat>, p: Pass, y: nat) returns (now: seq<nat>)
    requires img.Legal() && |pixels| == Size(img) == |canvas|
    requires p.xstart < img.width && p.xstep > 0 && y < img.height && (p.xstep == 1 ==> p.xstart == 0)
    ensures PutRow(img, canvas, p, y, ReducedRow(img, pixels, p, y)) == Ok(now)
    ensures Improves(canvas, now, pixels) && RowDone(img, now, pixels, p, y, img.planes)
  {
    if p.xstep == 1 {
      now := WholeRowPut(img, canvas, pixels, p, y);
    } else {
      hide ReducedRow, Size, PutPlanes, Index;
      now := PutPlanesGood(img, canvas, pixels, p, y, 0);
    }
  }

  lemma WholeRowPut(img: Image, canvas: seq<nat>, pixels: seq<nat>, p: Pass, y: nat) returns (now: seq<nat>)
    requires img.Legal() && |pixels| == Size(img) == |canvas|
    requires p.xstart == 0 && p.xstep == 1 && y < img.height
    ensures PutRow(img, canvas, p, y, ReducedRow(img, pixels, p, y)) == Ok(now)
    ensures Improves(canvas, now, pixels) && RowDone(img, now, pixels, p, y, img.planes)
  {
    hide ReducedRow, Size, Index, InColumns;
    WholeRow(img, pixels, p, y);
    var lo := y * img.Vpr();
    var hi := EndOffset(img, y);
    now := SpliceImproves(canvas, pixels, lo, hi);
    forall x: nat, d: nat | InColumns(img, p, x) && d < img.planes
      ensures Right(img, now, pixels, x, y, d)
    {
      ColumnInImage(img, p, x);
      IndexBounds(img, x, y, d);
    }
  }

  lemma ColumnInImage(img: Image, p: Pass, x: nat)
    requires p.xstep > 0 && InColumns(img, p, x)
    ensures x < img.width
  {
  }

  lemma SpliceImproves(canvas: seq<nat>, pixels: seq<nat>, lo: nat, hi: nat) returns (now: seq<nat>)
    requires lo <= hi <= |pixels| == |canvas|
    ensures now == Splice(canvas, lo, hi, pixels[lo..hi]) && Improves(canvas, now, pixels)
    ensures forall i :: lo <= i < hi ==> now[i] == pixels[i]
  {
    now := canvas[..lo] + pixels[lo..hi] + canvas[hi..];
    forall i | lo <= i < hi ensures now[i] == pixels[i] {
      assert pixels[lo..hi][i - lo] == pixels[i];
    }
    assert forall i :: 0 <= i < |now| && !(lo <= i < hi) ==> now[i] == canvas[i];
  }

  /** One row: the stream begins with the filtered line, and the canvas improves by that row. */
  lemma ReadRowGood(img: Image, pixels: seq<nat>, raw: seq<Byte>, r: Reading, p: Pass, y: nat, filter: nat,
                    later: seq<Byte>)
    returns (canvas: seq<nat>)
    requires Holds(img, pixels) && |r.canvas| == |pixels|
    requires p.xstart < img.width && p.xstep > 0 && y < img.height && (p.xstep == 1 ==> p.xstart == 0)
    requires filter < 5 && (r.recon == [] ==> filter != 2) && r.offset <= |raw|
    requires raw[r.offset..] == FilterScanline(filter, PackedReduced(img, pixels, p, y), img.FilterUnit(), r.recon)
        + later
    ensures var next := r.offset + 1 + RowSize(img, p);
            && next <= |raw| && raw[next..] == later
            && ReadRow(img, raw, r, p, y) == Ok(Reading(canvas, next, PackedReduced(img, pixels, p, y)))
    ensures Improves(r.canvas, canvas, pixels) && RowDone(img, canvas, pixels, p, y, img.planes)
  {
    assert img.Legal() && |pixels| == Size(img);
    hide *;
    RowInFront(img, pixels, raw, r, p, y, filter, later);
    canvas := PutRowGood(img, r.canvas, pixels, p, y);
    LineIsRead(img, pixels, raw, r, p, y, canvas);
  }

  lemma RowInFront(img: Image, pixels: seq<nat>, raw: seq<Byte>, r: Reading, p: Pass, y: nat, filter: nat,
                   later: seq<Byte>)
    requires Holds(img, pixels) && p.xstart < img.width && p.xstep > 0 && y < img.height
    requires filter < 5 && (r.recon == [] ==> filter != 2) && r.offset <= |raw|
    requires raw[r.offset..] == FilterScanline(filter, PackedReduced(img, pixels, p, y), img.FilterUnit(), r.recon)
        + later
    ensures var next := r.offset + 1 + RowSize(img, p);
            && next <= |raw| && raw[next..] == later && raw[r.offset] <= 4
            && Unfiltered(raw[r.offset], Slice(raw, r.offset + 1, next), r.recon, img.FilterUnit())
               == PackedReduced(img, pixels, p, y)
  {
    hide *;
    LineLength(img, pixels, p, y);
    FilteredInFront(raw, r.offset, filter, PackedReduced(img, pixels, p, y), r.recon, img.FilterUnit(), later,
                    RowSize(img, p));
  }

  lemma LineIsRead(img: Image, pixels: seq<nat>, raw: seq<Byte>, r: Reading, p: Pass, y: nat, canvas: seq<nat>)
    requires Holds(img, pixels) && p.xstart < img.width && p.xstep > 0 && y < img.height
    requires var next := r.offset + 1 + RowSize(img, p);
             && next <= |raw| && raw[r.offset] <= 4
             && Unfiltered(raw[r.offset], Slice(raw, r.offset + 1, next), r.recon, img.FilterUnit())
                == PackedReduced(img, pixels, p, y)
    requires PutRow(img, r.canvas, p, y, ReducedRow(img, pixels, p, y)) == Ok(canvas)
    ensures ReadRow(img, raw, r, p, y)
         == Ok(Reading(canvas, r.offset + 1 + RowSize(img, p), PackedReduced(img, pixels, p, y)))
  {
    assert img.Legal();
    hide *;
    RowShape(img, pixels, p, y);
    ReadRowUnfolds(img, raw, r, p, y);
  }

  lemma LineLength(img: Image, pixels: seq<nat>, p: Pass, y: nat)
    requires Holds(img, pixels) && p.xstart < img.width && p.xstep > 0 && y < img.height
    ensures |PackedReduced(img, pixels, p, y)| == RowSize(img, p)
  {
    hide ReducedRow, Packed, Size, ByteCount;
    ReducedInRange(img, pixels, p, y);
    PackedLength(img.depth, ReducedRow(img, pixels, p, y));
  }

  /** A filtered line in front of the rest of a stream. */
  lemma FilteredInFront(raw: seq<Byte>, offset: nat, filter: nat, line: seq<Byte>, prev: seq<Byte>, unit: nat,
                        later: seq<Byte>,
                        size: nat)
    requires filter < 5 && unit > 0 && offset <= |raw| && (prev == [] ==> filter != 2) && |line| == size
    requires raw[offset..] == FilterScanline(filter, line, unit, prev) + later
    ensures var next := offset + 1 + size;
            && next <= |raw| && raw[next..] == later && raw[offset] == filter
            && Unfiltered(raw[offset], Slice(raw, offset + 1, next), prev, unit) == line
  {
    hide Unfiltered, Filtered;
    var body := Filtered(filter, line, prev, unit);
    var next := offset + 1 + size;
    assert raw[offset..] == [filter] + body + later;
    assert |raw| - offset == 1 + |body| + |later|;
    assert raw[offset] == raw[offset..][0] == filter;
    assert raw[offset + 1..next] == raw[offset..][1..1 + |body|] == body;
    assert raw[next..] == raw[offset..][1 + |body|..] == later;
    UnfilterInvertsFilter(filter, line, prev, unit);
  }

  /** What the reader takes a packed reduced row apart into. */
  lemma RowShape(img: Image, pixels: seq<nat>, p: Pass, y: nat)
    requires Holds(img, pixels) && p.xstart < img.width && p.xstep > 0 && y < img.height
    ensures SerialToFlat(img.depth, PackedReduced(img, pixels, p, y), img.Ppr(p)) == Row(ReducedRow(img, pixels, p, y))
  {
    hide ReducedRow, Packed;
    ReducedInRange(img, pixels, p, y);
    UnpackInvertsPack(img.depth, ReducedRow(img, pixels, p, y));
  }

  /** The rows of the pass from `y` on are done. */
  ghost predicate RowsDone(img: Image, canvas: seq<nat>, pixels: seq<nat>, p: Pass, y: nat)
    requires p.xstep > 0 && p.ystep > 0
  {
    forall z: nat :: y <= z < img.height && (z - y) % p.ystep == 0 ==> RowDone(img, canvas, pixels, p, z, img.planes)
  }

  lemma {:induction false} ReadRowsGood(img: Image, pixels: seq<nat>, raw: seq<Byte>, r: Reading, k: nat, y: nat,
                                        choice: Choice, later: seq<Byte>)
    returns (last: Reading)
    requires Holds(img, pixels) && |r.canvas| == |pixels|
    requires FiveTypes(choice) && NoFirstUp(img, choice) && k < 7 && PassAt(k).xstart < img.width
    requires (r.recon == [] ==> y == PassAt(k).ystart) && r.offset <= |raw|
    requires raw[r.offset..] == PassStream(img, pixels, choice, k, y, r.recon) + later
    ensures ReadRows(img, raw, r, PassAt(k), y) == Ok(last)
    ensures last.offset <= |raw| && raw[last.offset..] == later
    ensures Improves(r.canvas, last.canvas, pixels) && RowsDone(img, last.canvas, pixels, PassAt(k), y)
    decreases if y < img.height then img.height - y else 0
  {
    hide ReadRow, ReadRows, RowDone, RowsDone, FilterScanline, PackedReduced, PassStream, Size, RowSize, FiveTypes,
        NoFirstUp;
    var p := PassAt(k);
    if y >= img.height {
      NoRowsLeft(img, pixels, raw, r, k, y, choice, later);
      return r;
    }
    var line := PackedReduced(img, pixels, p, y);
    PassStreamCons(img, pixels, choice, k, y, r.recon, later);
    var canvas := ReadRowGood(img, pixels, raw, r, p, y, choice(k, y),
                              PassStream(img, pixels, choice, k, y + p.ystep, line) + later);
    LineNotEmpty(img, pixels, p, y);
    var next := Reading(canvas, r.offset + 1 + RowSize(img, p), line);
    last := ReadRowsGood(img, pixels, raw, next, k, y + p.ystep, choice, later);
    ReadRowsStep(img, raw, r, p, y);
    ImprovesTransitive(r.canvas, canvas, last.canvas, pixels);
    OneMoreRowDone(img, canvas, last.canvas, pixels, p, y);
  }

  lemma NoRowsLeft(img: Image, pixels: seq<nat>, raw: seq<Byte>, r: Reading, k: nat, y: nat, choice: Choice,
                   later: seq<Byte>)
    requires Holds(img, pixels) && |r.canvas| == |pixels| && FiveTypes(choice) && k < 7 && PassAt(k).xstart < img.width
    requires y >= img.height
    ensures PassStream(img, pixels, choice, k, y, r.recon) + later == later
    ensures ReadRows(img, raw, r, PassAt(k), y) == Ok(r)
    ensures Improves(r.canvas, r.canvas, pixels) && RowsDone(img, r.canvas, pixels, PassAt(k), y)
  {
    hide RowDone;
  }

  /** The stream of a pass begins with its first row. */
  lemma PassStreamCons(img: Image, pixels: seq<nat>, choice: Choice, k: nat, y: nat, prev: seq<Byte>, later: seq<Byte>)
    requires Holds(img, pixels) && FiveTypes(choice) && NoFirstUp(img, choice) && k < 7 && PassAt(k).xstart < img.width
    requires y < img.height && (prev == [] ==> y == PassAt(k).ystart)
    ensures choice(k, y) < 5 && (prev == [] ==> choice(k, y) != 2)
    ensures var p := PassAt(k);
            var line := PackedReduced(img, pixels, p, y);
            PassStream(img, pixels, choice, k, y, prev) + later
            == FilterScanline(choice(k, y), line, img.FilterUnit(), prev)
               + (PassStream(img, pixels, choice, k, y + p.ystep, line) + later)
  {
    hide FilterScanline, PackedReduced, Size;
  }

  lemma ReadRowsStep(img: Image, raw: seq<Byte>, r: Reading, p: Pass, y: nat)
    requires img.Legal() && p.xstart < img.width && p.xstep > 0 && p.ystep > 0
    ensures ReadRows(img, raw, r, p, y) ==
            if y >= img.height then Ok(r)
            else
              var row := ReadRow(img, raw, r, p, y);
              if row.Fail? then Fail(row.error) else ReadRows(img, raw, row.value, p, y + p.ystep)
  {
    hide ReadRow;
  }

  lemma OneMoreRowDone(img: Image, before: seq<nat>, now: seq<nat>, pixels: seq<nat>, p: Pass, y: nat)
    requires p.xstep > 0 && p.ystep > 0 && Improves(before, now, pixels)
    requires RowDone(img, before, pixels, p, y, img.planes) && RowsDone(img, now, pixels, p, y + p.ystep)
    ensures RowsDone(img, now, pixels, p, y)
  {
    hide RowDone;
    RowStaysDone(img, before, now, pixels, p, y, img.planes);
    forall z: nat | y <= z < img.height && (z - y) % p.ystep == 0
      ensures RowDone(img, now, pixels, p, z, img.planes)
    {
      if z > y { NextOfStep(z, y, p.ystep); }
    }
  }

  lemma NextOfStep(z: nat, y: nat, step: nat)
    requires step > 0 && z > y && (z - y) % step == 0
    ensures z >= y + step && (z - (y + step)) % step == 0
  {
    var q := (z - y) / step;
    assert q >= 1;
    MulMono(1, q, step);
    MulDistrib(q - 1, 1, step);
    QuotientIs(z - y - step, step, q - 1, 0);
  }

  lemma LineNotEmpty(img: Image, pixels: seq<nat>, p: Pass, y: nat)
    requires Holds(img, pixels) && p.xstart < img.width && p.xstep > 0 && y < img.height
    ensures PackedReduced(img, pixels, p, y) != []
  {
    hide ReducedRow;
    ReducedInRange(img, pixels, p, y);
    PackedLength(img.depth, ReducedRow(img, pixels, p, y));
    CeilDivIs(img.width - p.xstart, p.xstep, img.Ppr(p));
    if img.Ppr(p) > 0 {
      MulMono(1, img.Ppr(p), img.planes);
      PngStraight.RowTakesBytes(img.Ppr(p) * img.planes, img.depth);
    }
  }

  ghost predicate PassesDone(img: Image, canvas: seq<nat>, pixels: seq<nat>, k: nat) {
    forall m :: k <= m < 7 && PassAt(m).xstart < img.width ==>
        RowsDone(img, canvas, pixels, PassAt(m), PassAt(m).ystart)
  }

  lemma RowsStayDone(img: Image, before: seq<nat>, now: seq<nat>, pixels: seq<nat>, p: Pass, y: nat)
    requires p.xstep > 0 && p.ystep > 0 && Improves(before, now, pixels) && RowsDone(img, before, pixels, p, y)
    ensures RowsDone(img, now, pixels, p, y)
  {
    forall z: nat | y <= z < img.height && (z - y) % p.ystep == 0
      ensures RowDone(img, now, pixels, p, z, img.planes)
    {
      RowStaysDone(img, before, now, pixels, p, z, img.planes);
    }
  }

  lemma {:induction false} ReadPassesGood(img: Image, pixels: seq<nat>, raw: seq<Byte>, canvas: seq<nat>, offset: nat,
                                          k: nat, choice: Choice)
    returns (now: seq<nat>)
    requires Holds(img, pixels) && |canvas| == |pixels| && FiveTypes(choice) && NoFirstUp(img, choice) && k <= 7
        && offset <= |raw|
    requires raw[offset..] == InterlacedStream(img, pixels, choice, k)
    ensures ReadPasses(img, raw, canvas, offset, k) == Ok(now)
    ensures Improves(canvas, now, pixels) && PassesDone(img, now, pixels, k)
    decreases 7 - k
  {
    hide PassStream, ReadRows, ReadPasses, InterlacedStream, RowsDone, PassesDone, FiveTypes, NoFirstUp, Size;
    ReadPassesStep(img, raw, canvas, offset, k);
    if k == 7 {
      now := canvas;
      AfterLastPass(img, now, pixels);
    } else {
      InterlacedStreamCons(img, pixels, choice, k);
      var p := PassAt(k);
      if p.xstart >= img.width {
        now := ReadPassesGood(img, pixels, raw, canvas, offset, k + 1, choice);
      } else {
        var start := Reading(canvas, offset, []);
        var last := ReadRowsGood(img, pixels, raw, start, k, p.ystart, choice,
                                 InterlacedStream(img, pixels, choice, k + 1));
        now := ReadPassesGood(img, pixels, raw, last.canvas, last.offset, k + 1, choice);
        ImprovesTransitive(canvas, last.canvas, now, pixels);
        RowsStayDone(img, last.canvas, now, pixels, p, p.ystart);
      }
      OneMorePassDone(img, now, pixels, k);
    }
  }

  lemma ReadPassesStep(img: Image, raw: seq<Byte>, canvas: seq<nat>, offset: nat, k: nat)
    requires img.Legal() && k <= 7
    ensures ReadPasses(img, raw, canvas, offset, k) ==
            if k == 7 then Ok(canvas)
            else if PassAt(k).xstart >= img.width then ReadPasses(img, raw, canvas, offset, k + 1)
            else
              var r := ReadRows(img, raw, Reading(canvas, offset, []), PassAt(k), PassAt(k).ystart);
              if r.Fail? then Fail(r.error) else ReadPasses(img, raw, r.value.canvas, r.value.offset, k + 1)
  {
    hide ReadRows;
  }

  lemma InterlacedStreamCons(img: Image, pixels: seq<nat>, choice: Choice, k: nat)
    requires Holds(img, pixels) && FiveTypes(choice) && k < 7
    ensures InterlacedStream(img, pixels, choice, k) ==
            if PassAt(k).xstart >= img.width then InterlacedStream(img, pixels, choice, k + 1)
            else PassStream(img, pixels, choice, k, PassAt(k).ystart, []) + InterlacedStream(img, pixels, choice, k + 1)
  {
    hide PassStream, Size;
    var rest := InterlacedStream(img, pixels, choice, k + 1);
    assert [] + rest == rest;
  }

  lemma AfterLastPass(img: Image, now: seq<nat>, pixels: seq<nat>)
    requires |now| == |pixels|
    ensures Improves(now, now, pixels) && PassesDone(img, now, pixels, 7)
  {
  }

  lemma OneMorePassDone(img: Image, now: seq<nat>, pixels: seq<nat>, k: nat)
    requires k < 7 && PassesDone(img, now, pixels, k + 1)
    requires PassAt(k).xstart < img.width ==> RowsDone(img, now, pixels, PassAt(k), PassAt(k).ystart)
    ensures PassesDone(img, now, pixels, k)
  {
    hide RowsDone;
  }

  /** Since every pixel has a pass, a canvas on which all passes are done is the image. */
  lemma AllPassesCover(img: Image, canvas: seq<nat>, pixels: seq<nat>)
    requires img.Legal() && |canvas| == |pixels| == Size(img) && PassesDone(img, canvas, pixels, 0)
    ensures canvas == pixels
  {
    assert img.planes > 0 && img.width > 0;
    hide *;
    forall i | 0 <= i < |canvas|
      ensures canvas[i] == pixels[i]
    {
      IndexSurjective(img, i);
      PositionIsRight(img, canvas, pixels, PlaneAt(img, i), ColumnAt(img, i), RowAt(img, i));
    }
  }

  lemma PositionIsRight(img: Image, canvas: seq<nat>, pixels: seq<nat>, c: nat, x: nat, y: nat)
    requires img.Legal() && |canvas| == |pixels| == Size(img) && PassesDone(img, canvas, pixels, 0)
    requires x < img.width && y < img.height && c < img.planes && Index(img, x, y, c) < |canvas|
    ensures canvas[Index(img, x, y, c)] == pixels[Index(img, x, y, c)]
  {
    hide Index, Size;
    var k := PassOf(x, y);
    PassesPartition(x, y, k);
    var p := PassAt(k);
    assert RowsDone(img, canvas, pixels, p, p.ystart);
    assert RowDone(img, canvas, pixels, p, y, img.planes);
    assert InColumns(img, p, x);
    assert Right(img, canvas, pixels, x, y, c);
  }

  /** Deinterlacing a filtered interlaced stream gives the image: for every legal image, every image
      content, and every choice of filters without "up" on a first row. */
  lemma InterlacedRoundTrip(img: Image, pixels: seq<nat>, choice: Choice)
    requires Holds(img, pixels) && FiveTypes(choice) && NoFirstUp(img, choice)
    ensures Deinterlaced(img, InterlacedStream(img, pixels, choice, 0)) == Ok(pixels)
  {
    hide InterlacedStream, ReadPasses, PassesDone, Size;
    var raw := InterlacedStream(img, pixels, choice, 0);
    assert raw[0..] == raw;
    var now := ReadPassesGood(img, pixels, raw, Zeros(Size(img)), 0, 0, choice);
    AllPassesCover(img, now, pixels);
  }

  // ----- The writer's own stream

  lemma RowsOfPassInRange(img: Image, pixels: seq<nat>, p: Pass, y: nat)
    requires Holds(img, pixels) && p.xstart < img.width && p.xstep > 0 && p.ystep > 0
    ensures PngStraight.RowsInRange(img.depth, RowsOfPass(img, pixels, p, y))
    decreases if y < img.height then img.height - y else 0
  {
    hide ReducedRow, Size;
    if y < img.height {
      ReducedInRange(img, pixels, p, y);
      RowsOfPassInRange(img, pixels, p, y + p.ystep);
    }
  }

  lemma InterlacedRowsInRange(img: Image, pixels: seq<nat>, k: nat)
    requires Holds(img, pixels) && k <= 7
    ensures PngStraight.RowsInRange(img.depth, InterlacedRows(img, pixels, k))
    decreases 7 - k
  {
    hide RowsOfPass, Size;
    if k < 7 {
      if PassAt(k).xstart < img.width { RowsOfPassInRange(img, pixels, PassAt(k), PassAt(k).ystart); }
      InterlacedRowsInRange(img, pixels, k + 1);
    }
  }

  lemma {:induction false} StreamConcat(depth: nat, a: seq<seq<nat>>, b: seq<seq<nat>>)
    requires IsDepth(depth) && PngStraight.RowsInRange(depth, a) && PngStraight.RowsInRange(depth, b)
    ensures PngStraight.Stream(depth, a + b) == PngStraight.Stream(depth, a) + PngStraight.Stream(depth, b)
  {
    hide Packed;
    if a == [] {
      assert a + b == b;
    } else {
      assert (a + b)[0] == a[0] && (a + b)[1..] == a[1..] + b;
      StreamConcat(depth, a[1..], b);
    }
  }

  const NO_FILTER: Choice := (k: nat, y: nat) => 0

  lemma {:induction false} PassStreamUnfiltered(img: Image, pixels: seq<nat>, k: nat, y: nat, prev: seq<Byte>)
    requires Holds(img, pixels) && k < 7 && PassAt(k).xstart < img.width
    ensures PngStraight.RowsInRange(img.depth, RowsOfPass(img, pixels, PassAt(k), y))
    ensures PassStream(img, pixels, NO_FILTER, k, y, prev)
         == PngStraight.Stream(img.depth, RowsOfPass(img, pixels, PassAt(k), y))
    decreases if y < img.height then img.height - y else 0
  {
    hide Packed, ReducedRow, Filtered, Size;
    var p := PassAt(k);
    RowsOfPassInRange(img, pixels, p, y);
    if y < img.height {
      ReducedInRange(img, pixels, p, y);
      var line := PackedReduced(img, pixels, p, y);
      NoneIsIdentity(line, prev, img.FilterUnit());
      PassStreamUnfiltered(img, pixels, k, y + p.ystep, line);
      var rest := RowsOfPass(img, pixels, p, y + p.ystep);
      assert ([ReducedRow(img, pixels, p, y)] + rest)[1..] == rest;
    }
  }

  lemma {:induction false} InterlacedStreamUnfiltered(img: Image, pixels: seq<nat>, k: nat)
    requires Holds(img, pixels) && k <= 7
    ensures PngStraight.RowsInRange(img.depth, InterlacedRows(img, pixels, k))
    ensures InterlacedStream(img, pixels, NO_FILTER, k) == PngStraight.Stream(img.depth, InterlacedRows(img, pixels, k))
    decreases 7 - k
  {
    hide PassStream, RowsOfPass, Size;
    InterlacedRowsInRange(img, pixels, k);
    if k < 7 {
      InterlacedStreamUnfiltered(img, pixels, k + 1);
      var rest := InterlacedRows(img, pixels, k + 1);
      if PassAt(k).xstart < img.width {
        PassStreamUnfiltered(img, pixels, k, PassAt(k).ystart, []);
        StreamConcat(img.depth, RowsOfPass(img, pixels, PassAt(k), PassAt(k).ystart), rest);
      } else {
        assert [] + rest == rest;
      }
    }
  }
}
