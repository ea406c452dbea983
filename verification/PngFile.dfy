/** Whole PNG files: header, metadata, image data and end, written chunk by chunk and read again. */
module PngFile {
  import opened PngFilter
  import opened PngHeader
  import opened PngPacking
  import opened PngPalette
  import opened PngChunks
  import opened PngInterlace
  import opened PngDeinterlace
  import opened PngImage
  import opened PngMetadata
  import opened Wrappers
  import PngStraight

  /** Errors of the file and of the image data. An image without pixels is not read. */
  datatype Error = File(file: PngHeader.Error) | Data(data: PngDeinterlace.Error) | NoPixels

  function ImageOf(h: Ihdr): Image {
    Image(h.width, h.height, h.Planes(), h.depth)
  }

  /** Every allowed header announces an image the row layer can handle, unless it is empty. */
  lemma AllowedIsLegal(h: Ihdr)
    requires h.Allowed()
    ensures ImageOf(h).Legal() <==> h.width > 0 && h.height > 0
  {
  }

  // ----- Writing

  function Idats(idat: seq<seq<Byte>>): (cs: seq<Chunk>)
    ensures |cs| == |idat| && forall i :: 0 <= i < |cs| ==> cs[i] == Chunk(IDAT, idat[i])
  {
    seq(|idat|, i requires 0 <= i < |idat| => Chunk(IDAT, idat[i]))
  }

  const END := Chunk(IEND, [])

  /** The chunks of a file: header, metadata, image data, end. */
  function FileChunks(h: Ihdr, metadata: seq<Chunk>, idat: seq<seq<Byte>>): seq<Chunk>
    requires h.Packable()
  {
    [Chunk(IHDR, IhdrData(h))] + metadata + (Idats(idat) + [END])
  }

  /** write_array: the IDAT pieces hold the stream of the image's rows. */
  method WriteFile(crc: Crc, h: Ihdr, o: Options, pixels: seq<nat>, chunkLimit: nat)
    returns (file: Result<seq<Byte>, PngHeader.Error>, ghost idat: seq<seq<Byte>>)
    requires Checked(h, o) && Holds(ImageOf(h), pixels)
    ensures IsIdat(h, pixels, idat)
    ensures var cs := FileChunks(h, MetadataChunks(h, o), idat);
      file == if PngChunks.Packable(cs) then Ok(SIGNATURE + WrittenChunks(crc, cs))
              else Fail(PngHeader.Error.StructError)
  {
    var pieces := WriteArray(ImageOf(h), h.interlace, pixels, chunkLimit);
    idat := pieces;
    file := WriteChunks(crc, FileChunks(h, MetadataChunks(h, o), pieces));
  }

  /** Pieces of the stream of an image, cut anywhere. */
  predicate IsIdat(h: Ihdr, pixels: seq<nat>, idat: seq<seq<Byte>>)
    requires Holds(ImageOf(h), pixels)
  {
    FileRowsInRange(ImageOf(h), h.interlace, pixels);
    PngStraight.Flatten(idat) == PngStraight.Stream(h.depth, FileRows(ImageOf(h), h.interlace, pixels))
  }

  // ----- Reading

  function IdatData(cs: seq<Chunk>): seq<seq<Byte>> {
    if cs == [] then []
    else (if cs[0].tag == IDAT then [cs[0].data] else []) + IdatData(cs[1..])
  }

  /** What is read of the image data: the pieces, and the error that ended it. */
  datatype Pieces = Pieces(idat: seq<seq<Byte>>, error: Option<PngHeader.Error>)

  function PiecesOf(l: Listing): Pieces {
    Pieces(IdatData(l.chunks), l.error)
  }

  /** iteridat: the data of the IDAT chunks up to IEND; other chunks are skipped. */
  method IterIdat(reader: Reader) returns (p: Pieces)
    requires reader.Valid() && reader.Start().Ok?
    modifies reader`position, reader`atchunk, reader`signature
    ensures p == PiecesOf(Chunks(reader.crc, old(reader.Start()).value))
  {
    hide NextChunk, Reader.Rest;
    var idat: seq<seq<Byte>> := [];
    ghost var all := Chunks(reader.crc, reader.Start().value);
    while true
      invariant reader.Valid() && reader.Start().Ok?
      invariant PiecesOf(all) == Behind(idat, PiecesOf(Chunks(reader.crc, reader.Start().value)))
      decreases |reader.Start().value.bytes|
    {
      ghost var place := reader.Start().value;
      ChunksStep(reader.crc, place);
      var next := reader.ReadChunk(None);
      if next.Fail? { return Pieces(idat, Some(next.error)); }
      if next.value.tag == IEND { return Pieces(idat, None); }
      if next.value.tag != IDAT { continue; }
      idat := idat + [next.value.data];
    }
  }

  function Behind(idat: seq<seq<Byte>>, p: Pieces): Pieces {
    p.(idat := idat + p.idat)
  }

  lemma ChunksStep(crc: Crc, p: Place)
    ensures var r := NextChunk(crc, p, None);
      PiecesOf(Chunks(crc, p)) ==
      if r.Fail? then Pieces([], Some(r.error))
      else if r.value.0.tag == IEND then Pieces([], None)
      else
        var rest := PiecesOf(Chunks(crc, Place(r.value.1, None)));
        if r.value.0.tag == IDAT then Behind([r.value.0.data], rest) else rest
  {
    hide NextChunk;
    var r := NextChunk(crc, p, None);
    if r.Ok? {
      IdatDataCons(r.value.0, []);
      IdatDataCons(r.value.0, Chunks(crc, Place(r.value.1, None)).chunks);
      assert IEND != IDAT && [r.value.0] + [] == [r.value.0];
    }
  }

  lemma IdatDataCons(c: Chunk, cs: seq<Chunk>)
    ensures IdatData([c] + cs) == (if c.tag == IDAT then [c.data] else []) + IdatData(cs)
    ensures [] + IdatData(cs) == IdatData(cs)
  {
    assert ([c] + cs)[1..] == cs;
  }

  /** read_flat as a function of the whole file. */
  function ReadFileOf(crc: Crc, file: seq<Byte>): Result<(Ihdr, seq<nat>), Error> {
    if !(SIGNATURE <= file) then Fail(File(PngHeader.Error.FormatError))
    else
      match Preamble(crc, Place(file[8..], None), NOTHING)
      case Fail(e) => Fail(File(e))
      case Ok((place, meta)) => ReadData(meta, PiecesOf(Chunks(crc, place)))
  }

  function ReadData(meta: Meta, p: Pieces): Result<(Ihdr, seq<nat>), Error> {
    if meta.header.None? then Fail(File(AttributeError))
    else
      var h := meta.header.value;
      if !ImageOf(h).Legal() then Fail(NoPixels)
      else if p.error.Some? then Fail(File(p.error.value))
      else
        match ReadFlatOf(ImageOf(h), h.interlace, PngStraight.Flatten(p.idat))
        case Fail(e) => Fail(Data(e))
        case Ok(pixels) => Ok((h, pixels))
  }

  /** A reader that has read nothing yet. */
  predicate IsNew(reader: Reader)
    reads reader
  {
    reader.position == 0 && reader.signature == [] && reader.atchunk == None && reader.meta == NOTHING
  }

  /** read_flat on a new reader. */
  method ReadFile(reader: Reader) returns (r: Result<(Ihdr, seq<nat>), Error>)
    requires IsNew(reader)
    modifies reader
    ensures r == ReadFileOf(reader.crc, reader.file)
  {
    assert reader.Valid() && reader.meta == NOTHING;
    hide Preamble, Chunks, ReadFlatOf, IdatData;
    StartOf(reader);
    var error := reader.ReadPreamble();
    if error.Some? { return Fail(File(error.value)); }
    if reader.meta.header.None? { return Fail(File(AttributeError)); }
    var h := reader.meta.header.value;
    if !ImageOf(h).Legal() { return Fail(NoPixels); }
    var p := IterIdat(reader);
    if p.error.Some? { return Fail(File(p.error.value)); }
    var pixels := ReadFlat(ImageOf(h), h.interlace, p.idat);
    if pixels.Fail? { return Fail(Data(pixels.error)); }
    r := Ok((h, pixels.value));
  }

  lemma StartOf(reader: Reader)
    requires IsNew(reader)
    ensures reader.Valid()
    ensures reader.Start() ==
            if SIGNATURE <= reader.file then Ok(Place(reader.file[8..], None)) else Fail(PngHeader.Error.FormatError)
  {
    assert reader.file[reader.position..] == reader.file;
    assert SIGNATURE <= reader.file ==> reader.file[reader.position + 8..] == reader.file[reader.position..][8..];
  }

  // ----- The round trip

  /** Chunks between the header and the image data, none of which ends the metadata early. */
  predicate IsMetadata(metadata: seq<Chunk>) {
    Readable(metadata) && forall c :: c in metadata ==> c.tag !in {IHDR, IDAT, IEND}
  }

  /** The preamble runs over chunks other than IDAT, up to the first one it does not accept. */
  lemma {:induction false} PreambleSkips(crc: Crc, front: seq<Chunk>, bytes: seq<Byte>, m: Meta)
    requires Readable(front) && forall c :: c in front ==> c.tag != IDAT
    ensures PngChunks.Packable(front)
    ensures var meta := ProcessedAll(m, front);
      Preamble(crc, Place(WrittenChunks(crc, front) + bytes, None), m)
      == if meta.Ok? then Preamble(crc, Place(bytes, None), meta.value) else Fail(meta.error)
    decreases |front|
  {
    hide Preamble, WrittenChunk, Processed;
    if front == [] {
      assert [] + bytes == bytes;
    } else {
      var c, rest := front[0], WrittenChunks(crc, front[1..]);
      assert c in front && forall d :: d in front[1..] ==> d in front;
      assert WrittenChunk(crc, c) + rest + bytes == WrittenChunk(crc, c) + (rest + bytes);
      PreambleStep(crc, c, rest + bytes, m);
      if Processed(m, c).Ok? { PreambleSkips(crc, front[1..], bytes, Processed(m, c).value); }
    }
  }

  lemma {:induction false} WrittenConcat(crc: Crc, a: seq<Chunk>, b: seq<Chunk>)
    requires PngChunks.Packable(a + b)
    ensures PngChunks.Packable(a) && PngChunks.Packable(b)
    ensures WrittenChunks(crc, a + b) == WrittenChunks(crc, a) + WrittenChunks(crc, b)
    decreases |a|
  {
    hide WrittenChunk;
    assert forall i :: 0 <= i < |b| ==> b[i] == (a + b)[|a| + i];
    assert forall i :: 0 <= i < |a| ==> a[i] == (a + b)[i];
    if a == [] {
      assert a + b == b;
    } else {
      assert (a + b)[0] == a[0] && (a + b)[1..] == a[1..] + b;
      WrittenConcat(crc, a[1..], b);
    }
  }

  /** The pieces come back exactly when each has a length of 31 bits. */
  predicate SmallPieces(idat: seq<seq<Byte>>) {
    forall i :: 0 <= i < |idat| ==> |idat[i]| < 0x8000_0000
  }

  lemma {:induction false} PiecesReadBack(crc: Crc, idat: seq<seq<Byte>>)
    requires PngChunks.Packable(Idats(idat) + [END])
    ensures PiecesOf(Chunks(crc, Place(WrittenChunks(crc, Idats(idat) + [END]), None))).error
         == if SmallPieces(idat) then None else Some(PngHeader.Error.FormatError)
    ensures SmallPieces(idat) ==>
      PiecesOf(Chunks(crc, Place(WrittenChunks(crc, Idats(idat) + [END]), None))).idat == idat
    decreases |idat|
  {
    hide WrittenChunk, NextChunk, Chunks, PiecesOf;
    var cs := Idats(idat) + [END];
    assert cs == [cs[0]] + cs[1..];
    var rest := WrittenChunks(crc, cs[1..]);
    ChunkReadBack(crc, cs[0], rest);
    ChunksStep(crc, Place(WrittenChunks(crc, cs), None));
    if idat != [] {
      assert cs[1..] == Idats(idat[1..]) + [END];
      if |idat[0]| < 0x8000_0000 {
        PiecesReadBack(crc, idat[1..]);
        assert SmallPieces(idat) <==> SmallPieces(idat[1..]) by {
          assert forall i :: 1 <= i < |idat| ==> idat[i] == idat[1..][i - 1];
        }
      }
    }
  }

  /** Where the preamble stops: at the first IDAT, if its length has 31 bits. */
  lemma PreambleStops(crc: Crc, idat: seq<seq<Byte>>, m: Meta)
    requires idat != [] && PngChunks.Packable(Idats(idat) + [END])
    ensures var bytes := WrittenChunks(crc, Idats(idat) + [END]);
      var r := Preamble(crc, Place(bytes, None), m);
      if |idat[0]| < 0x8000_0000 then
        r.Ok? && r.value.1 == m && Chunks(crc, r.value.0) == Chunks(crc, Place(bytes, None))
      else r == Fail(PngHeader.Error.FormatError)
  {
    hide WrittenChunk, Chunks, NextChunk, Processed;
    var cs := Idats(idat) + [END];
    assert cs[0] == Chunk(IDAT, idat[0]);
    var rest := WrittenChunks(crc, cs[1..]);
    if |idat[0]| < 0x8000_0000 {
      PreambleStep(crc, cs[0], rest, m);
    } else {
      BigChunkAhead(crc, cs[0], rest);
    }
  }

  lemma BigChunkAhead(crc: Crc, c: Chunk, rest: seq<Byte>)
    requires 0x8000_0000 <= |c.data| < 0x1_0000_0000
    ensures var bytes := WrittenChunk(crc, c) + rest;
      bytes != [] && NextHeader(bytes) == Fail(PngHeader.Error.FormatError)
  {
    WrittenParts(crc, c, rest);
    PngHeader.UnpackInvertsPack(|c.data|);
    hide WrittenChunk, Pack, Unpack, Checksum;
  }

  /** Everything in front of the image data is taken note of, or refused. */
  lemma FrontIsProcessed(h: Ihdr, metadata: seq<Chunk>)
    requires h.Packable() && h.Allowed() && IsMetadata(metadata)
    ensures var front := [Chunk(IHDR, IhdrData(h))] + metadata;
      && Readable(front) && (forall c :: c in front ==> c.tag != IDAT)
      && ProcessedAll(NOTHING, front) == ProcessedAll(NOTHING.(header := Some(h)), metadata)
      && (ProcessedAll(NOTHING, front).Ok? ==> ProcessedAll(NOTHING, front).value.header == Some(h))
  {
    hide IhdrData, ParseIhdr;
    var c := Chunk(IHDR, IhdrData(h));
    var front := [c] + metadata;
    IhdrReadBack(h);
    assert front[1..] == metadata;
    assert Processed(NOTHING, c) == Ok(NOTHING.(header := Some(h)));
    if ProcessedAll(NOTHING, front).Ok? { ProcessedAllKeepsHeader(NOTHING.(header := Some(h)), metadata); }
  }

  lemma StreamNotEmpty(h: Ihdr, pixels: seq<nat>, idat: seq<seq<Byte>>)
    requires Holds(ImageOf(h), pixels) && IsIdat(h, pixels, idat)
    ensures idat != []
  {
    FileRowsInRange(ImageOf(h), h.interlace, pixels);
    hide FileRows;
  }

  /** A whole file: the header and all pixels come back, for every allowed header, every image content,
      and however the stream was cut, if and only if the reader accepts the metadata and each piece has a
      length of 31 bits. */
  lemma FileRoundTrip(crc: Crc, h: Ihdr, metadata: seq<Chunk>, pixels: seq<nat>, idat: seq<seq<Byte>>)
    requires h.Packable() && h.Allowed() && IsMetadata(metadata)
    requires Holds(ImageOf(h), pixels) && IsIdat(h, pixels, idat)
    requires PngChunks.Packable(FileChunks(h, metadata, idat))
    ensures ReadFileOf(crc, SIGNATURE + WrittenChunks(crc, FileChunks(h, metadata, idat))) == Ok((h, pixels))
       <==> ProcessedAll(NOTHING.(header := Some(h)), metadata).Ok? && SmallPieces(idat)
  {
    hide Preamble, Chunks, PiecesOf, ReadFlatOf, WrittenChunks, Idats, IsIdat, IsMetadata, Readable, ProcessedAll,
      Holds, IhdrData, FileRows;
    var front, back := [Chunk(IHDR, IhdrData(h))] + metadata, Idats(idat) + [END];
    FrontIsProcessed(h, metadata);
    StreamNotEmpty(h, pixels, idat);
    WrittenConcat(crc, front, back);
    var bytes := WrittenChunks(crc, back);
    PreambleSkips(crc, front, bytes, NOTHING);
    if ProcessedAll(NOTHING, front).Ok? { PreambleStops(crc, idat, ProcessedAll(NOTHING, front).value); }
    PiecesReadBack(crc, idat);
    var file := SIGNATURE + WrittenChunks(crc, FileChunks(h, metadata, idat));
    assert file[8..] == WrittenChunks(crc, FileChunks(h, metadata, idat));
    DataReadBack(h, pixels, idat);
  }

  /** The same for the metadata a writer makes of its options. */
  lemma WrittenFileIsRead(crc: Crc, h: Ihdr, o: Options, pixels: seq<nat>, idat: seq<seq<Byte>>)
    requires Checked(h, o) && Holds(ImageOf(h), pixels) && IsIdat(h, pixels, idat)
    requires PngChunks.Packable(FileChunks(h, MetadataChunks(h, o), idat))
    ensures ReadFileOf(crc, SIGNATURE + WrittenChunks(crc, FileChunks(h, MetadataChunks(h, o), idat)))
        == Ok((h, pixels))
       <==> Acceptance(h, o) && SmallPieces(idat)
  {
    hide ReadFileOf, WrittenChunks, FileChunks, MetadataChunks, IsIdat, IsMetadata, ProcessedAll, Holds, Acceptance,
        SmallPieces;
    MetadataIsReadExactly(h, o);
    MetadataShape(h, o);
    FileRoundTrip(crc, h, MetadataChunks(h, o), pixels, idat);
  }

  lemma MetadataShape(h: Ihdr, o: Options)
    requires Checked(h, o)
    ensures IsMetadata(MetadataChunks(h, o))
  {
    OtherTags();
    OptionalChunk(GAMA, GammaChunks(o)) by { hide Pack; }
    OptionalChunk(SBIT, SbitChunks(h, o));
    PaletteShape(o);
    ColourShape(TRNS, o.transparent);
    ColourShape(BKGD, o.background);
    hide *;
    var colours := ColourChunks(TRNS, o.transparent) + ColourChunks(BKGD, o.background);
    MetadataConcat(ColourChunks(TRNS, o.transparent), ColourChunks(BKGD, o.background));
    MetadataConcat(PaletteChunks(o), colours);
    MetadataConcat(SbitChunks(h, o), PaletteChunks(o) + colours);
    MetadataConcat(GammaChunks(o), SbitChunks(h, o) + (PaletteChunks(o) + colours));
    MetadataIs(h, o);
  }

  lemma OptionalChunk(tag: Tag, cs: seq<Chunk>)
    requires tag !in {IHDR, IDAT, IEND} && |cs| <= 1
    requires forall i :: 0 <= i < |cs| ==> cs[i].tag == tag && |cs[i].data| < 0x8000_0000
    ensures IsMetadata(cs)
  {
  }

  lemma PaletteShape(o: Options)
    requires o.palette.Some? ==> Acceptable(o.palette.value)
    ensures IsMetadata(PaletteChunks(o))
  {
    OtherTags();
    if o.palette.Some? { ColoursLength(o.palette.value); }
    hide Colours, Alphas;
  }

  lemma ColourShape(tag: Tag, colour: Option<seq<nat>>)
    requires tag !in {IHDR, IDAT, IEND} && (colour.Some? ==> InRange(16, colour.value) && |colour.value| <= 3)
    ensures IsMetadata(ColourChunks(tag, colour))
  {
    if colour.Some? { WordsOfPacked(colour.value); }
    hide Packed;
  }

  lemma MetadataConcat(a: seq<Chunk>, b: seq<Chunk>)
    requires IsMetadata(a) && IsMetadata(b)
    ensures IsMetadata(a + b)
  {
  }

  lemma OtherTags()
    ensures {GAMA, SBIT, PLTE, TRNS, BKGD} !! {IHDR, IDAT, IEND}
  {
    assert GAMA[0] == 103 && SBIT[0] == 115 && PLTE[0] == 80 && TRNS[0] == 116 && BKGD[0] == 98;
  }

  lemma DataReadBack(h: Ihdr, pixels: seq<nat>, idat: seq<seq<Byte>>)
    requires Holds(ImageOf(h), pixels) && IsIdat(h, pixels, idat)
    ensures ImageOf(h).Legal() && ReadFlatOf(ImageOf(h), h.interlace, PngStraight.Flatten(idat)) == Ok(pixels)
  {
    hide ReadFlatOf, FileRows, PngStraight.Stream;
    ImageRoundTrip(ImageOf(h), h.interlace, pixels);
  }
}
