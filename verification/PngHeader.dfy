/** What the chunks in front of the image data say: numbers and chunk types, the header of a PNG file,
    and what the reader makes of each of these chunks. */
module PngHeader {
  import opened Arithmetic
  import opened PngFilter
  import opened Wrappers

  /** A format error, any other error of this library, and the errors of Python itself that escape. */
  datatype Error = FormatError | LibraryError | ChunkError | NameError | TypeError | StructError | AttributeError

  /** A chunk type: four bytes. */
  type Tag = t: seq<Byte> | |t| == 4 witness [0, 0, 0, 0]

  datatype Chunk = Chunk(tag: Tag, data: seq<Byte>)

  const IHDR: Tag := [73, 72, 68, 82]
  const PLTE: Tag := [80, 76, 84, 69]
  const TRNS: Tag := [116, 82, 78, 83]
  const BKGD: Tag := [98, 75, 71, 68]
  const GAMA: Tag := [103, 65, 77, 65]
  const SBIT: Tag := [115, 66, 73, 84]
  const IDAT: Tag := [73, 68, 65, 84]
  const IEND: Tag := [73, 69, 78, 68]

  // ----- Numbers

  /** A number in four bytes, the highest first. */
  function Pack(n: nat): (b: seq<Byte>)
    requires n < 0x1_0000_0000
    ensures |b| == 4
  {
    [n / 0x100_0000, n / 0x1_0000 % 0x100, n / 0x100 % 0x100, n % 0x100]
  }

  function Shifted(high: nat, low: nat): nat {
    high * 0x100 + low
  }

  function Unpack(b: seq<Byte>): (n: nat)
    requires |b| == 4
    ensures n < 0x1_0000_0000
  {
    Shifted(Shifted(Shifted(b[0], b[1]), b[2]), b[3])
  }

  lemma UnpackInvertsPack(n: nat)
    requires n < 0x1_0000_0000
    ensures Unpack(Pack(n)) == n
  {
    assert n / 0x1_0000 == n / 0x100 / 0x100 && n / 0x100_0000 == n / 0x100 / 0x100 / 0x100;
  }

  /** The highest byte comes first (section 7.1 of W3C REC-PNG-20031110). */
  lemma PackIsBigEndian(n: nat)
    requires n < 0x1_0000_0000
    ensures var b := Pack(n);
            var b0: int, b1: int, b2: int, b3: int := b[0], b[1], b[2], b[3];
            n == b0 * 0x100_0000 + b1 * 0x1_0000 + b2 * 0x100 + b3
  {
    assert n / 0x1_0000 == n / 0x100 / 0x100 && n / 0x100_0000 == n / 0x100 / 0x100 / 0x100;
  }

  // ----- Names

  /** The codes of ASCII chars. */
  function Codes(s: string): (bytes: seq<Byte>)
    requires forall i :: 0 <= i < |s| ==> s[i] < 128 as char
  {
    seq(|s|, i requires 0 <= i < |s| => s[i] as int)
  }

  /** The types are the four letters by which the standard calls the chunks. */
  lemma TagsAreNames()
    ensures IHDR == Codes("IHDR") && PLTE == Codes("PLTE") && IDAT == Codes("IDAT") && IEND == Codes("IEND")
    ensures TRNS == Codes("tRNS") && BKGD == Codes("bKGD") && GAMA == Codes("gAMA") && SBIT == Codes("sBIT")
  {
  }

  // ----- The header

  /** Colour types: 1 for a palette, 2 for colour, 4 for an alpha channel, added up. */
  datatype Ihdr = Ihdr(width: nat, height: nat, depth: nat, colourType: nat, interlace: bool) {

    predicate Colormap() {
      colourType % 2 == 1
    }

    predicate Greyscale() {
      colourType / 2 % 2 == 0
    }

    predicate Alpha() {
      colourType / 4 % 2 == 1
    }

    function ColourPlanes(): nat {
      if Greyscale() || Colormap() then 1 else 3
    }

    function Planes(): nat {
      ColourPlanes() + if Alpha() then 1 else 0
    }

    /** The combinations the standard allows (table 11.1 of W3C REC-PNG-20031110). */
    predicate Allowed() {
      match colourType
      case 0 => depth in {1, 2, 4, 8, 16}
      case 3 => depth in {1, 2, 4, 8}
      case 2 => depth in {8, 16}
      case 4 => depth in {8, 16}
      case 6 => depth in {8, 16}
      case _ => false
    }

    /** The fields have four bytes and one byte each. */
    predicate Packable() {
      width < 0x1_0000_0000 && height < 0x1_0000_0000 && depth < 256 && colourType < 256
    }
  }

  /** The data of the IHDR chunk that write_passes writes. */
  function IhdrData(h: Ihdr): (data: seq<Byte>)
    requires h.Packable()
    ensures |data| == 13
  {
    Pack(h.width) + Pack(h.height) + [h.depth, h.colourType, 0, 0, if h.interlace then 1 else 0]
  }

  function ParseIhdr(data: seq<Byte>): Result<Ihdr, Error> {
    if |data| != 13 then Fail(FormatError)
    else
      var h := Ihdr(Unpack(data[..4]), Unpack(data[4..8]), data[8], data[9], data[12] == 1);
      if h.depth !in {1, 2, 4, 8, 16} then Fail(LibraryError)
      else if h.colourType !in {0, 2, 3, 4, 6} then Fail(LibraryError)
      else if (h.Colormap() && h.depth > 8) || (h.depth < 8 && h.colourType !in {0, 3}) then Fail(FormatError)
      else if data[10] != 0 then Fail(LibraryError)
      else if data[11] != 0 || data[12] > 1 then Fail(FormatError)
      else Ok(h)
  }

  /** A written header is read back exactly when the standard allows its combination of depth and colour
      type. */
  lemma IhdrReadBack(h: Ihdr)
    requires h.Packable()
    ensures h.Allowed() <==> ParseIhdr(IhdrData(h)) == Ok(h)
    ensures !h.Allowed() ==> ParseIhdr(IhdrData(h)).Fail?
  {
    UnpackInvertsPack(h.width);
    UnpackInvertsPack(h.height);
    hide Pack, Unpack;
    var data := IhdrData(h);
    assert data[..4] == Pack(h.width) && data[4..8] == Pack(h.height);
  }

  lemma PackInvertsUnpack(b: seq<Byte>)
    requires |b| == 4
    ensures Pack(Unpack(b)) == b
  {
    var b0: nat, b1: nat, b2: nat, b3: nat := b[0], b[1], b[2], b[3];
    var n := Unpack(b);
    QuotientIs(n, 0x100, b0 * 0x1_0000 + b1 * 0x100 + b2, b3);
    QuotientIs(n, 0x1_0000, b0 * 0x100 + b1, b2 * 0x100 + b3);
    QuotientIs(n, 0x100_0000, b0, b1 * 0x1_0000 + b2 * 0x100 + b3);
    QuotientIs(b0 * 0x1_0000 + b1 * 0x100 + b2, 0x100, b0 * 0x100 + b1, b2);
    QuotientIs(b0 * 0x100 + b1, 0x100, b0, b1);
  }

  /** Which bytes are a header, exactly: those that would be written for an allowed one. */
  lemma HeadersExactly(data: seq<Byte>, h: Ihdr)
    ensures ParseIhdr(data) == Ok(h) <==> h.Packable() && h.Allowed() && data == IhdrData(h)
  {
    if h.Packable() { IhdrReadBack(h); }
    if ParseIhdr(data) == Ok(h) {
      PackInvertsUnpack(data[..4]);
      PackInvertsUnpack(data[4..8]);
      hide Pack, Unpack;
      assert data == data[..4] + data[4..8] + data[8..];
      assert data[8..] == [h.depth, h.colourType, 0, 0, if h.interlace then 1 else 0];
    }
  }

  /** The places of the fields, on an interlaced colour image one wide and two high. */
  lemma HeaderExample()
    ensures IhdrData(Ihdr(1, 2, 8, 2, true)) == [0, 0, 0, 1, 0, 0, 0, 2, 8, 2, 0, 0, 1]
  {
  }

  /** Whatever the bytes, an accepted header is one the standard allows, with the planes of its colour
      type. */
  lemma ParsedIsAllowed(data: seq<Byte>)
    requires ParseIhdr(data).Ok?
    ensures var h := ParseIhdr(data).value;
            && h.Allowed() && h.Packable()
            && h.Planes() == match h.colourType case 0 => 1 case 3 => 1 case 2 => 3 case 4 => 2 case _ => 4
  {
    hide Unpack;
  }

  // ----- The chunks in front of the image data

  /** What the reader knows so far. */
  datatype Meta = Meta(header: Option<Ihdr>, plte: Option<seq<Byte>>, trns: Option<seq<Byte>>, sbit: Option<seq<Byte>>,
                       background: Option<seq<Byte>>, gamma: Option<seq<Byte>>)

  const NOTHING := Meta(None, None, None, None, None, None)

  /** process_chunk on a chunk that was read. Chunks that need the header fail without one. */
  function Processed(m: Meta, c: Chunk): Result<Meta, Error> {
    if c.tag == IHDR then
      var h := ParseIhdr(c.data);
      if h.Fail? then Fail(h.error) else Ok(m.(header := Some(h.value), plte := None, trns := None, sbit := None))
    else if c.tag == GAMA then
      if |c.data| != 4 then Fail(FormatError) else Ok(m.(gamma := Some(c.data)))
    else if c.tag !in {PLTE, BKGD, TRNS, SBIT} then Ok(m)
    else if m.header.None? then Fail(AttributeError)
    else
      var h := m.header.value;
      if c.tag == PLTE then
        if |c.data| % 3 != 0 || |c.data| > PaletteSize(h.depth) * 3 || |c.data| == 0 then Fail(FormatError)
        else Ok(m.(plte := Some(c.data)))
      else if c.tag == BKGD then
        if |c.data| != (if h.Colormap() then 1 else 2 * h.ColourPlanes()) then Fail(FormatError)
        else Ok(m.(background := Some(c.data)))
      else if c.tag == SBIT then
        if |c.data| != (if h.Colormap() then 3 else h.Planes()) then Fail(FormatError)
        else Ok(m.(sbit := Some(c.data)))
      else if h.Colormap() then
        if m.plte.Some? && |c.data| > |m.plte.value| / 3 then Fail(FormatError) else Ok(m.(trns := Some(c.data)))
      else if h.Alpha() || |c.data| != 2 * h.ColourPlanes() then Fail(FormatError)
      else Ok(m.(trns := Some(c.data)))
  }

  /** 2**bitdepth */
  function PaletteSize(depth: nat): nat {
    if depth == 0 then 1 else 2 * PaletteSize(depth - 1)
  }

  /** The lengths that are accepted behind a header, by colour type (sections 11.2 and 11.3 of W3C
      REC-PNG-20031110; sBIT of a palette image describes three colours). */
  lemma AcceptedLengths(m: Meta, h: Ihdr, data: seq<Byte>)
    requires m.header == Some(h) && h.Allowed()
    ensures var n, t := |data|, h.colourType;
            && (Processed(m, Chunk(GAMA, data)).Ok? <==> n == 4)
            && (Processed(m, Chunk(PLTE, data)).Ok? <==> n % 3 == 0 && 0 < n <= 3 * PaletteSize(h.depth))
            && (Processed(m, Chunk(BKGD, data)).Ok? <==>
                  || (t == 0 && n == 2) || (t == 2 && n == 6) || (t == 3 && n == 1)
                  || (t == 4 && n == 2) || (t == 6 && n == 6))
            && (Processed(m, Chunk(SBIT, data)).Ok? <==>
                  || (t == 0 && n == 1) || (t == 2 && n == 3) || (t == 3 && n == 3)
                  || (t == 4 && n == 2) || (t == 6 && n == 4))
            && (Processed(m, Chunk(TRNS, data)).Ok? <==>
                  (t == 0 && n == 2) || (t == 2 && n == 6)
                  || (t == 3 && (m.plte.Some? ==> n <= |m.plte.value| / 3)))
  {
    TagsDiffer();
    hide ParseIhdr, PaletteSize, GAMA, PLTE, BKGD, SBIT, TRNS, IHDR;
  }

  lemma TagsDiffer()
    ensures IHDR != GAMA && IHDR != SBIT && IHDR != PLTE && IHDR != TRNS && IHDR != BKGD
    ensures GAMA != SBIT && GAMA != PLTE && GAMA != TRNS && GAMA != BKGD
    ensures SBIT != PLTE && SBIT != TRNS && SBIT != BKGD && PLTE != TRNS && PLTE != BKGD && TRNS != BKGD
  {
    assert IHDR[0] == 73 && GAMA[0] == 103 && SBIT[0] == 115 && PLTE[0] == 80 && TRNS[0] == 116 && BKGD[0] == 98;
  }

  lemma PaletteSizes()
    ensures PaletteSize(1) == 2 && PaletteSize(2) == 4 && PaletteSize(4) == 16 && PaletteSize(8) == 256
  {
  }

  /** The chunks of a list one after the other, up to the first error. */
  function ProcessedAll(m: Meta, cs: seq<Chunk>): Result<Meta, Error>
    decreases |cs|
  {
    if cs == [] then Ok(m)
    else
      var next := Processed(m, cs[0]);
      if next.Fail? then next else ProcessedAll(next.value, cs[1..])
  }

  /** A header once accepted stays unless another one comes, and is always an allowed one. */
  predicate HeaderAllowed(m: Meta) {
    m.header.Some? ==> m.header.value.Allowed() && m.header.value.Packable()
  }

  lemma ProcessedKeepsHeader(m: Meta, c: Chunk)
    requires HeaderAllowed(m) && Processed(m, c).Ok?
    ensures HeaderAllowed(Processed(m, c).value)
    ensures c.tag != IHDR ==> Processed(m, c).value.header == m.header
  {
    if c.tag == IHDR { ParsedIsAllowed(c.data); }
    hide ParseIhdr, Ihdr.Allowed, Ihdr.Packable, PaletteSize;
  }

  lemma {:induction false} ProcessedAllKeepsHeader(m: Meta, cs: seq<Chunk>)
    requires HeaderAllowed(m) && ProcessedAll(m, cs).Ok?
    ensures HeaderAllowed(ProcessedAll(m, cs).value)
    ensures (forall c :: c in cs ==> c.tag != IHDR) ==> ProcessedAll(m, cs).value.header == m.header
    decreases |cs|
  {
    hide Processed, HeaderAllowed;
    if cs != [] {
      ProcessedKeepsHeader(m, cs[0]);
      ProcessedAllKeepsHeader(Processed(m, cs[0]).value, cs[1..]);
      assert cs[0] in cs && forall c :: c in cs[1..] ==> c in cs;
    }
  }
}
