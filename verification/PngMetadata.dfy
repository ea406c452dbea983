/** What a writer puts between the header and the image data, and whether the reader accepts it. */
module PngMetadata {
  import opened PngFilter
  import opened PngHeader
  import opened PngPacking
  import opened PngPalette
  import opened PngRescale
  import opened Wrappers

  /** The options of a writer that lead to chunks of their own. `rescale` is the depth of the samples
      before they are scaled up, `gamma` is given in 100000ths. */
  datatype Options = Options(gamma: Option<nat>, rescale: Option<nat>, palette: Option<seq<Entry>>,
                             transparent: Option<seq<nat>>, background: Option<seq<nat>>)

  /** A colour has one value for grey images and three for all others, with a palette too. */
  predicate IsColour(h: Ihdr, colour: seq<nat>) {
    |colour| == (if h.Greyscale() then 1 else 3) && InRange(16, colour)
  }

  /** What the writer's constructor checks, and values that fit their fields. */
  predicate Checked(h: Ihdr, o: Options) {
    && h.Allowed() && h.Packable()
    && (o.palette.Some? <==> h.Colormap())
    && (o.palette.Some? ==> Acceptable(o.palette.value) && o.rescale.None? && o.transparent.None?)
    && (o.rescale.Some? ==> 1 <= o.rescale.value < 16)
    && (o.gamma.Some? ==> o.gamma.value < 0x1_0000_0000)
    && (o.transparent.Some? ==> IsColour(h, o.transparent.value) && !h.Alpha())
    && (o.background.Some? ==> IsColour(h, o.background.value))
  }

  function GammaChunks(o: Options): seq<Chunk>
    requires o.gamma.Some? ==> o.gamma.value < 0x1_0000_0000
  {
    if o.gamma.Some? then [Chunk(GAMA, Pack(o.gamma.value))] else []
  }

  /** The real depth, once for every plane. */
  function SbitData(h: Ihdr, depth: nat): seq<Byte>
    requires depth < 16
  {
    seq(h.Planes(), _ => depth)
  }

  function SbitChunks(h: Ihdr, o: Options): seq<Chunk>
    requires o.rescale.Some? ==> o.rescale.value < 16
  {
    if o.rescale.Some? then [Chunk(SBIT, SbitData(h, o.rescale.value))] else []
  }

  function PaletteChunks(o: Options): seq<Chunk>
    requires o.palette.Some? ==> Acceptable(o.palette.value)
  {
    if o.palette.None? then []
    else
      var alphas := Alphas(o.palette.value);
      [Chunk(PLTE, Colours(o.palette.value))] + if alphas == [] then [] else [Chunk(TRNS, alphas)]
  }

  function ColourChunks(tag: Tag, colour: Option<seq<nat>>): seq<Chunk>
    requires colour.Some? ==> InRange(16, colour.value)
  {
    if colour.Some? then [Chunk(tag, Packed(16, colour.value))] else []
  }

  /** The chunks in the order in which write_passes writes them. */
  function MetadataChunks(h: Ihdr, o: Options): seq<Chunk>
    requires Checked(h, o)
  {
    GammaChunks(o) + (SbitChunks(h, o) + (PaletteChunks(o)
    + (ColourChunks(TRNS, o.transparent) + ColourChunks(BKGD, o.background))))
  }

  // ----- The reader on these chunks

  function Then(r: Result<Meta, PngHeader.Error>, cs: seq<Chunk>): Result<Meta, PngHeader.Error> {
    if r.Fail? then r else ProcessedAll(r.value, cs)
  }

  lemma {:induction false} ProcessedConcat(m: Meta, a: seq<Chunk>, b: seq<Chunk>)
    ensures ProcessedAll(m, a + b) == Then(ProcessedAll(m, a), b)
    decreases |a|
  {
    hide Processed;
    if a == [] {
      assert a + b == b;
    } else {
      assert (a + b)[0] == a[0] && (a + b)[1..] == a[1..] + b;
      var next := Processed(m, a[0]);
      if next.Ok? { ProcessedConcat(next.value, a[1..], b); }
    }
  }

  lemma ProcessedOne(m: Meta, c: Chunk)
    ensures ProcessedAll(m, [c]) == Processed(m, c) && ProcessedAll(m, []) == Ok(m)
  {
    hide Processed;
    assert [c][1..] == [];
  }

  lemma GammaRead(m: Meta, o: Options)
    requires o.gamma.Some? ==> o.gamma.value < 0x1_0000_0000
    ensures ProcessedAll(m, GammaChunks(o)) == Ok(if o.gamma.Some? then m.(gamma := Some(Pack(o.gamma.value))) else m)
  {
    TagsDiffer();
    hide Pack;
    if o.gamma.Some? { ProcessedOne(m, GammaChunks(o)[0]); }
  }

  lemma SbitRead(h: Ihdr, m: Meta, o: Options)
    requires m.header == Some(h) && (o.rescale.Some? ==> o.rescale.value < 16 && !h.Colormap())
    ensures ProcessedAll(m, SbitChunks(h, o))
         == Ok(if o.rescale.Some? then m.(sbit := Some(SbitData(h, o.rescale.value))) else m)
  {
    TagsDiffer();
    if o.rescale.Some? { ProcessedOne(m, SbitChunks(h, o)[0]); }
  }

  lemma {:induction false} ColoursLength(palette: seq<Entry>)
    requires forall i :: 0 <= i < |palette| ==> |palette[i]| >= 3
    ensures |Colours(palette)| == 3 * |palette|
  {
    if palette != [] { ColoursLength(palette[1..]); }
  }

  /** The palette is read if it has no more colours than the samples can name. */
  lemma PaletteRead(h: Ihdr, m: Meta, o: Options)
    requires m.header == Some(h) && m.plte == None && m.trns == None
    requires o.palette.Some? ==> Acceptable(o.palette.value) && h.Colormap()
    ensures var r := ProcessedAll(m, PaletteChunks(o));
            if o.palette.None? then r == Ok(m)
            else if |o.palette.value| > PaletteSize(h.depth) then r == Fail(PngHeader.Error.FormatError)
            else
              var alphas := Alphas(o.palette.value);
              r == Ok(m.(plte := Some(Colours(o.palette.value)), trns := if alphas == [] then None else Some(alphas)))
  {
    if o.palette.Some? {
      var palette := o.palette.value;
      var plte, trns := Chunk(PLTE, Colours(palette)), Chunk(TRNS, Alphas(palette));
      assert PaletteChunks(o) == [plte] + if Alphas(palette) == [] then [] else [trns];
      hide *;
      PlteProcessed(h, m, palette);
      ProcessedOne(m, plte);
      if |palette| <= PaletteSize(h.depth) { TrnsProcessed(h, m.(plte := Some(plte.data)), palette); }
      if Alphas(palette) == [] {
        assert [plte] + [] == [plte];
      } else {
        ProcessedConcat(m, [plte], [trns]);
        if |palette| <= PaletteSize(h.depth) { ProcessedOne(m.(plte := Some(plte.data)), trns); }
        ThenUnfolds(ProcessedAll(m, [plte]), [trns]);
      }
    } else {
      ProcessedOne(m, Chunk(PLTE, []));
    }
  }

  lemma ThenUnfolds(r: Result<Meta, PngHeader.Error>, cs: seq<Chunk>)
    ensures Then(r, cs) == if r.Fail? then r else ProcessedAll(r.value, cs)
  {
  }

  lemma PlteProcessed(h: Ihdr, m: Meta, palette: seq<Entry>)
    requires m.header == Some(h) && Acceptable(palette)
    ensures Processed(m, Chunk(PLTE, Colours(palette)))
         == if |palette| > PaletteSize(h.depth) then Fail(PngHeader.Error.FormatError)
            else Ok(m.(plte := Some(Colours(palette))))
  {
    var data := Colours(palette);
    hide *;
    PlteSize(palette, PaletteSize(h.depth));
    ProcessedPlte(h, m, data);
  }

  lemma PlteSize(palette: seq<Entry>, most: nat)
    requires Acceptable(palette)
    ensures var n := |Colours(palette)|; n > 0 && n % 3 == 0 && (n > most * 3 <==> |palette| > most)
  {
    ColoursLength(palette);
    hide Colours;
  }

  lemma ProcessedPlte(h: Ihdr, m: Meta, data: seq<Byte>)
    requires m.header == Some(h)
    ensures Processed(m, Chunk(PLTE, data))
         == if |data| % 3 != 0 || |data| > PaletteSize(h.depth) * 3 || |data| == 0
             then Fail(PngHeader.Error.FormatError)
            else Ok(m.(plte := Some(data)))
  {
    TagsDiffer();
    hide PaletteSize, ParseIhdr;
  }

  lemma TrnsProcessed(h: Ihdr, m: Meta, palette: seq<Entry>)
    requires Acceptable(palette) && m.header == Some(h) && h.Colormap() && m.plte == Some(Colours(palette))
    ensures Processed(m, Chunk(TRNS, Alphas(palette))) == Ok(m.(trns := Some(Alphas(palette))))
  {
    TagsDiffer();
    ColoursLength(palette);
    hide Colours, Alphas, PaletteSize, ParseIhdr;
  }

  lemma TransparentRead(h: Ihdr, m: Meta, o: Options)
    requires m.header == Some(h)
    requires o.transparent.Some? ==> IsColour(h, o.transparent.value) && !h.Alpha() && !h.Colormap()
    ensures var r := ProcessedAll(m, ColourChunks(TRNS, o.transparent));
            r == Ok(if o.transparent.Some? then m.(trns := Some(Packed(16, o.transparent.value))) else m)
  {
    if o.transparent.Some? {
      var data := Packed(16, o.transparent.value);
      assert ColourChunks(TRNS, o.transparent) == [Chunk(TRNS, data)];
      ColourLength(h, o.transparent.value);
      hide *;
      ProcessedTrns(h, m, data);
      ProcessedOne(m, Chunk(TRNS, data));
    } else {
      ProcessedOne(m, Chunk(TRNS, []));
    }
  }

  lemma ColourLength(h: Ihdr, colour: seq<nat>)
    requires IsColour(h, colour) && !h.Colormap()
    ensures |Packed(16, colour)| == 2 * h.ColourPlanes()
  {
    WordsOfPacked(colour);
  }

  lemma ProcessedTrns(h: Ihdr, m: Meta, data: seq<Byte>)
    requires m.header == Some(h) && !h.Alpha() && !h.Colormap() && |data| == 2 * h.ColourPlanes()
    ensures Processed(m, Chunk(TRNS, data)) == Ok(m.(trns := Some(data)))
  {
    TagsDiffer();
    hide ParseIhdr, PaletteSize;
  }

  /** With a palette the writer still writes three numbers, where the reader expects one index. */
  lemma BackgroundRead(h: Ihdr, m: Meta, o: Options)
    requires m.header == Some(h) && (o.background.Some? ==> IsColour(h, o.background.value))
    ensures var r := ProcessedAll(m, ColourChunks(BKGD, o.background));
            if o.background.None? then r == Ok(m)
            else if h.Colormap() then r == Fail(PngHeader.Error.FormatError)
            else r == Ok(m.(background := Some(Packed(16, o.background.value))))
  {
    if o.background.Some? {
      TagsDiffer();
      WordsOfPacked(o.background.value);
      hide Packed;
      ProcessedOne(m, ColourChunks(BKGD, o.background)[0]);
    }
  }

  /** The reader accepts what the writer wrote about an image. */
  predicate Acceptance(h: Ihdr, o: Options) {
    o.palette.Some? ==> |o.palette.value| <= PaletteSize(h.depth) && o.background.None?
  }

  /** What was written, byte for byte. */
  function Recorded(h: Ihdr, o: Options): Meta
    requires Checked(h, o)
  {
    var alphas := if o.palette.Some? then Alphas(o.palette.value) else [];
    Meta(Some(h),
         if o.palette.Some? then Some(Colours(o.palette.value)) else None,
         if o.transparent.Some? then Some(Packed(16, o.transparent.value))
         else if alphas != [] then Some(alphas) else None,
         if o.rescale.Some? then Some(SbitData(h, o.rescale.value)) else None,
         if o.background.Some? then Some(Packed(16, o.background.value)) else None,
         if o.gamma.Some? then Some(Pack(o.gamma.value)) else None)
  }

  /** Whether it does, exactly: not with a palette of more colours than the depth has values, nor with a
      palette and a background; every other combination the writer lets through is read, byte for byte. */
  lemma MetadataIsReadExactly(h: Ihdr, o: Options)
    requires Checked(h, o)
    ensures ProcessedAll(NOTHING.(header := Some(h)), MetadataChunks(h, o))
         == if Acceptance(h, o) then Ok(Recorded(h, o)) else Fail(PngHeader.Error.FormatError)
  {
    var m := NOTHING.(header := Some(h));
    hide GammaChunks, SbitChunks, PaletteChunks, ColourChunks, ProcessedAll, Acceptable, Colours, Alphas, Packed, Pack,
      SbitData, PaletteSize;
    var back := ColourChunks(BKGD, o.background);
    var colours := ColourChunks(TRNS, o.transparent) + back;
    GammaRead(m, o);
    ProcessedConcat(m, GammaChunks(o), SbitChunks(h, o) + (PaletteChunks(o) + colours));
    var m1 := ProcessedAll(m, GammaChunks(o)).value;
    SbitRead(h, m1, o);
    ProcessedConcat(m1, SbitChunks(h, o), PaletteChunks(o) + colours);
    var m2 := ProcessedAll(m1, SbitChunks(h, o)).value;
    PaletteRead(h, m2, o);
    ProcessedConcat(m2, PaletteChunks(o), colours);
    var r3 := ProcessedAll(m2, PaletteChunks(o));
    if r3.Ok? {
      TransparentRead(h, r3.value, o);
      ProcessedConcat(r3.value, ColourChunks(TRNS, o.transparent), back);
      BackgroundRead(h, ProcessedAll(r3.value, ColourChunks(TRNS, o.transparent)).value, o);
    }
  }

  /** The numbers behind these bytes. */
  lemma RecordedNumbers(h: Ihdr, o: Options)
    requires Checked(h, o)
    ensures o.gamma.Some? ==> Unpack(Recorded(h, o).gamma.value) == o.gamma.value
    ensures o.transparent.Some? ==>
      |Recorded(h, o).trns.value| % 2 == 0 && Words(Recorded(h, o).trns.value) == o.transparent.value
    ensures o.background.Some? ==>
      |Recorded(h, o).background.value| % 2 == 0 && Words(Recorded(h, o).background.value) == o.background.value
  {
    if o.gamma.Some? { PngHeader.UnpackInvertsPack(o.gamma.value); }
    if o.transparent.Some? { WordsOfPacked(o.transparent.value); }
    if o.background.Some? { WordsOfPacked(o.background.value); }
    hide Pack, Unpack, Packed, Words, Colours, Alphas;
  }

  /** Samples of a depth PNG does not have come back through the sBIT chunk as it was read. */
  lemma RescaledRowIsRead(h: Ihdr, o: Options, row: seq<nat>)
    requires Checked(h, o) && o.rescale.Some? && InRange(o.rescale.value, row)
    requires h.depth == TargetDepth(o.rescale.value, h.Greyscale() && !h.Alpha())
    ensures var sbit := Recorded(h, o).sbit;
            && sbit.Some? && sbit.value != []
            && ApplySbit(sbit.value, h.depth, RescaleRow(o.rescale.value, h.depth, row))
                == Shifted(o.rescale.value, row)
  {
    var depth := o.rescale.value;
    RowSurvivesRescaling(depth, h.Greyscale() && !h.Alpha(), h.Planes(), row);
    var planes: seq<nat> := seq(h.Planes(), _ => depth);
    assert SbitData(h, depth) == planes;
    hide ApplySbit, RescaleRow, Colours, Alphas, Packed, Pack;
  }

  function Rank(tag: Tag): nat {
    if tag == GAMA then 0 else if tag == SBIT then 1 else if tag == PLTE then 2 else if tag == TRNS then 3 else 4
  }

  /** Ranks increase from at least `lo` to below `hi`. */
  predicate Ranked(cs: seq<Chunk>, lo: nat, hi: nat) {
    && (forall i :: 0 <= i < |cs| ==> lo <= Rank(cs[i].tag) < hi)
    && forall i, j :: 0 <= i < j < |cs| ==> Rank(cs[i].tag) < Rank(cs[j].tag)
  }

  lemma RankedConcat(a: seq<Chunk>, b: seq<Chunk>, lo: nat, middle: nat, hi: nat)
    requires lo <= middle <= hi && Ranked(a, lo, middle) && Ranked(b, middle, hi)
    ensures Ranked(a + b, lo, hi)
  {
    hide Rank;
  }

  lemma AtMostOneRanked(tag: Tag, cs: seq<Chunk>)
    requires |cs| <= 1 && forall i :: 0 <= i < |cs| ==> cs[i].tag == tag
    ensures Ranked(cs, Rank(tag), Rank(tag) + 1)
  {
  }

  lemma PaletteRanked(o: Options)
    requires o.palette.Some? ==> Acceptable(o.palette.value)
    ensures Ranked(PaletteChunks(o), 2, 4)
    ensures o.palette.None? ==> PaletteChunks(o) == []
  {
    TagsDiffer();
    hide Colours, Alphas, Acceptable;
  }

  lemma MetadataIs(h: Ihdr, o: Options)
    requires Checked(h, o)
    ensures MetadataChunks(h, o)
         == GammaChunks(o) + (SbitChunks(h, o) + (PaletteChunks(o)
            + (ColourChunks(TRNS, o.transparent) + ColourChunks(BKGD, o.background))))
  {
  }

  lemma Ranks()
    ensures Rank(GAMA) == 0 && Rank(SBIT) == 1 && Rank(PLTE) == 2 && Rank(TRNS) == 3 && Rank(BKGD) == 4
  {
    TagsDiffer();
    hide GAMA, SBIT, PLTE, TRNS, BKGD;
  }

  lemma ColourRanked(tag: Tag, colour: Option<seq<nat>>)
    requires colour.Some? ==> InRange(16, colour.value)
    ensures Ranked(ColourChunks(tag, colour), Rank(tag), Rank(tag) + 1)
    ensures colour.None? ==> ColourChunks(tag, colour) == []
  {
    hide Rank, Packed;
    AtMostOneRanked(tag, ColourChunks(tag, colour));
  }

  lemma GammaAndSbitRanked(h: Ihdr, o: Options)
    requires (o.gamma.Some? ==> o.gamma.value < 0x1_0000_0000) && (o.rescale.Some? ==> o.rescale.value < 16)
    ensures Ranked(GammaChunks(o), Rank(GAMA), Rank(GAMA) + 1) && Ranked(SbitChunks(h, o), Rank(SBIT), Rank(SBIT) + 1)
  {
    hide Rank, Pack, SbitData;
    AtMostOneRanked(GAMA, GammaChunks(o));
    AtMostOneRanked(SBIT, SbitChunks(h, o));
  }

  /** Section 5.6: each chunk at most once, gAMA and sBIT before PLTE, tRNS and bKGD behind it. */
  lemma MetadataOrder(h: Ihdr, o: Options)
    requires Checked(h, o)
    ensures Ranked(MetadataChunks(h, o), 0, 5)
  {
    var gamma, sbit, palette := GammaChunks(o), SbitChunks(h, o), PaletteChunks(o);
    var transparent, background := ColourChunks(TRNS, o.transparent), ColourChunks(BKGD, o.background);
    hide *;
    MetadataIs(h, o);
    PartsRanked(h, o);
    ColoursRanked(palette, transparent, background);
    RankedConcat(sbit, palette + (transparent + background), 1, 2, 5);
    RankedConcat(gamma, sbit + (palette + (transparent + background)), 0, 1, 5);
  }

  lemma PartsRanked(h: Ihdr, o: Options)
    requires Checked(h, o)
    ensures Ranked(GammaChunks(o), 0, 1) && Ranked(SbitChunks(h, o), 1, 2) && Ranked(PaletteChunks(o), 2, 4)
    ensures Ranked(ColourChunks(TRNS, o.transparent), 3, 4) && Ranked(ColourChunks(BKGD, o.background), 4, 5)
    ensures PaletteChunks(o) == [] || ColourChunks(TRNS, o.transparent) == []
  {
    hide Ranked, Rank, GammaChunks, SbitChunks, PaletteChunks, ColourChunks, Acceptable;
    Ranks();
    GammaAndSbitRanked(h, o);
    PaletteRanked(o);
    ColourRanked(TRNS, o.transparent);
    ColourRanked(BKGD, o.background);
  }

  /** With a palette there is no transparent colour. */
  lemma ColoursRanked(palette: seq<Chunk>, transparent: seq<Chunk>, background: seq<Chunk>)
    requires Ranked(palette, 2, 4) && Ranked(transparent, 3, 4) && Ranked(background, 4, 5)
    requires palette == [] || transparent == []
    ensures Ranked(palette + (transparent + background), 2, 5)
  {
    hide Rank;
    if palette == [] {
      RankedConcat(transparent, background, 3, 4, 5);
      RankedLower(transparent + background, 3, 2, 5);
      hide Ranked;
      assert palette + (transparent + background) == transparent + background;
    } else {
      RankedConcat(palette, background, 2, 4, 5);
      hide Ranked;
      assert transparent + background == background;
    }
  }

  lemma RankedLower(cs: seq<Chunk>, lo: nat, lower: nat, hi: nat)
    requires lower <= lo && Ranked(cs, lo, hi)
    ensures Ranked(cs, lower, hi)
  {
  }


  /** The reader's palette is the writer's. */
  lemma PaletteIsRead(h: Ihdr, o: Options, force: bool)
    requires Checked(h, o) && Acceptance(h, o) && o.palette.Some?
    ensures var meta := ProcessedAll(NOTHING.(header := Some(h)), MetadataChunks(h, o));
            var palette, explicit := o.palette.value, force || Alphas(o.palette.value) != [];
            && meta.Ok? && meta.value.plte.Some?
            && var r := Palette(meta.value.plte.value, meta.value.trns, force);
               && r.Ok? && |r.value| == |palette|
               && forall i :: 0 <= i < |palette| ==> r.value[i] == if explicit then WithAlpha(palette[i])
                   else palette[i]
  {
    MetadataIsReadExactly(h, o);
    hide ProcessedAll, Palette, Colours, Alphas, Acceptable, MetadataChunks;
    PaletteRoundTrip(o.palette.value, force);
  }
}
