/** Palettes: checked, split into a PLTE and a tRNS chunk by the writer, and joined again by the reader. */
module PngPalette {
  import opened PngFilter
  import opened Wrappers

  /** Red, green, blue and perhaps alpha. */
  type Entry = seq<Byte>

  datatype Error = ValueError | FormatError | TypeError

  /** Entries of three or four bytes, those of four first. */
  predicate Acceptable(palette: seq<seq<int>>) {
    && 0 < |palette| <= 256
    && (forall i :: 0 <= i < |palette| ==> AreBytes(palette[i]))
    && (forall i :: 0 <= i < |palette| ==> |palette[i]| == 3 || |palette[i]| == 4)
    && (forall i, j :: 0 <= i < j < |palette| ==> |palette[i]| >= |palette[j]|)
  }

  predicate AreBytes(values: seq<int>) {
    forall k :: 0 <= k < |values| ==> 0 <= values[k] <= 255
  }

  /** check_palette. Values are integers. */
  method CheckPalette(palette: seq<seq<int>>) returns (r: Result<seq<seq<int>>, Error>)
    ensures r == if Acceptable(palette) then Ok(palette) else Fail(ValueError)
  {
    if !(0 < |palette| <= 256) { return Fail(ValueError); }
    var seenTriple := false;
    for i := 0 to |palette|
      invariant forall k :: 0 <= k < i ==> |palette[k]| == 3 || |palette[k]| == 4
      invariant forall j, k :: 0 <= j < k < i ==> |palette[j]| >= |palette[k]|
      invariant forall k :: 0 <= k < i ==> AreBytes(palette[k])
      invariant seenTriple <==> exists k :: 0 <= k < i && |palette[k]| == 3
    {
      if |palette[i]| != 3 && |palette[i]| != 4 { return Fail(ValueError); }
      if |palette[i]| == 3 { seenTriple := true; }
      if seenTriple && |palette[i]| == 4 { return Fail(ValueError); }
      for k := 0 to |palette[i]|
        invariant AreBytes(palette[i][..k])
      {
        if !(0 <= palette[i][k] <= 255) { return Fail(ValueError); }
      }
      assert palette[i][..|palette[i]|] == palette[i];
    }
    return Ok(palette);
  }

  function Colours(palette: seq<Entry>): seq<Byte>
    requires forall i :: 0 <= i < |palette| ==> |palette[i]| >= 3
  {
    if palette == [] then [] else palette[0][..3] + Colours(palette[1..])
  }

  /** The alpha values there are. */
  function Alphas(palette: seq<Entry>): (t: seq<Byte>)
    ensures |t| <= |palette|
  {
    if palette == [] then []
    else (if |palette[0]| > 3 then [palette[0][3]] else []) + Alphas(palette[1..])
  }

  lemma {:induction false} ColoursSnoc(palette: seq<Entry>, x: Entry)
    requires forall i :: 0 <= i < |palette| ==> |palette[i]| >= 3
    requires |x| >= 3
    ensures Colours(palette + [x]) == Colours(palette) + x[..3]
  {
    if palette == [] {
      assert [x][1..] == [];
    } else {
      assert (palette + [x])[1..] == palette[1..] + [x];
      ColoursSnoc(palette[1..], x);
    }
  }

  lemma {:induction false} AlphasSnoc(palette: seq<Entry>, x: Entry)
    ensures Alphas(palette + [x]) == Alphas(palette) + if |x| > 3 then [x[3]] else []
  {
    if palette == [] {
      assert [x][1..] == [];
    } else {
      assert (palette + [x])[1..] == palette[1..] + [x];
      AlphasSnoc(palette[1..], x);
    }
  }

  /** The contents of the PLTE chunk, and of the tRNS chunk if there is to be one. */
  method MakePalette(palette: seq<Entry>) returns (p: seq<Byte>, t: Option<seq<Byte>>)
    requires Acceptable(palette)
    ensures p == Colours(palette)
    ensures t == if Alphas(palette) == [] then None else Some(Alphas(palette))
  {
    p := [];
    var alphas: seq<Byte> := [];
    assert palette[..|palette|] == palette;
    for i := 0 to |palette|
      invariant p == Colours(palette[..i]) && alphas == Alphas(palette[..i])
    {
      hide Colours, Alphas;
      var x := palette[i];
      assert palette[..i + 1] == palette[..i] + [x];
      ColoursSnoc(palette[..i], x);
      AlphasSnoc(palette[..i], x);
      p := p + x[..3];
      if |x| > 3 { alphas := alphas + [x[3]]; }
    }
    t := if alphas != [] then Some(alphas) else None;
  }

  /** group(s, 3), which drops an incomplete group at the end. */
  function Triples(s: seq<Byte>): (g: seq<Entry>)
    ensures forall i :: 0 <= i < |g| ==> |g[i]| == 3
  {
    if |s| < 3 then [] else [s[..3]] + Triples(s[3..])
  }

  function Opaque(n: nat): (s: seq<Byte>)
    ensures |s| == n
  {
    seq(n, _ => 255)
  }

  /** The reader's palette from the two chunks. Without `force`, no tRNS chunk means no alpha. */
  function Palette(plte: seq<Byte>, trns: Option<seq<Byte>>, force: bool): Result<seq<Entry>, Error> {
    var entries := Triples(plte);
    var given := if trns.Some? then trns.value else [];
    if plte == [] then Fail(FormatError)
    else if given == [] && !force then Ok(entries)
    else if |given| > |entries| then Fail(TypeError)
    else
      var alphas := given + Opaque(|entries| - |given|);
      Ok(seq(|entries|, i requires 0 <= i < |entries| => entries[i] + [alphas[i]]))
  }

  /** An entry without alpha is opaque. */
  function WithAlpha(x: Entry): Entry {
    if |x| == 3 then x + [255] else x
  }

  lemma {:induction false} TriplesOfColours(palette: seq<Entry>)
    requires forall i :: 0 <= i < |palette| ==> |palette[i]| >= 3
    ensures |Triples(Colours(palette))| == |palette|
    ensures forall i :: 0 <= i < |palette| ==> Triples(Colours(palette))[i] == palette[i][..3]
  {
    if palette != [] {
      TriplesOfColours(palette[1..]);
      assert Colours(palette)[..3] == palette[0][..3] && Colours(palette)[3..] == Colours(palette[1..]);
    }
  }

  /** When the entries with alpha come first, the alpha values line up with them. */
  lemma {:induction false} AlphasLineUp(palette: seq<Entry>)
    requires forall i :: 0 <= i < |palette| ==> |palette[i]| == 3 || |palette[i]| == 4
    requires forall i, j :: 0 <= i < j < |palette| ==> |palette[i]| >= |palette[j]|
    ensures forall i :: 0 <= i < |palette| ==>
      if i < |Alphas(palette)| then |palette[i]| == 4 && palette[i][3] == Alphas(palette)[i] else |palette[i]| == 3
  {
    if palette != [] {
      AlphasLineUp(palette[1..]);
    }
  }

  /** The bytes of PLTE: three to a colour, red first. */
  lemma {:induction false} ColourAt(palette: seq<Entry>, i: nat, c: nat)
    requires i < |palette| && c < 3 && forall k :: 0 <= k < |palette| ==> |palette[k]| >= 3
    ensures 3 * i + c < |Colours(palette)| && Colours(palette)[3 * i + c] == palette[i][c]
    decreases i
  {
    if i > 0 { ColourAt(palette[1..], i - 1, c); }
  }

  lemma {:induction false} TripleAt(s: seq<Byte>, i: nat)
    requires i < |Triples(s)|
    ensures 3 * i + 3 <= |s| && Triples(s)[i] == s[3 * i..3 * i + 3]
    decreases i
  {
    if i > 0 { TripleAt(s[3..], i - 1); }
  }

  lemma {:induction false} TriplesCount(s: seq<Byte>)
    ensures |Triples(s)| == |s| / 3
    decreases |s|
  {
    if |s| >= 3 { TriplesCount(s[3..]); }
  }

  /** The palette of any two chunks: the whole colours of PLTE in order, each with its alpha value, 255
      where tRNS has none left; no alpha values at all without tRNS, unless they are asked for. */
  lemma PaletteOfAny(plte: seq<Byte>, trns: seq<Byte>, force: bool)
    ensures var r := Palette(plte, Some(trns), force);
      && (r == Fail(FormatError) <==> plte == [])
      && (r == Fail(TypeError) <==> plte != [] && |trns| > |plte| / 3)
      && (r.Ok? ==> |r.value| == |plte| / 3)
      && (r.Ok? ==> forall i :: 0 <= i < |r.value| ==>
            3 * i + 3 <= |plte|
            && r.value[i] == plte[3 * i..3 * i + 3]
                             + if trns == [] && !force then [] else [if i < |trns| then trns[i] else 255])
    ensures Palette(plte, None, force) == Palette(plte, Some([]), force)
  {
    TriplesCount(plte);
    var r := Palette(plte, Some(trns), force);
    if r.Ok? {
      forall i | 0 <= i < |r.value|
        ensures 3 * i + 3 <= |plte| && Triples(plte)[i] == plte[3 * i..3 * i + 3]
      {
        TripleAt(plte, i);
      }
    }
    hide Triples;
  }

  /** Reading the chunks of a palette gives the palette back: with every alpha value made explicit if
      there is one or if alpha is asked for, and as it was otherwise. */
  lemma PaletteRoundTrip(palette: seq<Entry>, force: bool)
    requires Acceptable(palette)
    ensures var alphas := Alphas(palette);
      var r := Palette(Colours(palette), if alphas == [] then None else Some(alphas), force);
      && r.Ok? && |r.value| == |palette|
      && forall i :: 0 <= i < |palette| ==> r.value[i] == if alphas != [] || force then WithAlpha(palette[i])
          else palette[i]
  {
    TriplesOfColours(palette);
    AlphasLineUp(palette);
    assert Colours(palette) != [] by { assert palette[0][..3] != []; }
    assert forall i :: 0 <= i < |palette| ==> |palette[i]| == 3 || |palette[i]| == 4;
    hide *;
    var alphas := Alphas(palette);
    PaletteByEntries(Colours(palette), alphas, force);
    var r := Palette(Colours(palette), if alphas == [] then None else Some(alphas), force);
    forall i | 0 <= i < |palette|
      ensures r.value[i] == if alphas != [] || force then WithAlpha(palette[i]) else palette[i]
    {
      EntryParts(palette[i]);
    }
  }

  lemma PaletteByEntries(plte: seq<Byte>, given: seq<Byte>, force: bool)
    requires plte != [] && |given| <= |Triples(plte)|
    ensures var r := Palette(plte, if given == [] then None else Some(given), force);
      && r.Ok? && |r.value| == |Triples(plte)|
      && forall i :: 0 <= i < |r.value| ==>
           r.value[i] == Triples(plte)[i]
                         + if given == [] && !force then [] else [if i < |given| then given[i] else 255]
  {
    hide Triples;
  }

  lemma EntryParts(x: Entry)
    requires |x| == 3 || |x| == 4
    ensures x == x[..3] + if |x| == 4 then [x[3]] else []
    ensures WithAlpha(x) == x[..3] + [if |x| == 4 then x[3] else 255]
  {
  }
}
