/** Samples and bytes: how the writer packs a row for each bit depth and how the reader takes a row
    apart again, with padding at the end of the row. */
module PngPacking {
  import opened Arithmetic
  import opened PngFilter

  predicate IsDepth(depth: nat) {
    depth in {1, 2, 4, 8, 16}
  }

  predicate InRange(depth: nat, samples: seq<nat>) {
    forall i :: 0 <= i < |samples| ==> samples[i] < Pow(2, depth)
  }

  // ----- Groups of samples in a byte

  /** reduce(lambda x, y: (x << depth) + y, e) */
  function Fold(b: nat, e: seq<nat>): nat {
    if e == [] then 0 else Fold(b, e[..|e| - 1]) * b + e[|e| - 1]
  }

  lemma DigitBound(x: nat, p: nat, b: nat, d: nat)
    requires x < p && d < b
    ensures x * b + d < b * p
  {
    MulMono(x + 1, p, b);
    MulDistrib(x, 1, b);
  }

  lemma {:induction false} FoldBound(b: nat, e: seq<nat>)
    requires forall i :: 0 <= i < |e| ==> e[i] < b
    ensures Fold(b, e) < Pow(b, |e|)
  {
    if e != [] {
      var init := e[..|e| - 1];
      FoldBound(b, init);
      DigitBound(Fold(b, init), Pow(b, |init|), b, e[|e| - 1]);
    }
  }

  /** Shifting right and masking picks one digit. */
  lemma {:induction false} DigitAt(b: nat, e: seq<nat>, j: nat)
    requires b > 0 && j < |e| && forall i :: 0 <= i < |e| ==> e[i] < b
    ensures Fold(b, e) / Pow(b, |e| - 1 - j) % b == e[j]
    decreases |e|
  {
    var init, last := e[..|e| - 1], e[|e| - 1];
    QuotientIs(Fold(b, e), b, Fold(b, init), last);
    if j < |e| - 1 {
      var m := |e| - 1 - j;
      DivTwice(Fold(b, e), b, Pow(b, m - 1));
      DigitAt(b, init, j);
    }
  }

  /** Samples per byte. */
  function Spb(depth: nat): nat
    requires depth in {1, 2, 4}
  {
    8 / depth
  }

  /** mask & (o >> s) for s = depth * (spb - 1), ..., depth, 0. */
  function Samples(depth: nat, o: Byte): (s: seq<nat>)
    requires depth in {1, 2, 4}
    ensures |s| == Spb(depth)
  {
    PowersOfTwo();
    seq(Spb(depth), k requires 0 <= k < Spb(depth) =>
      o / Pow(2, depth * (Spb(depth) - 1 - k)) % Pow(2, depth))
  }

  lemma GroupFitsByte(depth: nat, e: seq<nat>)
    requires depth in {1, 2, 4} && |e| == Spb(depth) && InRange(depth, e)
    ensures Fold(Pow(2, depth), e) < 256
  {
    FoldBound(Pow(2, depth), e);
    PowOfPow(2, depth, Spb(depth));
    PowersOfTwo();
  }

  /** The byte of a full group. */
  function Group(depth: nat, e: seq<nat>): (o: Byte)
    requires depth in {1, 2, 4} && |e| == Spb(depth) && InRange(depth, e)
  {
    GroupFitsByte(depth, e);
    Fold(Pow(2, depth), e)
  }

  lemma SamplesOfGroup(depth: nat, e: seq<nat>)
    requires depth in {1, 2, 4} && |e| == Spb(depth) && InRange(depth, e)
    ensures Samples(depth, Group(depth, e)) == e
  {
    hide Pow, Fold;
    assert Pow(2, depth) > 0;
    forall k | 0 <= k < |e|
      ensures Samples(depth, Group(depth, e))[k] == e[k]
    {
      PowOfPow(2, depth, |e| - 1 - k);
      DigitAt(Pow(2, depth), e, k);
    }
  }

  // ----- Whole rows

  function Zeros(n: nat): (z: seq<nat>)
    ensures |z| == n && forall i :: 0 <= i < n ==> z[i] == 0
  {
    seq(n, i => 0)
  }

  /** A row as bytes; the last group is padded with zeros. */
  function Packed(depth: nat, row: seq<nat>): (bytes: seq<Byte>)
    requires IsDepth(depth) && InRange(depth, row)
    decreases |row|
  {
    if row == [] then []
    else if depth == 8 then
      PowersOfTwo();
      [row[0]] + Packed(depth, row[1..])
    else if depth == 16 then
      PowersOfTwo();
      [row[0] / 256, row[0] % 256] + Packed(depth, row[1..])
    else if |row| <= Spb(depth) then
      [Group(depth, row + Zeros(Spb(depth) - |row|))]
    else
      [Group(depth, row[..Spb(depth)])] + Packed(depth, row[Spb(depth)..])
  }

  /** ceil(n * depth / 8), the row size the reader computes. */
  function ByteCount(n: nat, depth: nat): nat {
    CeilDiv(n * depth, 8)
  }

  /** The least number of bytes that holds n samples. */
  lemma ByteCountIsLeast(n: nat, depth: nat, bytes: nat)
    ensures bytes == ByteCount(n, depth) <==> n * depth <= 8 * bytes < n * depth + 8
  {
    CeilDivIs(n * depth, 8, bytes);
  }

  lemma CountStep(n: nat, k: nat, depth: nat, bytes: nat)
    requires n >= k && k * depth == 8 * bytes
    ensures ByteCount(n, depth) == bytes + ByteCount(n - k, depth)
  {
    MulDistrib(n - k, k, depth);
    var x := (n - k) * depth;
    assert n * depth == x + 8 * bytes;
  }

  lemma CountLast(n: nat, k: nat, depth: nat)
    requires 1 <= n <= k && k * depth == 8 && depth >= 1
    ensures ByteCount(n, depth) == 1
  {
    MulMono(1, n, depth);
    MulMono(n, k, depth);
  }

  lemma {:induction false} PackedLength(depth: nat, row: seq<nat>)
    requires IsDepth(depth) && InRange(depth, row)
    ensures |Packed(depth, row)| == ByteCount(|row|, depth)
    decreases |row|
  {
    hide Group, ByteCount;
    var n := |row|;
    if n == 0 {
      assert ByteCount(0, depth) == 0 by { CountZero(depth); }
    } else if depth >= 8 {
      PackedLength(depth, row[1..]);
      CountStep(n, 1, depth, depth / 8);
    } else if n > Spb(depth) {
      PackedLength(depth, row[Spb(depth)..]);
      CountStep(n, Spb(depth), depth, 1);
    } else {
      CountLast(n, Spb(depth), depth);
    }
  }

  lemma CountZero(depth: nat)
    ensures ByteCount(0, depth) == 0
  {
  }

  function Word(high: nat, low: nat): nat {
    high * 256 + low
  }

  /** struct.unpack of big-endian 16-bit values. */
  function Words(bytes: seq<Byte>): (w: seq<nat>)
    requires |bytes| % 2 == 0
    ensures |w| == |bytes| / 2
  {
    if bytes == [] then [] else [Word(bytes[0], bytes[1])] + Words(bytes[2..])
  }

  /** All samples of all bytes, padding included. */
  function AllSamples(depth: nat, bytes: seq<Byte>): (s: seq<nat>)
    requires depth in {1, 2, 4}
    ensures |s| == |bytes| * Spb(depth)
  {
    if bytes == [] then [] else
      MulDistrib(1, |bytes| - 1, Spb(depth));
      Samples(depth, bytes[0]) + AllSamples(depth, bytes[1..])
  }

  lemma {:induction false} WordsOfPacked(row: seq<nat>)
    requires InRange(16, row)
    ensures |Packed(16, row)| == 2 * |row| && Words(Packed(16, row)) == row
    decreases |row|
  {
    PowersOfTwo();
    if row != [] {
      WordsOfPacked(row[1..]);
      assert Packed(16, row)[2..] == Packed(16, row[1..]);
    }
  }

  lemma {:induction false} BytesOfPacked(row: seq<nat>)
    requires InRange(8, row)
    ensures |Packed(8, row)| == |row| && forall i :: 0 <= i < |row| ==> Packed(8, row)[i] == row[i]
    decreases |row|
  {
    PowersOfTwo();
    if row != [] { BytesOfPacked(row[1..]); }
  }

  /** The samples of a packed row are the row, followed only by padding. */
  lemma {:induction false} SamplesOfPacked(depth: nat, row: seq<nat>)
    requires depth in {1, 2, 4} && InRange(depth, row)
    ensures |AllSamples(depth, Packed(depth, row))| >= |row|
    ensures AllSamples(depth, Packed(depth, row))[..|row|] == row
    decreases |row|
  {
    hide *;
    SmallDepth(depth);
    var spb := Spb(depth);
    if row == [] {
      SamplesOfNothing(depth);
    } else if |row| <= spb {
      var e := row + Zeros(spb - |row|);
      PaddedInRange(depth, row, spb - |row|);
      SamplesOfGroup(depth, e);
      PackedLast(depth, row);
      SamplesOfNothing(depth);
      SamplesStep(depth, Group(depth, e), []);
      assert [Group(depth, e)] + [] == [Group(depth, e)];
      assert AllSamples(depth, Packed(depth, row)) == e + [] && e[..|row|] == row;
    } else {
      PartsInRange(depth, row, spb);
      SamplesOfGroup(depth, row[..spb]);
      SamplesOfPacked(depth, row[spb..]);
      GroupInFront(depth, row);
      SamplesStep(depth, Group(depth, row[..spb]), Packed(depth, row[spb..]));
      var rest := AllSamples(depth, Packed(depth, row[spb..]));
      assert (row[..spb] + rest)[..|row|] == row[..spb] + rest[..|row| - spb];
      assert row == row[..spb] + row[spb..];
    }
  }

  lemma SmallDepth(depth: nat)
    requires depth in {1, 2, 4}
    ensures IsDepth(depth) && Spb(depth) > 0
  {
  }

  lemma PartsInRange(depth: nat, row: seq<nat>, k: nat)
    requires InRange(depth, row) && k <= |row|
    ensures InRange(depth, row[..k]) && InRange(depth, row[k..])
  {
  }

  lemma SamplesOfNothing(depth: nat)
    requires depth in {1, 2, 4}
    ensures InRange(depth, []) && Packed(depth, []) == [] && AllSamples(depth, []) == []
  {
  }

  lemma SamplesStep(depth: nat, o: Byte, tail: seq<Byte>)
    requires depth in {1, 2, 4}
    ensures AllSamples(depth, [o] + tail) == Samples(depth, o) + AllSamples(depth, tail)
  {
    assert ([o] + tail)[1..] == tail;
    hide Samples;
  }

  lemma PaddedInRange(depth: nat, row: seq<nat>, n: nat)
    requires InRange(depth, row)
    ensures InRange(depth, row + Zeros(n))
  {
  }

  // ----- The reader's conversions

  /** A row or nothing: struct.unpack rejects an odd number of bytes. */
  datatype Row = Row(samples: seq<nat>) | StructError

  /** asvalues of iterboxed, `width` being the width of the image. */
  function AsValues(depth: nat, width: nat, raw: seq<Byte>): Row
    requires IsDepth(depth)
  {
    if depth == 8 then Row(seq(|raw|, i requires 0 <= i < |raw| => raw[i]))
    else if depth == 16 then if |raw| % 2 == 0 then Row(Words(raw)) else StructError
    else
      var out := AllSamples(depth, raw);
      Row(out[..if width < |out| then width else |out|])
  }

  /** The loop of serialtoflat: `l` samples of the current row are still to come, rows follow each
      other at byte boundaries. */
  function FlatRows(depth: nat, bytes: seq<Byte>, width: nat, l: nat): seq<nat>
    requires depth in {1, 2, 4}
  {
    if bytes == [] then []
    else
      var spb := Spb(depth);
      Samples(depth, bytes[0])[..if l < spb then l else spb]
      + FlatRows(depth, bytes[1..], width, if l <= spb then width else l - spb)
  }

  function SerialToFlat(depth: nat, bytes: seq<Byte>, width: nat): Row
    requires IsDepth(depth)
  {
    if depth < 8 then Row(FlatRows(depth, bytes, width, width)) else AsValues(depth, width, bytes)
  }

  // ----- Where the bits of a sample are

  /** Samples of less than a byte follow each other from the high bits down, across bytes: sample j begins
      j * depth bits after the first bit (section 7.2 of W3C REC-PNG-20031110). For any bytes. */
  lemma {:induction false} SampleAt(depth: nat, bytes: seq<Byte>, j: nat)
    requires depth in {1, 2, 4} && j < |AllSamples(depth, bytes)|
    ensures j * depth / 8 < |bytes| && j * depth % 8 + depth <= 8
    ensures AllSamples(depth, bytes)[j] == bytes[j * depth / 8] / Pow(2, 8 - depth - j * depth % 8) % Pow(2, depth)
    decreases |bytes|
  {
    hide Pow, AllSamples, Samples;
    var spb, tail := Spb(depth), bytes[1..];
    assert bytes == [bytes[0]] + tail;
    SamplesStep(depth, bytes[0], tail);
    if j < spb {
      SampleOfFirst(depth, bytes[0], j);
    } else {
      MulDistrib(1, |tail|, spb);
      SampleAt(depth, tail, j - spb);
      SampleOfLater(depth, j);
    }
  }

  lemma SampleOfFirst(depth: nat, o: Byte, j: nat)
    requires depth in {1, 2, 4} && j < Spb(depth)
    ensures j * depth / 8 == 0 && j * depth % 8 + depth <= 8
    ensures Samples(depth, o)[j] == o / Pow(2, 8 - depth - j * depth % 8) % Pow(2, depth)
  {
    hide Pow;
    assert j * depth % 8 == j * depth && depth * (Spb(depth) - 1 - j) == 8 - depth - j * depth;
  }

  lemma SampleOfLater(depth: nat, j: nat)
    requires depth in {1, 2, 4} && j >= Spb(depth)
    ensures j * depth / 8 == (j - Spb(depth)) * depth / 8 + 1 && j * depth % 8 == (j - Spb(depth)) * depth % 8
  {
    MulDistrib(j - Spb(depth), Spb(depth), depth);
  }

  /** Two bytes to a sample of 16 bits, the high one first. */
  lemma {:induction false} WordAt(bytes: seq<Byte>, j: nat)
    requires |bytes| % 2 == 0 && j < |Words(bytes)|
    ensures var high: int, low: int := bytes[2 * j], bytes[2 * j + 1]; Words(bytes)[j] == 256 * high + low
    decreases |bytes|
  {
    if j > 0 { WordAt(bytes[2..], j - 1); }
  }

  /** The bytes of a row, for every depth: where each sample is, and that padding is zero. */
  lemma PackedLayout(depth: nat, row: seq<nat>, j: nat)
    requires IsDepth(depth) && InRange(depth, row) && j < |row|
    ensures var bytes := Packed(depth, row);
            if depth == 8 then j < |bytes| && bytes[j] == row[j]
            else if depth == 16 then
              2 * j + 1 < |bytes|
              && var high: int, low: int := bytes[2 * j], bytes[2 * j + 1]; 256 * high + low == row[j]
            else
              && j * depth / 8 < |bytes| && j * depth % 8 + depth <= 8
              && bytes[j * depth / 8] / Pow(2, 8 - depth - j * depth % 8) % Pow(2, depth) == row[j]
  {
    hide Packed, Pow, Words, AllSamples;
    if depth == 8 {
      BytesOfPacked(row);
    } else if depth == 16 {
      WordsOfPacked(row);
      WordAt(Packed(16, row), j);
    } else {
      SamplesOfPacked(depth, row);
      assert AllSamples(depth, Packed(depth, row))[j] == AllSamples(depth, Packed(depth, row))[..|row|][j];
      SampleAt(depth, Packed(depth, row), j);
    }
  }

  /** Behind the row there is nothing but zeros, less than a byte of them. */
  lemma {:induction false} PaddingIsZero(depth: nat, row: seq<nat>, j: nat)
    requires depth in {1, 2, 4} && InRange(depth, row) && |row| <= j < |AllSamples(depth, Packed(depth, row))|
    ensures AllSamples(depth, Packed(depth, row))[j] == 0 && j < |row| + Spb(depth)
    decreases |row|
  {
    hide Group, Samples, AllSamples, Packed;
    var spb := Spb(depth);
    if row == [] {
      PackedNothing(depth);
      SamplesOfNothing(depth);
    } else if |row| <= spb {
      var e := row + Zeros(spb - |row|);
      PaddedInRange(depth, row, spb - |row|);
      SamplesOfGroup(depth, e);
      PackedLast(depth, row);
      SamplesOfNothing(depth);
      SamplesStep(depth, Group(depth, e), []);
      assert [Group(depth, e)] + [] == [Group(depth, e)];
      assert AllSamples(depth, Packed(depth, row)) == e;
    } else {
      PartsInRange(depth, row, spb);
      GroupInFront(depth, row);
      SamplesStep(depth, Group(depth, row[..spb]), Packed(depth, row[spb..]));
      PaddingIsZero(depth, row[spb..], j - spb);
    }
  }

  /** On bytes that make up no more than a row both of the reader's ways are the same, whatever the
      bytes. */
  lemma SerialIsValues(depth: nat, bytes: seq<Byte>, width: nat)
    requires IsDepth(depth) && |bytes| <= ByteCount(width, depth)
    ensures SerialToFlat(depth, bytes, width) == AsValues(depth, width, bytes)
  {
    if depth < 8 {
      ByteCountIsLeast(width, depth, ByteCount(width, depth));
      BitsOfBytes(depth, |bytes|, ByteCount(width, depth), width);
      FlatRowIsSamples(depth, bytes, width, width);
    }
  }

  lemma BitsOfBytes(depth: nat, n: nat, most: nat, width: nat)
    requires depth in {1, 2, 4} && n <= most && 8 * most < width * depth + 8
    ensures n * Spb(depth) < width + Spb(depth)
  {
  }

  lemma {:induction false} FlatRowIsSamples(depth: nat, bytes: seq<Byte>, width: nat, l: nat)
    requires depth in {1, 2, 4} && |bytes| * Spb(depth) < l + Spb(depth)
    ensures var out := AllSamples(depth, bytes);
            FlatRows(depth, bytes, width, l) == out[..if l < |out| then l else |out|]
    decreases |bytes|
  {
    hide Samples, AllSamples, FlatRows;
    var spb := Spb(depth);
    if bytes == [] {
      SamplesOfNothing(depth);
      FlatRowsOfNothing(depth, width, l);
    } else {
      MulDistrib(1, |bytes| - 1, spb);
      var first, tail := Samples(depth, bytes[0]), bytes[1..];
      assert bytes == [bytes[0]] + tail;
      SamplesStep(depth, bytes[0], tail);
      FlatRowsCons(depth, bytes[0], tail, width, l);
      if l > spb {
        FlatRowIsSamples(depth, tail, width, l - spb);
        var out := AllSamples(depth, tail);
        var n := if l - spb < |out| then l - spb else |out|;
        assert (first + out)[..spb + n] == first + out[..n];
      } else {
        if |bytes| > 1 { MulMono(1, |bytes| - 1, spb); }
        SamplesOfNothing(depth);
        FlatRowsOfNothing(depth, width, width);
        assert tail == [] && first + [] == first;
      }
    }
  }

  /** Any number of rows of the right length, one after the other. */
  lemma {:induction false} FlatRowsOfPacked(depth: nat, row: seq<nat>, rest: seq<Byte>, width: nat)
    requires depth in {1, 2, 4} && InRange(depth, row) && row != []
    ensures FlatRows(depth, Packed(depth, row) + rest, width, |row|) == row + FlatRows(depth, rest, width, width)
    decreases |row|
  {
    hide Group, Samples, FlatRows, Packed;
    var spb := Spb(depth);
    if |row| <= spb {
      var e := row + Zeros(spb - |row|);
      SamplesOfGroup(depth, e);
      assert Packed(depth, row) == [Group(depth, e)] by { PackedLast(depth, row); }
      FlatRowsCons(depth, Group(depth, e), rest, width, |row|);
      assert e[..|row|] == row;
    } else {
      var first, tail := row[..spb], Packed(depth, row[spb..]);
      SamplesOfGroup(depth, first);
      GroupInFront(depth, row);
      FlatRowsOfPacked(depth, row[spb..], rest, width);
      FlatRowsCons(depth, Group(depth, first), tail + rest, width, |row|);
      assert Packed(depth, row) + rest == [Group(depth, first)] + (tail + rest);
      assert row == first + row[spb..] && first[..spb] == first;
    }
  }

  lemma PackedLast(depth: nat, row: seq<nat>)
    requires depth in {1, 2, 4} && InRange(depth, row) && 0 < |row| <= Spb(depth)
    ensures Packed(depth, row) == [Group(depth, row + Zeros(Spb(depth) - |row|))]
  {
  }

  lemma FlatRowsCons(depth: nat, o: Byte, bytes: seq<Byte>, width: nat, l: nat)
    requires depth in {1, 2, 4}
    ensures var spb := Spb(depth);
            FlatRows(depth, [o] + bytes, width, l)
            == Samples(depth, o)[..if l < spb then l else spb]
               + FlatRows(depth, bytes, width, if l <= spb then width else l - spb)
  {
    hide Samples;
    assert ([o] + bytes)[1..] == bytes;
  }

  /** Unpacking a packed row with the right width gives the row, in both of the reader's ways. */
  lemma UnpackInvertsPack(depth: nat, row: seq<nat>)
    requires IsDepth(depth) && InRange(depth, row)
    ensures AsValues(depth, |row|, Packed(depth, row)) == Row(row)
    ensures SerialToFlat(depth, Packed(depth, row), |row|) == Row(row)
  {
    hide Packed, FlatRows, AllSamples, Words;
    if depth == 8 {
      BytesOfPacked(row);
    } else if depth == 16 {
      WordsOfPacked(row);
    } else {
      SamplesOfPacked(depth, row);
      if row == [] {
        PackedNothing(depth);
      } else {
        FlatRowsOfPacked(depth, row, [], |row|);
        assert Packed(depth, row) + [] == Packed(depth, row);
        assert FlatRows(depth, [], |row|, |row|) == [] by { FlatRowsOfNothing(depth, |row|, |row|); }
      }
    }
  }

  lemma FlatRowsOfNothing(depth: nat, width: nat, l: nat)
    requires depth in {1, 2, 4}
    ensures FlatRows(depth, [], width, l) == []
  {
  }

  lemma PackedNothing(depth: nat)
    requires depth in {1, 2, 4}
    ensures Packed(depth, []) == [] && FlatRows(depth, [], 0, 0) == []
  {
  }

  // ----- The loops

  /** The extend functions of write_passes: the bytes appended for one row. */
  method Extend(depth: nat, sl: seq<nat>) returns (bytes: seq<Byte>)
    requires IsDepth(depth) && InRange(depth, sl)
    ensures bytes == Packed(depth, sl)
  {
    bytes := [];
    if depth == 8 {
      BytesOfPacked(sl);
      PowersOfTwo();
      bytes := seq(|sl|, i requires 0 <= i < |sl| => sl[i]);
    } else if depth == 16 {
      bytes := DecomposeWords(sl);
    } else {
      bytes := PackGroups(depth, sl);
    }
  }

  method DecomposeWords(sl: seq<nat>) returns (bytes: seq<Byte>)
    requires InRange(16, sl)
    ensures bytes == Packed(16, sl)
  {
    PowersOfTwo();
    bytes := [];
    assert sl[0..] == sl;
    for i := 0 to |sl|
      invariant bytes + Packed(16, sl[i..]) == Packed(16, sl)
    {
      assert sl[i..][1..] == sl[i + 1..];
      bytes := bytes + [sl[i] / 256, sl[i] % 256];
    }
  }

  method PackGroups(depth: nat, sl: seq<nat>) returns (bytes: seq<Byte>)
    requires depth in {1, 2, 4} && InRange(depth, sl)
    ensures bytes == Packed(depth, sl)
  {
    hide *;
    var spb := Spb(depth);
    SmallDepth(depth);
    var groups := CeilDiv(|sl|, spb);
    CeilDivIs(|sl|, spb, groups);
    var extra := groups * spb - |sl|;
    var a := sl + Zeros(extra);
    PaddedPacks(depth, sl, extra, groups);
    PaddedInRange(depth, sl, extra);
    bytes := [];
    assert a[0..] == a && [] + Packed(depth, a) == Packed(depth, a);
    var i := 0;
    for g := 0 to groups
      invariant i == g * spb <= |a| && InRange(depth, a[i..])
      invariant bytes + Packed(depth, a[i..]) == Packed(depth, a)
    {
      MulMono(g + 1, groups, spb);
      MulDistrib(g, 1, spb);
      GroupTurn(depth, a, i, bytes);
      var o := ReduceGroup(depth, a[i..][..spb]);
      bytes := bytes + [o];
      i := i + spb;
    }
    assert a[i..] == [];
    PackedNothing(depth);
  }

  lemma GroupTurn(depth: nat, a: seq<nat>, i: nat, bytes: seq<Byte>)
    requires depth in {1, 2, 4} && i + Spb(depth) <= |a| && InRange(depth, a[i..])
    ensures var spb := Spb(depth);
            && InRange(depth, a[i..][..spb]) && InRange(depth, a[i + spb..])
            && bytes + Packed(depth, a[i..]) == bytes + [Group(depth, a[i..][..spb])] + Packed(depth, a[i + spb..])
  {
    var spb := Spb(depth);
    assert a[i..][spb..] == a[i + spb..];
    PartsInRange(depth, a[i..], spb);
    hide *;
    GroupInFront(depth, a[i..]);
  }

  lemma PaddedPacks(depth: nat, row: seq<nat>, extra: nat, groups: nat)
    requires depth in {1, 2, 4} && InRange(depth, row)
    requires extra < Spb(depth) && |row| + extra == groups * Spb(depth)
    ensures Packed(depth, row + Zeros(extra)) == Packed(depth, row)
    decreases |row|
  {
    hide Group, Packed;
    var spb := Spb(depth);
    if |row| > spb {
      MulDistrib(groups - 1, 1, spb);
      PaddedPacks(depth, row[spb..], extra, groups - 1);
      assert (row + Zeros(extra))[..spb] == row[..spb];
      assert (row + Zeros(extra))[spb..] == row[spb..] + Zeros(extra);
      GroupInFront(depth, row + Zeros(extra));
      GroupInFront(depth, row);
    } else if row == [] {
      if groups > 0 { MulMono(1, groups, spb); }
      assert row + Zeros(extra) == row;
    } else {
      OneGroup(groups, spb, |row| + extra);
      LastGroup(depth, row, extra);
    }
  }

  lemma OneGroup(groups: nat, spb: nat, n: nat)
    requires n == groups * spb && 0 < n < 2 * spb
    ensures groups == 1
  {
    if groups > 1 { MulMono(2, groups, spb); }
  }

  lemma LastGroup(depth: nat, row: seq<nat>, extra: nat)
    requires depth in {1, 2, 4} && InRange(depth, row) && row != [] && |row| + extra == Spb(depth)
    ensures Packed(depth, row + Zeros(extra)) == Packed(depth, row)
  {
    hide Group;
    assert row + Zeros(extra) + Zeros(0) == row + Zeros(extra);
  }

  lemma GroupInFront(depth: nat, a: seq<nat>)
    requires depth in {1, 2, 4} && InRange(depth, a) && |a| >= Spb(depth)
    ensures Packed(depth, a) == [Group(depth, a[..Spb(depth)])] + Packed(depth, a[Spb(depth)..])
  {
    hide Group;
    if |a| == Spb(depth) {
      assert a + Zeros(0) == a && a[..Spb(depth)] == a && a[Spb(depth)..] == [];
    }
  }

  method ReduceGroup(depth: nat, e: seq<nat>) returns (x: Byte)
    requires depth in {1, 2, 4} && |e| == Spb(depth) && InRange(depth, e)
    ensures x == Group(depth, e)
  {
    var b := Pow(2, depth);
    var y := e[0];
    assert e[..1] == [e[0]] && Fold(b, [e[0]][..0]) == 0;
    for i := 1 to |e|
      invariant y == Fold(b, e[..i])
    {
      assert e[..i + 1][..i] == e[..i];
      y := y * b + e[i];
    }
    assert e[..|e|] == e;
    GroupFitsByte(depth, e);
    x := y;
  }

  /** serialtoflat. */
  method ToFlat(depth: nat, bytes: seq<Byte>, width: nat) returns (row: Row)
    requires IsDepth(depth)
    ensures row == SerialToFlat(depth, bytes, width)
  {
    if depth < 8 {
      var out := FlatBits(depth, bytes, width);
      return Row(out);
    }
    row := ToValues(depth, width, bytes);
  }

  method FlatBits(depth: nat, bytes: seq<Byte>, width: nat) returns (out: seq<nat>)
    requires depth in {1, 2, 4}
    ensures out == FlatRows(depth, bytes, width, width)
  {
    hide Samples, FlatRows;
    var spb, l: nat := 8 / depth, width;
    out := [];
    assert bytes[0..] == bytes;
    for i := 0 to |bytes|
      invariant out + FlatRows(depth, bytes[i..], width, l) == FlatRows(depth, bytes, width, width)
    {
      assert bytes[i..] == [bytes[i]] + bytes[i + 1..];
      FlatRowsCons(depth, bytes[i], bytes[i + 1..], width, l);
      out := out + Samples(depth, bytes[i])[..if l < spb then l else spb];
      l := if l - spb <= 0 then width else l - spb;
    }
    assert FlatRows(depth, [], width, l) == [] by { FlatRowsOfNothing(depth, width, l); }
  }

  /** asvalues. */
  method ToValues(depth: nat, width: nat, raw: seq<Byte>) returns (row: Row)
    requires IsDepth(depth)
    ensures row == AsValues(depth, width, raw)
  {
    hide Samples, AllSamples, Words;
    if depth >= 8 { return AsValues(depth, width, raw); }
    var out: seq<nat> := [];
    assert raw[0..] == raw;
    for i := 0 to |raw|
      invariant out + AllSamples(depth, raw[i..]) == AllSamples(depth, raw)
    {
      AllSamplesCons(depth, raw[i], raw[i + 1..]);
      assert raw[i..] == [raw[i]] + raw[i + 1..];
      out := out + Samples(depth, raw[i]);
    }
    assert |AllSamples(depth, raw[|raw|..])| == 0;
    row := Row(out[..if width < |out| then width else |out|]);
  }

  lemma AllSamplesCons(depth: nat, o: Byte, bytes: seq<Byte>)
    requires depth in {1, 2, 4}
    ensures AllSamples(depth, [o] + bytes) == Samples(depth, o) + AllSamples(depth, bytes)
  {
    hide Samples;
    assert ([o] + bytes)[1..] == bytes;
  }
}
