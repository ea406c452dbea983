/** Non-interlaced images: rows become one byte stream cut into IDAT chunks, and the reader finds the
    rows again in the stream however it is cut. Compression is the identity on bytes. */
module PngStraight {
  import opened Arithmetic
  import opened PngFilter
  import opened PngPacking

  function Flatten<T>(parts: seq<seq<T>>): seq<T> {
    if parts == [] then [] else parts[0] + Flatten(parts[1..])
  }

  lemma {:induction false} FlattenConcat<T>(a: seq<seq<T>>, b: seq<seq<T>>)
    ensures Flatten(a + b) == Flatten(a) + Flatten(b)
  {
    if a == [] {
      assert a + b == b;
    } else {
      assert (a + b)[0] == a[0] && (a + b)[1..] == a[1..] + b;
      FlattenConcat(a[1..], b);
    }
  }

  lemma FlattenSnoc<T>(a: seq<seq<T>>, x: seq<T>)
    ensures Flatten(a + [x]) == Flatten(a) + x
  {
    FlattenConcat(a, [x]);
    assert Flatten([x]) == x + Flatten([]);
  }

  // ----- The writer

  predicate RowsInRange(depth: nat, rows: seq<seq<nat>>) {
    forall i :: 0 <= i < |rows| ==> InRange(depth, rows[i])
  }

  /** Every row with filter type 0 in front. */
  function Stream(depth: nat, rows: seq<seq<nat>>): seq<Byte>
    requires IsDepth(depth) && RowsInRange(depth, rows)
  {
    if rows == [] then [] else [0] + Packed(depth, rows[0]) + Stream(depth, rows[1..])
  }

  lemma {:induction false} StreamSnoc(depth: nat, rows: seq<seq<nat>>, row: seq<nat>)
    requires IsDepth(depth) && RowsInRange(depth, rows) && InRange(depth, row)
    ensures Stream(depth, rows + [row]) == Stream(depth, rows) + ([0] + Packed(depth, row))
  {
    hide Packed;
    if rows == [] {
      assert [row][1..] == [];
      assert rows + [row] == [row];
      assert [0] + Packed(depth, row) + Stream(depth, []) == [0] + Packed(depth, row);
    } else {
      assert (rows + [row])[1..] == rows[1..] + [row];
      StreamSnoc(depth, rows[1..], row);
    }
  }

  datatype Written = Written(idat: seq<seq<Byte>>, rows: nat) | NoRows

  /** The row loop of write_passes, without rescaling. `data` collects bytes and is compressed and
      emptied whenever it has grown beyond the limit. */
  method WritePasses(depth: nat, rows: seq<seq<nat>>, chunkLimit: nat) returns (r: Written)
    requires IsDepth(depth) && RowsInRange(depth, rows)
    ensures r.NoRows? <==> rows == []
    ensures r.Written? ==>
              && Flatten(r.idat) == Stream(depth, rows)
              && r.rows == |rows|
              && (forall i :: 0 <= i < |r.idat| ==> r.idat[i] != [])
              && (forall i :: 0 <= i < |r.idat| - 1 ==> |r.idat[i]| > chunkLimit)
  {
    hide Packed, Stream, Flatten;
    if rows == [] { return NoRows; }
    var idat: seq<seq<Byte>>, data: seq<Byte> := [], [0];
    var packed := Extend(depth, rows[0]);
    data := data + packed;
    FirstRow(depth, rows);
    var n := 1;
    while n < |rows|
      invariant 1 <= n <= |rows|
      invariant Flatten(idat) + data == Stream(depth, rows[..n])
      invariant forall i :: 0 <= i < |idat| ==> idat[i] != [] && |idat[i]| > chunkLimit
    {
      packed := Extend(depth, rows[n]);
      assert rows[..n + 1] == rows[..n] + [rows[n]];
      StreamSnoc(depth, rows[..n], rows[n]);
      data := data + [0] + packed;
      if |data| > chunkLimit {
        FlattenSnoc(idat, data);
        idat := idat + [data];
        data := [];
      }
      n := n + 1;
    }
    assert rows[..n] == rows;
    if |data| > 0 {
      FlattenSnoc(idat, data);
      idat := idat + [data];
    }
    r := Written(idat, n);
  }

  lemma FirstRow(depth: nat, rows: seq<seq<nat>>)
    requires IsDepth(depth) && RowsInRange(depth, rows) && rows != []
    ensures Flatten<Byte>([]) + ([0] + Packed(depth, rows[0])) == Stream(depth, rows[..1])
  {
    hide Packed;
    assert rows[..1][1..] == [];
    assert [0] + Packed(depth, rows[0]) + Stream(depth, []) == [0] + Packed(depth, rows[0]);
  }

  // ----- The reader

  /** Complete; an unknown filter type; bytes left over. */
  datatype Status = Complete | BadFilter | WrongSize

  datatype Lines = Lines(rows: seq<seq<Byte>>, status: Status)

  /** The rows of a byte stream with rows of `rb` bytes, and how reading it ends. */
  function Lined(rb: nat, fu: nat, bytes: seq<Byte>, recon: seq<Byte>): Lines
    requires fu > 0
    decreases |bytes|
  {
    if |bytes| < rb + 1 then Lines([], if bytes == [] then Complete else WrongSize)
    else if bytes[0] > 4 then Lines([], BadFilter)
    else
      var line := Unfiltered(bytes[0], bytes[1..rb + 1], recon, fu);
      var rest := Lined(rb, fu, bytes[rb + 1..], line);
      Lines([line] + rest.rows, rest.status)
  }

  /** iterstraight: rows appear as soon as enough pieces of the stream have arrived. */
  method IterStraight(raw: seq<seq<Byte>>, rb: nat, fu: nat) returns (out: Lines)
    requires fu > 0
    ensures out == Lined(rb, fu, Flatten(raw), [])
  {
    hide *;
    var a: seq<Byte>, recon: seq<Byte> := [], [];
    var rows: seq<seq<Byte>> := [];
    ghost var all := Flatten(raw);
    assert raw[0..] == raw && [] + all == all;
    BehindNothing(Lined(rb, fu, all, []));
    for k := 0 to |raw|
      invariant |a| < rb + 1 && (recon == [] || |recon| == rb)
      invariant Lined(rb, fu, all, []) == Behind(rows, Lined(rb, fu, a + Flatten(raw[k..]), recon))
    {
      ghost var later := Flatten(raw[k + 1..]);
      FlattenFirst(raw[k..]);
      assert raw[k..][1..] == raw[k + 1..];
      assert a + (raw[k] + later) == (a + raw[k]) + later;
      a := a + raw[k];
      while |a| >= rb + 1
        invariant recon == [] || |recon| == rb
        invariant Lined(rb, fu, all, []) == Behind(rows, Lined(rb, fu, a + later, recon))
      {
        var filter, scanline := a[0], a[1..rb + 1];
        LinedRow(rb, fu, a, later, recon);
        a := a[rb + 1..];
        LineCovers(filter, recon, rb);
        var ok, line := UndoFilter(filter, scanline, recon, fu);
        if !ok {
          BehindLast(rows, BadFilter);
          return Lines(rows, BadFilter);
        }
        recon := line[..];
        BehindMore(rows, recon, Lined(rb, fu, a + later, recon));
        rows := rows + [recon];
      }
    }
    assert raw[|raw|..] == [] && Flatten(raw[|raw|..]) == [] by { FlattenNothing<Byte>(); }
    assert a + [] == a;
    LinedTooShort(rb, fu, a, recon);
    BehindLast(rows, if |a| != 0 then WrongSize else Complete);
    out := Lines(rows, if |a| != 0 then WrongSize else Complete);
  }

  /** The bytes from `at` on are a filter type and the filtered form of `line`. */
  predicate UnfiltersTo(bytes: seq<Byte>, at: nat, rb: nat, line: seq<Byte>, prev: seq<Byte>, fu: nat) {
    && at + rb + 1 <= |bytes| && bytes[at] <= 4
    && IsFilteredLine(bytes[at], bytes[at + 1..at + rb + 1], line, prev, fu)
  }

  lemma UnfiltersLater(bytes: seq<Byte>, n: nat, at: nat, rb: nat, line: seq<Byte>, prev: seq<Byte>, fu: nat)
    requires n <= |bytes| && UnfiltersTo(bytes[n..], at, rb, line, prev, fu)
    ensures UnfiltersTo(bytes, n + at, rb, line, prev, fu)
  {
    hide IsFilteredLine;
    assert bytes[n..][at + 1..at + rb + 1] == bytes[n + at + 1..n + at + rb + 1];
  }

  /** The first row and the rest. */
  lemma LinedFirst(rb: nat, fu: nat, bytes: seq<Byte>, recon: seq<Byte>)
    requires fu > 0 && Lined(rb, fu, bytes, recon).rows != []
    ensures var rows := Lined(rb, fu, bytes, recon).rows;
            && rb + 1 <= |bytes| && UnfiltersTo(bytes, 0, rb, rows[0], recon, fu)
            && rows[1..] == Lined(rb, fu, bytes[rb + 1..], rows[0]).rows
  {
    hide Unfiltered, IsFilteredLine;
    FilteredExactly(bytes[0], bytes[1..rb + 1], Unfiltered(bytes[0], bytes[1..rb + 1], recon, fu), recon, fu);
  }

  /** Every row read is the line that the filter named by the byte in front turns into its bytes. */
  lemma {:induction false} LinedIsUnfiltered(rb: nat, fu: nat, bytes: seq<Byte>, recon: seq<Byte>, k: nat)
    requires fu > 0 && k < |Lined(rb, fu, bytes, recon).rows|
    ensures var rows := Lined(rb, fu, bytes, recon).rows;
            UnfiltersTo(bytes, k * (rb + 1), rb, rows[k], if k == 0 then recon else rows[k - 1], fu)
    decreases k
  {
    hide *;
    LinedFirst(rb, fu, bytes, recon);
    if k > 0 {
      var rows := Lined(rb, fu, bytes, recon).rows;
      LinedIsUnfiltered(rb, fu, bytes[rb + 1..], rows[0], k - 1);
      MulDistrib(k - 1, 1, rb + 1);
      UnfiltersLater(bytes, rb + 1, (k - 1) * (rb + 1), rb, rows[k], rows[k - 1], fu);
    }
  }

  lemma LineCovers(filter: nat, recon: seq<Byte>, rb: nat)
    requires recon == [] || |recon| == rb
    ensures Covers(filter, recon, rb)
  {
  }

  lemma BehindNothing(l: Lines)
    ensures Behind([], l) == l
  {
    assert [] + l.rows == l.rows;
  }

  lemma BehindLast(rows: seq<seq<Byte>>, status: Status)
    ensures Behind(rows, Lines([], status)) == Lines(rows, status)
  {
    assert rows + [] == rows;
  }

  lemma BehindMore(rows: seq<seq<Byte>>, row: seq<Byte>, l: Lines)
    ensures Behind(rows, Behind([row], l)) == Behind(rows + [row], l)
  {
    assert rows + ([row] + l.rows) == rows + [row] + l.rows;
  }

  lemma LinedTooShort(rb: nat, fu: nat, a: seq<Byte>, recon: seq<Byte>)
    requires fu > 0 && |a| < rb + 1
    ensures Lined(rb, fu, a, recon) == Lines([], if |a| != 0 then WrongSize else Complete)
  {
  }

  function Behind(rows: seq<seq<Byte>>, l: Lines): Lines {
    Lines(rows + l.rows, l.status)
  }

  lemma FlattenNothing<T>()
    ensures Flatten<T>([]) == []
  {
  }

  lemma FlattenFirst<T>(parts: seq<seq<T>>)
    requires parts != []
    ensures Flatten(parts) == parts[0] + Flatten(parts[1..])
  {
  }

  /** A row that has arrived completely does not depend on what comes later. */
  lemma LinedRow(rb: nat, fu: nat, a: seq<Byte>, later: seq<Byte>, recon: seq<Byte>)
    requires fu > 0 && |a| >= rb + 1
    ensures Lined(rb, fu, a + later, recon) ==
            if a[0] > 4 then Lines([], BadFilter)
            else
              var line := Unfiltered(a[0], a[1..rb + 1], recon, fu);
              Behind([line], Lined(rb, fu, a[rb + 1..] + later, line))
  {
    hide Unfiltered;
    assert (a + later)[1..rb + 1] == a[1..rb + 1];
    assert (a + later)[rb + 1..] == a[rb + 1..] + later;
  }

  /** The filter types of all complete rows are known. */
  predicate KnownFilters(rb: nat, bytes: seq<Byte>)
    decreases |bytes|
  {
    |bytes| < rb + 1 || (bytes[0] <= 4 && KnownFilters(rb, bytes[rb + 1..]))
  }

  predicate AllKnown(rb: nat, bytes: seq<Byte>, n: nat) {
    forall k :: 0 <= k < n ==> FilterOf(rb, bytes, k) <= 4
  }

  lemma {:induction false} KnownFiltersByRow(rb: nat, bytes: seq<Byte>)
    ensures KnownFilters(rb, bytes) <==> AllKnown(rb, bytes, |bytes| / (rb + 1))
    decreases |bytes|
  {
    hide AllKnown;
    if |bytes| >= rb + 1 {
      DivStep(|bytes|, rb + 1);
      KnownFiltersByRow(rb, bytes[rb + 1..]);
      AllKnownStep(rb, bytes, |bytes| / (rb + 1));
    } else {
      QuotientIs(|bytes|, rb + 1, 0, |bytes|);
      assert AllKnown(rb, bytes, 0) by { NoneKnown(rb, bytes); }
    }
  }

  lemma NoneKnown(rb: nat, bytes: seq<Byte>)
    ensures AllKnown(rb, bytes, 0)
  {
  }

  lemma AllKnownStep(rb: nat, bytes: seq<Byte>, n: nat)
    requires |bytes| >= rb + 1 && n >= 1
    ensures AllKnown(rb, bytes, n) <==> bytes[0] <= 4 && AllKnown(rb, bytes[rb + 1..], n - 1)
  {
    hide FilterOf;
    var rest := bytes[rb + 1..];
    FilterOfFirst(rb, bytes);
    forall k | 0 <= k < n - 1
      ensures FilterOf(rb, bytes, k + 1) == FilterOf(rb, rest, k)
    {
      FilterOfTail(rb, bytes, k + 1);
    }
    if bytes[0] <= 4 && AllKnown(rb, rest, n - 1) {
      forall k | 0 <= k < n
        ensures FilterOf(rb, bytes, k) <= 4
      {
        if k > 0 { assert FilterOf(rb, rest, k - 1) <= 4; }
      }
    }
  }

  lemma {:induction false} StatusByFilters(rb: nat, fu: nat, bytes: seq<Byte>, recon: seq<Byte>)
    requires fu > 0
    ensures var status := Lined(rb, fu, bytes, recon).status;
            && (status == BadFilter <==> !KnownFilters(rb, bytes))
            && (status == WrongSize <==> KnownFilters(rb, bytes) && |bytes| % (rb + 1) != 0)
    decreases |bytes|
  {
    hide Unfiltered;
    if |bytes| >= rb + 1 {
      DivStep(|bytes|, rb + 1);
      if bytes[0] <= 4 {
        StatusByFilters(rb, fu, bytes[rb + 1..], Unfiltered(bytes[0], bytes[1..rb + 1], recon, fu));
      }
    }
  }

  /** Format errors, exactly: an unknown filter type in front of a complete row, or else bytes that do
      not make whole rows. */
  lemma StatusExactly(rb: nat, fu: nat, bytes: seq<Byte>, recon: seq<Byte>)
    requires fu > 0
    ensures var status := Lined(rb, fu, bytes, recon).status;
            var known := AllKnown(rb, bytes, |bytes| / (rb + 1));
            && (status == BadFilter <==> !known)
            && (status == WrongSize <==> known && |bytes| % (rb + 1) != 0)
  {
    hide FilterOf;
    StatusByFilters(rb, fu, bytes, recon);
    KnownFiltersByRow(rb, bytes);
  }

  lemma DivStep(x: nat, y: nat)
    requires 0 < y <= x
    ensures x / y == (x - y) / y + 1 && x % y == (x - y) % y
  {
    var q, r := (x - y) / y, (x - y) % y;
    MulDistrib(q, 1, y);
    QuotientIs(x, y, q + 1, r);
  }

  /** The filter type of the k-th complete row. */
  function FilterOf(rb: nat, bytes: seq<Byte>, k: nat): Byte {
    if k * (rb + 1) < |bytes| then bytes[k * (rb + 1)] else 0
  }

  lemma FilterOfFirst(rb: nat, bytes: seq<Byte>)
    requires bytes != []
    ensures FilterOf(rb, bytes, 0) == bytes[0]
  {
  }

  lemma FilterOfTail(rb: nat, bytes: seq<Byte>, k: nat)
    requires 1 <= k && |bytes| >= rb + 1
    ensures FilterOf(rb, bytes, k) == FilterOf(rb, bytes[rb + 1..], k - 1)
  {
    MulDistrib(k - 1, 1, rb + 1);
  }

  // ----- Both together

  lemma LinedNothing(rb: nat, fu: nat, recon: seq<Byte>)
    requires fu > 0
    ensures Lined(rb, fu, [], recon) == Lines([], Complete)
  {
  }

  predicate SameLength(lines: seq<seq<Byte>>, rb: nat) {
    forall i :: 0 <= i < |lines| ==> |lines[i]| == rb
  }

  predicate Filters(types: seq<nat>) {
    forall i :: 0 <= i < |types| ==> types[i] < 5
  }

  /** Lines filtered one after the other, each with a type of its own. */
  function FilteredStream(types: seq<nat>, lines: seq<seq<Byte>>, prev: seq<Byte>, fu: nat): seq<Byte>
    requires fu > 0 && |types| == |lines| && Filters(types)
  {
    if lines == [] then []
    else FilterScanline(types[0], lines[0], fu, prev) + FilteredStream(types[1..], lines[1..], lines[0], fu)
  }

  /** Whatever filter each line is given, reading the stream gives the lines back, provided "up" is
      not used where there is no line above. */
  lemma {:induction false} FilteredStreamIsLined(types: seq<nat>, lines: seq<seq<Byte>>, prev: seq<Byte>, rb: nat,
                                                 fu: nat)
    requires fu > 0 && |types| == |lines| && Filters(types) && SameLength(lines, rb)
    requires rb > 0 && (lines != [] && prev == [] ==> types[0] != 2)
    ensures Lined(rb, fu, FilteredStream(types, lines, prev, fu), prev) == Lines(lines, Complete)
    decreases |lines|
  {
    hide Unfiltered, Filtered, Lined;
    if lines == [] {
      LinedNothing(rb, fu, prev);
    } else {
      var first := FilterScanline(types[0], lines[0], fu, prev);
      var later := FilteredStream(types[1..], lines[1..], lines[0], fu);
      UnfilterInvertsFilter(types[0], lines[0], prev, fu);
      assert first[0] == types[0] && |first| == rb + 1;
      assert first[1..rb + 1] == Filtered(types[0], lines[0], prev, fu) && first[rb + 1..] == [];
      assert [] + later == later;
      LinedRow(rb, fu, first, later, prev);
      FilteredStreamIsLined(types[1..], lines[1..], lines[0], rb, fu);
    }
  }

  /** The exact condition: with "up" on the first line one byte is missing and no reading of the
      stream is complete. */
  lemma FirstLineUpIsUnreadable(types: seq<nat>, lines: seq<seq<Byte>>, rb: nat, fu: nat)
    requires fu > 0 && |types| == |lines| && Filters(types) && SameLength(lines, rb) && rb > 0
    ensures Lined(rb, fu, FilteredStream(types, lines, [], fu), []) == Lines(lines, Complete)
       <==> (lines != [] ==> types[0] != 2)
    ensures lines != [] && types[0] == 2 ==> Lined(rb, fu, FilteredStream(types, lines, [], fu), []).status != Complete
  {
    hide Filtered, Unfiltered;
    if lines == [] || types[0] != 2 {
      FilteredStreamIsLined(types, lines, [], rb, fu);
    } else {
      var stream := FilteredStream(types, lines, [], fu);
      FilteredStreamLength(types[1..], lines[1..], lines[0], rb, fu);
      var n := |lines|;
      MulDistrib(n - 1, 1, rb + 1);
      assert |stream| == (n - 1) * (rb + 1) + rb;
      QuotientIs(|stream|, rb + 1, n - 1, rb);
      StatusExactly(rb, fu, stream, []);
    }
  }

  lemma {:induction false} FilteredStreamLength(types: seq<nat>, lines: seq<seq<Byte>>, prev: seq<Byte>, rb: nat,
                                                fu: nat)
    requires fu > 0 && |types| == |lines| && Filters(types) && SameLength(lines, rb) && rb > 0 && prev != []
    ensures |FilteredStream(types, lines, prev, fu)| == |lines| * (rb + 1)
    decreases |lines|
  {
    hide Filtered;
    if lines != [] {
      FilteredStreamLength(types[1..], lines[1..], lines[0], rb, fu);
      MulDistrib(|lines| - 1, 1, rb + 1);
    }
  }

  function PackedRows(depth: nat, rows: seq<seq<nat>>): (lines: seq<seq<Byte>>)
    requires IsDepth(depth) && RowsInRange(depth, rows)
    ensures |lines| == |rows|
  {
    seq(|rows|, i requires 0 <= i < |rows| => Packed(depth, rows[i]))
  }

  lemma {:induction false} StreamIsFiltered(depth: nat, rows: seq<seq<nat>>, prev: seq<Byte>, fu: nat)
    requires IsDepth(depth) && RowsInRange(depth, rows) && fu > 0
    ensures Filters(Zeros(|rows|))
    ensures Stream(depth, rows) == FilteredStream(Zeros(|rows|), PackedRows(depth, rows), prev, fu)
    decreases |rows|
  {
    hide Packed, Filtered;
    if rows != [] {
      var line := Packed(depth, rows[0]);
      StreamIsFiltered(depth, rows[1..], line, fu);
      NoneIsIdentity(line, prev, fu);
      assert Zeros(|rows|)[1..] == Zeros(|rows[1..]|);
      assert PackedRows(depth, rows)[1..] == PackedRows(depth, rows[1..]);
    }
  }

  /** A straight image end to end: rows of `samples` samples, written with any chunk limit, the chunks
      cut up again in any way, then read: every row comes back and nothing is left over. */
  lemma StraightRoundTrip(depth: nat, rows: seq<seq<nat>>, samples: nat, fu: nat, raw: seq<seq<Byte>>)
    requires IsDepth(depth) && RowsInRange(depth, rows) && samples > 0 && fu > 0
    requires forall i :: 0 <= i < |rows| ==> |rows[i]| == samples
    requires Flatten(raw) == Stream(depth, rows)
    ensures var lines := Lined(ByteCount(samples, depth), fu, Flatten(raw), []);
            && lines.status == Complete && |lines.rows| == |rows|
            && forall i :: 0 <= i < |rows| ==> AsValues(depth, samples, lines.rows[i]) == Row(rows[i])
  {
    hide Packed, AsValues, SerialToFlat, Stream, FilteredStream, Lined, ByteCount, Flatten;
    var rb := ByteCount(samples, depth);
    var lines := PackedRows(depth, rows);
    RowTakesBytes(samples, depth);
    forall i | 0 <= i < |rows|
      ensures |lines[i]| == rb && AsValues(depth, samples, lines[i]) == Row(rows[i])
    {
      PackedLength(depth, rows[i]);
      UnpackInvertsPack(depth, rows[i]);
    }
    StreamIsFiltered(depth, rows, [], fu);
    FilteredStreamIsLined(Zeros(|rows|), lines, [], rb, fu);
  }

  lemma RowTakesBytes(samples: nat, depth: nat)
    requires samples > 0 && depth > 0
    ensures ByteCount(samples, depth) > 0
  {
    MulMono(1, samples, depth);
    CeilDivIs(samples * depth, 8, CeilDiv(samples * depth, 8));
  }
}
