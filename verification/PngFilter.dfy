/** Scanline filters: what the writer's and the reader's loops compute, and that they undo each
    other although the reader predicts from bytes it has itself reconstructed. A previous scanline
    of [] stands for "none", as the code treats an empty one the same way. */
module PngFilter {

  type Byte = b: int | 0 <= b < 256

  /** (x + y) & 0xff, (x - y) & 0xff and (x + y) >> 1. */
  function Plus(x: int, y: int): Byte {
    (x + y) % 256
  }

  function Minus(x: int, y: int): Byte {
    (x - y) % 256
  }

  function Mean(x: Byte, y: Byte): Byte {
    (x + y) / 2
  }

  function Abs(x: int): nat {
    if x < 0 then -x else x
  }

  /** The Paeth predictor, ties resolved in the order left, above, upper left. */
  function Paeth(a: Byte, b: Byte, c: Byte): Byte {
    var p := a + b - c;
    var pa, pb, pc := Abs(p - a), Abs(p - b), Abs(p - c);
    if pa <= pb && pa <= pc then a else if pb <= pc then b else c
  }

  /** What the predictor is for (section 9.4 of W3C REC-PNG-20031110): of the three neighbours the
      nearest to a + b - c, with a preferred to b and b to c.  */
  lemma PaethIsNearest(a: Byte, b: Byte, c: Byte)
    ensures var r, p := Paeth(a, b, c), a + b - c;
            && r in {a, b, c}
            && Abs(p - r) <= Abs(p - a) && Abs(p - r) <= Abs(p - b) && Abs(p - r) <= Abs(p - c)
            && (Abs(p - a) == Abs(p - r) ==> r == a)
            && (Abs(p - b) == Abs(p - r) && Abs(p - a) > Abs(p - r) ==> r == b)
  {
  }

  lemma PaethOnFirstLine(a: Byte)
    ensures Paeth(a, 0, 0) == a
  {
  }

  function Predict(filter: nat, a: Byte, b: Byte, c: Byte): Byte {
    match filter
    case 1 => a
    case 2 => b
    case 3 => Mean(a, b)
    case 4 => Paeth(a, b, c)
    case _ => 0
  }

  /** The byte one filter unit to the left of `i`, 0 outside the line. */
  function Left(line: seq<Byte>, i: nat, unit: nat): Byte
    requires i <= |line| && unit > 0
  {
    if i < unit then 0 else line[i - unit]
  }

  function Above(prev: seq<Byte>, i: nat): Byte {
    if i < |prev| then prev[i] else 0
  }

  function UpperLeft(prev: seq<Byte>, i: nat, unit: nat): Byte {
    if i < unit then 0 else Above(prev, i - unit)
  }

  /** The previous line is there and reaches as far as the filter looks. */
  predicate Covers(filter: nat, prev: seq<Byte>, length: nat) {
    prev != [] && filter >= 2 ==> |prev| >= length
  }

  /** The filtered line: every byte minus its prediction from the unfiltered neighbours. */
  function Filtered(filter: nat, line: seq<Byte>, prev: seq<Byte>, unit: nat): (r: seq<Byte>)
    requires unit > 0
    ensures |r| == |line|
  {
    seq(|line|, i requires 0 <= i < |line| =>
      Minus(line[i], Predict(filter, Left(line, i, unit), Above(prev, i), UpperLeft(prev, i, unit))))
  }

  /** The first `n` reconstructed bytes: each is predicted from bytes reconstructed before it. */
  function Reconstructed(filter: nat, scanline: seq<Byte>, prev: seq<Byte>, unit: nat, n: nat): (r: seq<Byte>)
    requires unit > 0 && n <= |scanline|
    ensures |r| == n
  {
    if n == 0 then []
    else
      var r := Reconstructed(filter, scanline, prev, unit, n - 1);
      r + [Plus(scanline[n - 1], Predict(filter, Left(r, n - 1, unit), Above(prev, n - 1),
                                         UpperLeft(prev, n - 1, unit)))]
  }

  function Unfiltered(filter: nat, scanline: seq<Byte>, prev: seq<Byte>, unit: nat): (r: seq<Byte>)
    requires unit > 0
    ensures |r| == |scanline|
  {
    Reconstructed(filter, scanline, prev, unit, |scanline|)
  }

  lemma {:induction false} ReconstructedPrefix(filter: nat, line: seq<Byte>, prev: seq<Byte>, unit: nat, n: nat)
    requires unit > 0 && n <= |line|
    ensures Reconstructed(filter, Filtered(filter, line, prev, unit), prev, unit, n) == line[..n]
  {
    if n > 0 {
      var i, r := n - 1, Filtered(filter, line, prev, unit);
      ReconstructedPrefix(filter, line, prev, unit, i);
      var prediction := Predict(filter, Left(line, i, unit), Above(prev, i), UpperLeft(prev, i, unit));
      assert Left(line[..i], i, unit) == Left(line, i, unit);
      assert r[i] == Minus(line[i], prediction);
      PlusUndoesMinus(line[i], prediction);
      hide Filtered, Predict, Left, Above, UpperLeft, Plus, Minus;
      assert line[..n] == line[..i] + [line[i]];
    }
  }

  lemma PlusUndoesMinus(x: Byte, prediction: Byte)
    ensures Plus(Minus(x, prediction), prediction) == x
  {
  }

  /** Undoing a filter restores the line. */
  lemma UnfilterInvertsFilter(filter: nat, line: seq<Byte>, prev: seq<Byte>, unit: nat)
    requires unit > 0
    ensures Unfiltered(filter, Filtered(filter, line, prev, unit), prev, unit) == line
  {
    ReconstructedPrefix(filter, line, prev, unit, |line|);
  }

  lemma {:induction false} ReconstructedAt(filter: nat, scanline: seq<Byte>, prev: seq<Byte>, unit: nat, n: nat, i: nat)
    requires unit > 0 && i < n <= |scanline|
    ensures var r := Reconstructed(filter, scanline, prev, unit, n);
            r[i] == Plus(scanline[i], Predict(filter, Left(r, i, unit), Above(prev, i), UpperLeft(prev, i, unit)))
    decreases n
  {
    if i < n - 1 { ReconstructedAt(filter, scanline, prev, unit, n - 1, i); }
  }

  /** Every scanline is the filtered form of exactly one line, so filtering loses nothing either way. */
  lemma FilterInvertsUnfilter(filter: nat, scanline: seq<Byte>, prev: seq<Byte>, unit: nat)
    requires unit > 0
    ensures Filtered(filter, Unfiltered(filter, scanline, prev, unit), prev, unit) == scanline
  {
    hide Predict;
    var line := Unfiltered(filter, scanline, prev, unit);
    forall i | 0 <= i < |scanline|
      ensures Filtered(filter, line, prev, unit)[i] == scanline[i]
    {
      ReconstructedAt(filter, scanline, prev, unit, |scanline|, i);
    }
  }

  // ----- The filters in plain arithmetic

  /** The mean rounds down. */
  lemma MeanRoundsDown(x: Byte, y: Byte)
    ensures 2 * Mean(x, y) <= x + y < 2 * Mean(x, y) + 2
  {
  }

  /** The distance of two numbers. */
  predicate AtMost(x: int, y: int) {
    (if x < 0 then -x else x) <= (if y < 0 then -y else y)
  }

  /** `f` is x minus the prediction p, modulo 256. */
  predicate Differs(f: int, x: int, p: int) {
    (f - (x - p)) % 256 == 0
  }

  /** Section 9.2 of W3C REC-PNG-20031110: the filtered byte `f` of a byte `x`, by filter type, from the
      neighbours a (left), b (above) and c (upper left). Type 4 (section 9.4) takes the one nearest to
      a + b - c, ties resolved in this order. */
  predicate IsFilteredByte(filter: nat, f: int, x: int, a: int, b: int, c: int) {
    match filter
    case 0 => Differs(f, x, 0)
    case 1 => Differs(f, x, a)
    case 2 => Differs(f, x, b)
    case 3 => Differs(f, x, (a + b) / 2)
    case _ =>
      if AtMost(b - c, a - c) && AtMost(b - c, a + b - c - c) then Differs(f, x, a)
      else if AtMost(a - c, a + b - c - c) then Differs(f, x, b)
      else Differs(f, x, c)
  }

  /** The same at one place of a line: neighbours `unit` bytes to the left and in the line above, 0
      outside the image. */
  predicate IsFilteredAt(filter: nat, filtered: seq<Byte>, line: seq<Byte>, prev: seq<Byte>, unit: nat, i: nat)
    requires i < |line| == |filtered|
  {
    var a: int := if i < unit then 0 else line[i - unit];
    var b: int := if i < |prev| then prev[i] else 0;
    var c: int := if i < unit || i - unit >= |prev| then 0 else prev[i - unit];
    IsFilteredByte(filter, filtered[i], line[i], a, b, c)
  }

  predicate IsFilteredLine(filter: nat, filtered: seq<Byte>, line: seq<Byte>, prev: seq<Byte>, unit: nat) {
    && |filtered| == |line|
    && forall i :: 0 <= i < |line| ==> IsFilteredAt(filter, filtered, line, prev, unit, i)
  }

  lemma FilteredAtExactly(filter: nat, filtered: seq<Byte>, line: seq<Byte>, prev: seq<Byte>, unit: nat, i: nat)
    requires unit > 0 && filter < 5 && i < |line| == |filtered|
    ensures IsFilteredAt(filter, filtered, line, prev, unit, i) <==>
      filtered[i] == Filtered(filter, line, prev, unit)[i]
  {
    hide Predict, Minus, IsFilteredByte;
    FilteredByteExactly(filter, filtered[i], line[i], Left(line, i, unit), Above(prev, i), UpperLeft(prev, i, unit));
  }

  /** The filters and their inverses compute exactly this relation, for each of the five types. */
  lemma FilteredExactly(filter: nat, filtered: seq<Byte>, line: seq<Byte>, prev: seq<Byte>, unit: nat)
    requires unit > 0 && filter < 5
    ensures IsFilteredLine(filter, filtered, line, prev, unit) <==> filtered == Filtered(filter, line, prev, unit)
    ensures IsFilteredLine(filter, filtered, line, prev, unit) <==> line == Unfiltered(filter, filtered, prev, unit)
  {
    UnfilterInvertsFilter(filter, line, prev, unit);
    FilterInvertsUnfilter(filter, filtered, prev, unit);
    hide Unfiltered, Filtered, IsFilteredAt;
    if |filtered| == |line| {
      forall i | 0 <= i < |line|
        ensures IsFilteredAt(filter, filtered, line, prev, unit, i) <==>
          filtered[i] == Filtered(filter, line, prev, unit)[i]
      {
        FilteredAtExactly(filter, filtered, line, prev, unit, i);
      }
      assert (forall i :: 0 <= i < |line| ==> filtered[i] == Filtered(filter, line, prev, unit)[i])
        ==> filtered == Filtered(filter, line, prev, unit);
    }
  }

  lemma FilteredByteExactly(filter: nat, f: Byte, x: Byte, a: Byte, b: Byte, c: Byte)
    requires filter < 5
    ensures IsFilteredByte(filter, f, x, a, b, c) <==> f == Minus(x, Predict(filter, a, b, c))
  {
    DiffersExactly(f, x, Predict(filter, a, b, c));
    if filter == 3 { MeanRoundsDown(a, b); }
    hide Differs, Minus;
  }

  lemma DiffersExactly(f: Byte, x: Byte, p: Byte)
    ensures Differs(f, x, p) <==> f == Minus(x, p)
  {
  }

  // ----- The writer's side

  /** filter_scanline as a function. On a first line "up" returns the bare line, without the byte for
      the filter type. */
  function FilterScanline(filter: nat, line: seq<Byte>, unit: nat, prev: seq<Byte>): seq<Byte>
    requires filter < 5 && unit > 0
  {
    if prev == [] && filter == 2 then line else [filter] + Filtered(filter, line, prev, unit)
  }

  /** With no line above, "paeth" may be computed as "sub". */
  lemma PaethIsSubOnFirstLine(line: seq<Byte>, unit: nat)
    requires unit > 0
    ensures Filtered(4, line, [], unit) == Filtered(1, line, [], unit)
  {
    hide Paeth;
    forall i | 0 <= i < |line|
      ensures Filtered(4, line, [], unit)[i] == Filtered(1, line, [], unit)[i]
    {
      PaethOnFirstLine(Left(line, i, unit));
    }
  }

  /** An all-zero line above predicts like no line above. */
  lemma ZeroLineAbove(filter: nat, line: seq<Byte>, unit: nat, zeros: seq<Byte>)
    requires unit > 0 && forall i :: 0 <= i < |zeros| ==> zeros[i] == 0
    ensures Filtered(filter, line, zeros, unit) == Filtered(filter, line, [], unit)
  {
    hide Predict;
  }

  lemma FilteredNext(filter: nat, line: seq<Byte>, prev: seq<Byte>, unit: nat, i: nat)
    requires unit > 0 && i < |line|
    ensures var r := Filtered(filter, line, prev, unit);
            r[..i + 1]
            == r[..i] + [Minus(line[i], Predict(filter, Left(line, i, unit), Above(prev, i), UpperLeft(prev, i, unit)))]
  {
    hide Predict, Minus;
  }

  lemma MeanOfOne(y: Byte)
    ensures Mean(0, y) == y / 2
  {
  }

  method Sub(line: seq<Byte>, fo: nat, ghost prev: seq<Byte>) returns (out: seq<Byte>)
    requires fo > 0
    ensures out == Filtered(1, line, prev, fo)
  {
    out := [];
    var ai := 0 - fo;
    for i := 0 to |line|
      invariant ai == i - fo && out == Filtered(1, line, prev, fo)[..i]
    {
      var x := line[i];
      if ai >= 0 { x := Minus(x, line[ai]); }
      out := out + [x];
      ai := ai + 1;
    }
  }

  method Up(line: seq<Byte>, prev: seq<Byte>, ghost fo: nat) returns (out: seq<Byte>)
    requires fo > 0 && |prev| >= |line|
    ensures out == Filtered(2, line, prev, fo)
  {
    out := [];
    for i := 0 to |line|
      invariant out == Filtered(2, line, prev, fo)[..i]
    {
      out := out + [Minus(line[i], prev[i])];
    }
  }

  method Average(line: seq<Byte>, fo: nat, prev: seq<Byte>) returns (out: seq<Byte>)
    requires fo > 0 && |prev| >= |line|
    ensures out == Filtered(3, line, prev, fo)
  {
    hide Filtered, Minus, Mean;
    out := [];
    var ai := 0 - fo;
    for i := 0 to |line|
      invariant ai == i - fo && out == Filtered(3, line, prev, fo)[..i]
    {
      FilteredNext(3, line, prev, fo, i);
      MeanOfOne(prev[i]);
      var x := line[i];
      if ai >= 0 { x := Minus(x, Mean(line[ai], prev[i])); }
      else { x := Minus(x, prev[i] / 2); }
      out := out + [x];
      ai := ai + 1;
    }
  }

  method PaethFilter(line: seq<Byte>, fo: nat, prev: seq<Byte>) returns (out: seq<Byte>)
    requires fo > 0 && |prev| >= |line|
    ensures out == Filtered(4, line, prev, fo)
  {
    hide Filtered, Minus, Paeth;
    out := [];
    var ai := 0 - fo;
    for i := 0 to |line|
      invariant ai == i - fo && out == Filtered(4, line, prev, fo)[..i]
    {
      FilteredNext(4, line, prev, fo, i);
      var a, b, c := 0, prev[i], 0;
      if ai >= 0 { a, c := line[ai], prev[ai]; }
      var pr := PaethChoice(a, b, c);
      out := out + [Minus(line[i], pr)];
      ai := ai + 1;
    }
  }

  /** The comparison both paeth loops spell out. */
  method PaethChoice(a: Byte, b: Byte, c: Byte) returns (pr: Byte)
    ensures pr == Paeth(a, b, c)
  {
    var p := a + b - c;
    var pa, pb, pc := Abs(p - a), Abs(p - b), Abs(p - c);
    if pa <= pb && pa <= pc { pr := a; } else if pb <= pc { pr := b; } else { pr := c; }
  }

  method FilterLine(filter: nat, line: seq<Byte>, fo: nat, prev: seq<Byte>) returns (out: seq<Byte>)
    requires filter < 5 && fo > 0 && Covers(filter, prev, |line|)
    ensures out == FilterScanline(filter, line, fo, prev)
  {
    hide Predict;
    out := [filter];
    var kind, above := filter, prev;
    if prev == [] {
      if filter == 2 { return line; }
      if filter == 3 {
        above := seq(|line|, i => 0);
        ZeroLineAbove(3, line, fo, above);
      } else if filter == 4 {
        PaethIsSubOnFirstLine(line, fo);
        kind := 1;
      }
    }
    var body;
    if kind == 0 {
      body := line;
      NoneIsIdentity(line, prev, fo);
    } else if kind == 1 {
      body := Sub(line, fo, prev);
    } else if kind == 2 {
      body := Up(line, above, fo);
    } else if kind == 3 {
      body := Average(line, fo, above);
    } else {
      body := PaethFilter(line, fo, above);
    }
    out := out + body;
  }

  lemma NoneIsIdentity(line: seq<Byte>, prev: seq<Byte>, unit: nat)
    requires unit > 0
    ensures Filtered(0, line, prev, unit) == line
  {
  }

  // ----- The reader's side

  /** How far an undo loop has come: below `i` the line, from `i` on still the scanline. */
  ghost predicate DoneTo(result: seq<Byte>, line: seq<Byte>, scanline: seq<Byte>, i: nat) {
    && |result| == |line| == |scanline| && i <= |line|
    && (forall k :: 0 <= k < i ==> result[k] == line[k])
    && (forall k :: i <= k < |line| ==> result[k] == scanline[k])
  }

  /** The reconstruction rule at `i`, read off the finished line. */
  lemma RuleAt(filter: nat, scanline: seq<Byte>, prev: seq<Byte>, unit: nat, i: nat)
    requires unit > 0 && i < |scanline|
    ensures var line := Unfiltered(filter, scanline, prev, unit);
            line[i] == Plus(scanline[i], Predict(filter, Left(line, i, unit), Above(prev, i), UpperLeft(prev, i, unit)))
  {
    ReconstructedAt(filter, scanline, prev, unit, |scanline|, i);
  }

  method UndoSub(result: array<Byte>, scanline: seq<Byte>, fu: nat, ghost prev: seq<Byte>)
    requires fu > 0 && result[..] == scanline
    modifies result
    ensures result[..] == Unfiltered(1, scanline, prev, fu)
  {
    hide Unfiltered;
    ghost var line := Unfiltered(1, scanline, prev, fu);
    forall k | 0 <= k < fu && k < |scanline|
      ensures line[k] == scanline[k]
    {
      RuleAt(1, scanline, prev, fu, k);
    }
    var ai, i := 0, fu;
    while i < result.Length
      invariant ai == i - fu
      invariant DoneTo(result[..], line, scanline, if i < |line| then i else |line|)
    {
      RuleAt(1, scanline, prev, fu, i);
      result[i] := Plus(scanline[i], result[ai]);
      ai, i := ai + 1, i + 1;
    }
  }

  method UndoUp(result: array<Byte>, scanline: seq<Byte>, previous: seq<Byte>, ghost fu: nat)
    requires fu > 0 && result[..] == scanline && |previous| >= |scanline|
    modifies result
    ensures result[..] == Unfiltered(2, scanline, previous, fu)
  {
    hide Unfiltered;
    for i := 0 to result.Length
      invariant DoneTo(result[..], Unfiltered(2, scanline, previous, fu), scanline, i)
    {
      RuleAt(2, scanline, previous, fu, i);
      result[i] := Plus(scanline[i], previous[i]);
    }
  }

  method UndoAverage(result: array<Byte>, scanline: seq<Byte>, previous: seq<Byte>, fu: nat)
    requires fu > 0 && result[..] == scanline && |previous| >= |scanline|
    modifies result
    ensures result[..] == Unfiltered(3, scanline, previous, fu)
  {
    hide Unfiltered;
    var ai := 0 - fu;
    for i := 0 to result.Length
      invariant ai == i - fu
      invariant DoneTo(result[..], Unfiltered(3, scanline, previous, fu), scanline, i)
    {
      RuleAt(3, scanline, previous, fu, i);
      var a := if ai < 0 then 0 else result[ai];
      result[i] := Plus(scanline[i], Mean(a, previous[i]));
      ai := ai + 1;
    }
  }

  method UndoPaeth(result: array<Byte>, scanline: seq<Byte>, previous: seq<Byte>, fu: nat)
    requires fu > 0 && result[..] == scanline && |previous| >= |scanline|
    modifies result
    ensures result[..] == Unfiltered(4, scanline, previous, fu)
  {
    hide Unfiltered, Paeth;
    var ai := 0 - fu;
    for i := 0 to result.Length
      invariant ai == i - fu
      invariant DoneTo(result[..], Unfiltered(4, scanline, previous, fu), scanline, i)
    {
      RuleAt(4, scanline, previous, fu, i);
      var a, c := 0, 0;
      if ai >= 0 { a, c := result[ai], previous[ai]; }
      var pr := PaethChoice(a, previous[i], c);
      result[i] := Plus(scanline[i], pr);
      ai := ai + 1;
    }
  }

  lemma {:induction false} ZeroLineAboveUndone(filter: nat, scanline: seq<Byte>, unit: nat, zeros: seq<Byte>, n: nat)
    requires unit > 0 && n <= |scanline| && forall i :: 0 <= i < |zeros| ==> zeros[i] == 0
    ensures Reconstructed(filter, scanline, zeros, unit, n) == Reconstructed(filter, scanline, [], unit, n)
  {
    hide Predict;
    if n > 0 { ZeroLineAboveUndone(filter, scanline, unit, zeros, n - 1); }
  }

  /** undo_filter. The result starts as a copy of the scanline and is overwritten from left to right;
      an unknown filter type is a format error. */
  method UndoFilter(filter: nat, scanline: seq<Byte>, previous: seq<Byte>, fu: nat)
    returns (ok: bool, result: array<Byte>)
    requires fu > 0 && Covers(filter, previous, |scanline|)
    ensures ok <==> filter < 5
    ensures fresh(result)
    ensures ok ==> result[..] == Unfiltered(filter, scanline, previous, fu)
  {
    hide Predict;
    result := new Byte[|scanline|](i requires 0 <= i < |scanline| => scanline[i]);
    assert result[..] == scanline;
    if filter == 0 {
      NoneIsIdentity(scanline, previous, fu);
      UnfilterInvertsFilter(0, scanline, previous, fu);
      return true, result;
    }
    if filter !in {1, 2, 3, 4} { return false, result; }
    var above := previous;
    if previous == [] {
      above := seq(|scanline|, i => 0);
      ZeroLineAboveUndone(filter, scanline, fu, above, |scanline|);
    }
    ok := true;
    match filter {
      case 1 => UndoSub(result, scanline, fu, previous);
      case 2 => UndoUp(result, scanline, above, fu);
      case 3 => UndoAverage(result, scanline, above, fu);
      case _ => UndoPaeth(result, scanline, above, fu);
    }
  }
}
