/** What the decoder makes of any bytes at all, well formed or not, described without a state machine:
    an escape char, the longest run of base64 chars behind it, and perhaps a hyphen. */
module Utf7AnyBytes {
  import opened Utf7Alphabet
  import opened Utf7Standard
  import opened Utf7RoundTrip
  import D = Utf7DecoderSpec

  predicate Sextets(vs: seq<nat>) {
    forall i :: 0 <= i < |vs| ==> vs[i] < 64
  }

  /** The three units of eight six-bit values side by side. */
  function First(a: nat, b: nat, c: nat): (u: Unit)
    requires a < 64 && b < 64 && c < 64
  {
    a * 1024 + b * 16 + c / 4
  }

  function Second(c: nat, d: nat, e: nat, f: nat): (u: Unit)
    requires c < 64 && d < 64 && e < 64 && f < 64
  {
    c % 4 * 16384 + d * 256 + e * 4 + f / 16
  }

  function Third(f: nat, g: nat, h: nat): (u: Unit)
    requires f < 64 && g < 64 && h < 64
  {
    f % 16 * 4096 + g * 64 + h
  }

  /** Six-bit values cut into units of sixteen bits; what does not fill a unit is dropped. */
  function SextetUnits(vs: seq<nat>): seq<Unit>
    requires Sextets(vs)
  {
    if |vs| < 3 then []
    else if |vs| < 6 then [First(vs[0], vs[1], vs[2])]
    else if |vs| < 8 then [First(vs[0], vs[1], vs[2]), Second(vs[2], vs[3], vs[4], vs[5])]
    else
      [First(vs[0], vs[1], vs[2]), Second(vs[2], vs[3], vs[4], vs[5]), Third(vs[5], vs[6], vs[7])]
      + SextetUnits(vs[8..])
  }

  /** The place of a char in the alphabet. */
  predicate InAlphabet(v: Variant, b: Byte) {
    exists value: nat :: value < 64 && Char64(v, value) == b
  }

  ghost function ValueOf(v: Variant, b: Byte): (value: nat)
    requires InAlphabet(v, b)
    ensures value < 64 && Char64(v, value) == b
  {
    var value: nat :| value < 64 && Char64(v, value) == b;
    value
  }

  /** Length of the longest prefix of base64 chars. */
  function RunLength(v: Variant, bs: seq<Byte>): (n: nat)
    ensures n <= |bs|
    ensures forall i :: 0 <= i < n ==> InAlphabet(v, bs[i])
    ensures n < |bs| ==> !InAlphabet(v, bs[n])
  {
    if bs == [] || !InAlphabet(v, bs[0]) then 0 else 1 + RunLength(v, bs[1..])
  }

  ghost function Values(v: Variant, bs: seq<Byte>): (vs: seq<nat>)
    requires forall i :: 0 <= i < |bs| ==> InAlphabet(v, bs[i])
    ensures |vs| == |bs| && Sextets(vs)
  {
    seq(|bs|, i requires 0 <= i < |bs| => ValueOf(v, bs[i]))
  }

  /** The bytes read from direct mode. */
  ghost function Reading(v: Variant, bs: seq<Byte>): seq<Unit>
    decreases |bs|
  {
    if bs == [] then []
    else if bs[0] != Escape(v) then [if bs[0] >= 0 then bs[0] else bs[0] + 0x10000] + Reading(v, bs[1..])
    else
      var rest := bs[1..];
      var n := RunLength(v, rest);
      if n < |rest| && rest[n] == Hyphen() then
        (if n == 0 then [Escape(v)] else SextetUnits(Values(v, rest[..n]))) + Reading(v, rest[n + 1..])
      else
        SextetUnits(Values(v, rest[..n])) + Reading(v, rest[n..])
  }

  // ----- One run

  /** Inside a run, behind fewer than eight values: the bits that fill no unit yet are in place. */
  function After(vs: seq<nat>): D.State
    requires |vs| < 8
  {
    var bits :=
      match |vs|
      case 0 => 0
      case 1 => vs[0] * 1024
      case 2 => vs[0] * 1024 + vs[1] * 16
      case 3 => vs[2] % 4 * 16384
      case 4 => vs[2] % 4 * 16384 + vs[3] * 256
      case 5 => vs[2] % 4 * 16384 + vs[3] * 256 + vs[4] * 4
      case 6 => vs[5] % 16 * 4096
      case _ => vs[5] % 16 * 4096 + vs[6] * 64;
    D.State(true, bits, |vs|, false)
  }

  /** What the next value completes. */
  function Completed(vs: seq<nat>, x: nat): seq<Unit>
    requires |vs| < 8 && Sextets(vs) && x < 64
  {
    if |vs| == 2 then [First(vs[0], vs[1], x)]
    else if |vs| == 5 then [Second(vs[2], vs[3], vs[4], x)]
    else if |vs| == 7 then [Third(vs[5], vs[6], x)]
    else []
  }

  lemma UnitsOfFew(vs: seq<nat>)
    requires |vs| <= 8 && Sextets(vs)
    ensures SextetUnits(vs)
         == (if |vs| < 3 then [] else [First(vs[0], vs[1], vs[2])])
            + (if |vs| < 6 then [] else [Second(vs[2], vs[3], vs[4], vs[5])])
            + (if |vs| < 8 then [] else [Third(vs[5], vs[6], vs[7])])
  {
    hide First, Second, Third;
    if |vs| == 8 { assert vs[8..] == []; }
  }

  lemma UnitsNext(vs: seq<nat>, x: nat)
    requires |vs| < 8 && Sextets(vs) && x < 64
    ensures Sextets(vs + [x]) && SextetUnits(vs + [x]) == SextetUnits(vs) + Completed(vs, x)
  {
    hide First, Second, Third, SextetUnits;
    UnitsOfFew(vs);
    UnitsOfFew(vs + [x]);
  }

  /** The three sums of a completed unit lose nothing in the cast. */
  lemma CompletedSums(a: nat, b: nat, c: nat, d: nat)
    requires a < 64 && b < 64 && c < 64 && d < 64
    ensures D.ToUnit(a * 1024 + b * 16 + c / 4) == First(a, b, c)
    ensures D.ToUnit(a % 4 * 16384 + b * 256 + c * 4 + d / 16) == Second(a, b, c, d)
    ensures D.ToUnit(a % 16 * 4096 + b * 64 + c) == Third(a, b, c)
  {
    hide D.ToUnit;
    CastKeeps(a * 1024 + b * 16 + c / 4, First(a, b, c));
    CastKeeps(a % 4 * 16384 + b * 256 + c * 4 + d / 16, Second(a, b, c, d));
    CastKeeps(a % 16 * 4096 + b * 64 + c, Third(a, b, c));
  }

  lemma CastKeeps(x: nat, u: Unit)
    requires x == u
    ensures D.ToUnit(x) == u
  {
  }

  lemma AcceptNext(vs: seq<nat>, x: nat)
    requires |vs| < 8 && Sextets(vs) && x < 64
    ensures D.Accept(After(vs), x) == D.Run(After(if |vs| == 7 then [] else vs + [x]), Completed(vs, x))
  {
    hide First, Second, Third, D.ToUnit;
    if |vs| == 2 { CompletedSums(vs[0], vs[1], x, 0); }
    else if |vs| == 5 { CompletedSums(vs[2], vs[3], vs[4], x); }
    else if |vs| == 7 { CompletedSums(vs[5], vs[6], x, 0); }
  }

  /** A base64 char in a run hands on its value. */
  lemma StepOfChar(v: Variant, s: D.State, b: Byte)
    requires s.base64 && InAlphabet(v, b)
    ensures D.Step(v, s, b) == D.Accept(s.(freshRun := false), ValueOf(v, b))
  {
    hide D.Step, Char64;
    StepOfSextet(v, s, ValueOf(v, b));
  }

  lemma ValuesSnoc(v: Variant, bs: seq<Byte>, b: Byte)
    requires InAlphabet(v, b) && forall i :: 0 <= i < |bs| ==> InAlphabet(v, bs[i])
    ensures Values(v, bs + [b]) == Values(v, bs) + [ValueOf(v, b)]
  {
    hide InAlphabet;
  }

  /** At most eight chars from the start of the cycle. */
  lemma {:induction false} FewRead(v: Variant, s: D.State, bs: seq<Byte>)
    requires s.(freshRun := false) == After([]) && |bs| <= 8
    requires forall i :: 0 <= i < |bs| ==> InAlphabet(v, bs[i])
    ensures var r := D.Decode(v, s, bs);
            && r.units == SextetUnits(Values(v, bs)) && (bs != [] ==> !r.state.freshRun)
            && r.state.(freshRun := false) == After(if |bs| == 8 then [] else Values(v, bs))
    decreases |bs|
  {
    hide D.Step, D.Accept, InAlphabet, SextetUnits, After, Completed, Values;
    if bs == [] {
      NothingRead(v, s);
    } else {
      var init, last := bs[..|bs| - 1], bs[|bs| - 1];
      assert bs == init + [last];
      FewRead(v, s, init);
      var r := D.Decode(v, s, init);
      D.DecodeConcat(v, s, init, [last]);
      NotFresh(Values(v, init));
      NotFresh([]);
      DecodeOne(v, r.state, last);
      StepOfChar(v, r.state, last);
      ValuesSnoc(v, init, last);
      UnitsNext(Values(v, init), ValueOf(v, last));
      AcceptNext(Values(v, init), ValueOf(v, last));
      NotFresh(Values(v, bs));
    }
  }

  lemma NothingRead(v: Variant, s: D.State)
    ensures D.Decode(v, s, []) == D.Run(s, []) && Values(v, []) == [] && SextetUnits([]) == []
  {
  }

  lemma NotFresh(vs: seq<nat>)
    ensures |vs| < 8 ==> After(vs).base64 && !After(vs).freshRun
  {
  }

  lemma ValuesParts(v: Variant, bs: seq<Byte>, k: nat)
    requires k <= |bs| && forall i :: 0 <= i < |bs| ==> InAlphabet(v, bs[i])
    ensures Values(v, bs[..k]) == Values(v, bs)[..k] && Values(v, bs[k..]) == Values(v, bs)[k..]
  {
    hide InAlphabet;
  }

  lemma UnitsOfEight(vs: seq<nat>)
    requires |vs| >= 8 && Sextets(vs)
    ensures SextetUnits(vs) == SextetUnits(vs[..8]) + SextetUnits(vs[8..])
  {
    hide First, Second, Third;
    assert vs[..8][8..] == [];
  }

  /** A whole run. */
  lemma {:induction false} RunReads(v: Variant, s: D.State, bs: seq<Byte>)
    requires s.(freshRun := false) == After([]) && forall i :: 0 <= i < |bs| ==> InAlphabet(v, bs[i])
    ensures var r := D.Decode(v, s, bs);
            r.units == SextetUnits(Values(v, bs)) && r.state.base64
            && (if bs == [] then r.state == s else !r.state.freshRun)
    decreases |bs|
  {
    hide D.Decode, InAlphabet, SextetUnits, After, Values;
    NotFresh([]);
    NothingRead(v, s);
    if |bs| <= 8 {
      FewRead(v, s, bs);
      NotFresh(Values(v, bs));
    } else {
      FewRead(v, s, bs[..8]);
      var r := D.Decode(v, s, bs[..8]);
      RunReads(v, r.state, bs[8..]);
      ValuesParts(v, bs, 8);
      UnitsOfEight(Values(v, bs));
      D.DecodeConcat(v, s, bs[..8], bs[8..]);
      assert bs == bs[..8] + bs[8..];
    }
  }

  // ----- All bytes

  /** Behind a run: a hyphen ends it, anything else is read as in direct mode. */
  lemma LeavesRun(v: Variant, s: D.State, tail: seq<Byte>)
    requires s.base64 && (tail == [] || !InAlphabet(v, tail[0]))
    ensures var direct := D.State(false, 0, 0, false);
            D.Decode(v, s, tail).units ==
            if tail == [] then []
            else if tail[0] != DASH then D.Decode(v, direct, tail).units
            else (if s.freshRun then [v.EscChar()] else []) + D.Decode(v, direct, tail[1..]).units
  {
    hide Variant.CharToValue, Char64, D.Decode;
    var direct := D.State(false, 0, 0, false);
    if tail == [] {
      NothingRead(v, s);
    } else {
      OutsideAlphabet(v, tail[0]);
      D.DecodeFirst(v, s, tail);
      D.DecodeFirst(v, direct, tail);
      if tail[0] != v.EscChar() { DirectStatesAgree(v, D.Step(v, s, tail[0]).state, direct, tail[1..]); }
    }
  }

  lemma ReadingStep(v: Variant, bs: seq<Byte>)
    requires bs != []
    ensures Reading(v, bs) ==
            if bs[0] != v.EscChar() then [D.Widen(bs[0])] + Reading(v, bs[1..])
            else
              var rest := bs[1..];
              var n := RunLength(v, rest);
              var units := SextetUnits(Values(v, rest[..n]));
              if n < |rest| && rest[n] == DASH then
                (if n == 0 then [v.EscChar()] else units) + Reading(v, rest[n + 1..])
              else units + Reading(v, rest[n..])
  {
    hide InAlphabet, SextetUnits, Values, RunLength;
  }

  lemma BeginsRun(v: Variant, d: D.State, b: Byte)
    requires !d.base64
    ensures D.Step(v, d, b) == if b == v.EscChar() then D.Run(D.State(true, 0, 0, true), []) else D.Run(d, [D.Widen(b)])
    ensures D.State(true, 0, 0, true).(freshRun := false) == After([])
  {
  }

  /** The decoder on every sequence of bytes, from any direct state. */
  lemma {:induction false} AnyBytesRead(v: Variant, d: D.State, bs: seq<Byte>)
    requires !d.base64
    ensures D.Decode(v, d, bs).units == Reading(v, bs)
    decreases |bs|, 0
  {
    hide *;
    if bs == [] {
      NothingRead(v, d);
      NothingToRead(v);
    } else {
      ReadingStep(v, bs);
      BeginsRun(v, d, bs[0]);
      assert bs == [bs[0]] + bs[1..];
      DecodeCons(v, d, bs[0], bs[1..]);
      if bs[0] != v.EscChar() {
        AnyBytesRead(v, d, bs[1..]);
      } else {
        RunThenRest(v, bs[1..]);
      }
    }
  }

  lemma NothingToRead(v: Variant)
    ensures Reading(v, []) == []
  {
  }

  /** A run and what follows it. */
  lemma {:induction false} RunAndTailRead(v: Variant, run: seq<Byte>, tail: seq<Byte>)
    requires forall i :: 0 <= i < |run| ==> InAlphabet(v, run[i])
    requires tail == [] || !InAlphabet(v, tail[0])
    ensures var units := SextetUnits(Values(v, run));
            D.Decode(v, D.State(true, 0, 0, true), run + tail).units ==
            if tail != [] && tail[0] == DASH then
              (if run == [] then [v.EscChar()] else units) + Reading(v, tail[1..])
            else units + Reading(v, tail)
    decreases |tail|, 1
  {
    hide *;
    var start, direct := D.State(true, 0, 0, true), D.State(false, 0, 0, false);
    BeginsRun(v, direct, v.EscChar());
    RunReads(v, start, run);
    D.DecodeConcat(v, start, run, tail);
    LeavesRun(v, D.Decode(v, start, run).state, tail);
    NoValues(v);
    if tail == [] {
      NothingToRead(v);
    } else if tail[0] == DASH {
      AnyBytesRead(v, direct, tail[1..]);
    } else {
      AnyBytesRead(v, direct, tail);
    }
  }

  /** Behind an escape char. */
  lemma {:induction false} RunThenRest(v: Variant, rest: seq<Byte>)
    ensures var n := RunLength(v, rest);
            var units := SextetUnits(Values(v, rest[..n]));
            D.Decode(v, D.State(true, 0, 0, true), rest).units ==
            if n < |rest| && rest[n] == DASH then (if n == 0 then [v.EscChar()] else units) + Reading(v, rest[n + 1..])
            else units + Reading(v, rest[n..])
    decreases |rest|, 2
  {
    hide *;
    var run, tail := RunAndTail(v, rest);
    RunAndTailRead(v, run, tail);
  }

  lemma RunAndTail(v: Variant, rest: seq<Byte>) returns (run: seq<Byte>, tail: seq<Byte>)
    ensures var n := RunLength(v, rest);
            && rest == run + tail && |run| == n && run == rest[..n] && tail == rest[n..]
            && (tail != [] ==> tail[0] == rest[n] && tail[1..] == rest[n + 1..])
    ensures forall i :: 0 <= i < |run| ==> InAlphabet(v, run[i])
    ensures tail == [] || !InAlphabet(v, tail[0])
  {
    hide *;
    var n := RunLength(v, rest);
    run, tail := rest[..n], rest[n..];
  }

  lemma NoValues(v: Variant)
    ensures SextetUnits(Values(v, [])) == []
  {
  }
}
