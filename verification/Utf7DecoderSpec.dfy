/** The decoder as a function: what each byte contributes when output is unbounded, what one call
    does with a bounded buffer, and why stopping and resuming never changes the units. */
module Utf7DecoderSpec {
  import opened Utf7Alphabet

  /** mEncoding, mEncBits, mEncStep and mFreshBase64. */
  datatype State = State(base64: bool, bits: nat, step: nat, freshRun: bool)

  /** Weight of the lowest bit that the sextets read so far have filled in. */
  function LowestBit(step: nat): nat {
    match step
    case 0 => 0x10000
    case 1 => 0x400
    case 2 => 0x10
    case 3 => 0x4000
    case 4 => 0x100
    case 5 => 0x4
    case 6 => 0x1000
    case _ => 0x40
  }

  /** What every call keeps: the pending bits fit a unit, the part not yet read is zero, and a fresh
      run has read nothing. */
  predicate Valid(s: State) {
    && s.bits < 0x10000
    && (s.base64 ==> s.step < 8 && s.bits % LowestBit(s.step) == 0 && (s.freshRun ==> s.step == 0))
  }

  predicate CompletesUnit(step: nat) {
    step == 2 || step == 5 || step == 7
  }

  datatype Run = Run(state: State, units: seq<Unit>)

  /** (char16_t) of a wider unsigned value. */
  function ToUnit(bits: nat): Unit {
    bits % 0x10000
  }

  /** (char16_t) of a char: sign extension. */
  function Widen(b: Byte): Unit {
    if b >= 0 then b else b + 0x10000
  }

  /** The eight-way switch of DecodeBase64. */
  function Accept(s: State, value: nat): Run {
    var next := (s.step + 1) % 8;
    match s.step
    case 0 => Run(s.(bits := value * 0x400, step := next), [])
    case 1 => Run(s.(bits := s.bits + value * 0x10, step := next), [])
    case 2 => Run(s.(bits := value % 4 * 0x4000, step := next), [ToUnit(s.bits + value / 4)])
    case 3 => Run(s.(bits := s.bits + value * 0x100, step := next), [])
    case 4 => Run(s.(bits := s.bits + value * 4, step := next), [])
    case 5 => Run(s.(bits := value % 16 * 0x1000, step := next), [ToUnit(s.bits + value / 16)])
    case 6 => Run(s.(bits := s.bits + value * 0x40, step := next), [])
    case _ => Run(s.(bits := 0, step := next), [ToUnit(s.bits + value)])
  }

  /** A sextet lands on bits that are still zero: the sum does not carry into the bits already read
      and fits a unit. `place` is the weight given to the sextet, `low` the lowest bit read so far. */
  lemma NoCarry(bits: nat, low: nat, place: nat, value: nat)
    requires bits < 0x10000 && value < 64
    requires (low, place) in {(0x10000, 0x400), (0x400, 0x10), (0x4000, 0x100), (0x100, 4), (0x1000, 0x40)}
    requires bits % low == 0
    ensures bits + value * place < 0x10000
    ensures (bits + value * place) % place == 0
    ensures (bits + value * place) / low == bits / low
  {
    var q := bits / low;
    if place == 0x400 { assert q == 0; }
    else if place == 0x10 { assert bits == q * 0x400; assert bits + value * place == (q * 0x40 + value) * 0x10; }
    else if place == 0x100 { assert bits == q * 0x4000; assert bits + value * place == (q * 0x40 + value) * 0x100; }
    else if place == 4 { assert bits == q * 0x100; assert bits + value * place == (q * 0x40 + value) * 4; }
    else { assert bits == q * 0x1000; assert bits + value * place == (q * 0x40 + value) * 0x40; }
  }

  /** The same for the part of a sextet that completes a unit. */
  lemma NoCarryLast(bits: nat, low: nat, part: nat)
    requires bits < 0x10000 && low in {0x10, 4, 0x40} && bits % low == 0 && part < low
    ensures bits + part < 0x10000 && (bits + part) / low == bits / low
  {
    var q := bits / low;
    if low == 0x10 { assert bits == q * 0x10; }
    else if low == 4 { assert bits == q * 4; }
    else { assert bits == q * 0x40; }
  }

  /** What every accepted sextet keeps. */
  lemma AcceptKeepsBits(s: State, value: nat)
    requires Valid(s) && s.base64 && !s.freshRun && value < 64
    ensures Valid(Accept(s, value).state) && Accept(s, value).state.base64
    ensures Accept(s, value).units != [] <==> CompletesUnit(s.step)
  {
    assert s.step < 8;
    hide Valid;
    var t := Accept(s, value).state;
    assert t.bits < 0x10000 && t.bits % LowestBit(t.step) == 0 by {
      AcceptAligned(s, value);
    }
    AcceptFlags(s, value);
    ValidFromParts(t);
  }

  lemma ValidFromParts(s: State)
    requires s.bits < 0x10000 && s.step < 8 && s.bits % LowestBit(s.step) == 0 && !s.freshRun
    ensures Valid(s)
  {
  }

  lemma AcceptFlags(s: State, value: nat)
    ensures var t := Accept(s, value).state;
            t.step == (s.step + 1) % 8 && t.base64 == s.base64 && t.freshRun == s.freshRun
    ensures s.step < 8 ==> (Accept(s, value).units != [] <==> CompletesUnit(s.step))
  {
  }

  lemma AcceptAligned(s: State, value: nat)
    requires Valid(s) && s.base64 && value < 64
    ensures var t := Accept(s, value).state;
            t.bits < 0x10000 && t.bits % LowestBit(t.step) == 0
  {
    assert s.step < 8 && s.bits < 0x10000 && s.bits % LowestBit(s.step) == 0;
    hide *;
    if CompletesUnit(s.step) {
      AlignedAfterUnit(s, value);
    } else {
      SextetPlace(s, value);
      NoCarry(if s.step == 0 then 0 else s.bits, LowestBit(s.step), LowestBit(s.step + 1), value);
    }
  }

  lemma AlignedAfterUnit(s: State, value: nat)
    requires s.step < 8 && CompletesUnit(s.step) && value < 64
    ensures var t := Accept(s, value).state;
            t.bits < 0x10000 && t.bits % LowestBit(t.step) == 0
  {
  }

  /** A sextet that completes no unit is added at the next weight. */
  lemma SextetPlace(s: State, value: nat)
    requires s.step < 8 && !CompletesUnit(s.step)
    ensures var t := Accept(s, value).state;
            var bits: nat := if s.step == 0 then 0 else s.bits;
            && t.step == s.step + 1 && t.bits == bits + value * LowestBit(s.step + 1)
            && (LowestBit(s.step), LowestBit(s.step + 1))
               in {(0x10000, 0x400), (0x400, 0x10), (0x4000, 0x100), (0x100, 4), (0x1000, 0x40)}
  {
  }

  /** The cast to a unit drops nothing, and no sum carries into the bits already read. */
  lemma AcceptIsLossless(s: State, value: nat)
    requires Valid(s) && s.base64 && value < 64
    ensures s.step == 2 ==> Accept(s, value).units == [s.bits + value / 4]
                            && (s.bits + value / 4) / 0x10 == s.bits / 0x10
    ensures s.step == 5 ==> Accept(s, value).units == [s.bits + value / 16]
                            && (s.bits + value / 16) / 4 == s.bits / 4
    ensures s.step == 7 ==> Accept(s, value).units == [s.bits + value]
                            && (s.bits + value) / 0x40 == s.bits / 0x40
    ensures !CompletesUnit(s.step) && s.step != 0 ==>
              Accept(s, value).state.bits / LowestBit(s.step) == s.bits / LowestBit(s.step)
  {
    if CompletesUnit(s.step) {
      UnitOfSextet(s, value);
      if s.step == 2 { NoCarryLast(s.bits, 0x10, value / 4); }
      else if s.step == 5 { NoCarryLast(s.bits, 4, value / 16); }
      else { NoCarryLast(s.bits, 0x40, value); }
    } else if s.step != 0 {
      SextetPlace(s, value);
      NoCarry(s.bits, LowestBit(s.step), LowestBit(s.step + 1), value);
    }
    hide Accept, Valid, ToUnit, LowestBit;
  }

  lemma UnitOfSextet(s: State, value: nat)
    requires s.step < 8 && CompletesUnit(s.step)
    ensures Accept(s, value).units ==
            [ToUnit(s.bits + if s.step == 2 then value / 4 else if s.step == 5 then value / 16 else value)]
  {
    hide ToUnit;
  }

  // ----- Unbounded output

  /** One byte. A byte that ends a base64 run without being '-' is read again in direct mode. */
  function Step(v: Variant, s: State, b: Byte): Run {
    if !s.base64 then
      if b == v.EscChar() then Run(State(true, 0, 0, true), []) else Run(s, [Widen(b)])
    else if s.freshRun && b == DASH then
      Run(s.(base64 := false), [v.EscChar()])
    else
      var value := v.CharToValue(b);
      if value <= 0xff then Accept(s.(freshRun := false), value)
      else
        var direct := s.(base64 := false, freshRun := false);
        if b == DASH then Run(direct, [])
        else if b == v.EscChar() then Run(State(true, 0, 0, true), [])
        else Run(direct, [Widen(b)])
  }

  lemma StepValid(v: Variant, s: State, b: Byte)
    requires Valid(s)
    ensures Valid(Step(v, s, b).state) && |Step(v, s, b).units| <= 1
  {
    if s.base64 && v.CharToValue(b) <= 0xff {
      AcceptKeepsBits(s.(freshRun := false), v.CharToValue(b));
    }
  }

  function Decode(v: Variant, s: State, bs: seq<Byte>): (r: Run)
    decreases |bs|
  {
    if bs == [] then Run(s, [])
    else
      var one := Step(v, s, bs[0]);
      var rest := Decode(v, one.state, bs[1..]);
      Run(rest.state, one.units + rest.units)
  }

  /** Decoding in two parts. */
  lemma {:induction false} DecodeConcat(v: Variant, s: State, a: seq<Byte>, b: seq<Byte>)
    ensures var left := Decode(v, s, a);
            var right := Decode(v, left.state, b);
            Decode(v, s, a + b) == Run(right.state, left.units + right.units)
    decreases |a|
  {
    hide Step;
    if a == [] {
      assert a + b == b;
    } else {
      assert (a + b)[0] == a[0] && (a + b)[1..] == a[1..] + b;
      DecodeConcat(v, Step(v, s, a[0]).state, a[1..], b);
    }
  }

  // ----- Bounded output

  datatype Status = Ok | MoreOutput | IllegalInput

  datatype Outcome = Outcome(status: Status, consumed: nat, units: seq<Unit>, state: State)

  function Prepend(consumed: nat, units: seq<Unit>, o: Outcome): Outcome {
    o.(consumed := consumed + o.consumed, units := units + o.units)
  }

  /** A unit is due but there is no room for it. The unit that stands for an escaped escape char is
      written without asking. */
  predicate Blocked(v: Variant, s: State, b: Byte, cap: int) {
    && cap <= 0
    && if s.base64 && !(s.freshRun && b == DASH) && v.CharToValue(b) <= 0xff then CompletesUnit(s.step)
       else if s.base64 then b != DASH && b != v.EscChar()
       else b != v.EscChar()
  }

  /** The state in which a call stops: leaving base64 mode is not undone. */
  function BlockedState(v: Variant, s: State, b: Byte): State {
    if s.base64 && v.CharToValue(b) > 0xff then s.(base64 := false, freshRun := false)
    else if s.base64 then s.(freshRun := false)
    else s
  }

  /** One call on `bs` with room for `cap` units, byte by byte. `cap` is negative after an overrun. */
  function Convert(v: Variant, s: State, bs: seq<Byte>, cap: int): (o: Outcome)
    ensures o.consumed <= |bs|
    decreases |bs|
  {
    if bs == [] then Outcome(Ok, 0, [], s)
    else if Blocked(v, s, bs[0], cap) then Outcome(MoreOutput, 0, [], BlockedState(v, s, bs[0]))
    else
      var one := Step(v, s, bs[0]);
      Prepend(1, one.units, Convert(v, one.state, bs[1..], cap - |one.units|))
  }

  lemma BlockedResumes(v: Variant, s: State, b: Byte, cap: int)
    requires Valid(s) && Blocked(v, s, b, cap)
    ensures Valid(BlockedState(v, s, b))
    ensures Step(v, BlockedState(v, s, b), b) == Step(v, s, b)
    ensures Step(v, s, b).units != [] && cap <= 0
  {
  }

  /** A call never fails; when it stops early the state and the remaining bytes produce exactly the
      missing units. It never writes more units than it reads bytes. */
  lemma {:induction false} ConvertResumes(v: Variant, s: State, bs: seq<Byte>, cap: int)
    requires Valid(s)
    ensures var o := Convert(v, s, bs, cap);
            && o.status != IllegalInput
            && (o.status == Ok <==> o.consumed == |bs|)
            && Valid(o.state)
            && Decode(v, s, bs).state == Decode(v, o.state, bs[o.consumed..]).state
            && Decode(v, s, bs).units == o.units + Decode(v, o.state, bs[o.consumed..]).units
            && |o.units| <= o.consumed
    decreases |bs|
  {
    hide *;
    if bs == [] {
      NothingLeft(v, s, bs, cap);
    } else {
      ConvertFirst(v, s, bs, cap);
      if Blocked(v, s, bs[0], cap) {
        assert bs[0..] == bs;
        BlockedResumes(v, s, bs[0], cap);
        DecodeFirst(v, s, bs);
        DecodeFirst(v, BlockedState(v, s, bs[0]), bs);
      } else {
        var one := Step(v, s, bs[0]);
        StepValid(v, s, bs[0]);
        ConvertResumes(v, one.state, bs[1..], cap - |one.units|);
        var rest := Convert(v, one.state, bs[1..], cap - |one.units|);
        DecodeFirst(v, s, bs);
        PrependFields(1, one.units, rest);
        assert bs[1 + rest.consumed..] == bs[1..][rest.consumed..];
      }
    }
  }

  lemma NothingLeft(v: Variant, s: State, bs: seq<Byte>, cap: int)
    requires bs == []
    ensures Convert(v, s, bs, cap) == Outcome(Ok, 0, [], s) && Decode(v, s, bs) == Run(s, []) && bs[0..] == bs
  {
  }

  lemma ConvertFirst(v: Variant, s: State, bs: seq<Byte>, cap: int)
    requires bs != []
    ensures Convert(v, s, bs, cap) ==
            if Blocked(v, s, bs[0], cap) then Outcome(MoreOutput, 0, [], BlockedState(v, s, bs[0]))
            else
              var one := Step(v, s, bs[0]);
              Prepend(1, one.units, Convert(v, one.state, bs[1..], cap - |one.units|))
  {
    hide Step, Blocked, BlockedState, Prepend;
  }

  lemma DecodeFirst(v: Variant, s: State, bs: seq<Byte>)
    requires bs != []
    ensures var one := Step(v, s, bs[0]);
            var rest := Decode(v, one.state, bs[1..]);
            Decode(v, s, bs) == Run(rest.state, one.units + rest.units)
  {
    hide Step;
  }

  /** A call with room for one unit makes progress; with as much room as there are bytes it
      consumes everything. */
  lemma {:induction false} ConvertProgresses(v: Variant, s: State, bs: seq<Byte>, cap: int)
    requires Valid(s)
    ensures bs != [] && cap >= 1 ==> Convert(v, s, bs, cap).consumed >= 1
    ensures cap >= |bs| ==> Convert(v, s, bs, cap) == Outcome(Ok, |bs|, Decode(v, s, bs).units, Decode(v, s, bs).state)
    decreases |bs|
  {
    hide Step, BlockedState, Valid;
    if bs != [] && cap >= 1 {
      var one := Step(v, s, bs[0]);
      StepValid(v, s, bs[0]);
      ConvertProgresses(v, one.state, bs[1..], cap - |one.units|);
    }
  }

  /** A call stops early only in front of a byte that completes a unit, with no room left. */
  lemma {:induction false} ConvertFills(v: Variant, s: State, bs: seq<Byte>, cap: int)
    requires Valid(s)
    ensures var o := Convert(v, s, bs, cap);
            o.status != Ok ==>
              o.consumed < |bs| && |o.units| >= cap && Step(v, o.state, bs[o.consumed]).units != []
    decreases |bs|
  {
    hide *;
    if bs == [] {
      NothingLeft(v, s, bs, cap);
    } else {
      ConvertFirst(v, s, bs, cap);
      if Blocked(v, s, bs[0], cap) {
        BlockedResumes(v, s, bs[0], cap);
      } else {
        var one := Step(v, s, bs[0]);
        StepValid(v, s, bs[0]);
        var rest := Convert(v, one.state, bs[1..], cap - |one.units|);
        ConvertFills(v, one.state, bs[1..], cap - |one.units|);
        PrependFields(1, one.units, rest);
      }
    }
  }

  // ----- The loops as the code nests them

  /** DecodeDirect: everything up to the escape char, which is reported as illegal input. */
  function DirectRun(v: Variant, s: State, bs: seq<Byte>, cap: int): (o: Outcome)
    ensures o.consumed <= |bs| && o.state == s
    ensures o.status == IllegalInput ==> o.consumed < |bs| && bs[o.consumed] == v.EscChar()
    ensures |o.units| <= o.consumed && (cap >= 0 ==> |o.units| <= cap)
    decreases |bs|
  {
    if bs == [] then Outcome(Ok, 0, [], s)
    else if bs[0] == v.EscChar() then Outcome(IllegalInput, 0, [], s)
    else if cap <= 0 then Outcome(MoreOutput, 0, [], s)
    else Prepend(1, [Widen(bs[0])], DirectRun(v, s, bs[1..], cap - 1))
  }

  /** DecodeBase64: everything up to the first char outside the alphabet. */
  function Base64Run(v: Variant, s: State, bs: seq<Byte>, cap: int): (o: Outcome)
    requires Valid(s) && s.base64 && !s.freshRun
    ensures o.consumed <= |bs| && Valid(o.state) && o.state.base64 && !o.state.freshRun
    ensures o.status == IllegalInput ==> o.consumed < |bs| && v.CharToValue(bs[o.consumed]) > 0xff
    ensures |o.units| <= o.consumed && (cap >= 0 ==> |o.units| <= cap)
    decreases |bs|
  {
    if bs == [] then Outcome(Ok, 0, [], s)
    else if v.CharToValue(bs[0]) > 0xff then Outcome(IllegalInput, 0, [], s)
    else if CompletesUnit(s.step) && cap <= 0 then Outcome(MoreOutput, 0, [], s)
    else
      AcceptStep(v, s, bs[0]);
      var one := Accept(s, v.CharToValue(bs[0]));
      Prepend(1, one.units, Base64Run(v, one.state, bs[1..], cap - |one.units|))
  }

  lemma AcceptStep(v: Variant, s: State, b: Byte)
    requires Valid(s) && s.base64 && !s.freshRun && v.CharToValue(b) <= 0xff
    ensures var one := Accept(s, v.CharToValue(b));
            && Valid(one.state) && one.state.base64 && !one.state.freshRun
            && |one.units| == (if CompletesUnit(s.step) then 1 else 0)
            && Step(v, s, b) == one
  {
    AcceptKeepsBits(s, v.CharToValue(b));
    AcceptFlags(s, v.CharToValue(b));
    assert s.(freshRun := false) == s;
  }

  /** One turn of ConvertNoBuff's loop: an inner loop, then the mode change it stopped at. */
  function OneTurn(v: Variant, s: State, bs: seq<Byte>, cap: int): (o: Outcome)
    requires Valid(s) && bs != []
    ensures o.consumed <= |bs| && o.status != IllegalInput
  {
    var inner := if !s.base64 then DirectRun(v, s, bs, cap)
                 else if s.freshRun && bs[0] == DASH then Outcome(IllegalInput, 0, [v.EscChar()], s)
                 else Base64Run(v, s.(freshRun := false), bs, cap);
    if inner.status != IllegalInput then inner
    else if !s.base64 then Outcome(Ok, inner.consumed + 1, inner.units, State(true, 0, 0, true))
    else Outcome(Ok, inner.consumed + if bs[inner.consumed] == DASH then 1 else 0, inner.units,
                 inner.state.(base64 := false))
  }

  lemma PrependTwice(m: nat, x: seq<Unit>, n: nat, y: seq<Unit>, o: Outcome)
    ensures Prepend(m, x, Prepend(n, y, o)) == Prepend(m + n, x + y, o)
  {
  }

  lemma PrependNothing(o: Outcome)
    ensures Prepend(0, [], o) == o
  {
  }

  lemma PrependFields(m: nat, x: seq<Unit>, o: Outcome)
    ensures var p := Prepend(m, x, o);
            p.status == o.status && p.state == o.state && p.consumed == m + o.consumed && p.units == x + o.units
  {
  }

  /** How a call continues after a run that did not stop for lack of room. */
  ghost predicate Continues(v: Variant, whole: Outcome, run: Outcome, bs: seq<Byte>, cap: int)
    requires run.consumed <= |bs|
  {
    whole == if run.status == MoreOutput then run
             else Prepend(run.consumed, run.units, Convert(v, run.state, bs[run.consumed..], cap - |run.units|))
  }

  /** One more byte in front of a run. */
  lemma ContinuesFromNext(v: Variant, whole: Outcome, rest: Outcome, bs: seq<Byte>, cap: int, units: seq<Unit>)
    requires bs != [] && rest.consumed <= |bs[1..]|
    requires Continues(v, whole, rest, bs[1..], cap - |units|)
    ensures Continues(v, Prepend(1, units, whole), Prepend(1, units, rest), bs, cap)
  {
    hide Convert;
    assert bs[1..][rest.consumed..] == bs[1 + rest.consumed..];
    if rest.status != MoreOutput {
      PrependTwice(1, units, rest.consumed, rest.units,
                   Convert(v, rest.state, bs[1 + rest.consumed..], cap - |units| - |rest.units|));
    }
  }

  /** A run that reads nothing. */
  lemma ContinuesFromHere(v: Variant, s: State, bs: seq<Byte>, cap: int, status: Status)
    requires status != MoreOutput
    ensures Continues(v, Convert(v, s, bs, cap), Outcome(status, 0, [], s), bs, cap)
  {
    hide Convert;
    assert bs[0..] == bs;
    PrependNothing(Convert(v, s, bs, cap));
  }

  /** A call that begins with a run in direct mode. */
  lemma {:induction false} ConvertAfterDirectRun(v: Variant, s: State, bs: seq<Byte>, cap: int)
    requires !s.base64
    ensures Continues(v, Convert(v, s, bs, cap), DirectRun(v, s, bs, cap), bs, cap)
    decreases |bs|
  {
    hide Continues;
    if bs == [] || bs[0] == v.EscChar() {
      ContinuesFromHere(v, s, bs, cap, DirectRun(v, s, bs, cap).status);
    } else if cap <= 0 {
      StopsForRoom(v, s, bs, cap);
    } else {
      ConvertAfterDirectRun(v, s, bs[1..], cap - 1);
      ContinuesFromNext(v, Convert(v, s, bs[1..], cap - 1), DirectRun(v, s, bs[1..], cap - 1), bs, cap, [Widen(bs[0])]);
    }
  }

  lemma StopsForRoom(v: Variant, s: State, bs: seq<Byte>, cap: int)
    requires bs != [] && Blocked(v, s, bs[0], cap) && BlockedState(v, s, bs[0]) == s
    ensures Continues(v, Convert(v, s, bs, cap), Outcome(MoreOutput, 0, [], s), bs, cap)
  {
  }

  /** A call that begins with a run in base64 mode. */
  lemma {:induction false} ConvertAfterBase64Run(v: Variant, s: State, bs: seq<Byte>, cap: int)
    requires Valid(s) && s.base64 && !s.freshRun
    ensures Continues(v, Convert(v, s, bs, cap), Base64Run(v, s, bs, cap), bs, cap)
    decreases |bs|
  {
    hide Continues, Step, Accept, Valid, Variant.CharToValue;
    if bs == [] || v.CharToValue(bs[0]) > 0xff {
      ContinuesFromHere(v, s, bs, cap, Base64Run(v, s, bs, cap).status);
    } else if CompletesUnit(s.step) && cap <= 0 {
      assert s.(freshRun := false) == s;
      StopsForRoom(v, s, bs, cap);
    } else {
      var one := Accept(s, v.CharToValue(bs[0]));
      AcceptStep(v, s, bs[0]);
      var room := cap - |one.units|;
      ConvertAfterBase64Run(v, one.state, bs[1..], room);
      ContinuesFromNext(v, Convert(v, one.state, bs[1..], room), Base64Run(v, one.state, bs[1..], room), bs, cap,
                        one.units);
    }
  }

  /** Freshness matters only in front of a '-'. */
  lemma FreshOnlyBeforeDash(v: Variant, s: State, bs: seq<Byte>, cap: int)
    requires Valid(s) && s.base64 && bs != [] && !(s.freshRun && bs[0] == DASH)
    ensures Convert(v, s, bs, cap) == Convert(v, s.(freshRun := false), bs, cap)
  {
  }

  /** Leaving base64 mode reads no byte unless it is the '-'. */
  lemma ConvertAfterRunEnd(v: Variant, s: State, bs: seq<Byte>, cap: int)
    requires s.base64 && !s.freshRun && bs != [] && v.CharToValue(bs[0]) > 0xff
    ensures var t := s.(base64 := false);
            var n := if bs[0] == DASH then 1 else 0;
            Convert(v, s, bs, cap) == Prepend(n, [], Convert(v, t, bs[n..], cap))
  {
    assert bs[0..] == bs;
    assert s.(base64 := false, freshRun := false) == s.(base64 := false);
  }

  /** The loop over turns is the loop over bytes, and a turn reads a byte or leaves base64 mode. */
  lemma ConvertOneTurn(v: Variant, s: State, bs: seq<Byte>, cap: int)
    requires Valid(s) && bs != []
    ensures var turn := OneTurn(v, s, bs, cap);
            && Valid(turn.state)
            && (turn.status == Ok ==> turn.consumed > 0 || (s.base64 && !turn.state.base64))
            && Continues(v, Convert(v, s, bs, cap), turn, bs, cap)
  {
    hide *;
    if !s.base64 {
      DirectTurn(v, s, bs, cap);
    } else if s.freshRun && bs[0] == DASH {
      EscapedTurn(v, s, bs, cap);
    } else {
      Base64Turn(v, s, bs, cap);
    }
  }

  lemma EscapedTurn(v: Variant, s: State, bs: seq<Byte>, cap: int)
    requires Valid(s) && bs != [] && s.base64 && s.freshRun && bs[0] == DASH
    ensures var turn := OneTurn(v, s, bs, cap);
            Valid(turn.state) && turn.consumed > 0 && Continues(v, Convert(v, s, bs, cap), turn, bs, cap)
  {
    TurnEscaped(v, s, bs, cap);
    hide DirectRun, Base64Run, Continues, Convert, Prepend;
  }

  lemma DirectRunReads(v: Variant, s: State, bs: seq<Byte>, cap: int)
    requires bs != []
    ensures DirectRun(v, s, bs, cap).status == Ok ==> DirectRun(v, s, bs, cap).consumed > 0
  {
  }

  lemma Base64RunReads(v: Variant, s: State, bs: seq<Byte>, cap: int)
    requires bs != [] && Valid(s) && s.base64 && !s.freshRun
    ensures Base64Run(v, s, bs, cap).status == Ok ==> Base64Run(v, s, bs, cap).consumed > 0
  {
    hide Valid, Accept, Variant.CharToValue;
    if v.CharToValue(bs[0]) <= 0xff { AcceptStep(v, s, bs[0]); }
  }

  lemma DirectTurn(v: Variant, s: State, bs: seq<Byte>, cap: int)
    requires Valid(s) && bs != [] && !s.base64
    ensures var turn := OneTurn(v, s, bs, cap);
            && Valid(turn.state) && (turn.status == Ok ==> turn.consumed > 0)
            && Continues(v, Convert(v, s, bs, cap), turn, bs, cap)
  {
    hide DirectRun, Base64Run, Continues, Convert, Prepend;
    var run := DirectRun(v, s, bs, cap);
    DirectRunReads(v, s, bs, cap);
    ConvertAfterDirectRun(v, s, bs, cap);
    if run.status == IllegalInput {
      TurnIntoBase64(v, s, bs[run.consumed..], cap - |run.units|);
      ContinuesAfterChange(v, Convert(v, s, bs, cap), run, bs, cap, 1, State(true, 0, 0, true));
    }
  }

  lemma Base64Turn(v: Variant, s: State, bs: seq<Byte>, cap: int)
    requires Valid(s) && bs != [] && s.base64 && !(s.freshRun && bs[0] == DASH)
    ensures var turn := OneTurn(v, s, bs, cap);
            && Valid(turn.state) && (turn.status == Ok ==> turn.consumed > 0 || !turn.state.base64)
            && Continues(v, Convert(v, s, bs, cap), turn, bs, cap)
  {
    hide DirectRun, Base64Run, Continues, Convert, Prepend, LowestBit, Variant.CharToValue;
    FreshOnlyBeforeDash(v, s, bs, cap);
    var t := s.(freshRun := false);
    var run := Base64Run(v, t, bs, cap);
    Base64RunReads(v, t, bs, cap);
    ConvertAfterBase64Run(v, t, bs, cap);
    if run.status == IllegalInput {
      ConvertAfterRunEnd(v, run.state, bs[run.consumed..], cap - |run.units|);
      ContinuesAfterChange(v, Convert(v, s, bs, cap), run, bs, cap, if bs[run.consumed] == DASH then 1 else 0,
                           run.state.(base64 := false));
    }
  }

  lemma StopsAtEnd(v: Variant, s: State, cap: int)
    requires Valid(s) && s.base64 && !s.freshRun
    ensures Base64Run(v, s, [], cap) == Outcome(Ok, 0, [], s)
  {
  }

  lemma StopsAtStranger(v: Variant, s: State, bs: seq<Byte>, cap: int)
    requires Valid(s) && s.base64 && !s.freshRun && bs != [] && v.CharToValue(bs[0]) > 0xff
    ensures Base64Run(v, s, bs, cap) == Outcome(IllegalInput, 0, [], s)
  {
  }

  lemma AcceptsOne(v: Variant, s: State, bs: seq<Byte>, cap: int)
    requires Valid(s) && s.base64 && !s.freshRun && bs != [] && v.CharToValue(bs[0]) <= 0xff
    ensures var one := Accept(s, v.CharToValue(bs[0]));
            && Valid(one.state) && one.state.base64 && !one.state.freshRun
            && Base64Run(v, s, bs, cap) ==
               if CompletesUnit(s.step) && cap <= 0 then Outcome(MoreOutput, 0, [], s)
               else Prepend(1, one.units, Base64Run(v, one.state, bs[1..], cap - |one.units|))
  {
    hide Accept, Valid, Variant.CharToValue, CompletesUnit, Prepend;
    AcceptStep(v, s, bs[0]);
  }

  /** One turn of DecodeBase64's loop: where the run stops, or how it goes on. */
  lemma Base64RunTurn(v: Variant, total: Outcome, s: State, bs: seq<Byte>, cap: int, n: nat, units: seq<Unit>)
    requires Valid(s) && s.base64 && !s.freshRun && n < |bs|
    requires total == Prepend(n, units, Base64Run(v, s, bs[n..], cap - |units|))
    ensures var value := v.CharToValue(bs[n]);
            var room := cap - |units|;
            if value > 0xff then total == Outcome(IllegalInput, n, units, s)
            else
              var one := Accept(s, value);
              && value < 64 && Valid(one.state) && one.state.base64 && !one.state.freshRun
              && if CompletesUnit(s.step) && room <= 0 then total == Outcome(MoreOutput, n, units, s)
                 else total == Prepend(n + 1, units + one.units,
                                       Base64Run(v, one.state, bs[n + 1..], room - |one.units|))
  {
    hide Accept, Valid, Variant.CharToValue, CompletesUnit, Base64Run;
    var value, room := v.CharToValue(bs[n]), cap - |units|;
    assert units + [] == units && bs[n..][1..] == bs[n + 1..];
    v.AlphabetExact(bs[n]);
    if value > 0xff {
      StopsAtStranger(v, s, bs[n..], room);
    } else {
      AcceptsOne(v, s, bs[n..], room);
      var one := Accept(s, value);
      PrependTwice(n, units, 1, one.units, Base64Run(v, one.state, bs[n + 1..], room - |one.units|));
    }
  }

  lemma Base64RunEnd(v: Variant, total: Outcome, s: State, bs: seq<Byte>, cap: int, units: seq<Unit>)
    requires Valid(s) && s.base64 && !s.freshRun
    requires total == Prepend(|bs|, units, Base64Run(v, s, bs[|bs|..], cap - |units|))
    ensures total == Outcome(Ok, |bs|, units, s)
  {
    assert bs[|bs|..] == [] && units + [] == units;
    StopsAtEnd(v, s, cap - |units|);
  }

  /** A run followed by a mode change that reads `n` bytes and writes nothing. */
  lemma ContinuesAfterChange(v: Variant, whole: Outcome, run: Outcome, bs: seq<Byte>, cap: int, n: nat, t: State)
    requires run.consumed + n <= |bs| && run.status == IllegalInput
    requires Continues(v, whole, run, bs, cap)
    requires var room := cap - |run.units|;
             Convert(v, run.state, bs[run.consumed..], room)
                 == Prepend(n, [], Convert(v, t, bs[run.consumed..][n..], room))
    ensures Continues(v, whole, Outcome(Ok, run.consumed + n, run.units, t), bs, cap)
  {
    hide Convert;
    assert bs[run.consumed..][n..] == bs[run.consumed + n..];
    PrependTwice(run.consumed, run.units, n, [], Convert(v, t, bs[run.consumed + n..], cap - |run.units|));
    assert run.units + [] == run.units;
  }

  /** One more turn behind what a call has done so far. */
  lemma NextTurn(v: Variant, total: Outcome, consumed: nat, units: seq<Unit>, s: State, bs: seq<Byte>, cap: int,
                 turn: Outcome)
    requires consumed + turn.consumed <= |bs|
    requires total == Prepend(consumed, units, Convert(v, s, bs[consumed..], cap - |units|))
    requires Continues(v, Convert(v, s, bs[consumed..], cap - |units|), turn, bs[consumed..], cap - |units|)
    ensures turn.status == MoreOutput ==>
              total == Outcome(MoreOutput, consumed + turn.consumed, units + turn.units, turn.state)
    ensures turn.status != MoreOutput ==>
              total == Prepend(consumed + turn.consumed, units + turn.units,
                               Convert(v, turn.state, bs[consumed + turn.consumed..], cap - |units + turn.units|))
    ensures |units + turn.units| <= |total.units|
  {
    hide Convert;
    assert bs[consumed..][turn.consumed..] == bs[consumed + turn.consumed..];
    if turn.status != MoreOutput {
      PrependTwice(consumed, units, turn.consumed, turn.units,
                   Convert(v, turn.state, bs[consumed + turn.consumed..], cap - |units| - |turn.units|));
    }
  }

  lemma ConvertOfNothing(v: Variant, s: State, bs: seq<Byte>, cap: int, units: seq<Unit>)
    ensures Prepend(|bs|, units, Convert(v, s, bs[|bs|..], cap)) == Outcome(Ok, |bs|, units, s)
  {
    assert units + [] == units;
  }

  lemma TurnIntoBase64(v: Variant, s: State, bs: seq<Byte>, cap: int)
    requires !s.base64 && bs != [] && bs[0] == v.EscChar()
    ensures Convert(v, s, bs, cap) == Prepend(1, [], Convert(v, State(true, 0, 0, true), bs[1..], cap))
  {
  }

  lemma TurnEscaped(v: Variant, s: State, bs: seq<Byte>, cap: int)
    requires s.base64 && s.freshRun && bs != [] && bs[0] == DASH
    ensures Continues(v, Convert(v, s, bs, cap), Outcome(Ok, 1, [v.EscChar()], s.(base64 := false)), bs, cap)
  {
  }

  // ----- Where a call writes past its buffer

  /** '-' right after the escape char, met when the buffer is exactly full. */
  predicate EscapeAtFullBuffer(v: Variant, s: State, bs: seq<Byte>, cap: int) {
    exists i :: 0 <= i < |bs| && bs[i] == DASH && FreshAndFull(Decode(v, s, bs[..i]), cap)
  }

  predicate FreshAndFull(r: Run, cap: int) {
    r.state.base64 && r.state.freshRun && |r.units| == cap
  }

  lemma {:induction false} EscapeTail(v: Variant, s: State, bs: seq<Byte>, cap: int)
    requires bs != []
    ensures EscapeAtFullBuffer(v, s, bs, cap)
       <==> || (cap == 0 && s.base64 && s.freshRun && bs[0] == DASH)
            || EscapeAtFullBuffer(v, Step(v, s, bs[0]).state, bs[1..], cap - |Step(v, s, bs[0]).units|)
  {
    hide Step;
    var one := Step(v, s, bs[0]);
    forall i | 1 <= i < |bs|
      ensures FreshAndFull(Decode(v, s, bs[..i]), cap)
         <==> FreshAndFull(Decode(v, one.state, bs[1..][..i - 1]), cap - |one.units|)
    {
      assert bs[..i][0] == bs[0] && bs[..i][1..] == bs[1..][..i - 1];
    }
    assert bs[..0] == [];
    if EscapeAtFullBuffer(v, s, bs, cap) {
      var i :| 0 <= i < |bs| && bs[i] == DASH && FreshAndFull(Decode(v, s, bs[..i]), cap);
      if i > 0 { assert bs[1..][i - 1] == DASH; }
    }
    if EscapeAtFullBuffer(v, one.state, bs[1..], cap - |one.units|) {
      var i :| 0 <= i < |bs[1..]| && bs[1..][i] == DASH
          && FreshAndFull(Decode(v, one.state, bs[1..][..i]), cap - |one.units|);
      assert bs[i + 1] == DASH && FreshAndFull(Decode(v, s, bs[..i + 1]), cap);
    }
  }

  /** A call writes more units than it has room for exactly when an escaped escape char ends at a
      full buffer. */
  lemma {:induction false} OverrunExactly(v: Variant, s: State, bs: seq<Byte>, cap: int)
    requires Valid(s) && cap >= 0
    ensures |Convert(v, s, bs, cap).units| > cap <==> EscapeAtFullBuffer(v, s, bs, cap)
    decreases |bs|
  {
    hide Step, Blocked, BlockedState, EscapeAtFullBuffer, Valid;
    if bs == [] {
      NoEscapeInNothing(v, s, cap);
    } else {
      var one := Step(v, s, bs[0]);
      EscapeTail(v, s, bs, cap);
      StepValid(v, s, bs[0]);
      if Blocked(v, s, bs[0], cap) {
        BlockedNoEscape(v, s, bs, cap);
      } else if |one.units| <= cap {
        OverrunExactly(v, one.state, bs[1..], cap - |one.units|);
        NotFreshFull(v, s, bs[0], cap);
      } else {
        UnblockedWrites(v, s, bs[0], cap);
      }
    }
  }

  lemma NoEscapeInNothing(v: Variant, s: State, cap: int)
    ensures !EscapeAtFullBuffer(v, s, [], cap)
  {
  }

  lemma UnblockedWrites(v: Variant, s: State, b: Byte, cap: int)
    requires Valid(s) && !Blocked(v, s, b, cap) && cap >= 0 && |Step(v, s, b).units| > cap
    ensures cap == 0 && s.base64 && s.freshRun && b == DASH
  {
    if s.base64 && v.CharToValue(b) <= 0xff {
      AcceptKeepsBits(s.(freshRun := false), v.CharToValue(b));
    }
  }

  lemma NotFreshFull(v: Variant, s: State, b: Byte, cap: int)
    requires |Step(v, s, b).units| <= cap
    ensures !(cap == 0 && s.base64 && s.freshRun && b == DASH)
  {
  }

  lemma BlockedNoEscape(v: Variant, s: State, bs: seq<Byte>, cap: int)
    requires Valid(s) && bs != [] && cap >= 0 && Blocked(v, s, bs[0], cap)
    ensures !EscapeAtFullBuffer(v, s, bs, cap)
  {
    hide Step;
    BlockedResumes(v, s, bs[0], cap);
    forall i | 0 <= i < |bs| && bs[i] == DASH
      ensures !FreshAndFull(Decode(v, s, bs[..i]), cap)
    {
      if i > 0 {
        assert bs[..i][0] == bs[0];
        assert |Decode(v, s, bs[..i]).units| >= 1;
      }
    }
  }

  /** No room, and still one unit per "-" of "&-&-&-": the overrun has no bound but the input. */
  lemma OverrunExample()
    ensures var s := State(false, 0, 0, false);
            Convert(ModifiedUtf7, s, [38, 45, 38, 45, 38, 45], 0).units == [38, 38, 38]
  {
    var s, e := State(false, 0, 0, true), State(true, 0, 0, true);
    var v := ModifiedUtf7;
    assert Convert(v, e, [45], -2).units == [38];
    assert Convert(v, s, [38, 45], -2).units == [38];
    assert Convert(v, e, [45, 38, 45], -1).units == [38, 38];
    assert Convert(v, s, [38, 45, 38, 45], -1).units == [38, 38];
    assert Convert(v, e, [45, 38, 45, 38, 45], 0).units == [38, 38, 38];
  }
}
