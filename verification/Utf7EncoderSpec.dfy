/** The encoder as a function: what each unit contributes when output is unbounded, what one call
    does with a bounded buffer, and why stopping and resuming never changes the bytes. */
module Utf7EncoderSpec {
  import opened Utf7Alphabet

  /** mEncoding, mEncBits and mEncStep. */
  datatype State = State(base64: bool, bits: nat, step: nat)

  const RESET := State(false, 0, 0)

  /** What every call keeps: no bits are pending in direct mode, and the pending bits are the four
      (or two) low bits of the last unit, already shifted to the top of a six-bit value. */
  predicate Valid(s: State) {
    && s.step < 3
    && s.bits < 64
    && (!s.base64 || s.step == 0 ==> s.step == 0 && s.bits == 0)
    && (s.step == 1 ==> s.bits % 4 == 0)
    && (s.step == 2 ==> s.bits % 16 == 0)
  }

  // ----- Unbounded output

  /** The bytes that end the current mode and start the other. */
  function ShiftBytes(v: Variant, s: State, base64: bool): seq<Byte> {
    if base64 == s.base64 then []
    else (if s.step != 0 then [v.ValueToChar(s.bits)] else []) + [if base64 then v.EscChar() else DASH]
  }

  function ShiftState(s: State, base64: bool): State {
    if base64 == s.base64 then s else State(base64, 0, 0)
  }

  function DirectBytes(v: Variant, ch: Unit): seq<Byte>
    requires v.DirectEncodable(ch)
  {
    if ch == v.EscChar() then [ch, DASH] else [ch]
  }

  /** The whole six-bit values a unit completes in base64 mode. */
  function Base64Values(s: State, ch: Unit): (values: seq<nat>)
    requires Valid(s)
    ensures |values| == if s.step == 0 then 2 else 3
    ensures forall i :: 0 <= i < |values| ==> values[i] < 64
  {
    HighBits(s, ch);
    if s.step == 0 then [ch / 1024, ch / 16 % 64]
    else if s.step == 1 then [s.bits + ch / 16384, ch / 256 % 64, ch / 4 % 64]
    else [s.bits + ch / 4096, ch / 64 % 64, ch % 64]
  }

  /** The pending bits leave room for the highest bits of the next unit. */
  lemma HighBits(s: State, ch: Unit)
    requires Valid(s)
    ensures s.step == 0 ==> ch / 1024 < 64
    ensures s.step == 1 ==> s.bits + ch / 16384 < 64
    ensures s.step == 2 ==> s.bits + ch / 4096 < 64
  {
    if s.step == 1 { assert s.bits == 4 * (s.bits / 4) && s.bits / 4 <= 15; }
    if s.step == 2 { assert s.bits == 16 * (s.bits / 16) && s.bits / 16 <= 3; }
  }

  function Base64Bytes(v: Variant, s: State, ch: Unit): (bytes: seq<Byte>)
    requires Valid(s)
    ensures |bytes| == if s.step == 0 then 2 else 3
  {
    var values := Base64Values(s, ch);
    seq(|values|, i requires 0 <= i < |values| => v.ValueToChar(values[i]))
  }

  lemma Base64BytesByStep(v: Variant, s: State, ch: Unit)
    requires Valid(s)
    ensures s.step == 0 ==>
              Base64Bytes(v, s, ch) == [v.ValueToChar(ch / 1024), v.ValueToChar(ch / 16 % 64)]
    ensures s.step == 1 ==>
              Base64Bytes(v, s, ch) == [v.ValueToChar(s.bits + ch / 16384), v.ValueToChar(ch / 256 % 64),
                                        v.ValueToChar(ch / 4 % 64)]
    ensures s.step == 2 ==>
              Base64Bytes(v, s, ch) == [v.ValueToChar(s.bits + ch / 4096), v.ValueToChar(ch / 64 % 64),
                                        v.ValueToChar(ch % 64)]
  {
  }

  function Base64State(s: State, ch: Unit): (t: State)
    requires Valid(s) && s.base64
    ensures Valid(t) && t.base64
  {
    if s.step == 0 then State(true, ch % 16 * 4, 1)
    else if s.step == 1 then State(true, ch % 4 * 16, 2)
    else State(true, 0, 0)
  }

  /** What one unit contributes once the mode is right. */
  function UnitBytes(v: Variant, s: State, ch: Unit): (bytes: seq<Byte>)
    requires Valid(s) && s.base64 == !v.DirectEncodable(ch)
    ensures 1 <= |bytes| <= 3
  {
    if s.base64 then Base64Bytes(v, s, ch) else DirectBytes(v, ch)
  }

  function UnitState(v: Variant, s: State, ch: Unit): (t: State)
    requires Valid(s) && s.base64 == !v.DirectEncodable(ch)
    ensures Valid(t)
  {
    if s.base64 then Base64State(s, ch) else s
  }

  datatype Run = Run(state: State, bytes: seq<Byte>)

  /** One unit, mode switch included. */
  function Step(v: Variant, s: State, ch: Unit): (r: Run)
    requires Valid(s)
    ensures Valid(r.state)
  {
    var base64 := !v.DirectEncodable(ch);
    var t := ShiftState(s, base64);
    Run(UnitState(v, t, ch), ShiftBytes(v, s, base64) + UnitBytes(v, t, ch))
  }

  /** A whole text with unbounded output, the end of the text not yet marked. */
  function Encode(v: Variant, s: State, us: seq<Unit>): (r: Run)
    requires Valid(s)
    ensures Valid(r.state)
    decreases |us|
  {
    if us == [] then Run(s, [])
    else
      var one := Step(v, s, us[0]);
      var rest := Encode(v, one.state, us[1..]);
      Run(rest.state, one.bytes + rest.bytes)
  }

  /** Encode and then end the text. */
  function EncodeText(v: Variant, s: State, us: seq<Unit>): seq<Byte>
    requires Valid(s)
  {
    var r := Encode(v, s, us);
    r.bytes + ShiftBytes(v, r.state, false)
  }

  // ----- Bounded output

  datatype Status = Ok | MoreOutput

  datatype Outcome = Outcome(status: Status, consumed: nat, bytes: seq<Byte>, state: State)

  /** ShiftEncoding with `cap` free bytes. It may flush the pending bits and stop before the mark. */
  function ShiftBounded(v: Variant, s: State, base64: bool, cap: int): Outcome {
    if base64 == s.base64 then Outcome(Ok, 0, [], s)
    else
      var flush := if s.step != 0 then [v.ValueToChar(s.bits)] else [];
      if cap < |flush| then Outcome(MoreOutput, 0, [], s)
      else if cap < |flush| + 1 then Outcome(MoreOutput, 0, flush, if s.step != 0 then s.(bits := 0, step := 0) else s)
      else Outcome(Ok, 0, ShiftBytes(v, s, base64), ShiftState(s, base64))
  }

  /** Free bytes the code asks for before it writes a unit. The escaped escape char takes two
      bytes, but only one is asked for. */
  function RoomAskedFor(s: State): nat {
    if !s.base64 then 1 else if s.step == 0 then 2 else 3
  }

  /** One call on `us` with `cap` free bytes, unit by unit. `cap` is -1 after an overrun. */
  function Convert(v: Variant, s: State, us: seq<Unit>, cap: int): (o: Outcome)
    requires Valid(s)
    ensures o.consumed <= |us|
    decreases |us|
  {
    if us == [] then Outcome(Ok, 0, [], s)
    else
      var shift := ShiftBounded(v, s, !v.DirectEncodable(us[0]), cap);
      var room := cap - |shift.bytes|;
      if shift.status != Ok || room < RoomAskedFor(shift.state) then
        shift.(status := MoreOutput)
      else
        var bytes := UnitBytes(v, shift.state, us[0]);
        var rest := Convert(v, UnitState(v, shift.state, us[0]), us[1..], room - |bytes|);
        Outcome(rest.status, 1 + rest.consumed, shift.bytes + bytes + rest.bytes, rest.state)
  }

  /** What the inner loops do: encode units as long as they need the current mode. */
  function RunInMode(v: Variant, s: State, us: seq<Unit>, cap: int): (o: Outcome)
    requires Valid(s)
    ensures o.consumed <= |us| && Valid(o.state) && o.state.base64 == s.base64
    ensures us != [] && s.base64 == !v.DirectEncodable(us[0]) && o.status == Ok ==> o.consumed > 0
    decreases |us|
  {
    if us == [] || s.base64 == v.DirectEncodable(us[0]) then Outcome(Ok, 0, [], s)
    else if cap < RoomAskedFor(s) then Outcome(MoreOutput, 0, [], s)
    else
      var bytes := UnitBytes(v, s, us[0]);
      var rest := RunInMode(v, UnitState(v, s, us[0]), us[1..], cap - |bytes|);
      Outcome(rest.status, 1 + rest.consumed, bytes + rest.bytes, rest.state)
  }

  function Prepend(consumed: nat, bytes: seq<Byte>, o: Outcome): Outcome {
    o.(consumed := consumed + o.consumed, bytes := bytes + o.bytes)
  }

  /** Only direct mode can write past its room. */
  lemma {:induction false} Base64RunFits(v: Variant, s: State, us: seq<Unit>, cap: nat)
    requires Valid(s) && s.base64
    ensures |RunInMode(v, s, us, cap).bytes| <= cap
    decreases |us|
  {
    if us != [] && !v.DirectEncodable(us[0]) && cap >= RoomAskedFor(s) {
      Base64RunFits(v, UnitState(v, s, us[0]), us[1..], cap - |UnitBytes(v, s, us[0])|);
    }
  }

  lemma PrependTwice(m: nat, x: seq<Byte>, n: nat, y: seq<Byte>, o: Outcome)
    ensures Prepend(m, x, Prepend(n, y, o)) == Prepend(m + n, x + y, o)
  {
  }

  /** One turn of an inner loop. */
  lemma RunInModeUnit(v: Variant, s: State, us: seq<Unit>, n: nat, cap: int)
    requires Valid(s) && n < |us| && s.base64 == !v.DirectEncodable(us[n]) && cap >= RoomAskedFor(s)
    ensures var bytes := UnitBytes(v, s, us[n]);
            RunInMode(v, s, us[n..], cap) ==
            Prepend(1, bytes, RunInMode(v, UnitState(v, s, us[n]), us[n + 1..], cap - |bytes|))
  {
    hide UnitBytes, UnitState, Variant.DirectEncodable;
    assert us[n..][1..] == us[n + 1..];
  }

  /** One turn of an inner loop, behind `n` units that made `bytes`. */
  lemma RunInModeTurn(v: Variant, s: State, total: Outcome, us: seq<Unit>, n: nat, bytes: seq<Byte>, cap: int)
    requires Valid(s) && n < |us| && s.base64 == !v.DirectEncodable(us[n]) && cap >= RoomAskedFor(s)
    requires total == Prepend(n, bytes, RunInMode(v, s, us[n..], cap))
    ensures var unit := UnitBytes(v, s, us[n]);
            total == Prepend(n + 1, bytes + unit, RunInMode(v, UnitState(v, s, us[n]), us[n + 1..], cap - |unit|))
  {
    hide *;
    RunInModeUnit(v, s, us, n, cap);
    var unit := UnitBytes(v, s, us[n]);
    PrependTwice(n, bytes, 1, unit, RunInMode(v, UnitState(v, s, us[n]), us[n + 1..], cap - |unit|));
  }

  /** A directly encoded unit. */
  lemma DirectUnit(v: Variant, s: State, ch: Unit)
    requires Valid(s) && !s.base64 && v.DirectEncodable(ch)
    ensures ch < 128 && (ch == v.EscChar() ==> v.ModifiedUtf7?)
    ensures UnitBytes(v, s, ch) == if ch == v.EscChar() then [ch, DASH] else [ch]
    ensures UnitState(v, s, ch) == s && RoomAskedFor(s) == 1
  {
  }

  /** An inner loop leaves at the end, at a unit of the other mode, or for lack of room. */
  lemma RunInModeStops(v: Variant, s: State, us: seq<Unit>, n: nat, cap: int, bytes: seq<Byte>)
    requires Valid(s) && n <= |us|
    requires n == |us| || s.base64 == v.DirectEncodable(us[n]) || cap < RoomAskedFor(s)
    ensures Prepend(n, bytes, RunInMode(v, s, us[n..], cap)) ==
            Outcome(if n == |us| || s.base64 == v.DirectEncodable(us[n]) then Ok else MoreOutput, n, bytes, s)
  {
    hide UnitBytes, UnitState, Variant.DirectEncodable;
    assert bytes + [] == bytes;
  }

  lemma ConvertOfNothing(v: Variant, s: State, us: seq<Unit>, cap: int, bytes: seq<Byte>)
    requires Valid(s)
    ensures Prepend(|us|, bytes, Convert(v, s, us[|us|..], cap)) == Outcome(Ok, |us|, bytes, s)
  {
    assert bytes + [] == bytes;
  }

  lemma ShiftStaysInside(v: Variant, s: State, base64: bool, cap: int)
    ensures var o := ShiftBounded(v, s, base64, cap);
            && (base64 && o.status == Ok && (cap >= 0 || !s.base64) ==> |o.bytes| <= cap)
            && (o.status != Ok && (cap >= 0 || !s.base64) ==> |o.bytes| <= cap || !o.state.base64)
  {
  }

  lemma ConvertInMode(v: Variant, s: State, us: seq<Unit>, cap: int)
    requires Valid(s) && us != [] && s.base64 == !v.DirectEncodable(us[0]) && cap >= RoomAskedFor(s)
    ensures var bytes := UnitBytes(v, s, us[0]);
            Convert(v, s, us, cap) ==
            Prepend(1, bytes, Convert(v, UnitState(v, s, us[0]), us[1..], cap - |bytes|))
  {
    hide UnitBytes, UnitState, Variant.DirectEncodable;
    var shift := ShiftBounded(v, s, s.base64, cap);
    assert shift == Outcome(Ok, 0, [], s);
    var bytes := UnitBytes(v, s, us[0]);
    assert [] + bytes == bytes;
  }

  /** The loop over runs of one mode is the loop over units. */
  lemma {:induction false} ConvertByRuns(v: Variant, s: State, us: seq<Unit>, cap: int)
    requires Valid(s)
    ensures var run := RunInMode(v, s, us, cap);
            Convert(v, s, us, cap) ==
            if run.status != Ok then run
            else Prepend(run.consumed, run.bytes,
                         Convert(v, run.state, us[run.consumed..], cap - |run.bytes|))
    decreases |us|
  {
    hide *;
    if us == [] || s.base64 == v.DirectEncodable(us[0]) || cap < RoomAskedFor(s) {
      RunStopsAtOnce(v, s, us, cap);
    } else {
      var bytes := UnitBytes(v, s, us[0]);
      var t := UnitState(v, s, us[0]);
      var rest := RunInMode(v, t, us[1..], cap - |bytes|);
      ConvertByRuns(v, t, us[1..], cap - |bytes|);
      ConvertInMode(v, s, us, cap);
      assert us[0..] == us;
      RunInModeUnit(v, s, us, 0, cap);
      assert us[1..][rest.consumed..] == us[1 + rest.consumed..];
      PrependFields(1, bytes, rest);
      if rest.status == Ok {
        PrependTwice(1, bytes, rest.consumed, rest.bytes,
                     Convert(v, rest.state, us[1 + rest.consumed..], cap - |bytes| - |rest.bytes|));
      }
    }
  }

  lemma PrependFields(m: nat, x: seq<Byte>, o: Outcome)
    ensures var p := Prepend(m, x, o);
            p.status == o.status && p.state == o.state && p.consumed == m + o.consumed && p.bytes == x + o.bytes
  {
  }

  lemma RunStopsAtOnce(v: Variant, s: State, us: seq<Unit>, cap: int)
    requires Valid(s)
    requires us == [] || s.base64 == v.DirectEncodable(us[0]) || cap < RoomAskedFor(s)
    ensures var run := RunInMode(v, s, us, cap);
            Convert(v, s, us, cap) ==
            if run.status != Ok then run
            else Prepend(run.consumed, run.bytes,
                         Convert(v, run.state, us[run.consumed..], cap - |run.bytes|))
  {
    hide Convert, UnitBytes, UnitState, Variant.DirectEncodable;
    assert us[0..] == us;
    PrependNothing(Convert(v, s, us, cap));
    if us != [] && s.base64 == !v.DirectEncodable(us[0]) { ConvertNoRoom(v, s, us, cap); }
  }

  lemma PrependNothing(o: Outcome)
    ensures Prepend(0, [], o) == o
  {
  }

  lemma ConvertNoRoom(v: Variant, s: State, us: seq<Unit>, cap: int)
    requires Valid(s) && us != [] && s.base64 == !v.DirectEncodable(us[0]) && cap < RoomAskedFor(s)
    ensures Convert(v, s, us, cap) == Outcome(MoreOutput, 0, [], s)
  {
  }

  /** One turn of the outer loop: switch, then a run. */
  lemma ConvertShiftThenRun(v: Variant, s: State, us: seq<Unit>, cap: int)
    requires Valid(s) && us != []
    ensures var shift := ShiftBounded(v, s, !v.DirectEncodable(us[0]), cap);
            && Valid(shift.state) && shift.consumed == 0
            && (shift.status != Ok ==> Convert(v, s, us, cap) == shift)
            && (shift.status == Ok ==>
                  shift.state.base64 == !v.DirectEncodable(us[0])
                  && Convert(v, s, us, cap) == Prepend(0, shift.bytes,
                                                       Convert(v, shift.state, us, cap - |shift.bytes|)))
  {
    hide *;
    var base64 := !v.DirectEncodable(us[0]);
    var shift := ShiftBounded(v, s, base64, cap);
    ShiftResumes(v, s, base64, cap);
    ShiftEnds(v, s, base64, cap);
    ConvertUnfolded(v, s, us, cap);
    if shift.status == Ok {
      var room := cap - |shift.bytes|;
      if room >= RoomAskedFor(shift.state) {
        ConvertInMode(v, shift.state, us, room);
        PrependTwice(0, shift.bytes, 1, UnitBytes(v, shift.state, us[0]),
                     Convert(v, UnitState(v, shift.state, us[0]), us[1..], room - |UnitBytes(v, shift.state, us[0])|));
      } else {
        ConvertNoRoom(v, shift.state, us, room);
        PrependStopped(shift);
      }
    }
  }

  lemma ShiftEnds(v: Variant, s: State, base64: bool, cap: int)
    ensures var shift := ShiftBounded(v, s, base64, cap);
            shift.status == MoreOutput || (shift.status == Ok && shift.state.base64 == base64)
  {
  }

  lemma PrependStopped(shift: Outcome)
    requires shift.consumed == 0
    ensures Prepend(0, shift.bytes, Outcome(MoreOutput, 0, [], shift.state)) == shift.(status := MoreOutput)
  {
    assert shift.bytes + [] == shift.bytes;
  }

  /** One unit: its mode switch, then its bytes. */
  lemma ConvertUnfolded(v: Variant, s: State, us: seq<Unit>, cap: int)
    requires Valid(s) && us != []
    ensures var shift := ShiftBounded(v, s, !v.DirectEncodable(us[0]), cap);
            var room := cap - |shift.bytes|;
            && Valid(shift.state) && shift.consumed == 0
            && (shift.status == Ok ==> shift.state.base64 == !v.DirectEncodable(us[0]))
            && Convert(v, s, us, cap) ==
               if shift.status != Ok || room < RoomAskedFor(shift.state) then shift.(status := MoreOutput)
               else
                 var bytes := UnitBytes(v, shift.state, us[0]);
                 Prepend(1, shift.bytes + bytes, Convert(v, UnitState(v, shift.state, us[0]), us[1..], room - |bytes|))
  {
    hide UnitBytes, UnitState, Variant.DirectEncodable, ShiftBounded, ShiftBytes, ShiftState, RoomAskedFor, Valid;
    ShiftResumes(v, s, !v.DirectEncodable(us[0]), cap);
    ShiftEnds(v, s, !v.DirectEncodable(us[0]), cap);
  }

  /** One turn of the outer loop: switch to the mode of the first unit, then encode a run in it. */
  function OneRun(v: Variant, s: State, us: seq<Unit>, cap: int): (o: Outcome)
    requires Valid(s) && us != []
  {
    var shift := ShiftBounded(v, s, !v.DirectEncodable(us[0]), cap);
    ShiftResumes(v, s, !v.DirectEncodable(us[0]), cap);
    if shift.status != Ok then shift
    else Prepend(0, shift.bytes, RunInMode(v, shift.state, us, cap - |shift.bytes|))
  }

  lemma ConvertOneRun(v: Variant, s: State, us: seq<Unit>, cap: int)
    requires Valid(s) && us != []
    ensures var run := OneRun(v, s, us, cap);
            && Valid(run.state) && run.consumed <= |us|
            && (run.status == Ok ==> run.consumed > 0)
            && (cap >= 0 || !s.base64 ==> |run.bytes| <= cap || !run.state.base64)
            && Convert(v, s, us, cap) ==
               if run.status != Ok then run
               else Prepend(run.consumed, run.bytes,
                            Convert(v, run.state, us[run.consumed..], cap - |run.bytes|))
  {
    hide Convert, RunInMode, ShiftBounded, ShiftBytes, ShiftState, UnitBytes, UnitState, Valid, Variant.DirectEncodable;
    var base64 := !v.DirectEncodable(us[0]);
    var shift := ShiftBounded(v, s, base64, cap);
    ConvertShiftThenRun(v, s, us, cap);
    ShiftStaysInside(v, s, base64, cap);
    if shift.status == Ok {
      var room := cap - |shift.bytes|;
      var run := RunInMode(v, shift.state, us, room);
      ConvertByRuns(v, shift.state, us, room);
      PrependTwice(0, shift.bytes, run.consumed, run.bytes,
                   Convert(v, run.state, us[run.consumed..], room - |run.bytes|));
      if base64 && (cap >= 0 || !s.base64) {
        Base64RunFits(v, shift.state, us, room);
      }
    }
  }

  /** A mode switch that stops early leaves the state from which the rest of the switch is made. */
  lemma ShiftResumes(v: Variant, s: State, base64: bool, cap: int)
    requires Valid(s)
    ensures var o := ShiftBounded(v, s, base64, cap);
            && o.consumed == 0
            && Valid(o.state)
            && o.bytes + ShiftBytes(v, o.state, base64) == ShiftBytes(v, s, base64)
            && ShiftState(o.state, base64) == ShiftState(s, base64)
            && (o.status == Ok ==> o.bytes == ShiftBytes(v, s, base64) && o.state == ShiftState(s, base64))
            && (o.status == Ok <==> base64 == s.base64 || |ShiftBytes(v, s, base64)| <= cap)
  {
  }

  /** A call that stops early leaves a state and a remaining input from which exactly the missing
      bytes are produced, including when it stopped between the pending bits and the mark. */
  lemma {:induction false} ConvertResumes(v: Variant, s: State, us: seq<Unit>, cap: int)
    requires Valid(s)
    ensures var o := Convert(v, s, us, cap);
            && Valid(o.state)
            && Encode(v, s, us).state == Encode(v, o.state, us[o.consumed..]).state
            && Encode(v, s, us).bytes == o.bytes + Encode(v, o.state, us[o.consumed..]).bytes
            && (o.status == Ok <==> o.consumed == |us|)
    decreases |us|
  {
    hide UnitBytes, UnitState, Variant.DirectEncodable, ShiftBounded, ShiftBytes, ShiftState, Convert, Encode;
    if us == [] {
      NothingToConvert(v, s, cap);
    } else {
      var base64 := !v.DirectEncodable(us[0]);
      var shift := ShiftBounded(v, s, base64, cap);
      var room := cap - |shift.bytes|;
      var o := Convert(v, s, us, cap);
      ShiftResumes(v, s, base64, cap);
      ConvertUnfolds(v, s, us, cap);
      if shift.status != Ok || room < RoomAskedFor(shift.state) {
        StepResumes(v, s, shift.state, us, shift.bytes);
      } else {
        var one := Step(v, s, us[0]);
        ConvertResumes(v, one.state, us[1..], cap - |one.bytes|);
        EncodeUnfolds(v, s, us);
        assert us[o.consumed..] == us[1..][o.consumed - 1..];
      }
    }
  }

  lemma NothingToConvert(v: Variant, s: State, cap: int)
    requires Valid(s)
    ensures Convert(v, s, [], cap) == Outcome(Ok, 0, [], s) && Encode(v, s, []) == Run(s, [])
  {
  }

  lemma EncodeUnfolds(v: Variant, s: State, us: seq<Unit>)
    requires Valid(s) && us != []
    ensures var one := Step(v, s, us[0]);
            var rest := Encode(v, one.state, us[1..]);
            Encode(v, s, us) == Run(rest.state, one.bytes + rest.bytes)
  {
  }

  lemma ConvertUnfolds(v: Variant, s: State, us: seq<Unit>, cap: int)
    requires Valid(s) && us != []
    ensures var base64 := !v.DirectEncodable(us[0]);
            var shift := ShiftBounded(v, s, base64, cap);
            var one := Step(v, s, us[0]);
            && shift.consumed == 0
            && Convert(v, s, us, cap) ==
               if shift.status != Ok || cap - |shift.bytes| < RoomAskedFor(shift.state) then
                 shift.(status := MoreOutput)
               else Prepend(1, one.bytes, Convert(v, one.state, us[1..], cap - |one.bytes|))
  {
    hide UnitBytes, UnitState, Variant.DirectEncodable, ShiftBounded, ShiftBytes, ShiftState;
    ShiftResumes(v, s, !v.DirectEncodable(us[0]), cap);
  }

  lemma StepFrom(v: Variant, s: State, t: State, ch: Unit, bytes: seq<Byte>)
    requires Valid(s) && Valid(t)
    requires var base64 := !v.DirectEncodable(ch);
             && bytes + ShiftBytes(v, t, base64) == ShiftBytes(v, s, base64)
             && ShiftState(t, base64) == ShiftState(s, base64)
    ensures Step(v, s, ch).state == Step(v, t, ch).state
    ensures Step(v, s, ch).bytes == bytes + Step(v, t, ch).bytes
  {
    hide UnitBytes, UnitState, Variant.DirectEncodable, ShiftBytes;
    var base64 := !v.DirectEncodable(ch);
    var unit := UnitBytes(v, ShiftState(s, base64), ch);
    assert bytes + ShiftBytes(v, t, base64) + unit == bytes + (ShiftBytes(v, t, base64) + unit);
  }

  lemma StepResumes(v: Variant, s: State, t: State, us: seq<Unit>, bytes: seq<Byte>)
    requires Valid(s) && Valid(t) && us != []
    requires var base64 := !v.DirectEncodable(us[0]);
             && bytes + ShiftBytes(v, t, base64) == ShiftBytes(v, s, base64)
             && ShiftState(t, base64) == ShiftState(s, base64)
    ensures Encode(v, s, us).state == Encode(v, t, us).state
    ensures Encode(v, s, us).bytes == bytes + Encode(v, t, us).bytes
    ensures us[0..] == us
  {
    hide Step, ShiftBytes, ShiftState, Valid, Variant.DirectEncodable;
    var one, two := Step(v, s, us[0]), Step(v, t, us[0]);
    StepFrom(v, s, t, us[0], bytes);
    var rest := Encode(v, one.state, us[1..]);
    assert bytes + two.bytes + rest.bytes == bytes + (two.bytes + rest.bytes);
  }

  /** With three free bytes a call on a non-empty input always writes something. */
  lemma ConvertProgresses(v: Variant, s: State, us: seq<Unit>, cap: int)
    requires Valid(s) && us != [] && cap >= 3
    ensures Convert(v, s, us, cap).bytes != []
  {
  }

  /** Where a mode switch or a unit finds too little room. */
  lemma StopsForRoom(v: Variant, s: State, ch: Unit, cap: int)
    requires Valid(s)
    ensures var shift := ShiftBounded(v, s, !v.DirectEncodable(ch), cap);
            var room := cap - |shift.bytes|;
            shift.status != Ok || room < RoomAskedFor(shift.state) ==>
              Valid(shift.state) && room < |Step(v, shift.state, ch).bytes|
  {
    hide Variant.DirectEncodable, Variant.ValueToChar;
    var base64 := !v.DirectEncodable(ch);
    ShiftResumes(v, s, base64, cap);
    if ShiftBounded(v, s, base64, cap).status == Ok { RoomIsNeeded(v, ShiftState(s, base64), ch); }
  }

  lemma RoomIsNeeded(v: Variant, s: State, ch: Unit)
    requires Valid(s) && s.base64 == !v.DirectEncodable(ch)
    ensures RoomAskedFor(s) <= |Step(v, s, ch).bytes|
  {
    hide Variant.ValueToChar;
  }

  /** A call stops early only in front of a unit that does not fit, with its mode switch, into the room
      left. */
  lemma {:induction false} ConvertFills(v: Variant, s: State, us: seq<Unit>, cap: int)
    requires Valid(s)
    ensures var o := Convert(v, s, us, cap);
            o.status != Ok ==>
              o.consumed < |us| && Valid(o.state) && cap - |o.bytes| < |Step(v, o.state, us[o.consumed]).bytes|
    decreases |us|
  {
    hide Convert, Step, ShiftBounded, RoomAskedFor, Valid, Variant.DirectEncodable;
    ConvertResumes(v, s, us, cap);
    if us == [] {
      NothingToConvert(v, s, cap);
    } else {
      ConvertUnfolds(v, s, us, cap);
      StopsForRoom(v, s, us[0], cap);
      var one := Step(v, s, us[0]);
      if Convert(v, s, us, cap).consumed > 0 { ConvertFills(v, one.state, us[1..], cap - |one.bytes|); }
    }
  }

  // ----- Where a call writes past its buffer

  /** Bytes written before unit `i` itself, its mode switch included. */
  function BytesBefore(v: Variant, s: State, us: seq<Unit>, i: nat): nat
    requires Valid(s) && i < |us|
  {
    var r := Encode(v, s, us[..i]);
    |r.bytes| + |ShiftBytes(v, r.state, !v.DirectEncodable(us[i]))|
  }

  /** An escape char that is encoded directly and meets a buffer with exactly one free byte. */
  predicate EscapeAtLastByte(v: Variant, s: State, us: seq<Unit>, cap: int)
    requires Valid(s)
  {
    exists i :: 0 <= i < |us| && us[i] == v.EscChar() && v.DirectEncodable(us[i])
                && BytesBefore(v, s, us, i) == cap - 1
  }

  /** BytesBefore counted from the second unit on. */
  lemma {:induction false} BytesBeforeTail(v: Variant, s: State, us: seq<Unit>, i: nat)
    requires Valid(s) && 1 <= i < |us|
    ensures BytesBefore(v, s, us, i)
         == |Step(v, s, us[0]).bytes| + BytesBefore(v, Step(v, s, us[0]).state, us[1..], i - 1)
  {
    assert us[..i][0] == us[0] && us[..i][1..] == us[1..][..i - 1];
  }

  /** A call writes more than its capacity exactly when an escape char meets the last free byte, and
      then it writes one byte too many. */
  lemma {:induction false} OverrunExactly(v: Variant, s: State, us: seq<Unit>, cap: int)
    requires Valid(s) && cap >= 0
    ensures |Convert(v, s, us, cap).bytes| <= cap + 1
    ensures |Convert(v, s, us, cap).bytes| == cap + 1 <==> EscapeAtLastByte(v, s, us, cap)
    decreases |us|
  {
    hide UnitState, UnitBytes, ShiftState, ShiftBytes, ShiftBounded, Variant.DirectEncodable, EscapeAtLastByte;
    if us == [] {
      NoEscapeInNothing(v, s, cap);
    } else {
      var base64 := !v.DirectEncodable(us[0]);
      var shift := ShiftBounded(v, s, base64, cap);
      var room := cap - |shift.bytes|;
      var one := Step(v, s, us[0]);
      ShiftResumes(v, s, base64, cap);
      StepSize(v, s, us[0]);
      if shift.status != Ok || room < RoomAskedFor(shift.state) {
        assert |shift.bytes| <= cap by { ShiftFits(v, s, base64, cap); }
        OverrunBlocked(v, s, us, cap);
      } else if |one.bytes| > cap {
        // the first unit is the escape char at the last byte; nothing is written after it
        StuckAfterOverrun(v, one.state, us[1..]);
        OverrunHere(v, s, us, cap);
      } else {
        OverrunExactly(v, one.state, us[1..], cap - |one.bytes|);
        OverrunTail(v, s, us, cap);
      }
    }
  }

  lemma NoEscapeInNothing(v: Variant, s: State, cap: int)
    requires Valid(s)
    ensures !EscapeAtLastByte(v, s, [], cap)
  {
  }

  lemma ShiftFits(v: Variant, s: State, base64: bool, cap: int)
    requires cap >= 0
    ensures |ShiftBounded(v, s, base64, cap).bytes| <= cap
  {
  }

  /** A unit takes the room the code asks for, or one byte more for the escaped escape char. */
  lemma StepSize(v: Variant, s: State, ch: Unit)
    requires Valid(s)
    ensures var base64 := !v.DirectEncodable(ch);
            |Step(v, s, ch).bytes| == |ShiftBytes(v, s, base64)| + RoomAskedFor(ShiftState(s, base64))
                                      + if !base64 && ch == v.EscChar() then 1 else 0
  {
  }

  lemma OverrunBlocked(v: Variant, s: State, us: seq<Unit>, cap: int)
    requires Valid(s) && us != []
    requires var base64 := !v.DirectEncodable(us[0]);
             cap < |ShiftBytes(v, s, base64)| + RoomAskedFor(ShiftState(s, base64))
    ensures !EscapeAtLastByte(v, s, us, cap)
  {
    hide Variant.DirectEncodable, UnitBytes, UnitState;
    StepSize(v, s, us[0]);
    forall i | 0 <= i < |us| && us[i] == v.EscChar() && v.DirectEncodable(us[i])
      ensures BytesBefore(v, s, us, i) != cap - 1
    {
      if i > 0 { BytesBeforeTail(v, s, us, i); } else { assert us[..0] == []; }
    }
  }

  lemma OverrunHere(v: Variant, s: State, us: seq<Unit>, cap: int)
    requires Valid(s) && us != []
    requires var base64 := !v.DirectEncodable(us[0]);
             |ShiftBytes(v, s, base64)| + RoomAskedFor(ShiftState(s, base64)) == cap < |Step(v, s, us[0]).bytes|
    ensures EscapeAtLastByte(v, s, us, cap)
  {
    StepSize(v, s, us[0]);
    assert us[..0] == [] && BytesBefore(v, s, us, 0) == cap - 1;
  }

  lemma StuckAfterOverrun(v: Variant, s: State, us: seq<Unit>)
    requires Valid(s)
    ensures Convert(v, s, us, -1).bytes == []
  {
  }

  lemma OverrunTail(v: Variant, s: State, us: seq<Unit>, cap: int)
    requires Valid(s) && us != [] && cap >= |Step(v, s, us[0]).bytes|
    ensures EscapeAtLastByte(v, s, us, cap)
       <==> EscapeAtLastByte(v, Step(v, s, us[0]).state, us[1..], cap - |Step(v, s, us[0]).bytes|)
  {
    var one := Step(v, s, us[0]);
    var left := cap - |one.bytes|;
    if EscapeAtLastByte(v, s, us, cap) {
      var i :| 0 <= i < |us| && us[i] == v.EscChar() && v.DirectEncodable(us[i])
               && BytesBefore(v, s, us, i) == cap - 1;
      if i > 0 {
        BytesBeforeTail(v, s, us, i);
        assert us[1..][i - 1] == us[i] && BytesBefore(v, one.state, us[1..], i - 1) == left - 1;
      }
    }
    if EscapeAtLastByte(v, one.state, us[1..], left) {
      var i :| 0 <= i < |us[1..]| && us[1..][i] == v.EscChar() && v.DirectEncodable(us[1..][i])
               && BytesBefore(v, one.state, us[1..], i) == left - 1;
      BytesBeforeTail(v, s, us, i + 1);
      assert us[i + 1] == us[1..][i] && BytesBefore(v, s, us, i + 1) == cap - 1;
    }
  }

  /** The smallest overrun: one '&', one free byte, two bytes written. Plain UTF-7 has none. */
  lemma OverrunExample()
    ensures |Convert(ModifiedUtf7, RESET, [38], 1).bytes| == 2
    ensures forall s, us, cap: nat :: Valid(s) ==> |Convert(Utf7, s, us, cap).bytes| <= cap
  {
    forall s, us, cap: nat | Valid(s)
      ensures |Convert(Utf7, s, us, cap).bytes| <= cap
    {
      OverrunExactly(Utf7, s, us, cap);
    }
  }
}
