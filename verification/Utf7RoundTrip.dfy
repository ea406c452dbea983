/** Decoding what was encoded gives the text back, for both parameter sets. */
module Utf7RoundTrip {
  import opened Arithmetic
  import opened Utf7Alphabet
  import E = Utf7EncoderSpec
  import D = Utf7DecoderSpec

  /** The unit of which the encoder has written only the leading bits, if there is one. */
  predicate IsPending(e: E.State, pending: seq<Unit>) {
    if e.base64 && e.step != 0 then
      |pending| == 1 && e.bits == if e.step == 1 then pending[0] % 16 * 4 else pending[0] % 4 * 16
    else pending == []
  }

  /** The decoder has read every byte the encoder has written: it is in the same mode, and holds the
      leading bits of the pending unit in place. */
  predicate Synced(e: E.State, d: D.State, pending: seq<Unit>) {
    && IsPending(e, pending)
    && d.base64 == e.base64
    && (e.base64 && e.step == 0 ==> d.step == 0 && d.bits == 0)
    && (e.base64 && e.step == 1 ==> d.step == 2 && d.bits == pending[0] / 16 * 16 && !d.freshRun)
    && (e.base64 && e.step == 2 ==> d.step == 5 && d.bits == pending[0] / 4 * 4 && !d.freshRun)
  }

  lemma StepOfSextet(v: Variant, d: D.State, value: nat)
    requires d.base64 && value < 64
    ensures D.Step(v, d, v.ValueToChar(value)) == D.Accept(d.(freshRun := false), value)
  {
    v.AlphabetInverse(value);
  }

  lemma DecodeOne(v: Variant, d: D.State, a: Byte)
    ensures D.Decode(v, d, [a]) == D.Step(v, d, a)
  {
    var r := D.Step(v, d, a);
    assert D.Decode(v, r.state, [][..]) == D.Run(r.state, []);
    assert r.units + [] == r.units;
  }

  lemma DecodeCons(v: Variant, d: D.State, a: Byte, rest: seq<Byte>)
    ensures var one := D.Step(v, d, a);
            var r := D.Decode(v, one.state, rest);
            D.Decode(v, d, [a] + rest) == D.Run(r.state, one.units + r.units)
  {
    assert ([a] + rest)[1..] == rest;
  }

  /** In direct mode the state does not matter. */
  lemma {:induction false} DirectStatesAgree(v: Variant, s: D.State, t: D.State, bs: seq<Byte>)
    requires !s.base64 && !t.base64
    ensures D.Decode(v, s, bs).units == D.Decode(v, t, bs).units
    decreases |bs|
  {
    if bs != [] && bs[0] != v.EscChar() { DirectStatesAgree(v, s, t, bs[1..]); }
  }

  lemma ReadTwo(v: Variant, d: D.State, x: nat, y: nat)
    requires d.base64 && x < 64 && y < 64
    ensures var one := D.Accept(d.(freshRun := false), x);
            var two := D.Accept(one.state, y);
            D.Decode(v, d, [v.ValueToChar(x), v.ValueToChar(y)]) == D.Run(two.state, one.units + two.units)
  {
    hide Variant.ValueToChar, Variant.CharToValue, D.Step, D.Decode;
    var one := D.Accept(d.(freshRun := false), x);
    StepOfSextet(v, d, x);
    StepOfSextet(v, one.state, y);
    DecodeCons(v, d, v.ValueToChar(x), [v.ValueToChar(y)]);
    DecodeOne(v, one.state, v.ValueToChar(y));
    assert [v.ValueToChar(x), v.ValueToChar(y)] == [v.ValueToChar(x)] + [v.ValueToChar(y)];
  }

  lemma ReadThree(v: Variant, d: D.State, x: nat, y: nat, z: nat)
    requires d.base64 && x < 64 && y < 64 && z < 64
    ensures var one := D.Accept(d.(freshRun := false), x);
            var two := D.Accept(one.state, y);
            var three := D.Accept(two.state, z);
            D.Decode(v, d, [v.ValueToChar(x), v.ValueToChar(y), v.ValueToChar(z)])
            == D.Run(three.state, one.units + (two.units + three.units))
  {
    hide Variant.ValueToChar, Variant.CharToValue, D.Step, D.Decode;
    var one := D.Accept(d.(freshRun := false), x);
    StepOfSextet(v, d, x);
    DecodeCons(v, d, v.ValueToChar(x), [v.ValueToChar(y), v.ValueToChar(z)]);
    ReadTwo(v, one.state, y, z);
    assert [v.ValueToChar(x), v.ValueToChar(y), v.ValueToChar(z)]
        == [v.ValueToChar(x)] + [v.ValueToChar(y), v.ValueToChar(z)];
  }

  lemma AtStepOne(e: E.State, d: D.State, p: Unit, ch: Unit)
    requires E.Valid(e) && e.base64 && e.step == 1 && Synced(e, d, [p])
    ensures e.bits == p % 16 * 4
    ensures d.base64 && d.step == 2 && d.bits == p / 16 * 16
    ensures E.Base64State(e, ch) == E.State(true, ch % 4 * 16, 2)
  {
  }

  lemma AtStepTwo(e: E.State, d: D.State, p: Unit, ch: Unit)
    requires E.Valid(e) && e.base64 && e.step == 2 && Synced(e, d, [p])
    ensures e.bits == p % 4 * 16
    ensures d.base64 && d.step == 5 && d.bits == p / 4 * 4
    ensures E.Base64State(e, ch) == E.State(true, 0, 0)
  {
  }

  lemma SyncedAtZero(e: E.State, d: D.State)
    requires e == E.State(true, 0, 0) && d.base64 && d.step == 0 && d.bits == 0
    ensures Synced(e, d, [])
  {
  }

  lemma SyncedAtOne(e: E.State, d: D.State, p: Unit)
    requires e == E.State(true, p % 16 * 4, 1) && d.base64 && d.step == 2 && d.bits == p / 16 * 16 && !d.freshRun
    ensures Synced(e, d, [p])
  {
  }

  lemma SyncedAtTwo(e: E.State, d: D.State, p: Unit)
    requires e == E.State(true, p % 4 * 16, 2) && d.base64 && d.step == 5 && d.bits == p / 4 * 4 && !d.freshRun
    ensures Synced(e, d, [p])
  {
  }

  /** Two sextets from the first place on complete no unit. */
  lemma AcceptFromStepZero(d: D.State, x: nat, y: nat)
    requires d.step == 0
    ensures var one := D.Accept(d, x);
            var two := D.Accept(one.state, y);
            two.state == d.(step := 2, bits := x * 0x400 + y * 0x10) && one.units + two.units == []
  {
  }

  /** Three sextets from the third place on complete one unit. */
  lemma ReadAtStepTwo(v: Variant, d: D.State, x: nat, y: nat, z: nat)
    requires d.base64 && d.step == 2 && x < 64 && y < 64 && z < 64
    ensures D.Decode(v, d, [v.ValueToChar(x), v.ValueToChar(y), v.ValueToChar(z)])
         == D.Run(d.(freshRun := false, step := 5, bits := x % 4 * 0x4000 + y * 0x100 + z * 4),
                  [D.ToUnit(d.bits + x / 4)])
  {
    hide Variant.ValueToChar, D.Decode, D.ToUnit;
    ReadThree(v, d, x, y, z);
  }

  /** Three sextets from the sixth place on complete two units. */
  lemma ReadAtStepFive(v: Variant, d: D.State, x: nat, y: nat, z: nat)
    requires d.base64 && d.step == 5 && x < 64 && y < 64 && z < 64
    ensures D.Decode(v, d, [v.ValueToChar(x), v.ValueToChar(y), v.ValueToChar(z)])
         == D.Run(d.(freshRun := false, step := 0, bits := 0),
                  [D.ToUnit(d.bits + x / 16), D.ToUnit(x % 16 * 0x1000 + y * 0x40 + z)])
  {
    hide Variant.ValueToChar, D.Decode, D.ToUnit;
    ReadThree(v, d, x, y, z);
  }

  /** Reading the two or three chars of a unit. */
  lemma UnitSynced(v: Variant, e: E.State, d: D.State, pending: seq<Unit>, ch: Unit)
    requires E.Valid(e) && e.base64 && Synced(e, d, pending)
    ensures var next := E.Base64State(e, ch);
            var r := D.Decode(v, d, E.Base64Bytes(v, e, ch));
            var pending' := if next.step != 0 then [ch] else [];
            Synced(next, r.state, pending') && !r.state.freshRun && pending + [ch] == r.units + pending'
  {
    if e.step == 0 { FirstUnitSynced(v, e, d, ch); }
    else if e.step == 1 { SecondUnitSynced(v, e, d, pending[0], ch); }
    else { ThirdUnitSynced(v, e, d, pending[0], ch); }
  }

  lemma FirstUnitSynced(v: Variant, e: E.State, d: D.State, ch: Unit)
    requires E.Valid(e) && e.base64 && e.step == 0 && Synced(e, d, [])
    ensures var next := E.Base64State(e, ch);
            var r := D.Decode(v, d, E.Base64Bytes(v, e, ch));
            Synced(next, r.state, [ch]) && !r.state.freshRun && r.units == []
  {
    var next := E.Base64State(e, ch);
    assert next == E.State(true, ch % 16 * 4, 1) && d.base64 && d.step == 0;
    hide *;
    var x, y := ch / 1024, ch / 16 % 64;
    E.Base64BytesByStep(v, e, ch);
    ReadTwo(v, d, x, y);
    AcceptFromStepZero(d.(freshRun := false), x, y);
    TwoSextets(ch);
    SyncedAtOne(next, D.Decode(v, d, E.Base64Bytes(v, e, ch)).state, ch);
  }

  lemma SecondUnitSynced(v: Variant, e: E.State, d: D.State, p: Unit, ch: Unit)
    requires E.Valid(e) && e.base64 && e.step == 1 && Synced(e, d, [p])
    ensures var next := E.Base64State(e, ch);
            var r := D.Decode(v, d, E.Base64Bytes(v, e, ch));
            Synced(next, r.state, [ch]) && !r.state.freshRun && r.units == [p]
  {
    var next := E.Base64State(e, ch);
    AtStepOne(e, d, p, ch);
    hide *;
    var x, y, z := SecondSextets(v, e, d.bits, p, ch);
    ReadAtStepTwo(v, d, x, y, z);
    SyncedAtTwo(next, D.Decode(v, d, E.Base64Bytes(v, e, ch)).state, ch);
  }

  lemma SecondSextets(v: Variant, e: E.State, held: nat, p: Unit, ch: Unit) returns (x: nat, y: nat, z: nat)
    requires E.Valid(e) && e.step == 1 && e.bits == p % 16 * 4 && held == p / 16 * 16
    ensures x < 64 && y < 64 && z < 64
    ensures E.Base64Bytes(v, e, ch) == [v.ValueToChar(x), v.ValueToChar(y), v.ValueToChar(z)]
    ensures D.ToUnit(held + x / 4) == p && x % 4 * 0x4000 + y * 0x100 + z * 4 == ch / 4 * 4
  {
    x, y, z := e.bits + ch / 16384, ch / 256 % 64, ch / 4 % 64;
    hide *;
    E.Base64BytesByStep(v, e, ch);
    ThreeSextetsAfterOne(p, ch);
  }

  lemma ThirdUnitSynced(v: Variant, e: E.State, d: D.State, p: Unit, ch: Unit)
    requires E.Valid(e) && e.base64 && e.step == 2 && Synced(e, d, [p])
    ensures var next := E.Base64State(e, ch);
            var r := D.Decode(v, d, E.Base64Bytes(v, e, ch));
            Synced(next, r.state, []) && !r.state.freshRun && r.units == [p, ch]
  {
    var next := E.Base64State(e, ch);
    AtStepTwo(e, d, p, ch);
    hide *;
    var x, y, z := ThirdSextets(v, e, d.bits, p, ch);
    ReadAtStepFive(v, d, x, y, z);
    SyncedAtZero(next, D.Decode(v, d, E.Base64Bytes(v, e, ch)).state);
  }

  lemma ThirdSextets(v: Variant, e: E.State, held: nat, p: Unit, ch: Unit) returns (x: nat, y: nat, z: nat)
    requires E.Valid(e) && e.step == 2 && e.bits == p % 4 * 16 && held == p / 4 * 4
    ensures x < 64 && y < 64 && z < 64
    ensures E.Base64Bytes(v, e, ch) == [v.ValueToChar(x), v.ValueToChar(y), v.ValueToChar(z)]
    ensures D.ToUnit(held + x / 16) == p && D.ToUnit(x % 16 * 0x1000 + y * 0x40 + z) == ch
  {
    x, y, z := e.bits + ch / 4096, ch / 64 % 64, ch % 64;
    hide *;
    E.Base64BytesByStep(v, e, ch);
    ThreeSextetsAfterTwo(p, ch);
  }

  lemma TwoSextets(ch: Unit)
    ensures ch / 1024 * 0x400 + ch / 16 % 64 * 0x10 == ch / 16 * 16
  {
  }

  /** Four pending bits of `p`, then `ch`. */
  lemma ThreeSextetsAfterOne(p: Unit, ch: Unit)
    ensures var x := p % 16 * 4 + ch / 16384;
            && D.ToUnit(p / 16 * 16 + x / 4) == p
            && x % 4 * 0x4000 + ch / 256 % 64 * 0x100 + ch / 4 % 64 * 4 == ch / 4 * 4
  {
    var high: nat := ch / 16384;
    var x := p % 16 * 4 + high;
    assert high < 4 && x / 4 == p % 16 && x % 4 == high;
    assert p / 16 * 16 + p % 16 == p;
    assert ch / 256 == high * 64 + ch / 256 % 64 && ch / 4 == ch / 256 * 64 + ch / 4 % 64;
  }

  /** Two pending bits of `p`, then `ch`. */
  lemma ThreeSextetsAfterTwo(p: Unit, ch: Unit)
    ensures var x := p % 4 * 16 + ch / 4096;
            && D.ToUnit(p / 4 * 4 + x / 16) == p
            && D.ToUnit(x % 16 * 0x1000 + ch / 64 % 64 * 0x40 + ch % 64) == ch
  {
    var high: nat := ch / 4096;
    var x := p % 4 * 16 + high;
    QuotientIs(x, 16, p % 4, high);
    assert p / 4 * 4 + p % 4 == p;
    assert ch / 64 == high * 64 + ch / 64 % 64 && ch == ch / 64 * 64 + ch % 64;
  }

  /** Reading a mode switch releases the pending unit. */
  lemma ShiftSynced(v: Variant, e: E.State, d: D.State, pending: seq<Unit>, base64: bool)
    requires E.Valid(e) && Synced(e, d, pending) && (d.base64 ==> !d.freshRun)
    ensures var r := D.Decode(v, d, E.ShiftBytes(v, e, base64));
            && r.units == (if base64 == e.base64 then [] else pending)
            && Synced(E.ShiftState(e, base64), r.state, if base64 == e.base64 then pending else [])
            && (base64 == e.base64 ==> r.state == d)
  {
    hide Variant.ValueToChar, Variant.CharToValue;
    if base64 != e.base64 {
      if base64 {
        DecodeOne(v, d, v.EscChar());
      } else {
        DashEndsRun(v);
        if e.step == 0 {
          DecodeOne(v, d, DASH);
        } else {
          var flush := v.ValueToChar(e.bits);
          var d1 := D.Accept(d, e.bits);
          assert E.ShiftBytes(v, e, false) == [flush] + [DASH];
          DecodeCons(v, d, flush, [DASH]);
          StepOfSextet(v, d, e.bits);
          DecodeOne(v, d1.state, DASH);
          FlushReleases(pending[0]);
        }
      }
    }
  }

  lemma DashEndsRun(v: Variant)
    ensures v.CharToValue(DASH) > 0xff
  {
  }

  lemma FlushReleases(p: Unit)
    ensures D.ToUnit(p / 16 * 16 + p % 16 * 4 / 4) == p && D.ToUnit(p / 4 * 4 + p % 4 * 16 / 16) == p
  {
  }

  /** Reading a directly encoded char, escaped if it is the escape char. */
  lemma DirectSynced(v: Variant, d: D.State, ch: Unit)
    requires v.DirectEncodable(ch) && !d.base64
    ensures var r := D.Decode(v, d, E.DirectBytes(v, ch));
            r.units == [ch] && !r.state.base64
  {
    if ch == v.EscChar() {
      assert E.DirectBytes(v, ch) == [ch as Byte] + [DASH];
      DecodeCons(v, d, ch, [DASH]);
      DecodeOne(v, D.State(true, 0, 0, true), DASH);
    } else {
      DecodeOne(v, d, ch);
    }
  }

  /** One unit, mode switch included. */
  lemma StepSynced(v: Variant, e: E.State, d: D.State, pending: seq<Unit>, ch: Unit)
    requires E.Valid(e) && Synced(e, d, pending) && (d.base64 ==> !d.freshRun)
    ensures var next := E.Step(v, e, ch);
            var r := D.Decode(v, d, next.bytes);
            var pending' := if next.state.base64 && next.state.step != 0 then [ch] else [];
            && Synced(next.state, r.state, pending') && (r.state.base64 ==> !r.state.freshRun)
            && pending + [ch] == r.units + pending'
  {
    hide D.Step, D.Decode, E.ShiftBytes, E.Base64State, E.Base64Bytes, E.DirectBytes;
    var base64 := !v.DirectEncodable(ch);
    var t := E.ShiftState(e, base64);
    ShiftSynced(v, e, d, pending, base64);
    var shifted := D.Decode(v, d, E.ShiftBytes(v, e, base64));
    D.DecodeConcat(v, d, E.ShiftBytes(v, e, base64), E.UnitBytes(v, t, ch));
    if base64 {
      UnitSynced(v, t, shifted.state, if base64 == e.base64 then pending else [], ch);
    } else {
      DirectSynced(v, shifted.state, ch);
    }
  }

  /** A whole text from synchronised states: the units come out in order, except the pending one. */
  lemma {:induction false} EncodeSynced(v: Variant, e: E.State, d: D.State, pending: seq<Unit>, us: seq<Unit>)
    returns (pending': seq<Unit>)
    requires E.Valid(e) && Synced(e, d, pending) && (d.base64 ==> !d.freshRun)
    ensures var last := E.Encode(v, e, us);
            var r := D.Decode(v, d, last.bytes);
            && Synced(last.state, r.state, pending') && (r.state.base64 ==> !r.state.freshRun)
            && pending + us == r.units + pending'
    decreases |us|
  {
    hide D.Step, E.Step;
    if us == [] {
      pending' := pending;
    } else {
      var one := E.Step(v, e, us[0]);
      var r := D.Decode(v, d, one.bytes);
      StepSynced(v, e, d, pending, us[0]);
      var middle := if one.state.base64 && one.state.step != 0 then [us[0]] else [];
      pending' := EncodeSynced(v, one.state, r.state, middle, us[1..]);
      var rest := E.Encode(v, one.state, us[1..]);
      D.DecodeConcat(v, d, one.bytes, rest.bytes);
      var tail := D.Decode(v, r.state, rest.bytes);
      Regroup(pending, us[0], us[1..], r.units, middle, tail.units, pending');
      assert [us[0]] + us[1..] == us;
    }
  }

  lemma Regroup(pending: seq<Unit>, u: Unit, us: seq<Unit>, a: seq<Unit>, middle: seq<Unit>, b: seq<Unit>,
                last: seq<Unit>)
    requires pending + [u] == a + middle && middle + us == b + last
    ensures pending + ([u] + us) == a + b + last
  {
    calc {
      pending + ([u] + us);
      (pending + [u]) + us;
      (a + middle) + us;
      a + (middle + us);
      a + (b + last);
      a + b + last;
    }
  }

  /** Encoding a text from a reset encoder and ending it, then decoding from a reset decoder, is the
      identity, whatever the freshness flag of the decoder was. */
  lemma RoundTrip(v: Variant, us: seq<Unit>, d: D.State)
    requires !d.base64
    ensures D.Decode(v, d, E.EncodeText(v, E.RESET, us)).units == us
    ensures !D.Decode(v, d, E.EncodeText(v, E.RESET, us)).state.base64
  {
    hide D.Step, E.Encode, D.Decode, E.ShiftBytes;
    var pending := EncodeSynced(v, E.RESET, d, [], us);
    var last := E.Encode(v, E.RESET, us);
    var r := D.Decode(v, d, last.bytes);
    ShiftSynced(v, last.state, r.state, pending, false);
    D.DecodeConcat(v, d, last.bytes, E.ShiftBytes(v, last.state, false));
    assert [] + us == us;
  }

  /** No two texts have the same encoding. */
  lemma EncodeTextIsInjective(v: Variant, us: seq<Unit>, us': seq<Unit>)
    requires E.EncodeText(v, E.RESET, us) == E.EncodeText(v, E.RESET, us')
    ensures us == us'
  {
    var d := D.State(false, 0, 0, false);
    RoundTrip(v, us, d);
    RoundTrip(v, us', d);
  }
}
