/** Whole sessions: text arrives in pieces, every call gets whatever room its caller has, what a
    call did not read is offered again. No schedule changes the result. */
module Utf7Session {
  import opened Utf7Alphabet
  import E = Utf7EncoderSpec
  import D = Utf7DecoderSpec
  import Utf7RoundTrip

  /** More input becomes available, or the converter is called with room for `cap` values. */
  datatype Event<T> = Supply(input: seq<T>) | Call(cap: nat)

  function Supplied<T>(events: seq<Event<T>>): seq<T>
    decreases |events|
  {
    if events == [] then []
    else (if events[0].Supply? then events[0].input else []) + Supplied(events[1..])
  }

  function Calls<T>(caps: seq<nat>): (events: seq<Event<T>>)
    ensures |events| == |caps|
    decreases |caps|
  {
    if caps == [] then [] else [Call(caps[0])] + Calls(caps[1..])
  }

  // ----- Encoder sessions

  /** The encoder, the input not read yet, and all bytes written so far. */
  datatype Encoding = Encoding(state: E.State, unread: seq<Unit>, written: seq<Byte>)

  function EncoderStep(v: Variant, x: Encoding, event: Event<Unit>): Encoding
    requires E.Valid(x.state)
  {
    match event
    case Supply(input) => x.(unread := x.unread + input)
    case Call(cap) =>
      var o := E.Convert(v, x.state, x.unread, cap);
      Encoding(o.state, x.unread[o.consumed..], x.written + o.bytes)
  }

  /** What the session will have written when everything offered so far has been read. */
  function EncoderTotal(v: Variant, x: Encoding): E.Run
    requires E.Valid(x.state)
  {
    var r := E.Encode(v, x.state, x.unread);
    E.Run(r.state, x.written + r.bytes)
  }

  lemma {:induction false} EncodeConcat(v: Variant, s: E.State, a: seq<Unit>, b: seq<Unit>)
    requires E.Valid(s)
    ensures var left := E.Encode(v, s, a);
            var right := E.Encode(v, left.state, b);
            E.Encode(v, s, a + b) == E.Run(right.state, left.bytes + right.bytes)
    decreases |a|
  {
    hide E.Step;
    if a == [] {
      assert a + b == b;
    } else {
      assert (a + b)[0] == a[0] && (a + b)[1..] == a[1..] + b;
      EncodeConcat(v, E.Step(v, s, a[0]).state, a[1..], b);
    }
  }

  /** A call leaves the total as it is; new input extends it as if it had been there from the start. */
  lemma EncoderStepKeepsTotal(v: Variant, x: Encoding, event: Event<Unit>)
    requires E.Valid(x.state)
    ensures var y := EncoderStep(v, x, event);
            && E.Valid(y.state)
            && EncoderTotal(v, y) == EncoderTotal(v, x.(unread := x.unread + Supplied([event])))
  {
    hide E.Encode, E.Convert;
    assert Supplied([event][1..]) == [];
    match event {
      case Supply(input) =>
        assert Supplied([event]) == input;
      case Call(cap) =>
        assert x.unread + Supplied([event]) == x.unread;
        E.ConvertResumes(v, x.state, x.unread, cap);
    }
  }

  function EncoderRun(v: Variant, x: Encoding, events: seq<Event<Unit>>): (y: Encoding)
    requires E.Valid(x.state)
    ensures E.Valid(y.state)
    decreases |events|
  {
    if events == [] then x
    else
      EncoderStepKeepsTotal(v, x, events[0]);
      EncoderRun(v, EncoderStep(v, x, events[0]), events[1..])
  }

  /** After any session the bytes written, and those still to come, are the unbounded encoding of the
      text supplied. */
  lemma {:induction false} EncoderRunIsEncode(v: Variant, x: Encoding, events: seq<Event<Unit>>)
    requires E.Valid(x.state)
    ensures EncoderTotal(v, EncoderRun(v, x, events)) == EncoderTotal(v, x.(unread := x.unread + Supplied(events)))
    decreases |events|
  {
    hide E.Encode, E.Convert, EncoderStep, EncoderTotal;
    if events == [] {
      assert x.unread + [] == x.unread;
    } else {
      var y := EncoderStep(v, x, events[0]);
      EncoderStepKeepsTotal(v, x, events[0]);
      EncoderRunIsEncode(v, y, events[1..]);
      var more := Supplied(events[1..]);
      EncoderTotalExtends(v, y, x.(unread := x.unread + Supplied([events[0]])), more);
      assert Supplied([events[0]][1..]) == [];
      assert x.unread + Supplied(events) == x.unread + Supplied([events[0]]) + more;
    }
  }

  lemma EncoderTotalExtends(v: Variant, x: Encoding, y: Encoding, more: seq<Unit>)
    requires E.Valid(x.state) && E.Valid(y.state) && EncoderTotal(v, x) == EncoderTotal(v, y)
    ensures EncoderTotal(v, x.(unread := x.unread + more)) == EncoderTotal(v, y.(unread := y.unread + more))
  {
    hide E.Encode;
    EncodeConcat(v, x.state, x.unread, more);
    EncodeConcat(v, y.state, y.unread, more);
    var r := E.Encode(v, E.Encode(v, x.state, x.unread).state, more);
    assert x.written + (E.Encode(v, x.state, x.unread).bytes + r.bytes)
        == y.written + (E.Encode(v, y.state, y.unread).bytes + r.bytes) by {
      Regroup(x.written, E.Encode(v, x.state, x.unread).bytes, y.written, E.Encode(v, y.state, y.unread).bytes,
              r.bytes);
    }
  }

  lemma Regroup<T>(a: seq<T>, b: seq<T>, c: seq<T>, d: seq<T>, tail: seq<T>)
    requires a + b == c + d
    ensures a + (b + tail) == c + (d + tail)
  {
    assert a + (b + tail) == (a + b) + tail;
    assert c + (d + tail) == (c + d) + tail;
  }

  /** Calls with room for three bytes: each writes something while input is left, so as many calls as
      there are bytes to write read everything. */
  lemma {:induction false} EncoderDrains(v: Variant, x: Encoding, caps: seq<nat>)
    requires E.Valid(x.state)
    requires forall i :: 0 <= i < |caps| ==> caps[i] >= 3
    requires |caps| >= |E.Encode(v, x.state, x.unread).bytes|
    ensures EncoderRun(v, x, Calls(caps)).unread == []
    decreases |caps|
  {
    hide E.Convert, E.Step;
    if caps == [] {
      EncodeWrites(v, x.state, x.unread);
    } else {
      var y := EncoderStep(v, x, Call(caps[0]));
      E.ConvertResumes(v, x.state, x.unread, caps[0]);
      if x.unread != [] { E.ConvertProgresses(v, x.state, x.unread, caps[0]); }
      else { assert y.unread == []; }
      assert Calls<Unit>(caps)[1..] == Calls<Unit>(caps[1..]);
      EncoderDrains(v, y, caps[1..]);
    }
  }

  lemma EncodeWrites(v: Variant, s: E.State, us: seq<Unit>)
    requires E.Valid(s)
    ensures us != [] ==> E.Encode(v, s, us).bytes != []
  {
  }

  /** FinishNoBuff called until it reports success, with room for `caps[i]` bytes the i-th time. */
  function Finish(v: Variant, s: E.State, caps: seq<nat>): (bool, seq<Byte>)
    decreases |caps|
  {
    if caps == [] then (false, [])
    else
      var o := E.ShiftBounded(v, s, false, caps[0]);
      if o.status == E.Ok then (true, o.bytes)
      else
        var (done, rest) := Finish(v, o.state, caps[1..]);
        (done, o.bytes + rest)
  }

  lemma {:induction false} FinishIsShift(v: Variant, s: E.State, caps: seq<nat>)
    requires E.Valid(s)
    ensures Finish(v, s, caps).0 ==> Finish(v, s, caps).1 == E.ShiftBytes(v, s, false)
    ensures |caps| >= 2 && caps[0] >= 1 && caps[1] >= 1 ==> Finish(v, s, caps).0
    decreases |caps|
  {
    if caps != [] {
      var o := E.ShiftBounded(v, s, false, caps[0]);
      E.ShiftResumes(v, s, false, caps[0]);
      if o.status != E.Ok { FinishIsShift(v, o.state, caps[1..]); }
    }
  }

  // ----- Decoder sessions

  datatype Decoding = Decoding(state: D.State, unread: seq<Byte>, written: seq<Unit>)

  function DecoderStep(v: Variant, x: Decoding, event: Event<Byte>): Decoding {
    match event
    case Supply(input) => x.(unread := x.unread + input)
    case Call(cap) =>
      var o := D.Convert(v, x.state, x.unread, cap);
      Decoding(o.state, x.unread[o.consumed..], x.written + o.units)
  }

  function DecoderTotal(v: Variant, x: Decoding): D.Run {
    var r := D.Decode(v, x.state, x.unread);
    D.Run(r.state, x.written + r.units)
  }

  lemma DecoderStepKeepsTotal(v: Variant, x: Decoding, event: Event<Byte>)
    requires D.Valid(x.state)
    ensures var y := DecoderStep(v, x, event);
            && D.Valid(y.state)
            && DecoderTotal(v, y) == DecoderTotal(v, x.(unread := x.unread + Supplied([event])))
  {
    hide D.Decode, D.Convert;
    assert Supplied([event][1..]) == [];
    match event {
      case Supply(input) =>
        assert Supplied([event]) == input;
      case Call(cap) =>
        assert x.unread + Supplied([event]) == x.unread;
        D.ConvertResumes(v, x.state, x.unread, cap);
    }
  }

  function DecoderRun(v: Variant, x: Decoding, events: seq<Event<Byte>>): (y: Decoding)
    decreases |events|
  {
    if events == [] then x else DecoderRun(v, DecoderStep(v, x, events[0]), events[1..])
  }

  /** After any session the units written, and those still to come, are the unbounded decoding of
      the bytes supplied. */
  lemma {:induction false} DecoderRunIsDecode(v: Variant, x: Decoding, events: seq<Event<Byte>>)
    requires D.Valid(x.state)
    ensures DecoderTotal(v, DecoderRun(v, x, events)) == DecoderTotal(v, x.(unread := x.unread + Supplied(events)))
    decreases |events|
  {
    hide D.Decode, D.Convert, DecoderStep, DecoderTotal;
    if events == [] {
      assert x.unread + [] == x.unread;
    } else {
      var y := DecoderStep(v, x, events[0]);
      DecoderStepKeepsTotal(v, x, events[0]);
      DecoderRunIsDecode(v, y, events[1..]);
      var more := Supplied(events[1..]);
      DecoderTotalExtends(v, y, x.(unread := x.unread + Supplied([events[0]])), more);
      assert Supplied([events[0]][1..]) == [];
      assert x.unread + Supplied(events) == x.unread + Supplied([events[0]]) + more;
    }
  }

  lemma DecoderTotalExtends(v: Variant, x: Decoding, y: Decoding, more: seq<Byte>)
    requires DecoderTotal(v, x) == DecoderTotal(v, y)
    ensures DecoderTotal(v, x.(unread := x.unread + more)) == DecoderTotal(v, y.(unread := y.unread + more))
  {
    hide D.Decode;
    D.DecodeConcat(v, x.state, x.unread, more);
    D.DecodeConcat(v, y.state, y.unread, more);
    var r := D.Decode(v, D.Decode(v, x.state, x.unread).state, more);
    Regroup(x.written, D.Decode(v, x.state, x.unread).units, y.written, D.Decode(v, y.state, y.unread).units, r.units);
  }

  // ----- Both ends

  /** Any text, encoded in any session that read all of it and was finished, then decoded in any
      session that was given those bytes and read all of them, comes out unchanged. */
  lemma EndToEnd(v: Variant, encoder: seq<Event<Unit>>, finish: seq<nat>, d: D.State, decoder: seq<Event<Byte>>)
    requires var sent := EncoderRun(v, Encoding(E.RESET, [], []), encoder);
             && sent.unread == []
             && Finish(v, sent.state, finish).0
             && Supplied(decoder) == sent.written + Finish(v, sent.state, finish).1
    requires !d.base64 && D.Valid(d)
    requires DecoderRun(v, Decoding(d, [], []), decoder).unread == []
    ensures DecoderRun(v, Decoding(d, [], []), decoder).written == Supplied(encoder)
  {
    hide E.Encode, D.Decode, EncoderRun, DecoderRun, Finish, E.ShiftBytes;
    var text := Supplied(encoder);
    var start := Encoding(E.RESET, [], []);
    var sent := EncoderRun(v, start, encoder);
    EncoderRunIsEncode(v, start, encoder);
    EncodeOfNothing(v, sent.state);
    FinishIsShift(v, sent.state, finish);
    assert [] + text == text && sent.written + [] == sent.written;
    var bytes := E.EncodeText(v, E.RESET, text);
    assert Supplied(decoder) == bytes;
    Utf7RoundTrip.RoundTrip(v, text, d);
    var received := DecoderRun(v, Decoding(d, [], []), decoder);
    DecoderRunIsDecode(v, Decoding(d, [], []), decoder);
    DecodeOfNothing(v, received.state);
    assert [] + bytes == bytes && received.written + [] == received.written;
  }

  lemma EncodeOfNothing(v: Variant, s: E.State)
    requires E.Valid(s)
    ensures E.Encode(v, s, []) == E.Run(s, [])
  {
  }

  lemma DecodeOfNothing(v: Variant, s: D.State)
    ensures D.Decode(v, s, []) == D.Run(s, [])
  {
  }
}
