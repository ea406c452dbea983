/** Decoding any text of the standard (Rules 1 to 3 of RFC 2152), not only the encoder's own: direct
    chars may have been put into base64, and a run may end without '-' before a char outside the
    alphabet or at the end of the text. */
module Utf7AnyText {
  import opened Utf7Alphabet
  import opened Utf7Standard
  import opened Utf7Reference
  import opened Utf7RoundTrip
  import E = Utf7EncoderSpec
  import D = Utf7DecoderSpec

  /** A char that stands for itself, the escaped escape char, or a run of base64 with or without '-'. */
  datatype Piece = Direct(b: Byte) | Escaped | Run(us: seq<Unit>, dash: bool)

  function PieceText(v: Variant, p: Piece): seq<Byte> {
    match p
    case Direct(b) => [b]
    case Escaped => [Escape(v)] + [Hyphen()]
    case Run(us, dash) => [Escape(v)] + (Base64(v, Octets(us)) + if dash then [Hyphen()] else [])
  }

  function PieceUnits(v: Variant, p: Piece): seq<Unit> {
    match p
    case Direct(b) => [if b >= 0 then b else b + 0x10000]
    case Escaped => [Escape(v)]
    case Run(us, _) => us
  }

  function Text(v: Variant, ps: seq<Piece>): seq<Byte> {
    if ps == [] then [] else PieceText(v, ps[0]) + Text(v, ps[1..])
  }

  function Meaning(v: Variant, ps: seq<Piece>): seq<Unit> {
    if ps == [] then [] else PieceUnits(v, ps[0]) + Meaning(v, ps[1..])
  }

  /** What may follow a run without '-'. */
  predicate EndsRun(v: Variant, text: seq<Byte>) {
    text == [] || (text[0] != Hyphen() && forall value: nat :: value < 64 ==> text[0] != Char64(v, value))
  }

  predicate IsText(v: Variant, ps: seq<Piece>) {
    ps == [] ||
    (&& (match ps[0]
         case Direct(b) => b != Escape(v)
         case Escaped => true
         case Run(us, dash) => us != [] && (dash || EndsRun(v, Text(v, ps[1..]))))
     && IsText(v, ps[1..]))
  }

  // ----- One run

  /** The base64 chars of some units, whether they could be written directly or not, without the pending
      bits at the end. */
  function RunBytes(v: Variant, e: E.State, us: seq<Unit>): seq<Byte>
    requires E.Valid(e) && e.base64
    decreases |us|
  {
    if us == [] then [] else E.Base64Bytes(v, e, us[0]) + RunBytes(v, E.Base64State(e, us[0]), us[1..])
  }

  function RunState(e: E.State, us: seq<Unit>): (t: E.State)
    requires E.Valid(e) && e.base64
    ensures E.Valid(t) && t.base64
    decreases |us|
  {
    if us == [] then e else RunState(E.Base64State(e, us[0]), us[1..])
  }

  function Flush(v: Variant, e: E.State): seq<Byte> {
    if e.step != 0 then [v.ValueToChar(e.bits)] else []
  }

  lemma RunBytesCons(v: Variant, e: E.State, a: Unit, us: seq<Unit>)
    requires E.Valid(e) && e.base64
    ensures RunBytes(v, e, [a] + us) == E.Base64Bytes(v, e, a) + RunBytes(v, E.Base64State(e, a), us)
    ensures RunState(e, [a] + us) == RunState(E.Base64State(e, a), us)
  {
    hide E.Base64Bytes, E.Base64State, E.Valid;
    assert ([a] + us)[1..] == us;
  }

  lemma NoMoreUnits(v: Variant, e: E.State)
    requires E.Valid(e) && e.base64
    ensures RunBytes(v, e, []) == [] && RunState(e, []) == e
  {
  }

  lemma RunOfOne(v: Variant, a: Unit)
    ensures RunBytes(v, RUN, [a]) == E.Base64Bytes(v, RUN, a) && RunState(RUN, [a]) == E.State(true, a % 16 * 4, 1)
  {
    hide E.Base64Bytes, RunBytes, RunState;
    assert [a] == [a] + [];
    RunBytesCons(v, RUN, a, []);
    NoMoreUnits(v, E.State(true, a % 16 * 4, 1));
  }

  lemma RunOfTwo(v: Variant, a: Unit, b: Unit)
    ensures RunBytes(v, RUN, [a, b]) == E.Base64Bytes(v, RUN, a) + E.Base64Bytes(v, E.State(true, a % 16 * 4, 1), b)
    ensures RunState(RUN, [a, b]) == E.State(true, b % 4 * 16, 2)
  {
    hide E.Base64Bytes, RunBytes, RunState;
    assert [a, b] == [a] + ([b] + []);
    RunBytesCons(v, RUN, a, [b] + []);
    RunBytesCons(v, E.State(true, a % 16 * 4, 1), b, []);
    NoMoreUnits(v, E.State(true, b % 4 * 16, 2));
  }

  lemma RunOfThree(v: Variant, a: Unit, b: Unit, c: Unit, rest: seq<Unit>)
    ensures RunBytes(v, RUN, [a, b, c] + rest)
         == E.Base64Bytes(v, RUN, a) + E.Base64Bytes(v, E.State(true, a % 16 * 4, 1), b)
            + E.Base64Bytes(v, E.State(true, b % 4 * 16, 2), c) + RunBytes(v, RUN, rest)
    ensures RunState(RUN, [a, b, c] + rest) == RunState(RUN, rest)
  {
    hide E.Base64Bytes, RunBytes, RunState;
    assert [a, b, c] + rest == [a] + ([b] + ([c] + rest));
    RunBytesCons(v, RUN, a, [b] + ([c] + rest));
    RunBytesCons(v, E.State(true, a % 16 * 4, 1), b, [c] + rest);
    RunBytesCons(v, E.State(true, b % 4 * 16, 2), c, rest);
  }

  /** The base64 text of the standard is what the encoder's table makes unit by unit, and its pending
      bits. */
  lemma {:induction false} Base64IsRun(v: Variant, us: seq<Unit>)
    ensures Base64(v, Octets(us)) == RunBytes(v, RUN, us) + Flush(v, RunState(RUN, us))
    decreases |us|
  {
    hide E.Base64Bytes, Variant.ValueToChar, Base64, Octets, RunBytes, RunState;
    if us == [] {
      NoUnits(v);
    } else if |us| == 1 {
      assert us == [us[0]];
      RunOfOne(v, us[0]);
      Base64OfOne(v, us[0]);
    } else if |us| == 2 {
      assert us == [us[0], us[1]];
      RunOfTwo(v, us[0], us[1]);
      Base64OfTwo(v, us[0], us[1]);
    } else {
      assert us == [us[0], us[1], us[2]] + us[3..];
      RunOfThree(v, us[0], us[1], us[2], us[3..]);
      Base64OfThree(v, us[0], us[1], us[2], us[3..]);
      Base64IsRun(v, us[3..]);
    }
  }

  lemma NoUnits(v: Variant)
    ensures Base64(v, Octets([])) == RunBytes(v, RUN, []) + Flush(v, RunState(RUN, []))
  {
  }

  /** Reading the chars of a run keeps encoder and decoder in step. */
  lemma {:induction false} RunSynced(v: Variant, e: E.State, d: D.State, pending: seq<Unit>, us: seq<Unit>)
    returns (pending': seq<Unit>)
    requires E.Valid(e) && e.base64 && Synced(e, d, pending) && (us == [] ==> !d.freshRun)
    ensures var r := D.Decode(v, d, RunBytes(v, e, us));
            && Synced(RunState(e, us), r.state, pending') && !r.state.freshRun
            && pending + us == r.units + pending'
    decreases |us|
  {
    hide E.Base64Bytes, E.Base64State, D.Step, Synced, E.Valid;
    if us == [] {
      pending' := pending;
    } else {
      var next := E.Base64State(e, us[0]);
      UnitSynced(v, e, d, pending, us[0]);
      var r := D.Decode(v, d, E.Base64Bytes(v, e, us[0]));
      var middle := if next.step != 0 then [us[0]] else [];
      pending' := RunSynced(v, next, r.state, middle, us[1..]);
      D.DecodeConcat(v, d, E.Base64Bytes(v, e, us[0]), RunBytes(v, next, us[1..]));
      var tail := D.Decode(v, r.state, RunBytes(v, next, us[1..]));
      Regroup(pending, us[0], us[1..], r.units, middle, tail.units, pending');
      assert us == [us[0]] + us[1..];
    }
  }

  /** The pending bits complete the pending unit. */
  lemma FlushSynced(v: Variant, e: E.State, d: D.State, pending: seq<Unit>)
    requires E.Valid(e) && e.base64 && Synced(e, d, pending) && !d.freshRun
    ensures var r := D.Decode(v, d, Flush(v, e));
            r.units == pending && r.state.base64 && !r.state.freshRun
  {
    hide Variant.ValueToChar, Variant.CharToValue;
    if e.step != 0 {
      StepOfSextet(v, d, e.bits);
      DecodeOne(v, d, v.ValueToChar(e.bits));
      FlushReleases(pending[0]);
    }
  }

  /** A run, read from its first base64 char on. */
  lemma RunDecodes(v: Variant, us: seq<Unit>)
    requires us != []
    ensures var r := D.Decode(v, D.State(true, 0, 0, true), Base64(v, Octets(us)));
            r.units == us && r.state.base64 && !r.state.freshRun
  {
    var d := D.State(true, 0, 0, true);
    assert Synced(RUN, d, []) && E.Valid(RUN);
    hide *;
    Base64IsRun(v, us);
    var pending := RunSynced(v, RUN, d, [], us);
    var last := RunState(RUN, us);
    var r := D.Decode(v, d, RunBytes(v, RUN, us));
    FlushSynced(v, last, r.state, pending);
    D.DecodeConcat(v, d, RunBytes(v, RUN, us), Flush(v, last));
    assert [] + us == us;
  }

  // ----- Whole texts

  /** A char outside the alphabet that is not '-' is read as in direct mode. */
  lemma LeavesRun(v: Variant, s: D.State, bs: seq<Byte>)
    requires s.base64 && !s.freshRun && EndsRun(v, bs)
    ensures D.Decode(v, s, bs).units == D.Decode(v, D.State(false, 0, 0, false), bs).units
  {
    hide Variant.CharToValue, Variant.EscChar, Char64;
    if bs != [] { OutsideAlphabet(v, bs[0]); }
    if bs != [] && bs[0] != v.EscChar() {
      DirectStatesAgree(v, D.Step(v, s, bs[0]).state, D.State(false, 0, 0, false), bs[1..]);
    }
  }

  /** After '-' a run is over. */
  lemma DashLeavesRun(v: Variant, s: D.State)
    requires s.base64 && !s.freshRun
    ensures var r := D.Decode(v, s, [DASH]); r.units == [] && !r.state.base64
  {
    DashEndsRun(v);
    DecodeOne(v, s, DASH);
  }

  /** One piece in front of the rest of a text. */
  lemma PieceDecodes(v: Variant, d: D.State, p: Piece, rest: seq<Byte>)
    requires !d.base64 && (p.Direct? ==> p.b != v.EscChar())
    requires p.Run? ==> p.us != [] && (p.dash || EndsRun(v, rest))
    ensures D.Decode(v, d, PieceText(v, p) + rest).units
         == PieceUnits(v, p) + D.Decode(v, D.State(false, 0, 0, false), rest).units
  {
    hide D.Decode, Base64, Octets, Variant.CharToValue, EndsRun;
    match p
    case Direct(b) =>
      D.DecodeConcat(v, d, [b], rest);
      DecodeOne(v, d, b);
      DirectStatesAgree(v, D.Decode(v, d, [b]).state, D.State(false, 0, 0, false), rest);
    case Escaped =>
      var text := [v.EscChar(), DASH];
      D.DecodeConcat(v, d, text, rest);
      assert text == [v.EscChar()] + [DASH];
      DecodeCons(v, d, v.EscChar(), [DASH]);
      DecodeOne(v, D.State(true, 0, 0, true), DASH);
      DirectStatesAgree(v, D.Decode(v, d, text).state, D.State(false, 0, 0, false), rest);
    case Run(us, dash) =>
      RunPieceDecodes(v, d, us, dash, rest);
  }

  lemma RunText(v: Variant, us: seq<Unit>, dash: bool, rest: seq<Byte>)
    ensures PieceText(v, Run(us, dash)) + rest
         == [v.EscChar()] + (Base64(v, Octets(us)) + ((if dash then [DASH] else []) + rest))
  {
    hide Base64, Octets;
  }

  lemma RunPieceDecodes(v: Variant, d: D.State, us: seq<Unit>, dash: bool, rest: seq<Byte>)
    requires !d.base64 && us != [] && (dash || EndsRun(v, rest))
    ensures D.Decode(v, d, PieceText(v, Run(us, dash)) + rest).units
         == us + D.Decode(v, D.State(false, 0, 0, false), rest).units
  {
    hide D.Decode, Base64, Octets, Variant.CharToValue, EndsRun, PieceText;
    var start, chars := D.State(true, 0, 0, true), Base64(v, Octets(us));
    var tail := (if dash then [DASH] else []) + rest;
    RunText(v, us, dash, rest);
    DecodeCons(v, d, v.EscChar(), chars + tail);
    RunDecodes(v, us);
    D.DecodeConcat(v, start, chars, tail);
    var inside := D.Decode(v, start, chars).state;
    if dash {
      DashLeavesRun(v, inside);
      D.DecodeConcat(v, inside, [DASH], rest);
      DirectStatesAgree(v, D.Decode(v, inside, [DASH]).state, D.State(false, 0, 0, false), rest);
    } else {
      assert tail == rest;
      LeavesRun(v, inside, rest);
    }
  }

  /** Any text of the standard decodes to the units it stands for, from any direct state. */
  lemma {:induction false} AnyTextDecodes(v: Variant, d: D.State, ps: seq<Piece>)
    requires !d.base64 && IsText(v, ps)
    ensures D.Decode(v, d, Text(v, ps)).units == Meaning(v, ps)
    decreases |ps|
  {
    hide D.Step, PieceText, PieceUnits, EndsRun;
    if ps != [] {
      PieceDecodes(v, d, ps[0], Text(v, ps[1..]));
      AnyTextDecodes(v, D.State(false, 0, 0, false), ps[1..]);
    }
  }

  // ----- The encoder's own text

  /** The pieces the encoder chooses: maximal runs, all ended by '-'. */
  function Canonical(v: Variant, us: seq<Unit>): seq<Piece>
    decreases |us|
  {
    if us == [] then []
    else if v.DirectEncodable(us[0]) then [DirectPiece(v, us[0])] + Canonical(v, us[1..])
    else
      var n := RunLength(v, us);
      [Run(us[..n], true)] + Canonical(v, us[n..])
  }

  function DirectPiece(v: Variant, ch: Unit): Piece
    requires v.DirectEncodable(ch)
  {
    if ch == v.EscChar() then Escaped else Direct(ch)
  }

  lemma DirectPieceIs(v: Variant, ch: Unit)
    requires v.DirectEncodable(ch)
    ensures PieceText(v, DirectPiece(v, ch)) == E.DirectBytes(v, ch) && PieceUnits(v, DirectPiece(v, ch)) == [ch]
    ensures DirectPiece(v, ch).Direct? ==> DirectPiece(v, ch).b != v.EscChar()
    ensures !DirectPiece(v, ch).Run?
  {
  }

  /** The text of the standard's encoder is one of these texts. */
  lemma {:induction false} ReferenceIsText(v: Variant, us: seq<Unit>)
    ensures var ps := Canonical(v, us);
            Text(v, ps) == Reference(v, us) && IsText(v, ps) && Meaning(v, ps) == us
    decreases |us|
  {
    hide *;
    if us == [] {
      NothingIsText(v);
    } else if v.DirectEncodable(us[0]) {
      var p, ps := DirectPiece(v, us[0]), Canonical(v, us[1..]);
      CanonicalStep(v, us);
      ReferenceOfDirect(v, us);
      DirectPieceIs(v, us[0]);
      ReferenceIsText(v, us[1..]);
      TextCons(v, p, ps);
      assert us == [us[0]] + us[1..];
    } else {
      var n := RunLength(v, us);
      var p, ps := Run(us[..n], true), Canonical(v, us[n..]);
      CanonicalStep(v, us);
      ReferenceOfRun(v, us);
      RunPieceIs(v, us[..n]);
      ReferenceIsText(v, us[n..]);
      TextCons(v, p, ps);
      assert us == us[..n] + us[n..];
    }
  }

  lemma NothingIsText(v: Variant)
    ensures Text(v, Canonical(v, [])) == Reference(v, []) && IsText(v, Canonical(v, []))
        && Meaning(v, Canonical(v, [])) == []
  {
  }

  lemma CanonicalStep(v: Variant, us: seq<Unit>)
    requires us != []
    ensures Canonical(v, us) ==
            if v.DirectEncodable(us[0]) then [DirectPiece(v, us[0])] + Canonical(v, us[1..])
            else
              var n := RunLength(v, us);
              [Run(us[..n], true)] + Canonical(v, us[n..])
  {
  }

  lemma RunPieceIs(v: Variant, us: seq<Unit>)
    ensures PieceText(v, Run(us, true)) == [v.EscChar()] + Base64(v, Octets(us)) + [DASH]
    ensures PieceUnits(v, Run(us, true)) == us
  {
    hide Base64, Octets;
  }

  /** A piece that needs nothing of what follows, in front of a text. */
  lemma TextCons(v: Variant, p: Piece, ps: seq<Piece>)
    requires (p.Direct? ==> p.b != v.EscChar()) && (p.Run? ==> p.us != [] && p.dash)
    ensures Text(v, [p] + ps) == PieceText(v, p) + Text(v, ps)
    ensures Meaning(v, [p] + ps) == PieceUnits(v, p) + Meaning(v, ps)
    ensures IsText(v, [p] + ps) <==> IsText(v, ps)
  {
    hide PieceText, PieceUnits, EndsRun;
    assert ([p] + ps)[1..] == ps;
  }
}
