/** UTF-7 as its standard describes it (Rules 1 to 3 of RFC 2152, section 5.1.3 of RFC 3501), with
    no streaming state: maximal runs of units that are not direct, each written as the base64 text
    (section 6.8 of RFC 2045, without '=') of its big-endian octets between the escape char and '-'.
    Alphabet, escape char and direct chars are the literal ones. The streaming encoder produces exactly
    this. */
module Utf7Reference {
  import opened Arithmetic
  import opened Utf7Alphabet
  import opened Utf7Standard
  import E = Utf7EncoderSpec

  type Octet = o: int | 0 <= o < 256

  function Octets(us: seq<Unit>): (os: seq<Octet>)
    ensures |os| == 2 * |us|
    decreases |us|
  {
    if us == [] then [] else [us[0] / 256, us[0] % 256] + Octets(us[1..])
  }

  /** Three octets make four chars; one or two left over make two or three. */
  function Base64(v: Variant, os: seq<Octet>): (text: seq<Byte>)
    ensures |text| == |os| / 3 * 4 + [0, 2, 3][|os| % 3]
    decreases |os|
  {
    if os == [] then []
    else if |os| == 1 then [Char64(v, os[0] / 4), Char64(v, os[0] % 4 * 16)]
    else if |os| == 2 then
      [Char64(v, os[0] / 4), Char64(v, os[0] % 4 * 16 + os[1] / 16), Char64(v, os[1] % 16 * 4)]
    else
      [Char64(v, os[0] / 4), Char64(v, os[0] % 4 * 16 + os[1] / 16),
       Char64(v, os[1] % 16 * 4 + os[2] / 64), Char64(v, os[2] % 64)] + Base64(v, os[3..])
  }

  /** Length of the longest prefix of units that are not direct. */
  function RunLength(v: Variant, us: seq<Unit>): (n: nat)
    ensures n <= |us|
    ensures forall i :: 0 <= i < n ==> !IsDirect(v, us[i])
    ensures n < |us| ==> IsDirect(v, us[n])
    decreases |us|
  {
    if us == [] || IsDirect(v, us[0]) then 0 else 1 + RunLength(v, us[1..])
  }

  function Reference(v: Variant, us: seq<Unit>): seq<Byte>
    decreases |us|
  {
    if us == [] then []
    else if IsDirect(v, us[0]) then DirectText(v, us[0]) + Reference(v, us[1..])
    else
      var n := RunLength(v, us);
      [Escape(v)] + Base64(v, Octets(us[..n])) + [Hyphen()] + Reference(v, us[n..])
  }

  const RUN := E.State(true, 0, 0)

  lemma EncodeTextCons(v: Variant, s: E.State, ch: Unit, us: seq<Unit>)
    requires E.Valid(s)
    ensures E.EncodeText(v, s, [ch] + us) == E.Step(v, s, ch).bytes + E.EncodeText(v, E.Step(v, s, ch).state, us)
  {
    hide E.Step;
    assert ([ch] + us)[1..] == us;
  }

  /** The end of a run: pending bits, '-', and the rest as from a reset encoder. */
  lemma EndOfRun(v: Variant, s: E.State, tail: seq<Unit>)
    requires E.Valid(s) && s.base64 && (tail == [] || v.DirectEncodable(tail[0]))
    ensures E.EncodeText(v, s, tail)
         == (if s.step != 0 then [v.ValueToChar(s.bits)] else []) + [DASH] + E.EncodeText(v, E.RESET, tail)
  {
    hide Variant.ValueToChar, Variant.DirectEncodable;
    if tail != [] {
      assert tail == [tail[0]] + tail[1..];
      EncodeTextCons(v, s, tail[0], tail[1..]);
      EncodeTextCons(v, E.RESET, tail[0], tail[1..]);
    }
  }

  lemma BeginOfRun(v: Variant, us: seq<Unit>)
    requires us != [] && !v.DirectEncodable(us[0])
    ensures E.EncodeText(v, E.RESET, us) == [v.EscChar()] + E.EncodeText(v, RUN, us)
  {
    assert E.Valid(E.RESET) && E.Valid(RUN);
    hide *;
    assert us == [us[0]] + us[1..];
    EncodeTextCons(v, E.RESET, us[0], us[1..]);
    EncodeTextCons(v, RUN, us[0], us[1..]);
    StepIntoRun(v, us[0]);
  }

  lemma StepIntoRun(v: Variant, ch: Unit)
    requires !v.DirectEncodable(ch)
    ensures var first, later := E.Step(v, E.RESET, ch), E.Step(v, RUN, ch);
            first.state == later.state && first.bytes == [v.EscChar()] + later.bytes
  {
    hide Variant.DirectEncodable, E.Base64Bytes;
  }

  /** One unit inside a run. */
  lemma UnitInRun(v: Variant, s: E.State, ch: Unit, us: seq<Unit>)
    requires E.Valid(s) && s.base64 && !v.DirectEncodable(ch)
    ensures E.EncodeText(v, s, [ch] + us) == E.Base64Bytes(v, s, ch) + E.EncodeText(v, E.Base64State(s, ch), us)
  {
    EncodeTextCons(v, s, ch, us);
  }

  lemma OctetsCons(a: Unit, us: seq<Unit>)
    ensures Octets([a] + us) == [a / 256, a % 256] + Octets(us)
  {
    assert ([a] + us)[1..] == us;
  }

  /** The sextets of a unit, cut once by units and once by octets: first, second and third position. */
  lemma SextetsFirst(a: Unit)
    ensures a / 256 / 4 == a / 1024
    ensures a / 256 % 4 * 16 + a % 256 / 16 == a / 16 % 64
    ensures a % 256 % 16 == a % 16
  {
    var h, l := a / 256, a % 256;
    QuotientIs(a, 16, 16 * h + l / 16, l % 16);
    QuotientIs(a, 1024, h / 4, 256 * (h % 4) + l);
    QuotientIs(16 * h + l / 16, 64, h / 4, h % 4 * 16 + l / 16);
  }

  lemma SextetsSecond(a: Unit)
    ensures a / 256 / 64 == a / 16384
    ensures a / 256 % 64 == a / 256 % 64
    ensures a % 256 / 4 == a / 4 % 64
    ensures a % 256 % 4 == a % 4
  {
    var h, l := a / 256, a % 256;
    assert a == 256 * h + l;
  }

  lemma SextetsThird(a: Unit)
    ensures a / 256 / 16 == a / 4096
    ensures a / 256 % 16 * 4 + a % 256 / 64 == a / 64 % 64
    ensures a % 256 % 64 == a % 64
  {
    var h, l := a / 256, a % 256;
    QuotientIs(a, 64, 4 * h + l / 64, l % 64);
    QuotientIs(a, 4096, h / 16, 256 * (h % 16) + l);
    QuotientIs(4 * h + l / 64, 64, h / 16, h % 16 * 4 + l / 64);
  }

  lemma Base64Group(v: Variant, x: Octet, y: Octet, z: Octet, os: seq<Octet>)
    ensures Base64(v, [x, y, z] + os)
         == [v.ValueToChar(x / 4), v.ValueToChar(x % 4 * 16 + y / 16),
             v.ValueToChar(y % 16 * 4 + z / 64), v.ValueToChar(z % 64)] + Base64(v, os)
  {
    hide Variant.ValueToChar, Char64;
    assert ([x, y, z] + os)[3..] == os;
  }

  lemma Base64Rest(v: Variant, x: Octet, y: Octet)
    ensures Base64(v, [x]) == [v.ValueToChar(x / 4), v.ValueToChar(x % 4 * 16)]
    ensures Base64(v, [x, y])
         == [v.ValueToChar(x / 4), v.ValueToChar(x % 4 * 16 + y / 16), v.ValueToChar(y % 16 * 4)]
  {
    hide Variant.ValueToChar, Char64;
  }

  lemma OctetsOfFew(a: Unit, b: Unit)
    ensures Octets([a]) == [a / 256, a % 256]
    ensures Octets([a, b]) == [a / 256, a % 256, b / 256] + [b % 256]
  {
    assert [a, b][1..] == [b];
  }

  lemma BytesOfTwo(v: Variant, a: Unit, b: Unit)
    ensures E.Base64Bytes(v, RUN, a) == [v.ValueToChar(a / 1024), v.ValueToChar(a / 16 % 64)]
    ensures E.Base64Bytes(v, E.State(true, a % 16 * 4, 1), b)
         == [v.ValueToChar(a % 16 * 4 + b / 16384), v.ValueToChar(b / 256 % 64), v.ValueToChar(b / 4 % 64)]
  {
    hide E.Base64Bytes, Variant.ValueToChar;
    E.Base64BytesByStep(v, RUN, a);
    E.Base64BytesByStep(v, E.State(true, a % 16 * 4, 1), b);
  }

  lemma Base64OfOne(v: Variant, a: Unit)
    ensures Base64(v, Octets([a])) == E.Base64Bytes(v, RUN, a) + [v.ValueToChar(a % 16 * 4)]
  {
    BytesOfTwo(v, a, a);
    hide *;
    SextetsFirst(a);
    OctetsOfFew(a, a);
    Base64Rest(v, a / 256, a % 256);
  }

  lemma Base64OfTwo(v: Variant, a: Unit, b: Unit)
    ensures Base64(v, Octets([a, b]))
         == E.Base64Bytes(v, RUN, a) + E.Base64Bytes(v, E.State(true, a % 16 * 4, 1), b) + [v.ValueToChar(b % 4 * 16)]
  {
    BytesOfTwo(v, a, b);
    hide *;
    SextetsFirst(a);
    SextetsSecond(b);
    OctetsOfFew(a, b);
    Base64Rest(v, b % 256, 0);
    Base64Group(v, a / 256, a % 256, b / 256, [b % 256]);
  }

  lemma OctetsOfThree(a: Unit, b: Unit, c: Unit, rest: seq<Unit>)
    ensures Octets([a, b, c] + rest)
         == [a / 256, a % 256, b / 256] + ([b % 256, c / 256, c % 256] + Octets(rest))
  {
    hide *;
    assert [a, b, c] + rest == [a] + ([b] + ([c] + rest));
    OctetsCons(a, [b] + ([c] + rest));
    OctetsCons(b, [c] + rest);
    OctetsCons(c, rest);
  }

  /** The eight sextets of three units, by groups of four. */
  lemma GroupsOfThree(v: Variant, a: Unit, b: Unit, c: Unit, rest: seq<Unit>)
    ensures Base64(v, Octets([a, b, c] + rest))
         == [v.ValueToChar(a / 1024), v.ValueToChar(a / 16 % 64),
             v.ValueToChar(a % 16 * 4 + b / 16384), v.ValueToChar(b / 256 % 64)]
            + ([v.ValueToChar(b / 4 % 64), v.ValueToChar(b % 4 * 16 + c / 4096),
                v.ValueToChar(c / 64 % 64), v.ValueToChar(c % 64)] + Base64(v, Octets(rest)))
  {
    hide *;
    var low := [b % 256, c / 256, c % 256] + Octets(rest);
    OctetsOfThree(a, b, c, rest);
    Base64Group(v, a / 256, a % 256, b / 256, low);
    Base64Group(v, b % 256, c / 256, c % 256, Octets(rest));
    SextetsFirst(a);
    SextetsSecond(b);
    SextetsThird(c);
  }

  lemma Base64OfThree(v: Variant, a: Unit, b: Unit, c: Unit, rest: seq<Unit>)
    ensures Base64(v, Octets([a, b, c] + rest))
         == E.Base64Bytes(v, RUN, a) + E.Base64Bytes(v, E.State(true, a % 16 * 4, 1), b)
            + E.Base64Bytes(v, E.State(true, b % 4 * 16, 2), c) + Base64(v, Octets(rest))
  {
    BytesOfThree(v, a, b, c);
    hide *;
    GroupsOfThree(v, a, b, c, rest);
    EightChars(v.ValueToChar(a / 1024), v.ValueToChar(a / 16 % 64),
               v.ValueToChar(a % 16 * 4 + b / 16384), v.ValueToChar(b / 256 % 64),
               v.ValueToChar(b / 4 % 64), v.ValueToChar(b % 4 * 16 + c / 4096),
               v.ValueToChar(c / 64 % 64), v.ValueToChar(c % 64), Base64(v, Octets(rest)));
  }

  lemma BytesOfThree(v: Variant, a: Unit, b: Unit, c: Unit)
    ensures E.Base64Bytes(v, RUN, a) == [v.ValueToChar(a / 1024), v.ValueToChar(a / 16 % 64)]
    ensures E.Base64Bytes(v, E.State(true, a % 16 * 4, 1), b)
         == [v.ValueToChar(a % 16 * 4 + b / 16384), v.ValueToChar(b / 256 % 64), v.ValueToChar(b / 4 % 64)]
    ensures E.Base64Bytes(v, E.State(true, b % 4 * 16, 2), c)
         == [v.ValueToChar(b % 4 * 16 + c / 4096), v.ValueToChar(c / 64 % 64), v.ValueToChar(c % 64)]
  {
    hide E.Base64Bytes, Variant.ValueToChar;
    BytesOfTwo(v, a, b);
    E.Base64BytesByStep(v, E.State(true, b % 4 * 16, 2), c);
  }

  lemma EightChars(p: Byte, q: Byte, r: Byte, s: Byte, t: Byte, u: Byte, x: Byte, y: Byte, rest: seq<Byte>)
    ensures [p, q, r, s] + ([t, u, x, y] + rest) == [p, q] + [r, s, t] + [u, x, y] + rest
  {
  }

  lemma OneUnitRun(v: Variant, a: Unit, tail: seq<Unit>)
    requires !v.DirectEncodable(a) && (tail == [] || v.DirectEncodable(tail[0]))
    ensures E.EncodeText(v, RUN, [a] + tail) == Base64(v, Octets([a])) + [DASH] + E.EncodeText(v, E.RESET, tail)
  {
    hide Variant.ValueToChar, Variant.DirectEncodable, E.Base64Bytes, E.EncodeText, Base64, Octets;
    UnitInRun(v, RUN, a, tail);
    EndOfRun(v, E.State(true, a % 16 * 4, 1), tail);
    Base64OfOne(v, a);
  }

  lemma TwoUnitRun(v: Variant, a: Unit, b: Unit, tail: seq<Unit>)
    requires !v.DirectEncodable(a) && !v.DirectEncodable(b) && (tail == [] || v.DirectEncodable(tail[0]))
    ensures E.EncodeText(v, RUN, [a, b] + tail) == Base64(v, Octets([a, b])) + [DASH] + E.EncodeText(v, E.RESET, tail)
  {
    hide Variant.ValueToChar, Variant.DirectEncodable, E.Base64Bytes, E.EncodeText, Base64, Octets;
    assert [a, b] + tail == [a] + ([b] + tail);
    UnitInRun(v, RUN, a, [b] + tail);
    UnitInRun(v, E.State(true, a % 16 * 4, 1), b, tail);
    EndOfRun(v, E.State(true, b % 4 * 16, 2), tail);
    Base64OfTwo(v, a, b);
  }

  /** After three units a run is where it began. */
  lemma ThreeUnitsOfRun(v: Variant, a: Unit, b: Unit, c: Unit, us: seq<Unit>)
    requires !v.DirectEncodable(a) && !v.DirectEncodable(b) && !v.DirectEncodable(c)
    ensures E.EncodeText(v, RUN, [a, b, c] + us)
         == E.Base64Bytes(v, RUN, a) + E.Base64Bytes(v, E.State(true, a % 16 * 4, 1), b)
            + E.Base64Bytes(v, E.State(true, b % 4 * 16, 2), c) + E.EncodeText(v, RUN, us)
  {
    hide Variant.ValueToChar, Variant.DirectEncodable, E.Base64Bytes, E.EncodeText;
    assert [a, b, c] + us == [a] + ([b] + ([c] + us));
    UnitInRun(v, RUN, a, [b] + ([c] + us));
    UnitInRun(v, E.State(true, a % 16 * 4, 1), b, [c] + us);
    UnitInRun(v, E.State(true, b % 4 * 16, 2), c, us);
  }

  lemma {:induction false} RunIsBase64(v: Variant, run: seq<Unit>, tail: seq<Unit>)
    requires forall i :: 0 <= i < |run| ==> !v.DirectEncodable(run[i])
    requires tail == [] || v.DirectEncodable(tail[0])
    ensures E.EncodeText(v, RUN, run + tail) == Base64(v, Octets(run)) + [DASH] + E.EncodeText(v, E.RESET, tail)
    decreases |run|
  {
    hide *;
    if run == [] {
      EmptyRun(v, tail);
      assert run + tail == tail;
    } else if |run| == 1 {
      assert run == [run[0]];
      OneUnitRun(v, run[0], tail);
    } else if |run| == 2 {
      assert run == [run[0], run[1]];
      TwoUnitRun(v, run[0], run[1], tail);
    } else {
      var rest := run[3..];
      assert run == [run[0], run[1], run[2]] + rest;
      assert run + tail == [run[0], run[1], run[2]] + (rest + tail);
      ThreeUnitsOfRun(v, run[0], run[1], run[2], rest + tail);
      RunIsBase64(v, rest, tail);
      Base64OfThree(v, run[0], run[1], run[2], rest);
    }
  }

  lemma EmptyRun(v: Variant, tail: seq<Unit>)
    requires tail == [] || v.DirectEncodable(tail[0])
    ensures E.EncodeText(v, RUN, tail) == Base64(v, Octets([])) + [DASH] + E.EncodeText(v, E.RESET, tail)
  {
    hide E.EncodeText;
    EndOfRun(v, RUN, tail);
  }

  lemma DirectFirst(v: Variant, ch: Unit, us: seq<Unit>)
    requires v.DirectEncodable(ch)
    ensures E.EncodeText(v, E.RESET, [ch] + us) == E.DirectBytes(v, ch) + E.EncodeText(v, E.RESET, us)
  {
    hide E.EncodeText;
    EncodeTextCons(v, E.RESET, ch, us);
  }

  /** The streaming encoder writes the text of the standard: runs are maximal, so no run is empty
      and none is followed directly by another. */
  lemma {:induction false} EncoderMeetsStandard(v: Variant, us: seq<Unit>)
    ensures E.EncodeText(v, E.RESET, us) == Reference(v, us)
    decreases |us|
  {
    hide *;
    if us == [] {
      NothingEncodes(v);
    } else if v.DirectEncodable(us[0]) {
      assert us == [us[0]] + us[1..];
      ReferenceOfDirect(v, us);
      DirectFirst(v, us[0], us[1..]);
      EncoderMeetsStandard(v, us[1..]);
    } else {
      var n := RunLength(v, us);
      assert us == us[..n] + us[n..];
      ReferenceOfRun(v, us);
      BeginOfRun(v, us);
      RunIsBase64(v, us[..n], us[n..]);
      EncoderMeetsStandard(v, us[n..]);
    }
  }

  lemma ReferenceOfDirect(v: Variant, us: seq<Unit>)
    requires us != [] && v.DirectEncodable(us[0])
    ensures Reference(v, us) == E.DirectBytes(v, us[0]) + Reference(v, us[1..])
    ensures 1 <= |E.DirectBytes(v, us[0])| <= 2
  {
  }

  lemma ReferenceOfRun(v: Variant, us: seq<Unit>)
    requires us != [] && !v.DirectEncodable(us[0])
    ensures var n := RunLength(v, us);
            n > 0 && Reference(v, us) == [v.EscChar()] + Base64(v, Octets(us[..n])) + [DASH] + Reference(v, us[n..])
  {
  }

  lemma NothingEncodes(v: Variant)
    ensures E.EncodeText(v, E.RESET, []) == Reference(v, []) == []
  {
  }

  /** The example of RFC 3501: the two characters of Taipei are "&U,BTFw-". */
  lemma StandardExample()
    ensures E.EncodeText(ModifiedUtf7, E.RESET, [0x53F0, 0x5317])
         == [Ascii('&'), Ascii('U'), Ascii(','), Ascii('B'), Ascii('T'), Ascii('F'), Ascii('w'), Ascii('-')]
  {
    hide *;
    ExampleRun();
    ExampleChars();
    TextOfRun(ModifiedUtf7, [0x53F0, 0x5317]);
  }

  lemma ExampleChars()
    ensures !ModifiedUtf7.DirectEncodable(0x53F0) && !ModifiedUtf7.DirectEncodable(0x5317)
    ensures ModifiedUtf7.EscChar() == Ascii('&') && DASH == Ascii('-')
  {
  }

  /** A text without direct chars is one run. */
  lemma TextOfRun(v: Variant, us: seq<Unit>)
    requires us != [] && forall i :: 0 <= i < |us| ==> !v.DirectEncodable(us[i])
    ensures E.EncodeText(v, E.RESET, us) == [v.EscChar()] + Base64(v, Octets(us)) + [DASH]
  {
    hide *;
    EncoderMeetsStandard(v, us);
    ReferenceOfRun(v, us);
    NothingEncodes(v);
    RunOfAll(v, us);
    assert us[..|us|] == us && us[|us|..] == [];
  }

  lemma ExampleRun()
    ensures Base64(ModifiedUtf7, Octets([0x53F0, 0x5317]))
         == [Ascii('U'), Ascii(','), Ascii('B'), Ascii('T')] + [Ascii('F'), Ascii('w')]
  {
    var v := ModifiedUtf7;
    hide Base64, Octets, Char64;
    OctetsOfFew(0x53F0, 0x5317);
    Base64Group(v, 0x53, 0xF0, 0x53, [0x17]);
    Base64Rest(v, 0x17, 0);
  }

  lemma RunOfAll(v: Variant, us: seq<Unit>)
    requires forall i :: 0 <= i < |us| ==> !v.DirectEncodable(us[i])
    ensures RunLength(v, us) == |us|
  {
  }

  /** At most five bytes per unit, the factor the encoder announces to its base class. */
  lemma {:induction false} FiveBytesPerUnit(v: Variant, us: seq<Unit>)
    ensures |E.EncodeText(v, E.RESET, us)| <= 5 * |us|
  {
    EncoderMeetsStandard(v, us);
    ReferenceLength(v, us);
  }

  lemma {:induction false} ReferenceLength(v: Variant, us: seq<Unit>)
    ensures |Reference(v, us)| <= 5 * |us|
    decreases |us|
  {
    hide *;
    if us == [] {
      NothingEncodes(v);
    } else if v.DirectEncodable(us[0]) {
      ReferenceOfDirect(v, us);
      ReferenceLength(v, us[1..]);
    } else {
      var n := RunLength(v, us);
      ReferenceOfRun(v, us);
      ReferenceLength(v, us[n..]);
      RunSize(v, us[..n]);
    }
  }

  lemma RunSize(v: Variant, run: seq<Unit>)
    requires run != []
    ensures |Base64(v, Octets(run))| + 2 <= 5 * |run|
  {
    hide Base64, Octets;
    var n := |Octets(run)|;
    assert [0, 2, 3][n % 3] <= 3;
  }
}
