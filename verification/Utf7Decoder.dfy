/** nsBasicUTF7Decoder: the streaming decoder over a caller's buffer. `cap` is the declared room
    (aDestLength). The array must hold whatever the code writes, which can be more than `cap`: the
    unit for an escaped escape char is written without looking at the room left. */
module Utf7Decoder {
  import opened Utf7Alphabet
  import opened Utf7DecoderSpec
  import opened Buffers

  class BasicUtf7Decoder {
    const variant: Variant
    var base64: bool  // mEncoding
    var encBits: nat
    var encStep: nat
    var freshBase64: bool

    ghost function Current(): State
      reads this
    {
      State(base64, encBits, encStep, freshBase64)
    }

    /** mFreshBase64 is left uninitialised, hence arbitrary. */
    constructor (variant: Variant)
      ensures this.variant == variant && Current() == State(false, 0, 0, freshBase64)
    {
      this.variant := variant;
      base64, encBits, encStep := false, 0, 0;
      freshBase64 := *;
    }

    method Reset()
      modifies this
      ensures Current() == State(false, 0, 0, old(freshBase64))
    {
      base64, encBits, encStep := false, 0, 0;
    }

    method DecodeDirect(src: seq<Byte>, dest: array<Unit>, start: nat, cap: int)
      returns (status: Status, consumed: nat, written: nat)
      requires start <= dest.Length && start + cap <= dest.Length
      modifies dest
      ensures var o := DirectRun(variant, Current(), src, cap);
              && status == o.status && consumed == o.consumed && written == |o.units|
              && Wrote(old(dest[..]), dest[..], start, o.units)
    {
      hide Wrote, Prepend;
      status, consumed, written := Ok, 0, 0;
      ghost var units: seq<Unit> := [];
      NothingWritten(dest[..], start);
      assert src[0..] == src;
      PrependNothing(DirectRun(variant, Current(), src, cap));
      while consumed < |src|
        invariant consumed <= |src| && written == |units| == consumed && start + written <= dest.Length
        invariant Wrote(old(dest[..]), dest[..], start, units)
        invariant status == Ok
        invariant DirectRun(variant, Current(), src, cap)
               == Prepend(consumed, units, DirectRun(variant, Current(), src[consumed..], cap - written))
      {
        var ch := src[consumed];
        ghost var rest := src[consumed..];
        if ch == variant.EscChar() {
          status := IllegalInput;
          break;
        }
        if written >= cap {
          status := MoreOutput;
          break;
        }
        ghost var was: seq<Unit>, at := dest[..], start + written;
        dest[start + written] := Widen(ch);
        WroteOne(was, at, Widen(ch));
        assert dest[..] == was[at := Widen(ch)];
        WroteMore(old(dest[..]), was, dest[..], start, units, [Widen(ch)]);
        assert rest[1..] == src[consumed + 1..];
        PrependTwice(consumed, units, 1, [Widen(ch)], DirectRun(variant, Current(), rest[1..], cap - written - 1));
        units := units + [Widen(ch)];
        consumed := consumed + 1;
        written := written + 1;
      }
      PrependFields(consumed, units, DirectRun(variant, Current(), src[consumed..], cap - written));
      assert units + [] == units;
    }

    /** The eight-way switch of DecodeBase64: one sextet, if there is room for the unit it completes. */
    method AcceptSextet(value: nat, dest: array<Unit>, start: nat, room: int)
      returns (status: Status, written: nat)
      requires Valid(Current()) && base64 && !freshBase64 && value < 64
      requires start <= dest.Length && start + room <= dest.Length
      modifies this, dest
      ensures status == if CompletesUnit(old(encStep)) && room <= 0 then MoreOutput else Ok
      ensures status == MoreOutput ==> written == 0 && Current() == old(Current()) && dest[..] == old(dest[..])
      ensures status == Ok ==>
                var one := Accept(old(Current()), value);
                written == |one.units| && Current() == one.state && Wrote(old(dest[..]), dest[..], start, one.units)
    {
      assert encStep < 8;
      hide Wrote, Valid, LowestBit;
      ghost var was: seq<Unit> := dest[..];
      NothingWritten(was, start);
      status, written := Ok, 0;
      match encStep {
        case 0 => encBits := value * 0x400;
        case 1 => encBits := encBits + value * 0x10;
        case 2 =>
          if room <= 0 { return MoreOutput, 0; }
          encBits := encBits + value / 4;
          dest[start] := ToUnit(encBits);
          written := 1;
          encBits := value % 4 * 0x4000;
        case 3 => encBits := encBits + value * 0x100;
        case 4 => encBits := encBits + value * 4;
        case 5 =>
          if room <= 0 { return MoreOutput, 0; }
          encBits := encBits + value / 16;
          dest[start] := ToUnit(encBits);
          written := 1;
          encBits := value % 16 * 0x1000;
        case 6 => encBits := encBits + value * 0x40;
        case _ =>
          if room <= 0 { return MoreOutput, 0; }
          encBits := encBits + value;
          dest[start] := ToUnit(encBits);
          written := 1;
          encBits := 0;
      }
      encStep := (encStep + 1) % 8;
      if written == 1 {
        WroteOne(was, start, dest[start]);
        assert dest[..] == was[start := dest[start]];
      }
    }

    method DecodeBase64(src: seq<Byte>, dest: array<Unit>, start: nat, cap: int)
      returns (status: Status, consumed: nat, written: nat)
      requires Valid(Current()) && base64 && !freshBase64
      requires start <= dest.Length && start + cap <= dest.Length
      modifies this, dest
      ensures var o := Base64Run(variant, old(Current()), src, cap);
              && status == o.status && consumed == o.consumed && written == |o.units| && Current() == o.state
              && Wrote(old(dest[..]), dest[..], start, o.units)
    {
      hide Wrote, Prepend, Valid, Accept, Base64Run, CompletesUnit, Variant.CharToValue;
      status, consumed, written := Ok, 0, 0;
      ghost var units: seq<Unit>, total := [], Base64Run(variant, Current(), src, cap);
      NothingWritten(dest[..], start);
      assert src[0..] == src;
      PrependNothing(total);
      while consumed < |src|
        invariant consumed <= |src| && written == |units| && start + written <= dest.Length
        invariant Wrote(old(dest[..]), dest[..], start, units)
        invariant status == Ok && Valid(Current()) && base64 && !freshBase64
        invariant total == Prepend(consumed, units, Base64Run(variant, Current(), src[consumed..], cap - written))
      {
        Base64RunTurn(variant, total, Current(), src, cap, consumed, units);
        var value := variant.CharToValue(src[consumed]);
        if value > 0xff {
          status := IllegalInput;
          break;
        }
        ghost var was: seq<Unit>, one := dest[..], Accept(Current(), value);
        var bcw;
        status, bcw := AcceptSextet(value, dest, start + written, cap - written);
        if status != Ok { break; }
        WroteMore(old(dest[..]), was, dest[..], start, units, one.units);
        units := units + one.units;
        consumed := consumed + 1;
        written := written + bcw;
      }
      if status == Ok { Base64RunEnd(variant, total, Current(), src, cap, units); }
    }

    /** The body of ConvertNoBuff's loop. */
    method ConvertTurn(src: seq<Byte>, dest: array<Unit>, start: nat, cap: int)
      returns (status: Status, consumed: nat, written: nat)
      requires Valid(Current()) && src != []
      requires start <= dest.Length && start + cap <= dest.Length
      requires start + |OneTurn(variant, Current(), src, cap).units| <= dest.Length
      modifies this, dest
      ensures var o := OneTurn(variant, old(Current()), src, cap);
              && status == o.status && consumed == o.consumed && written == |o.units| && Current() == o.state
              && Wrote(old(dest[..]), dest[..], start, o.units)
    {
      hide Wrote;
      ghost var was: seq<Unit>, turn := dest[..], OneTurn(variant, Current(), src, cap);
      if !base64 {
        status, consumed, written := DecodeDirect(src, dest, start, cap);
      } else if freshBase64 && src[0] == DASH {
        var escape: Unit := variant.EscChar();
        dest[start] := escape;
        consumed, written, status := 0, 1, IllegalInput;
        WroteOne(was, start, escape);
        assert dest[..] == was[start := escape] && turn.units == [escape];
      } else {
        freshBase64 := false;
        status, consumed, written := DecodeBase64(src, dest, start, cap);
      }
      if status == IllegalInput {
        if !base64 {
          base64, freshBase64, encBits, encStep := true, true, 0, 0;
          consumed := consumed + 1;
          status := Ok;
        } else {
          base64 := false;
          status := Ok;
          if src[consumed] == DASH { consumed := consumed + 1; }
        }
      }
    }

    /** ConvertNoBuff. */
    method ConvertNoBuff(src: seq<Byte>, dest: array<Unit>, start: nat, cap: nat)
      returns (status: Status, consumed: nat, written: nat)
      requires Valid(Current())
      requires start + cap <= dest.Length
      requires EscapeAtFullBuffer(variant, Current(), src, cap) ==> start + |src| <= dest.Length
      modifies this, dest
      ensures var o := Convert(variant, old(Current()), src, cap);
              && status == o.status && consumed == o.consumed && written == |o.units| && Current() == o.state
              && Wrote(old(dest[..]), dest[..], start, o.units)
      ensures Valid(Current()) && written <= consumed
      ensures status != IllegalInput && (status == Ok <==> consumed == |src|)
      ensures written > cap <==> EscapeAtFullBuffer(variant, old(Current()), src, cap)
    {
      hide Wrote, Convert, OneTurn, Prepend, EscapeAtFullBuffer, Valid, Continues, Decode, DirectRun, Base64Run,
        FreshAndFull, Variant.EscChar, Variant.CharToValue;
      status, consumed, written := Ok, 0, 0;
      ghost var units: seq<Unit> := [];
      ghost var total := Convert(variant, Current(), src, cap);
      ConvertResumes(variant, Current(), src, cap);
      OverrunExactly(variant, Current(), src, cap);
      NothingWritten(dest[..], start);
      assert src[0..] == src;
      PrependNothing(total);
      while consumed < |src|
        invariant consumed <= |src| && written == |units| && start + written <= dest.Length
        invariant Wrote(old(dest[..]), dest[..], start, units)
        invariant status == Ok && Valid(Current())
        invariant total == Prepend(consumed, units, Convert(variant, Current(), src[consumed..], cap - written))
        decreases |src| - consumed, base64
      {
        var rest := src[consumed..];
        ghost var was: seq<Unit>, turn := dest[..], OneTurn(variant, Current(), rest, cap - written);
        ConvertOneTurn(variant, Current(), rest, cap - written);
        NextTurn(variant, total, consumed, units, Current(), src, cap, turn);
        var bcr, bcw;
        status, bcr, bcw := ConvertTurn(rest, dest, start + written, cap - written);
        WroteMore(old(dest[..]), was, dest[..], start, units, turn.units);
        consumed := consumed + bcr;
        written := written + bcw;
        units := units + turn.units;
        if status != Ok { return; }
      }
      ConvertOfNothing(variant, Current(), src, cap - written, units);
    }
  }
}
