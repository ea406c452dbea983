/** nsBasicUTF7Encoder: the streaming encoder over a caller's buffer. `cap` is the declared room
    (aDestLength); for Modified UTF-7 the array must be one byte longer than declared, because the
    code can write one byte more than it was given. */
module Utf7Encoder {
  import opened Utf7Alphabet
  import opened Utf7EncoderSpec
  import opened Buffers

  class BasicUtf7Encoder {
    const variant: Variant
    var base64: bool  // mEncoding
    var encBits: nat
    var encStep: nat

    ghost function Current(): State
      reads this
    {
      State(base64, encBits, encStep)
    }

    constructor (variant: Variant)
      ensures this.variant == variant && Current() == RESET
    {
      this.variant := variant;
      base64, encBits, encStep := false, 0, 0;
    }

    method Reset()
      modifies this
      ensures Current() == RESET
    {
      base64, encBits, encStep := false, 0, 0;
    }

    method ShiftEncoding(toBase64: bool, dest: array<Byte>, start: nat, cap: int)
      returns (status: Status, written: nat)
      requires Valid(Current())
      requires start <= dest.Length && start + cap <= dest.Length
      requires cap >= 0 || !base64
      modifies this, dest
      ensures var o := ShiftBounded(variant, old(Current()), toBase64, cap);
              && status == o.status && written == |o.bytes| && Current() == o.state
              && Wrote(old(dest[..]), dest[..], start, o.bytes)
    {
      hide Wrote, Variant.ValueToChar;
      ghost var was: seq<Byte>, flush: seq<Byte> := dest[..], [];
      NothingWritten(was, start);
      if toBase64 == base64 {
        return Ok, 0;
      }
      var pos := start;
      var end := start + cap;
      if encStep != 0 {
        if pos >= end { return MoreOutput, 0; }
        dest[pos] := variant.ValueToChar(encBits);
        flush := [dest[pos]];
        WroteOne(was, pos, dest[pos]);
        assert dest[..] == was[pos := dest[pos]];
        pos := pos + 1;
        encStep, encBits := 0, 0;
      }
      if pos >= end {
        status := MoreOutput;
      } else {
        ghost var now: seq<Byte> := dest[..];
        if !toBase64 {
          dest[pos] := DASH;
          encStep, encBits := 0, 0;
        } else {
          dest[pos] := variant.EscChar();
        }
        WroteOne(now, pos, dest[pos]);
        assert dest[..] == now[pos := dest[pos]];
        WroteMore(was, now, dest[..], start, flush, [dest[pos]]);
        pos := pos + 1;
        base64 := toBase64;
        status := Ok;
      }
      written := pos - start;
    }

    /** The loop body of EncodeDirect. In front of the two bytes of the escape char it asks for one. */
    method EncodeDirectUnit(ch: Unit, dest: array<Byte>, at: nat, room: int) returns (status: Status, written: nat)
      requires Valid(Current()) && !base64 && variant.DirectEncodable(ch)
      requires at <= dest.Length && (room >= 0 ==> at + room < dest.Length + if variant.Utf7? then 1 else 0)
      modifies dest
      ensures status == if room < 1 then MoreOutput else Ok
      ensures status == Ok ==>
                && written == |UnitBytes(variant, Current(), ch)|
                && Wrote(old(dest[..]), dest[..], at, UnitBytes(variant, Current(), ch))
      ensures status != Ok ==> dest[..] == old(dest[..])
    {
      hide Variant.DirectEncodable, Wrote, UnitBytes, Valid;
      ghost var was: seq<Byte> := dest[..];
      DirectUnit(variant, Current(), ch);
      status, written := Ok, 0;
      if ch == variant.EscChar() {
        if room < 1 { return MoreOutput, 0; }
        dest[at] := ch;
        dest[at + 1] := DASH;
        written := 2;
        WroteTwo(was, at, ch as Byte, DASH);
        assert dest[..] == was[at := ch as Byte][at + 1 := DASH];
      } else {
        if 0 >= room { return MoreOutput, 0; }
        dest[at] := ch;
        written := 1;
        WroteOne(was, at, ch as Byte);
        assert dest[..] == was[at := ch as Byte];
      }
    }

    method EncodeDirect(src: seq<Unit>, dest: array<Byte>, start: nat, cap: int)
      returns (status: Status, consumed: nat, written: nat)
      requires Valid(Current()) && !base64
      requires start <= dest.Length && (cap >= 0 ==> start + cap < dest.Length + if variant.Utf7? then 1 else 0)
      modifies dest
      ensures var o := RunInMode(variant, Current(), src, cap);
              && status == o.status && consumed == o.consumed && written == |o.bytes| && Current() == o.state
              && Wrote(old(dest[..]), dest[..], start, o.bytes)
    {
      hide Variant.DirectEncodable, Wrote, RunInMode, Prepend, UnitBytes, UnitState, RoomAskedFor, Valid;
      status, consumed, written := Ok, 0, 0;
      ghost var bytes: seq<Byte>, total := [], RunInMode(variant, Current(), src, cap);
      NothingWritten(dest[..], start);
      assert src[0..] == src;
      PrependNothing(total);
      while consumed < |src|
        invariant consumed <= |src| && written == |bytes| && start + written <= dest.Length
        invariant Wrote(old(dest[..]), dest[..], start, bytes)
        invariant status == Ok
        invariant total == Prepend(consumed, bytes, RunInMode(variant, Current(), src[consumed..], cap - written))
      {
        var ch := src[consumed];
        if !variant.DirectEncodable(ch) { break; }
        ghost var was: seq<Byte>, unit, room := dest[..], UnitBytes(variant, Current(), ch), cap - written;
        DirectUnit(variant, Current(), ch);
        var bcw;
        status, bcw := EncodeDirectUnit(ch, dest, start + written, cap - written);
        if status != Ok { break; }
        WroteMore(old(dest[..]), was, dest[..], start, bytes, unit);
        RunInModeTurn(variant, Current(), total, src, consumed, bytes, room);
        written := written + bcw;
        bytes := bytes + unit;
        consumed := consumed + 1;
      }
      RunInModeStops(variant, Current(), src, consumed, cap - written, bytes);
    }

    /** The three-way switch of EncodeBase64: one unit, if there is room for it. */
    method EncodeBase64Unit(ch: Unit, dest: array<Byte>, start: nat, room: int)
      returns (status: Status, written: nat)
      requires Valid(Current()) && base64
      requires start <= dest.Length && start + room <= dest.Length
      modifies this, dest
      ensures status == if room < RoomAskedFor(old(Current())) then MoreOutput else Ok
      ensures status == MoreOutput ==> written == 0 && Current() == old(Current()) && dest[..] == old(dest[..])
      ensures status == Ok ==>
                && written == |Base64Bytes(variant, old(Current()), ch)|
                && Current() == Base64State(old(Current()), ch)
                && Wrote(old(dest[..]), dest[..], start, Base64Bytes(variant, old(Current()), ch))
    {
      hide Variant.ValueToChar, Base64Bytes, Wrote;
      ghost var was: seq<Byte> := dest[..];
      Base64BytesByStep(variant, Current(), ch);
      status, written := Ok, 0;
      if encStep == 0 {
        if room < 2 { return MoreOutput, 0; }
        dest[start] := variant.ValueToChar(ch / 1024);
        dest[start + 1] := variant.ValueToChar(ch / 16 % 64);
        written := 2;
        encBits := ch % 16 * 4;
        WroteTwo(was, start, dest[start], dest[start + 1]);
        assert dest[..] == was[start := dest[start]][start + 1 := dest[start + 1]];
      } else {
        if room < 3 { return MoreOutput, 0; }
        if encStep == 1 {
          dest[start] := variant.ValueToChar(encBits + ch / 16384);
          dest[start + 1] := variant.ValueToChar(ch / 256 % 64);
          dest[start + 2] := variant.ValueToChar(ch / 4 % 64);
          encBits := ch % 4 * 16;
        } else {
          dest[start] := variant.ValueToChar(encBits + ch / 4096);
          dest[start + 1] := variant.ValueToChar(ch / 64 % 64);
          dest[start + 2] := variant.ValueToChar(ch % 64);
          encBits := 0;
        }
        written := 3;
        WroteThree(was, start, dest[start], dest[start + 1], dest[start + 2]);
        assert dest[..] == was[start := dest[start]][start + 1 := dest[start + 1]][start + 2 := dest[start + 2]];
      }
      encStep := (encStep + 1) % 3;
    }

    method EncodeBase64(src: seq<Unit>, dest: array<Byte>, start: nat, cap: int)
      returns (status: Status, consumed: nat, written: nat)
      requires Valid(Current()) && base64
      requires start <= dest.Length && start + cap <= dest.Length
      modifies this, dest
      ensures var o := RunInMode(variant, old(Current()), src, cap);
              && status == o.status && consumed == o.consumed && written == |o.bytes| && Current() == o.state
              && Wrote(old(dest[..]), dest[..], start, o.bytes)
    {
      hide Variant.DirectEncodable, Base64Bytes, Base64State, Wrote, Valid, RunInMode, Prepend;
      status, consumed, written := Ok, 0, 0;
      ghost var bytes: seq<Byte>, total := [], RunInMode(variant, Current(), src, cap);
      assert src[0..] == src;
      PrependNothing(total);
      NothingWritten(dest[..], start);
      while consumed < |src|
        invariant consumed <= |src| && written == |bytes|
        invariant Wrote(old(dest[..]), dest[..], start, bytes) && start + written <= dest.Length
        invariant status == Ok && Valid(Current()) && base64
        invariant total == Prepend(consumed, bytes, RunInMode(variant, Current(), src[consumed..], cap - written))
      {
        var ch := src[consumed];
        if variant.DirectEncodable(ch) { break; }
        ghost var was: seq<Byte>, before, room := dest[..], Current(), cap - written;
        var bcw;
        status, bcw := EncodeBase64Unit(ch, dest, start + written, cap - written);
        if status != Ok { break; }
        ghost var unit := UnitBytes(variant, before, ch);
        WroteMore(old(dest[..]), was, dest[..], start, bytes, unit);
        RunInModeTurn(variant, before, total, src, consumed, bytes, room);
        written := written + bcw;
        bytes := bytes + unit;
        consumed := consumed + 1;
      }
      RunInModeStops(variant, Current(), src, consumed, cap - written, bytes);
    }

    /** The body of ConvertNoBuffNoErr's loop. `cap` is -1 after an overrun. */
    method ConvertRun(src: seq<Unit>, dest: array<Byte>, start: nat, cap: int)
      returns (status: Status, consumed: nat, written: nat)
      requires Valid(Current()) && src != [] && (cap >= 0 || !base64)
      requires start <= dest.Length && start + cap + (if variant.Utf7? then 0 else 1) <= dest.Length
      modifies this, dest
      ensures var o := OneRun(variant, old(Current()), src, cap);
              && status == o.status && consumed == o.consumed && written == |o.bytes| && Current() == o.state
              && Wrote(old(dest[..]), dest[..], start, o.bytes)
    {
      hide Variant.DirectEncodable, Wrote, RunInMode, ShiftBounded;
      var toBase64 := !variant.DirectEncodable(src[0]);
      ghost var before, was: seq<Byte> := Current(), dest[..];
      ShiftResumes(variant, before, toBase64, cap);
      status, written := ShiftEncoding(toBase64, dest, start, cap);
      WroteFits(was, dest[..], start, ShiftBounded(variant, before, toBase64, cap).bytes);
      if status != Ok { return status, 0, written; }
      ghost var now: seq<Byte>, bytes := dest[..], ShiftBounded(variant, before, toBase64, cap).bytes;
      ghost var run := RunInMode(variant, Current(), src, cap - written);
      var bcw;
      if !toBase64 {
        status, consumed, bcw := EncodeDirect(src, dest, start + written, cap - written);
      } else {
        ShiftStaysInside(variant, before, true, cap);
        status, consumed, bcw := EncodeBase64(src, dest, start + written, cap - written);
      }
      WroteMore(was, now, dest[..], start, bytes, run.bytes);
      written := written + bcw;
    }

    /** ConvertNoBuffNoErr. */
    method ConvertNoBuffNoErr(src: seq<Unit>, dest: array<Byte>, start: nat, cap: nat)
      returns (status: Status, consumed: nat, written: nat)
      requires Valid(Current())
      requires start + cap + (if variant.Utf7? then 0 else 1) <= dest.Length
      modifies this, dest
      ensures var o := Convert(variant, old(Current()), src, cap);
              && status == o.status && consumed == o.consumed && written == |o.bytes| && Current() == o.state
              && Wrote(old(dest[..]), dest[..], start, o.bytes)
      ensures Valid(Current())
      ensures written <= cap + 1
      ensures written == cap + 1 <==> EscapeAtLastByte(variant, old(Current()), src, cap)
    {
      hide Variant.DirectEncodable, Wrote, Convert, OneRun, Prepend, EscapeAtLastByte, Valid;
      status, consumed, written := Ok, 0, 0;
      ghost var bytes: seq<Byte> := [];
      OverrunExactly(variant, Current(), src, cap);
      NothingWritten(dest[..], start);
      assert src[0..] == src;
      PrependNothing(Convert(variant, Current(), src, cap));
      while consumed < |src|
        invariant consumed <= |src| && written == |bytes| && start + written <= dest.Length
        invariant Wrote(old(dest[..]), dest[..], start, bytes)
        invariant status == Ok && Valid(Current()) && (written <= cap || !base64)
        invariant Convert(variant, old(Current()), src, cap)
               == Prepend(consumed, bytes, Convert(variant, Current(), src[consumed..], cap - written))
      {
        var rest := src[consumed..];
        ghost var was: seq<Byte>, run := dest[..], OneRun(variant, Current(), rest, cap - written);
        ConvertOneRun(variant, Current(), rest, cap - written);
        var bcr, bcw;
        status, bcr, bcw := ConvertRun(rest, dest, start + written, cap - written);
        WroteMore(old(dest[..]), was, dest[..], start, bytes, run.bytes);
        PrependFields(consumed, bytes, run);
        assert rest[bcr..] == src[consumed + bcr..];
        PrependTwice(consumed, bytes, bcr, run.bytes,
                     Convert(variant, run.state, src[consumed + bcr..], cap - written - bcw));
        consumed := consumed + bcr;
        written := written + bcw;
        bytes := bytes + run.bytes;
        if status != Ok { return; }
      }
      ConvertOfNothing(variant, Current(), src, cap - written, bytes);
    }

    /** FinishNoBuff. */
    method FinishNoBuff(dest: array<Byte>, start: nat, cap: nat) returns (status: Status, written: nat)
      requires Valid(Current())
      requires start + cap <= dest.Length
      modifies this, dest
      ensures var o := ShiftBounded(variant, old(Current()), false, cap);
              && status == o.status && written == |o.bytes| && Current() == o.state
              && Wrote(old(dest[..]), dest[..], start, o.bytes)
      ensures written <= cap && (status == Ok ==> !Current().base64 && Valid(Current()))
    {
      status, written := ShiftEncoding(false, dest, start, cap);
    }
  }
}
