/** The chunk layer of a PNG file: a signature, then chunks of length, type, data and checksum. The
    checksum function is a parameter. */
module PngChunks {
  import opened Arithmetic
  import opened PngFilter
  import opened PngHeader
  import opened PySlices
  import opened Wrappers

  /** zlib.crc32: the checksum of some bytes, continued from an earlier one. Its result may be negative. */
  type Crc = (seq<Byte>, int) -> int

  datatype Header = Header(length: nat, tag: Tag)

  const SIGNATURE: seq<Byte> := [137, 80, 78, 71, 13, 10, 26, 10]

  function Checksum(crc: Crc, tag: Tag, data: seq<Byte>): (sum: nat)
    ensures sum < 0x1_0000_0000
  {
    crc(data, crc(tag, 0)) % 0x1_0000_0000
  }

  /** A byte outside ASCII, PNG, and the line ends of two systems around a control char (section 5.2 of
      W3C REC-PNG-20031110). */
  lemma SignatureIsStandard()
    ensures SIGNATURE == [0x89] + Codes("PNG\r\n") + [0x1a] + Codes("\n")
  {
  }

  /** The checksum of two byte strings one after the other is that of the first continued with the second. */
  ghost predicate Runs(crc: Crc) {
    forall a: seq<Byte>, b: seq<Byte>, start: int :: crc(b, crc(a, start)) == crc(a + b, start)
  }

  /** The checksum covers the type, then the data (section 5.3), and not the length. */
  lemma ChecksumCoversTypeAndData(crc: Crc, tag: Tag, data: seq<Byte>)
    requires Runs(crc)
    ensures Checksum(crc, tag, data) == crc(tag + data, 0) % 0x1_0000_0000
  {
  }

  // ----- Writing

  function WrittenChunk(crc: Crc, c: Chunk): (bytes: seq<Byte>)
    requires |c.data| < 0x1_0000_0000
    ensures |bytes| == 12 + |c.data|
  {
    Pack(|c.data|) + c.tag + c.data + Pack(Checksum(crc, c.tag, c.data))
  }

  /** Lengths have four bytes. */
  predicate Packable(cs: seq<Chunk>) {
    forall i :: 0 <= i < |cs| ==> |cs[i].data| < 0x1_0000_0000
  }

  function WrittenChunks(crc: Crc, cs: seq<Chunk>): seq<Byte>
    requires Packable(cs)
  {
    if cs == [] then [] else WrittenChunk(crc, cs[0]) + WrittenChunks(crc, cs[1..])
  }

  lemma {:induction false} WrittenSnoc(crc: Crc, cs: seq<Chunk>, c: Chunk)
    requires Packable(cs) && |c.data| < 0x1_0000_0000
    ensures Packable(cs + [c]) && WrittenChunks(crc, cs + [c]) == WrittenChunks(crc, cs) + WrittenChunk(crc, c)
  {
    hide WrittenChunk;
    if cs == [] {
      assert [c][1..] == [];
    } else {
      assert (cs + [c])[1..] == cs[1..] + [c];
      WrittenSnoc(crc, cs[1..], c);
    }
  }

  method WriteChunk(crc: Crc, out: seq<Byte>, c: Chunk) returns (r: Result<seq<Byte>, Error>)
    ensures r == if |c.data| < 0x1_0000_0000 then Ok(out + WrittenChunk(crc, c)) else Fail(StructError)
  {
    if |c.data| >= 0x1_0000_0000 { return Fail(StructError); }
    var checksum := crc(c.tag, 0);
    checksum := crc(c.data, checksum);
    checksum := checksum % 0x1_0000_0000;
    var written := out + Pack(|c.data|);
    written := written + c.tag;
    written := written + c.data;
    written := written + Pack(checksum);
    assert written == out + WrittenChunk(crc, c);
    return Ok(written);
  }

  lemma Assoc(a: seq<Byte>, b: seq<Byte>, c: seq<Byte>)
    ensures a + b + c == a + (b + c)
  {
  }

  lemma BeforeFirst(crc: Crc)
    ensures SIGNATURE + WrittenChunks(crc, []) == SIGNATURE
  {
  }

  method WriteChunks(crc: Crc, cs: seq<Chunk>) returns (r: Result<seq<Byte>, Error>)
    ensures r == if Packable(cs) then Ok(SIGNATURE + WrittenChunks(crc, cs)) else Fail(StructError)
  {
    var out := SIGNATURE;
    assert cs[..|cs|] == cs;
    hide WrittenChunk, WrittenChunks, SIGNATURE;
    BeforeFirst(crc);
    for i := 0 to |cs|
      invariant Packable(cs[..i]) && out == SIGNATURE + WrittenChunks(crc, cs[..i])
    {
      var written := WriteChunk(crc, out, cs[i]);
      if written.Fail? { return written; }
      Assoc(SIGNATURE, WrittenChunks(crc, cs[..i]), WrittenChunk(crc, cs[i]));
      out := written.value;
      assert cs[..i + 1] == cs[..i] + [cs[i]];
      WrittenSnoc(crc, cs[..i], cs[i]);
    }
    return Ok(out);
  }

  // ----- Reading

  /** What is left of the file, and a header that was already taken off it. */
  datatype Place = Place(bytes: seq<Byte>, atChunk: Option<Header>)

  /** chunklentype: nothing at the end of the file. */
  function NextHeader(bytes: seq<Byte>): (h: Result<Option<Header>, Error>)
    ensures h.Ok? && h.value.Some? ==> |bytes| >= 8
  {
    if bytes == [] then Ok(None)
    else if |bytes| < 8 then Fail(FormatError)
    else if Unpack(bytes[..4]) > 0x7fff_ffff then Fail(FormatError)
    else Ok(Some(Header(Unpack(bytes[..4]), bytes[4..8])))
  }

  /** The header to go on with: the one already taken, or the next one. Reading past the last chunk fails. */
  function Ahead(p: Place): (h: Result<(Header, seq<Byte>), Error>)
    ensures h.Ok? ==> |h.value.1| <= |p.bytes|
  {
    if p.atChunk.Some? then Ok((p.atChunk.value, p.bytes))
    else
      var h := NextHeader(p.bytes);
      if h.Fail? then Fail(h.error)
      else if h.value.None? then Fail(TypeError)
      else Ok((h.value.value, p.bytes[8..]))
  }

  /** The next chunk and the rest of the file. With a type to look for, other chunks are skipped and
      their checksums ignored. A file that ends before a checksum fails with the wrong exception. */
  function NextChunk(crc: Crc, p: Place, seek: Option<Tag>): (r: Result<(Chunk, seq<Byte>), Error>)
    ensures r.Ok? ==> |r.value.1| < |p.bytes|
    decreases |p.bytes|
  {
    var ahead := Ahead(p);
    if ahead.Fail? then Fail(ahead.error)
    else
      var (h, bytes) := ahead.value;
      if |bytes| < h.length then Fail(ChunkError)
      else if |bytes| < h.length + 4 then Fail(NameError)
      else
        var data, sum, rest := bytes[..h.length], bytes[h.length..h.length + 4], bytes[h.length + 4..];
        if seek.Some? && seek.value != h.tag then NextChunk(crc, Place(rest, None), seek)
        else if sum != Pack(Checksum(crc, h.tag, data)) then Fail(ChunkError)
        else Ok((Chunk(h.tag, data), rest))
  }

  /** What iterating over the chunks yields, and the error it stops with, if any. */
  datatype Listing = Listing(chunks: seq<Chunk>, error: Option<Error>)

  function Before(c: Chunk, l: Listing): Listing {
    l.(chunks := [c] + l.chunks)
  }

  function Chunks(crc: Crc, p: Place): Listing
    decreases |p.bytes|
  {
    var r := NextChunk(crc, p, None);
    if r.Fail? then Listing([], Some(r.error))
    else if r.value.0.tag == IEND then Listing([r.value.0], None)
    else Before(r.value.0, Chunks(crc, Place(r.value.1, None)))
  }

  // ----- Round trips

  /** Chunks the reader accepts. */
  predicate Readable(cs: seq<Chunk>) {
    forall i :: 0 <= i < |cs| ==> |cs[i].data| < 0x8000_0000
  }

  lemma WrittenParts(crc: Crc, c: Chunk, rest: seq<Byte>)
    requires |c.data| < 0x1_0000_0000
    ensures var b := WrittenChunk(crc, c) + rest;
      && b[..4] == Pack(|c.data|) && b[4..8] == c.tag && b[8..][..|c.data|] == c.data
      && b[8..][|c.data|..|c.data| + 4] == Pack(Checksum(crc, c.tag, c.data)) && b[8..][|c.data| + 4..] == rest
  {
    hide Pack, Checksum;
    FramedParts(Pack(|c.data|), c.tag, c.data, Pack(Checksum(crc, c.tag, c.data)), rest);
  }

  /** A written chunk is read back, and only it, exactly when its length has 31 bits. */
  lemma ChunkReadBack(crc: Crc, c: Chunk, rest: seq<Byte>)
    requires |c.data| < 0x1_0000_0000
    ensures var r := NextChunk(crc, Place(WrittenChunk(crc, c) + rest, None), None);
      if |c.data| < 0x8000_0000 then r == Ok((c, rest)) else r == Fail(FormatError)
    ensures |c.data| < 0x8000_0000 ==>
      NextHeader(WrittenChunk(crc, c) + rest) == Ok(Some(Header(|c.data|, c.tag)))
  {
    WrittenParts(crc, c, rest);
    UnpackInvertsPack(|c.data|);
    hide WrittenChunk, Pack, Unpack, Checksum;
  }

  /** A file that ends inside a chunk: nothing of the header, a part of it, a part of the data, a part of the
      checksum. Each has its own error, the last one the wrong one. */
  lemma CutShort(crc: Crc, c: Chunk, n: nat)
    requires |c.data| < 0x8000_0000 && n < 12 + |c.data|
    ensures NextChunk(crc, Place(WrittenChunk(crc, c)[..n], None), None)
         == Fail(if n == 0 then TypeError
                 else if n < 8 then FormatError
                 else if n < 8 + |c.data| then ChunkError
                 else NameError)
  {
    WrittenParts(crc, c, []);
    UnpackInvertsPack(|c.data|);
    hide WrittenChunk, Pack, Unpack, Checksum;
    var b := WrittenChunk(crc, c);
    assert b + [] == b;
    if n >= 8 { assert b[..n][..4] == b[..4] && b[..n][4..8] == b[4..8]; }
  }

  lemma FramedParts(p: seq<Byte>, tag: seq<Byte>, data: seq<Byte>, sum: seq<Byte>, rest: seq<Byte>)
    requires |p| == |tag| == |sum| == 4
    ensures var b := p + tag + data + sum + rest;
      && b[..4] == p && b[4..8] == tag && b[8..][..|data|] == data
      && b[8..][|data|..|data| + 4] == sum && b[8..][|data| + 4..] == rest
  {
    var b := p + tag + data + sum + rest;
    assert b == p + (tag + (data + (sum + rest)));
    assert b[8..] == data + (sum + rest);
  }

  /** The next chunk by the parts of the file. */
  lemma NextByParts(crc: Crc, b: seq<Byte>, n: nat)
    requires |b| >= 12 + n && Unpack(b[..4]) == n < 0x8000_0000
    ensures NextChunk(crc, Place(b, None), None) ==
      if b[8..][n..n + 4] != Pack(Checksum(crc, b[4..8], b[8..][..n])) then Fail(ChunkError)
      else Ok((Chunk(b[4..8], b[8..][..n]), b[8..][n + 4..]))
  {
    hide Pack, Unpack, Checksum;
  }

  /** A chunk with any other checksum is refused. */
  lemma WrongChecksum(crc: Crc, c: Chunk, sum: seq<Byte>, rest: seq<Byte>)
    requires |c.data| < 0x8000_0000 && |sum| == 4 && sum != Pack(Checksum(crc, c.tag, c.data))
    ensures NextChunk(crc, Place(Pack(|c.data|) + c.tag + c.data + sum + rest, None), None) == Fail(ChunkError)
  {
    hide *;
    UnpackInvertsPack(|c.data|);
    FramedParts(Pack(|c.data|), c.tag, c.data, sum, rest);
    NextByParts(crc, Pack(|c.data|) + c.tag + c.data + sum + rest, |c.data|);
  }

  /** It does not matter whether the header was taken before. */
  lemma HeaderTaken(crc: Crc, bytes: seq<Byte>, seek: Option<Tag>)
    requires NextHeader(bytes).Ok? && NextHeader(bytes).value.Some?
    ensures NextChunk(crc, Place(bytes, None), seek) == NextChunk(crc, Place(bytes[8..], NextHeader(bytes).value), seek)
    ensures Chunks(crc, Place(bytes, None)) == Chunks(crc, Place(bytes[8..], NextHeader(bytes).value))
  {
    var a, b := Place(bytes, None), Place(bytes[8..], NextHeader(bytes).value);
    assert Ahead(a) == Ahead(b);
    hide NextHeader, Ahead;
  }

  /** The chunks up to the first IEND; without one, reading ends in an error. */
  function UpToEnd(cs: seq<Chunk>): Listing {
    if cs == [] then Listing([], Some(TypeError))
    else if cs[0].tag == IEND then Listing([cs[0]], None)
    else Before(cs[0], UpToEnd(cs[1..]))
  }

  /** Reading back any list of written chunks gives the list up to its first IEND, whatever follows. */
  lemma {:induction false} ChunksReadBack(crc: Crc, cs: seq<Chunk>)
    requires Readable(cs)
    ensures Packable(cs) && Chunks(crc, Place(WrittenChunks(crc, cs), None)) == UpToEnd(cs)
  {
    if cs != [] {
      var rest := WrittenChunks(crc, cs[1..]);
      ChunkReadBack(crc, cs[0], rest);
      ChunksReadBack(crc, cs[1..]);
      hide NextChunk, WrittenChunk;
    }
  }

  /** The first chunk with the given type. */
  function FirstWith(cs: seq<Chunk>, tag: Tag): (k: Option<nat>)
    ensures k.Some? ==> k.value < |cs| && cs[k.value].tag == tag
  {
    if cs == [] then None
    else if cs[0].tag == tag then Some(0)
    else
      var k := FirstWith(cs[1..], tag);
      if k.None? then None else Some(k.value + 1)
  }

  /** Looking for a type finds its first chunk. */
  lemma {:induction false} SeekFindsFirst(crc: Crc, cs: seq<Chunk>, tag: Tag)
    requires Readable(cs)
    ensures Packable(cs)
    ensures NextChunk(crc, Place(WrittenChunks(crc, cs), None), Some(tag)) ==
      match FirstWith(cs, tag)
      case None => Fail(TypeError)
      case Some(k) => Ok((cs[k], WrittenChunks(crc, cs[k + 1..])))
  {
    hide NextChunk, WrittenChunk;
    if cs == [] {
      SeekNothing(crc, tag);
    } else {
      var c, rest := cs[0], WrittenChunks(crc, cs[1..]);
      SeekStep(crc, c, rest, tag);
      SeekFindsFirst(crc, cs[1..], tag);
      if c.tag != tag {
        var k := FirstWith(cs[1..], tag);
        if k.Some? { assert cs[1..][k.value + 1..] == cs[k.value + 2..]; }
      }
    }
  }

  lemma SeekNothing(crc: Crc, tag: Tag)
    ensures NextChunk(crc, Place([], None), Some(tag)) == Fail(TypeError)
  {
  }

  lemma SeekStep(crc: Crc, c: Chunk, rest: seq<Byte>, tag: Tag)
    requires |c.data| < 0x8000_0000
    ensures NextChunk(crc, Place(WrittenChunk(crc, c) + rest, None), Some(tag)) ==
      if c.tag == tag then Ok((c, rest)) else NextChunk(crc, Place(rest, None), Some(tag))
  {
    WrittenParts(crc, c, rest);
    UnpackInvertsPack(|c.data|);
    hide WrittenChunk, Pack, Unpack, Checksum;
  }

  /** preamble: chunks are read and processed until the header of an IDAT chunk has been taken. */
  function Preamble(crc: Crc, p: Place, m: Meta): Result<(Place, Meta), Error>
    decreases |p.bytes|
  {
    if p.atChunk.None? && p.bytes == [] then Fail(FormatError)
    else
      var ahead := Ahead(p);
      if ahead.Fail? then Fail(ahead.error)
      else if ahead.value.0.tag == IDAT then Ok((Place(ahead.value.1, Some(ahead.value.0)), m))
      else
        var r := NextChunk(crc, p, None);
        if r.Fail? then Fail(r.error)
        else
          var next := Processed(m, r.value.0);
          if next.Fail? then Fail(next.error) else Preamble(crc, Place(r.value.1, None), next.value)
  }

  /** The preamble processes exactly the chunks in front of the first IDAT, and iterating over the chunks
      then yields those from it on. Without an IDAT the preamble fails. */
  lemma {:induction false} PreambleThenChunks(crc: Crc, cs: seq<Chunk>, m: Meta)
    requires Readable(cs)
    ensures Packable(cs)
    ensures var r := Preamble(crc, Place(WrittenChunks(crc, cs), None), m);
      match FirstWith(cs, IDAT)
      case None =>
        var meta := ProcessedAll(m, cs);
        r == Fail(if meta.Fail? then meta.error else FormatError)
      case Some(k) =>
        var meta := ProcessedAll(m, cs[..k]);
        if meta.Fail? then r == Fail(meta.error)
        else r.Ok? && r.value.1 == meta.value
             && r.value.0.atChunk == Some(Header(|cs[k].data|, IDAT)) && Chunks(crc, r.value.0) == UpToEnd(cs[k..])
    decreases |cs|
  {
    hide NextChunk, WrittenChunk, NextHeader, Ahead, Chunks, UpToEnd, Processed;
    if cs != [] {
      var rest := WrittenChunks(crc, cs[1..]);
      PreambleStep(crc, cs[0], rest, m);
      if cs[0].tag == IDAT {
        ChunksReadBack(crc, cs);
        assert cs[0..] == cs && cs[..0] == [];
      } else {
        var next := Processed(m, cs[0]);
        if next.Ok? { PreambleThenChunks(crc, cs[1..], next.value); }
        var k := FirstWith(cs[1..], IDAT);
        if k.Some? {
          assert cs[1..][k.value..] == cs[k.value + 1..];
          assert cs[..k.value + 1][1..] == cs[1..][..k.value];
        }
      }
    }
  }

  /** The preamble at a written chunk. */
  lemma PreambleStep(crc: Crc, c: Chunk, rest: seq<Byte>, m: Meta)
    requires |c.data| < 0x8000_0000
    ensures var bytes := WrittenChunk(crc, c) + rest;
      var r := Preamble(crc, Place(bytes, None), m);
      if c.tag == IDAT then
        r.Ok? && r.value.1 == m && r.value.0.atChunk == Some(Header(|c.data|, IDAT))
        && Chunks(crc, r.value.0) == Chunks(crc, Place(bytes, None))
      else
        var next := Processed(m, c);
        r == if next.Fail? then Fail(next.error) else Preamble(crc, Place(rest, None), next.value)
  {
    var bytes := WrittenChunk(crc, c) + rest;
    assert bytes != [];
    ChunkReadBack(crc, c, rest);
    HeaderTaken(crc, bytes, None);
    hide NextChunk, WrittenChunk, NextHeader, Chunks, Processed;
  }

  // ----- The reader

  lemma SignatureInFront(bytes: seq<Byte>)
    ensures |SIGNATURE| == 8
    ensures SIGNATURE <= bytes <==> bytes[..Min(8, |bytes|)] == SIGNATURE
  {
    assert |SIGNATURE| == 8;
    hide SIGNATURE;
  }

  class Reader {
    const file: seq<Byte>
    const crc: Crc
    var position: nat
    /** The first eight bytes, once they have been read. */
    var signature: seq<Byte>
    var atchunk: Option<Header>
    var meta: Meta

    ghost predicate Valid()
      reads this
    {
      position <= |file|
    }

    ghost function Rest(): Place
      requires Valid()
      reads this
    {
      Place(file[position..], atchunk)
    }

    constructor (file: seq<Byte>, crc: Crc)
      ensures Valid() && this.file == file && this.crc == crc && Rest() == Place(file, None) && signature == []
      ensures meta == NOTHING && position == 0 && atchunk == None
    {
      this.file, this.crc, position, signature, atchunk, meta := file, crc, 0, [], None, NOTHING;
    }

    /** As many of the next n bytes as there are. */
    method Read(n: nat) returns (bytes: seq<Byte>)
      requires Valid()
      modifies this`position
      ensures Valid() && |bytes| == Min(n, |old(Rest()).bytes|)
      ensures old(Rest()).bytes == bytes + Rest().bytes
    {
      var end := Min(position + n, |file|);
      bytes := file[position..end];
      assert file[position..] == bytes + file[end..];
      position := end;
    }

    /** Where reading chunks starts: behind the signature. */
    ghost function Start(): Result<Place, Error>
      requires Valid()
      reads this
    {
      if signature != [] then Ok(Rest())
      else if SIGNATURE <= file[position..] then Ok(Place(file[position + 8..], atchunk))
      else Fail(FormatError)
    }

    /** Reads and checks the signature once. Wrong bytes are kept too, so a second call passes them. */
    method ValidateSignature() returns (r: Option<Error>)
      requires Valid()
      modifies this`position, this`signature
      ensures Valid()
      ensures if old(Start()).Ok? then r == None && Rest() == old(Start()).value && signature != []
              else r == Some(FormatError)
      ensures signature == if old(signature) != [] then old(signature)
                           else old(Rest()).bytes[..Min(8, |old(Rest()).bytes|)]
    {
      if signature != [] { return None; }
      ghost var bytes := file[position..];
      SignatureInFront(bytes);
      hide SIGNATURE;
      signature := Read(8);
      assert signature == bytes[..Min(8, |bytes|)] && file[position..] == bytes[|signature|..];
      return if signature != SIGNATURE then Some(FormatError) else None;
    }

    method ChunkLenType() returns (h: Result<Option<Header>, Error>)
      requires Valid()
      modifies this`position
      ensures Valid() && h == NextHeader(old(Rest()).bytes)
      ensures h.Ok? && h.value.Some? ==> Rest().bytes == old(Rest()).bytes[8..]
    {
      var x := Read(8);
      if x == [] { return Ok(None); }
      if |x| != 8 { return Fail(FormatError); }
      var length, tag := Unpack(x[..4]), x[4..];
      assert old(Rest()).bytes[..4] == x[..4] && old(Rest()).bytes[4..8] == x[4..];
      if length > 0x7fff_ffff { return Fail(FormatError); }
      return Ok(Some(Header(length, tag)));
    }

    /** The header that was taken before, or the next one. */
    method TakeHeader() returns (r: Result<Header, Error>)
      requires Valid()
      modifies this`position, this`atchunk
      ensures Valid()
      ensures var ahead := Ahead(old(Rest()));
        if ahead.Ok? then r == Ok(ahead.value.0) && Rest() == Place(ahead.value.1, None) else r == Fail(ahead.error)
    {
      if atchunk.None? {
        var next := ChunkLenType();
        if next.Fail? { return Fail(next.error); }
        atchunk := next.value;
      }
      if atchunk.None? { return Fail(TypeError); }
      r := Ok(atchunk.value);
      atchunk := None;
    }

    /** The data and the checksum that follow a header. */
    method ReadBody(length: nat) returns (r: Result<(seq<Byte>, seq<Byte>), Error>)
      requires Valid()
      modifies this`position
      ensures Valid()
      ensures var bytes := old(Rest()).bytes;
        if |bytes| < length then r == Fail(ChunkError)
        else if |bytes| < length + 4 then r == Fail(NameError)
        else r == Ok((bytes[..length], bytes[length..length + 4])) && Rest().bytes == bytes[length + 4..]
    {
      ghost var bytes := file[position..];
      var data := Read(length);
      if |data| != length { return Fail(ChunkError); }
      assert data == bytes[..length] && file[position..] == bytes[length..];
      var checksum := Read(4);
      if |checksum| != 4 { return Fail(NameError); }
      assert checksum == bytes[length..length + 4];
      return Ok((data, checksum));
    }

    /** The next chunk, or the next one of a given type, once the signature has been read. */
    method NextOf(seek: Option<Tag>) returns (r: Result<Chunk, Error>)
      requires Valid()
      modifies this`position, this`atchunk
      ensures Valid()
      ensures var next := NextChunk(crc, old(Rest()), seek);
        if next.Ok? then r == Ok(next.value.0) && Rest() == Place(next.value.1, None) else r == Fail(next.error)
    {
      hide Pack, Ahead;
      while true
        invariant Valid()
        invariant NextChunk(crc, Rest(), seek) == NextChunk(crc, old(Rest()), seek)
        decreases |Rest().bytes|
      {
        var header := TakeHeader();
        if header.Fail? { return Fail(header.error); }
        var h := header.value;
        var body := ReadBody(h.length);
        if body.Fail? { return Fail(body.error); }
        var (data, checksum) := body.value;
        if seek.Some? && h.tag != seek.value { continue; }
        var verify := crc(h.tag, 0);
        verify := crc(data, verify);
        verify := verify % 0x1_0000_0000;
        return if checksum != Pack(verify) then Fail(ChunkError) else Ok(Chunk(h.tag, data));
      }
    }

    method ReadChunk(seek: Option<Tag>) returns (r: Result<Chunk, Error>)
      requires Valid()
      modifies this`position, this`atchunk, this`signature
      ensures Valid() && (old(Start()).Ok? ==> signature != [])
      ensures old(Start()).Fail? ==> r == Fail(FormatError)
      ensures old(Start()).Ok? ==>
        var next := NextChunk(crc, old(Start()).value, seek);
        if next.Ok? then r == Ok(next.value.0) && Rest() == Place(next.value.1, None) else r == Fail(next.error)
    {
      hide *;
      var bad := ValidateSignature();
      if bad.Some? { return Fail(bad.value); }
      r := NextOf(seek);
    }

    /** Yields chunks up to the first IEND. */
    method ReadChunks() returns (yielded: seq<Chunk>, error: Option<Error>)
      requires Valid()
      modifies this`position, this`atchunk, this`signature
      ensures Valid()
      ensures Listing(yielded, error) ==
        if old(Start()).Fail? then Listing([], Some(FormatError)) else Chunks(crc, old(Start()).value)
    {
      yielded := [];
      ghost var start := Start();
      if start.Ok? { NothingBefore(Chunks(crc, start.value)); }
      hide NextChunk, Rest, Chunks, Behind, SIGNATURE, IEND;
      while true
        invariant Valid()
        invariant start.Fail? ==> yielded == [] && Start() == start
        invariant start.Ok? ==> Start().Ok? && Chunks(crc, start.value) == Behind(yielded, Chunks(crc, Start().value))
        decreases start.Ok?, if Start().Ok? then |Start().value.bytes| else 0
      {
        if Start().Ok? { ChunksTurn(crc, Start().value, yielded); }
        var next := ReadChunk(None);
        if next.Fail? { return yielded, Some(next.error); }
        yielded := yielded + [next.value];
        if next.value.tag == IEND { return yielded, None; }
      }
    }

    /** process_chunk: reads the next chunk and takes note of what it says. */
    method ProcessChunk() returns (error: Option<Error>)
      requires Valid() && signature != []
      modifies this
      ensures Valid() && signature != []
      ensures var next := NextChunk(crc, old(Rest()), None);
        if next.Fail? then error == Some(next.error)
        else
          var m := Processed(old(meta), next.value.0);
          if m.Fail? then error == Some(m.error)
          else error == None && meta == m.value && Rest() == Place(next.value.1, None)
    {
      hide NextChunk, Processed;
      var chunk := ReadChunk(None);
      if chunk.Fail? { return Some(chunk.error); }
      var m := Processed(meta, chunk.value);
      if m.Fail? { return Some(m.error); }
      meta := m.value;
      error := None;
    }

    /** Reads up to the header of the first IDAT chunk. */
    method ReadPreamble() returns (error: Option<Error>)
      requires Valid()
      modifies this
      ensures Valid()
      ensures old(Start()).Fail? ==> error == Some(FormatError)
      ensures old(Start()).Ok? ==>
        match Preamble(crc, old(Start()).value, old(meta))
        case Fail(e) => error == Some(e)
        case Ok((p, m)) => error == None && Start() == Ok(p) && meta == m
    {
      error := ValidateSignature();
      if error.Some? { return; }
      ghost var start := Rest();
      hide NextChunk, Processed, NextHeader;
      while true
        invariant Valid() && signature != []
        invariant Preamble(crc, Rest(), meta) == Preamble(crc, start, old(meta))
        decreases |Rest().bytes|
      {
        if atchunk.None? {
          ghost var before := Rest();
          var next := ChunkLenType();
          if next.Fail? { return Some(next.error); }
          atchunk := next.value;
          if atchunk.None? { return Some(FormatError); }
          HeaderTaken(crc, before.bytes, None);
        }
        if atchunk.value.tag == IDAT { return None; }
        error := ProcessChunk();
        if error.Some? { return; }
      }
    }
  }

  function Behind(done: seq<Chunk>, l: Listing): Listing {
    l.(chunks := done + l.chunks)
  }

  lemma NothingBefore(l: Listing)
    ensures Behind([], l) == l
  {
  }

  /** One more chunk behind those read so far. */
  lemma ChunksTurn(crc: Crc, p: Place, done: seq<Chunk>)
    ensures var r := NextChunk(crc, p, None);
      Behind(done, Chunks(crc, p)) ==
      if r.Fail? then Listing(done, Some(r.error))
      else if r.value.0.tag == IEND then Listing(done + [r.value.0], None)
      else Behind(done + [r.value.0], Chunks(crc, Place(r.value.1, None)))
  {
    hide NextChunk, IEND;
    var r := NextChunk(crc, p, None);
    if r.Ok? {
      var rest := Chunks(crc, Place(r.value.1, None));
      assert done + ([r.value.0] + rest.chunks) == done + [r.value.0] + rest.chunks;
    }
  }
}
