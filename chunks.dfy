/** The PNG container as the decoder reads it (src/PNGDecoder.ts,
    `validateHeader`, `processChunks`, `processIHDR`, `processIDAT`): the
    signature of section 3.1 of RFC 2083, chunks laid out as length, type,
    data and CRC (section 3.2), the IHDR fields (section 4.1.1) and the
    concatenation of IDAT payloads (section 4.1.3).

    Chunk types are compared as raw bytes. The CRC is read but never
    checked, and no header field is validated. */
module Chunks {
  import opened Common
  import Cursor

  const SIGNATURE: seq<byte> := [137, 80, 78, 71, 13, 10, 26, 10]

  // Chunk type codes, in ASCII.
  const IHDR: seq<byte> := [73, 72, 68, 82]
  const IDAT: seq<byte> := [73, 68, 65, 84]
  const IEND: seq<byte> := [73, 69, 78, 68]
  const TEXT: seq<byte> := [116, 69, 88, 116]
  const ZTXT: seq<byte> := [122, 84, 88, 116]
  const TIME: seq<byte> := [116, 73, 77, 69]

  // ---------------------------------------------------------------------
  // Signature

  /** How many leading bytes of `data` agree with the signature, stopping at
      the first disagreement or at the end of `data`. */
  function MatchedPrefix(data: seq<byte>, i: nat): (k: nat)
    requires i <= 8
    ensures i <= k <= 8
    decreases 8 - i
  {
    if i == 8 || i >= |data| || data[i] != SIGNATURE[i] then i
    else MatchedPrefix(data, i + 1)
  }

  /** The signature matches exactly when all eight bytes agree, and the
      count of agreeing bytes is the position of the first mismatch. */
  lemma {:induction false} MatchedPrefixMeaning(data: seq<byte>, i: nat)
    requires i <= 8 && i <= |data| && data[..i] == SIGNATURE[..i]
    ensures var k := MatchedPrefix(data, i);
            k <= |data| && data[..k] == SIGNATURE[..k] &&
            (k < 8 ==> k == |data| || data[k] != SIGNATURE[k])
    ensures MatchedPrefix(data, i) == 8 <==> 8 <= |data| && data[..8] == SIGNATURE
    decreases 8 - i
  {
    if i < 8 && i < |data| && data[i] == SIGNATURE[i] {
      assert data[..i + 1] == data[..i] + [data[i]];
      assert SIGNATURE[..i + 1] == SIGNATURE[..i] + [SIGNATURE[i]];
      MatchedPrefixMeaning(data, i + 1);
    }
  }

  /** Once the first `i` bytes are known to agree, the count can start at `i`. */
  lemma {:induction false} MatchedPrefixFrom(data: seq<byte>, j: nat, i: nat)
    requires j <= i <= 8 && i <= |data| && data[..i] == SIGNATURE[..i]
    ensures MatchedPrefix(data, j) == MatchedPrefix(data, i)
    decreases i - j
  {
    if j < i {
      assert data[j] == data[..i][j] == SIGNATURE[..i][j];
      MatchedPrefixFrom(data, j + 1, i);
    }
  }

  /** What `validateHeader` reports for input `data`: success, "Corrupted
      Header" at the first wrong byte, or "No more data" when the input ends
      inside a correct prefix. */
  function SignatureCheck(data: seq<byte>): (r: Result<()>)
    ensures r.Ok? <==> 8 <= |data| && data[..8] == SIGNATURE
    ensures r.Err? ==> r.error == NoMoreData || r.error == CorruptedHeader
    ensures r == Err(NoMoreData) ==> |data| < 8 && data == SIGNATURE[..|data|]
    ensures r == Err(CorruptedHeader) ==>
              exists k :: 0 <= k < 8 && k < |data| && data[..k] == SIGNATURE[..k] && data[k] != SIGNATURE[k]
  {
    MatchedPrefixMeaning(data, 0);
    var k := MatchedPrefix(data, 0);
    if k == 8 then Ok(())
    else if k == |data| then Err(NoMoreData)
    else Err(CorruptedHeader)
  }

  /** How many bytes `validateHeader` consumes: up to and including the
      first wrong byte, or all eight. */
  function SignatureConsumed(data: seq<byte>): (n: nat)
    ensures n <= |data| && n <= 8
    ensures SignatureCheck(data).Ok? ==> n == 8
    ensures SignatureCheck(data) == Err(NoMoreData) ==> n == |data|
    ensures SignatureCheck(data) == Err(CorruptedHeader) ==>
              0 < n && data[..n - 1] == SIGNATURE[..n - 1] && data[n - 1] != SIGNATURE[n - 1]
  {
    MatchedPrefixMeaning(data, 0);
    var k := MatchedPrefix(data, 0);
    if k < 8 && k < |data| then k + 1 else k
  }

  // ---------------------------------------------------------------------
  // Chunk framing

  datatype Chunk = Chunk(kind: seq<byte>, payload: seq<byte>, crc: int)

  /** A chunk read from the front of the stream, and the bytes after it. */
  datatype Framed = Framed(chunk: Chunk, rest: seq<byte>)

  /** What the reads of `processChunks` take from `data`: a signed 32-bit
      length, four type bytes, `length` data bytes (a negative length takes
      `readBytes`'s slice semantics) and a signed 32-bit CRC. */
  function ReadChunk(data: seq<byte>): (r: Result<Framed>)
    ensures r.Err? ==> r.error == NotEnoughData
    ensures r.Ok? ==>
              var c := r.value.chunk;
              var n := |c.payload|;
              |data| == 12 + n + |r.value.rest| &&
              data[4..8] == c.kind &&
              data[8..8 + n] == c.payload &&
              c.crc == Int32BE(data[8 + n..12 + n]) &&
              r.value.rest == data[12 + n..]
    ensures 4 <= |data| && 0 <= Int32BE(data[..4]) ==>
              (r.Ok? <==> 12 + Int32BE(data[..4]) <= |data|) &&
              (r.Ok? ==> |r.value.chunk.payload| == Int32BE(data[..4]))
    ensures |data| < 12 ==> r.Err?
  {
    if |data| < 4 then Err(NotEnoughData)
    else
      var length := Int32BE(data[..4]);
      var afterLength := data[4..];
      if |afterLength| < 4 then Err(NotEnoughData)
      else
        var kind := afterLength[..4];
        match Cursor.TakeFront(afterLength[4..], length)
        case Err(e) => Err(e)
        case Ok(s) =>
          if |s.rest| < 4 then Err(NotEnoughData)
          else
            assert data[8..] == s.taken + s.rest;
            assert s.rest[..4] == data[8 + |s.taken|..12 + |s.taken|];
            Ok(Framed(Chunk(kind, s.taken, Int32BE(s.rest[..4])), s.rest[4..]))
  }

  /** A chunk as an encoder lays it out. */
  function EncodeChunk(c: Chunk): (data: seq<byte>)
    requires WellFormed(c)
  {
    Int32Bytes(|c.payload|) + c.kind + c.payload + Int32Bytes(c.crc)
  }

  predicate WellFormed(c: Chunk)
  {
    |c.kind| == 4 && |c.payload| < TWO_31 && -TWO_31 <= c.crc < TWO_31
  }

  /** Reading an encoded chunk gives back the chunk and leaves what follows it. */
  lemma ReadEncodedChunk(c: Chunk, tail: seq<byte>)
    requires WellFormed(c)
    ensures ReadChunk(EncodeChunk(c) + tail) == Ok(Framed(c, tail))
  {
    var data := EncodeChunk(c) + tail;
    var n := |c.payload|;
    Int32RoundTrip(n);
    Int32RoundTrip(c.crc);
    assert data[..4] == Int32Bytes(n);
    assert data[4..][..4] == c.kind;
    assert data[4..][4..] == c.payload + (Int32Bytes(c.crc) + tail);
    assert (c.payload + (Int32Bytes(c.crc) + tail))[..n] == c.payload;
    assert (c.payload + (Int32Bytes(c.crc) + tail))[n..] == Int32Bytes(c.crc) + tail;
  }

  // ---------------------------------------------------------------------
  // Decoder state touched by chunks

  /** The IHDR fields of the decoder. */
  datatype Header = Header(
    width: int, height: int,
    bitDepth: byte, colorType: byte, compressionMethod: byte, filterMethod: byte, interlaceMethod: byte)

  /** The decoder's fields before any chunk: all zero. */
  const INITIAL_HEADER: Header := Header(0, 0, 0, 0, 0, 0, 0)

  /** The decoder's fields that chunks update; `compressed` is `None` until
      the first IDAT. */
  datatype State = State(header: Header, compressed: Option<seq<byte>>)

  /** The header after `processIHDR(p)`: fields are assigned in order, each
      from its fixed offset, until the payload runs out. */
  function IHDRUpdate(h: Header, p: seq<byte>): (r: Header)
    ensures |p| < 4 ==> r == h
    ensures 8 <= |p| ==> r.width == Int32BE(p[0..4]) && r.height == Int32BE(p[4..8])
    ensures |p| < 13 ==> r.interlaceMethod == h.interlaceMethod
  {
    Header(
      if |p| < 4 then h.width else Int32BE(p[..4]),
      if |p| < 8 then h.height else Int32BE(p[4..8]),
      if |p| < 9 then h.bitDepth else p[8],
      if |p| < 10 then h.colorType else p[9],
      if |p| < 11 then h.compressionMethod else p[10],
      if |p| < 12 then h.filterMethod else p[11],
      if |p| < 13 then h.interlaceMethod else p[12])
  }

  /** The failure `processIHDR(p)` raises, if any. */
  function IHDRError(p: seq<byte>): (r: Option<Error>)
    ensures r.None? <==> 13 <= |p|
  {
    if |p| < 8 then Some(NotEnoughData)
    else if |p| < 13 then Some(NoMoreData)
    else None
  }

  /** A complete IHDR payload sets every field from its offset, whatever
      the fields held before; bytes after the thirteenth are ignored. */
  lemma IHDRFromOffsets(h: Header, p: seq<byte>)
    requires 13 <= |p|
    ensures IHDRUpdate(h, p) ==
            Header(Int32BE(p[0..4]), Int32BE(p[4..8]), p[8], p[9], p[10], p[11], p[12])
  {
    assert p[..4] == p[0..4];
  }

  /** The IHDR payload an encoder writes for a header. */
  function EncodeIHDR(h: Header): (p: seq<byte>)
    requires -TWO_31 <= h.width < TWO_31 && -TWO_31 <= h.height < TWO_31
    ensures |p| == 13
  {
    Int32Bytes(h.width) + Int32Bytes(h.height) +
    [h.bitDepth, h.colorType, h.compressionMethod, h.filterMethod, h.interlaceMethod]
  }

  lemma IHDRRoundTrip(prev: Header, h: Header)
    requires -TWO_31 <= h.width < TWO_31 && -TWO_31 <= h.height < TWO_31
    ensures IHDRUpdate(prev, EncodeIHDR(h)) == h
  {
    var p := EncodeIHDR(h);
    IHDRFromOffsets(prev, p);
    Int32RoundTrip(h.width);
    Int32RoundTrip(h.height);
    assert p[0..4] == Int32Bytes(h.width);
    assert p[4..8] == Int32Bytes(h.height);
  }

  /** `compressedData` after `processIDAT(p)`. */
  function AppendIDAT(compressed: Option<seq<byte>>, p: seq<byte>): (r: Option<seq<byte>>)
    ensures r.Some? && r.value == compressed.GetOr([]) + p
  {
    match compressed
    case None => Some(p)
    case Some(d) => Some(d + p)
  }

  /** The decoder's fields after the handler for chunk `c` has run,
      dispatched on its type; an IHDR handler that fails part-way keeps the
      fields it already set. Types other than IHDR and IDAT change nothing. */
  function ChunkEffect(st: State, c: Chunk): (r: State)
    ensures c.kind != IHDR ==> r.header == st.header
    ensures c.kind != IDAT ==> r.compressed == st.compressed
    ensures c.kind in {IEND, TEXT, ZTXT, TIME} ==> r == st
  {
    if c.kind == IHDR then st.(header := IHDRUpdate(st.header, c.payload))
    else if c.kind == IDAT then st.(compressed := AppendIDAT(st.compressed, c.payload))
    else st
  }

  /** The failure the handler for chunk `c` raises, if any: only a short
      IHDR payload fails. */
  function ChunkError(c: Chunk): (r: Option<Error>)
    ensures r.Some? <==> c.kind == IHDR && |c.payload| < 13
  {
    if c.kind == IHDR then IHDRError(c.payload) else None
  }

  function ApplyChunk(st: State, c: Chunk): Result<State>
  {
    match ChunkError(c)
    case Some(e) => Err(e)
    case None => Ok(ChunkEffect(st, c))
  }

  /** What `decodeChunks` computes: chunks read and applied in order until
      the stream is empty. */
  function ParseChunks(st: State, data: seq<byte>): (r: Result<State>)
    ensures |data| == 0 ==> r == Ok(st)
    ensures 0 < |data| < 12 ==> r == Err(NotEnoughData)
    ensures r.Err? ==> r.error == NotEnoughData || r.error == NoMoreData
    decreases |data|
  {
    if |data| == 0 then Ok(st)
    else
      match ReadChunk(data)
      case Err(e) => Err(e)
      case Ok(f) =>
        match ApplyChunk(st, f.chunk)
        case Err(e) => Err(e)
        case Ok(st') => ParseChunks(st', f.rest)
  }

  // ---------------------------------------------------------------------
  // Independent definition over a list of chunks

  function ApplyChunks(st: State, cs: seq<Chunk>): Result<State>
    decreases |cs|
  {
    if |cs| == 0 then Ok(st)
    else
      match ApplyChunk(st, cs[0])
      case Err(e) => Err(e)
      case Ok(st') => ApplyChunks(st', cs[1..])
  }

  function EncodeChunks(cs: seq<Chunk>): seq<byte>
    requires forall i :: 0 <= i < |cs| ==> WellFormed(cs[i])
    decreases |cs|
  {
    if |cs| == 0 then []
    else
      assert WellFormed(cs[0]);
      EncodeChunk(cs[0]) + EncodeChunks(cs[1..])
  }

  /** Parsing a stream of encoded chunks applies exactly those chunks, in order. */
  lemma {:induction false} ParseEncodedChunks(st: State, cs: seq<Chunk>)
    requires forall i :: 0 <= i < |cs| ==> WellFormed(cs[i])
    ensures ParseChunks(st, EncodeChunks(cs)) == ApplyChunks(st, cs)
    decreases |cs|
  {
    if |cs| > 0 {
      var rest := EncodeChunks(cs[1..]);
      ReadEncodedChunk(cs[0], rest);
      assert |EncodeChunks(cs)| >= 12;
      match ApplyChunk(st, cs[0])
      case Err(e) =>
      case Ok(st') => ParseEncodedChunks(st', cs[1..]);
    }
  }

  /** The payloads of the IDAT chunks among `cs`, concatenated in order. */
  function IDATPayloads(cs: seq<Chunk>): seq<byte>
    decreases |cs|
  {
    if |cs| == 0 then []
    else (if cs[0].kind == IDAT then cs[0].payload else []) + IDATPayloads(cs[1..])
  }

  predicate HasIDAT(cs: seq<Chunk>)
  {
    exists i :: 0 <= i < |cs| && cs[i].kind == IDAT
  }

  /** After a run of chunks, the compressed data is the old data followed
      by the IDAT payloads in arrival order; it stays absent only if it was
      absent and no IDAT arrived. */
  lemma {:induction false} CompressedIsIDATConcatenation(st: State, cs: seq<Chunk>)
    requires ApplyChunks(st, cs).Ok?
    ensures var st' := ApplyChunks(st, cs).value;
            st'.compressed.GetOr([]) == st.compressed.GetOr([]) + IDATPayloads(cs) &&
            (st'.compressed.None? <==> st.compressed.None? && !HasIDAT(cs))
    decreases |cs|
  {
    if |cs| > 0 {
      var st' := ApplyChunk(st, cs[0]).value;
      assert ApplyChunks(st, cs) == ApplyChunks(st', cs[1..]);
      CompressedIsIDATConcatenation(st', cs[1..]);
      assert IDATPayloads(cs) == (if cs[0].kind == IDAT then cs[0].payload else []) + IDATPayloads(cs[1..]);
      if cs[0].kind == IDAT {
        assert st'.compressed == AppendIDAT(st.compressed, cs[0].payload);
        assert st'.compressed.GetOr([]) == st.compressed.GetOr([]) + cs[0].payload;
      } else {
        assert st'.compressed == st.compressed;
      }
      if HasIDAT(cs[1..]) {
        var i :| 0 <= i < |cs[1..]| && cs[1..][i].kind == IDAT;
        assert cs[i + 1].kind == IDAT;
      }
    }
  }
}
