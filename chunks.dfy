/** The PNG container parser of the converter (RFC 2083, sections 3.1, 3.2
    and 4.1.1 to 4.1.4): the signature, chunk headers, the IHDR chunk and
    the loop over the remaining chunks that gathers the IDAT payloads and the
    palette. The file is a byte sequence read through a cursor: a read that
    finds fewer bytes than it asks for fails, and a seek may move the cursor
    past the end of the file, after which every read fails. */
module Chunks {
  import opened Bytes
  import opened ReturnCodes

  /** The eight bytes every PNG file starts with (section 3.1). */
  const PngSignature: seq<byte> := [0x89, 0x50, 0x4E, 0x47, 0x0D, 0x0A, 0x1A, 0x0A]

  /** Chunk type codes, as the ASCII bytes of their names. */
  const IHDR: seq<byte> := [0x49, 0x48, 0x44, 0x52]
  const PLTE: seq<byte> := [0x50, 0x4C, 0x54, 0x45]
  const IDAT: seq<byte> := [0x49, 0x44, 0x41, 0x54]
  const IEND: seq<byte> := [0x49, 0x45, 0x4E, 0x44]

  /** The length of the CRC that follows every chunk's data; the converter
      skips it without checking it. */
  const CrcSize: nat := 4

  /** A value read from the file, with the cursor after it. */
  datatype Read<T> = Read(value: T, next: nat)

  /** The length and type fields that start every chunk. */
  datatype ChunkHeader = ChunkHeader(dataSize: uint32, chunkType: seq<byte>)

  // ------------------------------------------------------------------
  // Signature, chunk header and IHDR

  /** readPngSignature, reading the eight bytes at pos. */
  function ReadPngSignature(file: seq<byte>, pos: nat): (r: Result<nat>)
    ensures r.Ok? <==> pos + 8 <= |file| && file[pos..pos + 8] == PngSignature
    ensures r.Ok? ==> r.value == pos + 8
    ensures r.Err? ==> r.error == ErrorDataInvalid
  {
    if pos + 8 > |file| then Err(ErrorDataInvalid)
    else
      var sig := file[pos..pos + 8];
      if !(sig[0] == 0x89 && sig[1] == 0x50 && sig[2] == 0x4E && sig[3] == 0x47 &&
           sig[4] == 0x0D && sig[5] == 0x0A && sig[6] == 0x1A && sig[7] == 0x0A)
      then Err(ErrorDataInvalid)
      else Ok(pos + 8)
  }

  /** readChunk: the big-endian length and the four type bytes at pos. */
  function ReadChunk(file: seq<byte>, pos: nat): (r: Result<Read<ChunkHeader>>)
    ensures r.Ok? <==> pos + 8 <= |file|
    ensures r.Ok? ==> && r.value.next == pos + 8
                      && Uint32ToBigEndian(r.value.value.dataSize) == file[pos..pos + 4]
                      && r.value.value.chunkType == file[pos + 4..pos + 8]
    ensures r.Err? ==> r.error == ErrorDataInvalid
  {
    if pos + 4 > |file| then Err(ErrorDataInvalid)
    else
      var dataSize := BigEndianToUint32(file[pos..pos + 4]);
      EncodeDecode(file[pos..pos + 4]);
      if pos + 8 > |file| then Err(ErrorDataInvalid)
      else Ok(Read(ChunkHeader(dataSize, file[pos + 4..pos + 8]), pos + 8))
  }

  /** The bytes of a well-formed IHDR chunk header: length 13, type IHDR. */
  const IhdrHeader: seq<byte> := [0, 0, 0, 13] + IHDR

  /** An IHDR header at pos followed by its full 13 data bytes. */
  predicate IhdrPresent(file: seq<byte>, pos: nat) {
    pos + 21 <= |file| && file[pos..pos + 8] == IhdrHeader
  }

  /** readIHDRChunk: the 13 data bytes of the IHDR chunk at pos; the cursor
      ends past the chunk's CRC. A missing or malformed chunk is invalid
      data; a bit depth (data byte 8) other than 8 is unsupported. */
  function ReadIhdrChunk(file: seq<byte>, pos: nat): (r: Result<Read<seq<byte>>>)
    ensures r.Ok? <==> IhdrPresent(file, pos) && file[pos + 16] == 8
    ensures r == Err(ErrorUnsupported) <==> IhdrPresent(file, pos) && file[pos + 16] != 8
    ensures r == Err(ErrorDataInvalid) <==> !IhdrPresent(file, pos)
    ensures r.Ok? ==> && r.value.next == pos + 8 + 13 + CrcSize
                      && r.value.value == file[pos + 8..pos + 21]
  {
    var h :- ReadChunk(file, pos);
    IhdrHeaderBytes(file, pos);
    if h.value.dataSize != 13 then Err(ErrorDataInvalid)
    else if h.value.chunkType != IHDR then Err(ErrorDataInvalid)
    else if h.next + 13 > |file| then Err(ErrorDataInvalid)
    else
      var data := file[h.next..h.next + 13];
      if data[8] != 8 then Err(ErrorUnsupported)
      else Ok(Read(data, h.next + 13 + CrcSize))
  }

  /** A header decodes to length 13 and type IHDR exactly when its eight
      bytes are those of IhdrHeader. */
  lemma IhdrHeaderBytes(file: seq<byte>, pos: nat)
    requires pos + 8 <= |file|
    ensures (BigEndianToUint32(file[pos..pos + 4]) == 13 && file[pos + 4..pos + 8] == IHDR)
            <==> file[pos..pos + 8] == IhdrHeader
  {
    var len := file[pos..pos + 4];
    EncodeDecode(len);
    DecodeEncode(13);
    assert Uint32ToBigEndian(13) == [0, 0, 0, 13];
    assert file[pos..pos + 8] == len + file[pos + 4..pos + 8];
    assert len == file[pos..pos + 8][..4];
    assert IhdrHeader[..4] == [0, 0, 0, 13] && IhdrHeader[4..] == IHDR;
  }

  // ------------------------------------------------------------------
  // The chunk loop

  /** What the loop has gathered so far: the IDAT payloads (None until the
      first IDAT chunk, as the NULL buffer of readAndProcessChunks) and the palette. */
  datatype StreamState = StreamState(idat: Option<seq<byte>>, palette: Option<seq<byte>>)

  /** What a successful loop hands back: the compressed image data and the
      palette, if a PLTE chunk was seen. */
  datatype ChunkData = ChunkData(compressed: seq<byte>, palette: Option<seq<byte>>)

  /** The bytes of an optional buffer, empty for None. */
  function Contents(b: Option<seq<byte>>): seq<byte> {
    if b.Some? then b.value else []
  }

  /** The decreasing measure of the loop: the bytes left before the end of
      the file (none once the cursor has been moved past it). */
  function Remaining(file: seq<byte>, pos: nat): nat {
    if pos <= |file| then |file| - pos else 0
  }

  /** How far past its header the loop moves to skip a chunk it ignores: the
      data length plus the CRC, added in unsigned 32-bit arithmetic. */
  function SkipDistance(dataSize: uint32): nat {
    (dataSize + CrcSize) % 0x1_0000_0000
  }

  /** The outcome of one iteration of the loop: it either returns, or goes on
      at a new cursor with a new state. */
  datatype Step = Done(result: Result<ChunkData>) | Continue(next: nat, st: StreamState)

  /** One iteration of readAndProcessChunks at pos: read a chunk header; stop
      at IEND (an error if no IDAT chunk was seen); append an IDAT payload;
      store a PLTE payload (an error unless the colour type is 3); skip any
      other chunk. Every iteration that goes on moves the cursor forward
      past a header that lay inside the file. */
  function ChunkStep(file: seq<byte>, pos: nat, st: StreamState, colorType: byte): (s: Step)
    ensures s.Done? && s.result.Err? ==> s.result.error == ErrorDataInvalid
    ensures s.Continue? ==> pos + 8 <= |file| && pos + 8 <= s.next
  {
    match ReadChunk(file, pos)
    case Err(_) => Done(Err(ErrorDataInvalid))
    case Ok(h) =>
      var dataSize := h.value.dataSize;
      var chunkType := h.value.chunkType;
      if chunkType == IEND then
        if st.idat.None? then Done(Err(ErrorDataInvalid))
        else Done(Ok(ChunkData(st.idat.value, st.palette)))
      else if chunkType == IDAT then
        if h.next + dataSize > |file| then Done(Err(ErrorDataInvalid))
        else
          var data := file[h.next..h.next + dataSize];
          Continue(h.next + dataSize + CrcSize, StreamState(Some(Contents(st.idat) + data), st.palette))
      else if chunkType == PLTE then
        if colorType != 3 then Done(Err(ErrorDataInvalid))
        else if h.next + dataSize > |file| then Done(Err(ErrorDataInvalid))
        else
          var data := file[h.next..h.next + dataSize];
          Continue(h.next + dataSize + CrcSize, StreamState(st.idat, Some(data)))
      else
        Continue(h.next + SkipDistance(dataSize), st)
  }

  /** readAndProcessChunks as a function of the file, the cursor and the
      state so far: iterate ChunkStep until it returns. */
  function ProcessChunks(file: seq<byte>, pos: nat, st: StreamState, colorType: byte): (r: Result<ChunkData>)
    ensures r.Err? ==> r.error == ErrorDataInvalid
    decreases Remaining(file, pos)
  {
    match ChunkStep(file, pos, st, colorType)
    case Done(result) => result
    case Continue(next, st') => ProcessChunks(file, next, st', colorType)
  }

  /** The four chunk types the converter knows are distinct. */
  lemma TypesDistinct()
    ensures IHDR != PLTE && IHDR != IDAT && IHDR != IEND
    ensures PLTE != IDAT && PLTE != IEND && IDAT != IEND
  {
    assert IHDR[0] != PLTE[0] && IDAT[1] != IHDR[1] && IEND[1] != IHDR[1];
    assert PLTE[0] != IDAT[0] && PLTE[0] != IEND[0] && IDAT[1] != IEND[1];
  }

  /** One IDAT chunk: its payload is appended and the loop goes on past it. */
  lemma StepIdat(file: seq<byte>, at: nat, st: StreamState, colorType: byte,
                 header: Result<Read<ChunkHeader>>, cursor: nat, st': StreamState)
    requires header == ReadChunk(file, at) && header.Ok? && header.value.value.chunkType == IDAT
    requires var next, dataSize := header.value.next, header.value.value.dataSize;
             && next + dataSize <= |file| && cursor == next + dataSize + CrcSize
             && st' == StreamState(Some(Contents(st.idat) + file[next..next + dataSize]), st.palette)
    ensures ChunkStep(file, at, st, colorType) == Continue(cursor, st')
  {
    TypesDistinct();
  }

  /** One PLTE chunk of an indexed-colour image: its payload replaces the palette. */
  lemma StepPlte(file: seq<byte>, at: nat, st: StreamState, colorType: byte,
                 header: Result<Read<ChunkHeader>>, cursor: nat, st': StreamState)
    requires header == ReadChunk(file, at) && header.Ok? && header.value.value.chunkType == PLTE
    requires var next, dataSize := header.value.next, header.value.value.dataSize;
             && colorType == 3 && next + dataSize <= |file| && cursor == next + dataSize + CrcSize
             && st' == StreamState(st.idat, Some(file[next..next + dataSize]))
    ensures ChunkStep(file, at, st, colorType) == Continue(cursor, st')
  {
    TypesDistinct();
  }

  /** Any other chunk (not IEND, IDAT or PLTE) is skipped. */
  lemma StepSkip(file: seq<byte>, at: nat, st: StreamState, colorType: byte,
                 header: Result<Read<ChunkHeader>>, cursor: nat)
    requires header == ReadChunk(file, at) && header.Ok?
    requires var t := header.value.value.chunkType; t != IEND && t != IDAT && t != PLTE
    requires cursor == header.value.next + SkipDistance(header.value.value.dataSize)
    ensures ChunkStep(file, at, st, colorType) == Continue(cursor, st)
  {
  }

  /** The iterations that return: a header that cannot be read, IEND, and an
      IDAT or PLTE chunk whose data cannot be read or is not allowed. */
  lemma ProcessStops(file: seq<byte>, at: nat, st: StreamState, colorType: byte, header: Result<Read<ChunkHeader>>)
    requires header == ReadChunk(file, at)
    ensures header.Err? ==> ProcessChunks(file, at, st, colorType) == Err(ErrorDataInvalid)
    ensures header.Ok? && header.value.value.chunkType == IEND ==>
              ProcessChunks(file, at, st, colorType)
              == if st.idat.None? then Err(ErrorDataInvalid) else Ok(ChunkData(st.idat.value, st.palette))
    ensures header.Ok? && header.value.value.chunkType == IDAT
            && header.value.next + header.value.value.dataSize > |file| ==>
              ProcessChunks(file, at, st, colorType) == Err(ErrorDataInvalid)
    ensures header.Ok? && header.value.value.chunkType == PLTE
            && (colorType != 3 || header.value.next + header.value.value.dataSize > |file|) ==>
              ProcessChunks(file, at, st, colorType) == Err(ErrorDataInvalid)
  {
    TypesDistinct();
  }

  /** An iteration that goes on leaves the rest of the loop to the next one. */
  lemma ProcessContinue(file: seq<byte>, at: nat, st: StreamState, colorType: byte, cursor: nat, st': StreamState)
    requires ChunkStep(file, at, st, colorType) == Continue(cursor, st')
    ensures ProcessChunks(file, at, st, colorType) == ProcessChunks(file, cursor, st', colorType)
    ensures Remaining(file, cursor) < Remaining(file, at)
  {
  }

  /** readAndProcessChunks: the loop over the chunks after IHDR, starting at
      pos with no IDAT data and no palette. Its condition `!feof(file)` holds
      on every iteration (each one either returns or ends with a seek, which
      clears the end-of-file flag), so the loop ends only at IEND or on an
      error; the check for a missing IDAT chunk after it never fires. */
  method ReadAndProcessChunks(file: seq<byte>, pos: nat, colorType: byte) returns (r: Result<ChunkData>)
    ensures r == ProcessChunks(file, pos, StreamState(None, None), colorType)
  {
    ghost var goal := ProcessChunks(file, pos, StreamState(None, None), colorType);
    var cursor: nat := pos;
    var buffer: Option<seq<byte>> := None;
    var plte: Option<seq<byte>> := None;
    while true
      invariant ProcessChunks(file, cursor, StreamState(buffer, plte), colorType) == goal
      decreases Remaining(file, cursor)
    {
      ghost var at := cursor;
      var header := ReadChunk(file, cursor);
      ProcessStops(file, at, StreamState(buffer, plte), colorType, header);
      if header.Err? {
        return Err(ErrorDataInvalid);
      }
      var dataSize := header.value.value.dataSize;
      var chunkType := header.value.value.chunkType;
      cursor := header.value.next;
      if chunkType == IEND {
        if buffer.None? {
          return Err(ErrorDataInvalid);
        }
        break;
      }
      if chunkType == IDAT {
        if cursor + dataSize > |file| {
          return Err(ErrorDataInvalid);
        }
        ghost var before := StreamState(buffer, plte);
        buffer := Some(Contents(buffer) + file[cursor..cursor + dataSize]);
        cursor := cursor + dataSize + CrcSize;
        StepIdat(file, at, before, colorType, header, cursor, StreamState(buffer, plte));
        ProcessContinue(file, at, before, colorType, cursor, StreamState(buffer, plte));
      } else if chunkType == PLTE {
        if colorType != 3 {
          return Err(ErrorDataInvalid);
        }
        if cursor + dataSize > |file| {
          return Err(ErrorDataInvalid);
        }
        ghost var before := StreamState(buffer, plte);
        plte := Some(file[cursor..cursor + dataSize]);
        cursor := cursor + dataSize + CrcSize;
        StepPlte(file, at, before, colorType, header, cursor, StreamState(buffer, plte));
        ProcessContinue(file, at, before, colorType, cursor, StreamState(buffer, plte));
      } else {
        cursor := cursor + SkipDistance(dataSize);
        StepSkip(file, at, StreamState(buffer, plte), colorType, header, cursor);
        ProcessContinue(file, at, StreamState(buffer, plte), colorType, cursor, StreamState(buffer, plte));
      }
    }
    return Ok(ChunkData(buffer.value, plte));
  }

  // ------------------------------------------------------------------
  // Streams of well-formed chunks

  /** A chunk as section 3.2 of RFC 2083 lays it out: type, data and CRC. */
  datatype Chunk = Chunk(chunkType: seq<byte>, data: seq<byte>, crc: seq<byte>)

  /** A chunk that can stand before IEND: a four-byte type other than IEND,
      a four-byte CRC and at most 2^31 - 1 data bytes (section 3.2). */
  predicate WellFormed(c: Chunk) {
    |c.chunkType| == 4 && c.chunkType != IEND && |c.crc| == 4 && |c.data| < 0x8000_0000
  }

  predicate AllWellFormed(cs: seq<Chunk>) {
    forall i :: 0 <= i < |cs| ==> WellFormed(cs[i])
  }

  /** The bytes of one chunk: big-endian length, type, data, CRC. */
  function EncodeChunk(c: Chunk): (bytes: seq<byte>)
    requires WellFormed(c)
    ensures |bytes| == 8 + |c.data| + CrcSize
  {
    Uint32ToBigEndian(|c.data|) + c.chunkType + c.data + c.crc
  }

  function EncodeChunks(cs: seq<Chunk>): (bytes: seq<byte>)
    requires AllWellFormed(cs)
  {
    if cs == [] then [] else EncodeChunk(cs[0]) + EncodeChunks(cs[1..])
  }

  /** Some chunk of cs has type t. */
  predicate HasType(cs: seq<Chunk>, t: seq<byte>) {
    exists i :: 0 <= i < |cs| && cs[i].chunkType == t
  }

  /** Chunk i of cs has type t and no later chunk has. */
  predicate LastOfType(cs: seq<Chunk>, i: nat, t: seq<byte>)
    requires i < |cs|
  {
    cs[i].chunkType == t && forall j :: i < j < |cs| ==> cs[j].chunkType != t
  }

  /** The IDAT payloads of cs, in order, concatenated. */
  function IdatPayloads(cs: seq<Chunk>): seq<byte> {
    if cs == [] then []
    else (if cs[0].chunkType == IDAT then cs[0].data else []) + IdatPayloads(cs[1..])
  }

  /** The data of the last PLTE chunk of cs, if there is one. */
  function LastPalette(cs: seq<Chunk>): (p: Option<seq<byte>>)
    ensures p.Some? <==> HasType(cs, PLTE)
    ensures p.Some? ==> exists i :: 0 <= i < |cs| && LastOfType(cs, i, PLTE) && p.value == cs[i].data
  {
    if cs == [] then None
    else
      var later := LastPalette(cs[1..]);
      assert forall i :: 1 <= i < |cs| ==> cs[i] == cs[1..][i - 1];
      if later.Some? then
        var i :| 0 <= i < |cs[1..]| && LastOfType(cs[1..], i, PLTE) && later.value == cs[1..][i].data;
        assert LastOfType(cs, i + 1, PLTE);
        later
      else if cs[0].chunkType == PLTE then
        assert LastOfType(cs, 0, PLTE);
        Some(cs[0].data)
      else None
  }

  /** The loop's effect on one chunk: an IDAT payload is appended, a PLTE
      chunk replaces the palette or, unless the colour type is 3, is an
      error, and any other chunk is passed over. */
  function AbsorbChunk(c: Chunk, st: StreamState, colorType: byte): Result<StreamState> {
    if c.chunkType == IDAT then Ok(StreamState(Some(Contents(st.idat) + c.data), st.palette))
    else if c.chunkType == PLTE then
      if colorType != 3 then Err(ErrorDataInvalid) else Ok(StreamState(st.idat, Some(c.data)))
    else Ok(st)
  }

  /** The loop's effect on a chunk list, chunk by chunk. */
  function Absorb(cs: seq<Chunk>, st: StreamState, colorType: byte): Result<StreamState>
    decreases |cs|
  {
    if cs == [] then Ok(st)
    else
      var st' :- AbsorbChunk(cs[0], st, colorType);
      Absorb(cs[1..], st', colorType)
  }

  /** A slice of a slice of the file. */
  lemma SliceInside(file: seq<byte>, pos: nat, e: seq<byte>, k: nat, m: nat)
    requires pos + |e| <= |file| && file[pos..pos + |e|] == e && k <= m <= |e|
    ensures file[pos + k..pos + m] == e[k..m]
  {
    assert forall j :: k <= j < m ==> file[pos + j] == e[j];
  }

  /** The header of an encoded chunk reads back as its length and type, and
      its data follows the header. */
  lemma ReadEncodedHeader(file: seq<byte>, pos: nat, c: Chunk)
    requires WellFormed(c)
    requires pos + |EncodeChunk(c)| <= |file| && file[pos..pos + |EncodeChunk(c)|] == EncodeChunk(c)
    ensures ReadChunk(file, pos) == Ok(Read(ChunkHeader(|c.data|, c.chunkType), pos + 8))
    ensures file[pos + 8..pos + 8 + |c.data|] == c.data
  {
    var e := EncodeChunk(c);
    var n := |c.data|;
    SliceInside(file, pos, e, 0, 4);
    SliceInside(file, pos, e, 4, 8);
    SliceInside(file, pos, e, 8, 8 + n);
    assert e[0..4] == Uint32ToBigEndian(n);
    assert e[4..8] == c.chunkType;
    assert e[8..8 + n] == c.data;
    var h := ReadChunk(file, pos);
    DecodeEncode(n);
    DecodeEncode(h.value.value.dataSize);
  }

  /** The two parts of an encoding laid out at pos in the file. */
  lemma SliceParts(file: seq<byte>, pos: nat, e: seq<byte>, es: seq<byte>, all: seq<byte>, next: nat)
    requires all == e + es && pos + |all| <= |file| && file[pos..pos + |all|] == all
    requires next == pos + |e|
    ensures file[pos..pos + |e|] == e
    ensures next + |es| <= |file| && file[next..next + |es|] == es
  {
    SliceInside(file, pos, all, 0, |e|);
    SliceInside(file, pos, all, |e|, |all|);
    assert all[|e|..] == es;
  }

  /** The loop reads one encoded chunk as AbsorbChunk says. */
  lemma StepEncoded(file: seq<byte>, pos: nat, c: Chunk, st: StreamState, colorType: byte)
    requires WellFormed(c)
    requires pos + |EncodeChunk(c)| <= |file| && file[pos..pos + |EncodeChunk(c)|] == EncodeChunk(c)
    ensures ChunkStep(file, pos, st, colorType)
         == match AbsorbChunk(c, st, colorType)
            case Err(e) => Done(Err(e))
            case Ok(st') => Continue(pos + |EncodeChunk(c)|, st')
  {
    ReadEncodedHeader(file, pos, c);
    var header := ReadChunk(file, pos);
    var cursor := pos + |EncodeChunk(c)|;
    TypesDistinct();
    if c.chunkType == IDAT {
      StepIdat(file, pos, st, colorType, header, cursor, AbsorbChunk(c, st, colorType).value);
    } else if c.chunkType == PLTE {
      if colorType == 3 {
        StepPlte(file, pos, st, colorType, header, cursor, AbsorbChunk(c, st, colorType).value);
      }
    } else {
      assert SkipDistance(|c.data|) == |c.data| + CrcSize;
      StepSkip(file, pos, st, colorType, header, cursor);
    }
  }

  /** The loop's result once the chunks before the cursor have been gathered
      as r, or Absorb's error if gathering them failed. */
  function Resume(file: seq<byte>, r: Result<StreamState>, pos: nat, colorType: byte): Result<ChunkData> {
    match r
    case Err(e) => Err(e)
    case Ok(st) => ProcessChunks(file, pos, st, colorType)
  }

  /** An iteration that returns ends the loop with its result. */
  lemma ProcessDone(file: seq<byte>, at: nat, st: StreamState, colorType: byte, r: Result<ChunkData>)
    requires ChunkStep(file, at, st, colorType) == Done(r)
    ensures ProcessChunks(file, at, st, colorType) == r
  {
  }

  /** Absorb takes the first chunk first. */
  lemma AbsorbFirst(cs: seq<Chunk>, st: StreamState, colorType: byte)
    requires cs != []
    ensures Absorb(cs, st, colorType)
         == match AbsorbChunk(cs[0], st, colorType)
            case Err(e) => Err(e)
            case Ok(st1) => Absorb(cs[1..], st1, colorType)
  {
  }

  /** The encoding of a non-empty chunk list: the first chunk, then the rest. */
  lemma EncodeFirst(cs: seq<Chunk>)
    requires AllWellFormed(cs) && cs != []
    ensures AllWellFormed(cs[1..])
    ensures EncodeChunks(cs) == EncodeChunk(cs[0]) + EncodeChunks(cs[1..])
  {
    assert forall i :: 0 <= i < |cs| - 1 ==> cs[1..][i] == cs[i + 1];
  }

  /** Reading an encoded chunk list that ends at end: the loop goes through
      its chunks as Absorb does, failing where Absorb fails, and continues at
      end otherwise. */
  lemma {:induction false} ProcessEncoded(file: seq<byte>, pos: nat, cs: seq<Chunk>, end: nat, st: StreamState, colorType: byte)
    requires AllWellFormed(cs) && end == pos + |EncodeChunks(cs)|
    requires end <= |file| && file[pos..end] == EncodeChunks(cs)
    ensures ProcessChunks(file, pos, st, colorType) == Resume(file, Absorb(cs, st, colorType), end, colorType)
    decreases |cs|
  {
    if cs == [] {
      assert pos == end;
    } else {
      var c, rest := cs[0], cs[1..];
      EncodeFirst(cs);
      var e, es := EncodeChunk(c), EncodeChunks(rest);
      var all := EncodeChunks(cs);
      var next := pos + |e|;
      SliceParts(file, pos, e, es, all, next);
      StepEncoded(file, pos, c, st, colorType);
      AbsorbFirst(cs, st, colorType);
      var step := AbsorbChunk(c, st, colorType);
      if step.Ok? {
        var st1 := step.value;
        ProcessContinue(file, pos, st, colorType, next, st1);
        ProcessEncoded(file, next, rest, end, st1, colorType);
      } else {
        ProcessDone(file, pos, st, colorType, Err(step.error));
      }
    }
  }

  // ------------------------------------------------------------------
  // What the loop gathers from a chunk list

  /** What a chunk list adds to a state, stated over the whole list: the
      list fails if it holds a PLTE chunk and the image is not indexed;
      otherwise its IDAT payloads, in order, are appended to the buffer (which
      then exists, even when they are all empty) and its last PLTE chunk, if
      any, becomes the palette. */
  function Gathered(cs: seq<Chunk>, st: StreamState, colorType: byte): Result<StreamState> {
    if colorType != 3 && HasType(cs, PLTE) then Err(ErrorDataInvalid)
    else
      Ok(StreamState(if HasType(cs, IDAT) then Some(Contents(st.idat) + IdatPayloads(cs)) else st.idat,
                     if HasType(cs, PLTE) then LastPalette(cs) else st.palette))
  }

  lemma HasTypeFirst(cs: seq<Chunk>, t: seq<byte>)
    requires cs != []
    ensures HasType(cs, t) <==> cs[0].chunkType == t || HasType(cs[1..], t)
  {
    if HasType(cs, t) && cs[0].chunkType != t {
      var i :| 0 <= i < |cs| && cs[i].chunkType == t;
      assert cs[1..][i - 1] == cs[i];
    }
    if HasType(cs[1..], t) {
      var i :| 0 <= i < |cs[1..]| && cs[1..][i].chunkType == t;
      assert cs[i + 1] == cs[1..][i];
    }
  }

  /** A list without IDAT chunks has no IDAT payload. */
  lemma {:induction false} NoIdatNoPayload(cs: seq<Chunk>)
    requires !HasType(cs, IDAT)
    ensures IdatPayloads(cs) == []
    decreases |cs|
  {
    if cs != [] {
      HasTypeFirst(cs, IDAT);
      NoIdatNoPayload(cs[1..]);
    }
  }

  /** Absorb, chunk by chunk, gathers what Gathered says. */
  lemma {:induction false} AbsorbGathers(cs: seq<Chunk>, st: StreamState, colorType: byte)
    ensures Absorb(cs, st, colorType) == Gathered(cs, st, colorType)
    decreases |cs|
  {
    if cs != [] {
      var c, rest := cs[0], cs[1..];
      HasTypeFirst(cs, IDAT);
      HasTypeFirst(cs, PLTE);
      AbsorbFirst(cs, st, colorType);
      TypesDistinct();
      match AbsorbChunk(c, st, colorType)
      case Err(_) =>
      case Ok(st1) =>
        AbsorbGathers(rest, st1, colorType);
        if !HasType(rest, IDAT) {
          NoIdatNoPayload(rest);
        }
        if c.chunkType == IDAT {
          assert IdatPayloads(cs) == c.data + IdatPayloads(rest);
          assert Contents(st.idat) + IdatPayloads(cs) == Contents(st1.idat) + IdatPayloads(rest);
          if !HasType(rest, IDAT) {
            assert Contents(st1.idat) + IdatPayloads(rest) == Contents(st1.idat);
          }
        } else {
          assert IdatPayloads(cs) == IdatPayloads(rest);
        }
    }
  }

  // ------------------------------------------------------------------
  // Whole streams

  /** A stream of well-formed chunks followed by an IEND header: the loop
      fails if a PLTE chunk appears in an image that is not indexed or if
      there is no IDAT chunk; otherwise it returns the IDAT payloads
      concatenated in order and the data of the last PLTE chunk. */
  lemma ChunkStream(file: seq<byte>, pos: nat, cs: seq<Chunk>, end: nat, endLength: uint32, colorType: byte)
    requires AllWellFormed(cs) && end == pos + |EncodeChunks(cs)|
    requires end + 8 <= |file| && file[pos..end] == EncodeChunks(cs)
    requires file[end..end + 8] == Uint32ToBigEndian(endLength) + IEND
    ensures ProcessChunks(file, pos, StreamState(None, None), colorType)
         == if colorType != 3 && HasType(cs, PLTE) then Err(ErrorDataInvalid)
            else if !HasType(cs, IDAT) then Err(ErrorDataInvalid)
            else Ok(ChunkData(IdatPayloads(cs), LastPalette(cs)))
  {
    var st := StreamState(None, None);
    ProcessEncoded(file, pos, cs, end, st, colorType);
    AbsorbGathers(cs, st, colorType);
    var g := Gathered(cs, st, colorType);
    if g.Ok? {
      SliceInside(file, end, Uint32ToBigEndian(endLength) + IEND, 4, 8);
      var header := ReadChunk(file, end);
      assert header.value.value.chunkType == IEND;
      ProcessStops(file, end, g.value, colorType, header);
      assert Contents(st.idat) + IdatPayloads(cs) == IdatPayloads(cs);
    }
  }

  /** A stream of well-formed chunks that the file ends in before another
      full chunk header is invalid data: without IEND the loop never
      succeeds. */
  lemma TruncatedStream(file: seq<byte>, pos: nat, cs: seq<Chunk>, end: nat, st: StreamState, colorType: byte)
    requires AllWellFormed(cs) && end == pos + |EncodeChunks(cs)|
    requires end <= |file| < end + 8 && file[pos..end] == EncodeChunks(cs)
    ensures ProcessChunks(file, pos, st, colorType) == Err(ErrorDataInvalid)
  {
    ProcessEncoded(file, pos, cs, end, st, colorType);
    AbsorbGathers(cs, st, colorType);
    var g := Gathered(cs, st, colorType);
    if g.Ok? {
      ProcessStops(file, end, g.value, colorType, ReadChunk(file, end));
    }
  }

  /** Unless the image is indexed, no iteration sets the palette. */
  lemma StepKeepsPalette(file: seq<byte>, pos: nat, st: StreamState, colorType: byte)
    requires colorType != 3
    ensures var s := ChunkStep(file, pos, st, colorType);
            && (s.Done? && s.result.Ok? ==> s.result.value.palette == st.palette)
            && (s.Continue? ==> s.st.palette == st.palette)
  {
  }

  /** Unless the image is indexed, a successful loop that started without a
      palette returns none (so the check after the loop in main never fires). */
  lemma {:induction false} PaletteOnlyIndexed(file: seq<byte>, pos: nat, st: StreamState, colorType: byte)
    requires colorType != 3 && st.palette.None?
    ensures ProcessChunks(file, pos, st, colorType).Ok? ==> ProcessChunks(file, pos, st, colorType).value.palette.None?
    decreases Remaining(file, pos)
  {
    StepKeepsPalette(file, pos, st, colorType);
    match ChunkStep(file, pos, st, colorType)
    case Done(r) =>
      ProcessDone(file, pos, st, colorType, r);
    case Continue(next, st') =>
      ProcessContinue(file, pos, st, colorType, next, st');
      PaletteOnlyIndexed(file, next, st', colorType);
  }

  /** A complete chunk header of type IEND at q. */
  predicate IendHeaderAt(file: seq<byte>, q: nat) {
    q + 8 <= |file| && file[q + 4..q + 8] == IEND
  }

  /** An iteration returns data only at a complete IEND header. */
  lemma StepSucceedsAtIend(file: seq<byte>, pos: nat, st: StreamState, colorType: byte)
    ensures var s := ChunkStep(file, pos, st, colorType);
            s.Done? && s.result.Ok? ==> IendHeaderAt(file, pos)
  {
    TypesDistinct();
  }

  /** The cursor of the iteration at which the loop returns. */
  function StopCursor(file: seq<byte>, pos: nat, st: StreamState, colorType: byte): (q: nat)
    ensures pos <= q
    decreases Remaining(file, pos)
  {
    match ChunkStep(file, pos, st, colorType)
    case Done(_) => pos
    case Continue(next, st') => StopCursor(file, next, st', colorType)
  }

  /** A successful loop returns at a complete IEND header. */
  lemma {:induction false} StopsAtIend(file: seq<byte>, pos: nat, st: StreamState, colorType: byte)
    ensures ProcessChunks(file, pos, st, colorType).Ok? ==> IendHeaderAt(file, StopCursor(file, pos, st, colorType))
    decreases Remaining(file, pos)
  {
    match ChunkStep(file, pos, st, colorType)
    case Done(r) =>
      ProcessDone(file, pos, st, colorType, r);
      StepSucceedsAtIend(file, pos, st, colorType);
    case Continue(next, st') =>
      ProcessContinue(file, pos, st, colorType, next, st');
      StopsAtIend(file, next, st', colorType);
  }

  /** A header that lies inside the first k bytes reads the same from them. */
  lemma ReadChunkOnPrefix(file: seq<byte>, pos: nat, k: nat)
    requires pos + 8 <= k <= |file|
    ensures ReadChunk(file[..k], pos) == ReadChunk(file, pos)
  {
    assert file[..k][pos..pos + 4] == file[pos..pos + 4];
    assert file[..k][pos + 4..pos + 8] == file[pos + 4..pos + 8];
  }

  /** An iteration that goes on past its chunk's data behaves the same on the
      first k bytes of the file when they hold that data (next <= k). */
  lemma StepOnPrefix(file: seq<byte>, pos: nat, st: StreamState, colorType: byte, k: nat, next: nat, st': StreamState)
    requires k <= |file| && ChunkStep(file, pos, st, colorType) == Continue(next, st')
    ensures next <= k ==> ChunkStep(file[..k], pos, st, colorType) == Continue(next, st')
    ensures var s := ChunkStep(file[..k], pos, st, colorType);
            s == Continue(next, st') || s == Done(Err(ErrorDataInvalid))
  {
    TypesDistinct();
    if pos + 8 <= k {
      ReadChunkOnPrefix(file, pos, k);
      var h := ReadChunk(file, pos).value;
      var e := h.next + h.value.dataSize;
      if e <= k {
        assert file[..k][h.next..e] == file[h.next..e];
      }
    }
  }

  /** On the first k bytes of the file, where k lies before the end of the
      IEND header at which the loop returns, the loop fails. */
  lemma {:induction false} PrefixFails(file: seq<byte>, pos: nat, st: StreamState, colorType: byte, k: nat)
    requires ProcessChunks(file, pos, st, colorType).Ok?
    requires pos <= k < StopCursor(file, pos, st, colorType) + 8 && k <= |file|
    ensures ProcessChunks(file[..k], pos, st, colorType).Err?
    decreases Remaining(file, pos)
  {
    StopsAtIend(file, pos, st, colorType);
    var cut := file[..k];
    match ChunkStep(file, pos, st, colorType)
    case Done(r) =>
      ProcessStops(cut, pos, st, colorType, ReadChunk(cut, pos));
    case Continue(next, st') =>
      ProcessContinue(file, pos, st, colorType, next, st');
      StepOnPrefix(file, pos, st, colorType, k, next, st');
      if ChunkStep(cut, pos, st, colorType).Continue? {
        ProcessContinue(cut, pos, st, colorType, next, st');
        if next <= k {
          PrefixFails(file, next, st', colorType, k);
        } else {
          ProcessStops(cut, next, st', colorType, ReadChunk(cut, next));
        }
      } else {
        ProcessDone(cut, pos, st, colorType, Err(ErrorDataInvalid));
      }
  }

  /** The loop succeeds only after reading a complete IEND header at or after
      its starting cursor, and the bytes up to the end of that header are
      all needed: the same loop over any shorter prefix of the file (one
      that runs out before IEND, inside a header or inside a chunk's data)
      fails. */
  lemma SuccessNeedsIend(file: seq<byte>, pos: nat, st: StreamState, colorType: byte)
    ensures ProcessChunks(file, pos, st, colorType).Ok? ==>
              var q := StopCursor(file, pos, st, colorType);
              && pos <= q && IendHeaderAt(file, q)
              && forall k: nat :: pos <= k < q + 8 ==> ProcessChunks(file[..k], pos, st, colorType).Err?
  {
    if ProcessChunks(file, pos, st, colorType).Ok? {
      StopsAtIend(file, pos, st, colorType);
      var q := StopCursor(file, pos, st, colorType);
      forall k: nat | pos <= k < q + 8
        ensures ProcessChunks(file[..k], pos, st, colorType).Err?
      {
        PrefixFails(file, pos, st, colorType, k);
      }
    }
  }
}
