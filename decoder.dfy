/** The decoding steps of the converter's main function up to the
    decompression: the signature, the IHDR chunk, the colour-type check, the
    chunk loop, the check on the palette after it, the output format and the
    image dimensions, with the size of the buffer main allocates for the
    inflated data. */
module Decoder {
  import opened Bytes
  import opened ReturnCodes
  import opened Chunks
  import opened Filters
  import opened PnmFormat

  /** The colour types the converter handles: greyscale (0), truecolour (2)
      and indexed colour (3). */
  predicate SupportedColorType(colorType: byte) {
    colorType == 0 || colorType == 2 || colorType == 3
  }

  /** Where the chunks after IHDR start: the signature (8 bytes), the IHDR
      header (8), its data (13) and its CRC (4). */
  const ChunksStart: nat := 33

  /** The code main returns for a palette in an image that is not indexed. */
  const PaletteNotAllowed: ErrorCode := ErrorDataInvalid

  /** What main has gathered before it decompresses: the dimensions and
      colour type from IHDR, the IDAT data, the palette and, for an image
      with a palette, the PNM format it calls for. */
  datatype Png = Png(width: uint32, height: uint32, colorType: byte,
                     compressed: seq<byte>, palette: Option<seq<byte>>, format: Option<int>)

  /** The decoding steps of main, in its order, each failing with the code
      main returns. */
  function ReadPng(file: seq<byte>): (r: Result<Png>)
    ensures r.Err? ==> r.error == ErrorDataInvalid || r.error == ErrorUnsupported
    ensures r.Ok? ==> && ChunksStart <= |file| && file[..8] == PngSignature
                      && IhdrPresent(file, 8) && file[24] == 8 && SupportedColorType(file[25])
    ensures r.Ok? ==> && r.value.colorType == file[25]
                      && r.value.width == BigEndianToUint32(file[16..20])
                      && r.value.height == BigEndianToUint32(file[20..24])
                      && ProcessChunks(file, ChunksStart, StreamState(None, None), r.value.colorType)
                         == Ok(ChunkData(r.value.compressed, r.value.palette))
    ensures r.Ok? && r.value.palette.Some? ==>
              && r.value.colorType == 3
              && PnmFormatOf(r.value.palette.value).Ok?
              && r.value.format == Some(PnmFormatOf(r.value.palette.value).value)
    ensures r.Ok? && r.value.palette.None? ==> r.value.format.None?
    ensures r == Err(ErrorUnsupported) <==>
              && 8 <= |file| && file[..8] == PngSignature && IhdrPresent(file, 8)
              && (file[24] != 8 || !SupportedColorType(file[25]))
    ensures r.Ok? <==>
              && 8 <= |file| && file[..8] == PngSignature && IhdrPresent(file, 8)
              && file[24] == 8 && SupportedColorType(file[25])
              && var chunks := ProcessChunks(file, ChunksStart, StreamState(None, None), file[25]);
                 && chunks.Ok?
                 && (chunks.value.palette.Some? ==> PnmFormatOf(chunks.value.palette.value).Ok?)
  {
    var afterSignature :- ReadPngSignature(file, 0);
    var ihdr :- ReadIhdrChunk(file, afterSignature);
    IhdrFields(file, ihdr.value, ihdr.next);
    var colorType := ihdr.value[9];
    if !SupportedColorType(colorType) then Err(ErrorUnsupported)
    else
      var chunks :- ProcessChunks(file, ihdr.next, StreamState(None, None), colorType);
      PaletteCheckNeverFails(file, ChunksStart, colorType);
      if chunks.palette.Some? && colorType != 3 then Err(PaletteNotAllowed)
      else
        var format: Option<int> :-
          if chunks.palette.None? then Ok(None)
          else match PnmFormatOf(chunks.palette.value)
               case Err(e) => Err(e)
               case Ok(f) => Ok(Some(f));
        var width := BigEndianToUint32(ihdr.value[0..4]);
        var height := BigEndianToUint32(ihdr.value[4..8]);
        Ok(Png(width, height, colorType, chunks.compressed, chunks.palette, format))
  }

  /** The fields of the IHDR data read at offset 8. */
  lemma IhdrFields(file: seq<byte>, data: seq<byte>, next: nat)
    requires 29 <= |file| && data == file[16..29] && next == 8 + 8 + 13 + CrcSize
    ensures next == ChunksStart && data[9] == file[25] && data[8] == file[24]
    ensures BigEndianToUint32(data[0..4]) == BigEndianToUint32(file[16..20])
    ensures BigEndianToUint32(data[4..8]) == BigEndianToUint32(file[20..24])
  {
    forall k | 0 <= k < 13
      ensures data[k] == file[16 + k]
    {
    }
    assert data[0..4] == file[16..20];
    assert data[4..8] == file[20..24];
  }

  /** The check in main after the chunk loop, that an image with a palette
      is indexed, never fails: the loop already refuses PLTE chunks in other
      images. */
  lemma PaletteCheckNeverFails(file: seq<byte>, pos: nat, colorType: byte)
    ensures var r := ProcessChunks(file, pos, StreamState(None, None), colorType);
            r.Ok? && r.value.palette.Some? ==> colorType == 3
  {
    if colorType != 3 {
      PaletteOnlyIndexed(file, pos, StreamState(None, None), colorType);
    }
  }

  /** The parts of a file laid out one after another. */
  lemma Parts(file: seq<byte>, a: seq<byte>, b: seq<byte>, c: seq<byte>, tail: seq<byte>, i: nat, j: nat)
    requires file == a + b + c + tail && i == |a| && j == |a| + |b|
    ensures file[..i] == a && file[i..j] == b && file[j..j + |c|] == c
  {
    assert file[..i] == (a + b + c + tail)[..|a|];
  }

  /** A well-formed IHDR chunk, encoded, is what ReadIhdrChunk accepts. */
  lemma IhdrEncoded(file: seq<byte>, ihdr: Chunk)
    requires ihdr.chunkType == IHDR && |ihdr.data| == 13 && |ihdr.crc| == 4 && ihdr.data[8] == 8
    requires ChunksStart <= |file| && file[8..ChunksStart] == EncodeChunk(ihdr)
    ensures IhdrPresent(file, 8) && file[16..29] == ihdr.data
    ensures ReadIhdrChunk(file, 8) == Ok(Read(ihdr.data, ChunksStart))
  {
    TypesDistinct();
    var e := EncodeChunk(ihdr);
    DecodeEncode(13);
    assert Uint32ToBigEndian(13) == [0, 0, 0, 13];
    SliceInside(file, 8, e, 0, 8);
    SliceInside(file, 8, e, 8, 21);
    assert e[0..8] == IhdrHeader;
    assert e[8..21] == ihdr.data;
  }

  /** The whole front end on a file made of the signature, an IHDR chunk for
      8-bit samples of a supported colour type, a list of well-formed
      chunks and an IEND header: it returns the dimensions from IHDR, the
      IDAT payloads concatenated in order, the last palette and its format,
      or the error the first failing step gives. */
  lemma PngFile(file: seq<byte>, ihdr: Chunk, cs: seq<Chunk>, endLength: uint32, tail: seq<byte>)
    requires ihdr.chunkType == IHDR && |ihdr.data| == 13 && |ihdr.crc| == 4
    requires ihdr.data[8] == 8 && SupportedColorType(ihdr.data[9])
    requires AllWellFormed(cs)
    requires file == PngSignature + EncodeChunk(ihdr) + EncodeChunks(cs) + (Uint32ToBigEndian(endLength) + IEND) + tail
    ensures var colorType := ihdr.data[9];
            var palette := LastPalette(cs);
            ReadPng(file)
            == if colorType != 3 && HasType(cs, PLTE) then Err(ErrorDataInvalid)
               else if !HasType(cs, IDAT) then Err(ErrorDataInvalid)
               else if palette.Some? && PnmFormatOf(palette.value).Err? then Err(ErrorDataInvalid)
               else Ok(Png(BigEndianToUint32(ihdr.data[0..4]), BigEndianToUint32(ihdr.data[4..8]), colorType,
                           IdatPayloads(cs), palette,
                           if palette.Some? then Some(PnmFormatOf(palette.value).value) else None))
  {
    TypesDistinct();
    var head := PngSignature + EncodeChunk(ihdr);
    var body := EncodeChunks(cs);
    var end := |head| + |body|;
    Parts(file, head, body, Uint32ToBigEndian(endLength) + IEND, tail, |head|, end);
    assert |head| == ChunksStart;
    assert file[..8] == PngSignature && file[8..ChunksStart] == EncodeChunk(ihdr) by {
      assert head[..8] == PngSignature && head[8..] == EncodeChunk(ihdr);
    }
    IhdrEncoded(file, ihdr);
    ChunkStream(file, ChunksStart, cs, end, endLength, ihdr.data[9]);
  }

  /** The size main allocates for the inflated image data: width * height
      * 5, in unsigned 32-bit arithmetic: the exact product only when it
      fits in 32 bits. */
  function MainBufferSize(width: uint32, height: uint32): (size: uint32)
    ensures width * height * 5 < 0x1_0000_0000 ==> size == width * height * 5
  {
    width * height * 5 % 0x1_0000_0000
  }

  /** Two IHDR headers for which the buffer main allocates is smaller than
      the rows applyFilters goes through: a zero width (one filter-type byte
      per row, none allocated), and a width whose product with 5 wraps
      around 2^32 while the rows still fit in 32 bits. */
  lemma MainBufferTooSmall()
    ensures MainBufferSize(0, 1) < RequiredBufferSize(0, 1, 0)
    ensures MainBufferSize(0x4000_0000, 1) < RequiredBufferSize(0x4000_0000, 1, 0)
    ensures RequiredBufferSize(0x4000_0000, 1, 0) < 0x1_0000_0000
  {
    assert RowSize(0x4000_0000, 0) == 0x4000_0000;
  }
}
