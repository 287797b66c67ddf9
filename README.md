# PNG to PNM converter: the decoding core

This project models, in Dafny, the decoding core of a small command-line
converter (`main.c`) that turns a PNG image into a binary PNM image (P5
greymap or P6 pixmap). The converter reads the 8-byte PNG signature and the
IHDR chunk (it needs 8-bit samples and colour type 0, 2 or 3). It then runs a
loop over the remaining chunks. The loop concatenates the IDAT payloads,
keeps the PLTE payload, skips every other chunk and stops at IEND. Then
main picks the PNM format from the palette, inflates the IDAT data and
undoes the per-row PNG filters (None, Sub, Up, Average, Paeth) in place.

The model has seven modules:

- `Bytes` (bytes.dfy): bytes, unsigned 32-bit words and the big-endian
  decoding of `bigEndianToUint32`, with its inverse.
- `ReturnCodes` (return_codes.dfy): the return codes, and a `Result` type
  that carries a value or an error code.
- `Chunks` (chunks.dfy): `readPngSignature`, `readChunk` and
  `readIHDRChunk` as functions on the file's bytes and a cursor.
  `readAndProcessChunks` is a method with its loop, proved equal to a
  recursive specification (`ProcessChunks`). An encoder for chunk streams
  is used to state what the loop extracts from a well-formed stream.
- `PnmFormat` (pnm_format.dfy): `getPNMFormat` as a method with its loop,
  proved equal to a specification function.
- `Filters` (filters.dfy): the Paeth predictor and the reconstruction of
  one row and of the whole image, as pure functions. The row
  reconstruction is proved to invert the PNG encoder's filtering.
- `Reconstruct` (reconstruct.dfy): `applySubFilter`, `applyUpFilter`,
  `applyAverageFilter`, `applyPaethFilter` and `applyFilters` as methods
  that work in place on an `array<byte>`. Each is proved to leave the
  buffer as the `Filters` functions describe.
- `Decoder` (decoder.dfy): main's decoding steps, in main's order.

The file is a `seq<byte>` and the file position a `nat` cursor. Seeking past
the end of the file is allowed, as with C's `fseek`; the next read then fails.

## Model

| member | source | states |
|---|---|---|
| Bytes.BigEndianToUint32 | main.c:26-28 | the word is buf[0]·2^24 + buf[1]·2^16 + buf[2]·2^8 + buf[3], below 2^32 |
| Bytes.DecodeEncode | main.c:26-28 | decoding the big-endian encoding of a word gives the word back |
| Bytes.EncodeDecode | main.c:26-28 | encoding the word decoded from four bytes gives those four bytes back |
| Chunks.ReadPngSignature | main.c:30-43 | succeeds exactly when the 8 bytes at the cursor exist and are the PNG signature; the cursor moves 8 bytes; any failure is ErrorDataInvalid |
| Chunks.ReadChunk | main.c:45-59 | succeeds exactly when 8 bytes remain; the length field is the big-endian encoding of the decoded size, the type is the next 4 bytes and the cursor moves 8; otherwise ErrorDataInvalid |
| Chunks.ReadIhdrChunk | main.c:61-92 | success exactly when an IHDR header of length 13 and its 13 data bytes are present with bit depth 8. ErrorUnsupported exactly when such a chunk has another bit depth. ErrorDataInvalid exactly when the header or data is missing or malformed. On success it returns the 13 data bytes and the cursor moves past the CRC |
| Chunks.ChunkStep | main.c:97-145 | one loop iteration: an error it returns is ErrorDataInvalid; an iteration that goes on read a header inside the file and moves the cursor past it |
| Chunks.ProcessChunks | main.c:94-152 | the loop as a recursive function over the cursor; every error it returns is ErrorDataInvalid |
| Chunks.StepIdat | main.c:108-120 | an IDAT chunk whose data is in the file appends that data to the buffer and moves the cursor past data and CRC |
| Chunks.StepPlte | main.c:121-138 | in an indexed image, a PLTE chunk whose data is in the file replaces the palette and moves the cursor past data and CRC |
| Chunks.StepSkip | main.c:139-144 | any other chunk type leaves the state alone and moves the cursor by (length + 4) mod 2^32 |
| Chunks.ProcessStops | main.c:98-135 | the loop fails on an unreadable header, on IEND before any IDAT, on a truncated IDAT or PLTE, and on PLTE in a non-indexed image; IEND after IDAT returns the buffer and palette |
| Chunks.ProcessContinue | main.c:96-145 | an iteration that goes on hands the rest of the loop to the new cursor and state, with fewer bytes left |
| Chunks.ReadAndProcessChunks | main.c:94-152 | the imperative loop returns exactly ProcessChunks from the cursor with no buffer and no palette |
| Chunks.LastPalette | main.c:121-138 | a stream has a palette exactly when it has a PLTE chunk, and the palette is the data of the PLTE chunk that no later chunk of that type follows |
| Chunks.ProcessEncoded | main.c:94-152 | on an encoded stream of well-formed chunks, the loop equals folding the chunk-by-chunk absorption over the stream, then resuming after it |
| Chunks.AbsorbGathers | main.c:108-138 | that fold fails exactly when a PLTE chunk appears in a non-indexed image; otherwise it yields all IDAT payloads in order and the last palette |
| Chunks.ChunkStream | main.c:94-152 | for well-formed chunks followed by an IEND header, the result is ErrorDataInvalid if a PLTE chunk appears in a non-indexed image, ErrorDataInvalid if there is no IDAT chunk, and otherwise the concatenated IDAT payloads with the last palette |
| Chunks.TruncatedStream | main.c:97-100 | well-formed chunks followed by fewer than 8 bytes (no complete chunk header) give ErrorDataInvalid |
| Chunks.SuccessNeedsIend | main.c:97-107 | for every input, a successful loop returns at a complete IEND header at or after its starting cursor (StopCursor, where the loop's last iteration reads its header), and the same loop over every shorter prefix of the file that ends before the end of that header fails: input that runs out before IEND, inside a header or inside chunk data, is an error |
| Chunks.PrefixFails | main.c:97-136 | one prefix at a time: cutting the file anywhere between the starting cursor and the end of the IEND header makes a successful loop fail |
| Chunks.StepKeepsPalette | main.c:121-125 | in a non-indexed image, an iteration never sets a palette |
| Chunks.PaletteOnlyIndexed | main.c:121-125 | a successful loop over a non-indexed image returns no palette |
| PnmFormat.PnmFormatOf | main.c:223-236 | ErrorDataInvalid exactly when the palette length is not a multiple of 3. Otherwise 5 exactly when every entry has equal red, green and blue, and 6 exactly when some entry does not |
| PnmFormat.GetPnmFormat | main.c:223-236 | the loop with early exit returns exactly PnmFormatOf |
| PnmFormat.GreyEntryKeepsFormat | main.c:228-233 | appending a grey entry does not change the format |
| PnmFormat.ColourEntryGivesPixmap | main.c:228-233 | one entry with unequal components makes the format 6 |
| Filters.PaethPredictor | main.c:268-280 | the prediction is always one of the three neighbours a, b, c |
| Filters.PaethClosest | main.c:268-280 | the prediction is one of a, b, c and is at least as close to a + b − c as each. a wins every tie it is in. b wins over c on ties. c is chosen only when strictly closer than a and b |
| Filters.PaethAllEqual | main.c:268-280 | equal neighbours predict their common value |
| Filters.ReconstructRowAt | main.c:238-293 | each byte of a reconstructed row is the filtered byte plus the filter's prediction, mod 256. The prediction uses the reconstructed left neighbour (0 at the left edge), the byte above and the byte above-left |
| Filters.ReconstructRow | main.c:238-293 | the reconstruction of one row from its filtered bytes and the reconstructed row above has the row's length; ReconstructRowAt gives its bytes |
| Filters.SubRowAt | main.c:238-242 | Sub adds the reconstructed byte bpp positions to the left, or nothing in the first bpp positions |
| Filters.UpRowAt | main.c:244-255 | Up adds the byte of the row above |
| Filters.AverageRowAt | main.c:257-266 | Average adds the floor of the mean of the left and above bytes |
| Filters.PaethRowAt | main.c:282-293 | Paeth adds the Paeth prediction from left, above and above-left, with 0 for neighbours outside the image |
| Filters.RowRoundTrip | main.c:238-293 | for every filter type, reconstructing a row that the PNG encoder filtered against the same row above gives the original row |
| Filters.NoneRowUnchanged | main.c:302-303 | filter type 0 leaves a row as stored |
| Filters.UpFirstRowUnchanged | main.c:244-247 | Up over the all-zero row above the first row changes nothing, as the early return does |
| Filters.SubIgnoresPrev | main.c:238-242 | Sub does not depend on the row above |
| Filters.UpIgnoresBpp | main.c:244-255 | Up does not depend on the pixel width |
| Filters.FirstUnknownRow | main.c:299-320 | the row where applyFilters stops: every earlier tag is a filter type 0-4, and the tag there (if it is below height) is not |
| Filters.DefilterRows | main.c:299-321 | the buffer after the first n rows are reconstructed top to bottom keeps its length; DefilterRowsFrame, DefilterRowsRow and DefilterRowsNone give its rows |
| Filters.DefilterRowsFrame | main.c:299-321 | reconstructing the first n rows keeps every tag byte and every row from n on |
| Filters.DefilterRowsTail | main.c:299-321 | reconstructing the first n rows leaves every byte from row n's tag to the end of the buffer as stored, a partial last row included |
| Filters.DefilterRowsRow | main.c:299-321 | each row of the result is its stored bytes reconstructed under its tag, from the reconstructed row above (zeros for the first row) |
| Filters.DefilterRowsNone | main.c:302-303 | a row with tag 0 comes out as stored |
| Filters.ImageRoundTrip | main.c:295-324 | reconstructing an image whose rows the encoder filtered, each against the original row above, yields every original row |
| Filters.BytesPerPixel | main.c:296 | 3 bytes per pixel exactly for colour type 2, otherwise 1 |
| Filters.RowSize | main.c:297 | width · bpp in 32-bit unsigned arithmetic: the width for one byte per pixel, the exact product whenever it is below 2^32 |
| Filters.RequiredBufferSize | main.c:297-300 | every row's tag byte and data lie below it, and the last row ends at it (rowSize = width · bpp mod 2^32) |
| Reconstruct.ApplySubFilter | main.c:238-242 | the buffer afterwards is the old one with the row replaced by its Sub reconstruction |
| Reconstruct.ScanlineAbove | main.c:259-263 | the row a scanline pointer designates: the bytes from the pointer on, or zeros for NULL |
| Reconstruct.ScanlinePointers | main.c:249-250 | the current and previous scanline pointers address the row's data bytes and the data bytes of the row above (NULL for the first row) |
| Reconstruct.ApplyUpFilter | main.c:244-255 | the buffer afterwards is the old one with row rowIndex replaced by its Up reconstruction against the row above |
| Reconstruct.UpScanline | main.c:252-254 | the loop leaves the buffer as before with the current scanline replaced by its Up reconstruction against the previous one |
| Reconstruct.ApplyAverageFilter | main.c:257-266 | the same for the Average reconstruction |
| Reconstruct.AverageScanline | main.c:259-265 | the loop leaves the buffer as before with the current scanline replaced by its Average reconstruction against the scanline above (zeros for NULL) |
| Reconstruct.ApplyPaethFilter | main.c:282-293 | the same for the Paeth reconstruction |
| Reconstruct.PaethScanline | main.c:284-292 | the loop leaves the buffer as before with the current scanline replaced by its Paeth reconstruction against the scanline above (zeros for NULL) |
| Reconstruct.ApplyRowFilter | main.c:302-316 | one turn of the switch: the row replaced by its reconstruction under its tag 0-4 |
| Reconstruct.ApplyFilters | main.c:295-324 | the buffer afterwards is DefilterRows up to the first row with an unknown tag. Success exactly when there is no such row. Otherwise ErrorDataInvalid |
| Decoder.ReadPng | main.c:380-432 | main's steps in order. It succeeds exactly when the signature, an IHDR chunk with bit depth 8 and colour type 0, 2 or 3, the chunk loop and (for a palette) the format choice all succeed. It gives ErrorUnsupported exactly when the signature and IHDR are present but the bit depth or colour type is not supported, and ErrorDataInvalid in every other case. On success the width, height and colour type are IHDR's fields, the data and palette are the loop's result, and a palette (only in indexed images) comes with its PNM format |
| Decoder.PaletteCheckNeverFails | main.c:413-420 | main's check for a palette in a non-indexed image never fires after a successful loop |
| Decoder.PngFile | main.c:380-432 | for a file made of signature, IHDR, well-formed chunks and an IEND header, the decoder's outcome is given chunk by chunk: the errors, or the dimensions, concatenated IDAT payloads, last palette and its format |
| Decoder.MainBufferSize | main.c:433 | the buffer size main computes, width · height · 5 in 32-bit unsigned arithmetic: the exact product only when it is below 2^32 |
| Decoder.MainBufferTooSmall | main.c:433 | the buffer main allocates can be smaller than the rows applyFilters walks through: for width 0, and for width 2^30 where the product wraps |

## Left out

- Decoder.ReadPng: main calls getPNMFormat (main.c:423-424) on every image, but `plte.data_size` is set only when a PLTE chunk was read (main.c:401-402 set only `plte.data`). For colour types 0 and 2, and for type 3 without PLTE, main's result then depends on an uninitialised value: ErrorDataInvalid, a NULL dereference at main.c:229, or format 5. The model gives these images no format (`format == None`) and succeeds.
- Decoder.ReadPng: main.c has no check that a colour-type-3 image has a PLTE chunk, although RFC 2083 (section 4.1.2) requires a PLTE chunk in every colour-type-3 image. The model follows the code and decodes such an image with no palette.
- Decoder.ReadPng: decompression (main.c:441-447, the zlib and libdeflate wrappers) is a call into other libraries. Its output is the buffer given to Reconstruct.ApplyFilters.
- Decoder.ReadPng: writePNM, fopen and fclose of both files, the argument count check, freeing memory and the messages on stderr are not part of this model. The file is a byte sequence and the position a cursor.
- Chunks.ReadIhdrChunk, Chunks.ChunkStep, Decoder.ReadPng: allocation never fails here, so the ERROR_OUT_OF_MEMORY returns at main.c:74-78, 110-113, 128-132 and 435-440 are never produced. The contracts' "every error of the loop is ErrorDataInvalid" holds only because these returns are dropped.
- Chunks.ChunkStep: `realloc` of the IDAT buffer is taken to return a usable block for every size, including 0. An empty first IDAT chunk therefore counts as seen (`Some([])`), as with glibc's `realloc(NULL, 0)`. On glibc, `realloc(p, 0)` with `p` not NULL frees `p` and returns NULL. So two empty IDAT chunks before any data make main.c return ERROR_OUT_OF_MEMORY at main.c:112, and main.c:409 then frees the buffer a second time. The model returns `Ok(ChunkData([], palette))` there.
- Chunks.ProcessStops, Decoder.ReadPng: when a PLTE chunk's data runs past the end of the file in an indexed-colour image, main.c:134 frees the palette buffer without clearing `plte->data`, and main.c:408 frees it a second time. That is undefined behaviour in main.c; the model returns `Err(ErrorDataInvalid)` there, the error code main.c:136 returns before the second free.
- Chunks.StepIdat: the running IDAT size `*bufferSize + data_size` (main.c:109, 119) is unbounded here. Its 32-bit wrap past 4 GiB of IDAT data is not modelled.
- Chunks.StepSkip: the skip `data_size + 4` wraps in 32 bits as in main.c, and is then taken as a non-negative `long` offset (a 64-bit `long`). `fseek` past the end of the file succeeds and the next read fails, as in C.
- Chunks.ChunkStep: CRCs are skipped by main.c and are not checked here either.
- Reconstruct.ApplyFilters, Reconstruct.ApplyUpFilter, Reconstruct.ApplyAverageFilter, Reconstruct.ApplyPaethFilter: the offsets `rowIndex * (rowSize + 1)` (main.c:249-250, 258-259, 283-284, 300) are unbounded here. This is exact only while the buffer is below 2^32 bytes; the precondition keeps every row inside the buffer.
- PnmFormat.GetPnmFormat: the `int` index `i * 3` (main.c:229) is unbounded here. Its overflow for palettes over 2^31 bytes is not modelled.
- Chunks.ReadAndProcessChunks: the check for a missing IDAT chunk after the loop (main.c:146-149) is unreachable, because the loop ends only at IEND, where the same check is made. The model does not code it. The loop condition `!feof(file)` always holds at the loop head, because every iteration that goes on ends with a seek, which clears the end-of-file flag.

## Findings

| source | as written | input that shows it | evidently intended | confidence | as-written member | corrected member |
|---|---|---|---|---|---|---|
| main.c:433 | the inflated buffer is `width * height * 5` bytes in unsigned 32-bit arithmetic | width 0, height 1, colour type 0, IDAT data that inflates to no bytes: main allocates 0 bytes and applyFilters reads the row's tag byte at offset 0. Or width 0x4000_0000, height 1, colour type 0: the product with 5 wraps to 2^30 bytes, but the row's tag byte and data need 2^30 + 1 | a buffer of height · (1 + width · bpp) bytes, one tag byte plus the data per row | not executed | Decoder.MainBufferTooSmall | Filters.RequiredBufferSize |
