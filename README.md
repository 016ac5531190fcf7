# PNG decoder model

A Dafny model of the decoding core of a small TypeScript PNG decoder. The
model covers four parts.

- **Byte cursor** (`Cursor.Streamer`, plus the older copy
  `LegacyCursor.Streamer`). A forward-only reader whose remaining bytes
  shrink with every read. It models `read` (also called as `readByte`),
  `readBytes`, `atEnd`, `readInt32` (big-endian, two's complement) and
  `readString`. `readString` returns the raw bytes it consumes.
- **Container parser** (`Chunks`, and the `PNGDecoder` class in
  `Decoder`). It checks the PNG signature of section 3.1 of RFC 2083. It
  then reads chunks laid out as length, type, data and CRC (section 3.2),
  one after another until the input is empty. An IHDR chunk sets the
  header fields (section 4.1.1). IDAT payloads are concatenated in arrival
  order (section 4.1.3). Chunk types are compared as raw ASCII bytes.
- **Scanline reconstructor** (`Scanlines`, and `PNGDecoder`). It splits
  the inflated bytes into `height` rows, each a filter byte followed by the
  row's bytes. It then reverses the None, Sub, Up, Average and Paeth
  filters of section 6 of RFC 2083 in place, modulo 256. Each row is
  reconstructed against the already reconstructed row above it.
- **Pixel grid** (`PixelGrid.Image`). Rows of bytes with three bytes per
  pixel. Supports appending rows, bounds-checked pixel reads and writes,
  and nearest-neighbour resizing.

Each state-changing operation is a method on a class and is proved against
a pure function. Round trips and invariants are proved about those
functions:

- the forward filter of RFC 2083 followed by reconstruction;
- encoding a chunk or an IHDR payload followed by parsing it;
- serializing filtered rows followed by decoding them.

DEFLATE decompression is not modelled. It is a parameter (`inflate`) of
`PNGDecoder.DecodeBitmap`.

## Model

| member | source | states |
|---|---|---|
| Common.Int32BE | src/Streamer.ts:32-34 | The value is in the signed 32-bit range, congruent to the big-endian unsigned value modulo 2^32, and negative exactly when the top bit of the first byte is set |
| Common.Int32RoundTrip | src/Streamer.ts:32-34 | Decoding the four big-endian two's-complement bytes of any 32-bit value gives the value back |
| Cursor.TakeFront | src/Streamer.ts:18-26 | Succeeds iff `count` does not exceed the remaining bytes; taken bytes followed by the rest equal the input; a non-negative count takes exactly `count` bytes; failure is "Not enough data" |
| Cursor.Streamer.constructor | src/Streamer.ts:4-6 | The remaining bytes are the given bytes |
| Cursor.Streamer.Read | src/Streamer.ts:8-16 | On empty data fails with "No more data" and changes nothing; otherwise returns the first byte and keeps the tail |
| Cursor.Streamer.ReadBytes | src/Streamer.ts:18-26 | Fails iff more bytes are asked for than remain, changing nothing; on success returns the front and keeps the rest, the two together equal the old data, and a non-negative count takes exactly that many bytes |
| Cursor.Streamer.AtEnd | src/Streamer.ts:28-30 | True iff no bytes remain |
| Cursor.Streamer.ReadInt32 | src/Streamer.ts:32-34 | Succeeds iff at least 4 bytes remain; then consumes exactly 4 and returns their big-endian two's-complement value, which lies in the signed 32-bit range |
| Cursor.Streamer.ReadString | src/Streamer.ts:36-38 | Same failure condition as `readBytes`; consumes exactly `count` bytes and returns them |
| LegacyCursor.Streamer.constructor | src/components/Streamer.ts:4-6 | The remaining bytes are the given bytes |
| LegacyCursor.Streamer.Read | src/components/Streamer.ts:8-16 | Fails on empty data without changing it; otherwise returns the first byte and keeps the tail |
| LegacyCursor.Streamer.ReadBytes | src/components/Streamer.ts:18-26 | Behaves like `TakeFront`: the front is returned, the rest is kept, and together they equal the old data; `read_bytes(0)` returns nothing and changes nothing |
| Chunks.MatchedPrefixMeaning | src/PNGDecoder.ts:53-61 | The number of leading bytes that agree with the signature marks the first mismatch or the end of the input; it is 8 iff the first eight bytes are the signature |
| Chunks.SignatureCheck | src/PNGDecoder.ts:53-61 | Succeeds iff the first 8 bytes are 137 80 78 71 13 10 26 10; the only errors are "No more data", iff the input is a proper prefix of the signature, and "Corrupted Header", iff some byte after an agreeing prefix differs |
| Chunks.SignatureConsumed | src/PNGDecoder.ts:56-59 | Success consumes exactly 8 bytes; a short input is consumed entirely; a mismatch consumes up to and including the first wrong byte, every byte before it agreeing with the signature |
| Chunks.ReadChunk | src/PNGDecoder.ts:79-83 | A chunk occupies exactly 12 + n bytes: length, type at bytes 4-7, payload at 8..8+n, CRC after it, and the rest follows. For a non-negative length the read succeeds iff 12 + length bytes remain and the payload has that length; failure is "Not enough data" |
| Chunks.ReadEncodedChunk | src/PNGDecoder.ts:79-83 | Reading an encoded well-formed chunk gives back the chunk and leaves exactly the bytes after it |
| Chunks.IHDRError | src/PNGDecoder.ts:168-178 | `processIHDR` fails iff the payload has fewer than 13 bytes: "Not enough data" below 8 bytes, "No more data" from 8 to 12 |
| Chunks.IHDRUpdate | src/PNGDecoder.ts:168-178 | The header after `processIHDR`: each field is assigned from its offset while the payload lasts; a payload under 4 bytes changes nothing; from 8 bytes on, width and height come from bytes 0-3 and 4-7; the interlace method changes only with all 13 bytes |
| Chunks.AppendIDAT | src/PNGDecoder.ts:152-166 | The compressed data after an IDAT is always present and is the old data (empty when absent) followed by the payload |
| Chunks.IHDRFromOffsets | src/PNGDecoder.ts:168-178 | A full payload sets width from bytes 0-3 and height from bytes 4-7 (big-endian, signed), and the five one-byte fields from bytes 8 to 12, whatever they held before |
| Chunks.IHDRRoundTrip | src/PNGDecoder.ts:168-178 | Processing the IHDR payload encoded for any header yields that header |
| Chunks.ChunkEffect | src/PNGDecoder.ts:85-91 | Only an IHDR chunk changes the header and only an IDAT chunk changes the compressed data; IEND, tEXt, zTXt and tIME chunks change nothing, and neither do unknown types |
| Chunks.ChunkError | src/PNGDecoder.ts:85-91 | A chunk handler fails iff the chunk is an IHDR with a payload shorter than 13 bytes |
| Chunks.ParseChunks | src/PNGDecoder.ts:73-92 | The fields after `decodeChunks`: chunks read and applied in order until the input is empty. Empty input changes nothing; 1 to 11 bytes fail with "Not enough data"; the only errors are "Not enough data" and "No more data" |
| Chunks.ParseEncodedChunks | src/PNGDecoder.ts:73-92 | Parsing a stream of encoded chunks applies exactly those chunks, in order, stopping at the first failing handler |
| Chunks.CompressedIsIDATConcatenation | src/PNGDecoder.ts:85-91 | After a run of chunks the compressed data is the old data followed by the IDAT payloads in arrival order; it stays absent iff it was absent and no IDAT arrived |
| Scanlines.Channels | src/PNGDecoder.ts:181-185 | 3 for colour type 2, 4 for colour type 6, and an "unsupported colour type" error for every other type |
| Scanlines.ScanlineSizeIsCeiling | src/PNGDecoder.ts:191-198 | The row size is the least number of whole bytes that hold `width * channels * bitDepth` bits, and 0 at width 0 |
| Scanlines.ScanlineSizeMonotone | src/PNGDecoder.ts:191-198 | The row size does not decrease as the width grows |
| Scanlines.EmptyRowsWithoutWholePixels | src/PNGDecoder.ts:216 | A pixel is zero bytes wide only at bit depth 0, and then every row is empty |
| Scanlines.SerializeLength | src/PNGDecoder.ts:203-207 | Rows of `size` bytes laid end to end, each behind its filter byte, take `rows * (size + 1)` bytes |
| Scanlines.RowsOfSerialize | src/PNGDecoder.ts:203-207 | Splitting serialized rows gives back the rows, whatever bytes follow them |
| Scanlines.Paeth | src/PNGDecoder.ts:243-262 | Returns one of left, above and upper-left that is nearest to `left + above - upperLeft`; above is chosen only if strictly nearer than left; upper-left only if strictly nearer than both (section 6.5 of RFC 2083) |
| Scanlines.Predictor | src/PNGDecoder.ts:220-264 | The amount added back is a byte value; None and filter types above 4 add nothing |
| Scanlines.Unfilter | src/PNGDecoder.ts:219-264 | One row reconstructed left to right against the reconstructed row above; it has the filtered row's length, and `UnfilterAt` gives each byte |
| Scanlines.UnfilterAt | src/PNGDecoder.ts:218-264 | Every reconstructed byte is its filtered value plus the predictor, modulo 256; the predictor reads only bytes already reconstructed in this row and bytes of the row above |
| Scanlines.UnfilterPrefix | src/PNGDecoder.ts:218-264 | Reconstruction reads nothing to the right: reconstructing a prefix gives the prefix of the reconstruction |
| Scanlines.UnfilterIdentity | src/PNGDecoder.ts:221-222 | None, and any filter byte above 4, leaves the row unchanged |
| Scanlines.SubKeepsFirstPixel | src/PNGDecoder.ts:223-228 | Sub leaves the first `bpp` bytes unchanged |
| Scanlines.UpOnFirstRow | src/PNGDecoder.ts:229-234 | With no row above, Up adds nothing |
| Scanlines.UnfilterInvertsFilter | src/PNGDecoder.ts:218-264 | Reconstructing a row filtered with the forward filter of section 6 of RFC 2083 gives back the original row, for every filter type |
| Scanlines.FilterInvertsUnfilter | src/PNGDecoder.ts:218-264 | Filtering the reconstructed row again gives back the filtered row |
| Scanlines.UnfilterRows | src/PNGDecoder.ts:218-267 | Every scanline reconstructed in order, each against the reconstructed row before it; one row per scanline (`UnfilterRowsAt` gives each row) |
| Scanlines.UnfilterRowsPrefix | src/PNGDecoder.ts:218-267 | Reconstructing the first k rows gives the first k reconstructed rows, so row i depends only on rows 0..i |
| Scanlines.UnfilterRowsAt | src/PNGDecoder.ts:218-267 | Row i is scanline i reconstructed against reconstructed row i - 1, or against no row when i = 0 |
| Scanlines.UnfilterRowsInvertsEncode | src/PNGDecoder.ts:218-267 | Reconstructing rows that an encoder filtered one by one, with any choice of filter types, gives back every original row |
| Scanlines.UnfilterInPlace | src/PNGDecoder.ts:219-264 | Reversing a row's filter in place leaves the row equal to its reconstruction |
| Scanlines.UnfilterSub | src/PNGDecoder.ts:223-228 | The Sub loop leaves the row equal to its Sub reconstruction |
| Scanlines.UnfilterUp | src/PNGDecoder.ts:229-234 | The Up loop leaves the row equal to its Up reconstruction |
| Scanlines.UnfilterAverage | src/PNGDecoder.ts:235-242 | The Average loop leaves the row equal to its Average reconstruction (floor of the mean of left and above) |
| Scanlines.UnfilterPaeth | src/PNGDecoder.ts:243-262 | The Paeth loop leaves the row equal to its Paeth reconstruction |
| PixelGrid.PixelAt | src/Image.ts:31-47 | `getPixel` as written: succeeds iff x and y are below the width and row y is present; the error is x, then y, then the missing row; the pixel is bytes 3x, 3x+1 and 3x+2 of row y (undefined past the row's end) |
| PixelGrid.TallGridRowRejected | src/Image.ts:36 | A complete grid two rows high and one pixel wide whose second row `getPixel` rejects, while the checked lookup returns it |
| PixelGrid.CheckedLookupInsideGrid | src/Image.ts:31-47 | In a complete grid, the checked lookup succeeds exactly inside the grid and returns bytes 3x, 3x+1 and 3x+2 of row y |
| PixelGrid.CheckedAgrees | src/Image.ts:31-47 | Wherever the lookup as written succeeds inside the grid, the checked lookup gives the same pixel |
| PixelGrid.StorePixel | src/Image.ts:49-67 | Fails iff x or y is not below the width (x reported first). Otherwise an absent row becomes `width * 3` zero bytes; only bytes 3x..3x+2 of row y are written, with the channels modulo 256; every other row and byte is unchanged; rows past the end leave holes |
| PixelGrid.StorePixelChecked | src/Image.ts:49-67 | The store with the corrected check: succeeds iff x is below the width and y below the height |
| PixelGrid.CheckedStoreAgrees | src/Image.ts:49-67 | In a grid no taller than wide, the corrected store and the store as written give the same rows |
| PixelGrid.TallGridRowNotWritable | src/Image.ts:54 | A complete grid two rows high and one pixel wide whose second row `setPixel` refuses to write, while the corrected store writes it |
| PixelGrid.GetAfterSet | src/Image.ts:31-67 | Reading a pixel right after writing it returns the written pixel, for byte-valued channels |
| PixelGrid.ResampledRows | src/Image.ts:69-89 | The rows after `resize`: none when a new dimension is not positive, otherwise `newHeight` present rows of `3 * newWidth` bytes, pixel (x, y) holding the channels of source pixel (x * oldW div newW, y * oldH div newH) |
| PixelGrid.SourceIndexInRange | src/Image.ts:76-79 | The source index `i * oldSize div newSize` of a target index below `newSize` is below `oldSize` |
| PixelGrid.PartialRowStep | src/Image.ts:77-83 | Writing the resampled pixel x into a row whose first x pixels are resampled gives a row whose first x + 1 pixels are resampled |
| PixelGrid.ResizeStep | src/Image.ts:77-83 | One `setPixel` of the resize loop extends the resized rows by the nearest source pixel |
| PixelGrid.Image.constructor | src/Image.ts:13-22 | Stores height and width; the rows are the supplied ones, or none |
| PixelGrid.Image.AddRow | src/Image.ts:24-29 | Fails iff there are already `height` rows, changing nothing; otherwise appends exactly the row, so the count never exceeds the height |
| PixelGrid.Image.GetPixel | src/Image.ts:31-47 | Succeeds iff x and y are below the width and row y is present, and then returns bytes 3x, 3x+1 and 3x+2 of row y (undefined past the row's end) |
| PixelGrid.Image.SetPixel | src/Image.ts:49-67 | The rows become `StorePixel` of the old rows; nothing changes on failure |
| PixelGrid.Image.FillRow | src/Image.ts:77-83 | Fills target row y pixel by pixel; succeeds iff y is below the new width and every source pixel of the row is readable, and then the row is the resampled row |
| PixelGrid.Image.CopyNearest | src/Image.ts:78-82 | Sets target pixel (x, y) to the nearest source pixel: succeeds iff y is below the new width and that source pixel is readable, and then the row being built gains its resampled pixel x |
| PixelGrid.Image.Resize | src/Image.ts:69-89 | Succeeds iff nothing is to be filled, or every target row passes the width check and every source pixel is readable. On success the dimensions are the new ones and each target pixel (x, y) holds the source pixel (x * oldW div newW, y * oldH div newH). On failure nothing changes |
| Decoder.SplitRows | src/PNGDecoder.ts:200-207 | With a positive height, succeeds iff the input holds `height * (1 + rowSize)` bytes and the colour type is supported; it then yields `height` rows in order and ignores trailing bytes. An empty input fails with "No more data"; any short input fails with the error of the read that runs out |
| Decoder.DecodeRows | src/PNGDecoder.ts:200-267 | A decoded picture has `height` rows, which are the reconstruction of the split rows; the scanlines keep their filter bytes and hold the reconstructed bytes; height 0 fails |
| Decoder.DecodeEncodedRows | src/PNGDecoder.ts:200-267 | Rows filtered with any filter types and serialized, followed by any bytes, decode to the original rows |
| Decoder.ShortRowAfterRows | src/PNGDecoder.ts:203-207 | After whole rows, an input that ends on a row boundary fails on the filter byte ("No more data"), and otherwise on the row ("Not enough data") |
| Decoder.SplitRowsShort | src/PNGDecoder.ts:203-207 | An input, empty or not, that ends inside the requested rows fails with the error of the read that runs out |
| Decoder.PNGDecoder.constructor | src/PNGDecoder.ts:47-48 | The cursor holds the input; every header field is 0; there is no compressed data, no scanline and no image |
| Decoder.PNGDecoder.Open | src/PNGDecoder.ts:47-51 | Construction followed by the signature check: the result is `SignatureCheck` of the input, and the cursor is left after the consumed bytes |
| Decoder.PNGDecoder.ValidateHeader | src/PNGDecoder.ts:53-61 | The result is `SignatureCheck` of the remaining bytes, and exactly `SignatureConsumed` bytes are consumed |
| Decoder.PNGDecoder.DecodeChunks | src/PNGDecoder.ts:73-77 | On success the fields are `ParseChunks` of the old fields and input, and the cursor is empty; a failure is the first failing read or handler |
| Decoder.PNGDecoder.ProcessChunks | src/PNGDecoder.ts:79-92 | A failed read changes no field. Otherwise the chunk's bytes are consumed, the fields become `ChunkEffect` of the chunk, and the result is its handler's `ChunkError` |
| Decoder.PNGDecoder.ProcessIDAT | src/PNGDecoder.ts:152-166 | The compressed data becomes the old data followed by the payload (or the payload when there was none); nothing else changes |
| Decoder.PNGDecoder.ProcessIHDR | src/PNGDecoder.ts:168-178 | The header becomes `IHDRUpdate` of the payload, the result is `IHDRError` of the payload, and nothing else changes |
| Decoder.PNGDecoder.ReadByteFields | src/PNGDecoder.ts:173-177 | The five one-byte fields are set from payload bytes 8 to 12, in order, until the payload runs out; the result says whether it did |
| Decoder.PNGDecoder.ComputeScanlineSizeForWidth | src/PNGDecoder.ts:191-198 | Fails iff the colour type is not 2 or 6; otherwise, for a non-negative width, the size is the least number of whole bytes that hold `w * channels * bitDepth` bits |
| Decoder.PNGDecoder.DecodeBitmap | src/PNGDecoder.ts:63-71 | Parses the chunks, inflates the compressed data, and refuses an interlaced image after inflating, with no scanline read and no image created. Otherwise the scanlines and image are `DecodeRows` of the inflated bytes |
| Decoder.PNGDecoder.DecodeBitmapSimple | src/PNGDecoder.ts:200-212 | Succeeds as `DecodeRows` does: the scanlines are the reconstructed scanlines, and a new image of the header's size holds the reconstructed rows |
| Decoder.PNGDecoder.ReadScanlines | src/PNGDecoder.ts:203-207 | The scanlines pushed are `SplitRows` of the inflated bytes; a failure is the read that runs out |
| Decoder.PNGDecoder.ReconstructRow | src/PNGDecoder.ts:219-264 | A row copied into a buffer and reversed in place is the reconstruction of that row |
| Decoder.PNGDecoder.Unfilter | src/PNGDecoder.ts:214-267 | Every scanline is reconstructed in row order against the reconstructed row above, and the image receives the reconstructed rows, one `addRow` per scanline in order. Fails on an empty scanline list or an unsupported colour type |

## Left out

- DEFLATE decompression (`pako.inflate`) is a function parameter of `PNGDecoder.DecodeBitmap`.
- `draw` is not modelled: it depends on the canvas and the DOM and uses floating-point arithmetic.
- The tEXt, zTXt and tIME handlers are not modelled. They only write to the console. Their own failures are not modelled either: tIME calls a `readInt16` the cursor does not define, and a tEXt payload may lack a NUL byte.
- Console output for unknown chunk types is not modelled; such chunks change nothing.
- `readString`'s `TextDecoder` is not modelled. The raw bytes are returned and chunk types are compared as bytes.
- The CRC of each chunk is read but, as in the code, never checked.
- Adam7 interlacing is not implemented in the code. The model stops with `Adam7Unsupported`.
- The `bytesPerPixel` getter is unused and yields a fraction; `unfilter`'s floored formula is modelled instead.
- PixelGrid.Image.Resize: the scale factors are floats in the code. The model uses exact integer division `i * oldSize div newSize`, which can differ from the float computation when rounding.
- PixelGrid.Image.Resize: requires a non-empty source image (`0 < height` and `0 < width`). With a zero dimension the code's scale factor is infinite or NaN.
- Decoder.PNGDecoder.DecodeBitmap: requires an empty scanline list, i.e. one decode per decoder. It also requires a non-negative width in the parsed header; a negative width makes the code's row size negative, giving `readBytes` slice semantics this model does not follow into the image.
- Decoder.PNGDecoder.DecodeBitmapSimple: the same two requirements as `DecodeBitmap`.
- Decoder.PNGDecoder.DecodeBitmapSimple: on failure only the error is stated; the scanlines and image after it are unspecified.
- Decoder.PNGDecoder.Unfilter: requires every scanline to have the first row's length and no more scanlines than the image's height, which is what `decodeBitmapSimple` provides.
- The scanlines and the image rows share the same `Uint8Array` objects in the code. The model keeps them as separate values, so the aliasing is not captured.
- Decoder.PNGDecoder.DecodeChunks: on failure only the error is stated. The fields set by the chunks read before the failing one, and the bytes consumed, are unspecified.
- Decoder.PNGDecoder.DecodeBitmap: on a failure while parsing chunks or decoding rows, only the error is stated; the fields, scanlines and image after it are unspecified.
- Decoder.PNGDecoder.ReadScanlines: on failure only the error is stated; the scanlines pushed before the failing read are unspecified.
- Decoder.PNGDecoder.ProcessChunks: when a read fails, the bytes it already consumed are unspecified; the fields are stated unchanged.
- Decoder.PNGDecoder.Unfilter: the code would throw a `TypeError` on an empty scanline list and an error from `channels` on an unsupported colour type. The model returns `NoScanlines` and `UnsupportedColorType` for these.

## Findings

| source | as written | input that shows it | evidently intended | confidence | as-written member | corrected member |
|---|---|---|---|---|---|---|
| src/Image.ts:36 | `getPixel` compares the row index `y` with the width | an image 2 rows high and 1 pixel wide: `getPixel(0, 1)` fails with an out-of-range error though row 1 exists | compare `y` with the height | not executed | PixelGrid.TallGridRowRejected | PixelGrid.CheckedLookupInsideGrid |
| src/Image.ts:54 | `setPixel` compares the row index `y` with the width | an image 2 rows high and 1 pixel wide: `setPixel(0, 1, p)` fails with an out-of-range error though row 1 exists | compare `y` with the height | not executed | PixelGrid.TallGridRowNotWritable | PixelGrid.StorePixelChecked |
