# DPX image decoder model

A Dafny model of the decoding core of `dpximage.js`. This is a browser-side
reader for SMPTE ST 268 Digital Picture Exchange (DPX) files. The model
covers four parts:

- **Header parse** (the `DPXImage` constructor). The magic number at offset 0,
  read big-endian, picks the file's byte order. Then the image-data offset,
  width, height, description code, bit size and packing are read at fixed
  offsets.
- **Layout tables.** `numComponentsMap` and `componentsTypesMap` take a
  description code to a channel count and a channel-type name.
- **Pixel decoder** (`readComponent(x, y, c)`). Four bit-depth rules (8, 16,
  10, 12 bits), and the 10-bit rule splits again for RGB (code 50) and
  RGBA (code 51). Each rule computes an address, reads a byte or a word in
  the file's byte order, and cuts the value to eight bits. A read past the
  end of the buffer fails, and so does an unsupported format.
- **Raster builder** (the loop of `paintImage`). It fills a row-major RGBA
  byte array from channels 0 to 2 of every pixel and stores 255 as alpha.

Modules, one file each:

- `Results`: `Option` and `Result` with failure propagation (`:-`).
- `Bytes`: the DataView readers `U8`/`U16`/`U32`, which return `None` where
  DataView throws a RangeError. Also their byte encoders and the round trips
  between them.
- `Layout`: the two tables.
- `Header`: the constructor's parse, as `ParseHeader`, together with
  `Encodes`. `Encodes` is an independent description of where each field
  sits in the file.
- `Pixel`: `ReadComponent` and one function per rule.
- `Packing`: the layouts the rules undo. Component streams are laid out byte
  by byte, as 16-bit words, as 12-bit values left-justified in 16-bit words,
  and as 10-bit values three to a 32-bit word. Lemmas show that
  `ReadComponent` then returns each component's top eight bits.
- `Raster`: `PaintImage` is the nested fill loop over an `array`. It is
  proved against the functional specification `DecodeImage`, and the
  properties of the decoded image are lemmas about that function.

The raster specification is stated over any reader `(x, y, c) -> Result`.
`ReaderOf(h, buf)` instantiates it with `ReadComponent`, so every lemma
about `RowsPrefix` holds for the decoder itself through `DecodeImage`.

Three behaviours of `dpximage.js` worth stating outright:

- **Unknown description code.** The constructor stores the description
  byte without checking it (dpximage.js:60-71), and both tables are only
  consulted later, by getters. `ParseHeader` therefore accepts any code.
  The 8-bit and 16-bit rules need the channel count and return
  `UnknownDescription`. The 10-bit and 12-bit rules never look at the table.
- **16-bit scale-down.** dpximage.js:158 divides the 16-bit word by 256 in
  floating point, and the canvas's clamped byte array rounds the stored
  value. The 10-bit and 12-bit rules shift and mask, so they truncate. See
  `Pixel.Read16` under "Left out".
- **Short buffer.** A DataView read past the end raises a RangeError, which
  the model reports as `TruncatedHeader`. This happens for a buffer too short
  for the magic number, and for a valid magic number in a buffer of fewer
  than 806 bytes.

## Model

| member | source | states |
|---|---|---|
| Bytes.U8 | dpximage.js:61-64 | a byte read succeeds exactly when the offset is inside the buffer, and returns the byte there |
| Bytes.U16 | dpximage.js:72-74 | a 16-bit read succeeds exactly when both bytes are inside the buffer; the value, re-encoded in that byte order, is those two bytes |
| Bytes.U32 | dpximage.js:51-59 | a 32-bit read succeeds exactly when all four bytes are inside the buffer; the value, re-encoded in that byte order, is those four bytes |
| Bytes.Word16Bytes16 | dpximage.js:72-74 | decoding the encoding of a 16-bit value gives the value back, in either byte order |
| Bytes.Bytes16Word16 | dpximage.js:72-74 | encoding the decoded value of two bytes gives the bytes back |
| Bytes.Word32Bytes32 | dpximage.js:51-59 | decoding the encoding of a 32-bit value gives the value back, in either byte order |
| Bytes.Bytes32Word32 | dpximage.js:51-59 | encoding the decoded value of four bytes gives the bytes back (base-256 digits are unique) |
| Bytes.Word32Reversed | dpximage.js:34-38 | a little-endian word is the big-endian word of the reversed bytes |
| Bytes.Words16At | dpximage.js:158 | in a stream of 16-bit words, word i occupies bytes 2i and 2i+1 |
| Bytes.Words32At | dpximage.js:168 | in a stream of 32-bit words, word i occupies bytes 4i to 4i+3 |
| Bytes.U16ReadsWords16 | dpximage.js:158 | a 16-bit read at base + 2i of a buffer holding a word stream at base returns word i |
| Bytes.U32ReadsWords32 | dpximage.js:181 | a 32-bit read at base + 4i of a buffer holding a word stream at base returns word i |
| Layout.NumComponents | dpximage.js:66-68 | the channel count is defined exactly on the table's codes and lies between 1 and 8 |
| Layout.ComponentsType | dpximage.js:69-71 | the channel-type name is defined exactly on the table's codes and is never empty |
| Layout.SameKeys | dpximage.js:78-96 | both tables are keyed by the same set of codes: 0 to 8, 50 to 52, 100 to 103 and 150 to 156 |
| Layout.SingleChannelCodes | dpximage.js:79 | codes 0 to 8 have one channel |
| Layout.UserDefinedCounts | dpximage.js:81 | code 150 + k has k + 2 channels, and its name spells that count, for k from 0 to 6 |
| Layout.RgbCodes | dpximage.js:80-87 | codes 50, 51 and 52 are RGB, RGBA and ABGR with 3, 4 and 4 channels |
| Header.ReadFields | dpximage.js:50-75 | the field reads after the magic check succeed exactly when the buffer holds at least 806 bytes, yield field values within their on-disk widths, and keep the chosen byte order |
| Header.ParseHeader | dpximage.js:31-76 | the parse succeeds exactly for buffers of at least 806 bytes that start with either signature. The result lies in range, is encoded in the buffer, and is little-endian exactly for the reversed signature. A truncated read fails with TruncatedHeader, and a bad magic with at least four bytes present fails with NotDpx |
| Header.MagicSignatures | dpximage.js:34-41 | the big-endian magic read equals 0x53445058 exactly when the file starts "SDPX", and equals 0x58504453 exactly when it starts "XPDS" |
| Header.MagicsReversed | dpximage.js:34-38 | the two signatures are byte reversals of each other, so each read in the other byte order gives the other magic number |
| Header.FieldsEncoded | dpximage.js:44-75 | fields the reads returned are in range and sit in the buffer at offsets 4, 772, 776, 800, 803 and 804 |
| Header.ParseHeaderExactly | dpximage.js:31-76 | the parse returns h exactly when h is in range and the buffer encodes h: signature, then each field at its fixed offset in h's byte order |
| Header.NotDpxWhateverFollows | dpximage.js:34-41 | once the magic is wrong, no bytes after it change the outcome |
| Pixel.Ushr | dpximage.js:169-196 | JavaScript's `>>>` on a 32-bit unsigned word: the count is taken modulo 32 and the result is the word divided by 2 to that power, never more than the word |
| Pixel.ShiftRightDiv | dpximage.js:169 | shifting a non-negative value right by n bits, as `>>>` does for a count below 32, is integer division by 2^n |
| Pixel.Read8 | dpximage.js:149-155 | the 8-bit read succeeds exactly when offset + (y*width+x)*n + c is inside the buffer, and returns that byte |
| Pixel.Read16 | dpximage.js:156-162 | the 16-bit read succeeds exactly when the word at offset + (y*width+x)*n*2 + 2c is inside the buffer |
| Pixel.ClampedStore16 | dpximage.js:217-219 | the byte the clamped store keeps for word / 256 is the nearest integer, ties to even, capped at 255, and is at most one above Read16's quotient |
| Pixel.Read10Rgb | dpximage.js:163-172 | the 10-bit RGB read succeeds exactly when the word at offset + (y*width+x)*4 is inside the buffer |
| Pixel.Read10Rgba | dpximage.js:173-186 | the 10-bit RGBA read succeeds exactly when the word at offset + floor(((y*width+x)*4 + c) / 3) * 4 is inside the buffer |
| Pixel.Read12 | dpximage.js:188-200 | the 12-bit read succeeds exactly when the word at offset + ((y*width+x)*3 + c)*2 is inside the buffer |
| Pixel.ReadComponent | dpximage.js:141-205 | readComponent: every error it returns is an unsupported format, an unknown description code, or a failed read at (x, y, c). When it fails and when it succeeds is `ReadComponentOutcome`; the value each rule returns on any word is `Packing.Read10RgbWord`, `Read10RgbaWord`, `Read12Word` and `Decode16`, and on each layout `Decode8`, `Decode16`, `Decode12`, `Decode10Rgb` and `Decode10Rgba` |
| Pixel.ReadComponentOutcome | dpximage.js:141-205 | the unsupported-format error occurs exactly for bit sizes other than 8, 16 and 12 and for 10 bits with a code other than 50 or 51. The unknown-code error occurs exactly for 8 or 16 bits with a code absent from the tables. Every error is one of the three kinds, with the read's coordinates. A read succeeds exactly when the format is supported, the code is known where needed, and the bytes the rule addresses are inside the buffer |
| Packing.ShiftedByte | dpximage.js:182 | when w = q * 2^n + r with r < 2^n, `(w >>> n) & 0xFF` is the low byte of q |
| Packing.Top8Of12 | dpximage.js:193-196 | for a 12-bit value left-justified in a 16-bit word, `(word >>> 8) & 0xFF` is the value divided by 16 |
| Packing.Pack10StreamAt | dpximage.js:179-182 | word j of a stream packed three 10-bit components to a word holds components 3j, 3j + 1 and 3j + 2 |
| Packing.Unpack10 | dpximage.js:169 | for three 10-bit fields packed most significant first above two padding bits, shifting by 24, 14 or 4 and masking with 0xFF gives the top eight bits of field 0, 1 or 2 |
| Packing.Decode8 | dpximage.js:144-155 | for 8-bit data laid out n bytes per pixel, channel c of pixel (x, y) is byte (y*width+x)*n + c of the image data |
| Packing.Decode16 | dpximage.js:144-162 | for 16-bit data laid out n words per pixel in the file's byte order, channel c of pixel (x, y) is the most significant byte of its word |
| Packing.Decode12 | dpximage.js:188-200 | for 12-bit components left-justified in 16-bit words, three per pixel, a read gives the component divided by 16 (its top eight bits) |
| Packing.Read12Word | dpximage.js:188-199 | on any 16-bit word at the component's address, whatever its low four bits hold, the 12-bit rule returns the word divided by 256, its most significant byte |
| Packing.Decode10Rgb | dpximage.js:163-172 | for 10-bit RGB packed one pixel per word, channels 0 to 2 give the top eight bits of the pixel's three fields |
| Packing.Read10RgbWord | dpximage.js:163-172 | on any 32-bit word at the pixel's address, channel c of the 10-bit RGB rule is `(word >>> (24 - 10c)) & 0xFF` |
| Packing.Decode10Rgba | dpximage.js:173-186 | for 10-bit RGBA, four components per pixel packed three per word across pixel boundaries, each channel gives the top eight bits of its component |
| Packing.Read10RgbaWord | dpximage.js:173-186 | for component 3j + k of the 10-bit RGBA stream and any 32-bit word j, the rule returns `(word >>> (24 - 10k)) & 0xFF` |
| Packing.SingleChannelOverlap | dpximage.js:144-155 | for an 8-bit one-channel image, channel 1 of a pixel reads the same byte as channel 0 of the next pixel, and both reads succeed or fail together |
| Raster.PixelRgba | dpximage.js:215-220 | a pixel's four bytes exist exactly when its reads of channels 0, 1 and 2 succeed; they are those three values and 255. Otherwise the result is the error of the first failing read, in channel order |
| Raster.RowPrefixOk | dpximage.js:214-221 | the first n pixels of a row decode exactly when all their channel reads succeed, and then give 4n bytes |
| Raster.RowPrefixAt | dpximage.js:215-220 | in a decoded row prefix, slot 4x + k holds channel k of pixel x, and slot 4x + 3 holds 255 |
| Raster.RowPrefixError | dpximage.js:214-221 | a failed row prefix reports the error of the first read that fails, in fill order |
| Raster.RowPrefixErrorPersists | dpximage.js:214-221 | a failure in the first n pixels of a row is the failure of every longer prefix |
| Raster.RowsPrefixOk | dpximage.js:213-222 | the first m rows decode exactly when every channel read in them succeeds, and then give 4 * width * m bytes |
| Raster.RowsPrefixAt | dpximage.js:213-222 | in decoded rows, slot (y*width+x)*4 + k holds channel k of pixel (x, y), and slot 3 of each pixel holds 255 |
| Raster.RowsPrefixError | dpximage.js:213-222 | a failed decode reports the error of the first read that fails, with rows top to bottom, pixels left to right and channels 0, 1, 2 |
| Raster.RowsPrefixErrorPersists | dpximage.js:213-222 | a failure in the first m rows is the failure of the whole image: the first error aborts the fill |
| Raster.ChannelThreeIgnored | dpximage.js:217-220 | two readers that agree on channels 0 to 2 produce the same decode: channel 3 is never read |
| Raster.ChannelThreeIgnoredRow | dpximage.js:217-220 | the same for a single row |
| Raster.PaintImage | dpximage.js:207-222 | filling the array succeeds with a fresh array whose contents are the decoded image, or fails with exactly the decode's error |
| Raster.Fill | dpximage.js:213-222 | the row loop fills a fresh width * height * 4 array with the decoded rows, or stops at the first error |
| Raster.FillRow | dpximage.js:214-221 | the pixel loop of row y appends the row's bytes after the rows already written, or returns the row's first error; the bytes after the row are left unchanged |
| Raster.PaintPixel | dpximage.js:215-220 | writes the pixel's three channel values and 255 at its four slots, or returns the first failing read's error; the bytes before and after those slots are left unchanged |
| Raster.DecodeImage | dpximage.js:212-222 | the RGBA array paintImage fills, or the first error it meets; when it exists it has width * height * 4 bytes. Its contents are `DecodeImageAt`, `DecodeImageOk` and `DecodeImageError` |
| Raster.DecodeImageAt | dpximage.js:212-220 | a decoded image has width * height * 4 bytes. Slot (y*width+x)*4 + k holds readComponent(x, y, k) for k < 3, and 255 for k = 3 |
| Raster.DecodeImageOk | dpximage.js:213-222 | decoding succeeds exactly when readComponent succeeds for every pixel and channel 0 to 2 |
| Raster.DecodeImageError | dpximage.js:213-222 | a failed decode carries the error of the first failing readComponent call in fill order |
| Raster.DecodeUnsupported | dpximage.js:201-203 | a non-empty image in an unsupported format fails with the unsupported-format error |
| Raster.DecodeExample | dpximage.js:213-222 | a 2x1 8-bit RGB image with bytes 10..60 decodes to 10, 20, 30, 255, 40, 50, 60, 255 |
| Raster.TwoPixelImage | dpximage.js:213-222 | any 2x1 8-bit RGB image whose six data bytes are 10..60, wherever its data starts, decodes to 10, 20, 30, 255, 40, 50, 60, 255 |
| Raster.ParsedExample | dpximage.js:31-76 | a whole big-endian file, with the header of a 2x1 8-bit RGB image (data at 806) and the six bytes 10..60 after it, parses to that header and decodes to 10, 20, 30, 255, 40, 50, 60, 255 |
| Raster.TruncatedDataExample | dpximage.js:149-155 | a 1x1 8-bit RGB image with only two data bytes fails at channel 2 of pixel (0, 0) |

## Left out

- `readDPXFile` (FileReader and Promise): asynchronous I/O. The model starts from the complete file bytes.
- The `imageObject` getter, the canvas, `toDataURL`, the replacement of `paintImage` and the `dataView = null` guard of `readComponent`: rendering and caching plumbing outside the decoder.
- Canvas sizing, `createImageData` and `putImageData` in `paintImage`. The model returns the filled array. It can be empty, where a canvas would refuse a zero-sized image.
- `index.js`: UI event handling.
- Pixel.Read16: returns the integer quotient word / 256. The code divides in floating point, and the clamped canvas array rounds the stored value to nearest, ties to even. `ClampedStore16` models that store and bounds the gap at one. `PaintImage` stores the quotient.
- Pixel.ReadComponent: for 8 and 16 bits with an unknown description code, returns `UnknownDescription`. The code would compute a NaN offset, which DataView reads as offset 0. The unsupported-format error carries the description code rather than the type name, which the code looks up from it.
- Pixel.ReadComponent: coordinates and channels are natural numbers and arithmetic is exact. The code works in doubles, which agree with exact arithmetic below 2^53. Above that, every address lies beyond any buffer a DataView can hold.
- The partial array that the code leaves behind when a read throws mid-fill: the model returns only the error, since the code never shows that array.
