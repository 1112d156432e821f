# InfiniTAM image file utilities in Dafny

This project models the image codec code of InfiniTAM's
`ORUtils/FileUtils.cpp` and proves properties of it. That code has three parts:

- `svpng` writes a minimal PNG file. The file holds the signature and the
  IHDR, IDAT and IEND chunks. Inside IDAT is a zlib stream with one stored
  deflate block per row. A nibble-table CRC-32 and a running Adler-32 are
  updated byte by byte.
- The Netpbm (PGM/PPM) routines read and write headers and raw or text
  samples: `pnm_readheader`, `pnm_writeheader`, `pnm_readdata_binary`,
  `pnm_readdata_ascii(_helper)` and `pnm_writedata`.
- The pixel loops of `SaveImageToFile`, `SaveImageToPNG` and
  `ReadImageFromFile`:
  - RGBA to RGB packing, optionally with the rows flipped;
  - RGB to RGBA expansion with alpha 255;
  - the 16-bit byte swap, applied on the binary path only.

Files are byte strings (`seq<byte>`). A writer returns the bytes it would
write. A reader takes the bytes of the file and returns an `Option`. `None` is
where the source returns `false` or `FORMAT_UNKNOWN`. The C library's
`fscanf("%[^ \n\t]")`, `fscanf("%i")` and `fprintf("%i")` are modelled byte by
byte in `Scan`. Loops that fill buffers are methods over arrays or over an
output sequence. Each method is proved against a function on sequences.

Modules:

| file | module | contents |
|---|---|---|
| `wrappers.dfy` | `Wrappers` | `Option` |
| `grid.dfy` | `Grid` | row-major block sizes (`Times`) without multiplication |
| `bytes.dfy` | `Bytes` | big-endian and little-endian integer encodings |
| `scan.dfy` | `Scan` | `%[^ \n\t]`, `%i`, and decimal `%i` output |
| `adler32.dfy` | `Adler32` | reference Adler-32 (section 2.2 of RFC 1950); the writer's running update |
| `crc32.dfy` | `Crc32` | bitwise reference CRC-32 (section 5.5 of the PNG Specification); the writer's nibble table |
| `png.dfy` | `Png` | `svpng` as a method; `Encode`, the file it must produce |
| `png_decode.dfy` | `PngDecode` | an independent PNG reader for these files; the round trip |
| `pnm.dfy` | `Pnm` | header and sample readers and writers; the three divergences below |
| `pixels.dfy` | `Pixels` | pack, flip, expand and swap loops over arrays |
| `image_io.dfy` | `ImageIo` | the public save and read functions; the file round trips |

## Model

| member | source | states |
|---|---|---|
| Png.Svpng | InfiniTAM/ORUtils/FileUtils.cpp:340-372 | the writer's output is exactly `Encode`: the signature, then IHDR, IDAT and IEND chunks, each with the length of its data and the CRC of its type and data |
| Png.EncodeLayout | InfiniTAM/ORUtils/FileUtils.cpp:354-359 | every file starts with 89 50 4E 47 0D 0A 1A 0A. Then comes IHDR: length 13, width and height big-endian, depth 8, colour type 6 with alpha and 2 without, three zero bytes. The file ends with the 12-byte IEND chunk |
| Png.Layout | InfiniTAM/ORUtils/FileUtils.cpp:354-359 | the same fixed frame for any chunk between IHDR and IEND |
| Png.EndChunk | InfiniTAM/ORUtils/FileUtils.cpp:371 | the IEND chunk is 00 00 00 00, "IEND", AE 42 60 82 |
| Png.IdatLength | InfiniTAM/ORUtils/FileUtils.cpp:344-369 | the announced IDAT length `2 + h*(5+p) + 4` equals the length of the zlib stream written after the type |
| Png.PutImageData | InfiniTAM/ORUtils/FileUtils.cpp:360-370 | the IDAT chunk is written with its 32-bit length field and the CRC over type and stream |
| Png.PutStream | InfiniTAM/ORUtils/FileUtils.cpp:361-369 | the IDAT data is the zlib header 78 01, the row blocks, and the Adler-32 word `(b << 16) \| a` of the filtered rows |
| Png.PutRows | InfiniTAM/ORUtils/FileUtils.cpp:362-368 | the row loop writes one stored block per row. The registers start at `a = 1`, `b = 0` and end as the reduced Adler sums of the filter bytes and pixels only |
| Png.PutRow | InfiniTAM/ORUtils/FileUtils.cpp:363-367 | a row's block: header byte 1 only for the last row, LEN = `p` and NLEN = `~p` little-endian, filter byte 0, then `p-1` pixel bytes; the pointer advances past them |
| Png.PutPixels | InfiniTAM/ORUtils/FileUtils.cpp:366-367 | the pixel loop outputs the next `p-1` image bytes through the CRC and into both Adler sums |
| Png.PutAdler | InfiniTAM/ORUtils/FileUtils.cpp:351 | one `SVPNG_U8ADLER` keeps `a` and `b` equal to the reference sums modulo 65521 |
| Png.PutCrc | InfiniTAM/ORUtils/FileUtils.cpp:345-350 | bytes written through `SVPNG_U8C` are appended in order, and the register ends as the reference CRC register fed with them |
| Png.Begin | InfiniTAM/ORUtils/FileUtils.cpp:352 | `SVPNG_BEGIN` writes the length big-endian and starts the CRC at `~0` over the type only, not the length |
| Png.Close | InfiniTAM/ORUtils/FileUtils.cpp:353 | `SVPNG_END` writes the complemented register, which completes the chunk |
| Png.PutHeader | InfiniTAM/ORUtils/FileUtils.cpp:355-359 | the IHDR chunk as emitted equals `Chunk(IHDR, ImageHeader(w, h, alpha))` |
| Png.PutEnd | InfiniTAM/ORUtils/FileUtils.cpp:371 | the IEND chunk as emitted equals `Chunk(IEND, [])` |
| Png.ImageHeader | InfiniTAM/ORUtils/FileUtils.cpp:356-358 | the IHDR data is 13 bytes |
| Png.Extend | InfiniTAM/ORUtils/FileUtils.cpp:347-348 | writing more bytes through the CRC keeps the chunk open, with its data extended |
| Png.BlocksLength | InfiniTAM/ORUtils/FileUtils.cpp:360-367 | `h` rows of `p-1` bytes take `h*(5+p)` bytes as stored blocks |
| Png.FlattenRows | InfiniTAM/ORUtils/FileUtils.cpp:366 | the advancing `img` pointer covers the image row after row: the rows laid end to end are the image |
| Png.Rows | InfiniTAM/ORUtils/FileUtils.cpp:362-367 | the image cut into `h` rows of `p-1` bytes |
| Crc32.NibbleTable | InfiniTAM/ORUtils/FileUtils.cpp:342-343 | entry `k` of the sixteen-entry table `t[]` is four bit steps of reflected CRC-32 with polynomial 0xEDB88320 applied to `k` |
| Crc32.TableByteStep | InfiniTAM/ORUtils/FileUtils.cpp:347 | `c ^= u` followed by two nibble-table lookups equals one byte step of the reference CRC-32, for every register and byte |
| Crc32.NibbleStep | InfiniTAM/ORUtils/FileUtils.cpp:347 | one lookup `c = (c >> 4) ^ t[c & 15]` equals four bit steps of the reference CRC, for every register value |
| Crc32.RegisterAppend | InfiniTAM/ORUtils/FileUtils.cpp:348 | feeding two strings one after the other equals feeding their concatenation |
| Crc32.RegisterOne | InfiniTAM/ORUtils/FileUtils.cpp:347 | feeding one byte is one byte step |
| Crc32.IendCrc | InfiniTAM/ORUtils/FileUtils.cpp:371 | the CRC of "IEND" is AE426082 |
| Adler32.RunningUpdate | InfiniTAM/ORUtils/FileUtils.cpp:351 | `a = (a+u) % 65521; b = (b+a) % 65521` keeps both registers equal to the reduced reference sums, and below 65521 |
| Adler32.ClosedForm | InfiniTAM/ORUtils/FileUtils.cpp:351 | the running sums equal the closed forms of RFC 1950: A = 1 + the byte sum; B = the length plus the position-weighted sum |
| Adler32.Checksum | InfiniTAM/ORUtils/FileUtils.cpp:369 | the checksum is a 32-bit value with B in the high half and A in the low half |
| Adler32.Word | InfiniTAM/ORUtils/FileUtils.cpp:369 | `(b << 16) \| a` of reduced sums keeps `b` in the high half and `a` in the low half |
| PngDecode.EncodeDecode | InfiniTAM/ORUtils/FileUtils.cpp:340-372 | an independent reader gets back the width, height, alpha flag and pixels from every file the writer produces. It needs `h >= 1`, `p <= 65535` and an IDAT length below 2^32 |
| PngDecode.ChunksRoundTrip | InfiniTAM/ORUtils/FileUtils.cpp:354-371 | the writer's chunk sequence parses, with every CRC matching |
| PngDecode.ChunkRoundTrip | InfiniTAM/ORUtils/FileUtils.cpp:352-353 | a chunk reads back as its type and data whatever follows, with the CRC over type and data |
| PngDecode.HeaderRoundTrip | InfiniTAM/ORUtils/FileUtils.cpp:356-358 | the IHDR data reads back as the width, height and alpha flag |
| PngDecode.ImageDataRoundTrip | InfiniTAM/ORUtils/FileUtils.cpp:360-369 | the IDAT data decodes to the image |
| PngDecode.ZlibRoundTrip | InfiniTAM/ORUtils/FileUtils.cpp:361-369 | the zlib stream has a valid header, inflates to the filtered rows, and its Adler-32 matches |
| PngDecode.InflateBlock | InfiniTAM/ORUtils/FileUtils.cpp:363-367 | each row's stored block inflates to its filter byte and pixels, and only the last is final |
| PngDecode.InflateLeading | InfiniTAM/ORUtils/FileUtils.cpp:362-368 | the blocks of the rows before the last are not final and inflate to their filtered rows |
| PngDecode.InflateBlocks | InfiniTAM/ORUtils/FileUtils.cpp:362-368 | all the blocks inflate to the filtered rows, ending at the final one |
| PngDecode.UnfilterFiltered | InfiniTAM/ORUtils/FileUtils.cpp:365-367 | filtered rows split back into the rows |
| PngDecode.ZlibAccepts | InfiniTAM/ORUtils/FileUtils.cpp:361-369 | a stream with header 78 01 whose blocks inflate and whose trailer is their Adler-32 decodes |
| PngDecode.DecodeAccepts | InfiniTAM/ORUtils/FileUtils.cpp:354-371 | a file made of the signature, IHDR, IDAT and an empty IEND is read through its header and image data |
| Bytes.U32Be | InfiniTAM/ORUtils/FileUtils.cpp:346 | `SVPNG_U32` writes four bytes whose big-endian value is `u` |
| Bytes.U16Le | InfiniTAM/ORUtils/FileUtils.cpp:349 | `SVPNG_U16LC` writes low byte, then high byte, of a 16-bit value |
| Bytes.LittleEndian16 | InfiniTAM/ORUtils/FileUtils.cpp:254 | `fwrite` of 16-bit samples writes two bytes per sample |
| Bytes.FromLittleEndian16 | InfiniTAM/ORUtils/FileUtils.cpp:215 | `fread` into 16-bit samples yields one sample per two bytes |
| Bytes.LittleEndian16RoundTrip | InfiniTAM/ORUtils/FileUtils.cpp:200-256 | samples written to a file and read back are unchanged |
| Bytes.FromLittleEndian16RoundTrip | InfiniTAM/ORUtils/FileUtils.cpp:200-256 | bytes read into samples and written back are unchanged |
| Bytes.FromLittleEndian16At | InfiniTAM/ORUtils/FileUtils.cpp:215 | sample `i` read into memory is byte `2i` (low) plus 256 times byte `2i+1` |
| Scan.ScanDecimal | InfiniTAM/ORUtils/FileUtils.cpp:234-236 | what `fprintf("%i")` writes, `fscanf("%i")` reads back as the same value, after any white space and up to the white space that follows |
| Scan.ScanWord | InfiniTAM/ORUtils/FileUtils.cpp:140 | `%[^ \n\t]` meets the end of input exactly on empty input, and matches exactly when the first byte is not a delimiter. The word read is non-empty and delimiter-free, the input goes on with a delimiter or ends, and word and rest make up the input |
| Scan.ScanInt | InfiniTAM/ORUtils/FileUtils.cpp:148 | `%i` meets the end of input (`EOF`) exactly when nothing but white space is left |
| Scan.Decimal | InfiniTAM/ORUtils/FileUtils.cpp:235-236 | `fprintf("%i")` writes a non-empty text with no white space or delimiter in it, starting with a minus sign exactly for negative values |
| Scan.ScanWordOf | InfiniTAM/ORUtils/FileUtils.cpp:140 | `%[^ \n\t]` reads a delimiter-free word up to the next delimiter |
| Scan.ScanNegative | InfiniTAM/ORUtils/FileUtils.cpp:148 | `%i` with a minus sign reads the negated magnitude |
| Scan.ScanUnsigned | InfiniTAM/ORUtils/FileUtils.cpp:148 | `%i` without a sign reads the magnitude |
| Scan.MagnitudeOfDigits | InfiniTAM/ORUtils/FileUtils.cpp:148 | decimal digits read back as their number under `%i`'s base selection, including a single leading 0 |
| Scan.SkipSpace | InfiniTAM/ORUtils/FileUtils.cpp:148 | `%i` skips exactly the leading white-space run |
| Scan.SkipSpaceOf | InfiniTAM/ORUtils/FileUtils.cpp:148 | white space in front of a non-space is skipped up to it |
| Scan.WordLength | InfiniTAM/ORUtils/FileUtils.cpp:140 | `%[^ \n\t]` stops at the first space, newline or tab |
| Scan.WordLengthOf | InfiniTAM/ORUtils/FileUtils.cpp:140 | a word followed by a delimiter has exactly its own length |
| Scan.DigitRun | InfiniTAM/ORUtils/FileUtils.cpp:148 | `%i` takes the longest run of digits of the selected base |
| Scan.DigitRunOf | InfiniTAM/ORUtils/FileUtils.cpp:148 | digits followed by a non-digit form a run of exactly their length |
| Scan.Digits | InfiniTAM/ORUtils/FileUtils.cpp:235-236 | `%i` output has decimal digits denoting the value, with no leading zero |
| Pnm.Classify | InfiniTAM/ORUtils/FileUtils.cpp:141-145 | an identifier is accepted exactly when it is P2, P3, P5 or P6. It gives MONO_8u or RGB_8u, RGB_8u exactly for P3 and P6, and binary samples exactly for P5 and P6 |
| Pnm.Refine | InfiniTAM/ORUtils/FileUtils.cpp:152-156 | a negative maxval is rejected and one up to 256 keeps the format. Above 256 only a grey map is kept, widened to MONO_16s up to 2^15 and to MONO_16u up to 2^16; anything else is rejected |
| Pnm.ReadHeaderBy | InfiniTAM/ORUtils/FileUtils.cpp:132-164 | the header reader, with or without the unchecked end of input, yields only formats the writer has an identifier for, never FORMAT_UNKNOWN or RGBA_8u |
| Pnm.ReadHeaderAsWritten | InfiniTAM/ORUtils/FileUtils.cpp:148-151 | as written, a known identifier followed by nothing but white space reads as an image of the identifier's kind, 0 by 0, with no input left |
| Pnm.ReadHeader | InfiniTAM/ORUtils/FileUtils.cpp:132-164 | the corrected reader (every field must match) yields only formats the writer has an identifier for |
| Pnm.HeaderCutOffRejected | InfiniTAM/ORUtils/FileUtils.cpp:148-151 | the corrected reader rejects an identifier followed by nothing but white space |
| Pnm.HeaderKind | InfiniTAM/ORUtils/FileUtils.cpp:140-156 | the header read keeps the identifier's binary flag, and is RGB_8u exactly when the identifier is a colour one |
| Pnm.HeaderText | InfiniTAM/ORUtils/FileUtils.cpp:234-236 | the written header starts with the identifier and a newline and ends with a newline |
| Pnm.HeaderFields | InfiniTAM/ORUtils/FileUtils.cpp:224-231 | the writer's table has an entry exactly for MONO_8u, RGB_8u, MONO_16s and MONO_16u; it picks P6 exactly for RGB_8u and P5 for the others |
| Pnm.WriteHeaderAsWritten | InfiniTAM/ORUtils/FileUtils.cpp:220-239 | the writer as written (maxval 256 for MONO_8u) fails exactly for FORMAT_UNKNOWN and RGBA_8u |
| Pnm.HeaderRoundTripAsWritten | InfiniTAM/ORUtils/FileUtils.cpp:132-239 | the writer and the reader as written are inverse: every header the writer produces reads back as the same format, width and height with binary = true, and the reader stops right after it |
| Pnm.HeaderRoundTrip | InfiniTAM/ORUtils/FileUtils.cpp:132-239 | the same for the corrected writer (maxval 255 for MONO_8u) and the corrected reader |
| Pnm.WriteHeader | InfiniTAM/ORUtils/FileUtils.cpp:220-239 | the corrected writer fails exactly for FORMAT_UNKNOWN and RGBA_8u |
| Pnm.Channels | InfiniTAM/ORUtils/FileUtils.cpp:206-209 | `channels` is 3 exactly for RGB_8u, never more, and 0 exactly where `bytesPerSample` is 0 |
| Pnm.SampleBytes | InfiniTAM/ORUtils/FileUtils.cpp:206-209 | `bytesPerSample` is 0 exactly for FORMAT_UNKNOWN and RGBA_8u, and 2 exactly for MONO_16s and MONO_16u |
| Pnm.ReadFormats | InfiniTAM/ORUtils/FileUtils.cpp:140-156 | the reader yields only formats the writer can write. Binary holds exactly for P5/P6, and RGB_8u comes exactly from P3/P6 |
| Pnm.RefineKeepsColour | InfiniTAM/ORUtils/FileUtils.cpp:152-156 | an accepted maxval never turns a grey map into colour or colour into grey; the 16-bit types come only from grey maps |
| Pnm.HeaderMatched | InfiniTAM/ORUtils/FileUtils.cpp:140-163 | once all four conversions match: the identifier and maxval select the format, the sizes are taken as read, and one byte after the maxval is consumed |
| Pnm.ReadHeaderText | InfiniTAM/ORUtils/FileUtils.cpp:132-164 | header text for a known identifier reads back as its identifier's classification, refined by its maxval |
| Pnm.FieldsRead | InfiniTAM/ORUtils/FileUtils.cpp:224-231 | the identifier and maxval the writer picks, with maxval 255 or 256 for MONO_8u, classify on reading as the format written, with binary samples |
| Pnm.IdIsWord | InfiniTAM/ORUtils/FileUtils.cpp:21-24 | each of the four identifiers is one word for `%[^ \n\t]` |
| Pnm.HeaderTextLayout | InfiniTAM/ORUtils/FileUtils.cpp:234-236 | the written header splits where the reader's conversions stop |
| Pnm.ReadBinary | InfiniTAM/ORUtils/FileUtils.cpp:200-218 | the read succeeds exactly when the format has a sample width, the count `xsize*ysize*channels` is not negative, and enough bytes remain. It then takes exactly count times width bytes |
| Pnm.WriteData | InfiniTAM/ORUtils/FileUtils.cpp:241-256 | the writer outputs the first `channels*xsize*ysize` samples of the buffer, at the format's sample width |
| Pnm.DataRoundTrip | InfiniTAM/ORUtils/FileUtils.cpp:200-256 | what `pnm_writedata` writes, `pnm_readdata_binary` reads back, whatever follows |
| Pnm.ReadAsciiHelper | InfiniTAM/ORUtils/FileUtils.cpp:167-175 | with the corrected end-of-input check, the triple loop succeeds exactly when all `xsize*ysize*channels` samples match, and then the buffer starts with them, converted, in row-major order |
| Pnm.ReadRow | InfiniTAM/ORUtils/FileUtils.cpp:169-173 | in the corrected loop, one row stores its samples after the ones already read, or fails only when the whole read would |
| Pnm.ReadPixel | InfiniTAM/ORUtils/FileUtils.cpp:169-173 | in the corrected loop, one pixel's channels are stored in order, or the read fails at the first `%i` that does not match, the end of input included |
| Pnm.ReadAscii | InfiniTAM/ORUtils/FileUtils.cpp:177-198 | the channel table: 1 for the grey formats and 3 for RGB_8u; other formats fail. The samples are read by the corrected loop |
| Pnm.Repeat | InfiniTAM/ORUtils/FileUtils.cpp:169-173 | a successful run of `n` conversions yields `n` values |
| Pnm.AsciiSamples | InfiniTAM/ORUtils/FileUtils.cpp:169-173 | the corrected sample read yields exactly `n` samples, and fails where nothing but white space is left |
| Pnm.AsciiSamplesAsWritten | InfiniTAM/ORUtils/FileUtils.cpp:169-173 | the sample read as written yields exactly `n` samples; where nothing but white space is left, the first one is the stale `v` |
| Pnm.AsciiSamplesBy | InfiniTAM/ORUtils/FileUtils.cpp:169-173 | a successful sample read yields exactly `n` samples |
| Pnm.RepeatPrefix | InfiniTAM/ORUtils/FileUtils.cpp:169-173 | `k + m` conversions are the first `k`, then `m` more from where those stopped |
| Pnm.RepeatStep | InfiniTAM/ORUtils/FileUtils.cpp:171-172 | one more matching conversion extends the values read so far |
| Pnm.RepeatStuck | InfiniTAM/ORUtils/FileUtils.cpp:171 | a failing conversion while samples are still due fails the whole read |
| Pnm.Advance | InfiniTAM/ORUtils/FileUtils.cpp:171-172 | a matched `%i` becomes the next sample |
| Pnm.Stuck | InfiniTAM/ORUtils/FileUtils.cpp:171 | in the corrected loop, a `%i` that does not match, or meets the end of input, makes the helper return false |
| Pnm.Stored | InfiniTAM/ORUtils/FileUtils.cpp:172 | `*data++ = v` stores one cell per sample |
| Pnm.StoredAt | InfiniTAM/ORUtils/FileUtils.cpp:172 | cell `i` holds sample `i` converted to the buffer's type |
| Pnm.ToByte | InfiniTAM/ORUtils/FileUtils.cpp:172 | `*data++ = v` into an `unsigned char` keeps 0 to 255 and otherwise stores the byte congruent to `v` modulo 256 |
| Pnm.ToU16 | InfiniTAM/ORUtils/FileUtils.cpp:172 | into a 16-bit cell it keeps 0 to 65535 and otherwise stores the pattern congruent to `v` modulo 2^16 |
| Pnm.StoreStep | InfiniTAM/ORUtils/FileUtils.cpp:172 | storing one more sample extends the stored prefix |
| Pnm.SampleCountIsProduct | InfiniTAM/ORUtils/FileUtils.cpp:215 | the row-major sample count is `xsize*ysize*channels` |
| Pnm.ProductIsProduct | InfiniTAM/ORUtils/FileUtils.cpp:215-216 | the signed count is the product as the source computes it, overflow aside |
| Pnm.TruncatedHeader | InfiniTAM/ORUtils/FileUtils.cpp:148-151 | as written, a file holding only "P5" reads as a 0 by 0 grey map; the strict reader rejects it |
| Pnm.ReadHeaderAgrees | InfiniTAM/ORUtils/FileUtils.cpp:148-151 | wherever every field matches, the reader as written and the strict reader agree |
| Pnm.IntAgrees | InfiniTAM/ORUtils/FileUtils.cpp:148-151 | a matched conversion does not depend on the EOF check |
| Pnm.TruncatedSamples | InfiniTAM/ORUtils/FileUtils.cpp:170-172 | as written, a missing last text sample is stored as the stale `v` and the read succeeds; the strict read fails |
| Pnm.AsciiSamplesAgree | InfiniTAM/ORUtils/FileUtils.cpp:170-172 | wherever every sample matches, the helper as written and the strict helper agree |
| Pnm.SamplesBy | InfiniTAM/ORUtils/FileUtils.cpp:169-172 | `n + 1` samples are one `%i` followed by `n` samples |
| Pnm.Mono8MaxvalMismatch | InfiniTAM/ORUtils/FileUtils.cpp:225 | as written, MONO_8u headers announce maxval 256, which Netpbm reads as two-byte samples, while one byte per sample is written |
| Pnm.MaxvalMatchesSamples | InfiniTAM/ORUtils/FileUtils.cpp:224-231 | with maxval 255 for MONO_8u, every header announces the sample width its data is written with |
| Pixels.PackPixels | InfiniTAM/ORUtils/FileUtils.cpp:290-294 | the packing loop writes each pixel's x, y and z at `3i`, `3i+1` and `3i+2`, dropping alpha; nothing else in the buffer changes |
| Pixels.FlipPack | InfiniTAM/ORUtils/FileUtils.cpp:277-286 | the flipping loop leaves the samples equal to the packed image with its rows in reverse order |
| Pixels.FlipRow | InfiniTAM/ORUtils/FileUtils.cpp:277-286 | one pass of the outer loop moves row `y` to row `height-y-1` and keeps the rows done before |
| Pixels.RowFlipped | InfiniTAM/ORUtils/FileUtils.cpp:280-285 | a row packed at `(height-y-1)*width`, with nothing else changed, extends the flipped part by one row |
| Pixels.RowOffsets | InfiniTAM/ORUtils/FileUtils.cpp:280-281 | `y*width` and `(height-y-1)*width` are row starts inside the image |
| Pixels.RowInFront | InfiniTAM/ORUtils/FileUtils.cpp:281-285 | a row written just before the rows already flipped joins them |
| Pixels.FlippedAt | InfiniTAM/ORUtils/FileUtils.cpp:280-285 | the index map: pixel `x + y*w` lands at `x + (h-y-1)*w` |
| Pixels.FlipTwice | InfiniTAM/ORUtils/FileUtils.cpp:277-286 | flipping twice gives back the image |
| Pixels.FlipFront | InfiniTAM/ORUtils/FileUtils.cpp:281 | the first row of an image is last once flipped |
| Pixels.Flipped | InfiniTAM/ORUtils/FileUtils.cpp:277-286 | flipping keeps the number of pixels |
| Pixels.Packed | InfiniTAM/ORUtils/FileUtils.cpp:271 | packing yields three samples per pixel |
| Pixels.PackedAt | InfiniTAM/ORUtils/FileUtils.cpp:291-293 | samples `3i..3i+3` are the colour of pixel `i` |
| Pixels.PackedAppend | InfiniTAM/ORUtils/FileUtils.cpp:290-294 | packing distributes over concatenation |
| Pixels.ExpandPixels | InfiniTAM/ORUtils/FileUtils.cpp:466-470 | the expanding loop sets pixel `i` from samples `3i..3i+2` with alpha 255; the rest of the image is unchanged |
| Pixels.Expanded | InfiniTAM/ORUtils/FileUtils.cpp:466-470 | expansion yields `n` pixels |
| Pixels.ExpandedAt | InfiniTAM/ORUtils/FileUtils.cpp:468-469 | pixel `i` is (`3i`, `3i+1`, `3i+2`, 255) |
| Pixels.ExpandPacked | InfiniTAM/ORUtils/FileUtils.cpp:466-470 | expanding packed pixels gives them back with alpha 255 |
| Pixels.PackExpanded | InfiniTAM/ORUtils/FileUtils.cpp:466-470 | packing expanded samples gives the samples back |
| Pixels.ExpandedPrefix | InfiniTAM/ORUtils/FileUtils.cpp:466 | expansion reads only the first `3n` samples |
| Pixels.Opaque | InfiniTAM/ORUtils/FileUtils.cpp:469 | setting alpha keeps the number of pixels |
| Pixels.SwapSamples | InfiniTAM/ORUtils/FileUtils.cpp:386 | the swap loop leaves every target sample the byte-swapped source sample, and the rest unchanged |
| Pixels.CopySamples | InfiniTAM/ORUtils/FileUtils.cpp:517-519 | the text-path loop copies the samples unchanged |
| Pixels.Swap | InfiniTAM/ORUtils/FileUtils.cpp:386 | the swapped sample's low byte is the original's high byte, and the other way round |
| Pixels.Swapped | InfiniTAM/ORUtils/FileUtils.cpp:386 | swapping keeps the number of samples |
| Pixels.SwapTwice | InfiniTAM/ORUtils/FileUtils.cpp:386 | `(v<<8) \| ((v>>8)&255)` applied twice is the identity |
| Pixels.SwappedTwice | InfiniTAM/ORUtils/FileUtils.cpp:386 | swapping all samples twice is the identity |
| Pixels.SwapIsBigEndian | InfiniTAM/ORUtils/FileUtils.cpp:386 | a swapped sample lies in memory most significant byte first, as Netpbm stores 16-bit samples |
| ImageIo.SaveRgbaImage | InfiniTAM/ORUtils/FileUtils.cpp:263-300 | the RGBA saver writes a P6 header and the colour samples, flipped if asked |
| ImageIo.PackShown | InfiniTAM/ORUtils/FileUtils.cpp:275-295 | the two branches fill the buffer with the packed pixels, in reverse row order if `flip` |
| ImageIo.Shown | InfiniTAM/ORUtils/FileUtils.cpp:275-295 | the order the saver writes the pixels in keeps their number |
| ImageIo.SaveRgbaPng | InfiniTAM/ORUtils/FileUtils.cpp:310-329 | the PNG saver writes `Encode` of the packed colour samples without alpha |
| ImageIo.SaveShortImage | InfiniTAM/ORUtils/FileUtils.cpp:382-396 | the 16-bit saver writes a P5 header with maxval 65535 and the byte-swapped samples |
| ImageIo.ReadRgbaImage | InfiniTAM/ORUtils/FileUtils.cpp:425-476 | with the corrected header and sample checks, the RGBA reader accepts only an RGB_8u header, reads its samples raw or as text, and expands them with alpha 255 |
| ImageIo.LoadRgbSamples | InfiniTAM/ORUtils/FileUtils.cpp:457-461 | with the corrected text check, the raw or text branch fills the buffer with the samples, or fails exactly when they are not there |
| ImageIo.RgbSamples | InfiniTAM/ORUtils/FileUtils.cpp:457-461 | a read yields `3*xsize*ysize` samples |
| ImageIo.ReadShortImage | InfiniTAM/ORUtils/FileUtils.cpp:478-524 | with the corrected header and sample checks, the 16-bit reader accepts only MONO_16s and MONO_16u headers; raw samples are swapped, text samples are not |
| ImageIo.LoadShortSamples | InfiniTAM/ORUtils/FileUtils.cpp:500-507 | the raw branch fills the buffer with the bytes as they lie in memory, the corrected text branch with the stored values |
| ImageIo.StoreShortSamples | InfiniTAM/ORUtils/FileUtils.cpp:512-520 | the swap applies on the binary path only; the text path copies |
| ImageIo.ShortSamples | InfiniTAM/ORUtils/FileUtils.cpp:500-520 | a read yields `xsize*ysize` samples |
| ImageIo.ShortSampleValues | InfiniTAM/ORUtils/FileUtils.cpp:504-519 | on the binary path sample `i` is `256*byte[2i] + byte[2i+1]`, that is big-endian. On the text path it is the text value modulo 2^16, not swapped |
| ImageIo.RgbaRoundTrip | InfiniTAM/ORUtils/FileUtils.cpp:263-476 | a saved RGBA image reads back at the same size with the same colours, upside down if saved flipped, with alpha 255 |
| ImageIo.ShortRoundTrip | InfiniTAM/ORUtils/FileUtils.cpp:382-524 | a saved 16-bit image reads back at the same size with the same samples: the two swaps cancel |
| ImageIo.RgbaFileIs | InfiniTAM/ORUtils/FileUtils.cpp:266 | the saved RGBA file is the header followed by exactly the packed samples |
| ImageIo.ShortFileIs | InfiniTAM/ORUtils/FileUtils.cpp:389 | the saved 16-bit file is the header followed by exactly two bytes per swapped sample |
| ImageIo.RawSamplesRead | InfiniTAM/ORUtils/FileUtils.cpp:200-218 | raw samples that fill the rest of the file are read whole |
| ImageIo.RgbaFileRead | InfiniTAM/ORUtils/FileUtils.cpp:435-470 | a P3 or P6 file whose colour samples read reads as those samples, expanded |
| ImageIo.ShortFileRead | InfiniTAM/ORUtils/FileUtils.cpp:487-520 | a P2 or P5 file whose samples read reads as an image of them |
| ImageIo.RawShortSamples | InfiniTAM/ORUtils/FileUtils.cpp:504 | raw 16-bit samples are the file's bytes paired up and swapped |
| ImageIo.Counts | InfiniTAM/ORUtils/FileUtils.cpp:271 | the buffer sizes `xsize*ysize*3` and `xsize*ysize` are the row-major sample counts |
| Grid.TimesIsProduct | InfiniTAM/ORUtils/FileUtils.cpp:280-281 | `k` rows of `size` cells take `k*size` cells |
| Grid.Within | InfiniTAM/ORUtils/FileUtils.cpp:169 | row `k` of `count` rows ends inside the image, where row `k+1` starts |
| Grid.TimesGrows | InfiniTAM/ORUtils/FileUtils.cpp:169 | more rows take no less room |

## Left out

- File handles: `fopen`, `fclose`, `fputc`, `fread`, `fwrite`, `fscanf` and `fprintf` on a `FILE*`. A file is a byte string, and a failed `fopen` is not modelled.
- `MakeDir`: an operating-system call.
- The libpng reader (`PNGReaderData`, `png_readheader`, `png_readdata`). The build modelled has no libpng: a file that is not PGM/PPM of the right kind fails to read.
- The float depth saver (`SaveImageToFile` for `float` images): it converts floating point to millimetres.
- Memory management: `malloc` paired with `delete`, `delete[]` of the image's own buffer, and `data != NULL` in `pnm_readdata_binary`. The model allocates fresh arrays.
- The `char tmp[1024]` buffer of `pnm_readheader`: an identifier longer than 1023 bytes overflows it in the source. The model reads any length.
- Scan.ScanInt: `%i` is unbounded, so 32-bit overflow of a header field or sample is not modelled.
- Pnm.ReadBinary: the count `xsize*ysize*channels` is unbounded; its `int` overflow is not modelled.
- Pnm.WriteData: takes non-negative sizes, which is all the image savers pass.
- ImageIo.ReadRgbaImage: rejects headers with a negative width or height. The source would pass them to `ChangeDims` and to `new` with a negative size.
- ImageIo.ReadShortImage: rejects headers with a negative width or height, for the same reason.
- ImageIo.ReadRgbaImage: returns `None` on a failed read. The source has by then already resized the caller's image to the header's size. The caller's image object is not modelled.
- Pnm.ReadAsciiHelper: says nothing about the buffer cells after the samples, nor about the cells already written when a read fails.
- Pnm.WriteHeader: writes maxval 255 for MONO_8u, where line 225 writes 256 (see Findings). The writer as written is Pnm.WriteHeaderAsWritten; its round trip with the reader as written is Pnm.HeaderRoundTripAsWritten.
- Pnm.HeaderRoundTrip: is about the corrected writer and reader. The pair as written is Pnm.HeaderRoundTripAsWritten.
- Pnm.ReadAsciiHelper: uses the corrected end-of-input check: a `%i` that meets the end of input fails the read. Line 171 lets it through and stores the stale `v`. That behaviour is Pnm.AsciiSamplesAsWritten (see Findings).
- Pnm.ReadRow: uses the corrected end-of-input check, as Pnm.ReadAsciiHelper does.
- Pnm.ReadPixel: uses the corrected end-of-input check, as Pnm.ReadAsciiHelper does.
- Pnm.ReadAscii: reads through the corrected loop of Pnm.ReadAsciiHelper.
- Pnm.Stuck: counts a `%i` at the end of input as a failure, as the corrected loop does. Line 171 does not.
- ImageIo.ReadRgbaImage: reads with the corrected checks (Pnm.ReadHeader, Pnm.AsciiSamples). A file cut short after its identifier or inside its text samples is rejected, where lines 148-151 and 171 accept it. The readers as written are Pnm.ReadHeaderAsWritten and Pnm.AsciiSamplesAsWritten.
- ImageIo.LoadRgbSamples: reads text samples with the corrected check, as ImageIo.ReadRgbaImage does.
- ImageIo.ReadShortImage: reads with the corrected checks, as ImageIo.ReadRgbaImage does.
- ImageIo.LoadShortSamples: reads text samples with the corrected check, as ImageIo.ReadRgbaImage does.
- Pnm.TruncatedSamples: the stale `v` of the source is uninitialised memory; the model takes it as a parameter.
- Host byte order: raw 16-bit samples are assumed to lie in memory on a little-endian host.
- Png.Svpng: requires width and height below 2^32 and a pitch that does not wrap around. The source's `unsigned` arithmetic silently wraps otherwise.
- ImageIo.SaveRgbaPng: carries the same 32-bit requirements.
- PngDecode.EncodeDecode: holds only when `h >= 1`, `p <= 65535` and the IDAT length fits in 32 bits. Outside these the writer's file is not a valid PNG.
- The pose tracker and main engine interfaces of the repository: they hold declarations without bodies.

## Findings

| source | as written | input that shows it | evidently intended | confidence | as-written member | corrected member |
|---|---|---|---|---|---|---|
| InfiniTAM/ORUtils/FileUtils.cpp:148-151 | `if (!fscanf(...))` does not catch the `EOF` result, so a header field missing at the end of the file passes with the field left at 0 | a file holding only `P5` is read as a 0 by 0 MONO_8u image | fail on a field that did not match (`!= 1`), as line 140 does for the identifier | high; not executed | Pnm.TruncatedHeader | Pnm.ReadHeaderAgrees |
| InfiniTAM/ORUtils/FileUtils.cpp:171 | the same unchecked `EOF` in the sample loop stores the uninitialised `v` and returns true | a 1 by 1 P2 image whose text ends before its sample | return false when a sample is missing | high; not executed | Pnm.TruncatedSamples | Pnm.AsciiSamplesAgree |
| InfiniTAM/ORUtils/FileUtils.cpp:225 | MONO_8u headers carry maxval 256, while `pnm_writedata` writes one byte per sample | any MONO_8u image: a Netpbm reader expects two bytes per sample from maxval 256 on | maxval 255 | medium; not executed | Pnm.Mono8MaxvalMismatch | Pnm.MaxvalMatchesSamples |

The corrected definitions are the ones the rest of the model uses:
- `ReadHeader` requires every field to match.
- `AsciiSamples` requires every sample to match.
- `WriteHeader` writes maxval 255 for MONO_8u.

The `...AsWritten` functions model the code as written, and
`HeaderRoundTripAsWritten` shows the writer and reader as written inverse. `ReadHeaderAgrees` and
`AsciiSamplesAgree` show that both versions agree on every input where all
fields match. With maxval 255 the file utilities' own reader still classifies
the header as MONO_8u, because any maxval up to 256 keeps the type.
