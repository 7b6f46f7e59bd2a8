# Codecs, tables and rings: a verified model

A Dafny 4.11 model of the integer code at the bottom of this repository, with proofs of what that code is for.
`dafny verify dfyconfig.toml` checks all of it. There are no assumptions and no unproved declarations.

| part | files | what is proved |
|---|---|---|
| DEFLATE | `Bits` `BitStream` `BitReverse` `Canonical` `ZHuffman` `Deflate` `LookAhead` `InflateLemmas` `Inflate` `StoredStreams` `ShortTail` `DynamicStream` | the inflater returns exactly what RFC 1950 and 1951 say its input denotes; a grammar over bit positions is the reference, and it is shown unambiguous; which valid streams it refuses is stated exactly |
| PNG | `MsbStream` `PngSpec` `PngRow` `PngUnpack` `Png` `PngPixels` `PngInterlace` | unfiltering, in-place unpacking, alpha insertion and Adam7 give, byte for byte, the image the data encodes |
| JPEG | `JpegCodes` `JpegHuffman` `JpegReader` `JpegBlock` | Huffman tables, byte unstuffing, bit buffer and the fast AC table decode a baseline block as ITU-T T.81 does, up to the code's own guards on the DC coefficient, which are part of the reference and judged separately |
| GIF | `GifSpec` `GifTable` `GifRaster` `Gif` | the LZW decoder and the interlaced painter show exactly the indices of the code stream |
| BC3 alpha, BC1 refinement | `Dxt` `DxtRefine` | alpha indices are optimal for the decoder in the other file; the least-squares system is solvable exactly when it is attempted |
| BC7 | `BptcTables` `BptcMasks` `Bc7` `Bc7Spec` | every one of the 128 bits is accounted for in every mode, and on every word the decoded texel is the one of the standard's description |
| BC6H | `Bc6hLayout` `Bc6hPlaces` `Bc6h` `Bc6hFinite` `Bc6hSpec` | the same, signed and unsigned; which blocks decode to finite half floats |
| getopt | `GetoptSpec` `GetoptLaws` `Getopt` | whole runs: events, permutation of argv, operands in order; what each form of option reports |
| image resize | `Resize` | the ring of scanlines computes the same sums as the whole image |
| audio sessions | `AudioIn` | no session id is handed out twice while it is held |

How to read it. Code that changes state is a class or a method with its loops; what it must compute is a function or
predicate beside it, written without reference to the code: a grammar (`Deflate`), a recursive decoder on bit positions
(`GifSpec`, `JpegBlock.Block`), equations (`PngSpec`), slices of a 128-bit number (`Bc7`, `Bc6h`), a walk over the
argument list (`GetoptSpec`), a queue (`AudioIn`), sums over all rows (`Resize`). Where such a definition shares a
function or a table with the code, laws that name neither pin it down (`Bc7Spec`, `Bc6hSpec`, `Bc6hPlaces`, `BptcMasks`,
`PngPixels`, `GetoptLaws`, `Deflate.CodeLengthAt`, `JpegBlock.CoefficientLands`). Machine words are natural numbers with
shifts and masks as functions (`Bits`); widths and wrap-around are written out where they matter. `Arith` and
`Collections` hold shared helpers.

Findings:

- `stbi__mul2shorts_valid` compares two negative factors the wrong way round and lets -32768 times -1 through
  (`JpegBlock.Mul2ShortsExact`). Applied to the DC coefficient and a 16-bit quantiser it accepts products that do
  not fit a short, for instance -200 times 65336, exactly in the family of `JpegBlock.DcGuardExact`
  (`JpegBlock.Mul2ShortsWrong` has three members); it never refuses one that fits.
- A JPEG table with 256 codes whose last code has at most nine bits misreads that symbol, and only that one, because
  its number is the "not accelerated" flag (`JpegReader.FindSymbol`). Such tables pass the checks (`JpegReader.FlagClashes`).
- A signed BC6H block decodes to negative infinity exactly when it has the mode of 16-bit endpoints and its blend
  rounds down to -32768 (`Bc6hFinite.SignedBlockFinite`; `Bc6hFinite.NegativeInfinity` is such a block).
- The inflater refuses some valid streams that end within the last two bytes of their input: exactly those in which a
  code is looked up with fewer than sixteen bits buffered and no input left (`LookAhead.Starved`, `Inflate.Delivers`,
  `Inflate.DecodeMalloc`). `ShortTail.DecodeBoth` has a stream that is refused and one that is not. With the four
  checksum bytes in place it never happens (`LookAhead.StreamInTime`).
- `AudioIn::Manager::ReleaseSessionId` checks nothing: giving back an id that is not held breaks the ring of free ids
  (`AudioIn.Manager.ReleaseSessionId`).

## Model

| member | source | states |
|---|---|---|
| `BitReverse.BitReverse16Correct` | externals/stb/stb_image.h:4105-4112 | the four swap steps reverse sixteen bits, for every value |
| `BitReverse.BitReverseNCorrect` | externals/stb/stb_image.h:4114-4120 | the low `bits` bits come back in the opposite order |
| `Canonical.FitsIffKraft` | externals/stb/stb_image.h:4136-4147 | the per-length overflow test passes exactly when the lengths satisfy the Kraft inequality |
| `Canonical.PrefixUnique` | externals/stb/stb_image.h:4221-4237 | no sixteen-bit window begins with the codes of two symbols |
| `Canonical.PrefixIffBelowLimit` | externals/stb/stb_image.h:4227-4229 | some code of at most L bits begins a window exactly when the window is below the preshifted limit of L |
| `Canonical.RangePrefix` | externals/stb/stb_image.h:4226-4237 | between the limits of L - 1 and L the slow path's offset is the rank of the one code that begins the window, so its guards never fire |
| `ZHuffman.FastMatchUnique` | externals/stb/stb_image.h:4149-4165 | no two symbols ever write the same slot of the fast table |
| `ZHuffman.FastMatchIsPrefix` | externals/stb/stb_image.h:4249-4254 | a slot matches a symbol exactly when its code of at most nine bits begins the bit-reversed window |
| `ZHuffman.SortedIndexInjective` | externals/stb/stb_image.h:4149-4155 | symbols of a code get distinct places in `size` and `value` |
| `ZHuffman.ZHuffman.CountSizes` | externals/stb/stb_image.h:4128-4132 | counts the symbols of each length |
| `ZHuffman.ZHuffman.AssignCodes` | externals/stb/stb_image.h:4136-4148 | first codes, first symbols and preshifted limits of the canonical code; fails exactly when a length has too many codes |
| `ZHuffman.ZHuffman.EnterFast` | externals/stb/stb_image.h:4156-4162 | the inner loop fills exactly the slots whose low bits are the reversed code |
| `ZHuffman.ZHuffman.Build` | externals/stb/stb_image.h:4122-4167 | succeeds exactly when the lengths satisfy the Kraft inequality, and then every table is that of the canonical code of section 3.2.2 of RFC 1951 |
| `Inflate.ZBuf.Get8` | externals/stb/stb_image.h:4189-4197 | the next input byte, or zero past the end |
| `Inflate.ZBuf.FillBits` | externals/stb/stb_image.h:4199-4209 | refills to at least 25 bits without moving the bit position |
| `Inflate.ZBuf.Receive` | externals/stb/stb_image.h:4211-4219 | the next n bits of the stream as a number; advances by n bits |
| `Inflate.ZBuf.FastMiss` | externals/stb/stb_image.h:4226-4229 | after a miss of the fast table the reversed window is at least `maxcode[9]` |
| `Inflate.ZBuf.FastHit` | externals/stb/stb_image.h:4249-4254 | a fast entry holds the length and number of the symbol that stands at the position |
| `Inflate.ZBuf.DecodeSlowPath` | externals/stb/stb_image.h:4221-4238 | the symbol at the position, or -1 exactly when no code begins the window |
| `Inflate.ZBuf.HuffmanDecode` | externals/stb/stb_image.h:4240-4257 | the symbol at the position and its length; -1 exactly when no code stands there, or fewer than 16 bits are buffered and the input is used up |
| `Inflate.ZBuf.MakeRoom` | externals/stb/stb_image.h:4259-4279 | doubles the buffer until n more bytes fit, keeping the contents; refuses exactly when the buffer is fixed or the largest size that doubling reaches below 2^32 is too small |
| `InflateLemmas.LengthTable` | externals/stb/stb_image.h:4281-4287 | the length tables are the closed form of section 3.2.5 of RFC 1951 |
| `InflateLemmas.DistTable` | externals/stb/stb_image.h:4289-4293 | the distance tables are the closed form of section 3.2.5 of RFC 1951 |
| `Inflate.ZBuf.CopyBytes` | externals/stb/stb_image.h:4327-4333 | both copy loops append bytes one at a time from `dist` back, overlap included |
| `Inflate.ZBuf.ReadCopy` | externals/stb/stb_image.h:4315-4321 | length and distance of the copy token that stands in the stream; refuses only when no usable distance symbol follows or its lookup starves |
| `Inflate.ZBuf.TakeLiteral` | externals/stb/stb_image.h:4300-4306 | appends one literal; refuses only for lack of room, and then no body at the position fits |
| `Inflate.ZBuf.TakeCopy` | externals/stb/stb_image.h:4315-4333 | appends one copy; on refusal every body at the position starves or does not fit |
| `Inflate.ZBuf.ParseHuffmanBlock` | externals/stb/stb_image.h:4295-4336 | terminates; on success the tokens up to the end-of-block symbol stand at the old position, none of their lookups starves, and the output is what they denote; on failure there is no such body that is fed and fits |
| `Inflate.ZBuf.ReadCodeLengthSizes` | externals/stb/stb_image.h:4351-4355 | the code length code's lengths in their permuted order |
| `Deflate.CodeLengthAt` | externals/stb/stb_image.h:4340-4355 | which three-bit field holds the length of each symbol of the code length code, as section 3.2.7 of RFC 1951 orders them: run symbols, 0, then outwards from 8; zero when the fields stop before it |
| `Inflate.ZBuf.ReadLengthsStep` | externals/stb/stb_image.h:4359-4381 | one length symbol with its repetitions as section 3.2.7 of RFC 1951 says; refuses exactly when it is malformed or its lookup starves |
| `Inflate.ZBuf.ComputeHuffmanCodes` | externals/stb/stb_image.h:4338-4386 | both tables of a dynamic block; fails only when the header describes no two valid codes or one of its lookups starves |
| `Inflate.ZBuf.ReadStoredHeader` | externals/stb/stb_image.h:4392-4404 | discards to the byte boundary and drains the bit buffer: the four header bytes are the next four input bytes, none lost |
| `Inflate.ZBuf.ParseUncompressedBlock` | externals/stb/stb_image.h:4388-4415 | appends exactly the bytes of the stored block, or there is no such block |
| `Inflate.ZBuf.ParseZlibHeader` | externals/stb/stb_image.h:4417-4429 | accepts exactly the headers of section 2.2 of RFC 1950 without preset dictionary, with a third byte present |
| `Deflate.FixedCodesComplete` | externals/stb/stb_image.h:4431-4458 | the fixed code lengths use up the code space exactly |
| `Deflate.FixedCodeOf` | externals/stb/stb_image.h:4431-4458 | the length and the code of every fixed literal and length symbol, as the table of section 3.2.6 of RFC 1951 has them |
| `Deflate.FixedDistanceOf` | externals/stb/stb_image.h:4431-4458 | fixed distance codes are plain five-bit numbers |
| `Inflate.ZBuf.ParseBlock` | externals/stb/stb_image.h:4470-4483 | one block of any type: it stands in the stream, is fed, and its output is appended; a refusal names the fault: no such block, malformed, starved or too large |
| `Inflate.ZBuf.ParseDynamicBlock` | externals/stb/stb_image.h:4479-4483 | the same for a block that brings its own codes |
| `Inflate.ZBuf.NextBlock` | externals/stb/stb_image.h:4467-4484 | one pass of the loop extends the blocks read so far, completes the stream, or shows that no stream at the start is fed and fits |
| `Inflate.ZBuf.ParseZlib` | externals/stb/stb_image.h:4460-4486 | terminates; success means a DEFLATE stream stands at the start, is fed and fits, and the output is what it denotes; failure means the header is bad or there is no such stream |
| `Deflate.TokenUnique` | externals/stb/stb_image.h:4299-4322 | at a position stands at most one token |
| `Deflate.StreamUnique` | externals/stb/stb_image.h:4460-4486 | a position of the input starts at most one DEFLATE stream |
| `Inflate.InflatesUnique` | externals/stb/stb_image.h:4460-4486 | a stream has one meaning and one end |
| `LookAhead.StreamInTime` | externals/stb/stb_image.h:4240-4257 | a stream that ends 16 bits before the input does never starves a lookup, whatever its blocks |
| `Inflate.DeliversInTime` | externals/stb/stb_image.h:4519-4533 | so every such stream that fits is among those the decoder delivers |
| `Inflate.DecodeMalloc` | externals/stb/stb_image.h:4519-4533 | returns the output of the one stream it can deliver, and nothing exactly when there is none; every stream that ends two bytes before the input and denotes at most 2^31 bytes is delivered |
| `Inflate.DecodeBuffer` | externals/stb/stb_image.h:4535-4544 | the same into a fixed buffer, with its length as the room |
| `ShortTail.Refused` | externals/stb/stb_image.h:4243-4246 | a valid stream of 26 bits in four bytes: it denotes two zero bytes, and no output is deliverable |
| `ShortTail.Delivered` | externals/stb/stb_image.h:4243-4246 | a valid stream of 18 bits in three bytes is deliverable, though it too ends within the last 16 bits |
| `ShortTail.DecodeBoth` | externals/stb/stb_image.h:4519-4533 | what the decoder returns for these two inputs: nothing, and the byte |
| `DynamicStream.DecodeDynamic` | externals/stb/stb_image.h:4338-4386 | a stream with codes of its own, its code length code and a run symbol included, denotes the byte 65, and that is what the decoder returns |
| `StoredStreams.WrappedInflates` | externals/stb/stb_image.h:4388-4415 | any bytes, cut anywhere into stored blocks, denote themselves |
| `StoredStreams.Unwrap` | externals/stb/stb_image.h:4519-4533 | round trip: decoding a zlib stream of stored blocks gives back the bytes, whatever the checksum |
| `PngSpec.Paeth` | externals/stb/stb_image.h:4636-4645 | the neighbour nearest to a + b - c, ties to the left one, then the upper one |
| `PngSpec.RowRoundTrip` | externals/stb/stb_image.h:4695-4745 | unfiltering inverts filtering for every row, filter and row above |
| `PngSpec.FilteredRoundTrip` | externals/stb/stb_image.h:4730-4745 | filtering inverts unfiltering: every filtered row comes from exactly one row |
| `PngSpec.ImageRoundTrip` | externals/stb/stb_image.h:4676-4772 | unfiltering a whole image inverts filtering, for every choice of filters and whatever follows |
| `PngRow.FirstByteIsOrdinary` | externals/stb/stb_image.h:4696-4706 | the switch for first pixels is the ordinary filter with nothing to the left |
| `PngRow.FirstRowIsOrdinary` | externals/stb/stb_image.h:4627-4634 | the synthetic first-row filters are the ordinary ones below a row of zeros |
| `PngRow.FirstPixel` | externals/stb/stb_image.h:4695-4726 | the bytes of the first pixel of a row, in place |
| `PngRow.PlainRow` | externals/stb/stb_image.h:4729-4745 | the rest of a row without alpha, in place |
| `PngRow.AlphaRow` | externals/stb/stb_image.h:4746-4761 | the rest of a row with 255 after every pixel: the samples are those of the plain form |
| `PngRow.DecodeRow` | externals/stb/stb_image.h:4676-4772 | a whole row: samples of the reference decoder, 255 in every alpha byte, no other row touched |
| `PngUnpack.SampleIsField` | externals/stb/stb_image.h:4791-4825 | each shift and mask reads exactly the bits of its sample, leftmost first |
| `PngUnpack.PackedAhead` | externals/stb/stb_image.h:4684-4689 | a packed byte sits at or after the place of every sample it holds |
| `PngUnpack.UnpackRow` | externals/stb/stb_image.h:4778-4825 | spreading 1-, 2- and 4-bit samples in place reads every packed byte before overwriting it |
| `PngUnpack.InsertAlpha1` | externals/stb/stb_image.h:4830-4834 | backward alpha insertion keeps every sample (one channel) |
| `PngUnpack.InsertAlpha3` | externals/stb/stb_image.h:4835-4843 | backward alpha insertion keeps every sample (three channels) |
| `Png.GreyScale` | externals/stb/stb_image.h:4783-4783 | stretching a greyscale sample is exact: the maximum becomes 255, the rest in proportion |
| `Png.Mad3Exact` | externals/stb/stb_image.h:1010-1034 | the overflow guard accepts exactly the products that fit an int |
| `Png.LengthFits` | externals/stb/stb_image.h:4663-4674 | the 32-bit length of the filtered data never wraps |
| `Png.UnfilterRows` | externals/stb/stb_image.h:4676-4772 | all rows decode in place; fails exactly on a filter byte above 4 |
| `Png.ExpandRows` | externals/stb/stb_image.h:4777-4845 | all packed rows become pixels, none disturbing the rows still packed |
| `Png.Swap16` | externals/stb/stb_image.h:4846-4857 | every 16-bit sample becomes native (little-endian) order |
| `Png.CreateRaw` | externals/stb/stb_image.h:4650-4860 | accepts exactly the data with enough bytes, valid filters and fitting sizes, and then every byte of the image is the one the format defines |
| `PngPixels.PackedPixel` | externals/stb/stb_image.h:4777-4845 | in a packed row a palette index or other sample is its own bits, a grey level those bits stretched to 255, an added alpha 255 |
| `PngPixels.WordPixel` | externals/stb/stb_image.h:4846-4857 | the two bytes of a 16-bit sample make the same number in memory, low byte first, as in the file, high byte first |
| `PngPixels.ImageShown` | externals/stb/stb_image.h:4650-4860 | every sample of the decoded image, with row width and neighbour distance as the header gives them |
| `PngInterlace.PassesPartition` | externals/stb/stb_image.h:4874-4896 | every pixel comes from exactly one pixel of exactly one of the seven passes |
| `PngInterlace.PassesInside` | externals/stb/stb_image.h:4874-4896 | no pass pixel lands outside the image |
| `PngInterlace.PassSizesSum` | externals/stb/stb_image.h:4875-4882 | the sizes of the passes add up to width times height |
| `PngInterlace.CopyPass` | externals/stb/stb_image.h:4889-4896 | copies every pixel of a pass to its place and disturbs no other |
| `PngInterlace.CreateImage` | externals/stb/stb_image.h:4862-4905 | succeeds exactly when every non-empty pass decodes at its place in the data, and then every pixel is the one its pass supplies |
| `JpegCodes.CodeStartsInterval` | externals/stb/stb_image.h:2014-2027 | each code of Annex C of ITU-T T.81 covers an interval of windows, starting where the previous one ends |
| `JpegCodes.BeginsUnique` | externals/stb/stb_image.h:2095-2145 | no window begins with two codes |
| `JpegCodes.CodableIff` | externals/stb/stb_image.h:2020-2023 | the code space is not exceeded exactly when every code fits its size |
| `JpegCodes.RunMatch` | externals/stb/stb_image.h:2120-2139 | code plus delta is the number of the one code that begins the window |
| `JpegHuffman.FastHitUnique` | externals/stb/stb_image.h:2031-2043 | no two symbols claim the same slot |
| `JpegHuffman.Huffman.FillSizes` | externals/stb/stb_image.h:2006-2012 | the list of sizes; fails exactly above 256 codes |
| `JpegHuffman.Huffman.AssignCodes` | externals/stb/stb_image.h:2014-2029 | the codes of Annex C, preshifted limits and offsets; fails exactly when the sizes are not codable |
| `JpegHuffman.Huffman.Build` | externals/stb/stb_image.h:2001-2044 | succeeds exactly for at most 256 codes that fit, and then all tables are those of the code |
| `JpegReader.FindSymbol` | externals/stb/stb_image.h:2103-2139 | for every window but those of an accelerated symbol number 255 it finds the code that begins the window, or reports that there is none; for exactly those it takes ten bits instead of at most nine |
| `JpegReader.FlagClashes` | externals/stb/stb_image.h:2006-2043 | tables with such a symbol exist and are accepted: 256 codes of eight bits, or 255 of eight and one of nine, whose counts fit the bytes of a DHT segment |
| `JpegReader.Reader.NextCoded` | externals/stb/stb_image.h:2076-2084 | the next byte with stuffing removed, or stop at a marker, which is kept, and behind it |
| `JpegReader.Reader.GrowBuffer` | externals/stb/stb_image.h:2073-2088 | refills to more than 24 bits or to all real bits, without moving the position |
| `JpegReader.Reader.HuffDecode` | externals/stb/stb_image.h:2095-2145 | the value of the code at the position; never fails on a code that lies within the real bits; on the windows of an accelerated symbol number 255 it advances ten bits |
| `JpegReader.Reader.ExtendReceive` | externals/stb/stb_image.h:2151-2164 | RECEIVE and EXTEND of section F.2.2.1 of ITU-T T.81 on the next n bits, zeros after the last real one; or zero with nothing read, only where the real bits run out and no marker was met before |
| `JpegBlock.BuildFastAc` | externals/stb/stb_image.h:2046-2071 | every slot holds value, run and total length when they fit, zero otherwise |
| `JpegBlock.FastAcAgrees` | externals/stb/stb_image.h:2233-2246 | a nonzero fast entry gives the run, signed value and length that decoding the code and then its magnitude bits gives |
| `JpegBlock.ZigzagIsWalk` | externals/stb/stb_image.h:2192-2205 | the zigzag table is the diagonal walk of Figure A.6 of ITU-T T.81 |
| `JpegBlock.ZigPastEnd` | externals/stb/stb_image.h:2203-2205 | places past the end of the block are its last one |
| `JpegBlock.AddIntsExact` | externals/stb/stb_image.h:1067-1073 | the guard on the DC sum is exact |
| `JpegBlock.Mul2ShortsExact` | externals/stb/stb_image.h:1075-1082 | the helper judges the product of two shorts rightly exactly outside a stated family: two negative factors, or -32768 times -1 |
| `JpegBlock.DcGuardExact` | externals/stb/stb_image.h:2222-2225 | the guard as applied, to an int times a 16-bit unsigned quantiser: it never refuses a product that fits a short, and accepts one that does not exactly in a stated family |
| `JpegBlock.Mul2ShortsWrong` | externals/stb/stb_image.h:2222-2225 | three products that do not fit a short and are accepted: -200 times 65336, 1 times 65535, 65537 times 1 |
| `JpegBlock.AcStep` | externals/stb/stb_image.h:2227-2257 | one AC round by either path equals the reference step whenever its bits are there and symbol number 255 is not accelerated |
| `JpegBlock.DecodeAc` | externals/stb/stb_image.h:2225-2260 | the AC loop equals the reference run, for every table whose symbol number 255 is not accelerated; a bad code in the real bits is always reported |
| `JpegBlock.DecodeBlock` | externals/stb/stb_image.h:2208-2261 | a whole block, DC and AC, for such tables: coefficients, position and predictor are the reference ones |
| `JpegBlock.CoefficientLands` | externals/stb/stb_image.h:2242-2257 | a coefficient goes to the zigzag place behind its run, times its quantiser modulo 2^16, and changes no other |
| `JpegBlock.ZerosThenCoefficient` | externals/stb/stb_image.h:2250-2257 | a run of sixteen zeros moves the next coefficient sixteen places on |
| `GifTable.NewEntry` | externals/stb/stb_image.h:6748-6756 | a new entry expands to the previous string plus the first byte of the current one, also when the code is the entry being made |
| `GifTable.InitialTable` | externals/stb/stb_image.h:6706-6713 | the initial table holds the single bytes |
| `GifTable.TableFrame` | externals/stb/stb_image.h:6706-6770 | entries below the change keep their expansion: prefixes only point down |
| `GifSpec.LargerTable` | externals/stb/stb_image.h:6750-6752 | a stream that decodes with a table decodes the same with any larger one |
| `GifSpec.TableEnough` | externals/stb/stb_image.h:6750-6752 | a table larger than the number of codes never runs out |
| `GifSpec.GrowIs` | externals/stb/stb_image.h:6762-6765 | the code size grows by one exactly when all codes of the current size are taken, up to twelve bits |
| `GifSpec.StepWidth` | externals/stb/stb_image.h:6732-6770 | after every code the size is the least that can name the next entry, for the code sizes that GIF89a allows |
| `GifRaster.RowsExactlyOnce` | externals/stb/stb_image.h:6678-6687 | the four interlace passes visit every row exactly once |
| `GifRaster.RowCount` | externals/stb/stb_image.h:6678-6687 | as many rows as the image has |
| `GifRaster.PixelsDistinct` | externals/stb/stb_image.h:6653-6688 | no two indices are painted at the same place |
| `GifRaster.PixelsCover` | externals/stb/stb_image.h:6653-6688 | every pixel of the rectangle is some index's place |
| `Gif.Gif.NextRow` | externals/stb/stb_image.h:6678-6687 | the cursor moves to the next row of the interlace order |
| `Gif.Gif.Render` | externals/stb/stb_image.h:6665-6675 | marks one pixel as touched and paints it unless its colour is transparent |
| `Gif.Gif.OutCode` | externals/stb/stb_image.h:6653-6688 | terminates and appends exactly the string of a code, in order |
| `Gif.Gif.AddEntry` | externals/stb/stb_image.h:6748-6756 | the table gains exactly the string that Appendix F of GIF89a prescribes |
| `Gif.Gif.TakeCode` | externals/stb/stb_image.h:6732-6770 | one code: clear, end, string or error, as the reference step |
| `Gif.Gif.DecodeRaster` | externals/stb/stb_image.h:6717-6772 | the loop over blocks and codes equals the reference decoder, error cases included |
| `Gif.Gif.ProcessRaster` | externals/stb/stb_image.h:6690-6773 | fails exactly when the code size or the code stream is bad; otherwise the image shows exactly the decoded indices |
| `Dxt.NeighbourAbove` | externals/stb/stb_dxt.cpp:712-731 | the chosen step is no farther than the next one up |
| `Dxt.NeighbourBelow` | externals/stb/stb_dxt.cpp:712-731 | the chosen step is no farther than the next one down |
| `Dxt.ExactStep` | externals/stb/stb_dxt.cpp:712-716 | for spreads of at most 7 the chosen step is exact |
| `Dxt.PaletteIsRamp` | externals/bc_decoder/bc_decoder.cpp:122-132 | the decoder's eight-entry palette is the ramp the encoder assumes |
| `Dxt.PaletteIsShortRamp` | externals/bc_decoder/bc_decoder.cpp:126-132 | with the end points in the other order: five steps from the first to the second, then 0 and 255 |
| `Dxt.PackedAt` | externals/stb/stb_dxt.cpp:737-743 | the bit packing keeps every index |
| `Dxt.GetIdxIsField` | externals/bc_decoder/bc_decoder.cpp:142-145 | the decoder reads three bits per texel |
| `Dxt.MinMax` | externals/stb/stb_dxt.cpp:693-702 | the extremes, both attained |
| `Dxt.SelectIndex` | externals/stb/stb_dxt.cpp:719-735 | an index nearest to the value among all eight palette entries |
| `Dxt.CompressAlphaBlock` | externals/stb/stb_dxt.cpp:690-745 | the end points are the largest and smallest sample; across encoder and decoder, every texel gets a palette entry no farther than any other, and the round trip is exact for spreads of at most 7 |
| `DxtRefine.SumsByCount` | externals/stb/stb_dxt.cpp:529-530 | the three sums in terms of how often each index occurs |
| `DxtRefine.Solvable` | externals/stb/stb_dxt.cpp:587-592 | the determinant is never negative, and zero exactly when all sixteen indices agree |
| `DxtRefine.TestIffAllSame` | externals/stb/stb_dxt.cpp:545-545 | the test on the mask holds exactly when all sixteen indices agree |
| `DxtRefine.FieldsApart` | externals/stb/stb_dxt.cpp:588-590 | the packed accumulator never carries between its three fields |
| `DxtRefine.NormalEquations` | externals/stb/stb_dxt.cpp:565-592 | the sums of the least-squares system, with a divisor that is positive |
| `BptcMasks.TableSound2` | externals/bc_decoder/bc_decoder.cpp:1013-1158 | every two-subset partition has its anchor texels in their own subsets, and its texels are the bits of the number by which the standard gives it |
| `BptcMasks.TableSound3` | externals/bc_decoder/bc_decoder.cpp:1080-1184 | every three-subset partition has its anchor texels in their own subsets, and its texels are the digits of the partition's number |
| `BptcMasks.Subset2Is` | externals/bc_decoder/bc_decoder.cpp:1397-1423 | the subset of a texel of two is its bit of the partition's number |
| `BptcMasks.Subset3Is` | externals/bc_decoder/bc_decoder.cpp:1397-1423 | the subset of a texel of three is its digit of the partition's number |
| `BptcMasks.Anchors2Is` | externals/bc_decoder/bc_decoder.cpp:1147-1158 | each anchor texel of two subsets is its hexadecimal digit of the table by eights |
| `Bc7.GetIsSlice` | externals/bc_decoder/bc_decoder.cpp:1218-1227 | reading a field is a slice of the 128-bit word, across the middle too |
| `Bc7.ModeIsUnary` | externals/bc_decoder/bc_decoder.cpp:1229-1255 | the mode is the number of zeros before the first one bit |
| `Bc7.ColorsTile` | externals/bc_decoder/bc_decoder.cpp:960-970 | colour fields follow one another without gap or overlap |
| `Bc7.AlphasTile` | externals/bc_decoder/bc_decoder.cpp:972-978 | alpha fields and endpoint P-bits follow one another without gap or overlap |
| `Bc7.PBitsTile` | externals/bc_decoder/bc_decoder.cpp:980-994 | shared P-bits follow, and indices start right after |
| `Bc7.WordFull` | externals/bc_decoder/bc_decoder.cpp:927-1008 | in every mode the header and both runs of indices fill the 128 bits exactly |
| `Bc7.OneAnchorEach` | externals/bc_decoder/bc_decoder.cpp:1397-1423 | each subset has exactly one anchor texel, and every texel belongs to a subset |
| `Bc7.AnchorsTotal` | externals/bc_decoder/bc_decoder.cpp:1408-1423 | as many anchor texels as subsets, in every partition |
| `Bc7.IndicesTile` | externals/bc_decoder/bc_decoder.cpp:1425-1459 | the indices of a run follow one another and fill it exactly |
| `Bc7.WidenKeeps` | externals/bc_decoder/bc_decoder.cpp:1329-1345 | widening to a byte keeps the bits on top and repeats them below |
| `Bc7.ChannelTop` | externals/bc_decoder/bc_decoder.cpp:1290-1345 | the top bits of an endpoint channel are its field and its P-bit |
| `Bc7.InterpolateBetween` | externals/bc_decoder/bc_decoder.cpp:1262-1273 | blends lie between the endpoints, the ends are exact, and swapping endpoints mirrors the index |
| `Bc7.ReadIndex` | externals/bc_decoder/bc_decoder.cpp:1425-1459 | reading at the cursor is reading at the texel's own place in the word |
| `Bc7.Decode` | externals/bc_decoder/bc_decoder.cpp:1275-1395 | every visible texel is the one defined from the word alone; clipped texels are left alone but still move the cursors |
| `Bc7Spec.Columns` | externals/bc_decoder/bc_decoder.cpp:997-1008 | the mode table, column by column |
| `Bc7Spec.FieldsAgree` | externals/bc_decoder/bc_decoder.cpp:927-994 | every colour, alpha and P-bit field is at the position computed from those columns |
| `Bc7Spec.ChannelAgrees` | externals/bc_decoder/bc_decoder.cpp:1290-1345 | an endpoint channel is its field and P-bit spread over a byte |
| `Bc7Spec.IndexAgrees` | externals/bc_decoder/bc_decoder.cpp:1425-1459 | an index is the slice at its numbered place, a bit shorter at the anchors |
| `Bc7Spec.WeightAgrees` | externals/bc_decoder/bc_decoder.cpp:1263-1266 | the interpolation weights are the rounded 64ths of the index's fraction |
| `Bc7Spec.OutputAgrees` | externals/bc_decoder/bc_decoder.cpp:1369-1389 | red goes to b and blue to r, alpha follows its own index, and the rotation exchanges alpha with b, g or r |
| `Bc7Spec.BlockIsStandard` | externals/bc_decoder/bc_decoder.cpp:1275-1395 | on all 128-bit words the decoded texel equals the one that the standard's description, written independently, gives |
| `Bc7Spec.TexelShown` | externals/bc_decoder/bc_decoder.cpp:1353-1366 | texel 4 y + x is shown exactly when column x and row y lie in the picture |
| `Bc6h.Data.ConsumeBits` | externals/bc_decoder/bc_decoder.cpp:443-472 | takes the low bits of the word, reversed if asked, and shifts the 128-bit word down |
| `Bc6hLayout.ExactlyOnce` | externals/bc_decoder/bc_decoder.cpp:630-794 | in all fourteen modes the fields write every bit of every endpoint channel and of the partition exactly once |
| `Bc6h.PlacedBit` | externals/bc_decoder/bc_decoder.cpp:443-472 | a field moves each of its bits to one bit of the variable and touches no other |
| `Bc6h.WhereInjective` | externals/bc_decoder/bc_decoder.cpp:630-794 | no header bit is used twice |
| `Bc6h.HeaderBit` | externals/bc_decoder/bc_decoder.cpp:829-859 | each bit of each endpoint channel is the header bit that the layout lists for it; bits above its size are clear |
| `Bc6hPlaces.WidthIs` | externals/bc_decoder/bc_decoder.cpp:630-794 | the width of every header value in every mode |
| `Bc6hPlaces.PlaceIs` | externals/bc_decoder/bc_decoder.cpp:630-794 | the position of every bit of every header value as a number: one rule for all fourteen modes and a short list of strays |
| `Bc6hSpec.ValueAgrees` | externals/bc_decoder/bc_decoder.cpp:829-859 | every header value is gathered from those positions |
| `Bc6h.ParseHeader` | externals/bc_decoder/bc_decoder.cpp:829-859 | reads the whole layout and consumes exactly the header bits |
| `Bc6h.ExtendSignIs` | externals/bc_decoder/bc_decoder.cpp:306-326 | the xor-and-subtract trick is two's complement sign extension |
| `Bc6h.DeltaAdds` | externals/bc_decoder/bc_decoder.cpp:357-361 | resolving a delta adds it, signed, to the base modulo the base's width |
| `Bc6h.SignedDeltaAdds` | externals/bc_decoder/bc_decoder.cpp:357-369 | the same for signed blocks |
| `Bc6h.UnquantizedRange` | externals/bc_decoder/bc_decoder.cpp:379-392 | unquantizing stays within 16 bits and maps the ends to the ends |
| `Bc6h.UnquantizedSignedRange` | externals/bc_decoder/bc_decoder.cpp:394-422 | signed unquantizing never reaches -32768 below 16 bits, and leaves 16-bit values alone |
| `Bc6h.ModeFound` | externals/bc_decoder/bc_decoder.cpp:594-608 | the table entry found is that of the mode read |
| `Bc6h.AllBitsUsed` | externals/bc_decoder/bc_decoder.cpp:630-907 | mode, fields and indices use exactly 128 bits in every mode |
| `Bc6hFinite.UnsignedFinite` | externals/bc_decoder/bc_decoder.cpp:516-520 | scaling an unsigned blend gives at most 0x7BFF |
| `Bc6hFinite.SignedFinite` | externals/bc_decoder/bc_decoder.cpp:506-515 | scaling a signed blend gives a finite half float exactly when the blend is not -32768, and negative infinity for that one |
| `Bc6hFinite.UnsignedBlockFinite` | externals/bc_decoder/bc_decoder.cpp:800-918 | whatever the word, every channel of every texel of an unsigned block is a finite half float of at most 0x7BFF |
| `Bc6hFinite.HeaderValue` | externals/bc_decoder/bc_decoder.cpp:829-859 | no header value is wider than its mode says |
| `Bc6hFinite.MixLowest` | externals/bc_decoder/bc_decoder.cpp:501-506 | a blend of 16-bit values is -32768 exactly when its weighted distance from there is below half a step |
| `Bc6hFinite.SignedBlockFinite` | externals/bc_decoder/bc_decoder.cpp:800-918 | for every word and texel, a signed channel is finite unless the mode has 16-bit endpoints and the base, delta and index satisfy that inequality; then, and only then, it is negative infinity |
| `Bc6hFinite.NegativeInfinity` | externals/bc_decoder/bc_decoder.cpp:733-739 | a block of mode 15 with only the sign of the red base set decodes to negative infinity in all sixteen texels |
| `Bc6h.ReadIndex` | externals/bc_decoder/bc_decoder.cpp:887-907 | an index is read from its own place in the word |
| `Bc6h.DecodeTexels` | externals/bc_decoder/bc_decoder.cpp:822-918 | every texel is the one defined from the word alone, and the register ends empty |
| `Bc6h.Decode` | externals/bc_decoder/bc_decoder.cpp:800-918 | any block, reserved modes included |
| `Bc6hSpec.EndpointAgrees` | externals/bc_decoder/bc_decoder.cpp:306-422 | an endpoint is its value, or the base plus a signed delta in the width of the base, unquantized as a division |
| `Bc6hSpec.IndexAgrees` | externals/bc_decoder/bc_decoder.cpp:887-907 | an index is the slice at its numbered place, a bit shorter at the anchors |
| `Bc6hSpec.BlockIsStandard` | externals/bc_decoder/bc_decoder.cpp:800-918 | on all words, signed and unsigned, the decoded texel equals the one that the standard's description, written independently, gives |
| `Getopt.Rotate` | externals/getopt/getopt.c:72-104 | the exchange is a rotation of two blocks that keeps the order inside each |
| `Getopt.Getopt.Exchange` | externals/getopt/getopt.c:72-107 | after it the options precede the operands skipped so far and the bounds are updated |
| `Getopt.Getopt.SkipOperands` | externals/getopt/getopt.c:148-161 | skips operands, keeping them contiguous and in order |
| `Getopt.Getopt.TakeDashes` | externals/getopt/getopt.c:162-171 | after `--` everything left is an operand |
| `Getopt.Getopt.MatchName` | externals/getopt/getopt.c:201-225 | an exact name wins; otherwise a prefix that is unique up to equal meaning |
| `Getopt.Getopt.TakeLong` | externals/getopt/getopt.c:187-315 | one long option and its argument, as the reference says |
| `Getopt.Getopt.TakeShort` | externals/getopt/getopt.c:317-475 | one letter of a cluster and its argument, as the reference says |
| `Getopt.Getopt.Call` | externals/getopt/getopt.c:129-476 | in the PERMUTE ordering, one call returns the next event of the reference walk, or ends the run |
| `Getopt.Getopt.Run` | externals/getopt/getopt.c:129-476 | a whole run in the PERMUTE ordering: all events, argv a permutation, and argv[optind..] exactly the operands in their original order |
| `GetoptSpec.WalkPermutes` | externals/getopt/getopt.c:146-177 | options and operands together are the arguments, none lost or repeated |
| `GetoptSpec.WalkOperands` | externals/getopt/getopt.c:158-159 | without `--` every remaining argument is an operand |
| `GetoptLaws.LongName` | externals/getopt/getopt.c:187-315 | --name, in full or abbreviated: the event has the option's value, or zero with a flag, its index, and the next element as argument if one is demanded |
| `GetoptLaws.HelpOption` | src/yuzu_cmd/yuzu.cpp:227-227 | for instance, --help with the option (help, no argument, no flag, h) reports h |
| `GetoptLaws.LongValue` | externals/getopt/getopt.c:240-270 | --name=value: the value is the argument, or an error if the option takes none |
| `GetoptLaws.LongUnknown` | externals/getopt/getopt.c:201-240 | a name that no option begins with, or that abbreviates options of different effect, is an error |
| `GetoptLaws.PlainLetter` | externals/getopt/getopt.c:317-475 | a letter without a colon reports itself, and the rest of the cluster is read on |
| `GetoptLaws.LetterWithArgument` | externals/getopt/getopt.c:317-475 | a letter with one colon takes the rest of the element, the next element, or reports that it is missing |
| `GetoptLaws.LetterWithOption` | externals/getopt/getopt.c:317-475 | a letter with two colons takes the rest of the element or nothing |
| `GetoptLaws.UnknownLetter` | externals/getopt/getopt.c:317-331 | any other letter is an error, and the cluster goes on |
| `GetoptLaws.OperandFirst` | externals/getopt/getopt.c:158-159 | an element without a leading dash, or a dash alone, is an operand |
| `GetoptLaws.DashesFirst` | externals/getopt/getopt.c:162-171 | behind two dashes everything is an operand |
| `Resize.SlotsDiffer` | externals/stb/stb_image_resize.h:1439-1440 | scanlines in the ring never share a slot |
| `Resize.SlotAfterDrop` | externals/stb/stb_image_resize.h:2098-2102 | dropping the first scanline moves no other |
| `Resize.Ring.AddEmpty` | externals/stb/stb_image_resize.h:1425-1447 | adds a cleared scanline without touching the others; the assertion on the slot holds |
| `Resize.Ring.GetLine` | externals/stb/stb_image_resize.h:1689-1694 | the scanline asked for |
| `Resize.Ring.DropBefore` | externals/stb/stb_image_resize.h:2084-2104 | drops exactly the scanlines before the range |
| `Resize.Ring.Upsample` | externals/stb/stb_image_resize.h:2067-2118 | every output row is the sum over its contributors of the whole image |
| `Resize.Ring.EmptyRing` | externals/stb/stb_image_resize.h:2120-2163 | rows are written out in order as they become complete |
| `Resize.Ring.Distribute` | externals/stb/stb_image_resize.h:1987-2064 | adds one input row to every row it contributes to |
| `Resize.Ring.Downsample` | externals/stb/stb_image_resize.h:2165-2204 | every output row is written once, in order, with the full sum of its contributions |
| `AudioIn.RingPop` | src/audio_core/audio_in_manager.cpp:28-30 | taking the next slot removes the first free id |
| `AudioIn.RingPush` | src/audio_core/audio_in_manager.cpp:38-40 | filling the free slot appends the id |
| `AudioIn.Manager.AcquireSessionId` | src/audio_core/audio_in_manager.cpp:22-32 | hands out an id nobody holds, or fails exactly when all are held |
| `AudioIn.Manager.ReleaseSessionId` | src/audio_core/audio_in_manager.cpp:34-43 | a held id becomes free, last in the queue; the manager stays sound exactly when the id was held |
| `AudioIn.NoDoubleGrant` | src/audio_core/audio_in_manager.cpp:22-43 | over every legal run, between two grants of an id it was released |
| `AudioIn.Run` | src/audio_core/audio_in_manager.cpp:16-43 | every run of acquires and releases grants exactly what the queue model says |

## Left out

- Inflate.DecodeMalloc: needs a positive initial size, because the source doubles a size of zero for ever; running out of memory is not modelled.
- Inflate.ZBuf.ParseZlib: the Adler-32 checksum is not checked, as in the source.
- Png.CreateRaw: the 16-bit samples are stored for a little-endian host; running out of memory is not modelled.
- JpegReader.Reader.HuffDecode: on a window of an accelerated symbol number 255 only the number of bits taken is stated, not which value comes back.
- JpegBlock.DecodeBlock: claims nothing about blocks whose bits run past the last real bit of the segment, where the source mixes zero bits, zero values and errors, nor about tables with an accelerated symbol number 255; a product with the quantiser that overflows an int, undefined in C, is taken modulo 2^16.
- Gif.Gif.ProcessRaster: the colour table, the rectangle and the cursor are given; extension blocks, frame disposal and animation are not modelled.
- Dxt.CompressAlphaBlock: decoding is of unsigned channels into a block; signed channels and the clipping and pitch of `BC_channel::decode` are not modelled.
- DxtRefine.NormalEquations: stops at the divisor; the floating-point solve and the single-colour fallback are not modelled.
- Bc7.Decode: texels go to an array of sixteen colours; the pitch of the destination is not modelled.
- Bc6h.Decode: texels go to an array of sixteen colours without the constant alpha; the pitch of the destination is not modelled.
- Getopt.Getopt.Call: as for Run, below.
- Getopt.Getopt.Run: the PERMUTE ordering, so no option string that begins with `-` or `+`, without `long_only` and `W;`; `optopt`, the store through an option's flag and the diagnostics are not modelled, and the caller leaves argv and optind alone.
- Resize.Ring.Upsample: row ranges and coefficients are inputs, nondecreasing and no wider than the ring; add and multiply stay abstract, horizontal filtering is the function that loads a row.
- Resize.Ring.Downsample: as above, with ranges that leave no gap.
- AudioIn.Manager.ReleaseSessionId: only ids below the number of sessions, since others index outside the arrays; locking, sessions and applet ids are not modelled.
- Progressive JPEG, IDCT, colour conversion and upsampling: numeric kernels without a compact exact specification.
- PNG chunks, palettes and transparency, and the BMP, TGA, PSD, PIC, HDR and PNM loaders: plumbing and easy members.
- The colour half of the BC1 encoder, whose core is floating point.
- BC1 to BC5 colour decoding and texture addressing: easy members.
- The wide-character copy of getopt.
- The thread and event code of the audio core, whose guarantees come from the library and the scheduler.
