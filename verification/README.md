# Verified model of the decoder, the audio path and the support code of the firmware

The project models nine components of the firmware and proves what each of them is for. Every proof is
for all inputs, all run lengths and, where a component is a state machine, all interleavings of its steps.

| modules | component |
|---|---|
| `BitStream`, `Huffman`, `HuffmanBuild`, `BitReader`, `BitMeaning` | the JPEG bit reader and its canonical Huffman tables |
| `Entropy`, `McuLoad`, `Scan`, `Chain` | coefficient decoding, the loading of MCUs, restart intervals, and the encoder of ITU-T T.81 they invert |
| `Idct`, `IdctBlock`, `McuOutput`, `McuWalk` | the fixed-point inverse DCT, the in-place MCU output, the walk over the image |
| `Progress`, `Decompress`, `Decoder`, `WholeImage` | the whole decompression: that it ends, what it outputs, and that it inverts the encoder up to the pixels |
| `NodeQueue`, `Codec`, `Dma` | the data-node ring of the audio driver, the DMA pause and refill protocol on top of it, and the channel that plays the buffer |
| `Romfs`, `RomfsRead`, `RomfsLayout`, `RomfsAddress` | the ROM file system image, the reader that inverts it, its layout, and which images can be written |
| `BitFold`, `Crc` | the littlefs CRC against the bit-serial definition (polynomial of section 3.2.9 of IEEE 802.3) |
| `Echo` | the echo delay line |
| `Kfifo` | the byte queue with free-running 32-bit indices |
| `MixerQueue`, `DoublyList` | the music-source queue and the intrusive list |
| `Button`, `ButtonBurst`, `ButtonList` | the button debouncer, its click state machine, what it says to whole sequences of presses, and the list of buttons |
| `Machine`, `Sequences` | C's integer widths, truncating division, masks; contents stored into others |

## How it is organised

The source changes state in place, and so do the classes and methods here: the arrays, ring indices, list
pointers and masks are the source's own. Each method is proved against a function on values (`ReadBits`,
`DecodeBlock`, `ReadLoop`, `Refill`, `Take`, `Play`, `Handle`, ...) that says what one call does; lemmas
then say what these functions amount to, against an independent definition: the unstuffed bit string, the
encoder of ITU-T T.81, the picture indexed directly, a stream of bytes, a reader of the image, the
bit-serial CRC, the echo recurrence, an observer of the button events.

The entropy round trip has five layers. `BitReader` shows that the reader with its refilled buffer reads
bits by place in the whole input. `BitMeaning` shows that this is the unstuffed bit string and that the
search by length is prefix matching. `Entropy` shows that the coefficient loop undoes run-length coding.
`Scan` carries this through MCUs, byte stuffing, padding and restart markers up to a whole scan.
`WholeImage` takes it through the loops of `jd_decomp` and the in-place output to the pixels.

Where a function says what a method does, a lemma says what the function amounts to by numbers and plain
arithmetic alone: the samples of a pixel by their places in the MCU (`McuOutput.PixelIs`), the bytes of an MCU
component by component (`Decompress.BytesOfComponents`), a stored sample by the cosines of the inverse DCT
(`IdctBlock.SampleIsDct`), the zigzag order by the walk (`Entropy.ZigWalks`), the pause by the words the channel
plays (`Dma.NothingUnfilled`), the clicks by the readings of the pin (`ButtonBurst.BurstClicks`).

Some predicates state a fact under a quantifier that is triggered by `Asked`: it is used only by a proof
that asks for it, so that a loop need not look into everything that one of its rounds does.

A configuration is fixed where the source is configured: RGB565 output, scaling on, saturation by table, a
512-byte input buffer, `PAUSE_EN` on, a node list of 12 slots and a send buffer of 2048 bytes.

## What turned out to differ from what the code is for

- The restart check masks with 0xFFD8 and so ignores bit 5: 0xFFF0 to 0xFFF7 pass as restart markers
  (`BitReader.NotOnlyMarkers`).
- The saturation table saturates exactly the values -512..511 and those congruent to a right entry; further
  out it wraps (`Idct.ClipSaturates`). The colour conversion never leaves the range
  (`McuOutput.ConvertSaturates`).
- A block overflows neither pass of the inverse DCT for all coefficients of magnitude up to 6227 and not
  beyond (`IdctBlock.SafeBlockBound`); the code has no such limit.
- Decompression succeeds only if both padded sides fit 16 bits (`McuWalk.WalkEnds`, `Decoder.Decoder.Decomp`).
  With a larger side a 16-bit counter wraps and stays below the side as long as every call succeeds; since every
  MCU takes bits of the input, the decompression then ends with the code of a failure.
- A ROM image can be written exactly if every size and the address of its last data fit 32 bits
  (`RomfsAddress.ImagePacks`). So an image that ends exactly at 2^32 cannot be written if its last file or
  folder is empty (`RomfsAddress.ImageFits`), and one that ends later can be if its last data begins below
  (`RomfsAddress.FourTrees`).
- The echo is right for every stream exactly for microphone volumes up to 32768 (`Echo.EchoesUpTo`); beyond,
  the product wraps at 32 bits. The sample loop does not end for the length 32767, because its 16-bit counter
  wraps (`Echo.LoopEnds`).
- Doubling the microphone channel in place is right exactly up to one sample more than the source is ahead
  (`MixerQueue.DoublingLimit`). With an odd number of microphone bytes the last sample played is stale
  (`MixerQueue.AllDoubledIffEven`); the mixer asks for an odd number when the expected length is 2 modulo 4.
- An odd number of queued music bytes below a block trips the mixer's assertion; with even lengths it never
  does (`MixerQueue.EvenStays`).
- The code-word table is prefix-free and its words fit their lengths exactly when the length counts meet
  the Kraft inequality; the code does not check it (`Huffman.UsableIffKraft`, `HuffmanBuild.InstalledUsable`).

## Model

| member | source | states |
|---|---|---|
| Machine.PowerOfTwoTest | beken378/common/fifo.h:38 | `size & (size - 1)` is zero exactly for the powers of two |
| Machine.CDivTruncates | packages/TJpgDec/tjpgd.c:599-602 | a quotient is truncated toward zero, as C divides |
| BitStream.UnstuffFromIndex | packages/TJpgDec/tjpgd.c:253-275 | unstuffing from a place on is unstuffing the rest of the input: a zero byte after 0xFF is dropped, anything else after 0xFF ends the bits |
| Huffman.CodeIsKraft | packages/TJpgDec/tjpgd.c:215-220 | the code counted up and shifted per length, scaled to 16 bits, is the Kraft sum of the codes before it (section C.2 of ITU-T T.81) |
| Huffman.CodesIncrease | packages/TJpgDec/tjpgd.c:215-220 | the codes are in strict order: aligned to 16 bits, a later code lies past all words that begin with an earlier one (section C.2 of ITU-T T.81) |
| Huffman.UsableIffKraft | packages/TJpgDec/tjpgd.c:215-220 | all codes fit their lengths and none is a prefix of another if and only if the length counts meet the Kraft inequality |
| Huffman.PrefixFreeUnderKraft | packages/TJpgDec/tjpgd.c:215-220 | under the Kraft inequality no code word begins another |
| Huffman.FitsUnderKraft | packages/TJpgDec/tjpgd.c:215-220 | under the Kraft inequality no code overflows its length or the 16-bit counter |
| Huffman.OverflowBreaks | packages/TJpgDec/tjpgd.c:215-220 | the first code past the Kraft bound overflows or collides with a prefix |
| Huffman.SearchFindsWord | packages/TJpgDec/tjpgd.c:308-342 | when a code word begins the bits, the first match of the search over all lengths is that code and no other |
| HuffmanBuild.TableStore.AllocPool | packages/TJpgDec/tjpgd.c:127-144 | a block rounded up to words is taken from the beginning of the free memory if it fits, so that blocks follow each other; otherwise nothing changes |
| HuffmanBuild.BuildCodes | packages/TJpgDec/tjpgd.c:212-220 | the table built by the two nested loops with a wrapping 16-bit counter holds, at every place, the canonical code of that symbol modulo 2^16 |
| HuffmanBuild.TableStore.CreateHuffmanTbl | packages/TJpgDec/tjpgd.c:189-235 | result code, pool and tables after a DHT segment of any bytes are those of the segment parsed table by table, errors included |
| HuffmanBuild.DhtRoundTrip | packages/TJpgDec/tjpgd.c:200-234 | a segment written from any list of valid table definitions installs exactly those tables and uses exactly the computed pool; if the pool is smaller the result is the memory error |
| HuffmanBuild.OneTable | packages/TJpgDec/tjpgd.c:200-234 | with memory enough, a segment of one table is refused, with the format error, exactly for a DC symbol above 11; otherwise just that table is installed under its number and class |
| HuffmanBuild.CutTable | packages/TJpgDec/tjpgd.c:201-224 | a table that is cut off anywhere is refused with the format error, if there is memory for its counts and codes |
| HuffmanBuild.InstalledUsable | packages/TJpgDec/tjpgd.c:209-220 | the installed table has the canonical codes if and only if its codes fit and are prefix-free |
| BitReader.Reader.InFunc | packages/TJpgDec/tjpgd.c:257-261 | the input function may deliver any positive number of the next bytes up to the buffer size, and none only at the end of the input |
| BitReader.Reader.NextByte | packages/TJpgDec/tjpgd.c:257-264 | the next byte is the next one of the whole input, wherever the chunks of the input end |
| BitReader.Reader.NextData | packages/TJpgDec/tjpgd.c:265-275 | a data byte is fetched, with a 0xFF 0x00 pair read as one 0xFF even across a refill, or the matching error is returned |
| BitReader.Reader.BitExt | packages/TJpgDec/tjpgd.c:244-285 | the bits read and the place reached are those of the whole input, however it is chunked; on an error the saved position stays as it was |
| BitReader.Reader.HuffExt | packages/TJpgDec/tjpgd.c:294-345 | the symbol or error returned and the place reached are those of the by-length search on the whole input, however it is chunked; on an error the saved position stays as it was |
| BitReader.Reader.SearchLength | packages/TJpgDec/tjpgd.c:334-340 | the first code of one length that equals the bits is found, or the search has passed them all |
| BitReader.Reader.TakeMarker | packages/TJpgDec/tjpgd.c:709-732 | the remaining bits are dropped, two bytes are taken, and they are accepted exactly if they are 0xD0 or 0xF0 plus the number modulo 8 after 0xFF |
| BitReader.RestartMasks | packages/TJpgDec/tjpgd.c:729-732 | those bytes are exactly the ones that pass the comparisons under the masks 0xFFD8 and 7 |
| BitReader.NotOnlyMarkers | packages/TJpgDec/tjpgd.c:728-732 | for every expected number, bytes 0xFF 0xF0 plus the number modulo 8, which are no restart marker, are accepted as one |
| BitMeaning.FetchMeans | packages/TJpgDec/tjpgd.c:256-276 | fetching a byte leaves the unstuffed bits ahead as they were, and fails exactly when there are none, with the code of what ended them |
| BitMeaning.ReadBitsMeans | packages/TJpgDec/tjpgd.c:253-284 | up to 16 bits read are the value of the next bits of the unstuffed string, which go; if there are fewer the result is the error of what ends it |
| BitMeaning.SymbolMeans | packages/TJpgDec/tjpgd.c:305-344 | for any table: the symbol of the first code that begins the bits ahead is returned and exactly its length is consumed; with no such code the result is the end-of-bits error below 16 bits, else the format error |
| Entropy.ZigInverse | packages/TJpgDec/tjpgd.c:31-36 | the zigzag table has the inverse written out independently |
| Entropy.ZagInverse | packages/TJpgDec/tjpgd.c:31-36 | the inverse has the zigzag table as its inverse, so the table is a permutation |
| Entropy.ZigWalks | packages/TJpgDec/tjpgd.c:31-36 | every entry of the table is the next place of the zigzag walk over eight rows and columns (Figure A.6 of ITU-T T.81) |
| Entropy.RasterUpdate | packages/TJpgDec/tjpgd.c:503-526 | storing one coefficient in raster order is storing it at its zigzag position and dequantizing all |
| Entropy.RasterAt | packages/TJpgDec/tjpgd.c:503-526 | in a stored block, at the raster position of any zigzag index is the coefficient times the factor of that position over 256, rounded down, whenever the product fits 32 bits |
| Entropy.RestoreAdditional | packages/TJpgDec/tjpgd.c:495-498 | restoring the sign of the additional bits of any nonzero value gives the value back (sections F.1.2.1 and F.2.2 of ITU-T T.81) |
| Entropy.RestoreExtends | packages/TJpgDec/tjpgd.c:495-498 | restoring the sign is the EXTEND procedure (Figure F.12 of ITU-T T.81): the upper half of the range stands for itself, the lower half for the negative values |
| Entropy.AcSymbols | packages/TJpgDec/tjpgd.c:511-528 | the high half of a symbol is the run of zeros and the low half the number of bits, 0 ends the block, 0xF0 skips 16 zeros, and a run past the block is the format error (section F.1.2.2.1 of ITU-T T.81) |
| Entropy.DecodeToken | packages/TJpgDec/tjpgd.c:511-527 | a coded run and value ahead of the reader is read as that symbol and that value, and what follows it is next |
| Entropy.EmitFollows | packages/TJpgDec/tjpgd.c:511-527 | a whole sequence of coded tokens is read one after the other |
| Entropy.LoopUndoesRuns | packages/TJpgDec/tjpgd.c:510-528 | the coefficient loop undoes run-length coding: from any place in any block it restores the coefficients, runs of 16 zeros and end of block included |
| Entropy.AcRoundTrip | packages/TJpgDec/tjpgd.c:505-528 | all 63 AC coefficients of any codable block are recovered, and the reader is at the next bit |
| Entropy.DcRoundTrip | packages/TJpgDec/tjpgd.c:487-503 | the DC value is recovered from the coded difference to the previous one and kept for the next block |
| Entropy.BlockRoundTrip | packages/TJpgDec/tjpgd.c:483-528 | decoding the encoding of any codable block under any usable tables gives its 64 coefficients, the new DC value, and leaves the reader exactly at the next bit |
| Idct.SafeBoundIsLimit | packages/TJpgDec/tjpgd.c:365-408 | no 32-bit intermediate of a butterfly overflows for all inputs of magnitude up to m if and only if m is at most 70939 |
| Idct.LimitIsSafe | packages/TJpgDec/tjpgd.c:412-443 | nor does one of a row pass, whose first input carries the level shift of 32768 |
| Idct.ButterflyNear | packages/TJpgDec/tjpgd.c:366-405 | wherever nothing overflows, every output is within 3 of the same butterfly in exact rationals |
| IdctBlock.BlockIsSafe | packages/TJpgDec/tjpgd.c:354-457 | a whole block with coefficients of magnitude up to 6227 overflows in neither pass |
| IdctBlock.SafeBlockBound | packages/TJpgDec/tjpgd.c:354-457 | all blocks with coefficients of magnitude up to b are safe in both passes if and only if b is at most 6227 |
| IdctBlock.BlockNear | packages/TJpgDec/tjpgd.c:354-457 | in a block that does not overflow, every value before the final descaling by 256 is within 38 of the exact two-pass transform in rationals |
| IdctBlock.SampleNear | packages/TJpgDec/tjpgd.c:354-457 | in such a block every stored byte is saturated from a level that is at most 38/256 above the exact two-pass transform and at most 38/256 and one level below |
| IdctBlock.FlatBlock | packages/TJpgDec/tjpgd.c:354-457 | a block with only its first value has all 64 samples equal to that value over 256, rounded down, plus 128, saturated |
| IdctBlock.IdealIsDct | packages/TJpgDec/tjpgd.c:356-405 | the butterfly in exact rationals is the one-dimensional inverse DCT of prescaled coefficients (section A.3.3 of ITU-T T.81): the weight of each coefficient in each sample is right to 1/4096 |
| IdctBlock.ExactIsDct | packages/TJpgDec/tjpgd.c:354-457 | both passes in exact rationals are the two-dimensional inverse DCT, level shifted, up to the rounding of the constants times the sum of all magnitudes |
| IdctBlock.SampleIsDct | packages/TJpgDec/tjpgd.c:354-457 | every stored sample of a block that does not overflow is saturated from a level near the two-dimensional inverse DCT of the block plus 128, with an explicit bound on both sides |
| Idct.ClipSaturates | packages/TJpgDec/tjpgd.c:64-103 | the table with its 10-bit mask saturates to 0..255 exactly for the stated set of values |
| Idct.BlockIdct | packages/TJpgDec/tjpgd.c:354-457 | the two in-place passes store the samples of the separable transform of the original block, and nothing outside the 64 bytes changes |
| Idct.ColumnsInPlace | packages/TJpgDec/tjpgd.c:364-408 | eight columns rewritten in place give the transform of each original column |
| McuLoad.Jdec.NextAc | packages/TJpgDec/tjpgd.c:511-526 | one round of the AC loop ends the block, fails, skips zeros or yields a coefficient at its place, exactly as its symbol and bits say |
| McuLoad.Jdec.LoadDc | packages/TJpgDec/tjpgd.c:487-503 | the DC value is the previous one of the component plus the difference, and is saved as 16 bits for the next block |
| McuLoad.Jdec.LoadBlock | packages/TJpgDec/tjpgd.c:484-528 | the block is decoded with the first DC and AC table for Y and with the second ones for Cb and Cr, and the work buffer ends up with its coefficients, dequantized, in raster order |
| McuLoad.Jdec.LoadMcu | packages/TJpgDec/tjpgd.c:466-540 | the Y blocks, one Cb block and one Cr block are decoded in this order, each with the tables and DC value of its component, and stored at their places in the buffer; the error is that of the first block that fails |
| McuLoad.BlocksInParts | packages/TJpgDec/tjpgd.c:1044-1061 | loading MCUs one after the other, with reader and DC values carried over, is decoding one sequence of blocks |
| McuLoad.Jdec.Restart | packages/TJpgDec/tjpgd.c:698-738 | after an accepted marker the DC values are zero and the reader is on the byte after it |
| Scan.BlocksRoundTrip | packages/TJpgDec/tjpgd.c:483-539 | a coded sequence of blocks of any components is recovered, each DC value against the previous one of its component |
| Scan.UnstuffStuffed | packages/TJpgDec/tjpgd.c:265-274 | unstuffing bits that were packed, padded with ones and stuffed gives the bits, the padding, and the marker that follows (section F.1.2.3 of ITU-T T.81) |
| Scan.IntervalRoundTrip | packages/TJpgDec/tjpgd.c:466-540 | a restart interval is recovered from its bytes and the marker after it comes next |
| Scan.MarkerRoundTrip | packages/TJpgDec/tjpgd.c:709-732 | a restart marker with the expected number is accepted and the next interval begins after it (section B.2.4.4 of ITU-T T.81) |
| Scan.ScanRoundTrip | packages/TJpgDec/tjpgd.c:466-540 | decoding restart interval by restart interval a scan whose Y blocks were written with the first tables and whose Cb and Cr blocks with the second, with stuffing, padding and markers, gives back every coefficient of every block |
| McuOutput.RowsAt | packages/TJpgDec/tjpgd.c:578-604 | the pixel at x, y of a picture stored by rows is at place y * width + x |
| McuOutput.ConvertSaturates | packages/TJpgDec/tjpgd.c:599-602 | for all component bytes the conversion stays in the range the table saturates rightly |
| McuOutput.PixelIs | packages/TJpgDec/tjpgd.c:578-602 | for each of the three samplings, a pixel has the saturated colour of its Y sample and of the Cb and Cr samples of its column and row or pair, at the written-out places of the MCU |
| McuOutput.CornerIs | packages/TJpgDec/tjpgd.c:634-654 | at scale 1/8 a pixel has the colour of the first samples of its Y block, of the Cb block and of the Cr block, at the written-out places |
| McuOutput.HalfIs | packages/TJpgDec/tjpgd.c:606-632 | at scale 1/2 four times each channel of a pixel is at most the sum of two by two pixels, and more than that sum less four |
| McuOutput.QuarterIs | packages/TJpgDec/tjpgd.c:606-632 | at scale 1/4 the same for four by four pixels and sixteen |
| McuOutput.ShrunkIs | packages/TJpgDec/tjpgd.c:566-571 | coordinates and sides are divided by two to the power of the scale |
| McuOutput.ScaledIs | packages/TJpgDec/tjpgd.c:573-654 | the picture of an MCU is made of these pixels at full size, of the means of squares of them at 1/2 and 1/4, and of the first samples at 1/8 |
| McuOutput.Pack565Fields | packages/TJpgDec/tjpgd.c:680-682 | the 16-bit pixel holds the top 5, 6 and 5 bits of red, green and blue |
| McuOutput.NotOverrun | packages/TJpgDec/tjpgd.c:923-931 | with the buffer sizes chosen, the pixels written never reach a luma byte, or a chroma byte, that is still to be read |
| McuOutput.Walk | packages/TJpgDec/tjpgd.c:580-597 | the direct index of a luma and chroma byte moves along a row as the pointers do |
| McuOutput.AllocBuffers | packages/TJpgDec/tjpgd.c:923-931 | both buffers are allocated if the pool holds them, and then the second begins right where the first ends; otherwise the result is the memory error |
| McuOutput.Mcu.constructor | packages/TJpgDec/tjpgd.c:924-931 | the two buffers, adjacent, have the sizes the source allocates |
| McuOutput.Mcu.Advance | packages/TJpgDec/tjpgd.c:588-597 | the incrementally moved pointers are at the directly indexed bytes of every pixel, for each sampling |
| McuOutput.Mcu.PutPixel | packages/TJpgDec/tjpgd.c:589-602 | a pixel written over the buffer has the colour of its Y, Cb and Cr samples of the original MCU, and the bytes still needed are intact |
| McuOutput.Mcu.BuildRgb | packages/TJpgDec/tjpgd.c:578-604 | building over its own input yields every pixel of the original MCU with the colour of its Y, Cb and Cr samples, chroma upsampled |
| McuOutput.SquareFits | packages/TJpgDec/tjpgd.c:615-630 | an averaged pixel is written no further than the square it is made from |
| McuOutput.AveragedAt | packages/TJpgDec/tjpgd.c:618-629 | sums and means of a square fit their 16 and 8 bits |
| McuOutput.Mcu.Descale | packages/TJpgDec/tjpgd.c:606-632 | averaging in place yields the means of the squares of the original pixels |
| McuOutput.Mcu.BuildCorners | packages/TJpgDec/tjpgd.c:634-654 | at scale 1/8 each block gives one pixel from its first byte |
| McuOutput.Mcu.Squeeze | packages/TJpgDec/tjpgd.c:657-671 | squeezing in place leaves the visible part of every row |
| McuOutput.Mcu.PackWords | packages/TJpgDec/tjpgd.c:674-685 | packing in place leaves the 16-bit form of every pixel |
| McuOutput.Mcu.Output | packages/TJpgDec/tjpgd.c:549-689 | all in-place passes over the overlapping buffers give, for every sampling, scale, position and contents, the visible part of the picture that the samples of the MCU mean, as if computed from a separate copy of the MCU, and the rectangle reported |
| McuWalk.CounterTells | packages/TJpgDec/tjpgd.c:1047-1053 | the two counters call for a restart exactly when the MCU number is a positive multiple of the interval, with the number of intervals so far less one |
| McuWalk.RestartEvery | packages/TJpgDec/tjpgd.c:1047-1053 | a restart comes before MCU k exactly if k is n times the interval for some n >= 1, and expects marker n - 1 modulo 8 |
| McuWalk.CountersNext | packages/TJpgDec/tjpgd.c:1047-1053 | updating the 16-bit counters keeps them telling the MCUs since the last restart and the number of restarts |
| McuWalk.PlaceInGrid | packages/TJpgDec/tjpgd.c:1041-1045 | in a grid that fits, the MCUs come row by row from the left, each at its multiple of the MCU size |
| McuWalk.WalkEnds | packages/TJpgDec/tjpgd.c:1041-1061 | while every call succeeds, the two loops come to their end if and only if both padded sides fit 16 bits |
| McuWalk.SideEnds | packages/TJpgDec/tjpgd.c:1041-1044 | the 16-bit counter reaches the side at all if and only if the side plus one MCU is at most 65536 |
| McuWalk.Slice | packages/TJpgDec/tjpgd.c:564-572 | the visible part of an MCU row or column is the scaled cell cut at the scaled side |
| McuWalk.RectanglesPartition | packages/TJpgDec/tjpgd.c:564-572 | every pixel of the scaled picture is in the rectangle of exactly one MCU of the walk, and no rectangle leaves the picture |
| Progress.SearchTaken | packages/TJpgDec/tjpgd.c:308-342 | a symbol that is found takes at least one bit of the input |
| Progress.BlocksTaken | packages/TJpgDec/tjpgd.c:483-537 | blocks that are loaded take bits of the input |
| Decompress.RunsAgree | packages/TJpgDec/tjpgd.c:1041-1063 | what a decompression comes to, at its first failure or its end, is unique |
| Decompress.RowsStored | packages/TJpgDec/tjpgd.c:530-536 | the pixels depend only on the decoded blocks, also at scale 1/8, where most bytes of the buffer are left over from before |
| Decompress.BytesOfComponents | packages/TJpgDec/tjpgd.c:483-537 | the bytes of an MCU are the samples of its Y blocks with the factors of component 0, of its Cb block with those of component 1 and of its Cr block with those of component 2; at scale 1/8 the first byte of each is 128 plus a 256th of its DC value, rounded toward zero |
| Decompress.ShownMeans | packages/TJpgDec/tjpgd.c:549-689 | what is output for an MCU is a rectangle at its scaled place with the pixels that those bytes mean, in 5, 6 and 5 bits, row by row |
| Decoder.Decoder.constructor | packages/TJpgDec/tjpgd.c:923-941 | loading and output share the adjacent buffers |
| Decoder.Decoder.Restarted | packages/TJpgDec/tjpgd.c:1047-1053 | the counters in the loop restart exactly before the MCUs that complete an interval, with its number |
| Decoder.Decoder.LoadAndShow | packages/TJpgDec/tjpgd.c:1054-1059 | an MCU is loaded into the memory that the output then works over, and the output function is given the visible rectangle with the pixels of the decoded blocks, in 16-bit form and row by row |
| Decoder.Decoder.OneRow | packages/TJpgDec/tjpgd.c:1044-1060 | a row of MCUs ends for any width, at its end or with the first failure |
| Decoder.Decoder.Decomp | packages/TJpgDec/tjpgd.c:1021-1064 | on any input and any sides it ends; its result and everything it has output are those of the MCUs in the order of the walk up to the first failure; if it succeeds, the walk is over and both padded sides fit 16 bits |
| WholeImage.IntervalReached | packages/TJpgDec/tjpgd.c:1047-1059 | the MCUs of an encoded restart interval are decoded and output one after the other |
| WholeImage.DecodesInterleaved | packages/TJpgDec/tjpgd.c:479-485 | the decoder takes the blocks of an MCU for the components in which the encoder interleaves them: 0, 1, 2 or 0, 0, 1, 2 or 0, 0, 0, 0, 1, 2 (section A.2.3 of ITU-T T.81) |
| WholeImage.ImageReached | packages/TJpgDec/tjpgd.c:1037-1063 | for every image encoded as ITU-T T.81 prescribes, with any restart interval, all MCUs are decoded and output with the pixels of their blocks |
| WholeImage.McuShown | packages/TJpgDec/tjpgd.c:1037-1063 | every visible MCU of such an image is among the rectangles, at its scaled place, with the pixels that its Y, Cb and Cr blocks mean |
| WholeImage.DecodeEncoded | packages/TJpgDec/tjpgd.c:1021-1064 | the decompressor on such an image succeeds, and its output function has been given exactly the rectangles of the MCUs with these pixels |
| NodeQueue.ReadTakesPrefix | drivers/audio/drv_audio_icodec.c:188-267 | a read delivers the longest prefix of the queued bytes that fits, leaves the rest, and completes nodes in order, each exactly when it is exhausted |
| NodeQueue.WriteAppends | drivers/audio/drv_audio_icodec.c:177-185 | a written node appends its bytes to the queued stream |
| NodeQueue.NodeList.IsEmpty | drivers/audio/drv_audio_icodec.c:127-147 | true exactly if no node is queued |
| NodeQueue.NodeList.Write | drivers/audio/drv_audio_icodec.c:155-186 | a node is appended unless all slots but one are taken; otherwise nothing changes |
| NodeQueue.NodeList.Complete | drivers/audio/drv_audio_icodec.c:234-261 | the callback gets the first node before its slot is given up, and the next node is first |
| NodeQueue.NodeList.ReadNode | drivers/audio/drv_audio_icodec.c:211-261 | one round copies the next part of the first node and completes it if it is exhausted |
| NodeQueue.NodeList.ReadInto | drivers/audio/drv_audio_icodec.c:188-267 | result, buffer contents, queue and completed nodes of a read, with or without a buffer, are those of the read on the stream |
| NodeQueue.NodeList.Empty | drivers/audio/drv_audio_icodec.c:269-281 | emptying ends, with every queued node completed once and in order |
| Codec.RefillGood | drivers/audio/drv_audio_icodec.c:548-624 | a DMA interrupt fills its half with the next queued bytes and zeros and keeps the protocol invariant |
| Codec.FillGood | drivers/audio/drv_audio_icodec.c:406-423 | a write while paused goes on filling the half where it stopped; the pause ends exactly when it is full |
| Codec.QueueGood | drivers/audio/drv_audio_icodec.c:406-425 | a write otherwise only queues, or is refused |
| Codec.StepGood | drivers/audio/drv_audio_icodec.c:398-624 | every write, half, finish and reset step keeps the invariant |
| Codec.PausedWaits | drivers/audio/drv_audio_icodec.c:408-423 | while paused the queue is empty, and the fill area is a nonempty suffix of one half, still zero; the pause address is 2044 for the lower half and 1020 for the upper one |
| Codec.EveryRun | drivers/audio/drv_audio_icodec.c:398-624 | over every interleaving the bytes copied are a prefix of the accepted bytes not discarded, and completions a prefix of the accepted nodes in order |
| Dma.InterruptSounds | drivers/audio/drv_audio_icodec.c:548-624 | when the channel has played a half that was all filled, the interrupt refills it, and pauses the channel at the end of the other half if it could not |
| Dma.HappenedSounds | drivers/audio/drv_audio_icodec.c:398-624 | every write, reset and word keeps: what has been played, what is left of the half being played and what is prepared in the other one are the initial silence and then all bytes copied |
| Dma.NothingUnfilled | drivers/audio/drv_audio_icodec.c:398-624 | however writes, resets and words come one after the other, the channel reads no byte that has not been filled in; it stops only when nothing is queued, right before the half that is still to be filled |
| Dma.PlaysWhatIsWritten | drivers/audio/drv_audio_icodec.c:398-624 | without a reset, what is played is the initial silence and then the bytes of the accepted nodes in order, none lost and none twice |
| Dma.GoesOn | drivers/audio/drv_audio_icodec.c:408-423 | a write lets a stopped channel go on if and only if it fills the half |
| Codec.AudioCodec.Handler | drivers/audio/drv_audio_icodec.c:548-624 | both handlers do on the class what the refill step says, buffer, pause state, queue and completions |
| Codec.AudioCodec.DacDmaHalfHandler | drivers/audio/drv_audio_icodec.c:548-589 | the step of the lower half |
| Codec.AudioCodec.DacDmaFinishHandler | drivers/audio/drv_audio_icodec.c:591-624 | the step of the upper half |
| Codec.AudioCodec.Write | drivers/audio/drv_audio_icodec.c:398-426 | the step of the writer; its result says whether the node was accepted |
| Codec.AudioCodec.Reset | drivers/audio/drv_audio_icodec.c:489-493 | the step of a reset: every queued node is completed, buffer and pause state stay |
| Romfs.GetBinData | applications/mkromfs.py:218-229 | the image is the root entry, the name "/" and the data of the tree at the address after them, or an error if a field does not fit 32 bits |
| Romfs.FolderBinData | applications/mkromfs.py:162-199 | the loop collecting entries and payload yields the recursively defined layout of the children |
| Romfs.OneChild | applications/mkromfs.py:179-197 | a child's name, padded data, entry and next address are those of the layout |
| Romfs.NodeBinData | applications/mkromfs.py:49-50 | a file's data is its contents; a folder's its entries and payload |
| Romfs.SmallImage | applications/mkromfs.py:150-229 | all 68 bytes of the image of a file and an empty folder at 0x01020304, written out |
| RomfsRead.EntryRead | applications/mkromfs.py:191-195 | the four words of a stored entry are read back |
| RomfsRead.NameRead | applications/mkromfs.py:31-36 | a stored name without zero bytes is read back by scanning to the first zero |
| RomfsRead.ContentsRead | applications/mkromfs.py:150-199 | wherever the data of a node is stored, reading it gives the contents or all the children back |
| RomfsRead.ChildrenRead | applications/mkromfs.py:169-199 | wherever entries and payload of a folder are stored, reading them gives the children back |
| RomfsRead.ImageRoundTrip | applications/mkromfs.py:218-229 | following the entries from the root of the image of any tree with zero-free names, at any base, recovers exactly the tree |
| RomfsLayout.ImageTiles | applications/mkromfs.py:150-229 | the regions of entries, names and data tile the image from its first byte to its last |
| RomfsLayout.TilesDisjoint | applications/mkromfs.py:150-229 | two regions of a tiling are in order and do not overlap |
| RomfsLayout.ImageAligned | applications/mkromfs.py:185-189 | every region starts on four bytes if the base does |
| RomfsAddress.LastWithin | applications/mkromfs.py:150-199 | the last data of a node begins within it, and exactly at its end if and only if the last file or folder is empty |
| RomfsAddress.ImagePacks | applications/mkromfs.py:150-229 | for every tree and base, the image can be written if and only if the address of its last data and all sizes fit 32 bits |
| RomfsAddress.ImageFits | applications/mkromfs.py:150-229 | an image that ends at 2^32 or below can be written if and only if it ends below or its last file or folder is not empty |
| RomfsAddress.FourTrees | applications/mkromfs.py:183-195 | an empty last file and an empty last folder that cannot be written, and images that end at 2^32 and past it that can |
| Crc.NibbleIsSerial | packages/littlefs-v2.1.1/lfs_crc.c:15-16 | a table step is four steps of the bit-serial register |
| Crc.TableIsSerial | packages/littlefs-v2.1.1/lfs_crc.c:14-17 | the CRC by table is the bit-at-a-time CRC with polynomial 0xEDB88320 for every buffer and start value |
| Crc.LfsCrc | packages/littlefs-v2.1.1/lfs_crc.c:4-20 | the loop returns the bit-serial CRC of the buffer |
| Crc.ByTableAppend | packages/littlefs-v2.1.1/lfs_crc.c:14-17 | the CRC of a concatenation is the CRC of the second part started with that of the first |
| Crc.StepForthAndBack | packages/littlefs-v2.1.1/lfs_crc.c:15-16 | a register step can be undone |
| Crc.WindowAtOnce | packages/littlefs-v2.1.1/lfs_crc.c:15-16 | up to 32 bits may be mixed into the register at once before the steps |
| Crc.BurstDetected | packages/littlefs-v2.1.1/lfs_crc.c:14-17 | bit strings that differ only in one window of at most 32 bits get different CRCs |
| Crc.WindowDetected | packages/littlefs-v2.1.1/lfs_crc.c:14-17 | buffers that differ only in one window of at most 4 bytes get different CRCs |
| Echo.PlayHolds | function/sound_delay.c:313-340 | after any number of frames the line holds, slot by slot around the ring, the last fed-back values of the recurrence |
| Echo.EchoLaw | function/sound_delay.c:299-342 | from a start of play, every output is made from the recurrence of the delay sample_len + 1, for every volume, and the operating pointer stays in the line |
| Echo.PlayInParts | function/sound_delay.c:311-341 | a stream in two buffers gives the outputs and the state of one |
| Echo.EchoInParts | function/sound_delay.c:299-342 | the outputs of a stream split anywhere are made from the recurrence |
| Echo.EchoesUpTo | function/sound_delay.c:324-331 | they are the outputs of the recurrence, without wrap-around, for every stream if and only if the volume is at most 32768 |
| Echo.ProductFits | function/sound_delay.c:324-327 | the product stays within 32 bits for all samples if and only if the volume is at most 32768 |
| Echo.MusicFits | function/sound_delay.c:374-378 | the products with the 16-bit music volume always do |
| Echo.MixedIs | function/sound_delay.c:374-383 | each channel of a mixed frame is a sixteenth of the music sample times the music volume, rounded down, plus the echo, saturated |
| Echo.FedIs | function/sound_delay.c:313-322 | what is fed into the line is half of what was fed in one delay before, rounded down, plus the right channel, saturated |
| Echo.LoudIs | function/sound_delay.c:324-328 | the output is a sixteenth of the sum times the volume, rounded down, saturated |
| Echo.LoopEnds | function/sound_delay.c:302-311 | the 16-bit loop counter reaches the length if and only if the length is at most 32766 |
| Echo.SoundDelay.Config | function/sound_delay.c:233-266 | after configuration the line up to the delay is silent and the pointer is at its end |
| Echo.SoundDelay.StartPlay | function/sound_delay.c:272-280 | play starts from silence |
| Echo.SoundDelay.OneFrame | function/sound_delay.c:313-340 | one round on the line in place is one step of the model |
| Echo.SoundDelay.MixerSinglePlaying | function/sound_delay.c:299-342 | the buffer is overwritten with the outputs of its frames on both channels, the rest of it is kept |
| Echo.SoundDelay.MixerMultiPlaying | function/sound_delay.c:344-394 | each music frame is mixed, saturated, with the output of its microphone frame; the rest of the buffer is kept |
| Kfifo.Fifo.constructor | beken378/common/fifo.h:33-51 | a queue with a power of two as its size starts empty |
| Kfifo.Fifo.Put | beken378/common/fifo.h:103-123 | the longest prefix that fits is appended, and its length returned |
| Kfifo.Fifo.Get | beken378/common/fifo.h:137-157 | the longest available prefix is removed and delivered; the rest of the destination is kept |
| Kfifo.Fifo.CopyOut | beken378/common/fifo.h:169-185 | as many bytes as asked for are copied from an offset on around the ring |
| Kfifo.Fifo.OutPeek | beken378/common/fifo.h:187-199 | what a get would deliver is delivered, and the queue stays as it is |
| Kfifo.Fifo.DataSize | beken378/common/fifo.h:159-162 | the number of bytes queued |
| Kfifo.Fifo.Unused | beken378/common/fifo.h:164-167 | the bytes queued and this number make up the size |
| Kfifo.Fifo.LowIsMod | beken378/common/fifo.h:113-114 | masking a free-running index gives its place in the ring |
| Kfifo.Advance | beken378/common/fifo.h:113-119 | an index advanced with 32-bit wrap-around is as many places further in a ring whose size divides 2^32 |
| Kfifo.PutCount | beken378/common/fifo.h:119 | the wrapping difference of the indices grows by what was put |
| Kfifo.GetCount | beken378/common/fifo.h:153 | and shrinks by what was got |
| Kfifo.FreeCount | beken378/common/fifo.h:110 | the wrapping expression for the free space is the free space |
| Kfifo.RingAppend | beken378/common/fifo.h:112-117 | two copies around the end of the buffer append the data to the ring and keep the rest |
| Kfifo.RingSplit | beken378/common/fifo.h:146-153 | the ring from the advanced place on holds what is left after the prefix |
| DoublyList.Insert | beken378/common/doubly_list.h:38-44 | between two neighbours of a well-formed ring an entry is inserted and the ring stays well formed |
| DoublyList.Unlink | beken378/common/doubly_list.h:79-83 | an entry is left out and the ring stays well formed |
| DoublyList.ListAddHead | beken378/common/doubly_list.h:54-57 | the entry comes first |
| DoublyList.ListAddTail | beken378/common/doubly_list.h:67-70 | the entry comes last |
| DoublyList.ListDel | beken378/common/doubly_list.h:91-94 | exactly the entry is gone; its own pointers are kept |
| DoublyList.ListDelInit | beken378/common/doubly_list.h:100-104 | exactly the entry is gone, and it is an empty list itself |
| DoublyList.ListMove | beken378/common/doubly_list.h:111-115 | the entry goes to the front of another list or of its own |
| DoublyList.ListMoveTail | beken378/common/doubly_list.h:122-127 | the entry goes to the end of another list or of its own |
| DoublyList.ListEmpty | beken378/common/doubly_list.h:133-136 | true exactly for the empty list |
| DoublyList.ListSplice | beken378/common/doubly_list.h:157-161 | the entries of one list come before those of the other, in order |
| DoublyList.ListSpliceInit | beken378/common/doubly_list.h:170-177 | and the first list is empty afterwards |
| DoublyList.ListSize | beken378/common/doubly_list.h:214-222 | the number of entries |
| DoublyList.Sweep | beken378/common/doubly_list.h:206-208 | the safe iteration visits every original entry once, in order, while the current one may be deleted and its memory given back; the list ends up with the entries kept |
| DoublyList.InsertedRing | beken378/common/doubly_list.h:38-44 | the four pointers written make a ring with the entry in place |
| DoublyList.UnlinkedRing | beken378/common/doubly_list.h:79-83 | the two pointers written make a ring without the entry |
| DoublyList.SplicedRing | beken378/common/doubly_list.h:138-150 | the four pointers written make one ring of both |
| MixerQueue.TakeTakesPrefix | function/mixer.c:738-795 | a read takes the longest prefix of the queued bytes that fits, leaves the rest, and frees buffers in order |
| MixerQueue.PendingAppend | function/mixer.c:601-606 | a queued buffer appends its bytes |
| MixerQueue.DoGood | function/mixer.c:582-795 | every step keeps: each buffer handed in is queued or has been freed, once; the bytes taken, then those queued, are those that came in |
| MixerQueue.After | function/mixer.c:582-795 | the same after any sequence of steps from the empty queue, whether music is being mixed or not at each of them |
| MixerQueue.EvenStays | function/mixer.c:1022-1043 | with even buffers and even reads the queued length stays even over every run, so the assertion on the expected length holds |
| MixerQueue.DoubledInPlace | function/mixer.c:835-852 | reading and writing the same memory, every source sample arrives twice, while the count is at most one more than the lead of the source |
| MixerQueue.DoublingLimit | function/mixer.c:835-852 | for all contents if and only if so |
| MixerQueue.AllDoubledIffEven | function/mixer.c:845-851 | all samples of the returned length are doubled ones, for all contents, if and only if the number of source bytes is even |
| MixerQueue.DoublePadding | function/mixer.c:835-852 | the loop does this and returns twice the length |
| MixerQueue.Mixer.SrcIn | function/mixer.c:582-615 | a nonempty buffer is queued last if music is mixed and there is memory; otherwise it is freed at once |
| MixerQueue.Mixer.SrcOut | function/mixer.c:702-717 | the node leaves the queue, wherever it is, and its buffer is freed |
| MixerQueue.Mixer.Flush | function/mixer.c:719-736 | the queue is empty and every buffer freed, in order |
| MixerQueue.Mixer.GetData | function/mixer.c:738-795 | length, buffer contents, remaining queue and freed buffers are those of the read on the stream |
| MixerQueue.Mixer.GetDataLen | function/mixer.c:798-816 | the number of queued bytes |
| MixerQueue.MuxAcoustics | function/mixer.c:1011-1046 | stopped without memory, idle without data, stopped by the assertion at an odd length, else exactly as many music bytes as doubled microphone bytes are taken, so the second assertion never fires, and the microphone samples read are doubled in place, all that are played if their number of bytes is even |
| Button.HandleAgrees | packages/MultiButton/multi_button.c:68-192 | every tick keeps the state machine in agreement with an observer of the events alone |
| Button.EventsInOrder | packages/MultiButton/multi_button.c:68-192 | over all runs: downs and ups alternate from a down, holds follow a long start with no up between, clicks fire only when released after a burst of the right number of presses modulo 16 |
| Button.CounterCounts | packages/MultiButton/multi_button.c:78-93 | the debounce counter counts the latest readings that differ from the level |
| Button.LevelChanges | packages/MultiButton/multi_button.c:78-93 | the level changes if and only if the last three readings differed from it |
| Button.LongPress | packages/MultiButton/multi_button.c:113-128 | a held button starts a long press after exactly 201 ticks and then holds every tick |
| Button.Click | packages/MultiButton/multi_button.c:130-157 | a released button decides single or double click after exactly 61 ticks |
| ButtonBurst.BurstClicks | packages/MultiButton/multi_button.c:68-175 | from initialisation, by the readings alone: n presses, each short and in time, are reported as a press and n - 1 repeated presses with their releases; nothing follows for 63 readings of the rest, and the 64th brings a single click if and only if n is 1, a double click if and only if n is 2, modulo 16 |
| ButtonBurst.HeldEndsBurst | packages/MultiButton/multi_button.c:159-175 | a later press of 60 readings or more, modulo 65536, ends the burst with its release and no click ever follows |
| ButtonBurst.LongPressed | packages/MultiButton/multi_button.c:113-190 | a first press of 202 readings or more is reported as a press, the start of a long press, d - 202 holds and a release, and no click ever follows |
| ButtonList.Btn.ButtonHandler | packages/MultiButton/multi_button.c:68-192 | counting, debouncing and the switch on the fields of a button, with its callbacks in order, are one step of the model |
| ButtonList.Buttons.ButtonStart | packages/MultiButton/multi_button.c:199-217 | a new button comes first; one already there is refused and nothing changes |
| ButtonList.Buttons.ButtonStop | packages/MultiButton/multi_button.c:224-241 | the button is off the list and the others stay, in order |
| ButtonList.Buttons.ButtonTicks | packages/MultiButton/multi_button.c:248-256 | every listed button gets exactly one tick, and no other |

## Left out

JPEG decoder

- The marker loop of `jd_prepare`, quantizer tables (`create_qt_tbl`) and the device callbacks: decoding starts from tables and an input that may be delivered in any chunks.
- HuffmanBuild.TableStore.CreateHuffmanTbl: registers a table when all of it has been read; the source registers its parts one by one, so after an error it may keep parts of a table that is not used.
- IdctBlock.IdealIsDct: the cosines are rounded to 1/4096, and the scaling of the coefficients by the cosines of the denominator, which `create_qt_tbl` puts into the quantizer tables, is taken as given.
- The decompressor object is split into the classes `Reader`, `TableStore`, `Jdec`, `Mcu` and `Decoder`. The
  buffers of the decoded blocks and of the pixels are one memory; the 32-bit values that the loading keeps in
  the working buffer are an array of their own.
- The 16-bit pixel is assembled as a sum of its disjoint fields, and stored low byte first.
- Dequantized products wrap at 32 bits, as the target does; in C the overflow is undefined.

Audio driver

- Registers, mute, volume and device callbacks; the copy of the protocol in `drivers/drv_i2s.c`.
- Handlers and writes are atomic steps; an interrupt in the middle of a write is not modelled.
- Dma.NothingUnfilled: takes it that the channel stops before it reads the word at the pause address, and that an interrupt is handled before the next word is read.
- NodeQueue.NodeList.ReadInto: sizes are unbounded; the source's signed comparison needs sizes below 2^31.

ROM file system

- Directory walk, sorting, C output and argument parsing; names are byte strings, and the host is little-endian.
- Path lookup in `dfs_romfs.c`: the reader here follows the same entries but recovers the whole tree.

Echo and mixer

- Echo.SoundDelay.MixerMultiPlaying: requires what the single one does.
- Echo.SoundDelay.MixerSinglePlaying: requires lengths of at most 32766 samples, because the loop does not end at 32767; for an odd length the array must hold the one sample more that the source touches.
- The adjustment of the delay while playing (`sdly_change_sample_time_byadc`), the forepart mute and the decay value, which has no effect on the samples.
- MixerQueue.MuxAcoustics: stops before the mixing, which is `Echo.SoundDelay.MixerMultiPlaying`; mutexes, devices and the memory pool are assumed to keep their contracts, and the code under `MIXER_MUX_NEW_STRATEGY` is compiled out.
- MixerQueue.Mixer.SrcIn: the list of nodes is a sequence; the intrusive list it is built on is `DoublyList`.

Queues and lists

- Kfifo.Fifo.constructor: the size 0, which passes the source's test, is not modelled.
- DoublyList.ListSplice: the head of the spliced list keeps its pointers, as in the source, and is not a list afterwards.

Button

- ButtonList.Buttons.ButtonTicks: callbacks are recorded as events; callbacks that change the list of buttons are not modelled.
- Button.LevelChanges: for pins that read 0 or 1.
