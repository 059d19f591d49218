# Verified models of the image pipeline

This project models the three parts of the repository whose correctness rests on
arithmetic and state rather than on foreign libraries, and proves what they are for.
`dafny verify dfyconfig.toml` checks everything.

**The in-tree image codec.** The DEFLATE reader (`Inflater`) is a class with the
original's bit buffer, tables and growing output; each of its methods is proved equal to
a function of an abstract bit stream (`InflateSpec`), in which symbols come from the
canonical code of a length list (`CanonicalCode`) and no table appears. `ZHuffman` is the
two-level table and its refinement proof. The writer (`Deflater`) is the matcher and bit
writer; `DeflateSpec` says which token sequences and stored blocks it may produce,
`DeflateRoundTrip` and `ZlibRoundTrip` that inflating them gives the data back, and
`LazyMatching` that it has one output for each input. `DynamicRoundTrip` and `DeflateStream`
describe streams of other encoders by the numbers of RFC 1950 and RFC 1951 and prove that
the reader inflates them; `DeflateAccepted` proves that it accepts nothing else. On top of
these stand the PNG filters (`PngFilter`, `PngImage`), de-interlacing (`Adam7`,
`Adam7RoundTrip`), the chunk loop and the file writer (`PngFile`, `PngReader`,
`PngRoundTrip`). `PngChunks` and `PngDecode` do for files what `DeflateStream` does for
streams, and `PngAccepted` is the converse: a file decodes to a picture only if it is a PNG
file of that picture. The JPEG entropy coder follows the same pattern: tables
(`JpegHuffman`, `JpegAc`, `JpegTables`), stream meaning (`JpegSpec`), reader and writer
(`JpegReader`, `JpegWriter`), block and byte round trips (`JpegBlock`, `JpegRoundTrip`), and
blocks of any encoder (`JpegSyntax`).

**The bounded queue.** `MpmcQueue` is a transition system with one step per access to
shared memory and any number of calls in flight; its results hold for every interleaving.
`BoundedQueue` is the class itself, one call at a time.

**Tiled super-resolution.** `TilingSpec`, `TilingPreproc` and `Tiling` follow the tile
loops and both shaders, invocation by invocation, and compare the stitched image with the
network applied to the whole mirrored image. The tile size need not reach the padding.
`TilingPixel` follows whole calls from bytes to bytes for networks that treat pixels one by one.

Helper modules: `Bits` (bit strings as numbers), `BitFields` (streams of fields),
`Positions` (flat buffer positions), `Wrappers`.

## Where the code and its promises part

- Compressing an empty input yields a header and a checksum with no block, which the
  inflater refuses (`ZlibRoundTrip.RoundTripExactly`).
- A PNG file whose compressed data exceeds 2^30 bytes is written but refused on reading;
  `PngLimit` gives a picture within all size limits for which this happens.
- A JPEG Huffman table of 256 symbols whose last code has at most nine bits is accepted,
  but that symbol is decoded as ten bits (`JpegHuffman.LookupIsCanonical`,
  `JpegHuffman.LastSymbolLost`).
- Sampling leaves the uploaded strip exactly when a side of the image is not longer than
  the padding (`TilingPreproc.AllInsideExactly`).

## Model

| member | source | states |
|---|---|---|
| `ZHuffman.BitReverse16IsRev` | include/stb-image/stb_image.h:4307-4313 | The four masked shifts reverse the low 16 bits of any number. |
| `ZHuffman.BitReverseIsRev` | include/stb-image/stb_image.h:4315-4320 | Reversing 16 bits and shifting reverses any shorter field. |
| `ZHuffman.Table.Build` | include/stb-image/stb_image.h:4322-4367 | A list of lengths 0..15 is accepted exactly when its Kraft sum is at most 1, and then the tables represent its canonical code. |
| `CanonicalCode.KraftIsEndCode` | include/stb-image/stb_image.h:4336-4352 | Summing 2^-length over the symbols and counting codes length by length, as the builder does, give the same number. |
| `CanonicalCode.KraftPerLength` | include/stb-image/stb_image.h:4336-4352 | Kraft's inequality holds exactly when no length runs past its code space, which is what the builder checks. |
| `CanonicalCode.PrefixFree` | include/stb-image/stb_image.h:4354-4366 | Under the canonical assignment (section 3.2.2 of RFC 1951) at most one symbol's code begins any bit string. |
| `ZHuffman.FillsDisjoint` | include/stb-image/stb_image.h:4357-4366 | The strided, bit-reversed fills of two different symbols never touch the same fast-table entry. |
| `ZHuffman.PositionInjective` | include/stb-image/stb_image.h:4353-4358 | Two symbols never share a place in the code-ordered size and value tables. |
| `ZHuffman.FastLookup` | include/stb-image/stb_image.h:4435-4461 | A fast-table entry is non-zero exactly when the reversed window lies below maxcode[9], and then it names the canonical symbol and its length. |
| `CanonicalCode.MatchWindow` | include/stb-image/stb_image.h:4414-4434 | A symbol of length s can only match a reversed 16-bit window between the bounds of lengths s-1 and s. |
| `CanonicalCode.WindowMatch` | include/stb-image/stb_image.h:4414-4434 | Conversely every window between two neighbouring bounds begins with the code found by offsetting from the first code of that length. |
| `Inflater.ZBuf.ZHuffmanDecodeSlowpath` | include/stb-image/stb_image.h:4414-4434 | The length search returns the canonical symbol and drops exactly its code, or -1 when no code matches; the symbol-range and size checks never fire. |
| `Inflater.ZBuf.ZHuffmanDecode` | include/stb-image/stb_image.h:4435-4462 | Refill, fast table and slow path together are canonical decoding of the abstract bit stream, with its end-of-input rule. |
| `Inflater.ZBuf.LoadByte` | include/stb-image/stb_image.h:4393-4401 | Loading a byte leaves the abstract stream unchanged; the guard against stray high bits never fires and the 32-bit shift loses nothing. |
| `Inflater.ZBuf.FillBits` | include/stb-image/stb_image.h:4393-4402 | Filling loads whole bytes, zeros past the end, until more than 24 bits are buffered, without changing the stream. |
| `Inflater.ZBuf.ZReceive` | include/stb-image/stb_image.h:4404-4412 | The value returned is the next n bits of the stream, which advances by exactly n. |
| `Inflater.ZBuf.Refill16` | include/stb-image/stb_image.h:4437-4452 | Sixteen bits are made available, padding with zeros at the end of input once and failing the second time. |
| `InflateSpec.Refill` | include/stb-image/stb_image.h:4393-4402 | After filling 25 to 32 bits are buffered and no stream bit is lost. |
| `Inflater.ZBuf.ZExpand` | include/stb-image/stb_image.h:4464-4488 | The output limit doubles until the need fits; it fails for a fixed buffer or past the 32-bit range, and otherwise ends. |
| `Inflater.ZBuf.CopyOut` | include/stb-image/stb_image.h:4551-4565 | The one-byte-run copy and the general copy both equal copying byte by byte from the given distance, overlap included. |
| `Inflater.ZBuf.ReceiveMatch` | include/stb-image/stb_image.h:4530-4543 | Length and distance are table bases plus extra bits; symbols outside the tables are refused. |
| `Inflater.ZBuf.ParseMatch` | include/stb-image/stb_image.h:4533-4566 | A match is read, checked against the bytes already written, given room and copied. |
| `Inflater.ZBuf.ParseHuffmanBlock` | include/stb-image/stb_image.h:4503-4568 | The block decoder equals the token-by-token meaning of the bits and always ends: every turn fails or adds a byte below the 32-bit bound. |
| `Inflater.ZBuf.ReadStoredHeader` | include/stb-image/stb_image.h:4631-4642 | Realigned header bytes come first from the buffer, at most three of them, then from the input; no payload byte is drained. |
| `Inflater.ZBuf.ParseUncompressedBlock` | include/stb-image/stb_image.h:4626-4656 | A stored block appends exactly LEN input bytes, and is refused when LEN and NLEN disagree or the input is too short. |
| `InflateSpec.StoredConsumes` | include/stb-image/stb_image.h:4641-4646 | LEN and its complement cannot both be read from the zeros past the end, so a stored block consumes real input. |
| `InflateSpec.HeaderConsumes` | include/stb-image/stb_image.h:4707-4715 | The header of a block that is not stored uses up a non-zero bit, so it cannot come from the zeros past the end. |
| `Inflater.ZBuf.ReadCodeLengths` | include/stb-image/stb_image.h:4590-4618 | The run-length coded list of code lengths, with its three repeat codes and its error cases. |
| `Inflater.ZBuf.ComputeHuffmanCodes` | include/stb-image/stb_image.h:4570-4624 | Both dynamic tables represent the code lengths the stream describes, or the block is refused. |
| `Inflater.ZBuf.ParseZlibHeader` | include/stb-image/stb_image.h:4658-4673 | Accepted exactly for deflate, a header checksum divisible by 31 and no preset dictionary, with input left. |
| `Inflater.ZBuf.ParseBlocks` | include/stb-image/stb_image.h:4707-4730 | The block loop computes the meaning of the stream and ends on every input although zeros are supplied past the end, since each block strictly decreases what is left. |
| `Inflater.ZBuf.ParseZlib` | include/stb-image/stb_image.h:4699-4731 | Inflating a byte string succeeds exactly when its meaning is defined and yields exactly those bytes. |
| `FixedCode.FixedCodeOf` | include/stb-image/stb_image_write.h:870-878 | Working the fixed code out from its lengths gives the four ranges of constants that the writer uses (section 3.2.6 of RFC 1951). |
| `FixedCode.FixedIsComplete` | include/stb-image/stb_image.h:4675-4685 | Both default length lists have Kraft sum exactly 1, so building their tables never fails. |
| `Deflater.ZlibBitrev` | include/stb-image/stb_image_write.h:838-845 | The loop reverses the low bits of a code. |
| `Deflater.BitSink.Flush` | include/stb-image/stb_image_write.h:829-836 | Moving whole bytes out of the bit buffer moves no bit of the stream and leaves fewer than eight pending. |
| `Deflater.BitSink.Add` | include/stb-image/stb_image_write.h:867-867 | Adding a code appends exactly that field to the stream; the 32-bit buffer never overflows. |
| `Deflater.BitSink.Huff` | include/stb-image/stb_image_write.h:868-878 | The bits written for a symbol are its fixed-code word, most significant bit first. |
| `Deflater.BitSink.Pad` | include/stb-image/stb_image_write.h:978-980 | Zero padding ends at the first byte boundary and the bytes hold all fields. |
| `Deflater.ZlibCountm` | include/stb-image/stb_image_write.h:847-853 | The length of the common prefix of two positions, at most 258. |
| `Deflater.CommonAgrees` | include/stb-image/stb_image_write.h:847-853 | The counted bytes really agree. |
| `Deflater.FindBest` | include/stb-image/stb_image_write.h:919-931 | A candidate is chosen exactly when some entry within the window agrees on three bytes; it is a true match at distance 1..32767, the longest, and the latest of equally long ones. |
| `Deflater.BetterNext` | include/stb-image/stb_image_write.h:939-953 | The lazy test is true exactly when some candidate matches longer at the next byte. |
| `Deflater.Remember` | include/stb-image/stb_image_write.h:932-937 | Only the position's own chain changes: a full one loses its older half, and the position is appended. |
| `Deflater.ChooseMatch` | include/stb-image/stb_image_write.h:917-953 | A match is settled on exactly when there is one of at least three bytes and the next position has no longer one. |
| `Deflater.LengthSymbol` | include/stb-image/stb_image_write.h:958-962 | The code search finds the row whose base and extra bits express the length. |
| `Deflater.DistanceSymbol` | include/stb-image/stb_image_write.h:963-967 | The code search finds the row whose base and extra bits express the distance. |
| `Deflater.EmitMatch` | include/stb-image/stb_image_write.h:955-967 | The fields written for a length and distance are a token of exactly that length and distance. |
| `Deflater.MatchCopies` | include/stb-image/stb_image_write.h:923-931 | Copying a match that agrees with the data reproduces the data, overlapping or not. |
| `Deflater.CompressFixed` | include/stb-image/stb_image_write.h:899-980 | What the matcher loop writes is a final fixed block of tokens that expand to the input, and every token is the lazy choice at its position: the latest of the longest matches with a remembered position, unless the next position has a longer one. |
| `Deflater.CompressStored` | include/stb-image/stb_image_write.h:986-1002 | The fallback writes the data as stored blocks of at most 32767 bytes. |
| `Deflater.ZlibCompress` | include/stb-image/stb_image_write.h:885-1029 | The output is a header, the smaller of the fixed and the stored form of the lazily chosen tokens of the data, and its checksum. |
| `Deflater.ChecksumAtEnd` | include/stb-image/stb_image_write.h:1019-1022 | The last four bytes, most significant first, spell 65536 times the second sum plus the first, with both sums in the closed form of section 8.2 of RFC 1950. |
| `LazyMatching.OneParse` | include/stb-image/stb_image_write.h:912-977 | The data and the quality determine the tokens: the lazy rule leaves one choice at every position. |
| `LazyMatching.OneOutput` | include/stb-image/stb_image_write.h:885-1029 | The data and the quality determine every byte of the compressor's output. |
| `Adler.AdlerStep` | include/stb-image/stb_image_write.h:1010-1015 | The checksum's definition byte by byte (sections 2.2 and 8.2 of RFC 1950). |
| `Adler.ClosedSums` | include/stb-image/stb_image_write.h:1004-1018 | The first sum is one plus all bytes, the second the length plus the bytes weighted by their distance from the end, both modulo 65521. |
| `Adler.SumStep` | include/stb-image/stb_image_write.h:1010-1013 | Within a chunk of 5552 bytes both sums stay below 2^32, and reducing late gives the same remainders as reducing at every byte. |
| `Adler.AddChunk` | include/stb-image/stb_image_write.h:1010-1015 | One chunk advances both sums by exactly its bytes. |
| `Adler.Adler32` | include/stb-image/stb_image_write.h:1004-1018 | The chunked loop equals the byte-by-byte checksum for every input and ends although its first chunk may be empty. |
| `DeflateSpec.DecodeSymbol` | include/stb-image/stb_image.h:4435-4462 | A reversed code word at the front of the stream, with enough input behind it, decodes to its symbol. |
| `DeflateRoundTrip.DecodeMatch` | include/stb-image/stb_image.h:4530-4543 | Reading the length and distance fields of a match, in any distance code, gives the token's length and distance. |
| `DeflateRoundTrip.DecodeTokens` | include/stb-image/stb_image.h:4503-4568 | Decoding the fields of any token sequence, in any two codes that have its symbols, rebuilds what the tokens expand to. |
| `DeflateRoundTrip.FixedInflates` | include/stb-image/stb_image.h:4699-4731 | A fixed block followed by other bytes inflates to the expansion of its tokens. |
| `DeflateRoundTrip.StoredInflates` | include/stb-image/stb_image.h:4626-4656 | A chain of stored blocks followed by other bytes inflates to the stored data. |
| `DynamicRoundTrip.LengthTable` | include/stb-image/stb_image.h:4490-4494 | The length tables are those of section 3.2.5 of RFC 1951: single lengths up to 10, then four symbols for every doubling, and 258 by itself. |
| `DynamicRoundTrip.DistanceTable` | include/stb-image/stb_image.h:4496-4501 | The distance tables: single distances up to 4, then two symbols for every doubling. |
| `DynamicRoundTrip.ItemRead` | include/stb-image/stb_image.h:4590-4613 | An item of the list of code lengths is read as what it means: a length, 3 to 6 more of the last length, 3 to 10 zeros, or 11 to 138 zeros (section 3.2.7 of RFC 1951). |
| `DynamicRoundTrip.HeaderRead` | include/stb-image/stb_image.h:4570-4624 | A dynamic header of any two codes, any code-length code and any items that expand to the code lengths means exactly those two lists. |
| `DynamicRoundTrip.BlockRead` | include/stb-image/stb_image.h:4722-4728 | A dynamic block, wherever in a stream it stands, appends what its tokens expand to. |
| `DeflateStream.StoredRead` | include/stb-image/stb_image.h:4626-4656 | A stored block of up to 65535 bytes, behind padding bits of any value, appends its bytes. |
| `DeflateStream.StreamRead` | include/stb-image/stb_image.h:4699-4731 | Inflating any sequence of stored, fixed and dynamic blocks yields what the blocks make, one after another, up to the block marked final. |
| `DeflateStream.HeaderIs` | include/stb-image/stb_image.h:4658-4673 | The header test accepts exactly the two bytes of section 2.2 of RFC 1950 without a preset dictionary, with input after them. |
| `DeflateStream.SpelledInflates` | include/stb-image/stb_image.h:4699-4731 | Every zlib stream whose blocks end within the input inflates to what its blocks make. |
| `DeflateStream.ZlibInflates` | include/stb-image/stb_image.h:4699-4731 | The same for a stream packed into bytes, with or without a checksum after it. |
| `DeflateAccepted.BlockTaken` | include/stb-image/stb_image.h:4503-4568 | Conversely a block that decodes spells tokens, and its output is what they expand to. |
| `DeflateAccepted.HeaderTaken` | include/stb-image/stb_image.h:4570-4624 | A dynamic header that is accepted is one that the format allows, spelled item by item. |
| `DeflateAccepted.InflatedSpells` | include/stb-image/stb_image.h:4699-4731 | Whatever inflates begins with a zlib header and spells a sequence of blocks that make the result, so nothing else is accepted, and the result fits a buffer that may not grow. |
| `ZlibRoundTrip.InflateCompressed` | include/stb-image/stb_image.h:4699-4731 | Whatever the compressor may write for non-empty data inflates to that data, into any buffer that can hold it. |
| `ZlibRoundTrip.CompressedSpells` | include/stb-image/stb_image_write.h:885-1029 | For non-empty data the compressor's output is a zlib stream of blocks, as RFC 1950 and RFC 1951 describe them, that make the data. |
| `ZlibRoundTrip.EmptyForm` | include/stb-image/stb_image_write.h:986-1002 | For empty data the compressor's only output is a header and a checksum with no block. |
| `ZlibRoundTrip.RoundTripExactly` | include/stb-image/stb_image_write.h:885-1029 | Inflating what was compressed gives the data back exactly when there is data; the output for empty data is refused. |
| `ZlibRoundTrip.CompressedSize` | include/stb-image/stb_image_write.h:986-987 | The output is never longer than the stored form. |
| `ZlibRoundTrip.CompressAndInflate` | include/stb-image/stb_image_write.h:885-1029 | Running compressor and inflater in turn, for every quality, succeeds exactly for non-empty data and returns it. |
| `PngFilter.PaethForms` | include/stb-image/stb_image.h:4872-4882 | The reader's Paeth predictor equals the reference form that the writer uses, for all integers (section 9.4 of the PNG specification). |
| `PngFilter.PredictIs` | include/stb-image/stb_image.h:4980-5004 | The predictions of section 9.2 of the PNG specification: nothing, left, above, the floor of the mean, and the nearest of the three neighbours with ties in the order left, above, upper left. |
| `PngFilter.UnfilterFiltered` | include/stb-image/stb_image.h:4980-5004 | Reconstructing a filtered row gives the row back, for every filter type, width and pixel size. |
| `PngFilter.FilterUnfiltered` | include/stb-image/stb_image.h:4980-5004 | Filtering a reconstructed row gives the filtered line back. |
| `PngFilter.EncodePngLine` | include/stb-image/stb_image_write.h:1094-1158 | The encoder's seven cases, its first-row table and both vertical orders produce exactly the line that section 9.2 of the PNG specification prescribes, with zeros above the first row. |
| `PngImage.Estimate` | include/stb-image/stb_image_write.h:1194-1198 | The estimate is the sum of magnitudes of the line's bytes as signed numbers. |
| `PngImage.SignedIs` | include/stb-image/stb_image_write.h:1194-1198 | A byte counts with the magnitude of the signed number that has its eight bits. |
| `PngImage.BestLine` | include/stb-image/stb_image_write.h:1188-1209 | The filter kept is the first of the cheapest ones, and the buffer is left holding its line. |
| `PngImage.FilterImage` | include/stb-image/stb_image_write.h:1181-1213 | Every row of the compressor's input is a filter byte, the forced one or the cheapest, and the row filtered with it. |
| `PngImage.UnfilterRow` | include/stb-image/stb_image.h:4980-5010 | One buffer half is reconstructed from the other, including the synthetic first-row filters. |
| `PngImage.ReadFiltered` | include/stb-image/stb_image.h:4955-5014 | Whichever filter each row picked, reading restores all rows and ignores data after the last. |
| `PngImage.CreatePngImageRaw` | include/stb-image/stb_image.h:4909-5082 | The image is rebuilt through two alternating line buffers, or refused for a bad filter byte, too little data or an overflowing size. |
| `Adam7.PassSize` | include/stb-image/stb_image.h:5097-5104 | The rounded-up pass sizes count exactly the columns and rows that fall inside the image, empty passes included. |
| `Adam7.WrittenOnce` | include/stb-image/stb_image.h:5097-5118 | Every pixel of an image of any size is written by exactly one pixel of exactly one of the seven passes, and no pass pixel lands outside (section 8.2 of the PNG specification). |
| `Adam7.Scatter` | include/stb-image/stb_image.h:5112-5118 | Copying a pass puts its pixels in place and leaves the others alone. |
| `Adam7.CreatePngImage` | include/stb-image/stb_image.h:5084-5128 | An interlaced image is assembled from its passes' images, skipping empty passes without consuming data. |
| `Adam7.ImageDetermined` | include/stb-image/stb_image.h:5084-5128 | The passes determine every byte of the final image. |
| `Adam7RoundTrip.ReducedIs` | include/stb-image/stb_image.h:5097-5105 | The reduced images cut out along the 8-by-8 grid of section 8.2 have the sizes the reader works out, and their pixels are the image's. |
| `Adam7RoundTrip.PassRead` | include/stb-image/stb_image.h:5106-5123 | One pass's filtered rows, followed by anything, are read back and what follows is left for the next pass. |
| `Adam7RoundTrip.InterlacedRoundTrip` | include/stb-image/stb_image.h:5084-5128 | De-interlacing the filtered rows of the seven reduced images, in order and with any filter types, gives the image back. |
| `Adam7RoundTrip.Deinterlaced` | include/stb-image/stb_image.h:5084-5128 | Running the reader on such data succeeds and returns the image. |
| `PngFile.WordRoundTrip` | include/stb-image/stb_image_write.h:1074-1077 | A 32-bit value written most significant byte first is read back. |
| `PngFile.PixelLimit` | include/stb-image/stb_image.h:5366-5367 | The two integer divisions of the size check bound the pixel data by 2^30 bytes. |
| `PngFile.RawLength` | include/stb-image/stb_image.h:5463-5466 | The expected size counts a filter byte for every row and fits an int. |
| `PngFile.FileDetermined` | include/stb-image/stb_image.h:5293-5534 | Two results that the chunk loop may give for a file are the same one. |
| `PngFile.ChunkStep` | include/stb-image/stb_image.h:5313-5532 | A chunk either ends the loop or moves the position forward and keeps the collected state within its limits. |
| `PngReader.Reader.DataCase` | include/stb-image/stb_image.h:5421-5453 | Data chunks are appended in order; the buffer's doubling ends below 2^32. |
| `PngReader.Reader.Finish` | include/stb-image/stb_image.h:5455-5476 | The end chunk inflates what was collected and makes the image. |
| `PngReader.Reader.ParsePngFile` | include/stb-image/stb_image.h:5293-5534 | The imperative loop ends on every file, since every chunk uses bytes of it, and computes the file's result. |
| `PngReader.LoadPng` | include/stb-image/stb_image.h:5536-5577 | Loading a file held in memory gives the file's result. |
| `PngRoundTrip.WritePngToMem` | include/stb-image/stb_image_write.h:1160-1253 | The file is signature, header, one data chunk with the compressed filtered rows, and end chunk; a stride argument of 0 means rows without gaps. |
| `PngChunks.HeaderRead` | include/stb-image/stb_image.h:5319-5367 | The header fields of a picture of 1 to 4 channels within the limits, interlaced or not, are accepted and mean the same size and channel count. |
| `PngChunks.ItemsParsed` | include/stb-image/stb_image.h:5311-5454 | Over any sequence of data pieces, suggested palettes and ancillary chunks the loop joins the data in order, and refuses the file exactly when a piece exceeds 2^30 bytes or the total an int. |
| `PngChunks.AnyTakenApart` | include/stb-image/stb_image.h:5293-5534 | A file of signature, header, any such chunks and the end chunk is taken apart into its header and its joined data. |
| `PngDecode.StreamHolds` | include/stb-image/stb_image.h:5463-5470 | Any zlib stream of stored, fixed and dynamic blocks inflates to its data whatever size is guessed for it. |
| `PngDecode.CarriedIsMade` | include/stb-image/stb_image.h:4909-5128 | Data that carries a picture, row by row or interlaced, with any filter types and anything after it, makes that picture. |
| `PngDecode.FileDecoded` | include/stb-image/stb_image.h:5293-5534 | A file decodes to the picture that its data carries: any pieces, any chunks among them, any compression that inflates, interlaced or not. |
| `PngDecode.LoadFile` | include/stb-image/stb_image.h:5536-5577 | Loading such a file from memory returns the picture. |
| `PngAccepted.HeaderTaken` | include/stb-image/stb_image.h:5313-5367 | A file that decodes begins with a header chunk of 13 bytes that spell a picture within the limits. |
| `PngAccepted.ItemsTaken` | include/stb-image/stb_image.h:5311-5534 | After it come whole chunks the format allows, the data pieces within their limits, and an end chunk. |
| `PngAccepted.CarriedExactly` | include/stb-image/stb_image.h:4909-5128 | For a picture within the limits, the data that makes it is exactly the data that carries it. |
| `PngAccepted.FileAccepted` | include/stb-image/stb_image.h:5293-5534 | Whatever decodes is a PNG file, chunk by chunk, whose joined data is a zlib stream of the picture's filtered rows, so nothing else is accepted. |
| `PngRoundTrip.ImageRead` | include/stb-image/stb_image.h:4909-5014 | Filtered data of a picture within the limits passes the size checks and becomes its rows. |
| `PngRoundTrip.FileTakenApart` | include/stb-image/stb_image.h:5293-5534 | The reader recovers header and compressed data from a written file, unless the data chunk exceeds its limit. |
| `PngRoundTrip.FileRoundTrip` | include/stb-image/stb_image_write.h:1160-1253 | Parsing a written file gives back width, height, channel count and pixels exactly when the compressed data is at most 2^30 bytes; otherwise it is rejected. |
| `PngRoundTrip.EncodedSize` | include/stb-image/stb_image_write.h:1215-1216 | The compressed data is bounded by a size the caller can work out beforehand. |
| `PngRoundTrip.PixelsRestored` | include/stb-image/stb_image_write.h:1160-1253 | When that bound is within the limit, a buffer without gaps comes back itself, whether its stride is given or left at 0. |
| `PngLimit.CannotShrink` | include/stb-image/stb_image_write.h:885-1002 | Data without a repeated triple in the window is not made smaller by either form. |
| `PngLimit.PictureRefused` | include/stb-image/stb_image.h:5433-5434 | A picture of 2^24 by 16 pixels of four channels is within every size limit, and its file is rejected by the chunk limit. |
| `PngLimit.RefusedFile` | include/stb-image/stb_image_write.h:1160-1253 | The writer produces such a file when filter 0 is forced. |
| `PngReader.WriteAndLoad` | include/stb-image/stb_image_write.h:1160-1253 | Writing and loading a picture whose bound is within the limit returns its rows, for any stride, filter setting and compression level, and the buffer itself when it has no gaps. |
| `PngReader.EncodeAndDecode` | src/internal/image/png-codec.cpp:34-62 | The codec's encode, with its stride argument of 0, followed by its decode gives back width, height, channel count and every byte. |
| `JpegHuffman.Huffman.Build` | include/stb-image/stb_image.h:2044-2089 | Counts are accepted exactly when there are at most 256 symbols and no length overflows; then the tables represent the canonical code. |
| `JpegHuffman.SlowIsCanonical` | include/stb-image/stb_image.h:2160-2188 | Once short codes are ruled out, the length search decodes the canonical code. |
| `JpegHuffman.LookupIsFront` | include/stb-image/stb_image.h:2140-2189 | What lookup finds, for every accepted table: the canonical symbol, except that a short code of the last of 256 symbols is taken for ten bits, whose last one or two choose among the last two or four symbols. |
| `JpegHuffman.LookupIsCanonical` | include/stb-image/stb_image.h:2140-2189 | Lookup is canonical decoding exactly unless the last of 256 symbols has a code of at most nine bits and stands at the front: its index is the not-accelerated mark. |
| `JpegHuffman.LastSymbolLost` | include/stb-image/stb_image.h:2044-2089 | With 255 codes of eight bits and one of nine, counts that a file can carry, the builder accepts and the last symbol followed by a zero is decoded as the one before it, in ten bits. |
| `JpegAc.BuildFastAc` | include/stb-image/stb_image.h:2093-2115 | One entry per nine-bit window. |
| `JpegAc.EntryIsLookup` | include/stb-image/stb_image.h:2093-2115 | For every accepted table a non-zero entry holds the run of the symbol that lookup finds, its received and extended magnitude, and the bits of both. |
| `JpegAc.EntryIsFastAc` | include/stb-image/stb_image.h:2093-2115 | An entry is non-zero exactly when symbol and magnitude fit nine bits and the value a signed byte, and then it packs their run, value and length. |
| `JpegAc.FastIsStepwise` | include/stb-image/stb_image.h:2277-2306 | For every accepted table, with sixteen bits buffered, the single lookup gives the same run, coefficient and consumed bits as decoding and then receiving and extending. |
| `JpegReader.UnstuffStuffed` | include/stb-image/stb_image_write.h:1299-1314 | Reading undoes byte stuffing. |
| `JpegReader.Reader.NextByte` | include/stb-image/stb_image.h:2117-2130 | Stuffed zeros and fill bytes are removed, a marker stops the data, and zeros follow the end. |
| `JpegReader.Reader.GrowBufferUnsafe` | include/stb-image/stb_image.h:2117-2134 | The buffer keeps the stream's next bits on top, in order, and is topped up past 24 bits unless a marker is met. |
| `JpegReader.Reader.HuffDecodeNext` | include/stb-image/stb_image.h:2140-2189 | For every accepted table a symbol is decoded from the stream, or refused when its code is not there or not fully buffered. |
| `JpegReader.Reader.ExtendReceive` | include/stb-image/stb_image.h:2197-2211 | The signed value of the next n bits (section F.2.2.1 of ITU-T T.81). |
| `JpegReader.Reader.AcNext` | include/stb-image/stb_image.h:2269-2306 | One AC symbol with its magnitude, by either path. |
| `JpegReader.Reader.DecodeOneBlock` | include/stb-image/stb_image.h:2249-2310 | The block decoder computes the block's meaning on the stream: coefficients, DC prediction and stream position, or an error. |
| `JpegSpec.ZigZagInverse` | include/stb-image/stb_image.h:2241-2245 | The reader's and the writer's zigzag tables are inverse permutations. |
| `JpegSpec.ZigWalks` | include/stb-image/stb_image.h:2241-2245 | The reader's order is the zigzag walk of figure A.6 of ITU-T T.81, from the top left corner. |
| `JpegSpec.ShortIs` | include/stb-image/stb_image.h:2304-2306 | A coefficient is stored as the one 16-bit number that differs from the product by a multiple of 2^16. |
| `JpegBlock.CalcBits` | include/stb-image/stb_image_write.h:1368-1376 | Size category and bits of a value. |
| `JpegBlock.ExtendMagnitude` | include/stb-image/stb_image_write.h:1368-1376 | Extending a value's magnitude bits gives the value back. |
| `JpegWriter.Sink.WriteBits` | include/stb-image/stb_image_write.h:1299-1314 | A code is appended to the stream, with a zero byte stuffed after every 255. |
| `JpegWriter.EncodeAC` | include/stb-image/stb_image_write.h:1420-1446 | The loop over coefficients emits the run/size symbols and magnitudes of the block. |
| `JpegWriter.ProcessDU` | include/stb-image/stb_image_write.h:1403-1450 | The bits emitted for a block are its DC difference, its runs and values, and an end mark unless the last coefficient is not zero. |
| `JpegBlock.ReadValue` | include/stb-image/stb_image.h:2269-2306 | A run/size symbol and magnitude decode to that run and value, by the single lookup or step by step. |
| `JpegBlock.BlockRoundTrip` | include/stb-image/stb_image_write.h:1403-1450 | Decoding an emitted block restores every coefficient, across runs of sixteen zeros, the end mark and a non-zero last coefficient; it is refused exactly when the DC level times its quantiser does not fit 16 bits. |
| `JpegSyntax.ItemsDecode` | include/stb-image/stb_image.h:2269-2307 | Any sequence of run/size items that fills a block, sixteen zeros anywhere and any end mark included, decodes to the block's coefficients. |
| `JpegSyntax.AnyBlock` | include/stb-image/stb_image.h:2249-2310 | A block of any encoder, with any tables the reader accepts and values of up to fifteen bits, is restored, or refused exactly when its DC level or the product does not fit. |
| `JpegTables.StandardValid` | include/stb-image/stb_image_write.h:1454-1479 | The reader accepts each of the four tables stored in the file (section K.3 of ITU-T T.81). |
| `JpegTables.StandardTables` | include/stb-image/stb_image_write.h:1481-1550 | The writer's constant word tables and the tables it stores in the file are the same: every symbol it can emit has the canonical code of its place in the file, and every word fits its length. |
| `JpegTables.ReadTable` | include/stb-image/stb_image.h:3252-3273 | A table is read exactly when its counts are acceptable, and then represents them, with the symbols in file order. |
| `JpegRoundTrip.ScanRoundTrip` | include/stb-image/stb_image.h:2249-2310 | A run of blocks of one component is restored, predictions included, exactly when every DC level times its quantiser fits 16 bits, and refused otherwise. |
| `JpegRoundTrip.EncodeScan` | include/stb-image/stb_image_write.h:1711-1716 | After the padding bits every emitted bit is in the bytes before the end marker. |
| `JpegRoundTrip.EncodeAndDecode` | include/stb-image/stb_image.h:2249-2310 | Encoding blocks to bytes and decoding the bytes restores all of them, exactly when every DC level times its quantiser fits 16 bits. |
| `JpegRoundTrip.WriteAndRead` | include/stb-image/stb_image_write.h:1403-1450 | The same with the repository's own luminance or chrominance tables: the writer's constants on one side, tables built from the file on the other. |
| `MpmcQueue.InitInv` | include/thread-pool/limb-queue.hpp:122-133 | The constructed queue satisfies the ticket/sequence invariant. |
| `MpmcQueue.NextInv` | include/thread-pool/limb-queue.hpp:147-195 | Every step of every thread keeps the invariant. |
| `MpmcQueue.RunInv` | include/thread-pool/limb-queue.hpp:147-195 | Every reachable state, over all interleavings, satisfies the invariant. |
| `MpmcQueue.Bounded` | include/thread-pool/limb-queue.hpp:147-195 | Claimed tickets never exceed the buffer: dequeue position, enqueue position and dequeue position plus size stay in order. |
| `MpmcQueue.NoAba` | include/thread-pool/limb-queue.hpp:154-157 | A successful compare-and-swap finds the cell's sequence as it was read. |
| `MpmcQueue.StaleTicket` | include/thread-pool/limb-queue.hpp:160-162 | A sequence ahead of the ticket means another call has claimed it. |
| `MpmcQueue.PushRefused` | include/thread-pool/limb-queue.hpp:158-159 | A push sees a full queue exactly when its ticket is next and the one a round earlier is not yet given back. |
| `MpmcQueue.PopRefused` | include/thread-pool/limb-queue.hpp:183-184 | A pop sees an empty queue exactly when its ticket is next and its value is not published. |
| `MpmcQueue.OneOwnerPerCell` | include/thread-pool/limb-queue.hpp:155-167 | Between claim and release a cell has one owner. |
| `MpmcQueue.CallBegun` | include/thread-pool/limb-queue.hpp:147-195 | In every run a call in flight was begun by an earlier move, and a push still carries the argument of that move. |
| `MpmcQueue.Fifo` | include/thread-pool/limb-queue.hpp:147-195 | In every run the value popped with ticket p is the one pushed with ticket p, and both are traced: a move began a push with that very argument and its call won ticket p, a move began a pop and its call took the value; so the values popped in ticket order are a prefix of the arguments pushed. |
| `MpmcQueue.ReturnsItsTicket` | include/thread-pool/limb-queue.hpp:190-194 | A pop about to publish its cell hands back the argument with which some push was begun, the one that won its ticket. |
| `MpmcQueue.NothingLost` | include/thread-pool/limb-queue.hpp:147-195 | With no call in flight exactly the claimed tickets have been popped, every other pushed value waits published in its cell, and every value pushed is the argument of a push begun in the run. |
| `MpmcQueue.TakenOnce` | include/thread-pool/limb-queue.hpp:190-192 | A ticket's value is taken at most once. |
| `MpmcQueue.RetriesCharged` | include/thread-pool/limb-queue.hpp:150-163 | Each retry of a call is matched by another thread's claim, since its last load, of the very ticket it was trying for; there are no more retries than tickets passed by. |
| `MpmcQueue.TicketsInRealTime` | include/thread-pool/limb-queue.hpp:154-157 | A call that begins after another of its kind has won its ticket wins a larger one. |
| `MpmcQueue.FalseMeansFullOrEmpty` | include/thread-pool/limb-queue.hpp:158-159 | A call that returns false did so because the queue was full, respectively empty, at its sequence read. |
| `MpmcQueue.AloneIsAtomic` | include/thread-pool/limb-queue.hpp:147-195 | A call that runs alone on a quiet queue is one operation on a bounded sequence: a push appends its argument or finds it full, a pop takes the oldest value or finds it empty. |
| `BoundedQueue.PowerOfTwoTest` | include/thread-pool/limb-queue.hpp:125-125 | The bit trick accepts exactly the powers of two. |
| `BoundedQueue.SlotIsMask` | include/thread-pool/limb-queue.hpp:151-151 | For a power-of-two buffer masking a position gives its slot. |
| `BoundedQueue.MPMCBoundedQueue.constructor` | include/thread-pool/limb-queue.hpp:122-133 | A new queue is empty and every cell is free for its first ticket. |
| `BoundedQueue.MPMCBoundedQueue.Push` | include/thread-pool/limb-queue.hpp:147-170 | With no other call in flight a push appends the value, or returns false exactly when the buffer is full. |
| `BoundedQueue.MPMCBoundedQueue.Pop` | include/thread-pool/limb-queue.hpp:172-195 | With no other call in flight a pop removes the oldest value, or returns false exactly when there is none. |
| `TilingSpec.TilesCover` | processors/realesrgan/realesrgan-processor.cpp:276-278 | The number of tiles is exactly enough for the image. |
| `TilingSpec.MirrorInside` | processors/realesrgan/shaders/realesrgan_preproc.comp:59-62 | Reflection stays inside exactly up to n-1 steps beyond either end. |
| `TilingSpec.PaddingMirrors` | processors/realesrgan/shaders/realesrgan_preproc.comp:56-62 | The padded coordinates of one side, reflected in that side, stay inside exactly when the side is longer than the padding. |
| `TilingSpec.StripMirror` | processors/realesrgan/realesrgan-processor.cpp:285-289 | Reflecting inside the uploaded strip reaches the same image row as reflecting in the whole image, also for a last tile thinner than the padding. |
| `TilingPreproc.PreprocMain` | processors/realesrgan/shaders/realesrgan_preproc.comp:46-96 | One invocation stores the mirrored, normalised sample in the colour tile, or the plain sample in the unpadded alpha tile. |
| `TilingPixel.NormaliseIs` | processors/realesrgan/shaders/realesrgan_preproc.comp:91-93 | Byte 0 becomes 0, byte 255 becomes 1, and multiplying by 255 gives the byte back. |
| `TilingPixel.QuantizeIs` | processors/realesrgan/shaders/realesrgan_postproc.comp:63-79 | A value becomes the nearest byte, halves upward, cut off at 0 and 255. |
| `TilingPixel.WholeIsReflected` | processors/realesrgan/shaders/realesrgan_preproc.comp:56-93 | The padded input of the whole image holds, times 255, the stored bytes of the image in the network's channel order, reflected about the edge pixels beyond the edges. |
| `TilingPreproc.SamplesStayInside` | processors/realesrgan/shaders/realesrgan_preproc.comp:56-72 | With both sides longer than the padding no invocation samples outside the strip. |
| `TilingPreproc.AllInsideExactly` | processors/realesrgan/realesrgan-processor.cpp:466-500 | Over all strips, tiles and invocations, every sample lies inside its strip exactly when both sides of the image are longer than the padding. |
| `TilingPreproc.SampleIsMirrored` | processors/realesrgan/shaders/realesrgan_preproc.comp:56-72 | The sample is the image's byte at the mirrored coordinate of the whole image. |
| `TilingPreproc.Preproc` | processors/realesrgan/realesrgan-processor.cpp:466-503 | All invocations for a tile build the padded colour tile and the alpha tile that the mirrored image prescribes. |
| `TilingSpec.TileSeesWhole` | processors/realesrgan/realesrgan-processor.cpp:470-477 | Around every pixel of a tile the padded tile looks like the whole mirrored image. |
| `TilingSpec.TileOutput` | processors/realesrgan/realesrgan-processor.cpp:504-516 | A local network gives the same output for a tile, cropped, as for the whole image. |
| `Tiling.TileColour` | processors/realesrgan/shaders/realesrgan_postproc.comp:58-69 | What the second shader reads from a tile's output is the whole image's output at the same place. |
| `Tiling.PostprocMain` | processors/realesrgan/shaders/realesrgan_postproc.comp:47-89 | One invocation stores the quantised value at its place in the strip. |
| `Tiling.PostInside` | processors/realesrgan/realesrgan-processor.cpp:534-566 | No invocation reads outside the tile's output or writes outside the strip. |
| `Tiling.Postproc` | processors/realesrgan/realesrgan-processor.cpp:534-566 | All invocations for a tile fill that tile's columns of the strip. |
| `Tiling.ProcessStrip` | processors/realesrgan/realesrgan-processor.cpp:337-574 | The tiles of a row fill the strip. |
| `Tiling.ProcessImage` | processors/realesrgan/realesrgan-processor.cpp:285-604 | Every output byte is the quantised value of the network on the whole mirrored image, or of the tile's interpolated alpha. |
| `Tiling.TileSizeIrrelevant` | processors/realesrgan/realesrgan-processor.cpp:270-278 | The tile size does not show in the colour channels. |
| `Tiling.WrittenOnce` | processors/realesrgan/shaders/realesrgan_postproc.comp:75-83 | No output byte is written twice, with or without the channel swap. |
| `Tiling.EveryByteWritten` | processors/realesrgan/shaders/realesrgan_postproc.comp:75-83 | Every output byte is written, for every size and 3 or 4 channels. |
| `Tiling.BufferExact` | processors/realesrgan/realesrgan-processor.cpp:253-256 | The output buffer, allocated for a magnification of four, is filled exactly when that is the magnification. |
| `TilingPixel.PixelNetLocal` | processors/realesrgan/realesrgan-processor.cpp:504-516 | A network that treats every pixel by itself and repeats the result is local, for every padding. |
| `TilingPixel.ColourIs` | processors/realesrgan/realesrgan-processor.cpp:285-604 | For such a network every colour byte of the output is its rounded result on the bytes of the pixel a magnification earlier. |
| `TilingPixel.AlphaIs` | processors/realesrgan/realesrgan-processor.cpp:517-533 | With an interpolation that repeats, every alpha value of the output is that pixel's alpha byte, whatever tile it falls in. |
| `TilingPixel.ProcessPixelwise` | processors/realesrgan/realesrgan-processor.cpp:285-604 | From bytes to bytes: every output pixel is what the network makes of image pixel (y / 4, x / 4), with its alpha, for every tile size and padding, with or without the channel swap. |
| `TilingPixel.ProcessRepeating` | processors/realesrgan/realesrgan-processor.cpp:285-604 | With the network that repeats every value the output is the image, each stored byte repeated four by four. |

## Left out

- ZlibRoundTrip.RoundTripExactly: memory exhaustion and `int` overflow for inputs past 2^31 bytes are not modelled; the compressor's buffers grow without limit.
- Inflater.ZBuf.constructor: asks for a positive initial capacity when the output may grow, since doubling a capacity of zero would not end.
- Adler.Adler32: the reader does not check the checksum, so nothing is stated about data that was altered.
- PngRoundTrip.WritePngToMem: the checksum of a chunk is a parameter; the table-driven CRC is not part of this model, and the reader skips it.
- PngImage.BestLine: the estimate is an unbounded number; for rows longer than 2^24 bytes the original's `int` sum could overflow, which could change the filter picked but not what is read back.
- PngFile.FileDetermined: files with a palette, transparency, sample depths other than 8 or the iPhone variant end in the result `Outside`; their decoding is not modelled, nor are conversions to another channel count.
- PngImage.CreatePngImageRaw: 8-bit samples with as many channels out as in; expanding smaller samples, 16-bit samples and an added alpha channel are left out.
- Adam7.CreatePngImage: the same restriction to 8-bit samples and unchanged channels.
- PngReader.Reader.ParsePngFile: nothing is said about the pixels of files whose result is `Outside`.
- PngFilter.EncodePngLine: negative strides, by which a caller could point at the last row, are left out; the signed line buffer holds bytes here, and only the estimate reads them as signed.
- PngReader.LoadPng: only loading from memory; the other formats that a loader may try, callbacks and vertical flipping on load are left out.
- JpegWriter.Sink.WriteBits: bits already shifted out of the buffer are kept above bit 24 and never read, where the original lets them run off an `int`.
- JpegRoundTrip.EncodeAndDecode: one component; interleaving of components, restart intervals, headers, the cosine transforms and quantisation by `float` are left out, as is progressive JPEG.
- MpmcQueue.Next: steps are sequentially consistent, compare-and-swap never fails spuriously and positions are natural numbers; memory order, `size_t` wrap-around, moves of queues and cache-line padding are left out.
- BoundedQueue.MPMCBoundedQueue.Push: one call at a time; interleavings are the subject of MpmcQueue.
- DeflateAccepted.InflatedSpells: a stream cut short may be accepted, read as if zero bits followed; when the reader notices the end of its input is stated only step by step (Inflater.ZBuf.Refill16), and a raw stream without a zlib header only through Inflater.ZBuf.ParseZlib.
- JpegSyntax.AnyBlock: data that ends inside a block, and runs past the last coefficient, are decoded as the code does (JpegReader.Reader.DecodeOneBlock) but no encoder's view of them is given.
- LazyMatching.OneOutput: nothing is said about how small the output is, beyond the bound of ZlibRoundTrip.CompressedSize.
- ZHuffman.Table.Build: the fixed-size tables are sequences in the table's fields.
- Tiling.ProcessImage: values are real numbers, not 16- or 32-bit floats, plane padding (`cstep`) is left out, negative values clamp to 0 where the shading language leaves the conversion undefined, and only the 8-bit storage path without test-time augmentation is followed.
- Tiling.TileSizeIrrelevant: the alpha channel is left out, since it is interpolated tile by tile without padding and may change with the tile size.
- TilingPreproc.Preproc: images no larger than the padding are sampled outside the strip by the original (TilingPreproc.AllInsideExactly); this and the results built on it ask for larger images.
- The network and the bicubic interpolation are foreign: the network is any function whose output depends on input within the padding, the interpolation any function that magnifies.
- Worker threads and their task hand-over, image codecs other than PNG and JPEG, networking, storage and configuration are not part of this model.
