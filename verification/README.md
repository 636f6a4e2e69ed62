# Image coders, a resizer, a wildcard matcher and a parameter traverser

A Dafny model of the algorithmic cores of the C++ libraries the program carries: the image reader and
writer of `stb_image.h` and `stb_image_write.h`, the row cache of `stb_image_resize.h`, the pattern
matcher of `wildcards.hpp` and the traverser of `clipp.h`.

Reader and writer are modelled together, because together they promise something: what is written
reads back. Code that works step by step on state is a class or a method with loops, proved against a
specification function; what the formats and the documentation promise is proved about those functions.

- **Deflate, both ends.** `Bits`, `Huffman` (canonical codes), `ZHuffman` (the decoder's tables), `Inflate`
  (the meaning of a stream), `ZBuf` (the decoder), `Lz77`, `FixedCodes`, `BitWriter`, `Deflate` (the
  compressor), `Adler`, `BitReversal` and `ZlibRoundTrip`; `DynamicHeader` and `ZlibStream` (streams of any encoder).
- **PNG.** `PngFilter`, `PngWriter`, `PngFile`, `PngChunks` (files of any writer), `Adam7` and `PngRoundTrip` (the
  identity of writing and reading).
- **Run-length coders.** `Tga` and `TgaImage`; `Hdr` for one scanline.
- **GIF.** `GifLzw` (linked table against a dictionary of strings), `GifEncoder` (codes of any encoder) and
  `GifRaster` (interlaced rows).
- **JPEG.** `JpegHuffman`, `JpegScan`, `JpegBits`, `JpegLookup` and `Jpeg`: accelerated decoding against the
  plain procedures of ITU-T T.81; `JpegBlock`: what an encoder writes, read back.
- **Wildcards.** `WildcardSyntax` (scanning), `WildcardMatch` (the matcher), `WildcardLanguage` (what a
  pattern describes), `WildcardCommit` (what it accepts when alternatives vary in length)
  and `WildcardForm` (patterns as trees).
- **Traversal.** `Traversal` (stacks of frames), `ScopedTraversal` (saved scopes), `MatchLaws` (what steps and matches
  do to a position), `EmptyStack` (when going back runs off the stack) and `DepthFirstTraverser` (the objects).
- **Resizing.** `SampleRange` (which scanlines, which weights), `RingBuffer` and `ResizeLaws` (what they keep of an image).

`Context` is the byte source of the readers and `Products` multiplies row sizes. Bytes are integers from 0
to 255; machine words are natural numbers, with truncation to 16 or 32 bits written out where it happens.

Where the code falls short of its plain form, that is stated and proved: accelerated JPEG decoding fails
exactly for tables whose 256th symbol has a short code (`JpegLookup.LookupIsPlain`, with the table
`JpegLookup.MistakenTable`); wildcard matching is sound for every pattern and exact when the alternatives of
groups have fixed lengths (`WildcardLanguage.MatchMeaning`, with the counterexample
`WildcardLanguage.CommitsTooEarly`), and for all patterns without nested groups it accepts exactly what they
describe with every alternative at its shortest prefix (`WildcardCommit.UnnestedMeaning`); reading an HDR scanline
never ends exactly when the packets left in the file are too few for one of its planes (`Hdr.LineStarves`, with
the file `Hdr.TruncatedFile`); and the traverser looks at the top of an empty stack exactly when a match is taken
up at an invalid position, or does not block and its innermost blocking group is current in no frame of its stack
(`EmptyStacks.TakenUpExactly`, with the run `EmptyStacks.JoinedRun` for the first). In a run that takes one match
per argument that means: that group is the root, or the frame below it has moved away, which going back to a saved
scope can do below a root that does not block (`EmptyStacks.RunEmpties`, with the runs
`EmptyStacks.BlockingRootRun` and `EmptyStacks.StrandedRun`).

`dafny verify dfyconfig.toml` checks the whole project.

## Model

| member | source | states |
|---|---|---|
| Huffman.AcceptanceIsKraft | 3rd_party/stb_image.h:3888-3916 | the table builder's length-by-length tests accept exactly the length lists that satisfy Kraft's inequality |
| Huffman.MatchUnique | 3rd_party/stb_image.h:3901-3932 | for an accepted list at most one symbol's canonical code (RFC 1951, section 3.2.2) starts the next bits: the codes are prefix-free |
| Huffman.ShortMatch | 3rd_party/stb_image.h:3986-3995 | some code of at most s bits starts the bits whenever they lie below the end of length s, so the search over pre-shifted ends misses nothing |
| BitReversal.BitReverse16IsReverse | 3rd_party/stb_image.h:3871-3878 | four rounds of masked swaps reverse the low 16 bits of any word |
| BitReversal.BitReverseByShift | 3rd_party/stb_image.h:3880-3886 | reversing 16 bits and shifting equals reversing n bits, for every v below 2^n |
| ZHuffman.ZHuffman.Build | 3rd_party/stb_image.h:3888-3933 | succeeds iff the lengths satisfy Kraft's inequality, and then the lookup, the bounds, the offsets and the symbol table are those of the canonical code |
| ZHuffman.ZHuffman.FillFast | 3rd_party/stb_image.h:3922-3929 | after the strided fill every lookup index holds symbol i iff its low bits are the reversed code of i; other entries stay |
| ZHuffman.ZHuffman.EnterSymbols | 3rd_party/stb_image.h:3918-3932 | all symbols are entered in order; size and value tables and the lookup are then complete |
| ZHuffman.SlotsDiffer | 3rd_party/stb_image.h:3918-3921 | different used symbols get different places in the symbol table |
| ZHuffman.MatchesIndex | 3rd_party/stb_image.h:3922-3928 | a lookup index starts with the code of i iff its low bits are that code reversed |
| ZBufs.ZBuf.FillBits | 3rd_party/stb_image.h:3961-3968 | refilling leaves the position in the stream unchanged and keeps the buffer equal to the next bits, zeros past the end |
| ZBufs.ZBuf.ZReceive | 3rd_party/stb_image.h:3970-3978 | returns exactly the next n bits of the input extended with zeros and advances by n |
| ZBufs.ZBuf.ZHuffmanDecode | 3rd_party/stb_image.h:3998-4010 | returns the one symbol whose canonical code the stream shows and consumes exactly its bits, or -1 when no code matches; lookup and search agree |
| ZBufs.ZBuf.ZHuffmanDecodeSlowPath | 3rd_party/stb_image.h:3980-3996 | the same for codes longer than nine bits, by comparing the 16 reversed bits with pre-shifted ends |
| ZBufs.ZBuf.SearchLength | 3rd_party/stb_image.h:3986-3995 | finds the matching length and symbol, or 16 iff no code starts the bits |
| ZBufs.ZBuf.ZExpand | 3rd_party/stb_image.h:4012-4029 | makes room by doubling with the contents kept, or fails exactly when the rules of the buffer forbid it |
| Inflate.FitsWhenReached | 3rd_party/stb_image.h:4012-4029 | whether n bytes can fit depends only on n, not on the expansions made before |
| ZBufs.ZBuf.CopyMatch | 3rd_party/stb_image.h:4071-4082 | appends the len bytes that start dist back, also where the copy reads what it writes |
| ZBufs.ZBuf.ReadLengthDistance | 3rd_party/stb_image.h:4064-4070 | reads length and distance with their extra bits as in section 3.2.5 of RFC 1951 |
| ZBufs.ZBuf.ParseHuffmanBlock | 3rd_party/stb_image.h:4045-4085 | yields exactly what the block's meaning yields: the same output and end position, or an error in the same cases |
| ZBufs.ZBuf.ReadStoredHeader | 3rd_party/stb_image.h:4136-4153 | at most three buffered bytes are drained; the four header bytes are the next whole bytes and the input pointer is exact |
| ZBufs.ZBuf.ParseUncompressedBlock | 3rd_party/stb_image.h:4136-4163 | copies the announced bytes iff the length agrees with its complement, the input holds them and the output has room |
| ZBufs.ZBuf.ReadCodeLengths | 3rd_party/stb_image.h:4108-4130 | expands the run-length coded code lengths as section 3.2.7 of RFC 1951 says, or fails in the same cases |
| ZBufs.ZBuf.ComputeHuffmanCodes | 3rd_party/stb_image.h:4087-4134 | both dynamic tables are built for the two lists the stream describes, or it fails exactly when a list is malformed or violates Kraft's inequality |
| ZBufs.ZBuf.ParseZlib | 3rd_party/stb_image.h:4207-4233 | status, output and position equal the meaning of the stream for every input |
| Inflate.BlocksStep | 3rd_party/stb_image.h:4212-4231 | one turn of the loop over blocks keeps the meaning, and turns that continue start before the end of the input, so the loop ends |
| Inflate.FetchAdds | 3rd_party/stb_image.h:3961-3968 | a byte put above n buffered bits extends the field they spell by eight bits |
| Inflate.HeaderOkIs | 3rd_party/stb_image.h:4165-4176 | the two header bytes are accepted iff they name method 8, no preset dictionary, and are a multiple of 31 |
| DynamicHeaders.CodeOfLengthsReads | 3rd_party/stb_image.h:4089-4104 | for every list of nineteen lengths below eight, its three-bit fields in the order 16, 17, 18, 0, 8, 7, 9, 6, 10, 5, 11, 4, 12, 3, 13, 2, 14, 1, 15 read back as the list |
| DynamicHeaders.ItemsRead | 3rd_party/stb_image.h:4107-4130 | lengths, repetitions of the previous length and runs of unused symbols, written with any code and their counts, read back as the list they spell |
| DynamicHeaders.HeaderReads | 3rd_party/stb_image.h:4087-4134 | whatever an encoder may write as the header of a dynamic block reads back as exactly its two code tables |
| ZlibStreams.LengthBases | 3rd_party/stb_image.h:4031-4037 | each length symbol begins where the one before it ends, with the extra bits that section 3.2.5 of RFC 1951 counts out; length 258 has a symbol to itself |
| ZlibStreams.DistanceBases | 3rd_party/stb_image.h:4039-4043 | the same for distances, up to 32768 |
| ZlibStreams.LengthExtras | 3rd_party/stb_image.h:4036-4037 | the extra bits of the length symbols, in closed form |
| ZlibStreams.DistanceExtras | 3rd_party/stb_image.h:4042-4043 | the extra bits of the distance symbols, in closed form |
| ZlibStreams.WordsRead | 3rd_party/stb_image.h:4045-4085 | tokens written in any two prefix codes, and the end of the block, decode to what the tokens expand to |
| ZlibStreams.StoredReads | 3rd_party/stb_image.h:4136-4163 | a size, its complement and that many bytes, least significant byte first, decode to the bytes |
| ZlibStreams.StreamReads | 3rd_party/stb_image.h:4207-4233 | any sequence of stored, fixed and dynamic blocks, written by any encoder, decodes to what the blocks stand for |
| ZlibStreams.ZlibReads | 3rd_party/stb_image.h:4235-4259 | so does a whole zlib stream |
| FixedCodes.FixedCodeIsCanonical | 3rd_party/stb_image_write.h:846-852 | the writer's code constants are the canonical codes of the reader's fixed lengths |
| FixedCodes.FixedKraft | 3rd_party/stb_image.h:4179-4189 | both fixed length lists fill the code space exactly |
| Lz77.ReferenceExpands | 3rd_party/stb_image_write.h:885-937 | a reference to an equal earlier stretch of the data expands, byte by byte and possibly overlapping, to the data itself |
| Lz77.TokenStep | 3rd_party/stb_image.h:4050-4083 | decoding one written token advances past its bits and appends what it stands for |
| Lz77.TokensDecode | 3rd_party/stb_image.h:4045-4085 | a written token list followed by the end-of-block symbol decodes to what the tokens expand to |
| BitWriters.BitWriter.Add | 3rd_party/stb_image_write.h:842-844 | appends exactly the n low bits, least significant first, to everything written so far |
| BitWriters.BitWriter.ZlibBitrev | 3rd_party/stb_image_write.h:812-820 | the loop computes the reversal of the low bits |
| BitWriters.BitWriter.Huff | 3rd_party/stb_image_write.h:846-851 | appends the fixed code of a symbol, high bit first |
| BitWriters.BitWriter.Reference | 3rd_party/stb_image_write.h:914-922 | appends the codes and extra bits of a length and a distance, their symbols found in the sorted base tables |
| Deflate.FindMatch | 3rd_party/stb_image_write.h:888-897 | returns a longest usable candidate of the bucket, the latest among equals, or none iff none is usable |
| Deflate.MatchIsLongest | 3rd_party/stb_image_write.h:822-828 | the counted agreement goes on as far as it can, up to 258 bytes and the end of the data |
| Deflate.PushedIsNewest | 3rd_party/stb_image_write.h:898-902 | a bucket keeps its newest positions: all, or when full the newer half and the new one |
| Deflate.NextToken | 3rd_party/stb_image_write.h:885-930 | keeps every bucket to earlier positions and at most 2*quality of them, and picks the token the lazy search prescribes |
| Deflate.RightTokenExpands | 3rd_party/stb_image_write.h:885-930 | that token has length 3 to 258 and distance 1 to 32767 and stands for exactly the next bytes of the data |
| Deflate.WriteTokens | 3rd_party/stb_image_write.h:885-937 | the tokens written so far always expand to the data consumed so far |
| Deflate.ZlibCompress | 3rd_party/stb_image_write.h:858-968 | the output is a zlib stream of sound tokens that expand to the data, with its Adler-32 trailer; for any hash function |
| Adler.BlockFits | 3rd_party/stb_image_write.h:950-958 | neither deferred sum leaves 32 bits within a block of 5552 bytes |
| Adler.Adler32 | 3rd_party/stb_image_write.h:948-961 | the blocked computation equals the definition of RFC 1950 that reduces after every byte |
| Adler.SumsClosed | 3rd_party/stb_image_write.h:948-961 | one more than the sum of the bytes, and their number plus every byte times its distance from the end, modulo 65521 |
| Adler.TrailerIs | 3rd_party/stb_image_write.h:962-967 | the two sums are stored most significant byte first, the second in the upper half |
| ZlibRoundTrip.StreamMeansData | 3rd_party/stb_image.h:4207-4233 | a stream of sound tokens means exactly the data they stand for |
| ZlibRoundTrip.ZlibDecode | 3rd_party/stb_image.h:4235-4259 | decoding a buffer gives the meaning of its stream |
| ZlibRoundTrip.RoundTrip | 3rd_party/stb_image_write.h:858-968 | for all data, qualities and hash functions, decoding what the compressor wrote succeeds and gives the data back |
| PngFilter.PredictionsAgree | 3rd_party/stb_image.h:4446-4506 | the filter case distinctions with their first-row and first-pixel variants compute the predictions of section 6 of RFC 2083 |
| PngFilter.PaethIsNearest | 3rd_party/stb_image.h:4383-4392 | the result is as near to left + up - upper left as any of the three, and of equally near ones left comes first, then up |
| PngFilter.SimplePredictions | 3rd_party/stb_image.h:4446-4506 | filters 0 to 3 predict nothing, the byte to the left, the byte above, and their mean rounded down, with zeros outside the image |
| PngFilter.PaethPrediction | 3rd_party/stb_image.h:4446-4506 | filter 4 predicts the nearest of left, up and upper left |
| PngFilter.RowInverse | 3rd_party/stb_image.h:4446-4506 | undoing a filter gives the row back, for every filter, row above and pixel size |
| PngFilter.ImageInverse | 3rd_party/stb_image.h:4423-4519 | any choice of filters is undone row by row; bytes after the last row do not matter |
| PngFilter.UnfilterRow | 3rd_party/stb_image.h:4423-4506 | undoes one row's filter in place, reading the row above just before it |
| PngFilter.CreatePngImageRaw | 3rd_party/stb_image.h:4397-4519 | decodes all rows iff there is enough data and every filter type is known |
| PngWriter.EncodePngLine | 3rd_party/stb_image_write.h:1038-1072 | filters one row of the source, top row first or last as the flip setting says |
| PngWriter.EncodeBestLine | 3rd_party/stb_image_write.h:1099-1122 | keeps the first filter of least estimated cost and leaves the line filtered with it |
| PngWriter.CostOfByte | 3rd_party/stb_image_write.h:1104-1106 | the estimated cost of a line is the sum of the distances of its bytes from zero, counted round in a circle |
| PngWriter.FilterImage | 3rd_party/stb_image_write.h:1092-1127 | the buffer holds every row behind its filter type, with the forced filter if one is set |
| PngFile.ParsePngFile | 3rd_party/stb_image.h:4798-4968 | the chunk loop accepts a file iff its chunks follow the modelled rules, and passes on exactly the concatenated data chunks, decompressed |
| PngFile.ReadIhdr | 3rd_party/stb_image.h:4822-4838 | the header chunk is accepted exactly under the reader's checks, in their order |
| PngChunks.FileReads | 3rd_party/stb_image.h:4798-4968 | from any writer: signature, header, data in any number of pieces with ancillary chunks between them, and the end parse to the joined data, decompressed, for every checksum |
| PngChunks.HeaderAcceptedOnlyIf | 3rd_party/stb_image.h:4822-4838 | an accepted header spells the sizes, the depth, the colour type and the interlacing it is accepted for |
| PngChunks.HeaderMisplaced | 3rd_party/stb_image.h:4824-4846 | a second header, a header of another size and any other chunk before the header are rejected |
| PngChunks.ChunkUnusable | 3rd_party/stb_image.h:4898-4966 | an end without data, data the file does not hold, unknown critical chunks and overlong ancillary ones are rejected |
| Adam7.Coverage | 3rd_party/stb_image.h:4619-4648 | for every width and height each pixel of the image is carried by exactly one pixel of exactly one pass |
| Adam7.PatternRepeats | 3rd_party/stb_image.h:4619-4628 | every eight by eight square shows the pattern of section 2.6 of RFC 2083 |
| Adam7.StaysInside | 3rd_party/stb_image.h:4619-4648 | no pass reaches outside the image |
| Adam7.OffsetsApart | 3rd_party/stb_image.h:4634-4641 | different pixels occupy disjoint bytes of the image |
| Adam7.Deinterlace | 3rd_party/stb_image.h:4609-4651 | decodes seven passes from consecutive stretches of the data and puts every pixel in its place, or fails exactly when a pass does |
| PngRoundTrip.StreamSize | 3rd_party/stb_image_write.h:885-968 | the fixed codes never grow the data by more than an eighth and 14 bytes |
| PngRoundTrip.RawSize | 3rd_party/stb_image.h:4912-4916 | the reader's size guess is the size of the filtered rows and stays below 2^30 + 2^24 within its limits |
| PngRoundTrip.WritePngToMem | 3rd_party/stb_image_write.h:1074-1158 | the file is signature, header, one data chunk with the compressed filtered rows, and end |
| PngRoundTrip.WrittenImageLoads | 3rd_party/stb_image.h:4798-4968 | for every choice of filters and every stream of tokens the written file parses, and its rows decode to the source rows in the order written |
| PngRoundTrip.LoadPng | 3rd_party/stb_image.h:4970-4996 | loading gives what the parsed file means, interlaced or not |
| PngRoundTrip.WriteThenRead | 3rd_party/stb_image_write.h:1038-1158 | for one to four channels, any stride, flip setting, filter and quality, and any size within the reader's limits, reading the written file gives the pixels back |
| PngRoundTrip.LoadedPixel | 3rd_party/stb_image_write.h:1074-1127 | byte k of row j of the loaded image is the source's byte k of the row written as number j |
| PngRoundTrip.SaveThenLoad | 3rd_party/stb_image_write.h:1083-1158 | for a caller's pixels and any stride, zero included, every byte of every row is loaded in its place, rows reversed if flipped |
| Tga.NextPacket | 3rd_party/stb_image_write.h:524-548 | each packet covers 1 to 128 pixels inside its row; repeats are maximal, and raw packets stop one pixel before a pixel that equals the one two before it |
| Tga.PacketReads | 3rd_party/stb_image.h:5618-5676 | a packet read from its header on delivers the pixels it was made of |
| Tga.PiecesRead | 3rd_party/stb_image.h:5618-5676 | packets of any writer, whether or not they end with the rows, deliver their pixels |
| Tga.StoredOrder | 3rd_party/stb_image_write.h:395-426 | colours stand in the file as blue, green, red and then alpha |
| TgaImage.WriteRow | 3rd_party/stb_image_write.h:524-568 | the packets tile the row and the bytes are those of the packets |
| TgaImage.RowReads | 3rd_party/stb_image.h:5618-5676 | a row's packets deliver its pixels and leave the reader between packets |
| TgaImage.WriteTga | 3rd_party/stb_image_write.h:497-573 | the file is the header and the packets of all rows, bottom row first unless flipped |
| TgaImage.HeaderFields | 3rd_party/stb_image_write.h:497-514 | the written header names the run-length type, the little-endian sizes, the depth and the alpha bits; all else is zero |
| TgaImage.ReadHeader | 3rd_party/stb_image.h:5527-5568 | width, height, depth, orientation and start of the data, or a rejection, exactly as the checks say |
| TgaImage.ReadRle | 3rd_party/stb_image.h:5618-5676 | the pixel loop stores exactly the pixels the packets deliver |
| TgaImage.Invert | 3rd_party/stb_image.h:5678-5691 | swapping outer rows inwards mirrors the image |
| TgaImage.LoadTga | 3rd_party/stb_image.h:5527-5722 | run-length images load as the packets, the orientation bit and the colour swap say |
| TgaImage.WriteThenRead | 3rd_party/stb_image_write.h:497-573 | for one to four channels and either flip setting, loading the written file gives every pixel back |
| Hdr.FindRun | 3rd_party/stb_image_write.h:688-695 | finds the first run of three, or the end when none is left |
| Hdr.NextPackets | 3rd_party/stb_image_write.h:687-716 | dumps of at most 128 bytes up to the run, then the whole run in packets of at most 127; the scan always advances |
| Hdr.WritePlane | 3rd_party/stb_image_write.h:682-718 | codes a plane completely |
| Hdr.PlaneRoundTrip | 3rd_party/stb_image.h:6855-6876 | reading a written plane gives it back and stops right after it |
| Hdr.PacketsRead | 3rd_party/stb_image.h:6855-6876 | however a writer cuts a plane into packets, it reads back |
| Hdr.WriteLine | 3rd_party/stb_image_write.h:655-719 | splits the pixels into four planes and writes the header and all planes |
| Hdr.LineRoundTrip | 3rd_party/stb_image.h:6829-6876 | for every width from 8 to 32767 and any bytes, a written scanline standing anywhere in a file reads back as its four planes, and reading stops right after it |
| Hdr.StorePlane | 3rd_party/stb_image.h:6855-6876 | stores a plane into every fourth byte and leaves the others, or stops in exactly the cases of an overlong packet or endless empty ones |
| Hdr.EndlessExactly | 3rd_party/stb_image.h:6856-6876 | the loop over the packets of a plane never ends iff all packets left in the file together deliver too little for it |
| Hdr.LineStarves | 3rd_party/stb_image.h:6829-6876 | reading a scanline never ends iff its header fits and that holds for one of its planes, the planes before it being read |
| Hdr.TruncatedFile | 3rd_party/stb_image.h:6856-6876 | a file that ends behind the scanline header, for which this happens |
| Hdr.StoreLine | 3rd_party/stb_image.h:6829-6876 | the outcome and the interleaved scanline equal what the bytes mean |
| Hdr.InterleavedPixel | 3rd_party/stb_image.h:6861-6874 | interleaving the planes of some pixels gives back their bytes |
| Hdr.WriteThenReadLine | 3rd_party/stb_image_write.h:655-719 | for every width from 8 to 32767, writing a scanline and reading it stores every byte of every pixel in its place |
| GifRaster.EachRowOnce | 3rd_party/stb_image.h:6315-6324 | for every frame height the row order, interlaced or not, contains every row exactly once and nothing else |
| GifRaster.Raster.Draw | 3rd_party/stb_image.h:6300-6325 | the next pixel goes to the next place of the row order, no pixel is overwritten, and a full frame stays as it is |
| GifRaster.Raster.NextRow | 3rd_party/stb_image.h:6310-6324 | the stepping moves to the next row of the pass or to the first later pass that has one |
| GifLzw.Gif.OutGifCode | 3rd_party/stb_image.h:6290-6325 | following the prefix links, which always lead to smaller entries, emits exactly the string of the code |
| GifLzw.Gif.AddEntry | 3rd_party/stb_image.h:6385-6393 | the new entry spells the previous string extended by the first byte of the current one |
| GifLzw.Gif.DataCode | 3rd_party/stb_image.h:6380-6403 | one code emits the string a dictionary decoder emits and keeps the table equal to its dictionary, including the code that equals the next entry |
| GifLzw.ProcessGifRaster | 3rd_party/stb_image.h:6327-6410 | for every input the emitted colours equal those of a decoder that keeps whole strings in a dictionary (GIF89a, appendix F), and it fails in the same cases |
| GifEncodings.SizeFollows | 3rd_party/stb_image.h:6399-6402 | in every state reached from a clear code the code size is the least that fits the entries, one bit more than the colours at first and at most twelve |
| GifEncodings.CodeStep | 3rd_party/stb_image.h:6374-6403 | a code that is a colour, or an earlier string with the first byte of the one behind it, gives its string; that may be the entry about to be made |
| GifEncodings.EncodedDecodes | 3rd_party/stb_image.h:6354-6408 | whatever strings an encoder cuts the colours into: a clear code, codes for the strings in the widths the entries demand, and the stop code decode to the colours |
| GifEncodings.BlockedReads | 3rd_party/stb_image.h:6354-6364 | however the data is cut into sub-blocks, reading them joins it |
| GifLzw.Extended | 3rd_party/stb_image.h:6385-6393 | extending the table by one link keeps it a representation of the dictionary |
| JpegHuffman.StartIsCode | 3rd_party/stb_image.h:1830-1846 | the codes of figure C.2 of ITU-T T.81, shifted to 16 bits, are the running Kraft sums |
| JpegHuffman.MatchIsInterval | 3rd_party/stb_image.h:1937-1959 | the next bits are the code of symbol i iff the 16-bit window lies in the interval of i |
| JpegHuffman.DecodeIsMatch | 3rd_party/stb_image.h:1912-1959 | canonical decoding finds symbol i iff the Annex C code of i starts the bits |
| JpegHuffman.FastEntryFinds | 3rd_party/stb_image.h:1849-1860 | a lookup entry is the symbol whose short code starts the bits, and 255 only if there is none |
| JpegHuffman.OffsetFinds | 3rd_party/stb_image.h:1834-1843 | the per-length bound and offset turn a long code into its symbol |
| JpegHuffman.JpegHuffman.Build | 3rd_party/stb_image.h:1821-1861 | succeeds iff the codes fit in their lengths, and then every table is that of the canonical code |
| JpegLookup.LookupIsPlain | 3rd_party/stb_image.h:1912-1959 | lookup and search agree with canonical decoding on all inputs iff symbol number 255 is absent or has more than nine bits |
| JpegLookup.FlagMistaken | 3rd_party/stb_image.h:1919-1941 | otherwise the flag 255 is mistaken: the last symbol's bits are not decoded canonically |
| JpegLookup.MistakenTable | 3rd_party/stb_image.h:1849-1860 | a table a file can hold, 255 codes of eight bits and one of nine, for which this happens |
| JpegLookup.LookupInRange | 3rd_party/stb_image.h:1951-1959 | even then the symbol number read stays below 256 |
| JpegScan.DeliversNext | 3rd_party/stb_image.h:1890-1906 | stuffed zeros and fill bytes are dropped and zeros follow the first marker (section F.2.2.5) |
| Jpegs.Jpeg.GrowBuffer | 3rd_party/stb_image.h:1890-1906 | refilling keeps the position in the scan; afterwards more than 24 bits are held or a marker was met |
| JpegBits.PeekIsScan | 3rd_party/stb_image.h:1919-1922 | the top bits of the window are the next bits of the scan, also when consumption ran past its end |
| JpegBits.Rotated | 3rd_party/stb_image.h:1973-1976 | rotating and masking cuts out the top n bits and leaves the window shifted by n |
| Jpegs.Jpeg.HuffDecode | 3rd_party/stb_image.h:1912-1959 | returns the value of the symbol the tables give and consumes exactly its bits; negative iff no code starts the bits, given 16 buffered bits or the end of the scan |
| Jpegs.Jpeg.ExtendReceive | 3rd_party/stb_image.h:1966-1979 | returns the next n bits as a signed value by EXTEND of figure F.12 |
| Jpegs.BuildFastAc | 3rd_party/stb_image.h:1865-1888 | every combined entry is the packed value, run and length, or 0 |
| Jpegs.IndexValueIsExtend | 3rd_party/stb_image.h:1878-1882 | the magnitude cut out of the lookup index is the signed value of the bits after the code |
| Jpegs.FastAcRefines | 3rd_party/stb_image.h:2041-2053 | a nonzero combined entry gives the run, the signed value and the number of bits that plain decoding followed by EXTEND gives |
| Jpegs.Jpeg.DecodeAc | 3rd_party/stb_image.h:2034-2070 | with the combined lookup the coefficients of a block, the place in the scan and the errors equal those of plain decoding (section F.2.2.2) |
| JpegBlocks.ZigzagIsFigure | 3rd_party/stb_image.h:2005-2018 | the order of the coefficients is that of figure A.6 of ITU-T T.81; what lies past it falls on the last place |
| JpegBlocks.ZigzagWalk | 3rd_party/stb_image.h:2005-2018 | the order starts in the corner and walks from diagonal to diagonal, down-left on odd ones and up-right on even ones, by single steps between them |
| JpegBlocks.ExtendInverts | 3rd_party/stb_image.h:1966-1979 | extending the magnitude bits that an encoder writes for a value gives the value back |
| JpegBlocks.ExtendHasSize | 3rd_party/stb_image.h:1966-1979 | only values with that many magnitude bits arise |
| JpegBlocks.ShortIs | 3rd_party/stb_image.h:2053-2067 | stored coefficients keep the low sixteen bits of the product |
| JpegBlocks.BlockReads | 3rd_party/stb_image.h:2034-2070 | what an encoder writes for a block, run by run and value by value in any usable table, decodes to the block, each coefficient in its place and times its factor |
| JpegBlocks.StuffedFeeds | 3rd_party/stb_image.h:1890-1906 | stuffed bytes are fed back without the stuffing, wherever they stand in a file |
| JpegBlocks.MarkerEnds | 3rd_party/stb_image.h:1890-1906 | a marker ends the scan: zeros follow for ever |
| Traversal.NextAhead | 3rd_party/clipp.h:2967-2978 | one ++ visits the current node and leaves the others still ahead, in order |
| Traversal.NextSiblingAhead | 3rd_party/clipp.h:2981-2994 | next_sibling skips what is below the current node and nothing else |
| Traversal.VisitsPreorder | 3rd_party/clipp.h:2967-2994 | from the first child, repeated ++ visits every node below the root exactly once in preorder and then becomes invalid |
| Traversal.UndoRestores | 3rd_party/clipp.h:3075-3092 | undo restores the exact stack after any moves that never leave the memento's level |
| ScopedTraversal.StepShrinks | 3rd_party/clipp.h:4128-4165 | each ++ ends the traversal, uses up a saved scope, or keeps their number and leaves fewer nodes ahead |
| ScopedTraversal.RunsShrink | 3rd_party/clipp.h:4128-4240 | this holds in every state reachable by steps and matches in any tree without empty groups |
| ScopedTraversal.FirstMatch | 3rd_party/clipp.h:4392-4474 | the search of full_match, prefix_match and partial_match ends for every test; what it finds passes the test |
| ScopedTraversal.UnblockedSearch | 3rd_party/clipp.h:4392-4474 | with blocking ignored and no scopes the search finds a parameter iff one ahead passes the test, and then the first in preorder |
| ScopedTraversal.BlockingHidesSiblings | 3rd_party/clipp.h:4149-4157 | past an unmatched blocking parameter no later sibling is visited, unless they are alternatives |
| MatchLaws.GroupIsLeft | 3rd_party/clipp.h:4143-4148 | at the end of a blocking group without a match in it, all that is left of the group's siblings is passed over |
| MatchLaws.StepVisits | 3rd_party/clipp.h:4139-4162 | every other step within one scope visits the current node and nothing else |
| MatchLaws.ExploredIs | 3rd_party/clipp.h:2917-2930 | the group found is the outermost blocking one among those the next step would leave |
| MatchLaws.EndsGroupIs | 3rd_party/clipp.h:4143-4146 | a group is left only if no frame of the last match lies in it |
| MatchLaws.BlockingIs | 3rd_party/clipp.h:3214-3236 | a node blocks if it is marked or is a group of alternatives all of which block |
| MatchLaws.SamePositionIs | 3rd_party/clipp.h:3052-3066 | two valid positions are the same when they are the same child of the same group |
| MatchLaws.ScopesAbove | 3rd_party/clipp.h:4279-4293 | after every step inside the tree no saved scope is deeper than the position |
| MatchLaws.BackToFirst | 3rd_party/clipp.h:4296-4312 | going back through nested scopes ends at the one saved first |
| MatchLaws.RepeatableStays | 3rd_party/clipp.h:4195-4221 | a blocking match that may repeat, not the last of its scope nor above the traversal, becomes the position, and a test that accepts it again finds it there |
| MatchLaws.OthersAreLeft | 3rd_party/clipp.h:4195-4221 | one that may not repeat is left for the position behind it, and of the nodes ahead of it only the match is passed |
| MatchLaws.LastOfScope | 3rd_party/clipp.h:4193-4203 | the last match of a scope becomes the position if it may repeat or there is no scope, and goes back to the scope otherwise |
| MatchLaws.LastGoesBack | 3rd_party/clipp.h:4233-4240 | a position is the last of a scope exactly when one more step would go back to it |
| MatchLaws.LastIs | 3rd_party/clipp.h:4233-4240 | without scopes, exactly when one more step would leave the tree |
| MatchLaws.MatchAbove | 3rd_party/clipp.h:4213-4216 | a match above the traversal brings it back up, as far as there are scopes |
| MatchLaws.AlternativesGone | 3rd_party/clipp.h:3035-3046 | skipping alternatives keeps the position and takes exactly the other alternatives off what follows |
| MatchLaws.AlternativeTaken | 3rd_party/clipp.h:4187-4221 | behind a blocking match among alternatives the others are no longer ahead |
| MatchLaws.UnblockedTaken | 3rd_party/clipp.h:4176-4185 | a match outside all blocking groups leaves an unblocked traversal where it is, and moves a blocked one to the next sibling |
| ScopedTraversal.ResumesWhereLeft | 3rd_party/clipp.h:4209-4212 | a deeper blocking match saves the place left, and going back to that scope resumes exactly there |
| EmptyStacks.EmptiedExactly | 3rd_party/clipp.h:4176-4179 | for every stack: going back to the innermost blocking group empties the stack iff the match does not block, lies in a blocking group, and no frame stands at the innermost such group |
| EmptyStacks.TakenUpExactly | 3rd_party/clipp.h:4168-4184 | for every state and match, valid or not: the code looks at the top of an empty stack iff a match is taken up at an invalid position or going back empties the match's stack |
| EmptyStacks.ReplayedExactly | 3rd_party/clipp.h:4849-4850 | for any matches taken up one after the other, as with joined flags, this happens iff one of them meets that condition after those before it |
| EmptyStacks.FlagsFound | 3rd_party/clipp.h:4820-4842 | a fresh parser finds both joined flags of the example, so that both are replayed |
| EmptyStacks.JoinedRun | 3rd_party/clipp.h:4849-4850 | a file and then two joined flags: the second flag is taken up at an invalid position |
| EmptyStacks.DepthUnique | 3rd_party/clipp.h:3008-3018 | where no two nodes share an address, an address stands for one node at one depth, so going back can stop at one frame only |
| EmptyStacks.SearchPlaced | 3rd_party/clipp.h:4392-4474 | a search keeps every frame and every saved scope at the depth of its group, whatever scopes it goes back to |
| EmptyStacks.AfterMatchPlaced | 3rd_party/clipp.h:4168-4232 | so does taking up the search behind a match |
| EmptyStacks.EmptiedWhereStranded | 3rd_party/clipp.h:4176-4179 | for such positions the stack is emptied iff the match does not block and its innermost blocking group is the root or differs from the node the frame below stands at |
| EmptyStacks.RunEmpties | 3rd_party/clipp.h:4731-4739 | in every tree without empty groups, after any arguments and for any next one, the code looks at the top of an empty stack iff the match found is of that kind |
| EmptyStacks.ParsedReaches | 3rd_party/clipp.h:4887-4893 | the runs of searches and matches are among those in which every step was shown to make progress |
| EmptyStacks.NeverWithoutBlockingGroups | 3rd_party/clipp.h:4168-4179 | in a tree whose groups do not block no run gets there |
| EmptyStacks.MovesKeepPaths | 3rd_party/clipp.h:2967-3028 | no step, sibling move, way back or cut leaves the stacks in which every frame lies in the current group of the frame below |
| EmptyStacks.UndoPath | 3rd_party/clipp.h:3083-3092 | undo leaves them exactly when the frame below the one put back stands at another group by then |
| EmptyStacks.EmptiedByBlockingRoot | 3rd_party/clipp.h:4176-4179 | on such a stack it takes a match that does not block below a root that is its only blocking group |
| EmptyStacks.BlockingRootRun | 3rd_party/clipp.h:4176-4184 | the smallest run that gets there: one parameter that does not block below a blocking root |
| EmptyStacks.StrandedRun | 3rd_party/clipp.h:4176-4184 | a run of four arguments that gets there below a root that does not block, with the fourth match found in a group the root has moved away from |
| DepthFirstTraversers.DepthFirstTraverser.Increment | 3rd_party/clipp.h:2967-2978 | the stack becomes that of the next node in preorder |
| DepthFirstTraversers.DepthFirstTraverser.NextSibling | 3rd_party/clipp.h:2981-2994 | the loop that pops finished groups arrives at the next sibling of the nearest ancestor that has one |
| DepthFirstTraversers.DepthFirstTraverser.Undo | 3rd_party/clipp.h:3083-3092 | cuts the stack to the memento's level and puts its frame back |
| DepthFirstTraversers.DepthFirstTraverser.OutermostBlockingGroupFullyExplored | 3rd_party/clipp.h:2917-2930 | finds the outermost blocking group among those the next step leaves |
| DepthFirstTraversers.ScopedDfsTraverser.Increment | 3rd_party/clipp.h:4128-4165 | the step of the scoped traversal, on the object's fields |
| DepthFirstTraversers.ScopedDfsTraverser.CheckIfLeftScope | 3rd_party/clipp.h:4279-4293 | goes back through the scopes that the position has left |
| DepthFirstTraversers.ScopedDfsTraverser.ReturnToOutermostScope | 3rd_party/clipp.h:4296-4315 | goes back through all scopes, or invalidates the position when there are none |
| DepthFirstTraversers.ScopedDfsTraverser.NextAfterMatch | 3rd_party/clipp.h:4168-4232 | takes up the search behind a match, or reports that the code would look at the top of an empty stack |
| DepthFirstTraversers.ScopedDfsTraverser.FindMatch | 3rd_party/clipp.h:4392-4474 | the loop ends and stands at the first accepted parameter or is invalid |
| WildcardSyntax.SetIsFirstClose | 3rd_party/wildcards.hpp:821-986 | a set is recognised iff a closing character follows its first member, and the first such character ends it |
| WildcardSyntax.IsSetLoop | 3rd_party/wildcards.hpp:821-889 | the loop form computes the recursive form |
| WildcardSyntax.SetEndLoop | 3rd_party/wildcards.hpp:898-986 | the loop form computes the recursive form, exceptions included |
| WildcardMatch.MatchSetLoop | 3rd_party/wildcards.hpp:997-1138 | the loop form computes the recursive form, exceptions included |
| WildcardSyntax.IsAltLoop | 3rd_party/wildcards.hpp:1146-1230 | the loop form computes the recursive form |
| WildcardSyntax.AltEndLoop | 3rd_party/wildcards.hpp:1238-1344 | the loop form computes the recursive form, exceptions included |
| WildcardSyntax.AltSubEndLoop | 3rd_party/wildcards.hpp:1351-1450 | the loop form computes the recursive form, exceptions included |
| WildcardSyntax.SetUnderShorterEnd | 3rd_party/wildcards.hpp:898-986 | recognition of a set depends on the pattern's end only through whether the set fits |
| WildcardSyntax.AltUnderShorterEnd | 3rd_party/wildcards.hpp:1238-1344 | a group that fits below an earlier end is recognised there with the same end |
| WildcardSyntax.RecognisedBelow | 3rd_party/wildcards.hpp:1351-1450 | sets and groups recognised under a group's end stay recognised, with the same ends, under the shorter end of their alternative |
| WildcardSyntax.SubEndFound | 3rd_party/wildcards.hpp:1351-1450 | scanning up to a group's end finds the end of the first alternative, after which the group is over or another alternative starts |
| WildcardMatch.MatchSetMeaning | 3rd_party/wildcards.hpp:997-1138 | a recognised set is matched without an exception, by exactly the characters it contains, or with a leading "not" by the others |
| WildcardMatch.MatchTotal | 3rd_party/wildcards.hpp:1459-1606 | no exception is thrown, whatever the pattern, the sequence, the special characters and the comparison |
| WildcardLanguage.Sound | 3rd_party/wildcards.hpp:1459-1606 | what a match consumed is described by the pattern, and a match that is not partial consumes everything |
| WildcardLanguage.Complete | 3rd_party/wildcards.hpp:1459-1606 | if the pattern describes a stretch and each alternative of its groups has one fixed length, a match is found |
| WildcardLanguage.NoGroupsIsRigid | 3rd_party/wildcards.hpp:1547-1557 | patterns without recognised groups satisfy that condition |
| WildcardLanguage.FixedDescribes | 3rd_party/wildcards.hpp:1494-1606 | a pattern of fixed width describes only sequences of that length |
| WildcardForm.SetRecognised | 3rd_party/wildcards.hpp:821-986 | the text of a set of given members is recognised as a set that ends with it |
| WildcardForm.GroupFound | 3rd_party/wildcards.hpp:1146-1450 | in the text of a group the ends of the first alternative and of the group are found, whatever is nested inside |
| WildcardForm.TextsDescribe | 3rd_party/wildcards.hpp:1459-1606 | the text of a tree of literals, wildcards, sets and nested groups describes exactly what the tree means |
| WildcardForm.TextMatches | 3rd_party/wildcards.hpp:1608-1619 | what the text matches the tree means, and with fixed-length alternatives it matches all that the tree means |
| WildcardLanguage.MatchMeaning | 3rd_party/wildcards.hpp:1608-1619 | a match of the whole sequence means the pattern describes it; for patterns with fixed-length alternatives iff |
| WildcardLanguage.CommitsTooEarly | 3rd_party/wildcards.hpp:1465-1480 | "(a*)b" describes "aab" but does not match it: the group commits to its first partial match |
| WildcardCommit.StopsAtShortest | 3rd_party/wildcards.hpp:1465-1493 | a partial match for a pattern without groups stops at the shortest prefix described, and is found iff there is one |
| WildcardCommit.Exact | 3rd_party/wildcards.hpp:1459-1606 | from every position, a match of the rest is found iff the pattern describes the rest with every alternative at its shortest prefix, if no group lies inside another |
| WildcardCommit.UnnestedMeaning | 3rd_party/wildcards.hpp:1608-1619 | the same for whole patterns and sequences |
| SampleRange.RangeFits | 3rd_party/stb_image_resize.h:1008-1020 | the scanlines of one output row number at least one and at most the filter's width |
| SampleRange.RangeAdvances | 3rd_party/stb_image_resize.h:1008-1020 | from one row to the next neither end of the range moves back |
| SampleRange.CalculateCoefficients | 3rd_party/stb_image_resize.h:1037-1077 | the contributor holds the normalised kernel weights, and every scanline trimmed from the range has weight zero |
| RingBuffer.VerticalResampler.AddEmptyEntry | 3rd_party/stb_image_resize.h:1416-1438 | the new scanline's entry is not the first live one |
| RingBuffer.VerticalResampler.SlotsDiffer | 3rd_party/stb_image_resize.h:1427-1432 | no two scanlines that fit in the ring share an entry |
| RingBuffer.VerticalResampler.DecodeAndResample | 3rd_party/stb_image_resize.h:1654-1666 | the scanline enters the ring and no live entry is overwritten |
| RingBuffer.VerticalResampler.DropBefore | 3rd_party/stb_image_resize.h:2080-2100 | old scanlines go, the others stay in their entries, and a ring that runs out is reset |
| RingBuffer.VerticalResampler.SlideTo | 3rd_party/stb_image_resize.h:2078-2107 | afterwards entry (begin + k - first) mod entries holds scanline k for every k of the row's range |
| RingBuffer.VerticalResampler.ResampleVertical | 3rd_party/stb_image_resize.h:1866-1981 | the row equals the direct weighted sum over its whole range, whatever was trimmed |
| RingBuffer.VerticalResampler.EnlargeRows | 3rd_party/stb_image_resize.h:2063-2114 | every output row equals its direct weighted sum; the filter width plus one entries always suffice |
| RingBuffer.Enlarge | 3rd_party/stb_image_resize.h:2063-2114 | weights computed first and rows after them: every output row of the image equals its direct weighted sum |
| RingBuffer.TrailingZeros | 3rd_party/stb_image_resize.h:1069-1076 | dropping scanlines without weight does not change the sum |
| ResizeLaws.RangeExact | 3rd_party/stb_image_resize.h:1008-1020 | a row sees exactly the scanlines whose middle lies within the filter's support of the row's middle |
| ResizeLaws.CenterScales | 3rd_party/stb_image_resize.h:1008-1020 | the row's middle among the input scanlines, scaled up again, is the middle of the row, shifted |
| ResizeLaws.WeightIs | 3rd_party/stb_image_resize.h:1037-1064 | a weight is the kernel at the distance of the middles, divided by the sum of all |
| ResizeLaws.ConstantKept | 3rd_party/stb_image_resize.h:1037-1064 | a constant image stays constant |
| ResizeLaws.ScanlineKept | 3rd_party/stb_image_resize.h:1866-1981 | where the middles of a row and a scanline coincide, an interpolating kernel gives that scanline |

## Left out

- Files, callbacks, error strings, pointers and failing allocation: inputs and outputs are sequences or arrays; the largest allocation is a parameter.
- Overflow of sizes held in 32-bit integers: sizes are unbounded; the readers' own limits are kept.
- Inflate: length symbols 286 and 287 and distance symbols 30 and 31 end in an outcome of their own (`Reserved`), because the code goes on with a base of zero and may not end; a growable buffer starts with a positive size.
- The hash of three bytes in the compressor is any function; the checksum of PNG chunks is any function, since the reader skips it.
- PNG: only eight-bit grey, grey-alpha, RGB and RGBA without palette, transparency chunk or CgBI chunk (other files give `NotModelled`), and no conversion to another number of channels.
- PngWriter.EncodeBestLine: the cost estimate is summed without a bound, where the code adds in an int.
- Adam7: the seven passes are laid into one flat array of bytes.
- TGA: only run-length types without colour map and with 8, 16 (grey), 24 or 32 bits; pixels move as a whole; the writer's setting without run-length coding is omitted, and sides from 65536 on or more than 2^31 - 1 bytes, which the format and the reader exclude.
- HDR: header lines, flat scanlines of fewer than 8 or more than 32767 pixels, and the conversion between floats and RGBE bytes; where the code would read empty packets for ever past the end of the file the model stops with `NeverEnds`.
- GIF: header, colour tables, transparency, frame disposal and history; the raster counts in pixels, and where the file stands after the raster is not stated.
- JPEG: markers, DC and progressive scans, transforms and colour; tables of more than 256 symbols, which the format excludes; shifting a zero byte by 32 or more once the scan has ended counts as zero.
- Jpegs.Jpeg.HuffDecode: the state after a failure is not stated, because decoding of the image stops there.
- Wildcards: iterators are positions in sequences; the result positions are kept but nothing is claimed about where a failed match stops.
- WildcardLanguage.Complete: fixed-length alternatives are sufficient, not necessary ("(a*)*" matches everything it describes); `WildcardCommit.UnnestedMeaning` is exact for all patterns without nested groups, and nothing exact is stated for alternatives of varying length with groups inside, which are tried at the first prefix found and not always at the shortest.
- Traversal: a group's address is its identity number; joinable groups, repeat-group bookkeeping and the parser's lists of misses and conflicts, none of which steers the traversal.
- ScopedTraversal.NextAfterMatch: where the code reads the top of an empty vector the model returns `EmptyStack`.
- EmptyStacks.RunEmpties: each argument is matched on its own. Matches replayed from a joinable group have stacks that start at that group and may be taken up at an invalid position; for them `EmptyStacks.ReplayedExactly` holds, which is about every state and stack.
- Resizing: only enlarging in height; the horizontal pass is any function from scanline numbers to rows, arithmetic is on real numbers, and decoding, encoding and edge modes are omitted.
- SampleRange.CalculateCoefficients: the kernel values of a row must not add up to zero, as the code asserts.
- The other formats of the libraries (BMP, PSD, PIC, PNM), help printing and option matching: they would add easy members.
