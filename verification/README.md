# Verified model of the nonces heat map tool

The repository draws a picture of the nonces in a block chain. It fetches the block headers from a daemon, stamps a
point for every nonce onto a heat map, colours the map, and writes a PNG file. This project models the algorithms
behind these steps, and proves what they promise:

- **Compression** (`Bits`, `BitStreams`, `HuffmanCode`, `HuffmanTable`, `HuffmanTree`, `LeafSort`, `PackageMerge`,
  `OptimalLengths`, `BpmPool`, `CodeLengths`, `Lz77`, `Lz77Encoder`, `LengthRuns`, `InflateSpec`, `Inflate`,
  `DeflateBits`, `DeflateFormat`, `Deflate`): DEFLATE with bit registers, two-level Huffman tables, length-limited code
  lengths by boundary package-merge with its node pool, hash chains with lazy matching, and the run-length form of the
  code lengths. `InflateSpec` defines what a stream means without tables or registers. The decoder computes exactly
  that, and the encoder's output always means its input. `DeflateFormat` states the format itself in plain arithmetic,
  without the tables that both sides share, and `OptimalLengths` proves that no code within the limit is shorter.
- **PNG scanlines** (`ScanlineFilter`, `ScanlineImage`, `PaddingBits`, `Adam7`, `Interlace`, `Scanlines`, `PngFormat`,
  `RoundTrips`): the five filter types and the filter strategies, padding bits, Adam7 interlacing, the in-place
  decoder, and the round trip of a whole image through all of it and compression. `PngFormat` says in plain arithmetic
  where lines, filter types and the bits of pixels stand.
- **Colour modes** (`ColorTree`, `ColorModes`, `ColorLayout`, `ColorConversion`, `ColorStatistics`, `AutoColor`):
  conversion between the modes with at most eight bits per channel, where each channel stands in the bytes, statistics
  of an image, and the automatic choice of a mode, which loses nothing.
- **Heat map** (`Heatmap`): stamping and rendering, with real numbers for heat.
- **Synchronisation** (`SyncProtocol`, `Network`): the requests for ranges of block headers, as a state machine in which
  replies to what was sent come in any order and transport failures are retried.
- **HTTP parser** (`HttpChars`, `HttpMachine`, `HttpRun`, `HttpStretch`, `HttpParser`, `HttpLaws`, `HttpFields`,
  `HttpValues`, `HttpHeads`, `HttpRequests`): the parser's state machine, one byte at a time, and the call that takes
  many bytes with its inner loops and marks. How the bytes are cut into calls makes no difference. The last four modules
  say what the parser reports of whole heads: status and version, methods and request targets, the fields it knows, the
  options and codings in their values, and how it then finds the body.
- **JSON pointers** (`Utf8`, `JsonPointer`, `PointerText`, `PointerFormat`): parsing and printing RFC 6901 pointers, in
  plain form and as URI fragments, with validation of UTF-8.

`Options`, `Sequences` and `Modular` hold a few shared definitions and lemmas.

Code that changes state step by step is modelled by methods and classes, each proved against a function or predicate on
values. What the code promises is then proved about these. `dafny verify dfyconfig.toml` checks everything.

Where the code and its documentation disagree, the model follows the code. `lodepng.h` (lines 714-718) says that
predefined filter types may be up to 5. The code writes no line for a type above 4, and decoding then fails with error
36. `Scanlines.PreProcessScanlines` and `RoundTrips.EncodeAndDecode` say exactly when that happens.

The HTTP parser does not read the values of Connection and Transfer-Encoding as plain lists: after an item such as `up`,
which is the beginning of a known word, and after `chunked`, it takes the comma for a part of the item and loses the
next one; behind a blank item, or one that begins with a tab, everything is lost. `HttpValues.LostOptions` and the
lemmas next to it give inputs, and `HttpValues.AllHeard`, `OptionsHeard` and `ChunkedLast` say exactly when it matters. Its
table of hexadecimal digits ends at 127, so in the size of a chunk every byte above that counts as a zero
(`HttpLaws.DigitsFormat`).

JSON pointers in URI fragments are split at their slashes before they are decoded, so `%2F` is a slash within a name,
while section 6 of RFC 6901 decodes first. `PointerFormat.FragmentFormat` states the order of the code.

## Model

| member | source | states |
|---|---|---|
| BitStreams.BitWriter.WriteBits | src/3rdparty/heatmap/lodepng.cpp:431-441 | the bits written so far are followed by those of the value, least significant first |
| BitStreams.BitWriter.WriteBitsReversed | src/3rdparty/heatmap/lodepng.cpp:444-450 | the same with the most significant bit first, as codes are stored |
| BitStreams.BitReader.EnsureBits32 | src/3rdparty/heatmap/lodepng.cpp:546-564 | the register holds at least 32 of the stream's next bits, with zeros past the end, and the answer says whether the wanted ones are all there |
| BitStreams.BitReader.ReadBits | src/3rdparty/heatmap/lodepng.cpp:567-583 | the value is the number that the next bits of the stream spell, and the position moves on by as many |
| HuffmanCode.PrefixFree | src/3rdparty/heatmap/lodepng.cpp:809-843 | of the canonical codes that are assigned there, no two begin the same bits unless the code space is oversubscribed |
| HuffmanCode.Oversubscribed | src/3rdparty/heatmap/lodepng.cpp:689-802 | an oversubscribed alphabet has a short code that begins another one, which is the collision that table building finds |
| HuffmanCode.Incomplete | src/3rdparty/heatmap/lodepng.cpp:689-802 | with code space left over, some bits begin with no code, which is the unused table entry that table building finds |
| HuffmanCode.DecodeCode | src/3rdparty/heatmap/lodepng.cpp:809-843 | with the code space used up exactly, bits that begin with a symbol's code stand for that symbol, whatever follows |
| HuffmanCode.PadCode | src/3rdparty/heatmap/lodepng.cpp:809-843 | symbols without a code at the end of the alphabet change no code, so encoder and decoder may size it differently |
| HuffmanCode.Canonical | src/3rdparty/heatmap/lodepng.cpp:809-843 | the two rules that define the codes in section 3.2.2 of RFC 1951: shorter codes come before longer ones, and codes of one length are in the order of their symbols |
| HuffmanCode.CanonicalFirst | src/3rdparty/heatmap/lodepng.cpp:809-843 | the first code is all zeros, which with the two rules leaves no other choice |
| HuffmanTrees.MakeTable | src/3rdparty/heatmap/lodepng.cpp:689-802 | building succeeds exactly if fewer than two symbols have codes or the code space is used up exactly, and then both levels of the table hold every code in every slot that begins with it |
| HuffmanTrees.HuffmanTree.MakeFromLengths2 | src/3rdparty/heatmap/lodepng.cpp:809-843 | the same for the whole tree: error 55 exactly for unusable lengths, and otherwise codes and table are those of the canonical code |
| HuffmanTrees.HuffmanDecodeSymbol | src/3rdparty/heatmap/lodepng.cpp:1097-1111 | one or two lookups give the symbol whose code comes next in the stream, and the position moves on by the length of its code |
| HuffmanTrees.HuffmanTree.MakeFromFrequencies | src/3rdparty/heatmap/lodepng.cpp:1045-1056 | symbols that occur get codes within the length limit, the code is complete and as short as any, and only symbols that do not occur are dropped from the end |
| LeafSort.Sort | src/3rdparty/heatmap/lodepng.cpp:918-938 | bottom-up merging leaves the same leaves in ascending order |
| BpmPool.PoolIsBigEnough | src/3rdparty/heatmap/lodepng.cpp:1005-1027 | when list c has chains of at most c + 1 nodes, fewer nodes can be reached from the heads than the pool has |
| BpmPool.Allocate | src/3rdparty/heatmap/lodepng.cpp:889-914 | filling the next free node with a new item changes no chain, and no node that may be handed out later is reachable |
| BpmPool.BpmLists.Collect | src/3rdparty/heatmap/lodepng.cpp:893-905 | after a collection every free node is unreachable, none is listed twice, and there is at least one; the chains are the same |
| BpmPool.BpmLists.Create | src/3rdparty/heatmap/lodepng.cpp:889-914 | the new node spells the given item on top of its tail, no other chain has changed, and the pool stays sound |
| CodeLengths.BoundaryPM | src/3rdparty/heatmap/lodepng.cpp:941-964 | the recursion over the pool does what the step on lists of chains does, also when the first list has run out of leaves |
| CodeLengths.PackageMergeLengths | src/3rdparty/heatmap/lodepng.cpp:1005-1039 | for two or more sorted leaves, the lengths are within the limit, every leaf has one, the Kraft sum is exactly one, and no code within the limit makes a message with these frequencies shorter |
| CodeLengths.HuffmanCodeLengths | src/3rdparty/heatmap/lodepng.cpp:966-1042 | the same for any frequencies, optimality included; error 80 exactly for an empty alphabet or one with more symbols than the limit allows codes |
| PackageMerge.FinalKraft | src/3rdparty/heatmap/lodepng.cpp:941-964 | the code lengths that the final chain of the last list stands for use up the code space exactly |
| OptimalLengths.AdvanceCanonical | src/3rdparty/heatmap/lodepng.cpp:941-964 | each step of the boundary algorithm, which keeps two chains for each list, adds the next lightest item of the full package-merge lists |
| OptimalLengths.LightestIsLeast | src/3rdparty/heatmap/lodepng.cpp:941-964 | the lightest items of a list weigh no more than any choice of leaves, list by list, that gives as many items |
| OptimalLengths.EnoughItems | src/3rdparty/heatmap/lodepng.cpp:1005-1039 | the lengths of any code within the limit are such a choice: the Kraft inequality gives it at least 2n - 2 items |
| OptimalLengths.FinalIsOptimal | src/3rdparty/heatmap/lodepng.cpp:1005-1039 | so the lengths of the final chain cost no more than those of any code within the limit |
| Lz77.AddLengthDistance | src/3rdparty/heatmap/lodepng.cpp:1442-1477 | appends the four numbers of the pair, found by binary search |
| DeflateBits.MatchCodes | src/3rdparty/heatmap/lodepng.cpp:1442-1477 | the four numbers stand for exactly this length and distance, and the extra bits have room for their values |
| Lz77Encoder.EncodeLZ77 | src/3rdparty/heatmap/lodepng.cpp:1583-1730 | the tokens expand to the bytes of the block when copied byte by byte; lengths are 3 to 258 and at least the wanted minimum, and more than 3 beyond distance 4096; distances are below the window size and within the data so far; no match could be longer at its distance; the hash chains are ready for the next block; errors 60 and 90 exactly for bad windows |
| Lz77Encoder.FindMatch | src/3rdparty/heatmap/lodepng.cpp:1629-1679 | following the chains, the place that the chain leads to first is looked at, and no place looked at gives a longer match than the one found |
| LengthRuns.EncodeRuns | src/3rdparty/heatmap/lodepng.cpp:1898-1932 | the runs expand to the lengths again, across the border between the two alphabets, and never need more numbers than there are lengths |
| DeflateBits.DescriptionDecodes | src/3rdparty/heatmap/lodepng.cpp:1129-1258 | wherever the bits of a description of trees stand in a stream, the decoder's meaning of them is the described trees, padded to its own alphabets |
| DeflateFormat.DynamicTreesFormat | src/3rdparty/heatmap/lodepng.cpp:1129-1258 | the meaning of a description of trees in plain arithmetic: numbers of 5, 5 and 4 bits, 3-bit lengths at the places 16, 17, 18, 0, 8, 7, 9, 6 and so on, the split into both alphabets, and which error comes first |
| DeflateFormat.LengthListFormat | src/3rdparty/heatmap/lodepng.cpp:1179-1240 | each code of a list of code lengths: what it repeats, how often, its extra bits, and its errors |
| DeflateFormat.LengthsFormat | src/3rdparty/heatmap/lodepng.cpp:627-635 | the base of every length code is that of the code before and the lengths its extra bits can tell apart |
| DeflateFormat.DistancesFormat | src/3rdparty/heatmap/lodepng.cpp:637-646 | the same for distance codes |
| DeflateFormat.MatchFormat | src/3rdparty/heatmap/lodepng.cpp:1283-1331 | what follows a length code: extra bits, distance code and extra bits, with length and distance computed from them, and its errors |
| DeflateFormat.CopyMatchFormat | src/3rdparty/heatmap/lodepng.cpp:1316-1331 | a match repeats bytes: each is the byte that far back, even if the match has just added it |
| DeflateFormat.SymbolFormat | src/3rdparty/heatmap/lodepng.cpp:1262-1347 | literals, the end of a block and lengths |
| DeflateFormat.FixedCodesFormat | src/3rdparty/heatmap/lodepng.cpp:1061-1095 | the lengths of the fixed codes: 8, 9, 7 and 8 bits by ranges of symbols, 5 bits for distances |
| DeflateFormat.StoredFormat | src/3rdparty/heatmap/lodepng.cpp:1352-1382 | a stored block begins with the next byte: length and complement, low bytes first |
| DeflateFormat.BlockFormat | src/3rdparty/heatmap/lodepng.cpp:1384-1407 | the bit that marks the last block, two bits for the type, and what each type is |
| DeflateFormat.DynamicHeaderFormat | src/3rdparty/heatmap/lodepng.cpp:1967-1992 | the bits written for a dynamic block begin with its description, each length of a code length code in its place |
| Inflate.ReadCodeLengths | src/3rdparty/heatmap/lodepng.cpp:1179-1240 | the loop over codes 0 to 18 stores the lengths that the bits mean in the two arrays, or fails with the same error |
| Inflate.GetTreeInflateDynamic | src/3rdparty/heatmap/lodepng.cpp:1129-1258 | both trees and the position after them, or the error, are those of the stream's meaning, for every buffer |
| Inflate.CopyBack | src/3rdparty/heatmap/lodepng.cpp:1316-1331 | copying a match in two parts is copying it byte by byte, overlaps included |
| Inflate.InflateHuffmanBlock | src/3rdparty/heatmap/lodepng.cpp:1262-1347 | output, position and error of a compressed block are those of its meaning, for every buffer |
| Inflate.InflateNoCompression | src/3rdparty/heatmap/lodepng.cpp:1352-1382 | the same for a stored block |
| Inflate.InflateV | src/3rdparty/heatmap/lodepng.cpp:1384-1407 | for every buffer, output and error are those of a definition of DEFLATE without tables and registers |
| Deflate.DeflateNoCompression | src/3rdparty/heatmap/lodepng.cpp:1734-1766 | stored blocks inflate to the data, unless there is none: then there is no output at all |
| Deflate.DeflateDynamic | src/3rdparty/heatmap/lodepng.cpp:1797-2017 | the bits added are those of a dynamic block with sound trees, described as the standard says, and its tokens expand to the block's bytes |
| Deflate.DeflateFixed | src/3rdparty/heatmap/lodepng.cpp:2019-2062 | the same for a block with fixed codes |
| Deflate.DeflateV | src/3rdparty/heatmap/lodepng.cpp:2064-2103 | the error for every setting, and inflating the output gives exactly the input, across block borders; the one exception is an empty input with stored blocks, for which the output inflates to error 52 |
| RoundTrips.DeflateAndInflate | src/3rdparty/heatmap/lodepng.cpp:2064-2103 | the two methods one after the other return the data, or the exact error |
| ScanlineFilter.PaethIsStandard | src/3rdparty/heatmap/lodepng.cpp:3953-3961 | the predictor, which avoids subtractions, is the one of the PNG standard |
| ScanlineFilter.PredictorIsStandard | src/3rdparty/heatmap/lodepng.cpp:5335-5377 | what each type predicts, in the terms of section 9.2: zero, the byte on the left, the byte above, half of both rounded down, and Paeth |
| ScanlineFilter.FilteredIsStandard | src/3rdparty/heatmap/lodepng.cpp:5335-5377 | so every byte of a filtered line is the byte less its prediction |
| ScanlineFilter.UnfilteredIsStandard | src/3rdparty/heatmap/lodepng.cpp:4080-4175 | and every byte of an unfiltered line the filtered byte and its prediction |
| ScanlineFilter.UnfilterFilter | src/3rdparty/heatmap/lodepng.cpp:4080-4175 | for every type, line length and pixel width, with or without a line above, unfiltering a filtered line restores it |
| ScanlineFilter.FilterUnfilter | src/3rdparty/heatmap/lodepng.cpp:5335-5377 | every line of bytes is the filtered form of the line it unfilters to, so filtering is a bijection |
| ScanlineFilter.FilterScanline | src/3rdparty/heatmap/lodepng.cpp:5335-5377 | the loops write the filtered line and nothing else, as the standard has it, and nothing at all for an invalid type |
| ScanlineFilter.UnfilterScanline | src/3rdparty/heatmap/lodepng.cpp:4080-4175 | the loops, unrolled for Paeth, restore the line as the standard has it, also when it overwrites its filtered form; error 36 exactly for types above 4 |
| ScanlineImage.UnfilterFilterImage | src/3rdparty/heatmap/lodepng.cpp:4177-4205 | whatever valid type each line got, unfiltering the lines restores the image |
| ScanlineImage.UnfilterFails | src/3rdparty/heatmap/lodepng.cpp:4177-4205 | it fails exactly if some line has an invalid type |
| ScanlineImage.Unfilter | src/3rdparty/heatmap/lodepng.cpp:4177-4205 | the image takes its place in the buffer, which may be the buffer of the filtered lines as long as it does not start behind them |
| ScanlineImage.Filter | src/3rdparty/heatmap/lodepng.cpp:5400-5590 | every line is filtered with a type its strategy may choose: the first one with the smallest sum, or with the largest entropy score, where these are compared; error 88 exactly for an unknown strategy, 31 for a mode without bits |
| ScanlineImage.MinSumIs | src/3rdparty/heatmap/lodepng.cpp:5465-5475 | a byte of a difference counts as much as its distance to the nearer end of its range, a byte of type 0 as itself |
| ScanlineImage.EntropySum | src/3rdparty/heatmap/lodepng.cpp:5510-5515 | the score adds up an approximation of n log n over how often every byte occurs, the filter type included |
| ScanlineImage.Ilog2Is | src/3rdparty/heatmap/lodepng.cpp:5380-5388 | the halving steps give the integer part of the logarithm of every 32-bit number |
| PaddingBits.AddPaddingBits | src/3rdparty/heatmap/lodepng.cpp:5594-5612 | bit for bit, each line is followed by zeros and the rest of the buffer is untouched |
| PaddingBits.RemovePaddingBits | src/3rdparty/heatmap/lodepng.cpp:4258-4281 | bit for bit, the lines without their padding, also within one buffer towards its beginning |
| PaddingBits.UnpadPad | src/3rdparty/heatmap/lodepng.cpp:4258-4281 | removing the padding undoes adding it, for all widths and heights |
| Adam7.PixelInPass | src/3rdparty/heatmap/lodepng.cpp:3964-4007 | every pixel lies in one of the seven reduced images, within its size |
| Adam7.PassHoldsPixel | src/3rdparty/heatmap/lodepng.cpp:3964-4007 | every place of a reduced image holds a pixel of the image, and one of that pass: the passes partition the pixels |
| Adam7.ImageDetermined | src/3rdparty/heatmap/lodepng.cpp:4218-4256 | two images with the same reduced images are the same |
| PngFormat.PassFormat | src/3rdparty/heatmap/lodepng.cpp:3964-3967 | the passes are those of the 8 by 8 square in section 8.1 |
| PngFormat.ReducedFormat | src/3rdparty/heatmap/lodepng.cpp:3984-4007 | a pixel's column in its reduced image is the number of pixels of its pass on its left, its row the number of those above it, and the size counts them all |
| Interlace.Adam7Interlace | src/3rdparty/heatmap/lodepng.cpp:5624-5661 | every bit of every pixel goes to its place in its reduced image, for pixels of bytes and of bits |
| Interlace.Adam7Deinterlace | src/3rdparty/heatmap/lodepng.cpp:4218-4256 | and comes back from there |
| Scanlines.PreProcessScanlines | src/3rdparty/heatmap/lodepng.cpp:5665-5736 | the scanlines have exactly the computed size and depict the pixels; with an invalid predefined type they are undecodable instead |
| Scanlines.PostProcessScanlines | src/3rdparty/heatmap/lodepng.cpp:4285-4326 | decoding within its own input buffer yields the picture the scanlines depict, and fails exactly if they are undecodable |
| Scanlines.PictureUnique | src/3rdparty/heatmap/lodepng.cpp:4285-4326 | scanlines depict at most one picture, and none if they are undecodable, so decoding undoes encoding |
| PngFormat.FilteredFormat | src/3rdparty/heatmap/lodepng.cpp:5437-5445 | line y of the filtered lines begins at y times (n + 1) with its type, and goes on with its filtered bytes |
| PngFormat.UnfilteredFormat | src/3rdparty/heatmap/lodepng.cpp:4177-4205 | lines are decoded from the top, each with its type, its bytes and the decoded line above |
| PngFormat.PixelOfPlain | src/3rdparty/heatmap/lodepng.cpp:4285-4326 | every bit of every pixel stands in its line as the standard has it: lines of whole bytes, pixels without gaps, most significant bit first |
| PngFormat.PixelOfInterlaced | src/3rdparty/heatmap/lodepng.cpp:4285-4326 | with interlacing, it stands so in the line of its reduced image |
| Scanlines.ExpectedSizeIs | src/3rdparty/heatmap/lodepng.cpp:4881-4895 | the decoder's separate size formula is the encoder's size, for all sizes and depths, with and without interlacing |
| RoundTrips.EncodeAndDecode | src/3rdparty/heatmap/lodepng.cpp:5665-5736 | an image filtered, interlaced, compressed, inflated and decoded has the same bits, for every colour mode and all valid strategies and settings; or error 36 exactly if an invalid type was predefined |
| ColorTrees.GetAdd | src/3rdparty/heatmap/lodepng.cpp:3081-3143 | adding a colour to the 16-way tree gives it its index and leaves every other colour's alone |
| ColorTrees.AddIndexes | src/3rdparty/heatmap/lodepng.cpp:3129-3143 | a tree built colour by colour finds a palette's colours, and no others |
| ColorConversion.GetPixelColorRGBA8 | src/3rdparty/heatmap/lodepng.cpp:3233-3301 | one pixel of any mode: the colour its samples show, with key, palette and scaled grey |
| ColorLayout.PixelLayout | src/3rdparty/heatmap/lodepng.cpp:3233-3301 | which bytes or bits of a pixel are red, green, blue and alpha in every mode, how small greys are scaled, and what keys and missing palette entries show |
| ColorLayout.StoredLayout | src/3rdparty/heatmap/lodepng.cpp:3146-3197 | the same for stored pixels: the order of the channels, which channel a grey is, which of its bits are kept, and that an index finds its colour |
| ColorConversion.GetPixelColorsRGBA8 | src/3rdparty/heatmap/lodepng.cpp:3307-3400 | the bulk loops, with their second pass for the key, give every pixel that same colour |
| ColorConversion.GetPixelColorsRGB8 | src/3rdparty/heatmap/lodepng.cpp:3403-3474 | the same for colours without opacity |
| ColorConversion.AddColorBits | src/3rdparty/heatmap/lodepng.cpp:3071-3079 | puts a group of bits into its byte, which the first group of a byte clears |
| ColorConversion.StoredReads | src/3rdparty/heatmap/lodepng.cpp:3146-3197 | a stored pixel reads back as the samples put there, and earlier pixels are unharmed, also within one byte |
| ColorConversion.Rgba8ToPixel | src/3rdparty/heatmap/lodepng.cpp:3146-3197 | stores the samples of a colour in any mode, or error 82 exactly if the palette does not have it |
| ColorConversion.Convert | src/3rdparty/heatmap/lodepng.cpp:3503-3575 | every pixel of the output has the samples of its colour, each channel going from where the one mode has it to where the other has it; the input is copied when the modes agree; errors 107 and 82 exactly when a palette is missing or lacks a colour |
| ColorConversion.RgbFromRgba | src/3rdparty/heatmap/lodepng.cpp:3503-3575 | for instance, bytes 3k to 3k + 2 of an RGB image made from RGBA are bytes 4k to 4k + 2 |
| ColorConversion.ConvertKeeping | src/3rdparty/heatmap/lodepng.cpp:3503-3575 | if the output mode can keep every colour that occurs, the conversion succeeds and shows the same pixels |
| ColorStatistics.ColorStats.Compute | src/3rdparty/heatmap/lodepng.cpp:3671-3852 | exactly: coloured if some pixel is; alpha if some pixel is half transparent or no key can separate the invisible ones; a key if that is enough; the least bits for all grey values; the palette lists the colours that occur, each once |
| AutoColor.AutoChooseColor | src/3rdparty/heatmap/lodepng.cpp:3881-3944 | a valid mode; when a palette is taken, and that it then takes fewer bits than a grey mode; otherwise the mode without one |
| AutoColor.ChosenKeeps | src/3rdparty/heatmap/lodepng.cpp:3881-3944 | every pixel of the image survives in the mode chosen from its statistics |
| AutoColor.GreySurvives | src/3rdparty/heatmap/lodepng.cpp:3663-3669 | a grey value of the required bits is shown again exactly after it has been cut to them, and the key of sixteen bits is cut to the same sample |
| AutoColor.ConvertThereAndBack | src/3rdparty/heatmap/lodepng.cpp:3503-3575 | an image of eight-bit RGBA converted to the chosen mode and back is the same, byte for byte, without errors, whatever is allowed |
| Heatmap.Heatmap.AddPointWithStamp | src/3rdparty/heatmap/heatmap.c:77-114 | the map, cell by cell, is the sum over all points so far of the stamp values that fall on the cell, and the maximum is the largest cell; no access outside of map or stamp |
| Heatmap.Heatmap.AddWeightedPointWithStamp | src/3rdparty/heatmap/heatmap.c:127-165 | the same with a weight |
| Heatmap.OrderDoesNotMatter | src/3rdparty/heatmap/heatmap.c:77-165 | stamping the same points in any order gives every cell the same heat |
| Heatmap.HeatOfConcat | src/3rdparty/heatmap/heatmap.c:77-165 | the heat of two lots of points is the sum of their heats |
| Heatmap.MaxIsLargest | src/3rdparty/heatmap/heatmap.c:77-165 | the maximum is the heat of some cell, and no cell has more |
| Heatmap.Heatmap.RenderSaturatedTo | src/3rdparty/heatmap/heatmap.c:184-229 | every pixel has the four bytes of the colour nearest to its cell's heat, and bytes behind the picture are untouched |
| Heatmap.Heatmap.RenderTo | src/3rdparty/heatmap/heatmap.c:172-182 | the same with the maximum as the saturation, or one where there is no heat |
| Heatmap.IndexIsNearest | src/3rdparty/heatmap/heatmap.c:206-222 | with the colours spread evenly from no heat to the saturation, the colour chosen is at most half a step from the heat, the later one in the middle |
| Heatmap.ColorInRange | src/3rdparty/heatmap/heatmap.c:184-229 | colour indices stay in range; no heat has the first colour, saturation the last |
| Heatmap.ColorsFollowHeat | src/3rdparty/heatmap/heatmap.c:184-229 | more heat never has an earlier colour |
| Heatmap.HottestHasLastColor | src/3rdparty/heatmap/heatmap.c:172-229 | the hottest cell of a rendered map has the last colour |
| SyncProtocol.RangeReaches | src/Network.h:42-50 | a range is not empty exactly if its end does not overflow 32 bits |
| SyncProtocol.RangeOverflows | src/Network.h:42-50 | a start and count near the limit for which the range goes backwards |
| SyncProtocol.HeightReply | src/Network.cpp:132-152 | the reply with the height is refused exactly if it is zero or there are more nonces than blocks, reports an up-to-date file, or begins a sound sync |
| SyncProtocol.StepKeeps | src/Network.cpp:73-128 | each reply to what was sent, or retried failure, keeps the invariant: what was ever asked for is stored or outstanding, and a reply makes the rest of the work smaller |
| SyncProtocol.RunKeeps | src/Network.cpp:73-128 | no run of replies and failures, in any order, is refused or throws |
| SyncProtocol.StepAccounted | src/Network.cpp:73-128 | what is outstanding is exactly what was sent and not yet answered, with the ranges that were sent, and no two requests share an id |
| SyncProtocol.SyncInOrder | src/Network.cpp:155-183 | without failures every height is asked for once, in order, and as many requests are outstanding as may be while there is more to ask |
| SyncProtocol.RunEnds | src/Network.cpp:155-183 | a run has at most as many events as there is work left, plus an allowance for each failure |
| SyncProtocol.NeverStuck | src/Network.cpp:155-183 | an unfinished sync has an outstanding request whose reply would be accepted |
| SyncProtocol.SyncCompletes | src/Network.cpp:230-270 | from the height to the end, with replies to the requests that were sent: every run is safe and bounded, and one that cannot go on has saved the old nonces followed by the chain's, once |
| Network.ReceivedIsStep | src/Network.cpp:69-99 | receiving the message of a reply or failure is the protocol's step |
| Network.EveryMessage | src/Network.cpp:69-128 | for every message: a request is sent again exactly for a failed transport, and the error is fatal exactly for unusable answers |
| Network.Synchronise | src/Network.cpp:230-270 | a new object, started and given any honest messages, has the nonces of the chain when it reports that it is done, and otherwise waits for one |
| Network.Network.OnHttpData | src/Network.cpp:69-128 | the object's fields change as the state machine says, for every message, requests being retried before they are forgotten |
| Network.Network.Save | src/Network.cpp:257-270 | appends the nonces of the missing heights in order, or throws exactly if one is missing |
| HttpMachine.ByteFine | src/3rdparty/http-parser/http_parser.c:717-2137 | in every state every byte keeps the parser's invariant and sets and uses the marks consistently |
| HttpRun.ByteAgrees | src/3rdparty/http-parser/http_parser.c:641-716 | a byte does the same in a call over many bytes as in a call of its own, up to joining of adjacent data |
| HttpRun.RunConcat | src/3rdparty/http-parser/http_parser.c:641-2137 | running over joined data is running over the first part and then over the second |
| HttpStretch.PlainRun | src/3rdparty/http-parser/http_parser.c:1251-1292 | the inner loops over names and values change the fields and hand out the data as byte-by-byte calls would |
| HttpStretch.BodyExact | src/3rdparty/http-parser/http_parser.c:1934-1969 | exactly the announced number of bytes is handed out before the message or the chunk ends |
| HttpParser.ReadBody | src/3rdparty/http-parser/http_parser.c:1934-1969 | the part of a body in one call agrees with calls for each byte |
| HttpParser.HttpParser.Execute | src/3rdparty/http-parser/http_parser.c:641-2137 | a call over many bytes, with its loops and marks, ends in the state, log, error and count of byte-by-byte calls |
| HttpParser.ExecuteInTwo | src/3rdparty/http-parser/http_parser.c:641-2137 | if one call would take all of the data, then so do two calls over parts of it, with the same state and the same data handed out |
| HttpLaws.PiecesMakeNoDifference | src/3rdparty/http-parser/http_parser.c:641-2137 | the same for any number of pieces |
| HttpLaws.ContentLengthExact | src/3rdparty/http-parser/http_parser.c:1537-1565 | the length is the decimal number written and below the value for no length, and is refused exactly if it does not fit |
| HttpLaws.DigitsFormat | src/3rdparty/http-parser/http_parser.c:224-233 | the value of every hexadecimal digit, small or capital; the table ends at 127, so a byte above that counts as a zero |
| HttpLaws.ChunkSizeExact | src/3rdparty/http-parser/http_parser.c:1986-2066 | the size is the hexadecimal number written, and is refused exactly if it does not fit |
| HttpLaws.ChunkExact | src/3rdparty/http-parser/http_parser.c:2068-2106 | a chunk hands out exactly its bytes, and the next size can follow |
| HttpLaws.MethodsAreSpelled | src/3rdparty/http-parser/http_parser.c:966-1017 | the method guessed from the first letters ends only at a space after its whole name, whatever the guesses in between |
| HttpLaws.FirstGuessSpelled | src/3rdparty/http-parser/http_parser.c:923-964 | the first letter of a request is that of the guessed method |
| HttpFields.FieldName | src/3rdparty/http-parser/http_parser.c:1251-1386 | a field name is handed out as it is, known by its letters in capitals or not, and one that only begins with "transfer-encoding" counts as one too |
| HttpValues.ListRead | src/3rdparty/http-parser/http_parser.c:1574-1695 | the bytes of a list of options or codings record what its items say, item by item, with the commas that are swallowed and the items that are lost |
| HttpValues.OptionsHeard | src/3rdparty/http-parser/http_parser.c:1609-1690 | a connection option is recorded exactly if an item that is not lost is this option |
| HttpValues.AllHeard | src/3rdparty/http-parser/http_parser.c:1609-1690 | no item is lost exactly if all are proper and none but the last is the beginning of a known word |
| HttpValues.ChunkedLast | src/3rdparty/http-parser/http_parser.c:1574-1607 | a body is chunked exactly if the last coding is "chunked" and is not lost |
| HttpValues.LostOptions | src/3rdparty/http-parser/http_parser.c:1627-1663 | values whose option is not recorded although it stands in the list |
| HttpHeads.FieldLine | src/3rdparty/http-parser/http_parser.c:1201-1788 | one field: its name and value are handed out, and what it says is added: options, codings, upgrade, or its length |
| HttpHeads.FieldsRead | src/3rdparty/http-parser/http_parser.c:1201-1788 | any number of fields, in order |
| HttpHeads.HeadEnds | src/3rdparty/http-parser/http_parser.c:1790-1932 | the empty line reports the head with what its fields said, and the body is found as in section 3.3.3 of RFC 7230, with upgrades and the end of the connection |
| HttpHeads.TrailerEnds | src/3rdparty/http-parser/http_parser.c:1790-1800 | behind the last chunk it ends the message |
| HttpHeads.StatusExact | src/3rdparty/http-parser/http_parser.c:846-889 | the status is exactly the decimal number written, and is refused exactly if it exceeds 999 |
| HttpHeads.StatusLineRead | src/3rdparty/http-parser/http_parser.c:766-921 | a status line: version, status and reason are those written |
| HttpHeads.ResponseHead | src/3rdparty/http-parser/http_parser.c:766-1932 | the whole head of a response, from the first byte to the report of the head |
| HttpRequests.MethodRead | src/3rdparty/http-parser/http_parser.c:923-1017 | every method is recognized by its name and the space behind it, through all the guesses in between |
| HttpRequests.TargetReads | src/3rdparty/http-parser/http_parser.c:494-639 | a request target is accepted exactly if it is a path, an asterisk, an absolute URL or, for CONNECT, an authority |
| HttpRequests.TargetRead | src/3rdparty/http-parser/http_parser.c:1019-1090 | and is then handed out as it is |
| HttpRequests.RequestHead | src/3rdparty/http-parser/http_parser.c:923-1932 | the whole head of a request, from the first byte to the report of the head |
| Utf8.DecodeEncode | src/3rdparty/rapidjson/encodings.h:102-176 | decoding an encoded code point gives it back, and is refused exactly for surrogates |
| Utf8.EncodeDecode | src/3rdparty/rapidjson/encodings.h:102-176 | whatever is accepted is the encoding of exactly one code point: there are no overlong forms |
| JsonPointer.ParsePrinted | src/3rdparty/rapidjson/pointer.h:1002-1033 | parsing what is printed gives the names back, in plain form and as a URI fragment |
| JsonPointer.PrintParsed | src/3rdparty/rapidjson/pointer.h:863-979 | in plain form printing what was parsed gives the text back |
| JsonPointer.UriRoundTrip | src/3rdparty/rapidjson/pointer.h:863-1033 | a fragment that parses can be printed as one, and parses to the same names again |
| JsonPointer.PlainTexts | src/3rdparty/rapidjson/pointer.h:863-979 | a plain text is a pointer exactly if it is empty or begins with a slash, and every tilde begins an escape |
| JsonPointer.PrintableIff | src/3rdparty/rapidjson/pointer.h:1002-1033 | a name prints as part of a fragment exactly if it is UTF-8, and in plain form always |
| PointerFormat.PlainFormat | src/3rdparty/rapidjson/pointer.h:886-979 | the names are the texts between the slashes with every "~1" replaced by a slash and then every "~0" by a tilde, as section 4 of RFC 6901 says |
| PointerFormat.PrintFormat | src/3rdparty/rapidjson/pointer.h:1002-1033 | a name is printed with tildes and then slashes replaced, as section 3 says |
| PointerFormat.UnreservedFormat | src/3rdparty/rapidjson/pointer.h:851-853 | a fragment holds exactly the unreserved characters of section 2.3 of RFC 3986 as they are |
| PointerFormat.TripletFormat | src/3rdparty/rapidjson/pointer.h:1084-1098 | a byte is encoded with two capital hexadecimal digits, the upper half first |
| PointerFormat.DigitFormat | src/3rdparty/rapidjson/pointer.h:1058-1070 | in what is read, digits may be capitals or not |
| PointerFormat.FragmentFormat | src/3rdparty/rapidjson/pointer.h:886-979 | the names of a fragment that is accepted are the texts between its slashes, percent-decoded and then unescaped |
| PointerText.Validate | src/3rdparty/rapidjson/encodings.h:179-201 | takes as many units as the first one says and accepts exactly valid sequences |
| PointerText.IndexExact | src/3rdparty/rapidjson/pointer.h:961-978 | digits without a leading zero stand for their own value exactly if it fits |
| PointerText.OverflowUnnoticed | src/3rdparty/rapidjson/pointer.h:965-976 | a number that does not fit and is taken for another index |
| PointerText.ParseName | src/3rdparty/rapidjson/pointer.h:901-955 | the loop over the characters of a name writes it to the buffer, or ends with the exact error and place |
| PointerText.GenericPointer.constructor | src/3rdparty/rapidjson/pointer.h:863-1000 | parsing into one shared buffer yields the names of the text, or the exact error and offset |
| PointerText.GenericPointer.Stringify | src/3rdparty/rapidjson/pointer.h:1002-1033 | prints the names as text or fragment, and fails exactly if a name is not UTF-8, whatever lies behind the name buffer |

## Left out

- Lz77Encoder.EncodeLZ77: which earlier places are looked at depends on chains that give up early on purpose; that a longer match elsewhere is found is not stated.
- CodeLengths.HuffmanCodeLengths: an alphabet of exactly one symbol is excluded, because with fewer than two symbols in use the code writes the lengths of symbols 0 and 1, the second of which would then be out of bounds.
- Deflate.DeflateV: an empty input with block type 1 is excluded, because the code then divides by a block size of zero; the output starts empty, while the code can append to an existing buffer.
- PointerText.GenericPointer.Stringify: a name that ends within a UTF-8 sequence makes the validator read up to three bytes beyond the name's NUL, since it does not stop there; for the last name this can leave the allocated buffer, and the model gives these bytes as an arbitrary `beyond`, on which the answer is proved not to depend.
- PointerText.GenericPointer.constructor: the text is given with its length; the code looks at the first byte even of an empty text, which is taken to be a NUL.
- PointerText.IndexExact: the overflow test of array indices is approximate in the code; where a number does not fit, the theorem says only that the index is not the number.
- HuffmanCode.DecodeCode: speaks of codes as bits, which `HuffmanTrees.HuffmanDecodeSymbol` connects with the tables.
- ScanlineImage.Filter: the brute-force strategy may choose any valid type, because the model of the compressor does not say how long its output is; custom compressors are not modelled.
- ColorStatistics.ColorStats.Compute: new statistics of eight-bit RGBA images only; statistics that continue earlier ones, sixteen-bit images and other input modes are not modelled.
- ColorConversion.Convert: modes with sixteen bits per channel are not modelled; the colour tree is a value here and not changed in place.
- Heatmap.Heatmap.AddPointWithStamp: heat is real, so rounding of floats is not modelled; coordinates are unbounded, where the code's 32-bit differences could wrap.
- SyncProtocol.SyncCompletes: holds for a daemon that answers with complete ranges of its chain, for heights that leave room for a range below 2^32 (`RangeReaches` says exactly when), and for fresh request ids; 64-bit ids that wrap are not modelled.
- HttpParser.HttpParser.Execute: callbacks return zero; pausing, the lenient mode, skipped bodies, the fields of the parser after an error and wrapping of the 32-bit count of header bytes are not modelled; when a header is too long, the place where the error is reported may differ from that of byte-by-byte calls.
- HttpHeads.FieldLine: values on one line, as folded lines are obsolete; the state machine has them, and empty values, but the laws on whole heads do not. A Content-Length is taken with digits only, without spaces behind them.
- HTTP: splitting of URLs and hosts, HTTP/0.9 requests and the ICE protocol in the laws on whole heads, and names of methods and errors.
- Sizes are unbounded: overflow of `size_t` and 32-bit positions, and failing allocation (error 83), are not modelled.
- Compression: custom compressors and decompressors, the zlib header and Adler-32, CRC-32, PNG chunks and text, which are thin or would only add easy members.
- The row formula of the nonces, generation of stamps and colour schemes, sockets, TLS, timers, configuration, logging, and the JSON document model.
