# Image tool core: PPM reading and writing, cutfreq, compress and maxlevel in two layouts

This project models the integer core of a command-line tool for binary PPM (P6) images. The
tool keeps an image in one of two memory layouts:

- **array of structures** (AOS): one vector of 3-byte `SmallPixel`s or 6-byte `LargePixel`s;
- **structure of arrays** (SOA): three parallel channel vectors of `uint8_t` or `uint16_t`.

It performs the same operations in both layouts:

- reading and writing a P6 file;
- the `info` pixel-format line;
- `cutfreq n`: remove the `n` least frequent colours, each replaced by its nearest kept colour;
- `compress`: write the palette-based "C6" format;
- `maxlevel m`: rescale every channel to a new maximum.

It also models the command-line validator that turns an argument vector into either parsed
arguments or the exact error message the tool prints.

The model follows the code's own form, file by file:

- **Images and streams.** Images whose fields the code updates are classes with sequence
  fields (`ImageAos.PpmImageAos`, `ImageSoa.PpmImageSoa`). Input and output streams are classes
  over a byte sequence with a read position (`Streams.InputStream`, `Streams.OutputStream`).
- **Loops.** Every loop of the source is a method with invariants. Each method is proved against
  a specification function, and the properties promised by the source are proved about those
  functions as lemmas.
- **Integer types.**
  - C++ templates over the pixel type become a parameter `bytes` (1 or 2), the width of one
    channel.
  - `size_t` casts are written out as reduction modulo 2^64 (`Decimal.SizeT`).
  - `int` ranges are explicit (`Decimal.IsInt`).
  - `double` distances are exact natural numbers; `DBL_MAX` is its exact integer value.
- **Library behaviour.**
  - `std::sort` is an insertion sort with the same contract (`Sorting.Sort`). Since every
    comparator used is a strict total order, the result is unique (`Sorting.SortedUnique`), so
    any conforming sort gives the same sequence.
  - `std::nth_element` is a selection method on an array with the standard's contract
    (`KdTree.NthElement`).
  - Unordered containers are Dafny maps and sets. Their iteration order is a free choice, made
    with `:|`.
- **Files and errors.**
  - File names and opening are left out: readers take the file's bytes, and writers take an
    output stream that may be in a failed state.
  - An exception or `exit` becomes an error value that carries the message the code uses.

Modules, in dependency order:

- `Results`, `Decimal`, `Streams`, `BinaryIo` (`common/binaryio.hpp`), `Pixels` (`imgaos/imageaos.hpp`);
- `Ppm` (the sample format shared by both layouts);
- `ImageAos` (`imgaos/imageaos.cpp`) and `ImageSoa` (`imgsoa/imagesoa.cpp`);
- `Sorting`, `CutFreq` (the specification of the colour cut), `KdTree` and `CutFreqAos` (`imgaos/cutfreqaos.*`), `CutFreqSoa` (`imgsoa/cutfreqsoa.*`);
- `Compress` (the C6 format), `CompressAos` (`imgaos/compressaos.*`), `CompressSoa` (`imgsoa/compresssoa.*`);
- `MaxLevel`, `MaxLevelAos` (`imgaos/maxlevelaos.*`), `MaxLevelSoa` (`imgsoa/maxlevelsoa.*`);
- `ProgArgs` (`common/progargs.*`).

## Model

| member | source | states |
|---|---|---|
| Pixels.BytesPerComponent | Trabajo-Arquitectura-main/imgaos/imageaos.cpp:31 | a channel takes one byte exactly when the maximum value is at most 255 (`MAX_INTENSITY_FOR_1B`), two otherwise |
| Pixels.EqualIsIdentity | Trabajo-Arquitectura-main/imgaos/imageaos.hpp:29-31 | `operator==` holds exactly when red, green and blue all agree, i.e. the pixels are the same value |
| Pixels.LessIsStrictTotalOrder | Trabajo-Arquitectura-main/imgaos/imageaos.hpp:25-27 | the `std::tie` comparison is irreflexive, asymmetric and transitive, and two pixels are incomparable exactly when `operator==` holds |
| Pixels.LessIsCodeOrder | Trabajo-Arquitectura-main/imgaos/imageaos.hpp:42-44 | the lexicographic pixel order is the numeric order of the packed colour codes `(r<<32)\|(g<<16)\|b` |
| Pixels.UnpackPack | Trabajo-Arquitectura-main/imgsoa/cutfreqsoa.hpp:117-122 | unpacking a packed colour with shifts and masks gives back the colour, for channels that fit the width |
| Pixels.PackInjective | Trabajo-Arquitectura-main/imgsoa/cutfreqsoa.hpp:99-101 | two colours that fit the channel width have the same code only when they are equal |
| Pixels.PackBound | Trabajo-Arquitectura-main/imgsoa/cutfreqsoa.cpp:5-9 | codes of 8-bit colours are below 2^24 and of 16-bit colours below 2^48, so `uint32_t` and `uint64_t` hold them |
| Pixels.SquaredDistanceProperties | Trabajo-Arquitectura-main/imgaos/cutfreqaos.hpp:74-80 | the squared distance is symmetric and is zero exactly for equal colours |
| Pixels.ColorTuplesFit | Trabajo-Arquitectura-main/imgsoa/compresssoa.hpp:57-61 | tuples taken index by index from channel vectors that fit a width fit that width |
| Pixels.ChannelsOfColorTuples | Trabajo-Arquitectura-main/imgsoa/compresssoa.hpp:57-61 | splitting the tuples of three equal-length vectors back into channels gives the vectors |
| Decimal.SizeT | Trabajo-Arquitectura-main/imgaos/cutfreqaos.cpp:7 | `static_cast<size_t>` keeps a value in `0..2^64-1` and adds 2^64 to a negative `int` |
| Decimal.PixelCount | Trabajo-Arquitectura-main/imgaos/cutfreqaos.cpp:5 | `size_t(width) * size_t(height)` is the product of the dimensions when both are positive `int`s |
| Decimal.DigitsValueOfNatToString | Trabajo-Arquitectura-main/imgaos/imageaos.cpp:61 | the decimal digits written for a number have that number as their value |
| Decimal.ScanRenderedNat | Trabajo-Arquitectura-main/imgaos/imageaos.cpp:23 | reading a number after blanks stops after the digits written for it and yields it |
| BinaryIo.LittleEndian | Trabajo-Arquitectura-main/common/binaryio.hpp:17-23 | `write_binary` of a `width`-byte unsigned value emits exactly `width` bytes, least significant first |
| BinaryIo.FromLittleEndianOfLittleEndian | Trabajo-Arquitectura-main/common/binaryio.hpp:7-23 | decoding what was encoded gives back the value |
| BinaryIo.LittleEndianOfFromLittleEndian | Trabajo-Arquitectura-main/common/binaryio.hpp:7-23 | encoding what was decoded gives back the bytes |
| BinaryIo.ReadBinaryF | Trabajo-Arquitectura-main/common/binaryio.hpp:7-15 | reading succeeds with the little-endian value of the next `width` bytes and advances by `width`; a failed stream or a short read is the "Error reading binary data" error and leaves the stream failed |
| BinaryIo.ReadBinary | Trabajo-Arquitectura-main/common/binaryio.hpp:7-15 | the stream method returns and leaves exactly what `ReadBinaryF` describes |
| BinaryIo.WriteBinary | Trabajo-Arquitectura-main/common/binaryio.hpp:17-23 | on a good stream appends the little-endian bytes of the value; on a failed stream appends nothing and fails with "Failed to write binary data." |
| BinaryIo.ReadBinaryAfterWrite | Trabajo-Arquitectura-main/common/binaryio.hpp:7-23 | a value written among other bytes is read back from where it was written |
| Ppm.DecodeEncodePixels | Trabajo-Arquitectura-main/imgaos/imageaos.cpp:35-48 | pixel data written sample by sample (red, green, blue) decodes to the same pixels |
| Ppm.DecodeEncodePixelAt | Trabajo-Arquitectura-main/imgaos/imageaos.cpp:64-74 | the `k`-th pixel of the written data is the `k`-th pixel written |
| Ppm.EncodeDecodePixels | Trabajo-Arquitectura-main/imgaos/imageaos.cpp:35-48 | any well-sized byte range is the encoding of the pixels decoded from it |
| Ppm.ScanHeaderText | Trabajo-Arquitectura-main/imgaos/imageaos.cpp:17-26 | the header `P6\nw h max\n` written by the writers is read back as `P6`, `w`, `h`, `max`, with the single byte after `max` skipped |
| Ppm.ReadPixelsF | Trabajo-Arquitectura-main/imgaos/imageaos.cpp:35-48 | reading `count` pixels yields `count` pixels that fit the channel width, or the read error when the data runs out |
| Ppm.ReadPixelsOfEncoded | Trabajo-Arquitectura-main/imgaos/imageaos.cpp:35-48 | reading encoded pixels after any prefix yields those pixels |
| Ppm.ReadPixelsFails | Trabajo-Arquitectura-main/imgaos/imageaos.cpp:37-39 | a read loop that runs past the end of the data fails with the read error |
| Ppm.ReadPixelFDecodes | Trabajo-Arquitectura-main/imgaos/imageaos.cpp:37-39 | three `read_binary` calls yield the pixel stored at the read position |
| Ppm.ReadPixel | Trabajo-Arquitectura-main/imgaos/imageaos.cpp:37-39 | the stream method reads one pixel exactly as `ReadPixelF` describes |
| Ppm.WritePixel | Trabajo-Arquitectura-main/imgaos/imageaos.cpp:65-67 | three `write_binary` calls append the encoded pixel; on a stream that refuses writes nothing is written and the first call fails with "Failed to write binary data." |
| ImageAos.ReadAosF | Trabajo-Arquitectura-main/imgaos/imageaos.cpp:12-52 | a successful read has width, height and maximum at least 1 and exactly `width*height` pixels in the vector the maximum selects (the other empty); errors are "Unsupported PPM format.", "Invalid image size." or the read error |
| ImageAos.ReadPixelVector | Trabajo-Arquitectura-main/imgaos/imageaos.cpp:33-49 | the read loop returns what `ReadPixelsF` describes and advances past the pixel data |
| ImageAos.ReadImageAos | Trabajo-Arquitectura-main/imgaos/imageaos.cpp:12-52 | the reader builds a fresh image whose value is `ReadAosF` of the bytes, or returns its error |
| ImageAos.WriteAosF | Trabajo-Arquitectura-main/imgaos/imageaos.cpp:55-78 | the written bytes are the header text followed by 3 or 6 bytes per pixel of the active vector |
| ImageAos.WritePixelVector | Trabajo-Arquitectura-main/imgaos/imageaos.cpp:63-75 | the write loop appends the encoding of every pixel in order |
| ImageAos.WriteImageAos | Trabajo-Arquitectura-main/imgaos/imageaos.cpp:55-78 | a stream that could not be opened gives "Error writing the PPM file." and nothing is written; otherwise exactly `WriteAosF` is appended |
| ImageAos.ReadAosOfParts | Trabajo-Arquitectura-main/imgaos/imageaos.cpp:12-52 | a header with positive numbers followed by the encoding of `w*h` pixels reads as that image |
| ImageAos.ReadAfterWrite | Trabajo-Arquitectura-main/imgaos/imageaos.cpp:12-78 | reading back what the writer wrote gives the same image |
| ImageAos.PixelFormatAos | Trabajo-Arquitectura-main/imgaos/imageaos.cpp:90-96 | the info line says 8-bit exactly when max ≤ 255, 16-bit exactly when 255 < max < 65536, unsupported exactly when max ≥ 65536 |
| ImageAos.PixelFormatAosMatchesLayout | Trabajo-Arquitectura-main/imgaos/imageaos.cpp:90-93 | the "3 bytes per pixel" and "6 bytes per pixel" lines match the sizes the reader and writer use |
| ImageSoa.Selected | Trabajo-Arquitectura-main/imgsoa/imagesoa.cpp:30-49 | the maximum value selects the `uint8_t` vectors when at most 255, the `uint16_t` vectors otherwise |
| ImageSoa.ReadSoaF | Trabajo-Arquitectura-main/imgsoa/imagesoa.cpp:13-52 | after a `P6` token, `size_t(w)*size_t(h)` pixels are read into the selected vectors, whatever the header numbers; errors are "Unsupported PPM format." or the read error (no size check in this layout) |
| ImageSoa.ReadChannels | Trabajo-Arquitectura-main/imgsoa/imagesoa.cpp:31-49 | the read loop fills the three vectors with the channels of the pixels `ReadPixelsF` reads |
| ImageSoa.ReadImageSoa | Trabajo-Arquitectura-main/imgsoa/imagesoa.cpp:13-52 | the reader builds a fresh image whose value is `ReadSoaF` of the bytes, or returns its error |
| ImageSoa.ReadSoaOfPixels | Trabajo-Arquitectura-main/imgsoa/imagesoa.cpp:30-49 | the image read holds the channels of the pixels read in the selected vectors and empty vectors of the other width |
| ImageSoa.WriteChannels | Trabajo-Arquitectura-main/imgsoa/imagesoa.cpp:65-78 | the write loop appends red, green and blue of every index below the pixel count |
| ImageSoa.WriteImageSoa | Trabajo-Arquitectura-main/imgsoa/imagesoa.cpp:55-81 | a stream that could not be opened gives the write error and nothing is written; otherwise header then samples |
| ImageSoa.ReadAfterWrite | Trabajo-Arquitectura-main/imgsoa/imagesoa.cpp:13-81 | reading back what the writer wrote restores the header numbers and the channel vectors |
| ImageSoa.PixelFormatSoa | Trabajo-Arquitectura-main/imgsoa/imagesoa.cpp:94-100 | the info line says 8-bit exactly when max ≤ 255, 16-bit exactly when 255 < max ≤ 65535, unsupported exactly when max > 65535 |
| Sorting.Sort | Trabajo-Arquitectura-main/imgaos/cutfreqaos.hpp:149 | sorting permutes its input (same multiset) |
| Sorting.SortSorted | Trabajo-Arquitectura-main/imgaos/cutfreqaos.hpp:149-154 | with a comparator that is a strict total order on the elements, the result is sorted |
| Sorting.SortedUnique | Trabajo-Arquitectura-main/imgsoa/cutfreqsoa.hpp:14-42 | two sorted permutations of the same distinct elements under a strict total order are equal, so the sort result does not depend on the sorting algorithm |
| CutFreq.Frequencies | Trabajo-Arquitectura-main/imgaos/cutfreqaos.hpp:145-147 | the frequency map has exactly the colours that occur as keys |
| CutFreq.FirstOccurrences | Trabajo-Arquitectura-main/imgsoa/cutfreqsoa.hpp:98-104 | the list of colours at their first occurrence has no repeats and holds exactly the colours that occur |
| CutFreq.CountSnoc | Trabajo-Arquitectura-main/imgsoa/cutfreqsoa.hpp:102-103 | one more pixel increments its colour's count and appends the colour to the list iff it was unseen (`color_frequencies[code]++ == 0`) |
| CutFreq.BeforeIsStrictTotal | Trabajo-Arquitectura-main/imgaos/cutfreqaos.hpp:149-154 | the comparator (frequency ascending, then blue, green, red descending) is a strict total order on frequency entries |
| CutFreq.RankingIsSortedEntries | Trabajo-Arquitectura-main/imgaos/cutfreqaos.hpp:148-154 | the ranking is sorted by the comparator and holds exactly each occurring colour with its count |
| CutFreq.RankingUnique | Trabajo-Arquitectura-main/imgaos/cutfreqaos.hpp:148-154 | any sorted sequence of exactly those entries is the ranking |
| CutFreq.RemoveCount | Trabajo-Arquitectura-main/imgaos/cutfreqaos.hpp:156-157 | the number removed is `min(n, number of distinct colours)` |
| CutFreq.RankedColorsAreDistinctColors | Trabajo-Arquitectura-main/imgaos/cutfreqaos.hpp:148 | the ranked colours are the image's colours, each once |
| CutFreq.RemovedKeptPartition | Trabajo-Arquitectura-main/imgaos/cutfreqaos.hpp:161-165 | every colour is either removed or kept, never both, and the kept list has no repeats |
| CutFreq.RemovedAreLeastFrequent | Trabajo-Arquitectura-main/imgaos/cutfreqaos.hpp:149-165 | every removed colour occurs at most as often as every kept colour |
| CutFreq.ReplaceLeavesKeptColors | Trabajo-Arquitectura-main/imgaos/cutfreqaos.hpp:170-175 | after replacement by a replacement map of the cut, every pixel has a kept colour (the image is unchanged when nothing is kept), and equal colours stay equal |
| CutFreq.ReplaceKeepsFit | Trabajo-Arquitectura-main/imgaos/cutfreqaos.hpp:170-175 | replacing colours keeps every channel within the width |
| CutFreq.ReplaceByIdentity | Trabajo-Arquitectura-main/imgaos/cutfreqaos.hpp:170-175 | a map that sends each colour to itself changes no pixel |
| CutFreq.ReplaceIsCutResult | Trabajo-Arquitectura-main/imgaos/cutfreqaos.hpp:170-175 | applying a replacement map of the cut leaves kept colours alone, gives each pixel of a removed colour a nearest kept colour (or its own when nothing is kept), and gives pixels of one colour one colour |
| CutFreq.CutResultIsReplace | Trabajo-Arquitectura-main/imgaos/cutfreqaos.hpp:170-175 | conversely, pixels with that per-pixel effect are the pixels after some replacement map of the cut, so the two descriptions of the cut agree |
| CutFreq.CutOfAllColorsKeepsPixels | Trabajo-Arquitectura-main/imgsoa/cutfreqsoa.hpp:107-110 | when every colour is removed nothing is kept and the pixels are left as they are |
| KdTree.DistanceBelowDblMax | Trabajo-Arquitectura-main/imgaos/cutfreqaos.hpp:133 | every squared colour distance is below `DBL_MAX`, so the first candidate always improves the initial minimum |
| KdTree.NthElement | Trabajo-Arquitectura-main/imgaos/cutfreqaos.hpp:59-66 | `nth_element` on `[left, right)` rearranges only that range and puts at `mid` an element no smaller than those before it and no larger than those after it on the axis |
| KdTree.BuildKdTree | Trabajo-Arquitectura-main/imgaos/cutfreqaos.hpp:52-71 | building rearranges only `[left, right)` and leaves it a k-d tree: at each median, the lower half is at most and the upper half at least the median on the level's axis (depth mod 3) |
| KdTree.PruneFarSide | Trabajo-Arquitectura-main/imgaos/cutfreqaos.hpp:103-117 | when the squared plane distance is not below the current minimum, no point on the far side of the plane is closer |
| KdTree.VisitPivot | Trabajo-Arquitectura-main/imgaos/cutfreqaos.hpp:90-95 | visiting the median keeps or improves the best so far and leaves nothing at the median closer |
| KdTree.NearestNeighbor | Trabajo-Arquitectura-main/imgaos/cutfreqaos.hpp:83-118 | the pruned search returns a best that improves the one given and that no point of `[left, right)` beats |
| CutFreqAos.CountFrequencies | Trabajo-Arquitectura-main/imgaos/cutfreqaos.hpp:145-147 | the counting loop yields the frequency of every colour |
| CutFreqAos.FrequencyVector | Trabajo-Arquitectura-main/imgaos/cutfreqaos.hpp:148 | the vector built from the map holds each (colour, count) entry once |
| CutFreqAos.SortedFrequencyVectorIsRanking | Trabajo-Arquitectura-main/imgaos/cutfreqaos.hpp:148-154 | sorting that vector with the comparator yields the ranking, whatever the map's iteration order |
| CutFreqAos.SelectRemoved | Trabajo-Arquitectura-main/imgaos/cutfreqaos.hpp:161-162 | the remove set is the colours of the first `count` ranked entries |
| CutFreqAos.SelectKept | Trabajo-Arquitectura-main/imgaos/cutfreqaos.hpp:164-165 | the keep vector is the colours of the remaining entries, in rank order |
| CutFreqAos.SplitColors | Trabajo-Arquitectura-main/imgaos/cutfreqaos.hpp:145-165 | counting, sorting and splitting at `min(size_t(n), colours)` yields the removed set and kept list of the cut |
| CutFreqAos.SearchTree | Trabajo-Arquitectura-main/imgaos/cutfreqaos.hpp:133-136 | a search from `DBL_MAX` finds a nearest tree colour, or returns the target when the tree is empty |
| CutFreqAos.SearchFindsNearest | Trabajo-Arquitectura-main/imgaos/cutfreqaos.hpp:133-136 | a best that no tree point beats, reached from the target at `DBL_MAX`, is a nearest tree colour |
| CutFreqAos.FindNearestColorsAsWritten | Trabajo-Arquitectura-main/imgaos/cutfreqaos.hpp:121-140 | as written, after building the tree the map sends every removed colour to itself |
| CutFreqAos.AsWrittenMapIsNotNearest | Trabajo-Arquitectura-main/imgaos/cutfreqaos.hpp:133-138 | on a concrete cut (red removed, green, yellow and white kept) the as-written map keeps red where the nearest kept colour is another |
| CutFreqAos.FindNearestColors | Trabajo-Arquitectura-main/imgaos/cutfreqaos.hpp:121-140 | with the search result stored, the map is a replacement map: each removed colour goes to a nearest kept colour (to itself when nothing is kept); the keep vector is only rearranged |
| CutFreqAos.ReplacePixels | Trabajo-Arquitectura-main/imgaos/cutfreqaos.hpp:170-175 | each pixel found in the map takes its image; others are unchanged |
| CutFreqAos.RemoveColors | Trabajo-Arquitectura-main/imgaos/cutfreqaos.hpp:143-176 | the pixels are rewritten by a replacement map of the cut of `min(size_t(n), colours)` least frequent colours; equivalently, kept colours stay and each removed colour goes to a nearest kept colour |
| CutFreqAos.RemoveColorsAsWritten | Trabajo-Arquitectura-main/imgaos/cutfreqaos.hpp:143-176 | as written, the pixels come out unchanged |
| CutFreqAos.BlackOut | Trabajo-Arquitectura-main/imgaos/cutfreqaos.cpp:9-21 | every pixel becomes (0, 0, 0); the vector keeps its length |
| CutFreqAos.RemoveLeastFrequentColors | Trabajo-Arquitectura-main/imgaos/cutfreqaos.cpp:4-30 | when `size_t(n) >= size_t(w)*size_t(h)` the active vector is blacked out, otherwise it is cut by the corrected `removeColors` (see Findings); header and inactive vector are unchanged |
| CutFreqSoa.CodesEncode | Trabajo-Arquitectura-main/imgsoa/cutfreqsoa.hpp:99-101 | the packed codes of an image's colours stand for those colours: each decodes to its colour, and equal colours have equal codes |
| CutFreqSoa.CodeCount | Trabajo-Arquitectura-main/imgsoa/cutfreqsoa.hpp:98-104 | a code occurs as often among the codes as its colour among the pixels |
| CutFreqSoa.CountColors | Trabajo-Arquitectura-main/imgsoa/cutfreqsoa.hpp:98-104 | the counting loop yields the code frequencies and the codes in first-occurrence order |
| CutFreqSoa.CodeBeforeIsStrictTotal | Trabajo-Arquitectura-main/imgsoa/cutfreqsoa.hpp:14-42 | `sortColors`' comparator is a strict total order on the image's distinct codes |
| CutFreqSoa.SortedCodesAreRanking | Trabajo-Arquitectura-main/imgsoa/cutfreqsoa.hpp:106 | sorting the code list gives the codes of the ranking, entry by entry: the same order as the AOS layout |
| CutFreqSoa.FindNearestColors | Trabajo-Arquitectura-main/imgsoa/cutfreqsoa.hpp:44-81 | the map has exactly the removed codes as keys, each sent to a kept code at least squared distance (to itself when nothing is kept) |
| CutFreqSoa.ClosestKept | Trabajo-Arquitectura-main/imgsoa/cutfreqsoa.hpp:58-78 | the linear scan from `DBL_MAX` ends on a kept code at least distance, or on the removed code itself when nothing is kept |
| CutFreqSoa.ReplaceColors | Trabajo-Arquitectura-main/imgsoa/cutfreqsoa.hpp:111-124 | each index whose code is removed takes the unpacked channels of its replacement; every other index is unchanged |
| CutFreqSoa.Fill | Trabajo-Arquitectura-main/imgsoa/cutfreqsoa.hpp:90-92 | `std::fill` sets every entry to 0 and keeps the length |
| CutFreqSoa.CodeCutIsCut | Trabajo-Arquitectura-main/imgsoa/cutfreqsoa.hpp:106-124 | removing the codes of the first ranked colours, each mapped to a nearest kept code, rewrites the colours as a replacement map of the cut does |
| CutFreqSoa.RemoveColors | Trabajo-Arquitectura-main/imgsoa/cutfreqsoa.hpp:83-125 | when `size_t(n)` exceeds the pixel count all three vectors become 0; otherwise the colours are rewritten by a replacement map of the cut of `min(n, colours)` least frequent colours, stated also pixel by pixel without the map; lengths never change |
| CutFreqSoa.RemoveLeastFrequentColors | Trabajo-Arquitectura-main/imgsoa/cutfreqsoa.cpp:3-11 | the vectors the maximum selects are cut as above; header and the other three vectors are unchanged |
| Compress.IndexMap | Trabajo-Arquitectura-main/imgaos/compressaos.hpp:29-40 | the colour map has exactly the palette colours as keys, each mapped to its palette position |
| Compress.IndexMapInverse | Trabajo-Arquitectura-main/imgaos/compressaos.hpp:29-40 | the palette entry at a colour's index is that colour |
| Compress.IndexMapSnoc | Trabajo-Arquitectura-main/imgaos/compressaos.hpp:33-36 | a new colour gets the next index and the others keep theirs |
| Compress.HeaderC6 | Trabajo-Arquitectura-main/imgaos/compressaos.cpp:5-8 | the header `C6 w h max n\n` is plain ASCII text |
| Compress.IndexWidth | Trabajo-Arquitectura-main/imgaos/compressaos.cpp:37-45 | the index width is the smallest of 1, 2 and (on the 16-bit path) 4 bytes whose range holds the palette; none exactly when the palette exceeds 65536 colours (8-bit path) or 2^32 (16-bit path) |
| Compress.Narrow | Trabajo-Arquitectura-main/imgaos/compressaos.hpp:47 | `static_cast<IndexType>` of an index is below the type's range and leaves an index within range unchanged |
| Compress.EncodeIndicesLength | Trabajo-Arquitectura-main/imgaos/compressaos.hpp:43-50 | the index data is the index width times the pixel count long |
| Compress.DecodeEncodeIndices | Trabajo-Arquitectura-main/imgaos/compressaos.hpp:43-50 | the indices written for pixels whose colours are in the palette read back, through the palette, as those pixels |
| Compress.PaletteFits | Trabajo-Arquitectura-main/imgaos/compressaos.hpp:29-40 | palette colours fit the channel width of the image |
| Compress.CompressedParts | Trabajo-Arquitectura-main/imgaos/compressaos.cpp:11-46 | the C6 output is the header, then the palette (distinct colours in first-occurrence order), then (unless too large) the pixels' indices, each part reading back; the error is raised after header and palette are written |
| CompressAos.GenerateColorTable | Trabajo-Arquitectura-main/imgaos/compressaos.hpp:29-40 | the loop appends the first occurrences of the pixels' colours to the table and maps each to its table position |
| CompressAos.WriteColorTable | Trabajo-Arquitectura-main/imgaos/compressaos.hpp:19-26 | appends red, green and blue of every table colour at channel width; on a stream that refuses writes nothing is written and a non-empty table fails with "Failed to write binary data." |
| CompressAos.WritePixelIndices | Trabajo-Arquitectura-main/imgaos/compressaos.hpp:43-50 | appends the narrowed index of every pixel's colour, little-endian; on a stream that refuses writes nothing is written and any pixel makes it fail with "Failed to write binary data." |
| CompressAos.WriteHeader | Trabajo-Arquitectura-main/imgaos/compressaos.cpp:5-8 | appends the `C6` header text with the image's numbers and the table size, or nothing on a stream that refuses writes |
| CompressAos.WriteHeaderAndTable | Trabajo-Arquitectura-main/imgaos/compressaos.cpp:15-16 | the header text then the table's samples; on a stream that refuses writes, nothing, and the table's write error unless the table is empty |
| CompressAos.WriteIndices | Trabajo-Arquitectura-main/imgaos/compressaos.cpp:36-45 | the indices at 1 byte up to 256 colours, 2 bytes up to 65536, 4 bytes up to 2^32 when allowed; otherwise `tooLarge` with nothing more written |
| CompressAos.ProcessPixels | Trabajo-Arquitectura-main/imgaos/compressaos.cpp:11-46 | on a good stream appends exactly `CompressF` of the pixels and returns its outcome; on a stream that refuses writes nothing is written and the outcome is "Failed to write binary data." unless there are no pixels |
| CompressAos.ComposeProcessPixels | Trabajo-Arquitectura-main/imgaos/compressaos.cpp:11-46 | header and palette followed by the indices (or by nothing, when no index width fits) is `CompressF`; after a refused write nothing is written |
| CompressAos.ProcessSmallPixelImage | Trabajo-Arquitectura-main/imgaos/compressaos.cpp:11-26 | appends the C6 encoding of `sPixels` with 1- or 2-byte indices, failing with "Color table too large for SmallPixel format." above 65536 colours; on a stream that refuses writes nothing is written and a non-empty image fails with "Failed to write binary data." |
| CompressAos.ProcessLargePixelImage | Trabajo-Arquitectura-main/imgaos/compressaos.cpp:29-46 | appends the C6 encoding of `lPixels` with 1-, 2- or 4-byte indices, failing with "Color table too large for LargePixel format." above 2^32 colours; on a stream that refuses writes nothing is written and a non-empty image fails with "Failed to write binary data." |
| CompressAos.WriteCppm | Trabajo-Arquitectura-main/imgaos/compressaos.cpp:49-59 | on a good stream appends exactly `CompressAosF` of the image (the small path iff max ≤ 255); the open is never checked, so on a stream that could not be opened nothing is written and a non-empty image fails with "Failed to write binary data." |
| CompressAos.CompressAosOfActive | Trabajo-Arquitectura-main/imgaos/compressaos.cpp:49-59 | compression fails exactly when the active vector has more distinct colours than the widest allowed index covers |
| CompressSoa.GenerateColorTable | Trabajo-Arquitectura-main/imgsoa/compresssoa.hpp:64-79 | the loop appends the channels of each first-seen tuple to the palette vectors and maps the tuple to its position |
| CompressSoa.WriteColorTable | Trabajo-Arquitectura-main/imgsoa/compresssoa.hpp:38-53 | appends the three channels of every palette entry at channel width |
| CompressSoa.WritePixelIndices | Trabajo-Arquitectura-main/imgsoa/compresssoa.hpp:82-91 | appends the narrowed palette index of every tuple, little-endian |
| CompressSoa.WriteHeader | Trabajo-Arquitectura-main/imgsoa/compresssoa.cpp:8-11 | appends the `C6` header text |
| CompressSoa.ProcessSmallPixelImage | Trabajo-Arquitectura-main/imgsoa/compresssoa.cpp:14-32 | appends the C6 encoding of the `uint8_t` vectors, failing with "Color table too large for 1-byte component format." above 65536 colours |
| CompressSoa.ProcessLargePixelImage | Trabajo-Arquitectura-main/imgsoa/compresssoa.cpp:35-55 | appends the C6 encoding of the `uint16_t` vectors, failing with "Color table too large for 2-byte component format." above 2^32 colours |
| CompressSoa.WriteCppm | Trabajo-Arquitectura-main/imgsoa/compresssoa.cpp:58-71 | a stream that could not be opened is "Error opening file for writing." with nothing written; otherwise exactly `CompressSoaF` is appended |
| CompressSoa.SameCompressionInBothLayouts | Trabajo-Arquitectura-main/imgsoa/compresssoa.cpp:14-55 | both layouts compress the same picture to the same bytes and fail on the same inputs |
| MaxLevel.Rescale | Trabajo-Arquitectura-main/imgaos/maxlevelaos.cpp:9-10 | `(v*newMax)/oldMax` is the largest `r` with `r*oldMax <= v*newMax` |
| MaxLevel.CastChannel | Trabajo-Arquitectura-main/imgaos/maxlevelaos.cpp:9-10 | the cast to `uint8_t`/`uint16_t` keeps a value in range and otherwise keeps its low bits |
| MaxLevel.RescaleMapsRange | Trabajo-Arquitectura-main/imgaos/maxlevelaos.cpp:9-14 | 0 maps to 0, the old maximum to the new maximum, values within the old maximum to values within the new one, and order is kept |
| MaxLevel.ScalePixelInRange | Trabajo-Arquitectura-main/imgaos/maxlevelaos.cpp:9-14 | for channels within the old maximum and a new maximum that fits the channel type, each channel is exactly rescaled with no wrap |
| MaxLevel.Resized | Trabajo-Arquitectura-main/imgaos/maxlevelaos.cpp:6 | `resize(count)` keeps the first entries and pads with zero-valued ones |
| MaxLevel.ScaledChannelsAreScaledPixels | Trabajo-Arquitectura-main/imgsoa/maxlevelsoa.cpp:6-54 | scaling three channel vectors gives the channels of the scaled pixels |
| MaxLevelAos.ScaleVector | Trabajo-Arquitectura-main/imgaos/maxlevelaos.cpp:6-15 | the resize-and-assign loop yields exactly the `count` scaled pixels |
| MaxLevelAos.ScaleSmallToLarge | Trabajo-Arquitectura-main/imgaos/maxlevelaos.cpp:5-16 | `lPixels` of the scaled image becomes the scaled `sPixels`; nothing else of it changes |
| MaxLevelAos.ScaleLargeToSmall | Trabajo-Arquitectura-main/imgaos/maxlevelaos.cpp:19-30 | `sPixels` of the scaled image becomes the scaled `lPixels`; nothing else changes |
| MaxLevelAos.ScaleSmallToSmall | Trabajo-Arquitectura-main/imgaos/maxlevelaos.cpp:33-44 | `sPixels` becomes the scaled `sPixels`; nothing else changes |
| MaxLevelAos.ScaleLargeToLarge | Trabajo-Arquitectura-main/imgaos/maxlevelaos.cpp:47-58 | `lPixels` becomes the scaled `lPixels`; nothing else changes |
| MaxLevelAos.MaxLevelAosF | Trabajo-Arquitectura-main/imgaos/maxlevelaos.cpp:61-88 | fails with "Maximum value not valid." exactly when the new maximum is ≤ 0 or > 65536; otherwise the image has the same size, the new maximum and `w*h` scaled pixels in the vector the new maximum selects |
| MaxLevelAos.MaxLevelImageAos | Trabajo-Arquitectura-main/imgaos/maxlevelaos.cpp:61-88 | the method returns a fresh image whose value, or its error, is `MaxLevelAosF` |
| MaxLevelAos.MaxLevelAosKeepsRange | Trabajo-Arquitectura-main/imgaos/maxlevelaos.cpp:61-88 | for a new maximum up to 65535 each channel is rescaled exactly and stays within the new maximum; black stays black and the old maximum reaches the new one |
| MaxLevelAos.WhiteWrapsToBlackAt65536 | Trabajo-Arquitectura-main/imgaos/maxlevelaos.hpp:11 | 65536 is accepted as a new maximum, and a white 8-bit pixel then becomes black |
| MaxLevelSoa.SourceChannels | Trabajo-Arquitectura-main/imgsoa/maxlevelsoa.cpp:68 | the vectors read are those the old maximum selects |
| MaxLevelSoa.ScaledChannels | Trabajo-Arquitectura-main/imgsoa/maxlevelsoa.cpp:6-54 | three vectors of the pixel count, each entry within the channel width |
| MaxLevelSoa.ResizeAndRecalculateToOneByte | Trabajo-Arquitectura-main/imgsoa/maxlevelsoa.cpp:6-28 | the `uint8_t` vectors of the new image become the scaled source vectors; nothing else changes |
| MaxLevelSoa.ResizeAndRecalculateToTwoBytes | Trabajo-Arquitectura-main/imgsoa/maxlevelsoa.cpp:31-54 | the `uint16_t` vectors of the new image become the scaled source vectors; nothing else changes |
| MaxLevelSoa.MaxLevelSoaF | Trabajo-Arquitectura-main/imgsoa/maxlevelsoa.cpp:57-79 | fails with "Maximum value not valid." exactly when the new maximum is ≤ 0 or > 65535; otherwise same size, new maximum, scaled vectors of the new width and empty vectors of the other |
| MaxLevelSoa.MaxLevelImageSoa | Trabajo-Arquitectura-main/imgsoa/maxlevelsoa.cpp:57-79 | the method returns a fresh image whose value, or its error, is `MaxLevelSoaF` |
| MaxLevelSoa.SameMaxLevelInBothLayouts | Trabajo-Arquitectura-main/imgsoa/maxlevelsoa.cpp:58 | the SOA layout refuses what the AOS layout refuses and 65536 besides; otherwise both give the same scaled colours |
| ProgArgs.Stoi | Trabajo-Arquitectura-main/common/progargs.cpp:80 | `std::stoi` yields an `int` or throws (no digits, or out of range) |
| ProgArgs.StoiOfIntToString | Trabajo-Arquitectura-main/common/progargs.cpp:80-82 | `std::stoi` reads back every `int` that `std::to_string` writes |
| ProgArgs.ExtraArguments | Trabajo-Arquitectura-main/common/progargs.cpp:51-53 | the extra arguments are those from `index` on |
| ProgArgs.SpacedAppend | Trabajo-Arquitectura-main/common/progargs.cpp:51-53 | listing two runs of arguments one after the other is listing their concatenation |
| ProgArgs.ExtraArgumentsError | Trabajo-Arquitectura-main/common/progargs.cpp:49-56 | the loop builds "Invalid extra arguments for op: " followed by each extra argument and a space |
| ProgArgs.OneExtraArgument | Trabajo-Arquitectura-main/common/progargs.cpp:49-56 | with one extra argument the message names exactly that argument |
| ProgArgs.ValidateArgsExtra | Trabajo-Arquitectura-main/common/progargs.cpp:58-62 | passes exactly when there are no arguments beyond `index`; otherwise the extra-arguments message |
| ProgArgs.ArgsCountError | Trabajo-Arquitectura-main/common/progargs.cpp:64-72 | the message names the operation and the number of arguments beyond the fourth |
| ProgArgs.ValidateMaxLevelF | Trabajo-Arquitectura-main/common/progargs.cpp:74-89 | accepts exactly five arguments whose last parses to 1..65535, and returns it; otherwise "Invalid maxlevel: " with the number or, when unparsable, the raw text |
| ProgArgs.ValidateCutFreqF | Trabajo-Arquitectura-main/common/progargs.cpp:112-127 | accepts exactly five arguments whose last parses to at least 1 (no upper bound); otherwise "Invalid cutfreq: " with the number or the raw text |
| ProgArgs.ValidateResizeF | Trabajo-Arquitectura-main/common/progargs.cpp:91-110 | accepts exactly six arguments whose width and height parse to positive numbers; width is checked before height, and an unparsable value gives "Invalid resize parameters: w, h" |
| ProgArgs.ParseArgsF | Trabajo-Arquitectura-main/common/progargs.cpp:18-42 | on success the input, output and operation are `argv[1..3]`, the operation's values are in range and the unused fields are -1; resize's height is read at the corrected index 5 (see Findings); fewer than four arguments and unknown operations are errors |
| ProgArgs.ValidateMaxLevel | Trabajo-Arquitectura-main/common/progargs.cpp:74-89 | the method fails or passes as `ValidateMaxLevelF` and changes only `max_level` |
| ProgArgs.ValidateCutFreq | Trabajo-Arquitectura-main/common/progargs.cpp:112-127 | the method fails or passes as `ValidateCutFreqF` and changes only `max_level` |
| ProgArgs.ValidateResize | Trabajo-Arquitectura-main/common/progargs.cpp:91-110 | the method fails or passes as `ValidateResizeF` with the height at index 5, and changes only width and height |
| ProgArgs.ParseArgs | Trabajo-Arquitectura-main/common/progargs.cpp:18-42 | the method returns a fresh argument record whose value, or its error, is `ParseArgsF` (resize's height at the corrected index 5) |
| ProgArgs.MaxLevelCommandLine | Trabajo-Arquitectura-main/common/progargs.cpp:74-89 | `prog in out maxlevel m` is accepted with level `m` exactly when 1 ≤ m ≤ 65535, and rejected with "Invalid maxlevel: m" otherwise |
| ProgArgs.CutFreqCommandLine | Trabajo-Arquitectura-main/common/progargs.cpp:112-127 | `prog in out cutfreq n` is accepted with `n` exactly when n ≥ 1 |
| ProgArgs.ResizeCommandLine | Trabajo-Arquitectura-main/common/progargs.cpp:91-110 | with the height read from the sixth argument, `resize w h` gives width `w` and height `h`, or the width error first, then the height error |
| ProgArgs.ResizeAsWrittenReadsWidthTwice | Trabajo-Arquitectura-main/common/progargs.cpp:10-11 | with `HEIGHT_INDEX` = 4 every accepted resize has height equal to width: `resize 640 480` gives 640 by 640 and `resize 10 -50` is accepted as 10 by 10 |

## Left out

- File names and opening are left out. The readers take the file's bytes. The writers take an output stream whose failed state stands for a file that could not be opened. So the open failure of `readImageAOS`/`readImageSOA` ("Error opening the PPM file.") is not modelled. The open check of the SOA `write_cppm`, and the unchecked open of the AOS `write_cppm` (whose first sample write then throws), are modelled through that failed state.
- Printing to `std::cout`/`std::cerr`, `printErrorAndExit` and `std::exit` are left out. Each is an error value carrying the message that would be printed. `infoImageAOS`/`infoImageSOA` are modelled only through their pixel-format line (`PixelFormatAos`, `PixelFormatSoa`).
- The resize operation (`resizeaos.*`, `resizesoa.*`) is not part of this model: it is floating-point interpolation.
- The `run_operationaos`/`run_operationsoa` dispatchers and both `main.cpp` files are not part of this model. They only route arguments. This also leaves out that the AOS dispatcher writes the unresized image after a resize (imgaos/imageaos.cpp:114-115).
- The `std::hash` specialisations are left out. Hash containers are Dafny maps and sets, and their iteration order is a free choice. Every contract holds for any order.
- `std::stoi` is modelled as optional blanks, an optional sign and the longest run of digits. Locale handling and other bases are left out.
- Header parsing reads the blank-separated tokens and numbers that `>>` reads. It is proved against the single-space and newline layout the writers produce, not against arbitrary whitespace or comments.
- 16-bit samples are stored in host byte order. The model fixes that order as little-endian; the Netpbm PPM format itself asks for most significant byte first.
- Floating-point storage is left out. Squared distances and `DBL_MAX` are exact natural numbers, which the squares of channel differences always are. The `std::round` of an already-integral quotient in maxlevel changes nothing and is not modelled.
- MaxLevelAos.MaxLevelAosF: requires `channel * newMax` to fit an `int` for every pixel read (`Scalable`), so it does not model the `int` overflow of the product for 16-bit inputs (65535 × 65535 overflows).
- MaxLevelSoa.MaxLevelSoaF: requires the same product bound (`ScalableSoa`), for the same reason.
- MaxLevelSoa.MaxLevelSoaF: `ScalableSoa` also requires the old maximum to be at least 1. The SOA reader does not check the maximum, so it accepts 0 and negative values. With 0 the scaling loops (imgsoa/maxlevelsoa.cpp:13-18) divide an `int` by zero, which C++ leaves undefined. A negative maximum has a defined, truncating result that is not modelled. The AOS reader rejects both, which is what the code evidently intends.
- MaxLevelSoa.MaxLevelImageSoa: carries the same requirement on the old maximum, for the same reason.
- MaxLevel.CastChannel: a value out of range for `uint8_t`/`uint16_t` keeps its low bits. C++ leaves that conversion of a floating value undefined; the low bits are what common compilers produce.
- ImageSoa.ReadSoaF: the model reads `size_t(w)*size_t(h)` pixels and reports the read error when the file holds fewer. The real `resize` (imgsoa/imagesoa.cpp:32-34, 41-43) first allocates that many entries. For a product above `max_size()` it throws `std::length_error`; a negative dimension such as `P6 -1 2 255` makes it 2^64 - 2. A product that cannot be allocated throws `std::bad_alloc`. Neither exception is modelled; the model reports the read error for those inputs.
- ImageSoa.ReadImageSoa: the same allocation failure is not modelled, for the same reason.
- CutFreqSoa.RemoveColors: requires `|red| <= INT_MAX`, so it does not model the `(int)` cast of a colour-list size above `INT_MAX`.
- CutFreqSoa.RemoveLeastFrequentColors: carries the same requirement on the pixel count, for the same reason.
- CutFreqAos.RemoveColors and CutFreqSoa.RemoveColors return the replacement map they applied as a ghost value. Which nearest colour wins a tie depends on hash iteration order, so the contract states that some nearest kept colour is chosen, not which one.
- `KDTreeSearchContext` holds a copy of the tree (imgaos/cutfreqaos.hpp:26). The search method reads the tree as a sequence and takes the best-so-far in and out, so that copy is not modelled.

## Findings

| source | as written | input that shows it | evidently intended | confidence | as-written member | corrected member |
|---|---|---|---|---|---|---|
| Trabajo-Arquitectura-main/imgaos/cutfreqaos.hpp:133-138 | `FindNearestColors` stores the local `nearest_color`, which still holds `color_remove`; the k-d search updated only the context's copy. The replacement map is therefore the identity, and the AOS `cutfreq` never changes a pixel. | An image of red, green, yellow and white, with red removed: red is mapped to red, not to its nearest kept colour, yellow. | Store `context.nearest`, the nearest kept colour found by the search. The unit tests expect this. | high (not executed) | CutFreqAos.FindNearestColorsAsWritten, CutFreqAos.RemoveColorsAsWritten, CutFreqAos.AsWrittenMapIsNotNearest | CutFreqAos.FindNearestColors, CutFreqAos.RemoveColors, CutFreqAos.RemoveLeastFrequentColors |
| Trabajo-Arquitectura-main/common/progargs.cpp:10-11 | `HEIGHT_INDEX` is 4, the same as the width index, so the resize height is parsed from the width argument. | `prog in out resize 640 480` gives 640 by 640, and `resize 10 -50` is accepted. | `HEIGHT_INDEX` = 5, the sixth argument. The unit tests expect this. | high (not executed) | ProgArgs.ResizeAsWrittenReadsWidthTwice | ProgArgs.ResizeCommandLine |
