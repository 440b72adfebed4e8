/**
 * imgaos/compressaos.hpp and imgaos/compressaos.cpp: writing the array-of-structures image in
 * the compact "C6" format. The colour table is built with a `std::map` from colour to index;
 * the output file is an `OutputStream`, which refuses every write when the file could not be
 * opened.
 */
module CompressAos {
  import opened Pixels
  import opened Results
  import opened Sorting
  import opened Streams
  import opened BinaryIo
  import opened Ppm
  import opened CutFreq
  import opened ImageAos
  import opened Compress

  const SMALL_TOO_LARGE: string := "Color table too large for SmallPixel format."
  const LARGE_TOO_LARGE: string := "Color table too large for LargePixel format."

  /**
   * `generate_color_table`: every colour not seen before gets the next free index and is
   * appended to `uniqueColors`; the map holds only the colours of `pixels`.
   */
  method GenerateColorTable(pixels: seq<Pixel>, uniqueColors: seq<Pixel>)
    returns (colorMap: map<Pixel, nat>, unique: seq<Pixel>)
    ensures unique == uniqueColors + FirstOccurrences(pixels)
    ensures colorMap == IndexMap(FirstOccurrences(pixels), |uniqueColors|)
  {
    colorMap, unique := map[], uniqueColors;
    for i := 0 to |pixels|
      invariant unique == uniqueColors + FirstOccurrences(pixels[..i])
      invariant colorMap == IndexMap(FirstOccurrences(pixels[..i]), |uniqueColors|)
    {
      var pixel := pixels[i];
      if pixel !in colorMap {
        NewPixelStep(pixels, i, uniqueColors, unique, colorMap);
        colorMap := colorMap[pixel := |unique|];
        unique := unique + [pixel];
      } else {
        SeenPixelStep(pixels, i, uniqueColors, unique, colorMap);
      }
    }
    assert pixels[..|pixels|] == pixels;
  }

  /** A pixel whose colour is not in the map is appended to the table and gets the next index. */
  lemma NewPixelStep(pixels: seq<Pixel>, i: nat, uniqueColors: seq<Pixel>, unique: seq<Pixel>,
                     colorMap: map<Pixel, nat>)
    requires i < |pixels| && unique == uniqueColors + FirstOccurrences(pixels[..i])
    requires colorMap == IndexMap(FirstOccurrences(pixels[..i]), |uniqueColors|) && pixels[i] !in colorMap
    ensures unique + [pixels[i]] == uniqueColors + FirstOccurrences(pixels[..i + 1])
    ensures colorMap[pixels[i] := |unique|] == IndexMap(FirstOccurrences(pixels[..i + 1]), |uniqueColors|)
  {
    var seen := FirstOccurrences(pixels[..i]);
    assert pixels[i] !in seen by {
      assert colorMap.Keys == set c | c in seen;
    }
    FirstOccurrencesSnoc(pixels, i);
    AppendAssoc(uniqueColors, seen, [pixels[i]]);
    IndexMapSnoc(seen, |uniqueColors|, pixels[i]);
  }

  /** A pixel whose colour is already in the map changes neither the table nor the map. */
  lemma SeenPixelStep(pixels: seq<Pixel>, i: nat, uniqueColors: seq<Pixel>, unique: seq<Pixel>,
                      colorMap: map<Pixel, nat>)
    requires i < |pixels| && unique == uniqueColors + FirstOccurrences(pixels[..i])
    requires colorMap == IndexMap(FirstOccurrences(pixels[..i]), |uniqueColors|) && pixels[i] in colorMap
    ensures unique == uniqueColors + FirstOccurrences(pixels[..i + 1])
    ensures colorMap == IndexMap(FirstOccurrences(pixels[..i + 1]), |uniqueColors|)
  {
    FirstOccurrencesSnoc(pixels, i);
  }

  /**
   * `write_color_table`: the three samples of every colour, in table order. On a stream that
   * refuses writes the first `write_binary` throws, so a non-empty table fails with nothing written.
   */
  method WriteColorTable(output: OutputStream, colors: seq<Pixel>, bytes: nat) returns (outcome: Outcome)
    requires (bytes == 1 || bytes == 2) && AllFit(colors, bytes)
    modifies output
    ensures output.bad == old(output.bad)
    ensures outcome == if output.bad && colors != [] then Fail(WRITE_ERROR) else Pass
    ensures output.bytes == if output.bad then old(output.bytes) else old(output.bytes) + EncodePixels(colors, bytes)
  {
    ghost var start := output.bytes;
    outcome := Pass;
    for i := 0 to |colors|
      invariant output.bad == old(output.bad) && (output.bad ==> i == 0) && outcome == Pass
      invariant output.bytes == if output.bad then start else start + EncodePixels(colors[..i], bytes)
    {
      ghost var written := EncodePixels(colors[..i], bytes);
      outcome := WritePixel(output, colors[i], bytes);
      if outcome.Fail? {
        return;
      }
      AppendAssoc(start, written, EncodePixel(colors[i], bytes));
      EncodePixelsSnoc(colors[..i], colors[i], bytes);
      PrefixSnoc(colors, i);
    }
    assert colors[..|colors|] == colors;
  }

  /**
   * `write_pixel_indices<PixelType, IndexType>`: for every pixel, its colour's index cast to the
   * `width`-byte unsigned index type, written little-endian; the first refused write throws.
   */
  method WritePixelIndices(output: OutputStream, pixels: seq<Pixel>, colorMap: map<Pixel, nat>, width: nat)
    returns (outcome: Outcome)
    requires IsWidth(width)
    requires forall p | p in pixels :: p in colorMap
    modifies output
    ensures output.bad == old(output.bad)
    ensures outcome == if output.bad && pixels != [] then Fail(WRITE_ERROR) else Pass
    ensures output.bytes == if output.bad then old(output.bytes)
                            else old(output.bytes) + EncodeIndices(pixels, colorMap, width)
  {
    ghost var start := output.bytes;
    outcome := Pass;
    for i := 0 to |pixels|
      invariant output.bad == old(output.bad) && (output.bad ==> i == 0) && outcome == Pass
      invariant output.bytes == if output.bad then start else start + EncodeIndices(pixels[..i], colorMap, width)
    {
      var index := Narrow(colorMap[pixels[i]], width);
      outcome := WriteBinary(output, index, width);
      if outcome.Fail? {
        return;
      }
      IndicesStep(start, pixels, i, colorMap, width);
    }
    assert pixels[..|pixels|] == pixels;
  }

  /** `write_header`: the `C6` line with the image's header fields and the table size. */
  method WriteHeader(output: OutputStream, image: PpmImageAos, colorTableSize: nat)
    modifies output
    ensures output.bad == old(output.bad)
    ensures output.bytes == if output.bad then old(output.bytes)
                            else old(output.bytes) + AsciiBytes(HeaderC6(image.width, image.height, image.maxColorValue, colorTableSize))
  {
    output.WriteText(HeaderC6(image.width, image.height, image.maxColorValue, colorTableSize));
  }

  /**
   * The common body of `process_small_pixel_image` and `process_large_pixel_image` over the
   * vector `pixels` of `bytes`-byte channels; `allowFour` admits 4-byte indices and `tooLarge`
   * is the message thrown when no index type is wide enough. On a stream that refuses writes the
   * header is dropped and the colour table's first `write_binary` throws, unless there are no
   * pixels and so nothing to write.
   */
  method ProcessPixels(output: OutputStream, image: PpmImageAos, pixels: seq<Pixel>, bytes: nat, allowFour: bool,
                       tooLarge: string) returns (outcome: Outcome)
    requires (bytes == 1 || bytes == 2) && AllFit(pixels, bytes)
    modifies output
    ensures output.bad == old(output.bad)
    ensures !output.bad ==>
      && output.bytes == old(output.bytes) + CompressF(image.width, image.height, image.maxColorValue, pixels, bytes,
                                                allowFour, tooLarge).0
      && outcome == CompressF(image.width, image.height, image.maxColorValue, pixels, bytes, allowFour, tooLarge).1
    ensures output.bad ==>
      output.bytes == old(output.bytes) && outcome == if pixels == [] then Pass else Fail(WRITE_ERROR)
  {
    ghost var start := output.bytes;
    var colorMap, uniqueColors := GenerateColorTable(pixels, []);
    assert uniqueColors == FirstOccurrences(pixels);
    PaletteFits(pixels, bytes);
    outcome := WriteHeaderAndTable(output, image, uniqueColors, bytes);
    if outcome.Fail? {
      return;
    }
    ghost var afterTable := output.bytes;
    outcome := WriteIndices(output, pixels, colorMap, |uniqueColors|, allowFour, tooLarge);
    ComposeProcessPixels(output.bad, start, afterTable, output.bytes, image.width, image.height, image.maxColorValue,
                         pixels, bytes, allowFour, tooLarge, colorMap, outcome);
  }

  /**
   * The steps of `ProcessPixels` put together: on a good stream the header and palette, then
   * the indices, are `CompressF`; on a stream that refuses writes nothing is written.
   */
  lemma ComposeProcessPixels(bad: bool, start: seq<Byte>, afterTable: seq<Byte>, written: seq<Byte>, width: int,
                             height: int, maxColorValue: int, pixels: seq<Pixel>, bytes: nat, allowFour: bool,
                             tooLarge: string, colorMap: map<Pixel, nat>, outcome: Outcome)
    requires (bytes == 1 || bytes == 2) && AllFit(pixels, bytes)
    requires AllFit(FirstOccurrences(pixels), bytes)
    requires colorMap == IndexMap(FirstOccurrences(pixels), 0) && forall p | p in pixels :: p in colorMap
    requires var table := FirstOccurrences(pixels);
      && (bad ==> table == [] && afterTable == start)
      && (!bad ==> afterTable == start + (AsciiBytes(HeaderC6(width, height, maxColorValue, |table|))
                                          + EncodePixels(table, bytes)))
      && (IndexWidth(|table|, allowFour).None? ==> outcome == Fail(tooLarge) && written == afterTable)
      && (IndexWidth(|table|, allowFour).Some? ==>
            && outcome == (if bad && pixels != [] then Fail(WRITE_ERROR) else Pass)
            && written == if bad then afterTable
                          else afterTable + EncodeIndices(pixels, colorMap, IndexWidth(|table|, allowFour).value))
    ensures !bad ==>
      && written == start + CompressF(width, height, maxColorValue, pixels, bytes, allowFour, tooLarge).0
      && outcome == CompressF(width, height, maxColorValue, pixels, bytes, allowFour, tooLarge).1
    ensures bad ==> written == start && outcome == if pixels == [] then Pass else Fail(WRITE_ERROR)
  {
    var table := FirstOccurrences(pixels);
    if !bad {
      var prefix := HeaderAndPalette(width, height, maxColorValue, pixels, bytes);
      match IndexWidth(|table|, allowFour)
      case Some(k) =>
        AppendAssoc(start, prefix, EncodeIndices(pixels, colorMap, k));
      case None =>
    }
  }

  /**
   * `write_header` followed by `write_color_table`: the header text and the table's samples, or,
   * on a stream that refuses writes, nothing and the table's write error.
   */
  method WriteHeaderAndTable(output: OutputStream, image: PpmImageAos, colors: seq<Pixel>, bytes: nat)
    returns (outcome: Outcome)
    requires (bytes == 1 || bytes == 2) && AllFit(colors, bytes)
    modifies output
    ensures output.bad == old(output.bad)
    ensures outcome == if output.bad && colors != [] then Fail(WRITE_ERROR) else Pass
    ensures output.bytes == if output.bad then old(output.bytes)
                            else old(output.bytes) + (AsciiBytes(HeaderC6(image.width, image.height, image.maxColorValue, |colors|))
                                                      + EncodePixels(colors, bytes))
  {
    ghost var start := output.bytes;
    WriteHeader(output, image, |colors|);
    outcome := WriteColorTable(output, colors, bytes);
    AppendAssoc(start, AsciiBytes(HeaderC6(image.width, image.height, image.maxColorValue, |colors|)),
                EncodePixels(colors, bytes));
  }

  /**
   * The index-type choice of `process_small_pixel_image` and `process_large_pixel_image`: the
   * indices at the narrowest width that holds `tableSize` colours, or `tooLarge` with nothing
   * more written.
   */
  method WriteIndices(output: OutputStream, pixels: seq<Pixel>, colorMap: map<Pixel, nat>, tableSize: nat,
                      allowFour: bool, tooLarge: string) returns (outcome: Outcome)
    requires forall p | p in pixels :: p in colorMap
    modifies output
    ensures output.bad == old(output.bad)
    ensures IndexWidth(tableSize, allowFour).None? ==> outcome == Fail(tooLarge) && output.bytes == old(output.bytes)
    ensures IndexWidth(tableSize, allowFour).Some? ==>
      var k := IndexWidth(tableSize, allowFour).value;
      && outcome == (if output.bad && pixels != [] then Fail(WRITE_ERROR) else Pass)
      && output.bytes == if output.bad then old(output.bytes)
                         else old(output.bytes) + EncodeIndices(pixels, colorMap, k)
  {
    if tableSize <= MAX_INDEX_SIZE_1B {
      outcome := WritePixelIndices(output, pixels, colorMap, 1);
    } else if tableSize <= MAX_INDEX_SIZE_2B {
      outcome := WritePixelIndices(output, pixels, colorMap, 2);
    } else if allowFour && tableSize <= MAX_INDEX_SIZE_4B {
      outcome := WritePixelIndices(output, pixels, colorMap, 4);
    } else {
      outcome := Fail(tooLarge);
    }
  }

  /** `process_small_pixel_image`: `sPixels` with 1-byte samples and indices of 1 or 2 bytes. */
  method ProcessSmallPixelImage(output: OutputStream, image: PpmImageAos) returns (outcome: Outcome)
    requires image.Valid()
    modifies output
    ensures output.bad == old(output.bad)
    ensures !output.bad ==>
      && output.bytes == old(output.bytes) + CompressF(image.width, image.height, image.maxColorValue, image.sPixels, 1,
                                                false, SMALL_TOO_LARGE).0
      && outcome == CompressF(image.width, image.height, image.maxColorValue, image.sPixels, 1,
                              false, SMALL_TOO_LARGE).1
    ensures output.bad ==>
      output.bytes == old(output.bytes) && outcome == if image.sPixels == [] then Pass else Fail(WRITE_ERROR)
  {
    outcome := ProcessPixels(output, image, image.sPixels, 1, false, SMALL_TOO_LARGE);
  }

  /** `process_large_pixel_image`: `lPixels` with 2-byte samples and indices of 1, 2 or 4 bytes. */
  method ProcessLargePixelImage(output: OutputStream, image: PpmImageAos) returns (outcome: Outcome)
    modifies output
    ensures output.bad == old(output.bad)
    ensures !output.bad ==>
      && output.bytes == old(output.bytes) + CompressF(image.width, image.height, image.maxColorValue, image.lPixels, 2,
                                                true, LARGE_TOO_LARGE).0
      && outcome == CompressF(image.width, image.height, image.maxColorValue, image.lPixels, 2,
                              true, LARGE_TOO_LARGE).1
    ensures output.bad ==>
      output.bytes == old(output.bytes) && outcome == if image.lPixels == [] then Pass else Fail(WRITE_ERROR)
  {
    outcome := ProcessPixels(output, image, image.lPixels, 2, true, LARGE_TOO_LARGE);
  }

  /** What `write_cppm` writes for an image: the small path iff the maximum value is at most 255. */
  function CompressAosF(image: AosImage): (r: (seq<Byte>, Outcome))
    requires image.Valid()
  {
    if image.maxColorValue <= MAX_INTENSITY_FOR_1B then
      CompressF(image.width, image.height, image.maxColorValue, image.sPixels, 1, false, SMALL_TOO_LARGE)
    else
      CompressF(image.width, image.height, image.maxColorValue, image.lPixels, 2, true, LARGE_TOO_LARGE)
  }

  /**
   * `write_cppm`. The `std::ofstream` is never checked: when the file could not be opened the
   * stream refuses every write, nothing reaches the file, and the first sample of the colour table
   * throws "Failed to write binary data." (an image without pixels then passes).
   */
  method WriteCppm(output: OutputStream, image: PpmImageAos) returns (outcome: Outcome)
    requires image.Valid()
    modifies output
    ensures output.bad == old(output.bad)
    ensures !output.bad ==>
      output.bytes == old(output.bytes) + CompressAosF(image.Value()).0 && outcome == CompressAosF(image.Value()).1
    ensures output.bad ==>
      output.bytes == old(output.bytes) && outcome == if image.Value().Active() == [] then Pass else Fail(WRITE_ERROR)
  {
    if image.maxColorValue <= MAX_INTENSITY_FOR_1B {
      outcome := ProcessSmallPixelImage(output, image);
    } else {
      outcome := ProcessLargePixelImage(output, image);
    }
  }

  /**
   * `write_cppm` compresses the vector the maximum value selects, and fails only when its
   * distinct colours outnumber the widest index allowed: more than 65536 colours for an 8-bit
   * image, more than 2^32 for a 16-bit one. What the output then holds is `CompressedParts`.
   */
  lemma CompressAosOfActive(image: AosImage)
    requires image.Valid()
    ensures var bytes := BytesPerComponent(image.maxColorValue);
      CompressAosF(image) == CompressF(image.width, image.height, image.maxColorValue, image.Active(), bytes,
                                       bytes == 2, if bytes == 1 then SMALL_TOO_LARGE else LARGE_TOO_LARGE)
    ensures CompressAosF(image).1.Fail? <==>
              |FirstOccurrences(image.Active())| > if image.maxColorValue <= MAX_INTENSITY_FOR_1B then MAX_INDEX_SIZE_2B
                                                   else MAX_INDEX_SIZE_4B
  {
    var bytes := BytesPerComponent(image.maxColorValue);
    var ps := image.Active();
    var tooLarge := if bytes == 1 then SMALL_TOO_LARGE else LARGE_TOO_LARGE;
    CompressedParts(image.width, image.height, image.maxColorValue, ps, bytes, bytes == 2, tooLarge);
  }
}
