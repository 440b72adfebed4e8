/**
 * imgsoa/compresssoa.hpp and imgsoa/compresssoa.cpp: writing the structure-of-arrays image in
 * the compact "C6" format. The colour table is a `std::map` from `(red, green, blue)` tuples to
 * indices and the palette is kept as three parallel vectors (`AuxPixelVects`); the bytes written
 * are those of the array-of-structures writer, only the error messages differ.
 */
module CompressSoa {
  import opened Pixels
  import opened Results
  import opened Sorting
  import opened Streams
  import opened BinaryIo
  import opened Ppm
  import opened CutFreq
  import opened ImageAos
  import opened ImageSoa
  import opened Compress
  import opened CompressAos

  const SMALL_TOO_LARGE_SOA: string := "Color table too large for 1-byte component format."
  const LARGE_TOO_LARGE_SOA: string := "Color table too large for 2-byte component format."
  const OPENING_ERROR: string := "Error opening file for writing."

  /** Appending one entry to each of three parallel vectors appends one colour. */
  lemma ColorsSnoc(c: Channels, red: Channel, green: Channel, blue: Channel)
    requires c.Parallel()
    ensures var d := Channels(c.red + [red], c.green + [green], c.blue + [blue]);
      d.Parallel() && d.Colors() == c.Colors() + [Pixel(red, green, blue)]
  {
    var d := Channels(c.red + [red], c.green + [green], c.blue + [blue]);
    assert forall i | 0 <= i < |c.red| :: d.Colors()[i] == c.Colors()[i];
  }

  /** The channels of colours that all fit in `bytes` bytes fit as well. */
  lemma ChannelsFitOfColors(c: Channels, bytes: nat)
    requires c.Parallel() && AllFit(c.Colors(), bytes)
    ensures ChannelsFit(c.red, bytes) && ChannelsFit(c.green, bytes) && ChannelsFit(c.blue, bytes)
  {
    if bytes == 1 {
      forall i | 0 <= i < |c.red|
        ensures c.red[i] < 0x100 && c.green[i] < 0x100 && c.blue[i] < 0x100
      {
        assert FitsIn(c.Colors()[i], bytes);
      }
    }
  }

  /**
   * `generate_color_table`: walking the indices of the three vectors, every `(red, green, blue)`
   * tuple not seen before gets the next free index and its channels are appended to the
   * palette vectors.
   */
  method GenerateColorTable(red: seq<Channel>, green: seq<Channel>, blue: seq<Channel>, uniqueColors: Channels)
    returns (colorMap: map<Pixel, nat>, unique: Channels)
    requires |green| == |red| && |blue| == |red| && uniqueColors.Parallel()
    ensures unique.Parallel()
    ensures unique.Colors() == uniqueColors.Colors() + FirstOccurrences(ColorTuples(red, green, blue, |red|))
    ensures colorMap == IndexMap(FirstOccurrences(ColorTuples(red, green, blue, |red|)), |uniqueColors.red|)
  {
    ghost var ps := ColorTuples(red, green, blue, |red|);
    ghost var table: seq<Pixel> := [];
    colorMap, unique := map[], uniqueColors;
    for i := 0 to |red|
      invariant TableOf(ps, i, table, unique, uniqueColors, colorMap)
    {
      var color := ColorTuple(red, green, blue, i);
      assert color == ps[i];
      if color !in colorMap {
        NewColorStep(ps, i, table, unique, uniqueColors, colorMap);
        colorMap := colorMap[color := |unique.red|];
        unique := Channels(unique.red + [red[i]], unique.green + [green[i]], unique.blue + [blue[i]]);
        table := table + [color];
      } else {
        SeenColorStep(ps, i, table, unique, uniqueColors, colorMap);
      }
    }
    assert ps[..|red|] == ps;
  }

  /**
   * The loop invariant of `generate_color_table` after `i` indices: `table` holds the first
   * occurrences so far, the palette vectors hold the given ones followed by `table`, and the
   * map sends each colour of `table` to its palette position.
   */
  ghost predicate TableOf(ps: seq<Pixel>, i: nat, table: seq<Pixel>, unique: Channels, uniqueColors: Channels,
                          colorMap: map<Pixel, nat>)
  {
    && i <= |ps| && table == FirstOccurrences(ps[..i])
    && uniqueColors.Parallel() && unique.Parallel() && unique.Colors() == uniqueColors.Colors() + table
    && |unique.red| == |uniqueColors.red| + |table|
    && colorMap == IndexMap(table, |uniqueColors.red|)
  }

  /** A colour not in the map is appended to the table and the palette vectors and gets the next index. */
  lemma NewColorStep(ps: seq<Pixel>, i: nat, table: seq<Pixel>, unique: Channels, uniqueColors: Channels,
                     colorMap: map<Pixel, nat>)
    requires i < |ps| && TableOf(ps, i, table, unique, uniqueColors, colorMap) && ps[i] !in colorMap
    ensures TableOf(ps, i + 1, table + [ps[i]],
                    Channels(unique.red + [ps[i].red], unique.green + [ps[i].green], unique.blue + [ps[i].blue]),
                    uniqueColors, colorMap[ps[i] := |unique.red|])
  {
    var t := table + [ps[i]];
    var u := Channels(unique.red + [ps[i].red], unique.green + [ps[i].green], unique.blue + [ps[i].blue]);
    FirstOccurrencesSnoc(ps, i);
    assert t == FirstOccurrences(ps[..i + 1]);
    IndexMapSnoc(table, |uniqueColors.red|, ps[i]);
    assert colorMap[ps[i] := |unique.red|] == IndexMap(t, |uniqueColors.red|);
    ColorsSnoc(unique, ps[i].red, ps[i].green, ps[i].blue);
    assert u.Colors() == uniqueColors.Colors() + table + [ps[i]];
  }

  /** A colour already in the map changes nothing. */
  lemma SeenColorStep(ps: seq<Pixel>, i: nat, table: seq<Pixel>, unique: Channels, uniqueColors: Channels,
                      colorMap: map<Pixel, nat>)
    requires i < |ps| && TableOf(ps, i, table, unique, uniqueColors, colorMap) && ps[i] in colorMap
    ensures TableOf(ps, i + 1, table, unique, uniqueColors, colorMap)
  {
    FirstOccurrencesSnoc(ps, i);
  }

  /** `write_color_table`: `write_color` (three `write_binary` calls) for each palette index. */
  method WriteColorTable(output: OutputStream, uniqueColors: Channels, bytes: nat)
    requires (bytes == 1 || bytes == 2) && uniqueColors.Parallel() && !output.bad
    requires ChannelsFit(uniqueColors.red, bytes) && ChannelsFit(uniqueColors.green, bytes)
    requires ChannelsFit(uniqueColors.blue, bytes)
    modifies output
    ensures !output.bad && AllFit(uniqueColors.Colors(), bytes)
    ensures output.bytes == old(output.bytes) + EncodePixels(uniqueColors.Colors(), bytes)
  {
    WriteChannels(output, uniqueColors.red, uniqueColors.green, uniqueColors.blue, |uniqueColors.red|, bytes);
  }

  /**
   * `write_pixel_indices<ComponentType, IndexType>`: for every index of the three vectors, the
   * palette index of its tuple cast to the `width`-byte index type, written little-endian.
   */
  method WritePixelIndices(output: OutputStream, pixels: Channels, colorMap: map<Pixel, nat>, width: nat)
    requires IsWidth(width) && pixels.Parallel() && !output.bad
    requires forall p | p in pixels.Colors() :: p in colorMap
    modifies output
    ensures !output.bad && output.bytes == old(output.bytes) + EncodeIndices(pixels.Colors(), colorMap, width)
  {
    ghost var start := output.bytes;
    ghost var ps := pixels.Colors();
    for i := 0 to |pixels.red|
      invariant !output.bad && output.bytes == start + EncodeIndices(ps[..i], colorMap, width)
    {
      var color := ColorTuple(pixels.red, pixels.green, pixels.blue, i);
      assert color == ps[i];
      var index := Narrow(colorMap[color], width);
      var outcome := WriteBinary(output, index, width);
      IndicesStep(start, ps, i, colorMap, width);
    }
    assert ps[..|pixels.red|] == ps;
  }

  /** `write_header`: the `C6` line with the image's header fields and the table size. */
  method WriteHeader(output: OutputStream, image: PpmImageSoa, colorTableSize: nat)
    modifies output
    ensures output.bad == old(output.bad)
    ensures output.bytes == if output.bad then old(output.bytes)
                            else old(output.bytes) + AsciiBytes(HeaderC6(image.width, image.height, image.maxColorValue, colorTableSize))
  {
    output.WriteText(HeaderC6(image.width, image.height, image.maxColorValue, colorTableSize));
  }

  /**
   * The common body of `process_small_pixel_image` and `process_large_pixel_image` over the
   * channel vectors `pixels` of `bytes`-byte entries; `allowFour` admits 4-byte indices and
   * `tooLarge` is the message thrown when no index type is wide enough.
   */
  method ProcessPixels(output: OutputStream, image: PpmImageSoa, pixels: Channels, bytes: nat, allowFour: bool,
                       tooLarge: string) returns (outcome: Outcome)
    requires (bytes == 1 || bytes == 2) && pixels.Parallel() && !output.bad
    requires ChannelsFit(pixels.red, bytes) && ChannelsFit(pixels.green, bytes) && ChannelsFit(pixels.blue, bytes)
    modifies output
    ensures !output.bad && AllFit(pixels.Colors(), bytes)
    ensures output.bytes == old(output.bytes) + CompressF(image.width, image.height, image.maxColorValue,
                                                          pixels.Colors(), bytes, allowFour, tooLarge).0
    ensures outcome == CompressF(image.width, image.height, image.maxColorValue, pixels.Colors(), bytes,
                                 allowFour, tooLarge).1
  {
    ghost var start := output.bytes;
    ghost var ps := pixels.Colors();
    ColorTuplesFit(pixels.red, pixels.green, pixels.blue, |pixels.red|, bytes);
    var colorMap, uniqueColors := GenerateColorTable(pixels.red, pixels.green, pixels.blue, Channels([], [], []));
    assert uniqueColors.Colors() == FirstOccurrences(ps);
    PaletteFits(ps, bytes);
    ChannelsFitOfColors(uniqueColors, bytes);
    ghost var header := AsciiBytes(HeaderC6(image.width, image.height, image.maxColorValue, |uniqueColors.red|));
    ghost var palette := EncodePixels(uniqueColors.Colors(), bytes);
    WriteHeader(output, image, |uniqueColors.red|);
    assert output.bytes == start + header;
    WriteColorTable(output, uniqueColors, bytes);
    ghost var prefix := HeaderAndPalette(image.width, image.height, image.maxColorValue, ps, bytes);
    assert prefix == header + palette;
    AppendAssoc(start, header, palette);
    ghost var expected := CompressF(image.width, image.height, image.maxColorValue, ps, bytes, allowFour, tooLarge);
    var pixelsIndexes := pixels;
    if |uniqueColors.red| <= MAX_INDEX_SIZE_1B {
      WritePixelIndices(output, pixelsIndexes, colorMap, 1);
      outcome := Pass;
      assert expected == (prefix + EncodeIndices(ps, colorMap, 1), Pass);
      AppendAssoc(start, prefix, EncodeIndices(ps, colorMap, 1));
    } else if |uniqueColors.red| <= MAX_INDEX_SIZE_2B {
      WritePixelIndices(output, pixelsIndexes, colorMap, 2);
      outcome := Pass;
      assert expected == (prefix + EncodeIndices(ps, colorMap, 2), Pass);
      AppendAssoc(start, prefix, EncodeIndices(ps, colorMap, 2));
    } else if allowFour && |uniqueColors.red| <= MAX_INDEX_SIZE_4B {
      WritePixelIndices(output, pixelsIndexes, colorMap, 4);
      outcome := Pass;
      assert expected == (prefix + EncodeIndices(ps, colorMap, 4), Pass);
      AppendAssoc(start, prefix, EncodeIndices(ps, colorMap, 4));
    } else {
      outcome := Fail(tooLarge);
      assert expected == (prefix, Fail(tooLarge));
    }
  }

  /** `process_small_pixel_image`: the `uint8_t` vectors, indices of 1 or 2 bytes. */
  method ProcessSmallPixelImage(output: OutputStream, image: PpmImageSoa) returns (outcome: Outcome)
    requires image.Valid() && Channels(image.red1, image.green1, image.blue1).Parallel() && !output.bad
    modifies output
    ensures !output.bad
    ensures output.bytes == old(output.bytes) + CompressF(image.width, image.height, image.maxColorValue,
      Channels(image.red1, image.green1, image.blue1).Colors(), 1, false, SMALL_TOO_LARGE_SOA).0
    ensures outcome == CompressF(image.width, image.height, image.maxColorValue,
      Channels(image.red1, image.green1, image.blue1).Colors(), 1, false, SMALL_TOO_LARGE_SOA).1
  {
    outcome := ProcessPixels(output, image, Channels(image.red1, image.green1, image.blue1), 1, false,
                             SMALL_TOO_LARGE_SOA);
  }

  /** `process_large_pixel_image`: the `uint16_t` vectors, indices of 1, 2 or 4 bytes. */
  method ProcessLargePixelImage(output: OutputStream, image: PpmImageSoa) returns (outcome: Outcome)
    requires Channels(image.red2, image.green2, image.blue2).Parallel() && !output.bad
    modifies output
    ensures !output.bad
    ensures output.bytes == old(output.bytes) + CompressF(image.width, image.height, image.maxColorValue,
      Channels(image.red2, image.green2, image.blue2).Colors(), 2, true, LARGE_TOO_LARGE_SOA).0
    ensures outcome == CompressF(image.width, image.height, image.maxColorValue,
      Channels(image.red2, image.green2, image.blue2).Colors(), 2, true, LARGE_TOO_LARGE_SOA).1
  {
    outcome := ProcessPixels(output, image, Channels(image.red2, image.green2, image.blue2), 2, true,
                             LARGE_TOO_LARGE_SOA);
  }

  /** What `write_cppm` writes for an opened stream: the small path iff the maximum value is at most 255. */
  function CompressSoaF(image: SoaImage): (r: (seq<Byte>, Outcome))
    requires image.Valid() && Selected(image).Parallel()
  {
    var bytes := BytesPerComponent(image.maxColorValue);
    var selected := Selected(image);
    ColorTuplesFit(selected.red, selected.green, selected.blue, |selected.red|, bytes);
    CompressF(image.width, image.height, image.maxColorValue, Selected(image).Colors(), bytes, bytes == 2,
              if bytes == 1 then SMALL_TOO_LARGE_SOA else LARGE_TOO_LARGE_SOA)
  }

  /**
   * `write_cppm`: a stream that could not be opened is the "Error opening file for writing."
   * error and nothing is written; otherwise the small or the large path.
   */
  method WriteCppm(output: OutputStream, image: PpmImageSoa) returns (outcome: Outcome)
    requires image.Valid() && Selected(image.Value()).Parallel()
    modifies output
    ensures output.bad == old(output.bad)
    ensures old(output.bad) ==> outcome == Fail(OPENING_ERROR) && output.bytes == old(output.bytes)
    ensures !old(output.bad) ==> output.bytes == old(output.bytes) + CompressSoaF(image.Value()).0
                                 && outcome == CompressSoaF(image.Value()).1
  {
    if output.bad {
      return Fail(OPENING_ERROR);
    }
    if image.maxColorValue <= MAX_INTENSITY_FOR_1B {
      outcome := ProcessSmallPixelImage(output, image);
    } else {
      outcome := ProcessLargePixelImage(output, image);
    }
  }

  /**
   * Both layouts compress the same picture to the same bytes: for an array-of-structures image
   * and a structure-of-arrays image with the same header whose selected pixels agree, the
   * outputs are equal and one fails exactly when the other does (with its own message).
   */
  lemma SameCompressionInBothLayouts(aos: AosImage, soa: SoaImage)
    requires aos.Valid() && soa.Valid() && Selected(soa).Parallel()
    requires aos.width == soa.width && aos.height == soa.height && aos.maxColorValue == soa.maxColorValue
    requires aos.Active() == Selected(soa).Colors()
    ensures CompressAosF(aos).0 == CompressSoaF(soa).0
    ensures CompressAosF(aos).1.Pass? <==> CompressSoaF(soa).1.Pass?
  {
    var bytes := BytesPerComponent(aos.maxColorValue);
    var ps := aos.Active();
    CompressAosOfActive(aos);
    CompressedParts(aos.width, aos.height, aos.maxColorValue, ps, bytes, bytes == 2, SMALL_TOO_LARGE);
    CompressedParts(aos.width, aos.height, aos.maxColorValue, ps, bytes, bytes == 2, LARGE_TOO_LARGE);
    CompressedParts(aos.width, aos.height, aos.maxColorValue, ps, bytes, bytes == 2, SMALL_TOO_LARGE_SOA);
    CompressedParts(aos.width, aos.height, aos.maxColorValue, ps, bytes, bytes == 2, LARGE_TOO_LARGE_SOA);
  }
}
