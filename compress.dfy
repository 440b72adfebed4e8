/**
 * The compact "C6" format that `compress` writes in both layouts (imgaos/compressaos.* and
 * imgsoa/compresssoa.*): the text header `C6 <w> <h> <max> <n>\n`, the palette of the image's
 * `n` distinct colours in the order of their first occurrence (red, green, blue of each colour
 * at channel width), then one palette index per pixel, in pixel order, as a little-endian
 * integer of 1, 2 or 4 bytes chosen by the palette size.
 */
module Compress {
  import opened Decimal
  import opened Pixels
  import opened Results
  import opened Sorting
  import opened Streams
  import opened BinaryIo
  import opened Ppm
  import opened CutFreq

  /** `MAX_INDEX_SIZE_1B`, `MAX_INDEX_SIZE_2B` and `MAX_INDEX_SIZE_4B`: palette sizes per index width. */
  const MAX_INDEX_SIZE_1B: nat := 256
  const MAX_INDEX_SIZE_2B: nat := 65536
  const MAX_INDEX_SIZE_4B: nat := 4294967296

  /**
   * The `color_map` of `generate_color_table`: each palette colour mapped to its position, the
   * first one to `offset` (the size `unique_colors` had before the call).
   */
  function IndexMap(table: seq<Pixel>, offset: nat): (m: map<Pixel, nat>)
    requires Distinct(table)
    ensures m.Keys == set c | c in table
    ensures forall i | 0 <= i < |table| :: m[table[i]] == offset + i
  {
    map i | 0 <= i < |table| :: table[i] := offset + i
  }

  /** Looking up a colour's index and then the palette at that index gives the colour back. */
  lemma IndexMapInverse(table: seq<Pixel>, offset: nat, c: Pixel)
    requires Distinct(table) && c in table
    ensures var m := IndexMap(table, offset);
      offset <= m[c] < offset + |table| && table[m[c] - offset] == c
  {
    var i :| 0 <= i < |table| && table[i] == c;
    assert IndexMap(table, offset)[table[i]] == offset + i;
  }

  /** One more new colour in the palette gets the next index; the others keep theirs. */
  lemma IndexMapSnoc(table: seq<Pixel>, offset: nat, c: Pixel)
    requires Distinct(table) && c !in table
    ensures Distinct(table + [c])
    ensures IndexMap(table + [c], offset) == IndexMap(table, offset)[c := offset + |table|]
  {
    DistinctSnoc(table, c);
    IndexMapExtend(table, offset, c);
  }

  /** A value not in a sequence of distinct values can be appended to it. */
  lemma DistinctSnoc<T>(s: seq<T>, x: T)
    requires Distinct(s) && x !in s
    ensures Distinct(s + [x])
  {
    var t := s + [x];
    forall i, j | 0 <= i < j < |t|
      ensures t[i] != t[j]
    {
      if j < |s| {
        assert t[i] == s[i] && t[j] == s[j];
      } else {
        assert t[i] == s[i] && t[j] == x;
      }
    }
  }

  lemma IndexMapExtend(table: seq<Pixel>, offset: nat, c: Pixel)
    requires Distinct(table) && Distinct(table + [c]) && c !in table
    ensures IndexMap(table + [c], offset) == IndexMap(table, offset)[c := offset + |table|]
  {
    var t := table + [c];
    var m, m' := IndexMap(table, offset)[c := offset + |table|], IndexMap(t, offset);
    assert m'.Keys == m.Keys by {
      assert forall x :: x in t <==> x in table || x == c;
    }
    forall x | x in m'
      ensures m'[x] == m[x]
    {
      IndexMapExtendAt(table, offset, c, x);
    }
  }

  lemma IndexMapExtendAt(table: seq<Pixel>, offset: nat, c: Pixel, x: Pixel)
    requires Distinct(table) && Distinct(table + [c]) && c !in table && x in table + [c]
    ensures x in table ==> x in IndexMap(table, offset)
    ensures IndexMap(table + [c], offset)[x] == IndexMap(table, offset)[c := offset + |table|][x]
  {
    var t := table + [c];
    var i :| 0 <= i < |t| && t[i] == x;
    if i < |table| {
      assert table[i] == x;
    }
  }

  /** The text `write_header` puts out: `C6 w h max n` separated by spaces, then a newline. */
  function HeaderC6(width: int, height: int, maxColorValue: int, tableSize: nat): (text: string)
    ensures IsAscii(text)
  {
    DecimalIsAscii(width);
    DecimalIsAscii(height);
    DecimalIsAscii(maxColorValue);
    DecimalIsAscii(tableSize);
    "C6 " + IntToString(width) + " " + IntToString(height) + " " + IntToString(maxColorValue) + " "
      + IntToString(tableSize) + "\n"
  }

  /**
   * The index width the writers pick for `n` palette colours: 1 byte up to 256 colours, 2 up to
   * 65536, 4 up to 2^32 where `allowFour` (the 16-bit path); `None` is the "too large" throw.
   */
  function IndexWidth(n: nat, allowFour: bool): (w: Option<nat>)
    ensures w.Some? ==> IsWidth(w.value) && 1 <= w.value && n <= Limit(w.value)
    ensures w.Some? ==> w.value == 1 || w.value == 2 || (allowFour && w.value == 4)
    ensures w.Some? ==> forall k | k in {1, 2, 4} && k < w.value :: n > Limit(k)
    ensures w.None? <==> n > MAX_INDEX_SIZE_2B && (!allowFour || n > MAX_INDEX_SIZE_4B)
  {
    if n <= MAX_INDEX_SIZE_1B then Some(1)
    else if n <= MAX_INDEX_SIZE_2B then Some(2)
    else if allowFour && n <= MAX_INDEX_SIZE_4B then Some(4)
    else None
  }

  /** `static_cast<IndexType>(index)` for an unsigned type of `width` bytes: the low bytes. */
  function Narrow(index: nat, width: nat): (v: nat)
    requires IsWidth(width)
    ensures v < Limit(width)
    ensures index < Limit(width) ==> v == index
  {
    index % Limit(width)
  }

  /** `write_pixel_indices`: for each pixel the narrowed index of its colour, `width` bytes each. */
  function EncodeIndices(ps: seq<Pixel>, m: map<Pixel, nat>, width: nat): (bs: seq<Byte>)
    requires IsWidth(width) && forall p | p in ps :: p in m
  {
    if ps == [] then [] else LittleEndian(Narrow(m[ps[0]], width), width) + EncodeIndices(ps[1..], m, width)
  }

  lemma {:induction false} EncodeIndicesLength(ps: seq<Pixel>, m: map<Pixel, nat>, width: nat)
    requires IsWidth(width) && forall p | p in ps :: p in m
    ensures |EncodeIndices(ps, m, width)| == width * |ps|
  {
    if ps != [] {
      EncodeIndicesLength(ps[1..], m, width);
    }
  }

  /** Writing the index of one more pixel appends its bytes. */
  lemma {:induction false} EncodeIndicesSnoc(ps: seq<Pixel>, p: Pixel, m: map<Pixel, nat>, width: nat)
    requires IsWidth(width) && p in m && forall q | q in ps :: q in m
    ensures forall q | q in ps + [p] :: q in m
    ensures EncodeIndices(ps + [p], m, width) == EncodeIndices(ps, m, width) + LittleEndian(Narrow(m[p], width), width)
  {
    if ps != [] {
      assert (ps + [p])[1..] == ps[1..] + [p];
      EncodeIndicesSnoc(ps[1..], p, m, width);
    }
  }

  /** Appending the index of the next pixel to what is written so far writes one pixel more. */
  lemma IndicesStep(start: seq<Byte>, ps: seq<Pixel>, i: nat, m: map<Pixel, nat>, width: nat)
    requires IsWidth(width) && i < |ps| && forall p | p in ps :: p in m
    ensures forall p | p in ps[..i + 1] :: p in m
    ensures start + EncodeIndices(ps[..i], m, width) + LittleEndian(Narrow(m[ps[i]], width), width) ==
            start + EncodeIndices(ps[..i + 1], m, width)
  {
    assert ps[..i + 1] == ps[..i] + [ps[i]];
    EncodeIndicesSnoc(ps[..i], ps[i], m, width);
  }

  /**
   * Reading index data back against a palette: each `width`-byte little-endian index selects a
   * palette colour; an index past the palette or a short last index is rejected.
   */
  function DecodeIndices(data: seq<Byte>, table: seq<Pixel>, width: nat): (r: Option<seq<Pixel>>)
    requires 1 <= width && IsWidth(width)
    ensures r.Some? ==> forall p | p in r.value :: p in table
    decreases |data|
  {
    if data == [] then Some([])
    else if |data| < width then None
    else
      var index := FromLittleEndian(data[..width]);
      if index >= |table| then None
      else
        match DecodeIndices(data[width..], table, width)
        case None => None
        case Some(rest) => Some([table[index]] + rest)
  }

  /**
   * The indices written for pixels whose colours are all in the palette, in a width that holds
   * every index, read back as those pixels.
   */
  lemma {:induction false} DecodeEncodeIndices(ps: seq<Pixel>, table: seq<Pixel>, width: nat)
    requires 1 <= width && IsWidth(width) && Distinct(table) && |table| <= Limit(width)
    requires forall p | p in ps :: p in table
    ensures DecodeIndices(EncodeIndices(ps, IndexMap(table, 0), width), table, width) == Some(ps)
  {
    if ps != [] {
      var m := IndexMap(table, 0);
      var v := m[ps[0]];
      IndexMapInverse(table, 0, ps[0]);
      var head := LittleEndian(Narrow(v, width), width);
      FromLittleEndianOfLittleEndian(v, width);
      DecodeEncodeIndices(ps[1..], table, width);
      DecodeIndicesCons(head, EncodeIndices(ps[1..], m, width), table, width, v, ps[1..]);
      assert [ps[0]] + ps[1..] == ps;
    }
  }

  /** An index of the palette followed by index data that reads back puts its colour in front. */
  lemma DecodeIndicesCons(head: seq<Byte>, rest: seq<Byte>, table: seq<Pixel>, width: nat, index: nat,
                          tail: seq<Pixel>)
    requires 1 <= width && IsWidth(width) && |head| == width
    requires FromLittleEndian(head) == index < |table|
    requires DecodeIndices(rest, table, width) == Some(tail)
    ensures DecodeIndices(head + rest, table, width) == Some([table[index]] + tail)
  {
    assert (head + rest)[..width] == head && (head + rest)[width..] == rest;
  }

  /** Every colour of the pixels is in the palette, and so fits the channel width of the pixels. */
  lemma PaletteFits(ps: seq<Pixel>, bytes: nat)
    requires AllFit(ps, bytes)
    ensures AllFit(FirstOccurrences(ps), bytes)
  {
    var table := FirstOccurrences(ps);
    forall i | 0 <= i < |table|
      ensures FitsIn(table[i], bytes)
    {
      assert table[i] in ps;
    }
  }

  /**
   * What `process_small_pixel_image` / `process_large_pixel_image` append for the pixels `ps` of
   * `bytes`-byte channels: header and palette, then the indices in the chosen width; when no width
   * is allowed, only header and palette, and the `tooLarge` error.
   */
  function CompressF(width: int, height: int, maxColorValue: int, ps: seq<Pixel>, bytes: nat, allowFour: bool,
                     tooLarge: string): (r: (seq<Byte>, Outcome))
    requires (bytes == 1 || bytes == 2) && AllFit(ps, bytes)
  {
    var table := FirstOccurrences(ps);
    var prefix := HeaderAndPalette(width, height, maxColorValue, ps, bytes);
    match IndexWidth(|table|, allowFour)
    case Some(k) => (prefix + EncodeIndices(ps, IndexMap(table, 0), k), Pass)
    case None => (prefix, Fail(tooLarge))
  }

  /** The part written before the indices: the header and the palette of `ps`. */
  function HeaderAndPalette(width: int, height: int, maxColorValue: int, ps: seq<Pixel>, bytes: nat): seq<Byte>
    requires (bytes == 1 || bytes == 2) && AllFit(ps, bytes)
  {
    var table := FirstOccurrences(ps);
    PaletteFits(ps, bytes);
    AsciiBytes(HeaderC6(width, height, maxColorValue, |table|)) + EncodePixels(table, bytes)
  }

  /**
   * The compressed data holds its parts in order and each reads back: the header text, the
   * palette (the distinct colours in first-occurrence order) and, unless the palette was too
   * large, the pixels through their indices. Its length is the header, 3 or 6 bytes per palette
   * colour and the index width per pixel.
   */
  lemma CompressedParts(width: int, height: int, maxColorValue: int, ps: seq<Pixel>, bytes: nat, allowFour: bool,
                        tooLarge: string)
    requires (bytes == 1 || bytes == 2) && AllFit(ps, bytes)
    ensures var (out, outcome) := CompressF(width, height, maxColorValue, ps, bytes, allowFour, tooLarge);
      var table := FirstOccurrences(ps);
      var header := AsciiBytes(HeaderC6(width, height, maxColorValue, |table|));
      var paletteEnd := |header| + PixelDataSize(|table|, bytes);
      && paletteEnd <= |out| && out[..|header|] == header
      && DecodePixels(out, |header|, |table|, bytes) == table
      && (outcome.Pass? <==> IndexWidth(|table|, allowFour).Some?)
      && (outcome.Fail? ==> outcome.message == tooLarge && |out| == paletteEnd)
      && (outcome.Pass? ==>
            var k := IndexWidth(|table|, allowFour).value;
            && |out| == paletteEnd + k * |ps|
            && DecodeIndices(out[paletteEnd..], table, k) == Some(ps))
  {
    var table := FirstOccurrences(ps);
    PaletteFits(ps, bytes);
    var header := AsciiBytes(HeaderC6(width, height, maxColorValue, |table|));
    var palette := EncodePixels(table, bytes);
    var paletteEnd := |header| + PixelDataSize(|table|, bytes);
    assert HeaderAndPalette(width, height, maxColorValue, ps, bytes) == header + palette;
    var (out, outcome) := CompressF(width, height, maxColorValue, ps, bytes, allowFour, tooLarge);
    var indices := if outcome.Pass? then EncodeIndices(ps, IndexMap(table, 0), IndexWidth(|table|, allowFour).value)
                   else [];
    assert out == header + palette + indices;
    PaletteBetween(header, table, bytes, indices);
    assert out[..|header|] == header && out[paletteEnd..] == indices;
    assert DecodePixels(out, |header|, |table|, bytes) == table;
    if outcome.Pass? {
      var k := IndexWidth(|table|, allowFour).value;
      EncodeIndicesLength(ps, IndexMap(table, 0), k);
      DecodeEncodeIndices(ps, table, k);
      assert DecodeIndices(out[paletteEnd..], table, k) == Some(ps);
    }
  }

  /** A palette written between a header and what follows reads back from where the header ends. */
  lemma PaletteBetween(header: seq<Byte>, table: seq<Pixel>, bytes: nat, rest: seq<Byte>)
    requires (bytes == 1 || bytes == 2) && AllFit(table, bytes)
    ensures var palette := EncodePixels(table, bytes);
      var out := header + palette + rest;
      var paletteEnd := |header| + PixelDataSize(|table|, bytes);
      && |palette| == PixelDataSize(|table|, bytes)
      && out[..|header|] == header && out[paletteEnd..] == rest
      && DecodePixels(out, |header|, |table|, bytes) == table
  {
    var palette := EncodePixels(table, bytes);
    DecodeEncodePixels(table, bytes);
    MiddleOf(header, palette, rest);
    PrefixOf(header, palette, rest);
    DecodeMiddle(header, palette, rest, |table|, bytes);
  }

  /** Pixel data between two other parts decodes as it does on its own. */
  lemma DecodeMiddle(header: seq<Byte>, palette: seq<Byte>, rest: seq<Byte>, count: nat, bytes: nat)
    requires (bytes == 1 || bytes == 2) && |palette| == PixelDataSize(count, bytes)
    ensures DecodePixels(header + palette + rest, |header|, count, bytes) == DecodePixels(palette, 0, count, bytes)
  {
    var out := header + palette + rest;
    forall k | 0 <= k < count
      ensures PixelAt(out, |header|, k, bytes) == PixelAt(palette, 0, k, bytes)
    {
      var lo, hi := PixelDataSize(k, bytes), PixelDataSize(k + 1, bytes);
      MiddleSlice(header, palette, rest, lo, hi);
      PixelAtOfSlot(out, |header|, k, bytes);
      PixelAtOfSlot(palette, 0, k, bytes);
    }
  }
}
