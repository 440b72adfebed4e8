/**
 * The byte layout of a binary PPM ("P6") file as imgaos/imageaos.cpp and imgsoa/imagesoa.cpp
 * read and write it: a text header `P6\n<w> <h> <max>\n`, then per pixel red, green and blue,
 * each channel one byte when max <= 255 and two bytes (host order, little-endian) otherwise.
 */
module Ppm {
  import opened Decimal
  import opened Pixels
  import opened Results
  import opened Streams
  import opened BinaryIo

  const UNSUPPORTED_FORMAT: string := "Unsupported PPM format."
  const OPEN_FOR_WRITING_ERROR: string := "Error writing the PPM file."

  /** The pixel-format lines of `info`. */
  const FORMAT_8_BIT: string := "Pixel Format: 3 bytes per pixel (8-bit color depth)"
  const FORMAT_16_BIT: string := "Pixel Format: 6 bytes per pixel (16-bit color depth)"
  const FORMAT_UNSUPPORTED: string := "Pixel Format: Unsupported color depth"

  /** Bytes taken by `count` pixels of `bytes`-byte channels. */
  function PixelDataSize(count: nat, bytes: nat): (size: nat)
    requires bytes == 1 || bytes == 2
    ensures size >= count
  {
    if bytes == 1 then count * 3 else count * 6
  }

  /** The samples of one channel value: one byte, or the low and then the high byte. */
  function EncodeSample(v: Channel, bytes: nat): (bs: seq<Byte>)
    requires (bytes == 1 && v < 0x100) || bytes == 2
    ensures |bs| == bytes
  {
    if bytes == 1 then [v] else [v % 0x100, v / 0x100]
  }

  /** The channel value of the `bytes` sample bytes at offset `o`, low byte first. */
  function SampleAt(data: seq<Byte>, o: nat, bytes: nat): (v: Channel)
    requires (bytes == 1 || bytes == 2) && o + bytes <= |data|
    ensures bytes == 1 ==> v < 0x100
  {
    if bytes == 1 then data[o] else data[o] as int + 0x100 * data[o + 1] as int
  }

  /** The samples of one pixel: red, green, blue, each `write_binary` of a `bytes`-byte channel. */
  function EncodePixel(p: Pixel, bytes: nat): (bs: seq<Byte>)
    requires (bytes == 1 || bytes == 2) && FitsIn(p, bytes)
    ensures |bs| == PixelDataSize(1, bytes)
  {
    EncodeSample(p.red, bytes) + EncodeSample(p.green, bytes) + EncodeSample(p.blue, bytes)
  }

  /** The pixel data of a sequence of pixels, in order. */
  function EncodePixels(ps: seq<Pixel>, bytes: nat): (bs: seq<Byte>)
    requires (bytes == 1 || bytes == 2) && AllFit(ps, bytes)
  {
    if ps == [] then [] else EncodePixel(ps[0], bytes) + EncodePixels(ps[1..], bytes)
  }

  /** The `k`-th pixel of the pixel data that starts at `start`: its red, green and blue samples. */
  function PixelAt(data: seq<Byte>, start: nat, k: nat, bytes: nat): (p: Pixel)
    requires bytes == 1 || bytes == 2
    requires start + PixelDataSize(k + 1, bytes) <= |data|
    ensures FitsIn(p, bytes)
  {
    var o := start + PixelDataSize(k, bytes);
    Pixel(SampleAt(data, o, bytes), SampleAt(data, o + bytes, bytes), SampleAt(data, o + 2 * bytes, bytes))
  }

  /** The `count` pixels whose data starts at `start`. */
  function DecodePixels(data: seq<Byte>, start: nat, count: nat, bytes: nat): (ps: seq<Pixel>)
    requires bytes == 1 || bytes == 2
    requires start + PixelDataSize(count, bytes) <= |data|
    ensures |ps| == count && AllFit(ps, bytes)
  {
    seq(count, k requires 0 <= k < count => PixelAt(data, start, k, bytes))
  }

  /** A channel of `bytes` bytes holds exactly the values below `Limit(bytes)`. */
  lemma LimitOfChannel(bytes: nat)
    requires bytes == 1 || bytes == 2
    ensures Limit(bytes) == ChannelLimit(bytes)
  {
  }

  /** The samples of a channel are its `write_binary` image. */
  lemma EncodeSampleIsLittleEndian(v: Channel, bytes: nat)
    requires (bytes == 1 && v < 0x100) || bytes == 2
    ensures v < Limit(bytes) && EncodeSample(v, bytes) == LittleEndian(v, bytes)
  {
    if bytes == 2 {
      assert LittleEndian(v, 2) == [v % 0x100] + LittleEndian(v / 0x100, 1);
    }
  }

  /** The channel value at an offset is what `read_binary` makes of the bytes there. */
  lemma SampleAtIsLittleEndian(data: seq<Byte>, o: nat, bytes: nat)
    requires (bytes == 1 || bytes == 2) && o + bytes <= |data|
    ensures SampleAt(data, o, bytes) == FromLittleEndian(data[o..o + bytes])
  {
    var bs := data[o..o + bytes];
    assert bs[0] == data[o];
    if bytes == 2 {
      assert bs[1..][0] == data[o + 1];
      assert bs[1..][1..] == [];
    }
  }

  /** The channel value read from a channel's samples is that channel. */
  lemma SampleAtOfEncode(prefix: seq<Byte>, v: Channel, bytes: nat, suffix: seq<Byte>)
    requires (bytes == 1 && v < 0x100) || bytes == 2
    ensures SampleAt(prefix + EncodeSample(v, bytes) + suffix, |prefix|, bytes) == v
  {
    var data := prefix + EncodeSample(v, bytes) + suffix;
    assert data[|prefix|] == EncodeSample(v, bytes)[0];
    if bytes == 2 {
      assert data[|prefix| + 1] == EncodeSample(v, bytes)[1];
    }
  }

  /** Encoding the channel value read at an offset gives back the bytes there. */
  lemma EncodeOfSampleAt(data: seq<Byte>, o: nat, bytes: nat)
    requires (bytes == 1 || bytes == 2) && o + bytes <= |data|
    ensures EncodeSample(SampleAt(data, o, bytes), bytes) == data[o..o + bytes]
  {
    if bytes == 2 {
      DivModByte(data[o], data[o + 1]);
    }
  }

  /** Decoding what one pixel's samples encode gives the pixel back. */
  lemma DecodeEncodePixel(p: Pixel, bytes: nat)
    requires (bytes == 1 || bytes == 2) && FitsIn(p, bytes)
    ensures PixelAt(EncodePixel(p, bytes), 0, 0, bytes) == p
  {
    var r, g, b := EncodeSample(p.red, bytes), EncodeSample(p.green, bytes), EncodeSample(p.blue, bytes);
    SampleAtOfEncode([], p.red, bytes, g + b);
    SampleAtOfEncode(r, p.green, bytes, b);
    SampleAtOfEncode(r + g, p.blue, bytes, []);
    assert EncodePixel(p, bytes) == [] + r + (g + b) == r + g + b + [];
  }

  /** Re-encoding the pixel decoded at an offset gives back the bytes there. */
  lemma EncodeDecodePixel(data: seq<Byte>, o: nat, bytes: nat)
    requires (bytes == 1 || bytes == 2) && o + PixelDataSize(1, bytes) <= |data|
    ensures EncodePixel(PixelAt(data, o, 0, bytes), bytes) == data[o..o + PixelDataSize(1, bytes)]
  {
    EncodeOfSampleAt(data, o, bytes);
    EncodeOfSampleAt(data, o + bytes, bytes);
    EncodeOfSampleAt(data, o + 2 * bytes, bytes);
    assert data[o..o + 3 * bytes] == data[o..o + bytes] + data[o + bytes..o + 2 * bytes] + data[o + 2 * bytes..o + 3 * bytes];
  }

  /** The `k`-th pixel depends only on the bytes of its own slot. */
  lemma PixelAtOfSlot(data: seq<Byte>, start: nat, k: nat, bytes: nat)
    requires (bytes == 1 || bytes == 2) && start + PixelDataSize(k + 1, bytes) <= |data|
    ensures PixelAt(data, start, k, bytes) ==
              PixelAt(data[start + PixelDataSize(k, bytes)..start + PixelDataSize(k + 1, bytes)], 0, 0, bytes)
  {
    var o := start + PixelDataSize(k, bytes);
    var slot := data[o..start + PixelDataSize(k + 1, bytes)];
    assert slot[0] == data[o] && slot[bytes] == data[o + bytes] && slot[2 * bytes] == data[o + 2 * bytes];
    assert slot[1] == data[o + 1] && slot[bytes + 1] == data[o + bytes + 1];
    assert bytes == 2 ==> slot[2 * bytes + 1] == data[o + 2 * bytes + 1];
  }

  /** The data of `count` pixels takes `PixelDataSize(count, bytes)` bytes. */
  /** Encoding a non-empty vector: its first pixel, then the rest. */
  lemma EncodePixelsCons(p: Pixel, ps: seq<Pixel>, bytes: nat)
    requires (bytes == 1 || bytes == 2) && FitsIn(p, bytes) && AllFit(ps, bytes)
    ensures EncodePixels([p] + ps, bytes) == EncodePixel(p, bytes) + EncodePixels(ps, bytes)
  {
    assert ([p] + ps)[1..] == ps;
  }

  lemma {:induction false} EncodePixelsLength(ps: seq<Pixel>, bytes: nat)
    requires (bytes == 1 || bytes == 2) && AllFit(ps, bytes)
    ensures |EncodePixels(ps, bytes)| == PixelDataSize(|ps|, bytes)
  {
    if ps != [] {
      EncodePixelsLength(ps[1..], bytes);
    }
  }

  /** Writing one more pixel appends its samples to what was written before. */
  lemma {:induction false} EncodePixelsSnoc(ps: seq<Pixel>, p: Pixel, bytes: nat)
    requires (bytes == 1 || bytes == 2) && AllFit(ps, bytes) && FitsIn(p, bytes)
    ensures AllFit(ps + [p], bytes)
    ensures EncodePixels(ps + [p], bytes) == EncodePixels(ps, bytes) + EncodePixel(p, bytes)
  {
    if ps != [] {
      assert (ps + [p])[1..] == ps[1..] + [p];
      EncodePixelsSnoc(ps[1..], p, bytes);
    }
  }

  /** The samples of the `k`-th pixel sit at the `k`-th slot of the written pixel data. */
  lemma {:induction false} EncodePixelsAt(ps: seq<Pixel>, k: nat, bytes: nat)
    requires (bytes == 1 || bytes == 2) && AllFit(ps, bytes) && k < |ps|
    ensures |EncodePixels(ps, bytes)| == PixelDataSize(|ps|, bytes)
    ensures EncodePixels(ps, bytes)[PixelDataSize(k, bytes)..PixelDataSize(k + 1, bytes)] ==
              EncodePixel(ps[k], bytes)
  {
    EncodePixelsLength(ps, bytes);
    var first, rest := EncodePixel(ps[0], bytes), EncodePixels(ps[1..], bytes);
    assert EncodePixels(ps, bytes) == first + rest;
    if k == 0 {
      assert (first + rest)[..|first|] == first;
    } else {
      var i, j := PixelDataSize(k - 1, bytes), PixelDataSize(k, bytes);
      PixelDataSizeStep(k - 1, bytes);
      PixelDataSizeStep(k, bytes);
      assert ps[1..][k - 1] == ps[k];
      EncodePixelsAt(ps[1..], k - 1, bytes);
      SliceOfAppend(first, rest, i, j);
    }
  }

  /** One more pixel adds one pixel's worth of bytes. */
  lemma PixelDataSizeStep(count: nat, bytes: nat)
    requires bytes == 1 || bytes == 2
    ensures PixelDataSize(count + 1, bytes) == PixelDataSize(1, bytes) + PixelDataSize(count, bytes)
  {
  }

  /** Reading back written pixel data gives the pixels back. */
  lemma DecodeEncodePixels(ps: seq<Pixel>, bytes: nat)
    requires (bytes == 1 || bytes == 2) && AllFit(ps, bytes)
    ensures |EncodePixels(ps, bytes)| == PixelDataSize(|ps|, bytes)
    ensures DecodePixels(EncodePixels(ps, bytes), 0, |ps|, bytes) == ps
  {
    EncodePixelsLength(ps, bytes);
    var data := EncodePixels(ps, bytes);
    forall k | 0 <= k < |ps|
      ensures PixelAt(data, 0, k, bytes) == ps[k]
    {
      DecodeEncodePixelAt(ps, k, bytes);
    }
  }

  /** The `k`-th slot of the encoded pixels decodes to the `k`-th pixel. */
  lemma DecodeEncodePixelAt(ps: seq<Pixel>, k: nat, bytes: nat)
    requires (bytes == 1 || bytes == 2) && AllFit(ps, bytes) && k < |ps|
    ensures |EncodePixels(ps, bytes)| == PixelDataSize(|ps|, bytes)
    ensures PixelDataSize(k + 1, bytes) <= PixelDataSize(|ps|, bytes)
    ensures PixelAt(EncodePixels(ps, bytes), 0, k, bytes) == ps[k]
  {
    EncodePixelsLength(ps, bytes);
    EncodePixelsAt(ps, k, bytes);
    DecodeSlot(EncodePixels(ps, bytes), k, ps[k], bytes);
  }

  /** A slot holding the samples of `p` decodes to `p`. */
  lemma DecodeSlot(data: seq<Byte>, k: nat, p: Pixel, bytes: nat)
    requires (bytes == 1 || bytes == 2) && FitsIn(p, bytes) && PixelDataSize(k + 1, bytes) <= |data|
    requires data[PixelDataSize(k, bytes)..PixelDataSize(k + 1, bytes)] == EncodePixel(p, bytes)
    ensures PixelAt(data, 0, k, bytes) == p
  {
    PixelAtOfSlot(data, 0, k, bytes);
    DecodeEncodePixel(p, bytes);
  }

  /** Data made of whole pixels is the data of the pixels it decodes to. */
  lemma {:induction false} EncodeDecodePixels(data: seq<Byte>, start: nat, count: nat, bytes: nat)
    requires (bytes == 1 || bytes == 2) && start + PixelDataSize(count, bytes) <= |data|
    ensures EncodePixels(DecodePixels(data, start, count, bytes), bytes) ==
              data[start..start + PixelDataSize(count, bytes)]
    decreases count
  {
    if count > 0 {
      var size := PixelDataSize(1, bytes);
      var end := start + PixelDataSize(count, bytes);
      assert start + size + PixelDataSize(count - 1, bytes) == end;
      var ps := DecodePixels(data, start, count, bytes);
      var rest := DecodePixels(data, start + size, count - 1, bytes);
      DecodePixelsCons(data, start, count, bytes);
      var head, tail := data[start..start + size], data[start + size..end];
      EncodeDecodePixel(data, start, bytes);
      EncodeDecodePixels(data, start + size, count - 1, bytes);
      assert EncodePixels(rest, bytes) == tail;
      EncodePixelsCons(PixelAt(data, start, 0, bytes), rest, bytes);
      SliceSplit(data, start, start + size, end);
    }
  }

  /** The first decoded pixel, then the pixels decoded from the next slot on. */
  lemma DecodePixelsCons(data: seq<Byte>, start: nat, count: nat, bytes: nat)
    requires (bytes == 1 || bytes == 2) && 0 < count && start + PixelDataSize(count, bytes) <= |data|
    ensures DecodePixels(data, start, count, bytes) ==
              [PixelAt(data, start, 0, bytes)] + DecodePixels(data, start + PixelDataSize(1, bytes), count - 1, bytes)
  {
    var size := PixelDataSize(1, bytes);
    assert size + PixelDataSize(count - 1, bytes) == PixelDataSize(count, bytes);
    var ps := DecodePixels(data, start, count, bytes);
    var rest := DecodePixels(data, start + size, count - 1, bytes);
    forall k | 0 <= k < count - 1
      ensures ps[k + 1] == rest[k]
    {
      DecodePixelsShift(data, start, count, k, bytes);
    }
    ConsOfShift(ps, rest);
  }

  /** Slot `k + 1` of `count` decoded pixels is slot `k` of the `count - 1` after the first. */
  lemma DecodePixelsShift(data: seq<Byte>, start: nat, count: nat, k: nat, bytes: nat)
    requires (bytes == 1 || bytes == 2) && k + 1 < count && start + PixelDataSize(count, bytes) <= |data|
    ensures start + PixelDataSize(1, bytes) + PixelDataSize(count - 1, bytes) <= |data|
    ensures DecodePixels(data, start, count, bytes)[k + 1] ==
            DecodePixels(data, start + PixelDataSize(1, bytes), count - 1, bytes)[k]
  {
    assert PixelDataSize(1, bytes) + PixelDataSize(count - 1, bytes) == PixelDataSize(count, bytes);
    assert PixelDataSize(k + 2, bytes) <= PixelDataSize(count, bytes);
    PixelAtShift(data, start, k, bytes);
  }

  /** The pixel after slot `k` is slot `k` of the data one pixel further on. */
  lemma PixelAtShift(data: seq<Byte>, start: nat, k: nat, bytes: nat)
    requires (bytes == 1 || bytes == 2) && start + PixelDataSize(k + 2, bytes) <= |data|
    ensures PixelAt(data, start, k + 1, bytes) == PixelAt(data, start + PixelDataSize(1, bytes), k, bytes)
  {
    assert start + PixelDataSize(k + 1, bytes) == start + PixelDataSize(1, bytes) + PixelDataSize(k, bytes);
  }

  lemma SliceOfAppend(a: seq<Byte>, b: seq<Byte>, i: nat, j: nat)
    requires i <= j <= |b|
    ensures (a + b)[|a| + i..|a| + j] == b[i..j]
  {
    assert forall k | 0 <= k < j - i :: (a + b)[|a| + i..|a| + j][k] == b[i..j][k];
  }

  /** The header text both writers emit: `P6\n`, then `w h max\n` in decimal. */
  function HeaderText(width: int, height: int, maxColorValue: int): (text: string)
    ensures IsAscii(text)
  {
    DecimalIsAscii(width);
    DecimalIsAscii(height);
    DecimalIsAscii(maxColorValue);
    "P6" + ("\n" + IntToString(width)) + (" " + IntToString(height)) + (" " + IntToString(maxColorValue)) + "\n"
  }

  /** What both readers take from the header, and the stream after the separator byte. */
  datatype Header = Header(magic: string, width: int, height: int, maxColorValue: int, body: InState)

  /**
   * `file >> magic_number`, `file >> width >> height >> max_color_value` and `file.get()`.
   * The three variables start at 0, so a failed extraction leaves 0 (or the clamped value).
   */
  function ScanHeader(data: seq<Byte>): (hd: Header)
    ensures hd.body.Valid() && hd.body.data == data
  {
    var (magic, s1) := ExtractToken(InState(data, 0, false));
    var (width, s2) := ExtractInt(s1);
    var (height, s3) := ExtractInt(s2);
    var (maxColorValue, s4) := ExtractInt(s3);
    Header(magic, width, height, maxColorValue, Get(s4))
  }

  /** `>> magic_number` on data that starts with `P6` and a space. */
  lemma ScanMagic(data: seq<Byte>)
    requires |data| >= 3
    requires Chars(data)[0] == 'P' && Chars(data)[1] == '6' && IsSpace(Chars(data)[2])
    ensures ExtractToken(InState(data, 0, false)) == ("P6", InState(data, 2, false))
  {
    var s := Chars(data);
    TokenEndAt(s, 0, 2);
    assert s[0..2] == "P6";
  }

  /** `>> n` on a separator followed by the rendering of a non-negative `int` and a non-digit. */
  lemma ScanField(data: seq<Byte>, prefix: string, separator: char, n: nat, rest: string, start: nat, end: nat)
    requires IsSpace(separator) && n <= INT_MAX
    requires Chars(data) == prefix + ([separator] + NatToString(n)) + rest
    requires rest == [] || !IsDigit(rest[0])
    requires start == |prefix| && end == start + 1 + |NatToString(n)|
    ensures ExtractInt(InState(data, start, false)) == (n, InState(data, end, false))
  {
    var s := Chars(data);
    var digits := NatToString(n);
    var field := [separator] + digits;
    assert s[start..end] == field && s[end..] == rest by {
      MiddleOf(prefix, field, rest);
    }
    assert s[start] == separator by {
      assert s[start..end][0] == separator;
    }
    assert s[start + 1..end] == digits by {
      assert s[start + 1..end] == s[start..end][1..];
    }
    assert end < |s| ==> s[end] == rest[0] by {
      if end < |s| {
        assert s[end..][0] == rest[0];
      }
    }
    ScanRenderedNat(s, start, start + 1, n);
    ExtractIntOfNumber(InState(data, start, false), n, end);
  }

  /** The middle and the end of a three-part concatenation. */
  lemma MiddleOf<T>(a: seq<T>, b: seq<T>, c: seq<T>)
    ensures (a + b + c)[|a|..|a| + |b|] == b && (a + b + c)[|a| + |b|..] == c
  {
  }

  /** The regroupings of a header's four parts and the rest of the stream the scan needs. */
  lemma Regroup(a: string, b: string, c: string, d: string, e: string)
    ensures a + b + c + d + e == a + b + (c + (d + e))
    ensures a + b + c + d + e == (a + b) + c + (d + e)
    ensures a + b + c + d + e == (a + b + c) + d + e
  {
  }

  /** Four successful extractions in a row are what `ScanHeader` reports. */
  lemma ScanHeaderSteps(data: seq<Byte>, p1: nat, p2: nat, p3: nat, p4: nat,
                        width: int, height: int, maxColorValue: int)
    requires p4 < |data|
    requires ExtractToken(InState(data, 0, false)) == ("P6", InState(data, p1, false))
    requires ExtractInt(InState(data, p1, false)) == (width, InState(data, p2, false))
    requires ExtractInt(InState(data, p2, false)) == (height, InState(data, p3, false))
    requires ExtractInt(InState(data, p3, false)) == (maxColorValue, InState(data, p4, false))
    ensures ScanHeader(data) == Header("P6", width, height, maxColorValue, InState(data, p4 + 1, false))
  {
  }

  /** The header a writer emits is read back as the same magic token, sizes and maximum. */
  lemma ScanHeaderText(width: int, height: int, maxColorValue: int, body: seq<Byte>)
    requires 0 <= width <= INT_MAX && 0 <= height <= INT_MAX && 0 <= maxColorValue <= INT_MAX
    ensures var header := AsciiBytes(HeaderText(width, height, maxColorValue));
            var data := header + body;
            ScanHeader(data) == Header("P6", width, height, maxColorValue, InState(data, |header|, false))
  {
    var w, h, m := NatToString(width), NatToString(height), NatToString(maxColorValue);
    var f1, f2, f3 := "\n" + w, " " + h, " " + m;
    var header := AsciiBytes(HeaderText(width, height, maxColorValue));
    var data := header + body;
    var tail := "\n" + Chars(body);
    assert Chars(data) == "P6" + f1 + f2 + f3 + tail by {
      CharsAppend(header, body);
    }
    assert |header| == 6 + |w| + |h| + |m|;
    assert tail[0] == '\n';
    Regroup("P6", f1, f2, f3, tail);
    var p2, p3, p4 := 3 + |w|, 4 + |w| + |h|, 5 + |w| + |h| + |m|;
    ScanMagic(data);
    ScanField(data, "P6", '\n', width, f2 + (f3 + tail), 2, p2);
    ScanField(data, "P6" + f1, ' ', height, f3 + tail, p2, p3);
    ScanField(data, "P6" + f1 + f2, ' ', maxColorValue, tail, p3, p4);
    ScanHeaderSteps(data, 2, p2, p3, p4, width, height, maxColorValue);
  }

  /**
   * Reading `count` pixels of `bytes`-byte channels from a stream: the pixels the next bytes
   * encode, or the `read_binary` error when the stream has failed or runs out. Nothing is
   * read when `count` is 0.
   */
  function ReadPixelsF(st: InState, count: nat, bytes: nat): (r: Result<seq<Pixel>>)
    requires st.Valid() && (bytes == 1 || bytes == 2)
    ensures r.Ok? ==> |r.value| == count && AllFit(r.value, bytes)
    ensures r.Ok? ==> count == 0 || st.pos + PixelDataSize(count, bytes) <= |st.data|
    ensures r.Err? ==> r.message == READ_ERROR
  {
    if count == 0 then Ok([])
    else if !st.failed && st.pos + PixelDataSize(count, bytes) <= |st.data| then
      Ok(DecodePixels(st.data, st.pos, count, bytes))
    else Err(READ_ERROR)
  }

  /** Reading `count` pixels right after a prefix decodes the bytes that follow it. */
  lemma ReadPixelsAfter(prefix: seq<Byte>, body: seq<Byte>, count: nat, bytes: nat)
    requires (bytes == 1 || bytes == 2) && |body| == PixelDataSize(count, bytes)
    ensures ReadPixelsF(InState(prefix + body, |prefix|, false), count, bytes) == Ok(DecodePixels(body, 0, count, bytes))
  {
    forall k | 0 <= k < count
      ensures PixelAt(prefix + body, |prefix|, k, bytes) == PixelAt(body, 0, k, bytes)
    {
      SliceOfAppend(prefix, body, PixelDataSize(k, bytes), PixelDataSize(k + 1, bytes));
    }
    assert DecodePixels(prefix + body, |prefix|, count, bytes) == DecodePixels(body, 0, count, bytes);
  }

  /** Reading the samples of `ps`, written after any prefix, gives back `ps`. */
  lemma ReadPixelsOfEncoded(prefix: seq<Byte>, ps: seq<Pixel>, bytes: nat)
    requires (bytes == 1 || bytes == 2) && AllFit(ps, bytes)
    ensures ReadPixelsF(InState(prefix + EncodePixels(ps, bytes), |prefix|, false), |ps|, bytes) == Ok(ps)
  {
    DecodeEncodePixels(ps, bytes);
    ReadPixelsAfter(prefix, EncodePixels(ps, bytes), |ps|, bytes);
  }

  /** Decoding one more pixel appends the pixel at the next slot. */
  lemma DecodePixelsSnoc(data: seq<Byte>, start: nat, count: nat, bytes: nat)
    requires bytes == 1 || bytes == 2
    requires start + PixelDataSize(count + 1, bytes) <= |data|
    ensures DecodePixels(data, start, count + 1, bytes) ==
              DecodePixels(data, start, count, bytes) + [PixelAt(data, start, count, bytes)]
  {
    assert PixelDataSize(count, bytes) <= PixelDataSize(count + 1, bytes);
  }

  /** Reading pixels fails when the stream has failed or ends inside pixel `i`. */
  lemma ReadPixelsFails(st: InState, count: nat, bytes: nat, i: nat)
    requires st.Valid() && (bytes == 1 || bytes == 2) && i < count
    requires st.failed || st.pos + PixelDataSize(i + 1, bytes) > |st.data|
    ensures ReadPixelsF(st, count, bytes) == Err(READ_ERROR)
  {
  }

  /** Three `read_binary` calls from a stream state: red, green, blue, stopping at the first error. */
  function ReadPixelF(st: InState, bytes: nat): (r: (Result<Pixel>, InState))
    requires st.Valid() && (bytes == 1 || bytes == 2)
    ensures r.1.Valid() && r.1.data == st.data
  {
    LimitOfChannel(bytes);
    var (red, s1) := ReadBinaryF(st, bytes);
    if red.Err? then (Err(red.message), s1)
    else
      var (green, s2) := ReadBinaryF(s1, bytes);
      if green.Err? then (Err(green.message), s2)
      else
        var (blue, s3) := ReadBinaryF(s2, bytes);
        if blue.Err? then (Err(blue.message), s3)
        else (Ok(Pixel(red.value, green.value, blue.value)), s3)
  }

  /**
   * Reading a pixel gives the pixel its samples encode and moves past them, or the `read_binary`
   * error when the stream has failed or holds fewer than three samples.
   */
  lemma ReadPixelFDecodes(st: InState, bytes: nat)
    requires st.Valid() && (bytes == 1 || bytes == 2)
    ensures if !st.failed && st.pos + PixelDataSize(1, bytes) <= |st.data| then
              ReadPixelF(st, bytes) ==
                (Ok(PixelAt(st.data, st.pos, 0, bytes)), st.(pos := st.pos + PixelDataSize(1, bytes)))
            else
              ReadPixelF(st, bytes).0 == Err(READ_ERROR)
  {
    if !st.failed && st.pos + 3 * bytes <= |st.data| {
      SampleAtIsLittleEndian(st.data, st.pos, bytes);
      SampleAtIsLittleEndian(st.data, st.pos + bytes, bytes);
      SampleAtIsLittleEndian(st.data, st.pos + 2 * bytes, bytes);
    }
  }

  /**
   * One more pixel read after `i` successful ones: on success the first `i + 1` pixels are the
   * first `i` and the new one, and on failure reading `total > i` pixels fails.
   */
  lemma ReadPixelsStep(st: InState, i: nat, total: nat, bytes: nat)
    requires st.Valid() && (bytes == 1 || bytes == 2) && i < total
    requires ReadPixelsF(st, i, bytes).Ok?
    ensures st.pos + PixelDataSize(i, bytes) <= |st.data|
    ensures var cur := st.(pos := st.pos + PixelDataSize(i, bytes));
            var (p, next) := ReadPixelF(cur, bytes);
            if p.Ok? then
              next == st.(pos := st.pos + PixelDataSize(i + 1, bytes)) &&
              ReadPixelsF(st, i + 1, bytes) == Ok(ReadPixelsF(st, i, bytes).value + [p.value])
            else
              p == Err(READ_ERROR) && ReadPixelsF(st, total, bytes) == Err(READ_ERROR)
  {
    var cur := st.(pos := st.pos + PixelDataSize(i, bytes));
    assert PixelDataSize(i + 1, bytes) == PixelDataSize(i, bytes) + PixelDataSize(1, bytes);
    ReadPixelFDecodes(cur, bytes);
    var (p, next) := ReadPixelF(cur, bytes);
    if p.Ok? {
      assert !st.failed && st.pos + PixelDataSize(i + 1, bytes) <= |st.data|;
      assert p.value == PixelAt(st.data, st.pos, i, bytes);
      ReadPixelsSnoc(st, i, bytes);
    } else {
      ReadPixelsFails(st, total, bytes, i);
    }
  }

  /** Reading `i + 1` pixels reads the first `i` and then decodes the next one. */
  lemma ReadPixelsSnoc(st: InState, i: nat, bytes: nat)
    requires st.Valid() && (bytes == 1 || bytes == 2) && !st.failed
    requires st.pos + PixelDataSize(i + 1, bytes) <= |st.data|
    ensures ReadPixelsF(st, i, bytes).Ok?
    ensures ReadPixelsF(st, i + 1, bytes) == Ok(ReadPixelsF(st, i, bytes).value + [PixelAt(st.data, st.pos, i, bytes)])
  {
    DecodePixelsSnoc(st.data, st.pos, i, bytes);
  }

  /** Three `read_binary` calls: the red, green and blue samples of the next pixel. */
  method ReadPixel(input: InputStream, bytes: nat) returns (r: Result<Pixel>)
    requires input.Valid() && (bytes == 1 || bytes == 2)
    modifies input
    ensures input.Valid() && (r, input.state) == ReadPixelF(old(input.state), bytes)
  {
    var red := ReadBinary(input, bytes);
    if red.Err? {
      return Err(red.message);
    }
    var green := ReadBinary(input, bytes);
    if green.Err? {
      return Err(green.message);
    }
    var blue := ReadBinary(input, bytes);
    if blue.Err? {
      return Err(blue.message);
    }
    LimitOfChannel(bytes);
    r := Ok(Pixel(red.value, green.value, blue.value));
  }

  /**
   * Three `write_binary` calls: the red, green and blue samples of one pixel. On a stream that
   * refuses writes the first call throws "Failed to write binary data." and nothing is appended.
   */
  method WritePixel(output: OutputStream, p: Pixel, bytes: nat) returns (outcome: Outcome)
    requires (bytes == 1 || bytes == 2) && FitsIn(p, bytes)
    modifies output
    ensures output.bad == old(output.bad)
    ensures outcome == if output.bad then Fail(WRITE_ERROR) else Pass
    ensures output.bytes == if output.bad then old(output.bytes) else old(output.bytes) + EncodePixel(p, bytes)
  {
    EncodeSampleIsLittleEndian(p.red, bytes);
    EncodeSampleIsLittleEndian(p.green, bytes);
    EncodeSampleIsLittleEndian(p.blue, bytes);
    outcome := WriteBinary(output, p.red, bytes);
    if outcome.Fail? {
      return;
    }
    outcome := WriteBinary(output, p.green, bytes);
    outcome := WriteBinary(output, p.blue, bytes);
  }
}
