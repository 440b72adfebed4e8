/**
 * imgsoa/imagesoa.cpp: reading a binary PPM file into the structure-of-arrays image (three
 * parallel channel vectors per channel width), writing it back, and the pixel-format line of
 * `info`. Unlike the array-of-structures reader, this one does not check the header numbers.
 */
module ImageSoa {
  import opened Decimal
  import opened Pixels
  import opened Results
  import opened Streams
  import opened BinaryIo
  import opened Ppm

  /** `MAX_INSTENSITY` of imgsoa/imagesoa.hpp: the largest maximum value `info` supports. */
  const MAX_INTENSITY: int := 65535

  /**
   * The contents of an `SOAImage`: the header fields, the `uint8_t` vectors `red1`, `green1`,
   * `blue1` and the `uint16_t` vectors `red2`, `green2`, `blue2`.
   */
  datatype SoaImage = SoaImage(width: int, height: int, maxColorValue: int,
                               red1: seq<Channel>, green1: seq<Channel>, blue1: seq<Channel>,
                               red2: seq<Channel>, green2: seq<Channel>, blue2: seq<Channel>)
  {
    /** The `*1_components` vectors hold `uint8_t` values. */
    predicate Valid() {
      ChannelsFit(red1, 1) && ChannelsFit(green1, 1) && ChannelsFit(blue1, 1)
    }

    /** Bytes per channel the maximum value selects. */
    function Bytes(): (b: nat)
      ensures b == 1 || b == 2
    {
      BytesPerComponent(maxColorValue)
    }

    /** The vectors the maximum value selects hold at least `count` entries each. */
    predicate Covers(count: nat) {
      if Bytes() == 1 then count <= |red1| && count <= |green1| && count <= |blue1|
      else count <= |red2| && count <= |green2| && count <= |blue2|
    }

    /** The first `count` colours of the vectors the maximum value selects. */
    function Colors(count: nat): (ps: seq<Pixel>)
      requires Valid() && Covers(count)
      ensures |ps| == count && AllFit(ps, Bytes())
    {
      if Bytes() == 1 then
        ColorTuplesFit(red1, green1, blue1, count, 1);
        ColorTuples(red1, green1, blue1, count)
      else
        ColorTuples(red2, green2, blue2, count)
    }
  }

  /** An `SOAImage` object, whose channel vectors the filters update in place. */
  class PpmImageSoa {
    var width: int
    var height: int
    var maxColorValue: int
    var red1: seq<Channel>
    var green1: seq<Channel>
    var blue1: seq<Channel>
    var red2: seq<Channel>
    var green2: seq<Channel>
    var blue2: seq<Channel>

    ghost predicate Valid()
      reads this
    {
      Value().Valid()
    }

    function Value(): SoaImage
      reads this
    {
      SoaImage(width, height, maxColorValue, red1, green1, blue1, red2, green2, blue2)
    }

    /** An `SOAImage` object holding the given contents. */
    constructor (value: SoaImage)
      ensures Value() == value
    {
      width, height, maxColorValue := value.width, value.height, value.maxColorValue;
      red1, green1, blue1 := value.red1, value.green1, value.blue1;
      red2, green2, blue2 := value.red2, value.green2, value.blue2;
    }
  }

  /** The channel vectors the filters and `compress` work on: the `uint8_t` ones for a small maximum. */
  function Selected(image: SoaImage): (c: Channels)
    ensures image.maxColorValue <= MAX_INTENSITY_FOR_1B ==> c == Channels(image.red1, image.green1, image.blue1)
    ensures image.maxColorValue > MAX_INTENSITY_FOR_1B ==> c == Channels(image.red2, image.green2, image.blue2)
  {
    if image.maxColorValue <= MAX_INTENSITY_FOR_1B then Channels(image.red1, image.green1, image.blue1)
    else Channels(image.red2, image.green2, image.blue2)
  }

  /** The channel vectors the maximum value does not select. */
  function Unselected(image: SoaImage): (c: Channels)
    ensures image.maxColorValue <= MAX_INTENSITY_FOR_1B ==> c == Channels(image.red2, image.green2, image.blue2)
    ensures image.maxColorValue > MAX_INTENSITY_FOR_1B ==> c == Channels(image.red1, image.green1, image.blue1)
  {
    if image.maxColorValue <= MAX_INTENSITY_FOR_1B then Channels(image.red2, image.green2, image.blue2)
    else Channels(image.red1, image.green1, image.blue1)
  }

  /** The image whose selected vectors hold the channels of `ps` and whose other vectors are empty. */
  function FromColors(width: int, height: int, maxColorValue: int, ps: seq<Pixel>): (image: SoaImage)
    requires AllFit(ps, BytesPerComponent(maxColorValue))
    ensures image.Valid() && image.Covers(|ps|)
  {
    if maxColorValue <= MAX_INTENSITY_FOR_1B then
      ChannelsOfFit(ps, 1);
      SoaImage(width, height, maxColorValue, Reds(ps), Greens(ps), Blues(ps), [], [], [])
    else
      SoaImage(width, height, maxColorValue, [], [], [], Reds(ps), Greens(ps), Blues(ps))
  }

  /**
   * What `readImageSOA` makes of the file's bytes: the magic token must be `P6`; then
   * `width * height` (as `size_t`) pixels are read, whatever the header numbers are, and their
   * channels fill the vectors the maximum value selects.
   */
  function ReadSoaF(data: seq<Byte>): (r: Result<SoaImage>)
    ensures r.Ok? ==> r.value.Valid() && r.value.Covers(PixelCount(r.value.width, r.value.height))
    ensures r.Err? ==> r.message in {UNSUPPORTED_FORMAT, READ_ERROR}
  {
    var hd := ScanHeader(data);
    if hd.magic != "P6" then Err(UNSUPPORTED_FORMAT)
    else
      var bytes := BytesPerComponent(hd.maxColorValue);
      match ReadPixelsF(hd.body, PixelCount(hd.width, hd.height), bytes)
      case Err(message) => Err(message)
      case Ok(ps) => Ok(FromColors(hd.width, hd.height, hd.maxColorValue, ps))
  }

  /**
   * The read loop of `readImageSOA`: three vectors of `total` entries, and for each index the
   * red, green and blue `read_binary` calls stored at that index.
   */
  method ReadChannels(file: InputStream, total: nat, bytes: nat)
      returns (r: Result<(seq<Channel>, seq<Channel>, seq<Channel>)>, ghost ps: seq<Pixel>)
    requires file.Valid() && (bytes == 1 || bytes == 2)
    modifies file
    ensures file.Valid()
    ensures r.Ok? ==> ReadPixelsF(old(file.state), total, bytes) == Ok(ps) && r.value == (Reds(ps), Greens(ps), Blues(ps))
    ensures r.Err? ==> ReadPixelsF(old(file.state), total, bytes) == Err(r.message)
  {
    ghost var body := file.state;
    var red := seq(total, _ => 0);
    var green := seq(total, _ => 0);
    var blue := seq(total, _ => 0);
    ps := [];
    var i := 0;
    while i < total
      invariant 0 <= i <= total && |red| == |green| == |blue| == total
      invariant ReadPixelsF(body, i, bytes) == Ok(ps) && |ps| == i
      invariant forall k | 0 <= k < i :: red[k] == ps[k].red && green[k] == ps[k].green && blue[k] == ps[k].blue
      invariant file.Valid() && file.state == body.(pos := body.pos + PixelDataSize(i, bytes))
      modifies file
    {
      ReadPixelsStep(body, i, total, bytes);
      var p := ReadPixel(file, bytes);
      if p.Err? {
        r := Err(p.message);
        return;
      }
      red, green, blue := red[i := p.value.red], green[i := p.value.green], blue[i := p.value.blue];
      ps := ps + [p.value];
      i := i + 1;
    }
    assert red == Reds(ps) && green == Greens(ps) && blue == Blues(ps);
    r := Ok((red, green, blue));
  }

  /** `readImageSOA`: the magic check, the three header numbers, then the read loop. */
  method ReadImageSoa(data: seq<Byte>) returns (r: Result<PpmImageSoa>)
    ensures r.Ok? ==> fresh(r.value) && r.value.Valid() && ReadSoaF(data) == Ok(r.value.Value())
    ensures r.Err? ==> ReadSoaF(data) == Err(r.message)
  {
    ghost var hd := ScanHeader(data);
    var file := new InputStream(data);
    var magic := file.ReadToken();
    if magic != "P6" {
      return Err(UNSUPPORTED_FORMAT);
    }
    var width := file.ReadInt();
    var height := file.ReadInt();
    var maxColorValue := file.ReadInt();
    file.SkipByte();
    assert file.state == hd.body;
    var bytes := BytesPerComponent(maxColorValue);
    var channels, ps := ReadChannels(file, PixelCount(width, height), bytes);
    if channels.Err? {
      return Err(channels.message);
    }
    var (red, green, blue) := channels.value;
    var value := if bytes == 1 then SoaImage(width, height, maxColorValue, red, green, blue, [], [], [])
                 else SoaImage(width, height, maxColorValue, [], [], [], red, green, blue);
    ReadSoaOfPixels(data, ps);
    var image := new PpmImageSoa(value);
    r := Ok(image);
  }

  /** When the magic token is `P6` and the pixels can be read, the image holds their channels. */
  lemma ReadSoaOfPixels(data: seq<Byte>, ps: seq<Pixel>)
    requires var hd := ScanHeader(data);
             hd.magic == "P6" &&
             ReadPixelsF(hd.body, PixelCount(hd.width, hd.height), BytesPerComponent(hd.maxColorValue)) == Ok(ps)
    ensures var hd := ScanHeader(data);
            ReadSoaF(data) ==
              if hd.maxColorValue <= MAX_INTENSITY_FOR_1B then
                Ok(SoaImage(hd.width, hd.height, hd.maxColorValue, Reds(ps), Greens(ps), Blues(ps), [], [], []))
              else
                Ok(SoaImage(hd.width, hd.height, hd.maxColorValue, [], [], [], Reds(ps), Greens(ps), Blues(ps)))
  {
  }

  /**
   * The bytes `writeImageSOA` produces: the text header, then red, green and blue of the first
   * `width * height` indices of the selected vectors.
   */
  function WriteSoaF(image: SoaImage): (bs: seq<Byte>)
    requires image.Valid() && image.Covers(PixelCount(image.width, image.height))
  {
    AsciiBytes(HeaderText(image.width, image.height, image.maxColorValue)) +
      EncodePixels(image.Colors(PixelCount(image.width, image.height)), image.Bytes())
  }

  /**
   * The write loop of `writeImageSOA`: for each index below `count`, three `write_binary`
   * calls with the red, green and blue entries.
   */
  method WriteChannels(output: OutputStream, red: seq<Channel>, green: seq<Channel>, blue: seq<Channel>,
                       count: nat, bytes: nat)
    requires (bytes == 1 || bytes == 2) && !output.bad
    requires count <= |red| && count <= |green| && count <= |blue|
    requires ChannelsFit(red, bytes) && ChannelsFit(green, bytes) && ChannelsFit(blue, bytes)
    modifies output
    ensures !output.bad
    ensures AllFit(ColorTuples(red, green, blue, count), bytes) &&
            output.bytes == old(output.bytes) + EncodePixels(ColorTuples(red, green, blue, count), bytes)
  {
    ghost var start := output.bytes;
    ghost var ps := ColorTuples(red, green, blue, count);
    ColorTuplesFit(red, green, blue, count, bytes);
    var i := 0;
    while i < count
      invariant 0 <= i <= count && !output.bad
      invariant output.bytes == start + EncodePixels(ps[..i], bytes)
    {
      ghost var done := ps[..i];
      ghost var written := EncodePixels(done, bytes);
      var p := Pixel(red[i], green[i], blue[i]);
      assert p == ps[i];
      var pixelOutcome := WritePixel(output, p, bytes);
      assert output.bytes == start + (written + EncodePixel(p, bytes));
      EncodePixelsSnoc(done, p, bytes);
      PrefixSnoc(ps, i);
      i := i + 1;
    }
    assert ps[..i] == ps;
  }

  /**
   * `writeImageSOA`: a stream that could not be opened is an error; otherwise `P6\n`, then
   * `w h `, then `max\n`, then the samples. The selected vectors must have `width * height`
   * entries (the loop indexes them without a check).
   */
  method WriteImageSoa(output: OutputStream, image: PpmImageSoa) returns (outcome: Outcome)
    requires image.Valid() && image.Value().Covers(PixelCount(image.width, image.height))
    modifies output
    ensures outcome == if old(output.bad) then Fail(OPEN_FOR_WRITING_ERROR) else Pass
    ensures output.bytes == if old(output.bad) then old(output.bytes)
                            else old(output.bytes) + WriteSoaF(image.Value())
  {
    if output.bad {
      return Fail(OPEN_FOR_WRITING_ERROR);
    }
    ghost var start := output.bytes;
    var v := image.Value();
    var text := HeaderText(v.width, v.height, v.maxColorValue);
    output.WriteText(text);
    var count := PixelCount(v.width, v.height);
    var bytes := v.Bytes();
    if bytes == 1 {
      WriteChannels(output, v.red1, v.green1, v.blue1, count, bytes);
    } else {
      WriteChannels(output, v.red2, v.green2, v.blue2, count, bytes);
    }
    AppendAssoc(start, AsciiBytes(text), EncodePixels(v.Colors(count), bytes));
    outcome := Pass;
  }

  /** The image `readImageSOA` can reproduce: non-negative header numbers, exact selected vectors. */
  predicate Reproducible(image: SoaImage) {
    && image.Valid()
    && 0 <= image.width <= INT_MAX && 0 <= image.height <= INT_MAX && 0 <= image.maxColorValue <= INT_MAX
    && var count := PixelCount(image.width, image.height);
       if image.Bytes() == 1 then
         |image.red1| == |image.green1| == |image.blue1| == count && image.red2 == image.green2 == image.blue2 == []
       else
         |image.red2| == |image.green2| == |image.blue2| == count && image.red1 == image.green1 == image.blue1 == []
  }

  /** Reading back what `writeImageSOA` wrote restores the header numbers and the channel vectors. */
  lemma ReadAfterWrite(image: SoaImage)
    requires Reproducible(image)
    ensures image.Covers(PixelCount(image.width, image.height))
    ensures ReadSoaF(WriteSoaF(image)) == Ok(image)
  {
    var count := PixelCount(image.width, image.height);
    var bytes := image.Bytes();
    var ps := image.Colors(count);
    var header := AsciiBytes(HeaderText(image.width, image.height, image.maxColorValue));
    ScanHeaderText(image.width, image.height, image.maxColorValue, EncodePixels(ps, bytes));
    ReadPixelsOfEncoded(header, ps, bytes);
    if bytes == 1 {
      ChannelsOfColorTuples(image.red1, image.green1, image.blue1);
    } else {
      ChannelsOfColorTuples(image.red2, image.green2, image.blue2);
    }
  }

  /** The pixel-format line `infoImageSOA` prints for a maximum value. */
  function PixelFormatSoa(maxColorValue: int): (line: string)
    ensures line == FORMAT_8_BIT <==> maxColorValue <= MAX_INTENSITY_FOR_1B
    ensures line == FORMAT_16_BIT <==> MAX_INTENSITY_FOR_1B < maxColorValue <= MAX_INTENSITY
    ensures line == FORMAT_UNSUPPORTED <==> maxColorValue > MAX_INTENSITY
  {
    if maxColorValue <= MAX_INTENSITY_FOR_1B then FORMAT_8_BIT
    else if maxColorValue <= MAX_INTENSITY then FORMAT_16_BIT
    else FORMAT_UNSUPPORTED
  }
}
