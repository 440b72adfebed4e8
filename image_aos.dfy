/**
 * imgaos/imageaos.cpp: reading a binary PPM file into the array-of-structures image (one
 * `SmallPixel` or `LargePixel` record per pixel), writing it back, and the pixel-format line
 * of `info`. The file is a byte sequence; opening it and printing are not modelled.
 */
module ImageAos {
  import opened Decimal
  import opened Pixels
  import opened Results
  import opened Streams
  import opened BinaryIo
  import opened Ppm

  const INVALID_SIZE: string := "Invalid image size."

  /** `MAX_INTENSITY_AOS` of imgaos/maxlevelaos.hpp, the bound `info` compares against. */
  const MAX_INTENSITY_AOS: int := 65536

  /**
   * The contents of a `PPMImageAOS`: the header fields and both pixel vectors. Only the vector
   * chosen by the maximum value holds the pixels; the other one stays empty.
   */
  datatype AosImage = AosImage(width: int, height: int, maxColorValue: int,
                               sPixels: seq<Pixel>, lPixels: seq<Pixel>)
  {
    /** `sPixels` holds `SmallPixel`s: every channel is a `uint8_t`. */
    predicate Valid() {
      AllFit(sPixels, 1)
    }

    /** The vector the readers, writers and filters use: `sPixels` iff max <= 255. */
    function Active(): (ps: seq<Pixel>)
      requires Valid()
      ensures AllFit(ps, BytesPerComponent(maxColorValue))
    {
      if maxColorValue <= MAX_INTENSITY_FOR_1B then sPixels else lPixels
    }

    /** The vector the maximum value does not select. */
    function Inactive(): seq<Pixel> {
      if maxColorValue <= MAX_INTENSITY_FOR_1B then lPixels else sPixels
    }
  }

  /** A `PPMImageAOS` object, whose vectors the filters update in place. */
  class PpmImageAos {
    var width: int
    var height: int
    var maxColorValue: int
    var sPixels: seq<Pixel>
    var lPixels: seq<Pixel>

    ghost predicate Valid()
      reads this
    {
      Value().Valid()
    }

    function Value(): AosImage
      reads this
    {
      AosImage(width, height, maxColorValue, sPixels, lPixels)
    }

    /** `PPMImageAOS image;`, with the value-initialised fields and empty vectors. */
    constructor ()
      ensures Valid() && Value() == AosImage(0, 0, 0, [], [])
    {
      width, height, maxColorValue := 0, 0, 0;
      sPixels, lPixels := [], [];
    }
  }

  /**
   * What `readImageAOS` makes of the file's bytes: the magic token must be `P6`, the three
   * header numbers must be at least 1, then `width * height` pixels are read into the vector
   * the maximum value selects.
   */
  function ReadAosF(data: seq<Byte>): (r: Result<AosImage>)
    ensures r.Ok? ==> r.value.Valid() && r.value.Inactive() == []
    ensures r.Ok? ==> r.value.width >= 1 && r.value.height >= 1 && r.value.maxColorValue >= 1
    ensures r.Ok? ==> |r.value.Active()| == r.value.width * r.value.height
    ensures r.Err? ==> r.message in {UNSUPPORTED_FORMAT, INVALID_SIZE, READ_ERROR}
  {
    var hd := ScanHeader(data);
    if hd.magic != "P6" then Err(UNSUPPORTED_FORMAT)
    else if hd.width < 1 || hd.height < 1 || hd.maxColorValue < 1 then Err(INVALID_SIZE)
    else
      var bytes := BytesPerComponent(hd.maxColorValue);
      var total := PixelCount(hd.width, hd.height);
      match ReadPixelsF(hd.body, total, bytes)
      case Err(message) => Err(message)
      case Ok(ps) =>
        if bytes == 1 then Ok(AosImage(hd.width, hd.height, hd.maxColorValue, ps, []))
        else Ok(AosImage(hd.width, hd.height, hd.maxColorValue, [], ps))
  }

  /**
   * The pixel loop of `readImageAOS`: `total` records, each filled by three `read_binary`
   * calls, stored by index into a vector of `total` elements.
   */
  method ReadPixelVector(file: InputStream, total: nat, bytes: nat) returns (r: Result<seq<Pixel>>)
    requires file.Valid() && (bytes == 1 || bytes == 2)
    modifies file
    ensures file.Valid() && file.state.data == old(file.state.data)
    ensures r == ReadPixelsF(old(file.state), total, bytes)
    ensures r.Ok? ==> file.state == old(file.state).(pos := old(file.state).pos + PixelDataSize(total, bytes))
  {
    ghost var body := file.state;
    var pixels := seq(total, _ => Pixel(0, 0, 0));
    var i := 0;
    while i < total
      invariant 0 <= i <= total && |pixels| == total
      invariant ReadPixelsF(body, i, bytes) == Ok(pixels[..i])
      invariant file.Valid() && file.state == body.(pos := body.pos + PixelDataSize(i, bytes))
      modifies file
    {
      ReadPixelsStep(body, i, total, bytes);
      var p := ReadPixel(file, bytes);
      if p.Err? {
        return Err(p.message);
      }
      PrefixUpdate(pixels, i, p.value);
      pixels := pixels[i := p.value];
      i := i + 1;
    }
    assert pixels[..total] == pixels;
    r := Ok(pixels);
  }

  /** `readImageAOS`: the header checks, then the pixel loop into the selected vector. */
  method ReadImageAos(data: seq<Byte>) returns (r: Result<PpmImageAos>)
    ensures r.Ok? ==> fresh(r.value) && r.value.Valid() && ReadAosF(data) == Ok(r.value.Value())
    ensures r.Err? ==> ReadAosF(data) == Err(r.message)
  {
    ghost var hd := ScanHeader(data);
    var file := new InputStream(data);
    var magic := file.ReadToken();
    if magic != "P6" {
      return Err(UNSUPPORTED_FORMAT);
    }
    var width := file.ReadInt();
    var height := file.ReadInt();
    var maxColorValue := file.ReadInt();
    if width < 1 || height < 1 || maxColorValue < 1 {
      return Err(INVALID_SIZE);
    }
    file.SkipByte();
    assert file.state == hd.body;
    var bytes := BytesPerComponent(maxColorValue);
    var total := PixelCount(width, height);
    var pixels := ReadPixelVector(file, total, bytes);
    if pixels.Err? {
      return Err(pixels.message);
    }
    var image := new PpmImageAos();
    image.width, image.height, image.maxColorValue := width, height, maxColorValue;
    if bytes == 1 {
      image.sPixels := pixels.value;
    } else {
      image.lPixels := pixels.value;
    }
    r := Ok(image);
  }

  /** The bytes `writeImageAOS` produces: the text header, then the active vector's samples. */
  function WriteAosF(image: AosImage): (bs: seq<Byte>)
    requires image.Valid()
    ensures |bs| == |HeaderText(image.width, image.height, image.maxColorValue)| +
                    PixelDataSize(|image.Active()|, BytesPerComponent(image.maxColorValue))
  {
    var bytes := BytesPerComponent(image.maxColorValue);
    EncodePixelsLength(image.Active(), bytes);
    AsciiBytes(HeaderText(image.width, image.height, image.maxColorValue)) + EncodePixels(image.Active(), bytes)
  }

  /** The pixel loop of `writeImageAOS`: three `write_binary` calls per element of `pixels`. */
  method WritePixelVector(output: OutputStream, pixels: seq<Pixel>, bytes: nat)
    requires (bytes == 1 || bytes == 2) && AllFit(pixels, bytes) && !output.bad
    modifies output
    ensures !output.bad && output.bytes == old(output.bytes) + EncodePixels(pixels, bytes)
  {
    ghost var start := output.bytes;
    var i := 0;
    while i < |pixels|
      invariant 0 <= i <= |pixels| && !output.bad
      invariant output.bytes == start + EncodePixels(pixels[..i], bytes)
    {
      ghost var done := pixels[..i];
      ghost var written := EncodePixels(done, bytes);
      var pixelOutcome := WritePixel(output, pixels[i], bytes);
      assert output.bytes == start + (written + EncodePixel(pixels[i], bytes));
      EncodePixelsSnoc(done, pixels[i], bytes);
      PrefixSnoc(pixels, i);
      i := i + 1;
    }
    assert pixels[..i] == pixels;
  }

  /**
   * `writeImageAOS`: a stream that could not be opened is an error; otherwise the header text
   * and then every pixel of the active vector.
   */
  method WriteImageAos(output: OutputStream, image: PpmImageAos) returns (outcome: Outcome)
    requires image.Valid()
    modifies output
    ensures outcome == if old(output.bad) then Fail(OPEN_FOR_WRITING_ERROR) else Pass
    ensures output.bytes == if old(output.bad) then old(output.bytes)
                            else old(output.bytes) + WriteAosF(image.Value())
  {
    if output.bad {
      return Fail(OPEN_FOR_WRITING_ERROR);
    }
    ghost var start := output.bytes;
    var text := HeaderText(image.width, image.height, image.maxColorValue);
    output.WriteText(text);
    var bytes := BytesPerComponent(image.maxColorValue);
    var pixels := if bytes == 1 then image.sPixels else image.lPixels;
    assert pixels == image.Value().Active();
    WritePixelVector(output, pixels, bytes);
    assert output.bytes == start + (AsciiBytes(text) + EncodePixels(pixels, bytes));
    outcome := Pass;
  }

  /** `readImageAOS` of a written header followed by the samples of `ps`. */
  lemma ReadAosOfParts(width: int, height: int, maxColorValue: int, body: seq<Byte>, ps: seq<Pixel>)
    requires 1 <= width <= INT_MAX && 1 <= height <= INT_MAX && 1 <= maxColorValue <= INT_MAX
    requires |ps| == width * height
    requires |body| == PixelDataSize(|ps|, BytesPerComponent(maxColorValue))
    requires DecodePixels(body, 0, |ps|, BytesPerComponent(maxColorValue)) == ps
    ensures ReadAosF(AsciiBytes(HeaderText(width, height, maxColorValue)) + body) ==
            if maxColorValue <= MAX_INTENSITY_FOR_1B then Ok(AosImage(width, height, maxColorValue, ps, []))
            else Ok(AosImage(width, height, maxColorValue, [], ps))
  {
    var header := AsciiBytes(HeaderText(width, height, maxColorValue));
    ScanHeaderText(width, height, maxColorValue, body);
    ReadPixelsAfter(header, body, |ps|, BytesPerComponent(maxColorValue));
    assert PixelCount(width, height) == |ps|;
  }

  /**
   * Reading back what `writeImageAOS` wrote gives the same image, for every image `readImageAOS`
   * can produce: positive header fields that fit an `int` and `width * height` pixels.
   */
  lemma ReadAfterWrite(image: AosImage)
    requires image.Valid() && image.Inactive() == []
    requires 1 <= image.width <= INT_MAX && 1 <= image.height <= INT_MAX
    requires 1 <= image.maxColorValue <= INT_MAX
    requires |image.Active()| == image.width * image.height
    ensures ReadAosF(WriteAosF(image)) == Ok(image)
  {
    var bytes := BytesPerComponent(image.maxColorValue);
    DecodeEncodePixels(image.Active(), bytes);
    ReadAosOfParts(image.width, image.height, image.maxColorValue, EncodePixels(image.Active(), bytes), image.Active());
  }

  /** The pixel-format line `infoImageAOS` prints for a maximum value. */
  function PixelFormatAos(maxColorValue: int): (line: string)
    ensures line == FORMAT_8_BIT <==> maxColorValue <= MAX_INTENSITY_FOR_1B
    ensures line == FORMAT_16_BIT <==> MAX_INTENSITY_FOR_1B < maxColorValue < MAX_INTENSITY_AOS
    ensures line == FORMAT_UNSUPPORTED <==> maxColorValue >= MAX_INTENSITY_AOS
  {
    if maxColorValue <= MAX_INTENSITY_FOR_1B then FORMAT_8_BIT
    else if maxColorValue < MAX_INTENSITY_AOS then FORMAT_16_BIT
    else FORMAT_UNSUPPORTED
  }

  /**
   * The byte count the format line announces is the size of one pixel record as the reader
   * and writer lay it out.
   */
  lemma PixelFormatAosMatchesLayout(maxColorValue: int)
    requires PixelFormatAos(maxColorValue) != FORMAT_UNSUPPORTED
    ensures PixelFormatAos(maxColorValue) == FORMAT_8_BIT ==> PixelDataSize(1, BytesPerComponent(maxColorValue)) == 3
    ensures PixelFormatAos(maxColorValue) == FORMAT_16_BIT ==> PixelDataSize(1, BytesPerComponent(maxColorValue)) == 6
  {
  }
}
