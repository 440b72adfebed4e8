/**
 * imgaos/maxlevelaos.cpp: `maxLevelImageAOS` rescales every channel of the array-of-structures
 * image to a new maximum value. The source vector is chosen by the old maximum and the
 * destination vector by the new one, which gives the four `scale*` functions. The image is a
 * parameter here; reading it from its file is `ReadImageAos`.
 */
module MaxLevelAos {
  import opened Decimal
  import opened Pixels
  import opened Results
  import opened ImageAos
  import opened MaxLevel

  /**
   * What a `scale*` function needs of the image it reads: a non-zero maximum to divide by, at
   * least `count` pixels, and no `int` overflow in `channel * newMaxLevel`.
   */
  predicate Scalable(source: seq<Pixel>, count: nat, newMax: int, oldMax: int) {
    oldMax >= 1 && count <= |source| && forall i | 0 <= i < count :: ProductsFit(source[i], newMax)
  }

  /**
   * The loop shared by the four `scale*` functions: resize the destination vector to `count`
   * pixels, then assign the scaled red, green and blue of every pixel of the source.
   */
  method ScaleVector(destination: seq<Pixel>, source: seq<Pixel>, count: nat, newMax: nat, oldMax: int, bytes: nat)
    returns (scaled: seq<Pixel>)
    requires (bytes == 1 || bytes == 2) && Scalable(source, count, newMax, oldMax)
    ensures scaled == ScaledPixels(source, count, newMax, oldMax, bytes)
  {
    scaled := Resized(destination, count, Pixel(0, 0, 0));
    for i := 0 to count
      invariant |scaled| == count
      invariant forall k | 0 <= k < i :: scaled[k] == ScalePixel(source[k], newMax, oldMax, bytes)
    {
      var pixel := source[i];
      scaled := scaled[i := scaled[i].(red := ScaleChannel(pixel.red, newMax, oldMax, bytes))];
      scaled := scaled[i := scaled[i].(green := ScaleChannel(pixel.green, newMax, oldMax, bytes))];
      scaled := scaled[i := scaled[i].(blue := ScaleChannel(pixel.blue, newMax, oldMax, bytes))];
    }
  }

  /** `scaleSmallToLarge`: `sPixels` of the image into `lPixels` of the scaled image. */
  method ScaleSmallToLarge(image: PpmImageAos, scaled: PpmImageAos, newMax: nat)
    requires image != scaled
    requires Scalable(image.sPixels, PixelCount(scaled.width, scaled.height), newMax, image.maxColorValue)
    modifies scaled
    ensures scaled.Value() == old(scaled.Value()).(lPixels := scaled.lPixels)
    ensures scaled.lPixels == ScaledPixels(image.sPixels, PixelCount(scaled.width, scaled.height), newMax,
                                           image.maxColorValue, 2)
  {
    var count := PixelCount(scaled.width, scaled.height);
    scaled.lPixels := ScaleVector(scaled.lPixels, image.sPixels, count, newMax, image.maxColorValue, 2);
  }

  /** `scaleLargeToSmall`: `lPixels` of the image into `sPixels` of the scaled image. */
  method ScaleLargeToSmall(image: PpmImageAos, scaled: PpmImageAos, newMax: nat)
    requires image != scaled
    requires Scalable(image.lPixels, PixelCount(scaled.width, scaled.height), newMax, image.maxColorValue)
    modifies scaled
    ensures scaled.Value() == old(scaled.Value()).(sPixels := scaled.sPixels)
    ensures scaled.sPixels == ScaledPixels(image.lPixels, PixelCount(scaled.width, scaled.height), newMax,
                                           image.maxColorValue, 1)
  {
    var count := PixelCount(scaled.width, scaled.height);
    scaled.sPixels := ScaleVector(scaled.sPixels, image.lPixels, count, newMax, image.maxColorValue, 1);
  }

  /** `scaleSmallToSmall`: `sPixels` of the image into `sPixels` of the scaled image. */
  method ScaleSmallToSmall(image: PpmImageAos, scaled: PpmImageAos, newMax: nat)
    requires image != scaled
    requires Scalable(image.sPixels, PixelCount(scaled.width, scaled.height), newMax, image.maxColorValue)
    modifies scaled
    ensures scaled.Value() == old(scaled.Value()).(sPixels := scaled.sPixels)
    ensures scaled.sPixels == ScaledPixels(image.sPixels, PixelCount(scaled.width, scaled.height), newMax,
                                           image.maxColorValue, 1)
  {
    var count := PixelCount(scaled.width, scaled.height);
    scaled.sPixels := ScaleVector(scaled.sPixels, image.sPixels, count, newMax, image.maxColorValue, 1);
  }

  /** `scaleLargeToLarge`: `lPixels` of the image into `lPixels` of the scaled image. */
  method ScaleLargeToLarge(image: PpmImageAos, scaled: PpmImageAos, newMax: nat)
    requires image != scaled
    requires Scalable(image.lPixels, PixelCount(scaled.width, scaled.height), newMax, image.maxColorValue)
    modifies scaled
    ensures scaled.Value() == old(scaled.Value()).(lPixels := scaled.lPixels)
    ensures scaled.lPixels == ScaledPixels(image.lPixels, PixelCount(scaled.width, scaled.height), newMax,
                                           image.maxColorValue, 2)
  {
    var count := PixelCount(scaled.width, scaled.height);
    scaled.lPixels := ScaleVector(scaled.lPixels, image.lPixels, count, newMax, image.maxColorValue, 2);
  }

  /** The maximum values `maxLevelImageAOS` refuses: not positive, or above `MAX_INTENSITY_AOS`. */
  predicate RefusedAos(newMax: int) {
    newMax <= 0 || newMax > MAX_INTENSITY_AOS
  }

  /**
   * The image `maxLevelImageAOS` returns: the header with the new maximum, and the scaled active
   * vector in the vector the new maximum selects; the other vector is empty.
   */
  function MaxLevelAosF(image: AosImage, newMax: int): (r: Result<AosImage>)
    requires image.Valid()
    requires RefusedAos(newMax) || Scalable(image.Active(), PixelCount(image.width, image.height), newMax, image.maxColorValue)
    ensures r.Err? <==> RefusedAos(newMax)
    ensures r.Err? ==> r.message == MAX_LEVEL_ERROR
    ensures r.Ok? ==> && r.value.Valid() && r.value.Inactive() == []
                      && r.value.width == image.width && r.value.height == image.height
                      && r.value.maxColorValue == newMax
                      && |r.value.Active()| == PixelCount(image.width, image.height)
  {
    if RefusedAos(newMax) then Err(MAX_LEVEL_ERROR)
    else
      var count := PixelCount(image.width, image.height);
      var scaled := ScaledPixels(image.Active(), count, newMax, image.maxColorValue, BytesPerComponent(newMax));
      if newMax <= MAX_INTENSITY_FOR_1B then Ok(AosImage(image.width, image.height, newMax, scaled, []))
      else Ok(AosImage(image.width, image.height, newMax, [], scaled))
  }

  /**
   * `maxLevelImageAOS`: refuse a maximum out of range, then build the scaled image field by field
   * and fill its vector with the `scale*` function for the old and new pixel formats.
   */
  method MaxLevelImageAos(image: PpmImageAos, newMax: int) returns (r: Result<PpmImageAos>)
    requires image.Valid()
    requires RefusedAos(newMax) ||
             Scalable(image.Value().Active(), PixelCount(image.width, image.height), newMax, image.maxColorValue)
    ensures r.Err? ==> MaxLevelAosF(image.Value(), newMax) == Err(r.message)
    ensures r.Ok? ==> fresh(r.value) && r.value.Valid() && MaxLevelAosF(image.Value(), newMax) == Ok(r.value.Value())
  {
    if newMax <= 0 || newMax > MAX_INTENSITY_AOS {
      return Err(MAX_LEVEL_ERROR);
    }
    var scaled := new PpmImageAos();
    scaled.width := image.width;
    scaled.height := image.height;
    scaled.maxColorValue := newMax;
    var isNewSmallPixel := newMax <= MAX_INTENSITY_FOR_1B;
    var isOldSmallPixel := image.maxColorValue <= MAX_INTENSITY_FOR_1B;
    if isOldSmallPixel && !isNewSmallPixel {
      ScaleSmallToLarge(image, scaled, newMax);
    } else if !isOldSmallPixel && isNewSmallPixel {
      ScaleLargeToSmall(image, scaled, newMax);
    } else if isNewSmallPixel {
      ScaleSmallToSmall(image, scaled, newMax);
    } else {
      ScaleLargeToLarge(image, scaled, newMax);
    }
    r := Ok(scaled);
  }

  /**
   * For a new maximum of at most 65535, every pixel whose channels lie within the old maximum is
   * rescaled exactly: each channel becomes `v * newMax / oldMax`, at most `newMax`; black stays
   * black and a channel at the old maximum reaches the new one.
   */
  lemma MaxLevelAosKeepsRange(image: AosImage, newMax: int, i: nat)
    requires image.Valid() && 1 <= newMax <= 65535
    requires Scalable(image.Active(), PixelCount(image.width, image.height), newMax, image.maxColorValue)
    requires i < PixelCount(image.width, image.height)
    requires var p := image.Active()[i];
      p.red <= image.maxColorValue && p.green <= image.maxColorValue && p.blue <= image.maxColorValue
    ensures MaxLevelAosF(image, newMax).Ok?
    ensures var p, q := image.Active()[i], MaxLevelAosF(image, newMax).value.Active()[i];
      && q.red == Rescale(p.red, newMax, image.maxColorValue) <= newMax
      && q.green == Rescale(p.green, newMax, image.maxColorValue) <= newMax
      && q.blue == Rescale(p.blue, newMax, image.maxColorValue) <= newMax
      && (p == Pixel(0, 0, 0) ==> q == p)
      && (p.red == image.maxColorValue ==> q.red == newMax)
  {
    var p := image.Active()[i];
    var bytes := BytesPerComponent(newMax);
    ScalePixelInRange(p, newMax, image.maxColorValue, bytes);
    RescaleMapsRange(p.red, 0, newMax, image.maxColorValue);
  }

  /**
   * As written, 65536 is accepted as a new maximum, but it does not fit the `uint16_t` channels:
   * a white pixel of an 8-bit image scales to 65536 and is stored as 0, black.
   */
  lemma WhiteWrapsToBlackAt65536()
    ensures var white := Pixel(255, 255, 255);
      MaxLevelAosF(AosImage(1, 1, 255, [white], []), 65536) == Ok(AosImage(1, 1, 65536, [], [Pixel(0, 0, 0)]))
  {
    var image := AosImage(1, 1, 255, [Pixel(255, 255, 255)], []);
    assert PixelCount(1, 1) == 1;
    assert Rescale(255, 65536, 255) == 65536;
    var scaled := ScaledPixels(image.Active(), 1, 65536, 255, 2);
    assert scaled[0] == Pixel(0, 0, 0);
    assert scaled == [Pixel(0, 0, 0)];
  }
}
