/**
 * imgsoa/maxlevelsoa.cpp: `maxLevelImageSOA` rescales every channel of the structure-of-arrays
 * image to a new maximum value. The destination vectors are the `uint8_t` or the `uint16_t`
 * ones as the new maximum selects; inside the loop, the source vectors are chosen per index by
 * the old maximum's channel width.
 */
module MaxLevelSoa {
  import opened Decimal
  import opened Pixels
  import opened Results
  import opened ImageAos
  import opened ImageSoa
  import opened MaxLevel
  import opened MaxLevelAos

  /** The vectors a loop reads: the `uint8_t` ones when `current_bytes_per_component` is 1. */
  function SourceChannels(image: SoaImage, currentBytes: int): (c: Channels)
    ensures currentBytes == BytesPerComponent(image.maxColorValue) ==> c == Selected(image)
  {
    if currentBytes == 1 then Channels(image.red1, image.green1, image.blue1)
    else Channels(image.red2, image.green2, image.blue2)
  }

  /**
   * What a loop needs of the vectors it reads: a non-zero maximum to divide by, at least `count`
   * entries in each, and no `int` overflow in `channel * newMaxLevel`.
   */
  predicate ScalableSoa(c: Channels, count: nat, newMax: int, oldMax: int) {
    && oldMax >= 1 && count <= |c.red| && count <= |c.green| && count <= |c.blue|
    && forall i | 0 <= i < count :: ProductsFit(ColorTuple(c.red, c.green, c.blue, i), newMax)
  }

  /** The first `count` entries of each vector, scaled and cast to `bytes` bytes. */
  function ScaledChannels(c: Channels, count: nat, newMax: nat, oldMax: int, bytes: nat): (d: Channels)
    requires count <= |c.red| && count <= |c.green| && count <= |c.blue|
    requires oldMax >= 1 && (bytes == 1 || bytes == 2)
    ensures d.Parallel() && |d.red| == count
    ensures ChannelsFit(d.red, bytes) && ChannelsFit(d.green, bytes) && ChannelsFit(d.blue, bytes)
  {
    Channels(ScaledChannel(c.red, count, newMax, oldMax, bytes), ScaledChannel(c.green, count, newMax, oldMax, bytes),
             ScaledChannel(c.blue, count, newMax, oldMax, bytes))
  }

  /**
   * `resizeAndRecalculateToOneByte`: resize the three `uint8_t` vectors of the new image to its
   * pixel count, then fill them with the scaled entries of the vectors `currentBytes` selects.
   */
  method ResizeAndRecalculateToOneByte(newImage: PpmImageSoa, currentBytes: int, image: PpmImageSoa, newMax: nat)
    requires newImage != image
    requires ScalableSoa(SourceChannels(image.Value(), currentBytes), PixelCount(newImage.width, newImage.height),
                         newMax, image.maxColorValue)
    modifies newImage
    ensures newImage.Value() == old(newImage.Value()).(red1 := newImage.red1, green1 := newImage.green1,
                                                        blue1 := newImage.blue1)
    ensures Channels(newImage.red1, newImage.green1, newImage.blue1) ==
            ScaledChannels(SourceChannels(image.Value(), currentBytes), PixelCount(newImage.width, newImage.height),
                           newMax, image.maxColorValue, 1)
  {
    var count := PixelCount(newImage.width, newImage.height);
    ghost var source := SourceChannels(image.Value(), currentBytes);
    newImage.red1 := Resized(newImage.red1, count, 0);
    newImage.green1 := Resized(newImage.green1, count, 0);
    newImage.blue1 := Resized(newImage.blue1, count, 0);
    for i := 0 to count
      invariant newImage.Value() == old(newImage.Value()).(red1 := newImage.red1, green1 := newImage.green1,
                                                            blue1 := newImage.blue1)
      invariant |newImage.red1| == |newImage.green1| == |newImage.blue1| == count
      invariant forall k | 0 <= k < i :: newImage.red1[k] == ScaleChannel(source.red[k], newMax, image.maxColorValue, 1)
      invariant forall k | 0 <= k < i :: newImage.green1[k] == ScaleChannel(source.green[k], newMax, image.maxColorValue, 1)
      invariant forall k | 0 <= k < i :: newImage.blue1[k] == ScaleChannel(source.blue[k], newMax, image.maxColorValue, 1)
    {
      if currentBytes == 1 {
        newImage.red1 := newImage.red1[i := ScaleChannel(image.red1[i], newMax, image.maxColorValue, 1)];
        newImage.green1 := newImage.green1[i := ScaleChannel(image.green1[i], newMax, image.maxColorValue, 1)];
        newImage.blue1 := newImage.blue1[i := ScaleChannel(image.blue1[i], newMax, image.maxColorValue, 1)];
      } else {
        newImage.red1 := newImage.red1[i := ScaleChannel(image.red2[i], newMax, image.maxColorValue, 1)];
        newImage.green1 := newImage.green1[i := ScaleChannel(image.green2[i], newMax, image.maxColorValue, 1)];
        newImage.blue1 := newImage.blue1[i := ScaleChannel(image.blue2[i], newMax, image.maxColorValue, 1)];
      }
    }
  }

  /**
   * `resizeAndRecalculateToTwoBytes`: resize the three `uint16_t` vectors of the new image to its
   * pixel count, then fill them with the scaled entries of the vectors `currentBytes` selects.
   */
  method ResizeAndRecalculateToTwoBytes(newImage: PpmImageSoa, currentBytes: int, image: PpmImageSoa, newMax: nat)
    requires newImage != image
    requires ScalableSoa(SourceChannels(image.Value(), currentBytes), PixelCount(newImage.width, newImage.height),
                         newMax, image.maxColorValue)
    modifies newImage
    ensures newImage.Value() == old(newImage.Value()).(red2 := newImage.red2, green2 := newImage.green2,
                                                        blue2 := newImage.blue2)
    ensures Channels(newImage.red2, newImage.green2, newImage.blue2) ==
            ScaledChannels(SourceChannels(image.Value(), currentBytes), PixelCount(newImage.width, newImage.height),
                           newMax, image.maxColorValue, 2)
  {
    var count := PixelCount(newImage.width, newImage.height);
    ghost var source := SourceChannels(image.Value(), currentBytes);
    newImage.red2 := Resized(newImage.red2, count, 0);
    newImage.green2 := Resized(newImage.green2, count, 0);
    newImage.blue2 := Resized(newImage.blue2, count, 0);
    for i := 0 to count
      invariant newImage.Value() == old(newImage.Value()).(red2 := newImage.red2, green2 := newImage.green2,
                                                            blue2 := newImage.blue2)
      invariant |newImage.red2| == |newImage.green2| == |newImage.blue2| == count
      invariant forall k | 0 <= k < i :: newImage.red2[k] == ScaleChannel(source.red[k], newMax, image.maxColorValue, 2)
      invariant forall k | 0 <= k < i :: newImage.green2[k] == ScaleChannel(source.green[k], newMax, image.maxColorValue, 2)
      invariant forall k | 0 <= k < i :: newImage.blue2[k] == ScaleChannel(source.blue[k], newMax, image.maxColorValue, 2)
    {
      if currentBytes == 1 {
        newImage.red2 := newImage.red2[i := ScaleChannel(image.red1[i], newMax, image.maxColorValue, 2)];
        newImage.green2 := newImage.green2[i := ScaleChannel(image.green1[i], newMax, image.maxColorValue, 2)];
        newImage.blue2 := newImage.blue2[i := ScaleChannel(image.blue1[i], newMax, image.maxColorValue, 2)];
      } else {
        newImage.red2 := newImage.red2[i := ScaleChannel(image.red2[i], newMax, image.maxColorValue, 2)];
        newImage.green2 := newImage.green2[i := ScaleChannel(image.green2[i], newMax, image.maxColorValue, 2)];
        newImage.blue2 := newImage.blue2[i := ScaleChannel(image.blue2[i], newMax, image.maxColorValue, 2)];
      }
    }
  }

  /** The maximum values `maxLevelImageSOA` refuses: not positive, or above `MAX_INSTENSITY`. */
  predicate RefusedSoa(newMax: int) {
    newMax <= 0 || newMax > MAX_INTENSITY
  }

  /**
   * The image `maxLevelImageSOA` returns: the header with the new maximum, the scaled vectors in
   * the width the new maximum selects, and empty vectors of the other width.
   */
  function MaxLevelSoaF(image: SoaImage, newMax: int): (r: Result<SoaImage>)
    requires RefusedSoa(newMax) ||
             ScalableSoa(Selected(image), PixelCount(image.width, image.height), newMax, image.maxColorValue)
    ensures r.Err? <==> RefusedSoa(newMax)
    ensures r.Err? ==> r.message == MAX_LEVEL_ERROR
    ensures r.Ok? ==> && r.value.Valid() && r.value.Covers(PixelCount(image.width, image.height))
                      && r.value.width == image.width && r.value.height == image.height
                      && r.value.maxColorValue == newMax
                      && Selected(r.value).Parallel() && Unselected(r.value) == Channels([], [], [])
  {
    if RefusedSoa(newMax) then Err(MAX_LEVEL_ERROR)
    else
      var count := PixelCount(image.width, image.height);
      var d := ScaledChannels(Selected(image), count, newMax, image.maxColorValue, BytesPerComponent(newMax));
      if newMax <= MAX_INTENSITY_FOR_1B then
        Ok(SoaImage(image.width, image.height, newMax, d.red, d.green, d.blue, [], [], []))
      else
        Ok(SoaImage(image.width, image.height, newMax, [], [], [], d.red, d.green, d.blue))
  }

  /**
   * `maxLevelImageSOA`: refuse a maximum out of range, then build the new image field by field
   * and fill the vectors of the new channel width.
   */
  method MaxLevelImageSoa(image: PpmImageSoa, newMax: int) returns (r: Result<PpmImageSoa>)
    requires RefusedSoa(newMax) ||
             ScalableSoa(Selected(image.Value()), PixelCount(image.width, image.height), newMax, image.maxColorValue)
    ensures r.Err? ==> MaxLevelSoaF(image.Value(), newMax) == Err(r.message)
    ensures r.Ok? ==> fresh(r.value) && MaxLevelSoaF(image.Value(), newMax) == Ok(r.value.Value())
  {
    if newMax <= 0 || newMax > MAX_INTENSITY {
      return Err(MAX_LEVEL_ERROR);
    }
    var newImage := new PpmImageSoa(SoaImage(0, 0, 0, [], [], [], [], [], []));
    newImage.width := image.width;
    newImage.height := image.height;
    newImage.maxColorValue := newMax;
    var currentBytes := if image.maxColorValue > MAX_INTENSITY_FOR_1B then 2 else 1;
    var newBytes := if newMax > MAX_INTENSITY_FOR_1B then 2 else 1;
    if newBytes == 1 {
      ResizeAndRecalculateToOneByte(newImage, currentBytes, image, newMax);
    } else {
      ResizeAndRecalculateToTwoBytes(newImage, currentBytes, image, newMax);
    }
    r := Ok(newImage);
  }

  /**
   * Both layouts rescale alike: the structure-of-arrays layout refuses exactly what the
   * array-of-structures one refuses, and 65536 besides; for any other maximum, images holding
   * the same colours give images holding the same scaled colours.
   */
  lemma SameMaxLevelInBothLayouts(aos: AosImage, soa: SoaImage, newMax: int)
    requires aos.Valid() && Selected(soa).Parallel() && aos.Active() == Selected(soa).Colors()
    requires aos.width == soa.width && aos.height == soa.height && aos.maxColorValue == soa.maxColorValue
    requires Scalable(aos.Active(), PixelCount(aos.width, aos.height), newMax, aos.maxColorValue)
    ensures RefusedSoa(newMax) <==> RefusedAos(newMax) || newMax == MAX_INTENSITY_AOS
    ensures ScalableSoa(Selected(soa), PixelCount(soa.width, soa.height), newMax, soa.maxColorValue)
    ensures !RefusedSoa(newMax) ==>
      && MaxLevelAosF(aos, newMax).Ok? && MaxLevelSoaF(soa, newMax).Ok?
      && MaxLevelAosF(aos, newMax).value.Active() ==
         MaxLevelSoaF(soa, newMax).value.Colors(PixelCount(aos.width, aos.height))
  {
    var c, count := Selected(soa), PixelCount(aos.width, aos.height);
    forall i | 0 <= i < count
      ensures ProductsFit(ColorTuple(c.red, c.green, c.blue, i), newMax)
    {
      assert ColorTuple(c.red, c.green, c.blue, i) == aos.Active()[i];
    }
    if !RefusedSoa(newMax) {
      var bytes := BytesPerComponent(newMax);
      var prefix := Channels(c.red[..count], c.green[..count], c.blue[..count]);
      ScaledChannelsAreScaledPixels(prefix, count, newMax, soa.maxColorValue, bytes);
      assert ScaledChannels(prefix, count, newMax, soa.maxColorValue, bytes) ==
             ScaledChannels(c, count, newMax, soa.maxColorValue, bytes);
      assert prefix.Colors() == aos.Active()[..count];
      var d := ScaledChannels(c, count, newMax, soa.maxColorValue, bytes);
      assert MaxLevelSoaF(soa, newMax).value.Colors(count) == d.Colors();
      assert ScaledPixels(prefix.Colors(), count, newMax, soa.maxColorValue, bytes) ==
             ScaledPixels(aos.Active(), count, newMax, aos.maxColorValue, bytes);
    }
  }
}
