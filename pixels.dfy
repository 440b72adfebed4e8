/**
 * The colour model of imgaos/imageaos.hpp: `SmallPixel` (three `uint8_t` channels) and
 * `LargePixel` (three `uint16_t` channels), their order and equality, the colour code that
 * packs a pixel into one integer, and the squared distance between two colours.
 *
 * Both pixel structs are modelled by one datatype whose channels are 16-bit values; a
 * SmallPixel is a pixel all of whose channels are below 256 (`IsSmall`).
 */
module Pixels {

  /** `MAX_INTENSITY_FOR_1B`: images whose maximum value is at most this use 1-byte channels. */
  const MAX_INTENSITY_FOR_1B: int := 255

  type Channel = x: int | 0 <= x < 0x1_0000

  datatype Pixel = Pixel(red: Channel, green: Channel, blue: Channel)

  /** The pixel fits a `SmallPixel`: every channel is a `uint8_t`. */
  predicate IsSmall(p: Pixel) {
    p.red < 0x100 && p.green < 0x100 && p.blue < 0x100
  }

  /** The pixel's channels fit in `bytes` bytes each (1 or 2). */
  predicate FitsIn(p: Pixel, bytes: nat) {
    bytes != 1 || IsSmall(p)
  }

  predicate AllFit(s: seq<Pixel>, bytes: nat) {
    forall i | 0 <= i < |s| :: FitsIn(s[i], bytes)
  }

  /** Every value of a channel vector fits in `bytes` bytes: `uint8_t` vectors for 1. */
  predicate ChannelsFit(s: seq<Channel>, bytes: nat) {
    bytes != 1 || forall i | 0 <= i < |s| :: s[i] < 0x100
  }

  /** The colour at index `i` of three parallel channel vectors. */
  function ColorTuple(red: seq<Channel>, green: seq<Channel>, blue: seq<Channel>, i: nat): (p: Pixel)
    requires i < |red| && i < |green| && i < |blue|
  {
    Pixel(red[i], green[i], blue[i])
  }

  /** The colours at the first `count` indices of three parallel channel vectors. */
  function ColorTuples(red: seq<Channel>, green: seq<Channel>, blue: seq<Channel>, count: nat): (ps: seq<Pixel>)
    requires count <= |red| && count <= |green| && count <= |blue|
    ensures |ps| == count
  {
    seq(count, i requires 0 <= i < count => ColorTuple(red, green, blue, i))
  }

  function Reds(ps: seq<Pixel>): (s: seq<Channel>)
    ensures |s| == |ps|
  {
    seq(|ps|, i requires 0 <= i < |ps| => ps[i].red)
  }

  function Greens(ps: seq<Pixel>): (s: seq<Channel>)
    ensures |s| == |ps|
  {
    seq(|ps|, i requires 0 <= i < |ps| => ps[i].green)
  }

  function Blues(ps: seq<Pixel>): (s: seq<Channel>)
    ensures |s| == |ps|
  {
    seq(|ps|, i requires 0 <= i < |ps| => ps[i].blue)
  }

  /** Colours taken from channel vectors that fit in `bytes` bytes fit as pixels. */
  lemma ColorTuplesFit(red: seq<Channel>, green: seq<Channel>, blue: seq<Channel>, count: nat, bytes: nat)
    requires count <= |red| && count <= |green| && count <= |blue|
    requires ChannelsFit(red, bytes) && ChannelsFit(green, bytes) && ChannelsFit(blue, bytes)
    ensures AllFit(ColorTuples(red, green, blue, count), bytes)
  {
  }

  /** Splitting the colours of whole channel vectors into channels gives the vectors back. */
  lemma ChannelsOfColorTuples(red: seq<Channel>, green: seq<Channel>, blue: seq<Channel>)
    requires |red| == |green| == |blue|
    ensures var ps := ColorTuples(red, green, blue, |red|);
            Reds(ps) == red && Greens(ps) == green && Blues(ps) == blue
  {
  }

  /** The channels of pixels that fit in `bytes` bytes fit in `bytes` bytes. */
  lemma ChannelsOfFit(ps: seq<Pixel>, bytes: nat)
    requires AllFit(ps, bytes)
    ensures ChannelsFit(Reds(ps), bytes) && ChannelsFit(Greens(ps), bytes) && ChannelsFit(Blues(ps), bytes)
  {
  }

  /** Three parallel channel vectors of the structure-of-arrays layout. */
  datatype Channels = Channels(red: seq<Channel>, green: seq<Channel>, blue: seq<Channel>) {
    predicate Parallel() {
      |green| == |red| && |blue| == |red|
    }

    function Colors(): (ps: seq<Pixel>)
      requires Parallel()
      ensures |ps| == |red|
    {
      ColorTuples(red, green, blue, |red|)
    }
  }

  /** Bytes per channel for an image with the given maximum value. */
  function BytesPerComponent(maxColorValue: int): (b: nat)
    ensures b == 1 || b == 2
    ensures b == 1 <==> maxColorValue <= MAX_INTENSITY_FOR_1B
  {
    if maxColorValue > MAX_INTENSITY_FOR_1B then 2 else 1
  }

  /** `operator<`: `std::tie(red, green, blue) < std::tie(...)`. */
  predicate Less(a: Pixel, b: Pixel) {
    a.red < b.red || (a.red == b.red && (a.green < b.green || (a.green == b.green && a.blue < b.blue)))
  }

  /** `operator==`: all three channels agree. */
  predicate Equal(a: Pixel, b: Pixel) {
    a.red == b.red && a.green == b.green && a.blue == b.blue
  }

  /** `operator==` is exactly equality of the colour values. */
  lemma EqualIsIdentity(a: Pixel, b: Pixel)
    ensures Equal(a, b) <==> a == b
  {
  }

  /**
   * `operator<` is a strict total order and two pixels are incomparable exactly when
   * `operator==` holds, so it is a valid key order for `std::map`.
   */
  lemma LessIsStrictTotalOrder(a: Pixel, b: Pixel, c: Pixel)
    ensures !Less(a, a)
    ensures Less(a, b) ==> !Less(b, a)
    ensures Less(a, b) && Less(b, c) ==> Less(a, c)
    ensures !Less(a, b) && !Less(b, a) <==> Equal(a, b)
  {
  }

  /** 2^(8 * bytes): one more than the largest value of a `bytes`-byte channel (1 or 2 bytes). */
  function ChannelLimit(bytes: nat): nat {
    if bytes == 1 then 0x100 else 0x1_0000
  }

  /**
   * The colour code `(red << 2w) | (green << w) | blue` of a colour with `w = 8 * bytes`-bit
   * channels; the shifts and the or of disjoint bit fields are multiplication and addition.
   */
  function Pack(p: Pixel, bytes: nat): nat
    requires bytes == 1 || bytes == 2
  {
    var m := ChannelLimit(bytes);
    (p.red * m + p.green) * m + p.blue
  }

  /** The channels `(code >> 2w) & mask`, `(code >> w) & mask` and `code & mask` of a colour code. */
  function Unpack(code: nat, bytes: nat): (p: Pixel)
    ensures FitsIn(p, bytes)
  {
    var m := ChannelLimit(bytes);
    Pixel(code / m / m % m, code / m % m, code % m)
  }

  /** Division and remainder by `m` take `x * m + digit` apart again. */
  lemma DivModDigit(x: nat, digit: nat, m: nat)
    requires 0 <= digit < m
    ensures (x * m + digit) / m == x && (x * m + digit) % m == digit
  {
    var n := x * m + digit;
    var q, r := n / m, n % m;
    var d := x - q;
    assert d * m == x * m - q * m;
    assert d * m == r - digit;
    if d >= 1 {
      MulAtLeast(d, m);
    } else if d <= -1 {
      MulAtLeast(-d, m);
    }
  }

  lemma MulAtLeast(k: int, m: nat)
    requires k >= 1
    ensures k * m >= m
  {
    assert k * m == (k - 1) * m + m;
  }

  /** Unpacking a packed colour gives the colour back, for 8-bit and 16-bit channels alike. */
  lemma UnpackPack(p: Pixel, bytes: nat)
    requires (bytes == 1 || bytes == 2) && FitsIn(p, bytes)
    ensures Unpack(Pack(p, bytes), bytes) == p
  {
    var m := ChannelLimit(bytes);
    DivModDigit(p.red * m + p.green, p.blue, m);
    DivModDigit(p.red, p.green, m);
    DivModDigit(0, p.red, m);
  }

  /** Packing is injective on colours whose channels fit the channel width. */
  lemma PackInjective(a: Pixel, b: Pixel, bytes: nat)
    requires (bytes == 1 || bytes == 2) && FitsIn(a, bytes) && FitsIn(b, bytes)
    requires Pack(a, bytes) == Pack(b, bytes)
    ensures a == b
  {
    UnpackPack(a, bytes);
    UnpackPack(b, bytes);
  }

  /** The code of a colour with 8-bit channels fits a `uint32_t`, with 16-bit channels a `uint64_t`. */
  lemma PackBound(p: Pixel, bytes: nat)
    requires (bytes == 1 || bytes == 2) && FitsIn(p, bytes)
    ensures bytes == 1 ==> Pack(p, bytes) < 0x100_0000
    ensures bytes == 2 ==> Pack(p, bytes) < 0x1_0000_0000_0000
  {
  }

  /**
   * `operator<` is the numeric order of the 16-bit colour codes: the lexicographic order on
   * (red, green, blue) agrees with comparing `(red << 32) | (green << 16) | blue`.
   */
  lemma LessIsCodeOrder(a: Pixel, b: Pixel)
    ensures Less(a, b) <==> Pack(a, 2) < Pack(b, 2)
  {
    assert Pack(a, 2) == a.red * 0x1_0000_0000 + a.green * 0x1_0000 + a.blue;
    assert Pack(b, 2) == b.red * 0x1_0000_0000 + b.green * 0x1_0000 + b.blue;
  }

  /** Squared Euclidean distance between two colours (exact; the source computes it in `double`). */
  function SquaredDistance(a: Pixel, b: Pixel): nat {
    (a.red - b.red) * (a.red - b.red) + (a.green - b.green) * (a.green - b.green)
      + (a.blue - b.blue) * (a.blue - b.blue)
  }

  /** The distance is symmetric and is zero exactly for equal colours. */
  lemma SquaredDistanceProperties(a: Pixel, b: Pixel)
    ensures SquaredDistance(a, b) == SquaredDistance(b, a)
    ensures SquaredDistance(a, b) == 0 <==> a == b
  {
    if SquaredDistance(a, b) == 0 {
      SquareZero(a.red - b.red);
      SquareZero(a.green - b.green);
      SquareZero(a.blue - b.blue);
    }
  }

  lemma SquareZero(d: int)
    ensures d * d >= 0
    ensures d * d == 0 ==> d == 0
  {
    if d != 0 {
      if d > 0 {
        assert d * d >= d;
      } else {
        assert d * d == (-d) * (-d) >= -d;
      }
    }
  }
}
