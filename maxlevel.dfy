/**
 * The channel arithmetic shared by imgaos/maxlevelaos.cpp and imgsoa/maxlevelsoa.cpp: every
 * channel `v` becomes `(v * newMaxLevel) / max_color_value`, an `int` product divided with
 * truncation, passed through `std::round` (which changes no integer) and cast to `uint8_t` or
 * `uint16_t`. The operands are never negative, so Dafny's division is the same as C++'s.
 */
module MaxLevel {
  import opened Decimal
  import opened Pixels

  /** The message of the `invalid_argument` both layouts throw for a maximum out of range. */
  const MAX_LEVEL_ERROR: string := "Maximum value not valid."

  /** `(v * newMaxLevel) / max_color_value`: the largest `r` with `r * oldMax <= v * newMax`. */
  function Rescale(v: nat, newMax: nat, oldMax: int): (r: nat)
    requires oldMax >= 1
    ensures r * oldMax <= v * newMax < (r + 1) * oldMax
  {
    (v * newMax) / oldMax
  }

  /**
   * `static_cast<uint8_t>` or `static_cast<uint16_t>` of the rounded value: the value itself when
   * it fits, otherwise its low 8 or 16 bits (the C++ conversion of an out-of-range floating value
   * is undefined; the low bits are what the usual compilers produce).
   */
  function CastChannel(x: nat, bytes: nat): (c: Channel)
    requires bytes == 1 || bytes == 2
    ensures bytes == 1 ==> c < 0x100
    ensures x < (if bytes == 1 then 0x100 else 0x1_0000) ==> c == x
  {
    x % (if bytes == 1 then 0x100 else 0x1_0000)
  }

  /** The new value of one channel. */
  function ScaleChannel(v: Channel, newMax: nat, oldMax: int, bytes: nat): (c: Channel)
    requires oldMax >= 1 && (bytes == 1 || bytes == 2)
    ensures bytes == 1 ==> c < 0x100
  {
    CastChannel(Rescale(v, newMax, oldMax), bytes)
  }

  /** The three channels of a pixel, each scaled. */
  function ScalePixel(p: Pixel, newMax: nat, oldMax: int, bytes: nat): (q: Pixel)
    requires oldMax >= 1 && (bytes == 1 || bytes == 2)
    ensures FitsIn(q, bytes)
  {
    Pixel(ScaleChannel(p.red, newMax, oldMax, bytes), ScaleChannel(p.green, newMax, oldMax, bytes),
          ScaleChannel(p.blue, newMax, oldMax, bytes))
  }

  /** The destination vector of `count` scaled pixels of `source`. */
  function ScaledPixels(source: seq<Pixel>, count: nat, newMax: nat, oldMax: int, bytes: nat): (ps: seq<Pixel>)
    requires count <= |source| && oldMax >= 1 && (bytes == 1 || bytes == 2)
    ensures |ps| == count && AllFit(ps, bytes)
  {
    seq(count, i requires 0 <= i < count => ScalePixel(source[i], newMax, oldMax, bytes))
  }

  /** The destination channel vector of `count` scaled entries of `source`. */
  function ScaledChannel(source: seq<Channel>, count: nat, newMax: nat, oldMax: int, bytes: nat): (cs: seq<Channel>)
    requires count <= |source| && oldMax >= 1 && (bytes == 1 || bytes == 2)
    ensures |cs| == count && ChannelsFit(cs, bytes)
  {
    seq(count, i requires 0 <= i < count => ScaleChannel(source[i], newMax, oldMax, bytes))
  }

  /** `std::vector::resize(count)`: keeps the first `count` entries and pads with zeros. */
  function Resized<T>(s: seq<T>, count: nat, zero: T): (r: seq<T>)
    ensures |r| == count
    ensures forall i | 0 <= i < count && i < |s| :: r[i] == s[i]
    ensures forall i | |s| <= i < count :: r[i] == zero
  {
    if count <= |s| then s[..count] else s + seq(count - |s|, _ => zero)
  }

  /** The `int` product `v * newMaxLevel` does not overflow for any channel of `p`. */
  predicate ProductsFit(p: Pixel, newMax: int) {
    p.red * newMax <= INT_MAX && p.green * newMax <= INT_MAX && p.blue * newMax <= INT_MAX
  }

  /** Multiplying by a positive number keeps a strict order, read backwards. */
  lemma LessOfProducts(a: int, b: int, c: int)
    requires c >= 1 && a * c < b * c
    ensures a < b
  {
    assert (b - a) * c == b * c - a * c;
  }

  /**
   * The rescale maps the range `0..oldMax` onto `0..newMax`: 0 stays 0, `oldMax` becomes
   * `newMax`, no value in range goes past `newMax`, and the order of values is kept.
   */
  lemma RescaleMapsRange(v: nat, w: nat, newMax: nat, oldMax: int)
    requires oldMax >= 1
    ensures Rescale(0, newMax, oldMax) == 0
    ensures Rescale(oldMax, newMax, oldMax) == newMax
    ensures v <= oldMax ==> Rescale(v, newMax, oldMax) <= newMax
    ensures v <= w ==> Rescale(v, newMax, oldMax) <= Rescale(w, newMax, oldMax)
  {
    var z := Rescale(0, newMax, oldMax);
    LessOfProducts(z, 1, oldMax);
    var r := Rescale(oldMax, newMax, oldMax);
    assert oldMax * newMax == newMax * oldMax;
    LessOfProducts(newMax, r + 1, oldMax);
    LessOfProducts(r, newMax + 1, oldMax);
    if v <= oldMax {
      RescaleBelow(v, oldMax, newMax, oldMax);
    }
    if v <= w {
      RescaleBelow(v, w, newMax, oldMax);
    }
  }

  /** A smaller value never rescales to more. */
  lemma RescaleBelow(v: nat, w: nat, newMax: nat, oldMax: int)
    requires oldMax >= 1 && v <= w
    ensures Rescale(v, newMax, oldMax) <= Rescale(w, newMax, oldMax)
  {
    var a, b := Rescale(v, newMax, oldMax), Rescale(w, newMax, oldMax);
    assert v * newMax <= w * newMax by {
      assert w * newMax - v * newMax == (w - v) * newMax;
    }
    LessOfProducts(a, b + 1, oldMax);
  }

  /**
   * When no channel of `p` exceeds `oldMax` and `newMax` fits the destination type, the cast
   * keeps every rescaled value: the new pixel is the exact rescale, within `0..newMax`.
   */
  lemma ScalePixelInRange(p: Pixel, newMax: nat, oldMax: int, bytes: nat)
    requires oldMax >= 1 && (bytes == 1 || bytes == 2)
    requires p.red <= oldMax && p.green <= oldMax && p.blue <= oldMax
    requires newMax < (if bytes == 1 then 0x100 else 0x1_0000)
    ensures var q := ScalePixel(p, newMax, oldMax, bytes);
      && q.red == Rescale(p.red, newMax, oldMax) <= newMax
      && q.green == Rescale(p.green, newMax, oldMax) <= newMax
      && q.blue == Rescale(p.blue, newMax, oldMax) <= newMax
  {
    RescaleMapsRange(p.red, 0, newMax, oldMax);
    RescaleMapsRange(p.green, 0, newMax, oldMax);
    RescaleMapsRange(p.blue, 0, newMax, oldMax);
  }

  /** Scaling the pixels of three channel vectors is scaling each vector. */
  lemma ScaledChannelsAreScaledPixels(c: Channels, count: nat, newMax: nat, oldMax: int, bytes: nat)
    requires c.Parallel() && count <= |c.red| && oldMax >= 1 && (bytes == 1 || bytes == 2)
    ensures var d := Channels(ScaledChannel(c.red, count, newMax, oldMax, bytes),
                              ScaledChannel(c.green, count, newMax, oldMax, bytes),
                              ScaledChannel(c.blue, count, newMax, oldMax, bytes));
      d.Parallel() && d.Colors() == ScaledPixels(c.Colors(), count, newMax, oldMax, bytes)
  {
  }
}
