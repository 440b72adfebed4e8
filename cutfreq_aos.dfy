/**
 * imgaos/cutfreqaos.hpp and imgaos/cutfreqaos.cpp: the frequency cut on the array-of-structures
 * image. The colours are counted in a hash map, ranked with `std::sort`, split into the colours
 * to remove and the colours to keep, the kept colours are arranged into a k-d tree, every removed
 * colour is looked up in it, and the pixels of removed colours are replaced.
 *
 * The hash containers are maps and sets; their iteration order is a free choice (`:|`).
 */
module CutFreqAos {
  import opened Decimal
  import opened Pixels
  import opened Sorting
  import opened CutFreq
  import opened KdTree
  import opened ImageAos

  const BLACK: Pixel := Pixel(0, 0, 0)

  /** The counting loop of `removeColors`: `++color_frequencies[pixel]` for every pixel. */
  method CountFrequencies(pixels: seq<Pixel>) returns (freqs: map<Pixel, nat>)
    ensures freqs == Frequencies(pixels)
  {
    freqs := map[];
    for i := 0 to |pixels|
      invariant freqs == Frequencies(pixels[..i])
    {
      var pixel := pixels[i];
      FrequenciesSnoc(pixels, i);
      freqs := freqs[pixel := if pixel in freqs then freqs[pixel] + 1 else 1];
    }
    assert pixels[..|pixels|] == pixels;
  }

  /**
   * `color_freq_vec(color_frequencies.begin(), color_frequencies.end())`: one entry per key of
   * the map, in the map's iteration order.
   */
  method FrequencyVector(freqs: map<Pixel, nat>) returns (vec: seq<Entry>)
    ensures Distinct(vec)
    ensures forall e :: e in vec <==> e.color in freqs && e.count == freqs[e.color]
  {
    vec := [];
    var rest := freqs.Keys;
    while rest != {}
      invariant rest <= freqs.Keys
      invariant Distinct(vec)
      invariant forall e :: e in vec <==> e.color in freqs && e.color !in rest && e.count == freqs[e.color]
      decreases rest
    {
      var color :| color in rest;
      vec := vec + [Entry(color, freqs[color])];
      rest := rest - {color};
    }
  }

  /** Sorting the frequency vector with the ranking comparator gives the ranking of the pixels. */
  lemma SortedFrequencyVectorIsRanking(ps: seq<Pixel>, vec: seq<Entry>)
    requires Distinct(vec)
    requires forall e :: e in vec <==> e.color in Frequencies(ps) && e.count == Frequencies(ps)[e.color]
    ensures Sort(vec, Before) == Ranking(ps)
  {
    var all := set e | e in vec;
    BeforeIsStrictTotal(all);
    SortSorted(vec, Before, all);
    var sorted := Sort(vec, Before);
    forall e
      ensures e in sorted <==> IsEntryOf(e, ps)
    {
      assert e in sorted <==> e in multiset(vec);
    }
    RankingUnique(ps, sorted);
  }

  /** The loop inserting `color_freq_vec[i].first` for `i < count` into `colors_to_remove`. */
  method SelectRemoved(ranking: seq<Entry>, count: nat) returns (remove: set<Pixel>)
    requires count <= |ranking|
    ensures remove == set c | c in ColorsOf(ranking[..count])
  {
    remove := {};
    for i := 0 to count
      invariant remove == set c | c in ColorsOf(ranking[..i])
    {
      ColorsOfSnoc(ranking, i);
      remove := remove + {ranking[i].color};
    }
  }

  /** The loop appending `color_freq_vec[i].first` for `i >= count` to `colors_to_keep_vec`. */
  method SelectKept(ranking: seq<Entry>, count: nat) returns (keep: seq<Pixel>)
    requires count <= |ranking|
    ensures keep == ColorsOf(ranking[count..])
  {
    keep := [];
    for i := count to |ranking|
      invariant keep == ColorsOf(ranking[count..i])
    {
      assert ranking[count..i + 1] == ranking[count..i] + [ranking[i]];
      keep := keep + [ranking[i].color];
    }
    assert ranking[count..|ranking|] == ranking[count..];
  }

  /**
   * A search that started from `Best(DBL_MAX, target)` and found nothing in the tree closer than
   * its result ends on a nearest colour of the tree, or on the target itself when the tree is
   * empty.
   */
  lemma SearchFindsNearest(tree: seq<Pixel>, target: Pixel, b: Best)
    requires Improves(tree, target, Best(DBL_MAX, target), b)
    requires NoneCloser(tree, target, b, 0, |tree|)
    ensures tree == [] ==> b.nearest == target
    ensures tree != [] ==> IsNearest(target, b.nearest, set c | c in tree)
  {
    if tree != [] {
      DistanceBelowDblMax(target, tree[0]);
      assert b.minDist <= SquaredDistance(target, tree[0]);
      forall x | x in tree
        ensures SquaredDistance(target, b.nearest) <= SquaredDistance(target, x)
      {
        var i :| 0 <= i < |tree| && tree[i] == x;
        assert b.minDist <= SquaredDistance(target, tree[i]);
      }
    }
  }

  /** A rearranged whole array holds the same colours. */
  lemma RearrangedSameColors(s: seq<Pixel>, t: seq<Pixel>)
    requires Rearranged(s, t, 0, |s|)
    ensures (set c | c in t) == (set c | c in s)
  {
    assert s[0..|s|] == s && t[0..|t|] == t;
    forall c
      ensures c in t <==> c in s
    {
      assert c in t <==> c in multiset(t);
    }
  }

  /**
   * `FindNearestColors` as written: the tree is built and searched, but the search updates the
   * copy of the colour held in its context, and the map receives the local `nearest_color`,
   * which is still the removed colour itself.
   */
  method FindNearestColorsAsWritten(remove: set<Pixel>, keep: array<Pixel>) returns (replacement: map<Pixel, Pixel>)
    modifies keep
    ensures multiset(keep[..]) == multiset(old(keep[..]))
    ensures replacement.Keys == remove && forall c | c in remove :: replacement[c] == c
  {
    BuildKdTree(keep, 0, keep.Length, 0);
    assert keep[..] == keep[0..keep.Length] && old(keep[..]) == old(keep[..])[0..keep.Length];
    var tree := keep[..];
    replacement := map[];
    var rest := remove;
    while rest != {}
      invariant keep[..] == tree
      invariant rest <= remove
      invariant replacement.Keys == remove - rest
      invariant forall c | c in replacement :: replacement[c] == c
      decreases rest
    {
      var colorRemove :| colorRemove in rest;
      var nearestColor := colorRemove;
      var context := NearestNeighbor(tree, colorRemove, Best(DBL_MAX, nearestColor), 0, |tree|, 0);
      replacement := replacement[colorRemove := nearestColor];
      rest := rest - {colorRemove};
    }
  }

  /**
   * The example of the unit tests: with red to remove and green, yellow `(255, 255, 0)` and white
   * to keep, the nearest kept colour of red is yellow, so the map the code as written returns,
   * which sends red to red, is not a replacement map.
   */
  lemma AsWrittenMapIsNotNearest()
    ensures var red, green, yellow, white := Pixel(255, 0, 0), Pixel(0, 255, 0), Pixel(255, 255, 0), Pixel(255, 255, 255);
      && IsReplacementMap(map[red := yellow], {red}, {green, yellow, white})
      && !IsReplacementMap(map[red := red], {red}, {green, yellow, white})
  {
    var red, green, yellow, white := Pixel(255, 0, 0), Pixel(0, 255, 0), Pixel(255, 255, 0), Pixel(255, 255, 255);
    var keep := {green, yellow, white};
    assert SquaredDistance(red, yellow) == 65025;
    assert SquaredDistance(red, green) == 130050;
    assert SquaredDistance(red, white) == 130050;
    assert IsNearest(red, yellow, keep);
    assert red !in keep;
  }

  /**
   * `FindNearestColors` as intended: the map receives the colour the search found. The kept
   * colours are rearranged into a k-d tree in place; each removed colour is sent to a nearest
   * kept colour, or to itself when nothing is kept.
   */
  method FindNearestColors(remove: set<Pixel>, keep: array<Pixel>) returns (replacement: map<Pixel, Pixel>)
    modifies keep
    ensures multiset(keep[..]) == multiset(old(keep[..]))
    ensures IsReplacementMap(replacement, remove, set c | c in old(keep[..]))
  {
    BuildKdTree(keep, 0, keep.Length, 0);
    assert keep[..] == keep[0..keep.Length] && old(keep[..]) == old(keep[..])[0..keep.Length];
    var tree := keep[..];
    RearrangedSameColors(old(keep[..]), tree);
    replacement := map[];
    var rest := remove;
    while rest != {}
      invariant keep[..] == tree
      invariant rest <= remove
      invariant IsReplacementMap(replacement, remove - rest, set c | c in tree)
      decreases rest
    {
      var colorRemove :| colorRemove in rest;
      var nearest := SearchTree(tree, colorRemove);
      replacement := replacement[colorRemove := nearest];
      rest := rest - {colorRemove};
    }
  }

  /**
   * The search `FindNearestColors` starts for one removed colour: a context holding the colour
   * as the best so far at distance `DBL_MAX`, passed to `kdTreeNearestNeighbor` over the whole
   * tree; what it yields is the colour the context ends on.
   */
  method SearchTree(tree: seq<Pixel>, target: Pixel) returns (nearest: Pixel)
    requires IsKdTree(tree, 0, |tree|, 0)
    ensures tree == [] ==> nearest == target
    ensures tree != [] ==> IsNearest(target, nearest, set c | c in tree)
  {
    var context := NearestNeighbor(tree, target, Best(DBL_MAX, target), 0, |tree|, 0);
    SearchFindsNearest(tree, target, context);
    nearest := context.nearest;
  }

  /** The final loop of `removeColors`: every pixel the map holds takes its mapped colour. */
  method ReplacePixels(pixels: seq<Pixel>, replacement: map<Pixel, Pixel>) returns (result: seq<Pixel>)
    ensures result == Replace(pixels, replacement)
  {
    result := pixels;
    for i := 0 to |result|
      invariant |result| == |pixels|
      invariant forall j | 0 <= j < i :: result[j] == Replace(pixels, replacement)[j]
      invariant forall j | i <= j < |pixels| :: result[j] == pixels[j]
    {
      if result[i] in replacement {
        result := result[i := replacement[result[i]]];
      }
    }
  }

  /**
   * The first part of `removeColors`: count, rank, and split the ranking after the first
   * `min(size_t(n), distinct colours)` entries into the set to remove and the vector to keep.
   */
  method SplitColors(n: int, pixels: seq<Pixel>) returns (remove: set<Pixel>, keep: seq<Pixel>)
    ensures remove == Removed(pixels, SizeT(n)) && keep == Kept(pixels, SizeT(n))
  {
    var freqs := CountFrequencies(pixels);
    var vec := FrequencyVector(freqs);
    var ranking := Sort(vec, Before);
    SortedFrequencyVectorIsRanking(pixels, vec);
    var totalUniqueColors := |ranking|;
    var k := SizeT(n);
    var count := if k < totalUniqueColors then k else totalUniqueColors;
    assert count == RemoveCount(pixels, k);
    remove := SelectRemoved(ranking, count);
    keep := SelectKept(ranking, count);
  }

  /**
   * `removeColors` as intended: each pixel of a removed colour goes to a nearest kept colour.
   * `replacement` is the map that was applied.
   */
  method RemoveColors(n: int, pixels: seq<Pixel>) returns (result: seq<Pixel>, ghost replacement: map<Pixel, Pixel>)
    ensures IsReplacementMap(replacement, Removed(pixels, SizeT(n)), set c | c in Kept(pixels, SizeT(n)))
    ensures result == Replace(pixels, replacement)
    ensures IsCutResult(pixels, result, SizeT(n))
  {
    var remove, keep := SplitColors(n, pixels);
    var keepVec := new Pixel[|keep|](i requires 0 <= i < |keep| => keep[i]);
    assert keepVec[..] == keep;
    var nearest := FindNearestColors(remove, keepVec);
    replacement := nearest;
    result := ReplacePixels(pixels, nearest);
    ReplaceIsCutResult(pixels, SizeT(n), replacement);
  }

  /**
   * `removeColors` as written: with the identity map of `FindNearestColorsAsWritten` the final
   * loop rewrites every pixel with its own colour, so the pixels come out unchanged.
   */
  method RemoveColorsAsWritten(n: int, pixels: seq<Pixel>) returns (result: seq<Pixel>)
    ensures result == pixels
  {
    var remove, keep := SplitColors(n, pixels);
    var keepVec := new Pixel[|keep|](i requires 0 <= i < |keep| => keep[i]);
    var replacement := FindNearestColorsAsWritten(remove, keepVec);
    result := ReplacePixels(pixels, replacement);
    ReplaceByIdentity(pixels, replacement);
  }

  /**
   * `removeLeastFrequentColors`: when `size_t(n)` reaches `size_t(width) * size_t(height)`
   * every pixel of the vector the maximum value selects turns black; otherwise that vector goes
   * through the corrected `removeColors` (`RemoveColors`, which stores the nearest colour the
   * search found; `RemoveColorsAsWritten` is the code as written, which changes no pixel). The
   * header and the other vector are left alone.
   */
  method RemoveLeastFrequentColors(image: PpmImageAos, n: int) returns (ghost replacement: map<Pixel, Pixel>)
    requires image.Valid()
    modifies image
    ensures image.Valid()
    ensures image.width == old(image.width) && image.height == old(image.height)
    ensures image.maxColorValue == old(image.maxColorValue)
    ensures image.Value().Inactive() == old(image.Value().Inactive())
    ensures SizeT(n) >= PixelCount(image.width, image.height) ==>
      |image.Value().Active()| == |old(image.Value().Active())|
      && forall i | 0 <= i < |image.Value().Active()| :: image.Value().Active()[i] == BLACK
    ensures SizeT(n) < PixelCount(image.width, image.height) ==>
      var ps := old(image.Value().Active());
      && IsReplacementMap(replacement, Removed(ps, SizeT(n)), set c | c in Kept(ps, SizeT(n)))
      && image.Value().Active() == Replace(ps, replacement)
  {
    var totalPixels := PixelCount(image.width, image.height);
    replacement := map[];
    if SizeT(n) >= totalPixels {
      if image.maxColorValue <= MAX_INTENSITY_FOR_1B {
        image.sPixels := BlackOut(image.sPixels);
      } else {
        image.lPixels := BlackOut(image.lPixels);
      }
    } else {
      if image.maxColorValue <= MAX_INTENSITY_FOR_1B {
        var ps := image.sPixels;
        var result;
        result, replacement := RemoveColors(n, ps);
        ReplaceKeepsFit(ps, SizeT(n), replacement, 1);
        image.sPixels := result;
      } else {
        image.lPixels, replacement := RemoveColors(n, image.lPixels);
      }
    }
  }

  /** The black-out loop: every channel of every pixel set to 0. */
  method BlackOut(pixels: seq<Pixel>) returns (result: seq<Pixel>)
    ensures |result| == |pixels| && AllFit(result, 1)
    ensures forall i | 0 <= i < |result| :: result[i] == BLACK
  {
    result := pixels;
    for i := 0 to |result|
      invariant |result| == |pixels|
      invariant forall j | 0 <= j < i :: result[j] == BLACK
    {
      result := result[i := BLACK];
    }
  }
}
