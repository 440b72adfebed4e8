/**
 * What the frequency cut (`cutfreq`) of both layouts computes, stated once: count each colour,
 * rank the distinct colours by frequency (ascending), breaking ties by blue, then green, then
 * red (each descending), remove the first `k` of the ranking, and replace every pixel of a
 * removed colour by a kept colour at the least squared distance.
 */
module CutFreq {
  import opened Pixels
  import opened Sorting

  /** How often each value occurs (`++color_frequencies[pixel]` over all pixels). */
  function Frequencies<T(==,!new)>(s: seq<T>): (freqs: map<T, nat>)
    ensures forall x :: x in freqs <==> x in s
  {
    map x | x in s :: multiset(s)[x]
  }

  /** Counting one more value: its count goes up by one, or it enters the map with count 1. */
  lemma FrequenciesSnoc<T(!new)>(s: seq<T>, i: nat)
    requires i < |s|
    ensures var f := Frequencies(s[..i]);
      Frequencies(s[..i + 1]) == f[s[i] := if s[i] in f then f[s[i]] + 1 else 1]
  {
    assert s[..i + 1] == s[..i] + [s[i]];
  }

  /** The distinct values of `s` in the order of their first occurrence. */
  function FirstOccurrences<T(==,!new)>(s: seq<T>): (r: seq<T>)
    ensures Distinct(r) && forall x :: x in r <==> x in s
  {
    if s == [] then []
    else
      var init := FirstOccurrences(s[..|s| - 1]);
      var last := s[|s| - 1];
      assert forall x :: x in s <==> x in s[..|s| - 1] || x == last by {
        assert s == s[..|s| - 1] + [last];
      }
      if last in init then init else init + [last]
  }

  /** One more element is appended to the first occurrences iff it has not occurred yet. */
  lemma FirstOccurrencesSnoc<T(!new)>(s: seq<T>, i: nat)
    requires i < |s|
    ensures var seen := FirstOccurrences(s[..i]);
      FirstOccurrences(s[..i + 1]) == if s[i] in seen then seen else seen + [s[i]]
  {
    assert s[..i + 1][..i] == s[..i];
  }

  /**
   * One more value counted: its count goes up or starts at 1, and it joins the distinct values
   * exactly when it was not counted before.
   */
  lemma CountSnoc<T(!new)>(s: seq<T>, i: nat, freqs: map<T, nat>, seen: seq<T>, x: T, count: nat)
    requires i < |s| && freqs == Frequencies(s[..i]) && seen == FirstOccurrences(s[..i])
    requires x == s[i] && count == if x in freqs then freqs[x] + 1 else 1
    ensures Frequencies(s[..i + 1]) == freqs[x := count]
    ensures FirstOccurrences(s[..i + 1]) == if x in freqs then seen else seen + [x]
  {
    FrequenciesSnoc(s, i);
    FirstOccurrencesSnoc(s, i);
  }

  /** A colour and its number of occurrences: an element of `color_freq_vec`. */
  datatype Entry = Entry(color: Pixel, count: nat)

  /**
   * The ranking order of the `std::sort` comparator in imgaos/cutfreqaos.hpp: lower frequency
   * first; on equal frequencies the larger blue, then the larger green, then the larger red.
   */
  predicate Before(a: Entry, b: Entry) {
    if a.count != b.count then a.count < b.count
    else if a.color.blue != b.color.blue then a.color.blue > b.color.blue
    else if a.color.green != b.color.green then a.color.green > b.color.green
    else a.color.red > b.color.red
  }

  /** The comparator is a strict total order on all entries, so the sorted vector is unique. */
  lemma BeforeIsStrictTotal(elems: set<Entry>)
    ensures StrictTotalOn(elems, Before)
  {
  }

  /** The entries of the given colours with their frequencies. */
  function Entries(colors: seq<Pixel>, freqs: map<Pixel, nat>): (es: seq<Entry>)
    requires forall c | c in colors :: c in freqs
    ensures |es| == |colors|
  {
    seq(|colors|, i requires 0 <= i < |colors| => Entry(colors[i], freqs[colors[i]]))
  }

  /** The entry of every distinct colour of `ps`, with its count. */
  predicate IsEntryOf(e: Entry, ps: seq<Pixel>) {
    e.color in ps && e.count == multiset(ps)[e.color]
  }

  /** The colours of `ps` with their counts, sorted by the ranking order. */
  function Ranking(ps: seq<Pixel>): (es: seq<Entry>)
  {
    var freqs := Frequencies(ps);
    Sort(Entries(FirstOccurrences(ps), freqs), Before)
  }

  /**
   * The ranking holds each distinct colour once, with its count, in ranking order; and it is
   * the only sequence of those entries in that order.
   */
  lemma RankingIsSortedEntries(ps: seq<Pixel>)
    ensures Sorted(Ranking(ps), Before)
    ensures forall e :: e in Ranking(ps) <==> IsEntryOf(e, ps)
    ensures |Ranking(ps)| == |FirstOccurrences(ps)|
  {
    var colors := FirstOccurrences(ps);
    var es := Entries(colors, Frequencies(ps));
    forall i, j | 0 <= i < j < |es|
      ensures es[i] != es[j]
    {
      assert colors[i] != colors[j];
    }
    forall e
      ensures e in es <==> IsEntryOf(e, ps)
    {
      if IsEntryOf(e, ps) {
        var i :| 0 <= i < |colors| && colors[i] == e.color;
        assert es[i] == e;
      }
    }
    var all := set e | e in es;
    BeforeIsStrictTotal(all);
    SortSorted(es, Before, all);
    assert forall e :: e in Ranking(ps) <==> e in multiset(es);
  }

  /** Any arrangement of the entries of `ps` in ranking order is the ranking. */
  lemma RankingUnique(ps: seq<Pixel>, es: seq<Entry>)
    requires Sorted(es, Before)
    requires forall e :: e in es <==> IsEntryOf(e, ps)
    ensures es == Ranking(ps)
  {
    RankingIsSortedEntries(ps);
    var all := set e | e in es;
    BeforeIsStrictTotal(all);
    SortedUnique(es, Ranking(ps), Before, all);
  }

  /** The colours of a sequence of entries. */
  function ColorsOf(es: seq<Entry>): (cs: seq<Pixel>)
    ensures |cs| == |es|
  {
    seq(|es|, i requires 0 <= i < |es| => es[i].color)
  }

  /** One more entry adds its colour at the end. */
  lemma ColorsOfSnoc(es: seq<Entry>, i: nat)
    requires i < |es|
    ensures ColorsOf(es[..i + 1]) == ColorsOf(es[..i]) + [es[i].color]
  {
  }

  /** `min(k, number of distinct colours)`: how many colours are removed. */
  function RemoveCount(ps: seq<Pixel>, k: nat): (n: nat)
    ensures n <= |Ranking(ps)| && n <= k
    ensures n == k || n == |Ranking(ps)|
  {
    if k < |Ranking(ps)| then k else |Ranking(ps)|
  }

  /** The colours to remove: the first `RemoveCount` of the ranking. */
  function Removed(ps: seq<Pixel>, k: nat): set<Pixel> {
    set c | c in ColorsOf(Ranking(ps)[..RemoveCount(ps, k)])
  }

  /** The colours to keep, in ranking order: the rest of the ranking. */
  function Kept(ps: seq<Pixel>, k: nat): seq<Pixel> {
    ColorsOf(Ranking(ps)[RemoveCount(ps, k)..])
  }

  /** The colours of the ranking: each colour of `ps` exactly once. */
  lemma RankedColorsAreDistinctColors(ps: seq<Pixel>)
    ensures Distinct(ColorsOf(Ranking(ps)))
    ensures forall c :: c in ColorsOf(Ranking(ps)) <==> c in ps
  {
    var r := Ranking(ps);
    var cs := ColorsOf(r);
    RankingIsSortedEntries(ps);
    forall i, j | 0 <= i < j < |cs|
      ensures cs[i] != cs[j]
    {
      assert r[i] in r && r[j] in r;
      assert r[i] != r[j] by {
        var all := set e | e in r;
        BeforeIsStrictTotal(all);
        assert Before(r[i], r[j]);
      }
    }
    forall c
      ensures c in cs <==> c in ps
    {
      if c in ps {
        var e := Entry(c, multiset(ps)[c]);
        assert e in r;
        var i :| 0 <= i < |r| && r[i] == e;
        assert cs[i] == c;
      }
      if c in cs {
        var i :| 0 <= i < |cs| && cs[i] == c;
        assert r[i] in r;
      }
    }
  }

  lemma ColorsOfSlices(es: seq<Entry>, n: nat)
    requires n <= |es|
    ensures ColorsOf(es[..n]) == ColorsOf(es)[..n]
    ensures ColorsOf(es[n..]) == ColorsOf(es)[n..]
  {
  }

  /** Splitting a sequence without repeats gives two parts without common or repeated values. */
  lemma DistinctSplit<T>(s: seq<T>, n: nat)
    requires Distinct(s) && n <= |s|
    ensures forall x :: x in s <==> x in s[..n] || x in s[n..]
    ensures forall x | x in s[..n] :: x !in s[n..]
    ensures Distinct(s[n..])
  {
    assert s == s[..n] + s[n..];
  }

  /**
   * The removed and kept colours split the colours of the image: none is both, every colour of
   * the image is one of them, and no kept colour is listed twice.
   */
  lemma RemovedKeptPartition(ps: seq<Pixel>, k: nat)
    ensures forall c :: c in ps <==> c in Removed(ps, k) || c in Kept(ps, k)
    ensures forall c | c in Removed(ps, k) :: c !in Kept(ps, k)
    ensures Distinct(Kept(ps, k))
  {
    var n := RemoveCount(ps, k);
    RankedColorsAreDistinctColors(ps);
    ColorsOfSlices(Ranking(ps), n);
    DistinctSplit(ColorsOf(Ranking(ps)), n);
  }

  /** A removed colour never occurs more often than a kept one. */
  lemma RemovedAreLeastFrequent(ps: seq<Pixel>, k: nat, removed: Pixel, kept: Pixel)
    requires removed in Removed(ps, k) && kept in Kept(ps, k)
    ensures multiset(ps)[removed] <= multiset(ps)[kept]
  {
    var r := Ranking(ps);
    var n := RemoveCount(ps, k);
    RankingIsSortedEntries(ps);
    var i :| 0 <= i < n && ColorsOf(r[..n])[i] == removed;
    var j :| 0 <= j < |r| - n && ColorsOf(r[n..])[j] == kept;
    assert Before(r[i], r[n + j]);
    assert r[i] in r && r[n + j] in r;
  }

  /** `r` is a kept colour at the least squared distance from `c`. */
  predicate IsNearest(c: Pixel, r: Pixel, keep: set<Pixel>) {
    r in keep && forall x | x in keep :: SquaredDistance(c, r) <= SquaredDistance(c, x)
  }

  /**
   * A replacement map of the cut: every removed colour is mapped to a nearest kept colour, or to
   * itself when nothing is kept.
   */
  predicate IsReplacementMap(m: map<Pixel, Pixel>, remove: set<Pixel>, keep: set<Pixel>) {
    && m.Keys == remove
    && forall c | c in remove :: if keep == {} then m[c] == c else IsNearest(c, m[c], keep)
  }

  /** Every pixel whose colour the map holds takes the mapped colour; the others are unchanged. */
  function Replace(ps: seq<Pixel>, m: map<Pixel, Pixel>): (r: seq<Pixel>)
    ensures |r| == |ps|
  {
    seq(|ps|, i requires 0 <= i < |ps| => if ps[i] in m then m[ps[i]] else ps[i])
  }

  /**
   * After the replacement of a cut that keeps some colour, only kept colours are left; a cut that
   * keeps nothing leaves the pixels as they were. Either way each pixel keeps its colour or takes
   * the one its colour is mapped to, and equal colours stay equal.
   */
  lemma ReplaceLeavesKeptColors(ps: seq<Pixel>, k: nat, m: map<Pixel, Pixel>)
    requires IsReplacementMap(m, Removed(ps, k), set c | c in Kept(ps, k))
    ensures Kept(ps, k) != [] ==> forall i | 0 <= i < |ps| :: Replace(ps, m)[i] in Kept(ps, k)
    ensures Kept(ps, k) == [] ==> Replace(ps, m) == ps
    ensures forall i, j | 0 <= i < |ps| && 0 <= j < |ps| && ps[i] == ps[j] :: Replace(ps, m)[i] == Replace(ps, m)[j]
  {
    RemovedKeptPartition(ps, k);
    var keep := set c | c in Kept(ps, k);
    if Kept(ps, k) != [] {
      assert Kept(ps, k)[0] in keep;
      forall i | 0 <= i < |ps|
        ensures Replace(ps, m)[i] in Kept(ps, k)
      {
        assert ps[i] in ps;
      }
    }
  }

  /** The colours left after a replacement are colours of the image, so they fit its channel width. */
  lemma ReplaceKeepsFit(ps: seq<Pixel>, k: nat, m: map<Pixel, Pixel>, bytes: nat)
    requires IsReplacementMap(m, Removed(ps, k), set c | c in Kept(ps, k))
    requires AllFit(ps, bytes)
    ensures AllFit(Replace(ps, m), bytes)
  {
    ReplaceLeavesKeptColors(ps, k, m);
    RemovedKeptPartition(ps, k);
    forall i | 0 <= i < |ps|
      ensures FitsIn(Replace(ps, m)[i], bytes)
    {
      if Kept(ps, k) != [] {
        var c := Replace(ps, m)[i];
        assert c in ps;
        var j :| 0 <= j < |ps| && ps[j] == c;
      }
    }
  }

  /** A map that sends every colour it holds to itself leaves every pixel as it was. */
  lemma ReplaceByIdentity(ps: seq<Pixel>, m: map<Pixel, Pixel>)
    requires forall c | c in m :: m[c] == c
    ensures Replace(ps, m) == ps
  {
  }

  /**
   * The effect of the cut on the pixels, stated without the map: kept colours stay, every pixel
   * of a removed colour takes a nearest kept colour (or stays when nothing is kept), and pixels of
   * one colour end up with one colour.
   */
  ghost predicate IsCutResult(ps: seq<Pixel>, r: seq<Pixel>, k: nat) {
    var keep := set c | c in Kept(ps, k);
    && |r| == |ps|
    && (forall i | 0 <= i < |ps| && ps[i] in keep :: r[i] == ps[i])
    && (forall i | 0 <= i < |ps| && ps[i] in Removed(ps, k) ::
          if keep == {} then r[i] == ps[i] else IsNearest(ps[i], r[i], keep))
    && (forall i, j | 0 <= i < |ps| && 0 <= j < |ps| && ps[i] == ps[j] :: r[i] == r[j])
  }

  /** Applying a replacement map of the cut has exactly that effect. */
  lemma ReplaceIsCutResult(ps: seq<Pixel>, k: nat, m: map<Pixel, Pixel>)
    requires IsReplacementMap(m, Removed(ps, k), set c | c in Kept(ps, k))
    ensures IsCutResult(ps, Replace(ps, m), k)
  {
    RemovedKeptPartition(ps, k);
  }

  /** The position of the first pixel of colour `c`. */
  ghost function FirstIndex(ps: seq<Pixel>, c: Pixel): (i: nat)
    requires c in ps
    ensures i < |ps| && ps[i] == c
  {
    if ps[0] == c then 0 else 1 + FirstIndex(ps[1..], c)
  }

  /** Conversely, pixels with that effect are the pixels after some replacement map of the cut. */
  lemma CutResultIsReplace(ps: seq<Pixel>, r: seq<Pixel>, k: nat) returns (m: map<Pixel, Pixel>)
    requires IsCutResult(ps, r, k)
    ensures IsReplacementMap(m, Removed(ps, k), set c | c in Kept(ps, k))
    ensures r == Replace(ps, m)
  {
    RemovedKeptPartition(ps, k);
    var remove := Removed(ps, k);
    m := map c | c in remove :: r[FirstIndex(ps, c)];
    forall i | 0 <= i < |ps|
      ensures r[i] == Replace(ps, m)[i]
    {
      if ps[i] in remove {
        assert r[i] == r[FirstIndex(ps, ps[i])];
      }
    }
  }

  /**
   * When `k` is at least the number of distinct colours every colour is removed, nothing is
   * kept, and the replacement leaves the pixels as they were.
   */
  lemma CutOfAllColorsKeepsPixels(ps: seq<Pixel>, k: nat, m: map<Pixel, Pixel>)
    requires IsReplacementMap(m, Removed(ps, k), set c | c in Kept(ps, k))
    requires |FirstOccurrences(ps)| <= k
    ensures Kept(ps, k) == [] && Replace(ps, m) == ps
  {
    RankingIsSortedEntries(ps);
    ReplaceLeavesKeptColors(ps, k, m);
  }
}
