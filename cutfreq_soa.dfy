/**
 * imgsoa/cutfreqsoa.hpp and imgsoa/cutfreqsoa.cpp: the frequency cut on the structure-of-arrays
 * image. Each colour is packed into one integer code `(red << 2w) | (green << w) | blue`
 * (`w` = 8 or 16 bits); codes are counted, ranked, split into a set to remove and a set to keep,
 * each removed code is matched against every kept code, and the three channel vectors are
 * rewritten.
 *
 * The hash containers are maps and sets; their iteration order is a free choice (`:|`).
 */
module CutFreqSoa {
  import opened Decimal
  import opened Pixels
  import opened Sorting
  import opened CutFreq
  import opened KdTree
  import opened ImageSoa

  /** The colour codes of a sequence of colours. */
  function Codes(ps: seq<Pixel>, bytes: nat): (cs: seq<nat>)
    requires bytes == 1 || bytes == 2
    ensures |cs| == |ps|
  {
    seq(|ps|, i requires 0 <= i < |ps| => Pack(ps[i], bytes))
  }

  /**
   * `codes` stands for `ps` under `decode`: each code decodes to the colour at its index, and
   * equal colours have equal codes.
   */
  predicate Encodes(codes: seq<nat>, ps: seq<Pixel>, decode: nat -> Pixel) {
    && |codes| == |ps|
    && (forall i | 0 <= i < |ps| :: decode(codes[i]) == ps[i])
    && (forall i, j | 0 <= i < |ps| && 0 <= j < |ps| && ps[i] == ps[j] :: codes[i] == codes[j])
  }

  /** Unpacking with shifts and masks, as a function of the code. */
  function Decoder(bytes: nat): nat -> Pixel {
    (code: nat) => Unpack(code, bytes)
  }

  /** The codes of colours that fit the channel width stand for those colours. */
  lemma CodesEncode(ps: seq<Pixel>, bytes: nat)
    requires (bytes == 1 || bytes == 2) && AllFit(ps, bytes)
    ensures Encodes(Codes(ps, bytes), ps, Decoder(bytes))
  {
    forall i | 0 <= i < |ps|
      ensures Unpack(Codes(ps, bytes)[i], bytes) == ps[i]
    {
      UnpackPack(ps[i], bytes);
    }
  }

  /** A code occurs as often among the codes as its colour among the colours. */
  lemma {:induction false} CodeCount(codes: seq<nat>, ps: seq<Pixel>, decode: nat -> Pixel, c: nat)
    requires Encodes(codes, ps, decode)
    requires c in codes
    ensures multiset(codes)[c] == multiset(ps)[decode(c)]
    decreases |ps|
  {
    var n := |ps| - 1;
    var init, last := ps[..n], ps[n];
    assert ps == init + [last];
    assert codes == codes[..n] + [codes[n]];
    if c in codes[..n] {
      CodeCount(codes[..n], init, decode, c);
    } else {
      assert codes[n] == c;
      forall i | 0 <= i < n
        ensures init[i] != last
      {
        assert codes[..n][i] != c;
      }
      assert multiset(init)[last] == 0;
    }
  }

  /**
   * The first loop of `removeColors`: pack the colour at each index, count it, and append it to
   * `color_list` when it is seen for the first time (`color_frequencies[code]++ == 0`).
   */
  method CountColors(red: seq<Channel>, green: seq<Channel>, blue: seq<Channel>, bytes: nat)
    returns (freqs: map<nat, nat>, colorList: seq<nat>)
    requires bytes == 1 || bytes == 2
    requires |green| == |red| && |blue| == |red|
    ensures var codes := Codes(ColorTuples(red, green, blue, |red|), bytes);
      freqs == Frequencies(codes) && colorList == FirstOccurrences(codes)
  {
    ghost var codes := Codes(ColorTuples(red, green, blue, |red|), bytes);
    freqs, colorList := map[], [];
    for index := 0 to |red|
      invariant freqs == Frequencies(codes[..index])
      invariant colorList == FirstOccurrences(codes[..index])
    {
      var colorCode := Pack(ColorTuple(red, green, blue, index), bytes);
      assert colorCode == codes[index];
      var count := if colorCode in freqs then freqs[colorCode] + 1 else 1;
      CountSnoc(codes, index, freqs, colorList, colorCode, count);
      if colorCode !in freqs {
        colorList := colorList + [colorCode];
      }
      freqs := freqs[colorCode := count];
    }
    assert codes[..|red|] == codes;
  }

  /** The entry a code stands for: its colour and its frequency. */
  function CodeEntry(freqs: map<nat, nat>, decode: nat -> Pixel, code: nat): (e: Entry)
    ensures e.color == decode(code)
  {
    Entry(decode(code), if code in freqs then freqs[code] else 0)
  }

  /**
   * The comparator of `sortColors`: lower frequency first, then the larger blue, green and red
   * extracted from the codes; the order of the array-of-structures cut on the entries.
   */
  function CodeBefore(freqs: map<nat, nat>, decode: nat -> Pixel): (less: (nat, nat) -> bool) {
    (a: nat, b: nat) => Before(CodeEntry(freqs, decode, a), CodeEntry(freqs, decode, b))
  }

  /** On the distinct codes of an image, the comparator is a strict total order. */
  lemma CodeBeforeIsStrictTotal(codes: seq<nat>, ps: seq<Pixel>, decode: nat -> Pixel)
    requires Encodes(codes, ps, decode)
    ensures StrictTotalOn<nat>((set c | c in codes), CodeBefore(Frequencies(codes), decode))
  {
    var freqs := Frequencies(codes);
    var less := CodeBefore(freqs, decode);
    var elems := set c | c in codes;
    forall x | x in elems
      ensures !less(x, x)
    {
    }
    forall x, y | x in elems && y in elems && less(x, y)
      ensures !less(y, x)
    {
    }
    forall x, y, z | x in elems && y in elems && z in elems && less(x, y) && less(y, z)
      ensures less(x, z)
    {
      var ex, ey, ez := CodeEntry(freqs, decode, x), CodeEntry(freqs, decode, y), CodeEntry(freqs, decode, z);
      assert Before(ex, ey) && Before(ey, ez);
    }
    forall x, y | x in elems && y in elems && x != y
      ensures less(x, y) || less(y, x)
    {
      var i :| 0 <= i < |codes| && codes[i] == x;
      var j :| 0 <= j < |codes| && codes[j] == y;
      assert decode(x) != decode(y);
    }
  }

  /** The entries the codes stand for, in the order of the codes. */
  function CodeEntries(freqs: map<nat, nat>, decode: nat -> Pixel, cs: seq<nat>): (es: seq<Entry>)
    ensures |es| == |cs|
  {
    seq(|cs|, i requires 0 <= i < |cs| => CodeEntry(freqs, decode, cs[i]))
  }

  /** Sorting the distinct codes keeps exactly the codes. */
  lemma SortedHasCodes(codes: seq<nat>, less: (nat, nat) -> bool)
    ensures forall c :: c in Sort(FirstOccurrences(codes), less) <==> c in codes
  {
    var sorted := Sort(FirstOccurrences(codes), less);
    forall c
      ensures c in sorted <==> c in codes
    {
      assert c in sorted <==> c in multiset(sorted);
    }
  }

  /** The entry of a code of the image is an entry of the image's colours. */
  lemma CodeEntryIsEntry(codes: seq<nat>, ps: seq<Pixel>, decode: nat -> Pixel, c: nat)
    requires Encodes(codes, ps, decode) && c in codes
    ensures IsEntryOf(CodeEntry(Frequencies(codes), decode, c), ps)
  {
    var j :| 0 <= j < |codes| && codes[j] == c;
    assert ps[j] == decode(c);
    CodeCount(codes, ps, decode, c);
  }

  /** Every entry of the image's colours is the entry of one of its codes. */
  lemma EntryHasCode(codes: seq<nat>, ps: seq<Pixel>, decode: nat -> Pixel, e: Entry) returns (c: nat)
    requires Encodes(codes, ps, decode) && IsEntryOf(e, ps)
    ensures c in codes && CodeEntry(Frequencies(codes), decode, c) == e
  {
    var j :| 0 <= j < |ps| && ps[j] == e.color;
    c := codes[j];
    CodeCount(codes, ps, decode, c);
  }

  /** Any arrangement of the image's codes stands for exactly the entries of its colours. */
  lemma CodeEntriesAreEntries(codes: seq<nat>, ps: seq<Pixel>, decode: nat -> Pixel, cs: seq<nat>)
    requires Encodes(codes, ps, decode)
    requires forall c :: c in cs <==> c in codes
    ensures forall e :: e in CodeEntries(Frequencies(codes), decode, cs) <==> IsEntryOf(e, ps)
  {
    var es := CodeEntries(Frequencies(codes), decode, cs);
    forall e
      ensures e in es <==> IsEntryOf(e, ps)
    {
      if e in es {
        var i :| 0 <= i < |es| && es[i] == e;
        CodeEntryIsEntry(codes, ps, decode, cs[i]);
      }
      if IsEntryOf(e, ps) {
        var c := EntryHasCode(codes, ps, decode, e);
        var i :| 0 <= i < |cs| && cs[i] == c;
        assert es[i] == e;
      }
    }
  }

  /**
   * Sorting the distinct codes with the comparator of `sortColors` gives the codes of the
   * ranking of the colours, entry by entry.
   */
  lemma SortedCodesAreRanking(codes: seq<nat>, ps: seq<Pixel>, decode: nat -> Pixel)
    requires Encodes(codes, ps, decode)
    ensures var sorted := Sort(FirstOccurrences(codes), CodeBefore(Frequencies(codes), decode));
      && |sorted| == |Ranking(ps)|
      && forall i | 0 <= i < |sorted| :: sorted[i] in codes && decode(sorted[i]) == Ranking(ps)[i].color
  {
    var freqs := Frequencies(codes);
    var less := CodeBefore(freqs, decode);
    var list := FirstOccurrences(codes);
    var sorted := Sort(list, less);
    CodeBeforeIsStrictTotal(codes, ps, decode);
    SortSorted(list, less, (set c | c in codes));
    SortedHasCodes(codes, less);
    var es := CodeEntries(freqs, decode, sorted);
    assert Sorted(es, Before) by {
      forall i, j | 0 <= i < j < |es|
        ensures Before(es[i], es[j])
      {
        assert less(sorted[i], sorted[j]);
      }
    }
    CodeEntriesAreEntries(codes, ps, decode, sorted);
    RankingUnique(ps, es);
  }

  /**
   * `r` is what the linear scan of `FindNearestColors` may choose for the removed code `c`: a
   * kept code at the least squared distance, or `c` itself when nothing is kept.
   */
  predicate IsNearestCode(c: nat, r: nat, keep: set<nat>, decode: nat -> Pixel) {
    if keep == {} then r == c
    else
      && r in keep
      && forall x | x in keep :: SquaredDistance(decode(c), decode(r)) <= SquaredDistance(decode(c), decode(x))
  }

  /**
   * `FindNearestColors`: for each code to remove, scan every code to keep and take the first one
   * met at a strictly smaller distance than the best so far, starting from the removed code at
   * distance `DBL_MAX`.
   */
  method FindNearestColors(remove: set<nat>, keep: set<nat>, bytes: nat) returns (replacement: map<nat, nat>)
    ensures replacement.Keys == remove
    ensures forall c | c in remove :: IsNearestCode(c, replacement[c], keep, Decoder(bytes))
  {
    replacement := map[];
    var rest := remove;
    while rest != {}
      invariant rest <= remove
      invariant replacement.Keys == remove - rest
      invariant forall c | c in replacement :: IsNearestCode(c, replacement[c], keep, Decoder(bytes))
      decreases rest
    {
      var colorRemove :| colorRemove in rest;
      var closestColor := ClosestKept(colorRemove, keep, bytes);
      replacement := replacement[colorRemove := closestColor];
      rest := rest - {colorRemove};
    }
  }

  /** The inner loop of `FindNearestColors` for one removed code. */
  method ClosestKept(colorRemove: nat, keep: set<nat>, bytes: nat) returns (closestColor: nat)
    ensures IsNearestCode(colorRemove, closestColor, keep, Decoder(bytes))
  {
    var pixelRemove := Unpack(colorRemove, bytes);
    var minDistance := DBL_MAX;
    closestColor := colorRemove;
    var rest := keep;
    while rest != {}
      invariant rest <= keep
      invariant rest == keep ==> closestColor == colorRemove && minDistance == DBL_MAX
      invariant rest != keep ==> closestColor in keep && minDistance == SquaredDistance(pixelRemove, Unpack(closestColor, bytes))
      invariant forall x | x in keep && x !in rest :: minDistance <= SquaredDistance(pixelRemove, Unpack(x, bytes))
      decreases rest
    {
      var colorKeep :| colorKeep in rest;
      var distance := SquaredDistance(pixelRemove, Unpack(colorKeep, bytes));
      DistanceBelowDblMax(pixelRemove, Unpack(colorKeep, bytes));
      if distance < minDistance {
        minDistance := distance;
        closestColor := colorKeep;
      }
      rest := rest - {colorKeep};
    }
  }

  /** `replacement_map[code]`: the mapped code, or a value-initialised 0 for a missing key. */
  function Lookup(replacement: map<nat, nat>, code: nat): nat {
    if code in replacement then replacement[code] else 0
  }

  /**
   * The final loop of `removeColors`: the colour at each index whose code is to be removed takes
   * the channels of its replacement code; every other index is left alone.
   */
  method ReplaceColors(red: seq<Channel>, green: seq<Channel>, blue: seq<Channel>, remove: set<nat>,
                       replacement: map<nat, nat>, bytes: nat)
    returns (newRed: seq<Channel>, newGreen: seq<Channel>, newBlue: seq<Channel>)
    requires bytes == 1 || bytes == 2
    requires |green| == |red| && |blue| == |red|
    ensures |newRed| == |red| && |newGreen| == |red| && |newBlue| == |red|
    ensures forall i | 0 <= i < |red| ::
      var code := Pack(ColorTuple(red, green, blue, i), bytes);
      ColorTuple(newRed, newGreen, newBlue, i) ==
        if code in remove then Unpack(Lookup(replacement, code), bytes) else ColorTuple(red, green, blue, i)
  {
    newRed, newGreen, newBlue := red, green, blue;
    for index := 0 to |red|
      invariant |newRed| == |red| && |newGreen| == |red| && |newBlue| == |red|
      invariant forall i | 0 <= i < index ::
        var code := Pack(ColorTuple(red, green, blue, i), bytes);
        ColorTuple(newRed, newGreen, newBlue, i) ==
          if code in remove then Unpack(Lookup(replacement, code), bytes) else ColorTuple(red, green, blue, i)
      invariant forall i | index <= i < |red| :: newRed[i] == red[i] && newGreen[i] == green[i] && newBlue[i] == blue[i]
    {
      var colorCode := Pack(ColorTuple(newRed, newGreen, newBlue, index), bytes);
      if colorCode in remove {
        var replacementColor := Unpack(Lookup(replacement, colorCode), bytes);
        newRed := newRed[index := replacementColor.red];
        newGreen := newGreen[index := replacementColor.green];
        newBlue := newBlue[index := replacementColor.blue];
      }
    }
  }

  /** `std::fill(v.begin(), v.end(), 0)`. */
  method Fill(v: seq<Channel>) returns (r: seq<Channel>)
    ensures |r| == |v| && forall i | 0 <= i < |r| :: r[i] == 0
  {
    r := v;
    for i := 0 to |r|
      invariant |r| == |v| && forall j | 0 <= j < i :: r[j] == 0
    {
      r := r[i := 0];
    }
  }

  /**
   * `after` is what `removeColors(n, ...)` leaves in `before`: all channels 0 when `size_t(n)`
   * exceeds the pixel count, otherwise the colours with `replacement` applied, a replacement map
   * of the cut of `size_t(n)` colours. Vector lengths never change.
   */
  ghost predicate IsCut(before: Channels, after: Channels, n: int, replacement: map<Pixel, Pixel>)
    requires before.Parallel()
  {
    && after.Parallel() && |after.red| == |before.red|
    && (SizeT(n) > |before.red| ==>
          forall i | 0 <= i < |before.red| :: after.red[i] == 0 && after.green[i] == 0 && after.blue[i] == 0)
    && (SizeT(n) <= |before.red| ==>
          var ps := before.Colors();
          && IsReplacementMap(replacement, Removed(ps, SizeT(n)), set c | c in Kept(ps, SizeT(n)))
          && after.Colors() == Replace(ps, replacement))
  }

  /** `IsCut` with the map left out: the cut's effect on each pixel (`CutFreq.IsCutResult`). */
  ghost predicate IsChannelCut(before: Channels, after: Channels, n: int)
    requires before.Parallel()
  {
    && after.Parallel() && |after.red| == |before.red|
    && (SizeT(n) > |before.red| ==>
          forall i | 0 <= i < |before.red| :: after.red[i] == 0 && after.green[i] == 0 && after.blue[i] == 0)
    && (SizeT(n) <= |before.red| ==> IsCutResult(before.Colors(), after.Colors(), SizeT(n)))
  }

  /** Different codes of the image stand for different colours. */
  lemma DecodeInjective(codes: seq<nat>, ps: seq<Pixel>, decode: nat -> Pixel, a: nat, b: nat)
    requires Encodes(codes, ps, decode) && a in codes && b in codes && decode(a) == decode(b)
    ensures a == b
  {
    var i :| 0 <= i < |codes| && codes[i] == a;
    var j :| 0 <= j < |codes| && codes[j] == b;
    assert ps[i] == ps[j];
  }

  /**
   * The codes of the first `RemoveCount` ranked colours stand for the removed colours, and those
   * of the rest for the kept colours.
   */
  lemma CodeSplit(codes: seq<nat>, ps: seq<Pixel>, decode: nat -> Pixel, k: nat, sorted: seq<nat>)
    requires Encodes(codes, ps, decode)
    requires |sorted| == |Ranking(ps)|
    requires forall i | 0 <= i < |sorted| :: sorted[i] in codes && decode(sorted[i]) == Ranking(ps)[i].color
    ensures var count := RemoveCount(ps, k);
      && (forall i | 0 <= i < |ps| :: ps[i] in Removed(ps, k) <==> codes[i] in sorted[..count])
      && (forall c | c in sorted[count..] :: decode(c) in Kept(ps, k))
      && (forall i | 0 <= i < |ps| && ps[i] in Kept(ps, k) :: codes[i] in sorted[count..])
  {
    var count := RemoveCount(ps, k);
    var r := Ranking(ps);
    forall i | 0 <= i < |ps|
      ensures ps[i] in Removed(ps, k) <==> codes[i] in sorted[..count]
    {
      assert codes[i] in codes;
      if ps[i] in Removed(ps, k) {
        var t :| 0 <= t < count && ColorsOf(r[..count])[t] == ps[i];
        DecodeInjective(codes, ps, decode, sorted[t], codes[i]);
        assert sorted[..count][t] == codes[i];
      }
      if codes[i] in sorted[..count] {
        var t :| 0 <= t < count && sorted[t] == codes[i];
        assert ColorsOf(r[..count])[t] == ps[i];
      }
    }
    forall c | c in sorted[count..]
      ensures decode(c) in Kept(ps, k)
    {
      var t :| 0 <= t < |sorted| - count && sorted[count..][t] == c;
      assert Kept(ps, k)[t] == decode(c);
    }
    forall i | 0 <= i < |ps| && ps[i] in Kept(ps, k)
      ensures codes[i] in sorted[count..]
    {
      var t :| 0 <= t < |Kept(ps, k)| && Kept(ps, k)[t] == ps[i];
      assert codes[i] in codes;
      DecodeInjective(codes, ps, decode, sorted[count + t], codes[i]);
      assert sorted[count..][t] == codes[i];
    }
  }

  /** Decoding is one-to-one on the codes of the image. */
  lemma DecodeInjectiveOn(codes: seq<nat>, ps: seq<Pixel>, decode: nat -> Pixel)
    requires Encodes(codes, ps, decode)
    ensures forall a, b | a in codes && b in codes && decode(a) == decode(b) :: a == b
  {
    forall a, b | a in codes && b in codes && decode(a) == decode(b)
      ensures a == b
    {
      DecodeInjective(codes, ps, decode, a, b);
    }
  }

  /** The map on colours that a map on codes of the image stands for. */
  ghost function ColorMap(codes: seq<nat>, ps: seq<Pixel>, decode: nat -> Pixel, replacement: map<nat, nat>)
    : (m: map<Pixel, Pixel>)
    requires Encodes(codes, ps, decode)
    requires forall c | c in replacement :: c in codes
    ensures m.Keys == set c | c in replacement :: decode(c)
    ensures forall c | c in replacement :: m[decode(c)] == decode(replacement[c])
  {
    DecodeInjectiveOn(codes, ps, decode);
    map c | c in replacement :: decode(c) := decode(replacement[c])
  }

  /** The keys of the colour map are the removed colours. */
  lemma ColorMapKeys(codes: seq<nat>, ps: seq<Pixel>, decode: nat -> Pixel, removed: set<Pixel>,
                     nearest: map<nat, nat>)
    requires Encodes(codes, ps, decode)
    requires forall p | p in removed :: p in ps
    requires forall i | 0 <= i < |ps| :: ps[i] in removed <==> codes[i] in nearest
    requires forall c | c in nearest :: c in codes
    ensures ColorMap(codes, ps, decode, nearest).Keys == removed
  {
    var m := ColorMap(codes, ps, decode, nearest);
    forall p | p in removed
      ensures p in m
    {
      var i :| 0 <= i < |ps| && ps[i] == p;
      assert decode(codes[i]) == p;
    }
    forall p | p in m
      ensures p in removed
    {
      var c :| c in nearest && decode(c) == p;
      var i :| 0 <= i < |codes| && codes[i] == c;
    }
  }

  /**
   * A map on codes whose keys are the codes of the removed colours and which sends each to a
   * nearest kept code stands for a replacement map of the removed and kept colours.
   */
  lemma ColorMapIsReplacementMap(codes: seq<nat>, ps: seq<Pixel>, decode: nat -> Pixel, removed: set<Pixel>,
                                 kept: set<Pixel>, keep: set<nat>, nearest: map<nat, nat>)
    requires Encodes(codes, ps, decode)
    requires forall p | p in removed :: p in ps
    requires forall p | p in kept :: p in ps
    requires forall i | 0 <= i < |ps| :: ps[i] in removed <==> codes[i] in nearest
    requires forall c | c in keep :: decode(c) in kept
    requires forall i | 0 <= i < |ps| && ps[i] in kept :: codes[i] in keep
    requires forall c | c in nearest :: c in codes && IsNearestCode(c, nearest[c], keep, decode)
    ensures IsReplacementMap(ColorMap(codes, ps, decode, nearest), removed, kept)
  {
    var m := ColorMap(codes, ps, decode, nearest);
    ColorMapKeys(codes, ps, decode, removed, nearest);
    assert keep == {} <==> kept == {} by {
      if keep != {} {
        var c :| c in keep;
        assert decode(c) in kept;
      }
      if kept != {} {
        var p :| p in kept;
        var i :| 0 <= i < |ps| && ps[i] == p;
        assert codes[i] in keep;
      }
    }
    forall p | p in removed
      ensures if kept == {} then m[p] == p else IsNearest(p, m[p], kept)
    {
      var i :| 0 <= i < |ps| && ps[i] == p;
      var c := codes[i];
      assert decode(c) == p && c in nearest;
      if kept != {} {
        NearestCodeIsNearest(codes, ps, decode, kept, keep, c, nearest[c]);
      }
    }
  }

  /** The colour a nearest kept code stands for is a nearest kept colour. */
  lemma NearestCodeIsNearest(codes: seq<nat>, ps: seq<Pixel>, decode: nat -> Pixel, kept: set<Pixel>,
                             keep: set<nat>, c: nat, r: nat)
    requires Encodes(codes, ps, decode)
    requires forall p | p in kept :: p in ps
    requires forall c | c in keep :: decode(c) in kept
    requires forall i | 0 <= i < |ps| && ps[i] in kept :: codes[i] in keep
    requires keep != {} && IsNearestCode(c, r, keep, decode)
    ensures IsNearest(decode(c), decode(r), kept)
  {
    forall x | x in kept
      ensures SquaredDistance(decode(c), decode(r)) <= SquaredDistance(decode(c), x)
    {
      var j :| 0 <= j < |ps| && ps[j] == x;
      assert codes[j] in keep;
    }
  }

  /**
   * The cut on codes is the cut on colours: removing the codes of the first `RemoveCount` ranked
   * colours, each mapped to a nearest kept code, rewrites every colour as the colour map of a
   * replacement map of the cut does.
   */
  lemma CodeCutIsCut(codes: seq<nat>, ps: seq<Pixel>, decode: nat -> Pixel, k: nat, sorted: seq<nat>,
                     nearest: map<nat, nat>)
    requires Encodes(codes, ps, decode)
    requires |sorted| == |Ranking(ps)|
    requires forall i | 0 <= i < |sorted| :: sorted[i] in codes && decode(sorted[i]) == Ranking(ps)[i].color
    requires nearest.Keys == set c | c in sorted[..RemoveCount(ps, k)]
    requires forall c | c in nearest :: IsNearestCode(c, nearest[c], (set x | x in sorted[RemoveCount(ps, k)..]), decode)
    ensures forall c | c in nearest :: c in codes
    ensures var m := ColorMap(codes, ps, decode, nearest);
      && IsReplacementMap(m, Removed(ps, k), set c | c in Kept(ps, k))
      && forall i | 0 <= i < |ps| ::
           Replace(ps, m)[i] == if codes[i] in nearest then decode(nearest[codes[i]]) else ps[i]
  {
    var count := RemoveCount(ps, k);
    var keep := set c | c in sorted[count..];
    var kept := set c | c in Kept(ps, k);
    CodeSplit(codes, ps, decode, k, sorted);
    RemovedKeptPartition(ps, k);
    assert forall c | c in nearest :: c in codes by {
      forall c | c in nearest
        ensures c in codes
      {
        var t :| 0 <= t < count && sorted[..count][t] == c;
      }
    }
    ColorMapIsReplacementMap(codes, ps, decode, Removed(ps, k), kept, keep, nearest);
    var m := ColorMap(codes, ps, decode, nearest);
    forall i | 0 <= i < |ps|
      ensures Replace(ps, m)[i] == if codes[i] in nearest then decode(nearest[codes[i]]) else ps[i]
    {
      assert decode(codes[i]) == ps[i];
    }
  }

  /**
   * `removeColors<ComponentType, ColorCodeType>(n, red, green, blue)` with `bytes` =
   * `sizeof(ComponentType)`: a black-out when `size_t(n)` exceeds the pixel count, otherwise the
   * cut of the `min(n, number of colours)` least frequent colours, each replaced by a nearest kept
   * colour. `replacement` is the map on colours that was applied.
   */
  method RemoveColors(n: int, red: seq<Channel>, green: seq<Channel>, blue: seq<Channel>, bytes: nat)
    returns (newRed: seq<Channel>, newGreen: seq<Channel>, newBlue: seq<Channel>, ghost replacement: map<Pixel, Pixel>)
    requires bytes == 1 || bytes == 2
    requires |green| == |red| && |blue| == |red|
    requires ChannelsFit(red, bytes) && ChannelsFit(green, bytes) && ChannelsFit(blue, bytes)
    requires IsInt(n) && |red| <= INT_MAX
    ensures IsCut(Channels(red, green, blue), Channels(newRed, newGreen, newBlue), n, replacement)
    ensures IsChannelCut(Channels(red, green, blue), Channels(newRed, newGreen, newBlue), n)
  {
    replacement := map[];
    if SizeT(n) > |red| {
      newRed := Fill(red);
      newGreen := Fill(green);
      newBlue := Fill(blue);
      return;
    }
    var freqs, colorList := CountColors(red, green, blue, bytes);
    var sorted := Sort(colorList, CodeBefore(freqs, Decoder(bytes)));
    // `n` is not negative here, and the colour count converts to `int` exactly.
    var count := if n < |sorted| then n else |sorted|;
    var remove := set c | c in sorted[..count];
    var keep := set c | c in sorted[count..];
    var nearest := FindNearestColors(remove, keep, bytes);
    newRed, newGreen, newBlue := ReplaceColors(red, green, blue, remove, nearest, bytes);
    replacement := ChannelCutIsCut(Channels(red, green, blue), Channels(newRed, newGreen, newBlue), bytes, n,
                                   sorted, count, nearest);
    ReplaceIsCutResult(Channels(red, green, blue).Colors(), SizeT(n), replacement);
  }

  /**
   * The three steps of `removeColors` after the black-out test (rank the codes, split them at
   * `min(k, number of colours)`, rewrite each removed code's indices with its nearest kept code)
   * cut the colours: `m` is the replacement map of the cut they apply.
   */
  lemma ChannelCutIsCut(before: Channels, after: Channels, bytes: nat, k: nat, sorted: seq<nat>, count: nat,
                        nearest: map<nat, nat>)
    returns (m: map<Pixel, Pixel>)
    requires bytes == 1 || bytes == 2
    requires before.Parallel() && after.Parallel() && |after.red| == |before.red|
    requires ChannelsFit(before.red, bytes) && ChannelsFit(before.green, bytes) && ChannelsFit(before.blue, bytes)
    requires var codes := Codes(before.Colors(), bytes);
      sorted == Sort(FirstOccurrences(codes), CodeBefore(Frequencies(codes), Decoder(bytes)))
    requires count == if k < |sorted| then k else |sorted|
    requires nearest.Keys == set c | c in sorted[..count]
    requires forall c | c in nearest :: IsNearestCode(c, nearest[c], (set x | x in sorted[count..]), Decoder(bytes))
    requires forall i | 0 <= i < |before.red| ::
      var code := Pack(ColorTuple(before.red, before.green, before.blue, i), bytes);
      ColorTuple(after.red, after.green, after.blue, i) ==
        if code in nearest.Keys then Unpack(Lookup(nearest, code), bytes)
        else ColorTuple(before.red, before.green, before.blue, i)
    ensures IsReplacementMap(m, Removed(before.Colors(), k), set c | c in Kept(before.Colors(), k))
    ensures after.Colors() == Replace(before.Colors(), m)
  {
    ColorTuplesFit(before.red, before.green, before.blue, |before.red|, bytes);
    m := CodeCutColorMap(before.Colors(), bytes, k, sorted, count, nearest);
    RewrittenChannels(before, after, bytes, nearest, Replace(before.Colors(), m));
  }

  /** The colour map of the cut on codes, as `CodeCutIsCut` states it for these codes. */
  lemma CodeCutColorMap(ps: seq<Pixel>, bytes: nat, k: nat, sorted: seq<nat>, count: nat, nearest: map<nat, nat>)
    returns (m: map<Pixel, Pixel>)
    requires (bytes == 1 || bytes == 2) && AllFit(ps, bytes)
    requires var codes := Codes(ps, bytes);
      sorted == Sort(FirstOccurrences(codes), CodeBefore(Frequencies(codes), Decoder(bytes)))
    requires count == if k < |sorted| then k else |sorted|
    requires nearest.Keys == set c | c in sorted[..count]
    requires forall c | c in nearest :: IsNearestCode(c, nearest[c], (set x | x in sorted[count..]), Decoder(bytes))
    ensures IsReplacementMap(m, Removed(ps, k), set c | c in Kept(ps, k))
    ensures var codes := Codes(ps, bytes);
      forall i | 0 <= i < |ps| ::
        Replace(ps, m)[i] == if codes[i] in nearest then Decoder(bytes)(nearest[codes[i]]) else ps[i]
  {
    var codes := Codes(ps, bytes);
    CodesEncode(ps, bytes);
    SortedCodesAreRanking(codes, ps, Decoder(bytes));
    assert count == RemoveCount(ps, k);
    CodeCutIsCut(codes, ps, Decoder(bytes), k, sorted, nearest);
    m := ColorMap(codes, ps, Decoder(bytes), nearest);
  }

  /** Channels rewritten code by code hold the colours rewritten code by code. */
  lemma RewrittenChannels(before: Channels, after: Channels, bytes: nat, nearest: map<nat, nat>, rs: seq<Pixel>)
    requires bytes == 1 || bytes == 2
    requires before.Parallel() && after.Parallel() && |after.red| == |before.red| && |rs| == |before.red|
    requires forall i | 0 <= i < |before.red| ::
      var code := Pack(ColorTuple(before.red, before.green, before.blue, i), bytes);
      ColorTuple(after.red, after.green, after.blue, i) ==
        if code in nearest.Keys then Unpack(Lookup(nearest, code), bytes)
        else ColorTuple(before.red, before.green, before.blue, i)
    requires var codes := Codes(before.Colors(), bytes);
      forall i | 0 <= i < |rs| ::
        rs[i] == if codes[i] in nearest then Decoder(bytes)(nearest[codes[i]]) else before.Colors()[i]
    ensures after.Colors() == rs
  {
    var codes := Codes(before.Colors(), bytes);
    forall i | 0 <= i < |rs|
      ensures after.Colors()[i] == rs[i]
    {
      assert Pack(ColorTuple(before.red, before.green, before.blue, i), bytes) == codes[i];
    }
  }

  /**
   * `removeLeastFrequentColors` (imgsoa/cutfreqsoa.cpp): `removeColors` on the `uint8_t` vectors
   * when the maximum value fits in one byte, on the `uint16_t` vectors otherwise. The header and
   * the other three vectors are left alone.
   */
  method RemoveLeastFrequentColors(image: PpmImageSoa, n: int) returns (ghost replacement: map<Pixel, Pixel>)
    requires image.Valid() && Selected(image.Value()).Parallel()
    requires IsInt(n) && |Selected(image.Value()).red| <= INT_MAX
    modifies image
    ensures image.Valid()
    ensures image.width == old(image.width) && image.height == old(image.height)
    ensures image.maxColorValue == old(image.maxColorValue)
    ensures Unselected(image.Value()) == old(Unselected(image.Value()))
    ensures IsCut(old(Selected(image.Value())), Selected(image.Value()), n, replacement)
  {
    if image.maxColorValue <= MAX_INTENSITY_FOR_1B {
      ghost var before := Channels(image.red1, image.green1, image.blue1);
      image.red1, image.green1, image.blue1, replacement := RemoveColors(n, image.red1, image.green1, image.blue1, 1);
      CutKeepsFit(before, Channels(image.red1, image.green1, image.blue1), n, replacement);
    } else {
      image.red2, image.green2, image.blue2, replacement := RemoveColors(n, image.red2, image.green2, image.blue2, 2);
    }
  }

  /** A cut of `uint8_t` channels leaves `uint8_t` channels. */
  lemma CutKeepsFit(before: Channels, after: Channels, n: int, replacement: map<Pixel, Pixel>)
    requires before.Parallel()
    requires ChannelsFit(before.red, 1) && ChannelsFit(before.green, 1) && ChannelsFit(before.blue, 1)
    requires IsCut(before, after, n, replacement)
    ensures ChannelsFit(after.red, 1) && ChannelsFit(after.green, 1) && ChannelsFit(after.blue, 1)
  {
    if SizeT(n) <= |before.red| {
      var ps := before.Colors();
      ColorTuplesFit(before.red, before.green, before.blue, |ps|, 1);
      ReplaceKeepsFit(ps, SizeT(n), replacement, 1);
      ChannelsOfColorTuples(after.red, after.green, after.blue);
      ChannelsOfFit(after.Colors(), 1);
    }
  }

  /**
   * With `n` between the number of colours and the pixel count every colour is removed and none
   * is kept, so each maps to itself and the channels come out unchanged (where the
   * array-of-structures filter, testing `>=`, blacks out at `n` equal to the pixel count).
   */
  lemma CutOfEveryColorKeepsChannels(before: Channels, after: Channels, n: int, replacement: map<Pixel, Pixel>)
    requires before.Parallel() && IsCut(before, after, n, replacement)
    requires |FirstOccurrences(before.Colors())| <= SizeT(n) <= |before.red|
    ensures after == before
  {
    var ps := before.Colors();
    CutOfAllColorsKeepsPixels(ps, SizeT(n), replacement);
    ChannelsOfColorTuples(before.red, before.green, before.blue);
    ChannelsOfColorTuples(after.red, after.green, after.blue);
  }
}
