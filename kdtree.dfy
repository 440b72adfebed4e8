/**
 * The k-d tree of imgaos/cutfreqaos.hpp: `buildKdTree` arranges a vector of colours in place so
 * that every index range `[left, right)` has its median (on the axis `depth % 3`) at
 * `left + (right - left) / 2`, and `kdTreeNearestNeighbor` searches such a range for the colour
 * closest to a target, skipping a half whose splitting plane is already too far away.
 *
 * Distances are kept in a `double` in the source; they are squares of channel differences below
 * 2^16, so they are exact integers and are modelled as `nat`.
 */
module KdTree {
  import opened Pixels

  /** `KDTREE_DIMENSION`: the tree splits on red, green, blue in turn. */
  const KDTREE_DIMENSION: nat := 3

  /**
   * `std::numeric_limits<double>::max()`, the starting `min_dist`: (2^53 - 1) * 2^971, an exact
   * integer.
   */
  const DBL_MAX: nat := 0x1F_FFFF_FFFF_FFFF * Pow2(971)

  function Pow2(n: nat): (p: nat)
    ensures p >= 1
  {
    if n == 0 then 1 else 2 * Pow2(n - 1)
  }

  /** Every squared distance between two colours is below `DBL_MAX`. */
  lemma DistanceBelowDblMax(a: Pixel, b: Pixel)
    ensures SquaredDistance(a, b) < DBL_MAX
  {
    var p := Pow2(971);
    assert 0x1F_FFFF_FFFF_FFFF * p >= 0x1F_FFFF_FFFF_FFFF;
    AxisBelow(a.red, b.red);
    AxisBelow(a.green, b.green);
    AxisBelow(a.blue, b.blue);
  }

  lemma AxisBelow(x: Channel, y: Channel)
    ensures (x - y) * (x - y) <= 0x1_0000 * 0x1_0000
  {
    var d := if x >= y then x - y else y - x;
    assert (x - y) * (x - y) == d * d;
    SquareMonotone(d, 0x1_0000);
  }

  /** The channel the comparator of `nth_element` looks at on an axis. */
  function Key(p: Pixel, axis: nat): Channel {
    if axis == 0 then p.red else if axis == 1 then p.green else p.blue
  }

  /** The splitting index of `[left, right)`: `left + (right - left) / 2`. */
  function Mid(left: nat, right: nat): (mid: nat)
    requires left < right
    ensures left <= mid < right && mid - left <= right - (mid + 1) + 1 && right - (mid + 1) <= mid - left
  {
    left + (right - left) / 2
  }

  /** The axis of a depth: `depth % KDTREE_DIMENSION`. */
  function AxisOf(depth: nat): (axis: nat)
    ensures axis < KDTREE_DIMENSION
  {
    depth % KDTREE_DIMENSION
  }

  /**
   * The shape `buildKdTree` leaves on `tree[left..right]`: the element at
   * `mid = left + (right - left) / 2` is a median on the axis of this depth, and the ranges
   * `[left, mid)` and `(mid, right)` are trees one level deeper.
   */
  predicate IsKdTree(tree: seq<Pixel>, left: nat, right: nat, depth: nat)
    requires left <= right <= |tree|
    decreases right - left
  {
    left < right ==>
      var mid := Mid(left, right);
      var axis := AxisOf(depth);
      && (forall i {:trigger Key(tree[i], axis)} | left <= i < mid :: Key(tree[i], axis) <= Key(tree[mid], axis))
      && (forall i {:trigger Key(tree[i], axis)} | mid < i < right :: Key(tree[mid], axis) <= Key(tree[i], axis))
      && IsKdTree(tree, left, mid, depth + 1)
      && IsKdTree(tree, mid + 1, right, depth + 1)
  }

  /** Whether a range is a tree depends on that range only. */
  lemma {:induction false} KdTreeFrame(a: seq<Pixel>, b: seq<Pixel>, left: nat, right: nat, depth: nat)
    requires left <= right <= |a| && right <= |b|
    requires forall i | left <= i < right :: a[i] == b[i]
    requires IsKdTree(a, left, right, depth)
    ensures IsKdTree(b, left, right, depth)
    decreases right - left
  {
    if left < right {
      var mid := Mid(left, right);
      KdTreeHalves(a, left, right, depth);
      KdTreeFrame(a, b, left, mid, depth + 1);
      KdTreeFrame(a, b, mid + 1, right, depth + 1);
      KdTreeJoin(b, left, right, depth);
    }
  }

  /**
   * `std::nth_element` on `points[left..right)` with the comparator of axis `axis`: afterwards
   * `points[mid]` is the element a sort would put there, nothing before it is larger on that
   * axis and nothing after it smaller; the range holds the same elements and the rest of the
   * array is untouched. The library's algorithm is not part of this model: a selection of the
   * least remaining element for each position up to `mid` meets the same contract.
   */
  method NthElement(points: array<Pixel>, left: nat, mid: nat, right: nat, axis: nat)
    requires left <= mid < right <= points.Length
    modifies points
    ensures Rearranged(old(points[..]), points[..], left, right)
    ensures forall i | left <= i < mid :: Key(points[i], axis) <= Key(points[mid], axis)
    ensures forall i | mid < i < right :: Key(points[mid], axis) <= Key(points[i], axis)
  {
    var i := left;
    while i <= mid
      invariant left <= i <= mid + 1
      invariant Rearranged(old(points[..]), points[..], left, right)
      invariant SelectedBelow(points[..], left, i, right, axis)
    {
      var least := i;
      var j := i + 1;
      while j < right
        invariant i <= least < j <= right
        invariant forall k | i <= k < j :: Key(points[least], axis) <= Key(points[k], axis)
      {
        if Key(points[j], axis) < Key(points[least], axis) {
          least := j;
        }
        j := j + 1;
      }
      ghost var before := points[..];
      points[i], points[least] := points[least], points[i];
      SelectStep(old(points[..]), before, points[..], left, right, i, least, axis);
      i := i + 1;
    }
    assert SelectedBelow(points[..], left, mid + 1, right, axis);
  }

  /** `t` is `s` with the elements of `[left, right)` rearranged and the rest as it was. */
  predicate Rearranged(s: seq<Pixel>, t: seq<Pixel>, left: nat, right: nat)
    requires left <= right <= |s|
  {
    && |t| == |s|
    && multiset(t[left..right]) == multiset(s[left..right])
    && forall k | 0 <= k < |s| && !(left <= k < right) :: t[k] == s[k]
  }

  /** A rearrangement of a part of a range is a rearrangement of the range. */
  lemma RearrangedWithin(s: seq<Pixel>, t: seq<Pixel>, lo: nat, hi: nat, left: nat, right: nat)
    requires left <= lo <= hi <= right <= |s| && Rearranged(s, t, lo, hi)
    ensures Rearranged(s, t, left, right)
  {
    assert s[left..right] == s[left..lo] + s[lo..hi] + s[hi..right];
    assert t[left..right] == t[left..lo] + t[lo..hi] + t[hi..right];
    assert t[left..lo] == s[left..lo];
    assert t[hi..right] == s[hi..right];
  }

  /** Two rearrangements of a range in a row are one. */
  lemma RearrangedTransitive(s: seq<Pixel>, t: seq<Pixel>, u: seq<Pixel>, left: nat, right: nat)
    requires left <= right <= |s| && Rearranged(s, t, left, right) && Rearranged(t, u, left, right)
    ensures Rearranged(s, u, left, right)
  {
  }

  /**
   * The first `i - left` positions of `[left, right)` hold, in order, elements no larger on the
   * axis than any later one of the range.
   */
  predicate SelectedBelow(s: seq<Pixel>, left: nat, i: nat, right: nat, axis: nat)
    requires left <= i <= right <= |s|
  {
    forall p, q | left <= p < i && p < q < right :: Key(s[p], axis) <= Key(s[q], axis)
  }

  /** One step of the selection: moving the least remaining element to position `i`. */
  lemma SelectStep(s0: seq<Pixel>, s: seq<Pixel>, t: seq<Pixel>, left: nat, right: nat, i: nat, least: nat, axis: nat)
    requires left <= i <= least < right <= |s0|
    requires Rearranged(s0, s, left, right) && SelectedBelow(s, left, i, right, axis)
    requires forall k | i <= k < right :: Key(s[least], axis) <= Key(s[k], axis)
    requires t == s[i := s[least]][least := s[i]]
    ensures Rearranged(s0, t, left, right) && SelectedBelow(t, left, i + 1, right, axis)
  {
    var r := s[left..right][i - left := s[least]][least - left := s[i]];
    assert t[left..right] == r;
    forall p, q | left <= p < i + 1 && p < q < right
      ensures Key(t[p], axis) <= Key(t[q], axis)
    {
      if q == least {
        assert t[q] == s[i];
      }
    }
  }

  /**
   * `buildKdTree`: arranges `points[left..right)` into a tree for the axis order starting at
   * `depth`, keeping the elements of the range and leaving the rest of the array alone.
   */
  method BuildKdTree(points: array<Pixel>, left: nat, right: nat, depth: nat)
    requires left <= right <= points.Length
    modifies points
    decreases right - left
    ensures Rearranged(old(points[..]), points[..], left, right)
    ensures IsKdTree(points[..], left, right, depth)
  {
    if left >= right {
      return;
    }
    var axis := AxisOf(depth);
    var mid := Mid(left, right);
    NthElement(points, left, mid, right, axis);
    ghost var split := points[..];
    BuildKdTree(points, left, mid, depth + 1);
    ghost var leftBuilt := points[..];
    BuildKdTree(points, mid + 1, right, depth + 1);
    BuildStep(split, leftBuilt, points[..], left, right, depth);
    BuildRearranges(old(points[..]), split, leftBuilt, points[..], left, right);
  }

  /** Everything in `t[lo..hi)` comes from `s[lo..hi)` when the two hold the same elements. */
  lemma ElementsFromRange(s: seq<Pixel>, t: seq<Pixel>, lo: nat, hi: nat, i: nat)
    requires lo <= i < hi <= |s| == |t| && multiset(t[lo..hi]) == multiset(s[lo..hi])
    ensures exists k :: lo <= k < hi && s[k] == t[i]
  {
    var x := t[i];
    assert t[lo..hi][i - lo] == x;
    assert x in multiset(s[lo..hi]);
    var k :| 0 <= k < hi - lo && s[lo..hi][k] == x;
    assert s[lo + k] == x;
  }

  /**
   * Rearranging a range on one side of a median keeps the median in place and keeps that side
   * on its side of it.
   */
  lemma MedianKept(s: seq<Pixel>, t: seq<Pixel>, lo: nat, hi: nat, mid: nat, axis: nat)
    requires lo <= hi <= |s| && mid < |s| && (mid < lo || hi <= mid) && Rearranged(s, t, lo, hi)
    requires mid < lo ==> forall i | lo <= i < hi :: Key(s[mid], axis) <= Key(s[i], axis)
    requires hi <= mid ==> forall i | lo <= i < hi :: Key(s[i], axis) <= Key(s[mid], axis)
    ensures t[mid] == s[mid]
    ensures mid < lo ==> forall i | lo <= i < hi :: Key(t[mid], axis) <= Key(t[i], axis)
    ensures hi <= mid ==> forall i | lo <= i < hi :: Key(t[i], axis) <= Key(t[mid], axis)
  {
    forall i | lo <= i < hi
      ensures exists k :: lo <= k < hi && s[k] == t[i]
    {
      ElementsFromRange(s, t, lo, hi, i);
    }
  }

  /**
   * One level of `buildKdTree`, put together: the median split, then a tree built on each half,
   * give a tree on the whole range.
   */
  lemma BuildStep(s1: seq<Pixel>, s2: seq<Pixel>, s3: seq<Pixel>, left: nat, right: nat, depth: nat)
    requires left < right <= |s1|
    requires var mid := Mid(left, right); var axis := AxisOf(depth);
      && (forall i | left <= i < mid :: Key(s1[i], axis) <= Key(s1[mid], axis))
      && (forall i | mid < i < right :: Key(s1[mid], axis) <= Key(s1[i], axis))
      && Rearranged(s1, s2, left, mid) && IsKdTree(s2, left, mid, depth + 1)
      && Rearranged(s2, s3, mid + 1, right) && IsKdTree(s3, mid + 1, right, depth + 1)
    ensures IsKdTree(s3, left, right, depth)
  {
    var mid := Mid(left, right);
    var axis := AxisOf(depth);
    MedianKept(s1, s2, left, mid, mid, axis);
    MedianKept(s2, s3, mid + 1, right, mid, axis);
    LowerHalfKept(s2, s3, left, mid, right, depth + 1, axis);
    KdTreeJoin(s3, left, right, depth);
  }

  /** Building the upper half leaves the lower half, and its bound by the median, as they were. */
  lemma LowerHalfKept(s2: seq<Pixel>, s3: seq<Pixel>, left: nat, mid: nat, right: nat, depth: nat, axis: nat)
    requires left <= mid < right <= |s2| && Rearranged(s2, s3, mid + 1, right)
    requires forall i | left <= i < mid :: Key(s2[i], axis) <= Key(s2[mid], axis)
    requires IsKdTree(s2, left, mid, depth)
    ensures IsKdTree(s3, left, mid, depth)
    ensures forall i | left <= i < mid :: Key(s3[i], axis) <= Key(s3[mid], axis)
  {
    assert forall i | left <= i <= mid :: s3[i] == s2[i];
    KdTreeFrame(s2, s3, left, mid, depth);
  }

  /** A median split whose halves are trees one level deeper is a tree. */
  lemma KdTreeJoin(tree: seq<Pixel>, left: nat, right: nat, depth: nat)
    requires left < right <= |tree|
    requires var mid := Mid(left, right); var axis := AxisOf(depth);
      && (forall i | left <= i < mid :: Key(tree[i], axis) <= Key(tree[mid], axis))
      && (forall i | mid < i < right :: Key(tree[mid], axis) <= Key(tree[i], axis))
      && IsKdTree(tree, left, mid, depth + 1) && IsKdTree(tree, mid + 1, right, depth + 1)
    ensures IsKdTree(tree, left, right, depth)
  {
  }

  /** The three steps of `buildKdTree` each rearrange a part of the range, so together they rearrange it. */
  lemma BuildRearranges(s0: seq<Pixel>, s1: seq<Pixel>, s2: seq<Pixel>, s3: seq<Pixel>, left: nat, right: nat)
    requires left < right <= |s0|
    requires var mid := Mid(left, right);
      Rearranged(s0, s1, left, right) && Rearranged(s1, s2, left, mid) && Rearranged(s2, s3, mid + 1, right)
    ensures Rearranged(s0, s3, left, right)
  {
    var mid := Mid(left, right);
    RearrangedWithin(s1, s2, left, mid, left, right);
    RearrangedWithin(s2, s3, mid + 1, right, left, right);
    RearrangedTransitive(s0, s1, s2, left, right);
    RearrangedTransitive(s0, s2, s3, left, right);
  }

  lemma SquareMonotone(a: int, b: int)
    requires 0 <= a <= b
    ensures a * a <= b * b
  {
    assert a * a <= a * b <= b * b;
  }

  /** The squared distance is at least the square of the difference on any one axis. */
  lemma AxisDistance(t: Pixel, x: Pixel, axis: nat)
    ensures (Key(x, axis) - Key(t, axis)) * (Key(x, axis) - Key(t, axis)) <= SquaredDistance(t, x)
  {
    var dr, dg, db := t.red - x.red, t.green - x.green, t.blue - x.blue;
    SquareZero(dr);
    SquareZero(dg);
    SquareZero(db);
    var d := Key(t, axis) - Key(x, axis);
    assert d == dr || d == dg || d == db;
    NegatedSquare(d);
  }

  lemma NegatedSquare(d: int)
    ensures (-d) * (-d) == d * d
  {
  }

  /**
   * The pruning rule: a colour on the far side of the splitting plane is at least `diff * diff`
   * away from the target, so once `diff * diff >= min_dist` that side holds nothing closer.
   */
  lemma PruneFarSide(t: Pixel, pivot: Pixel, x: Pixel, axis: nat, minDist: nat)
    requires var diff := Key(t, axis) - Key(pivot, axis);
      && minDist <= diff * diff
      && (diff <= 0 ==> Key(pivot, axis) <= Key(x, axis))
      && (diff > 0 ==> Key(x, axis) <= Key(pivot, axis))
    ensures minDist <= SquaredDistance(t, x)
  {
    var diff := Key(t, axis) - Key(pivot, axis);
    var gap := Key(x, axis) - Key(t, axis);
    if diff <= 0 {
      SquareMonotone(-diff, gap);
    } else {
      SquareMonotone(diff, -gap);
    }
    assert diff * diff == (-diff) * (-diff);
    assert gap * gap == (-gap) * (-gap);
    AxisDistance(t, x, axis);
  }

  /**
   * The part of `KDTreeSearchContext` the search updates: the best distance and the best colour
   * found so far. The tree and the colour sought, which it only reads, are parameters of their
   * own; the context is taken by reference in the source, here it goes in and comes back.
   */
  datatype Best = Best(minDist: nat, nearest: Pixel)

  /** No colour of `tree[lo..hi]` is closer to `target` than the best distance so far. */
  predicate NoneCloser(tree: seq<Pixel>, target: Pixel, b: Best, lo: nat, hi: nat)
    requires lo <= hi <= |tree|
  {
    forall i {:trigger SquaredDistance(target, tree[i])} | lo <= i < hi ::
      b.minDist <= SquaredDistance(target, tree[i])
  }

  /**
   * From `b0` the search went to `b1`: the best distance never grows, the best colour changes
   * only with a strictly smaller distance, and then it is a colour of the tree at exactly that
   * distance from the target.
   */
  predicate Improves(tree: seq<Pixel>, target: Pixel, b0: Best, b1: Best) {
    && b1.minDist <= b0.minDist
    && (b1.minDist == b0.minDist ==> b1.nearest == b0.nearest)
    && (b1.minDist < b0.minDist ==> b1.nearest in tree && b1.minDist == SquaredDistance(target, b1.nearest))
  }

  /** The pruning rule applied to a whole half: the half beyond the plane has nothing closer. */
  lemma PruneHalf(tree: seq<Pixel>, target: Pixel, b: Best, mid: nat, lo: nat, hi: nat, axis: nat)
    requires lo <= hi <= |tree| && mid < |tree|
    requires var diff := Key(target, axis) - Key(tree[mid], axis);
      && b.minDist <= diff * diff
      && (diff <= 0 ==> forall i | lo <= i < hi :: Key(tree[mid], axis) <= Key(tree[i], axis))
      && (diff > 0 ==> forall i | lo <= i < hi :: Key(tree[i], axis) <= Key(tree[mid], axis))
    ensures NoneCloser(tree, target, b, lo, hi)
  {
    forall i | lo <= i < hi
      ensures b.minDist <= SquaredDistance(target, tree[i])
    {
      PruneFarSide(target, tree[mid], tree[i], axis, b.minDist);
    }
  }

  /**
   * The pruning rule at one level of the tree: once `diff * diff >= min_dist`, the half on the
   * other side of the splitting plane from the target holds nothing closer.
   */
  lemma PruneFar(tree: seq<Pixel>, target: Pixel, b: Best, left: nat, right: nat, depth: nat)
    requires left < right <= |tree| && IsKdTree(tree, left, right, depth)
    requires var diff := PlaneOffset(tree, target, Mid(left, right), depth); b.minDist <= diff * diff
    ensures var mid := Mid(left, right);
      if PlaneOffset(tree, target, mid, depth) <= 0 then NoneCloser(tree, target, b, mid + 1, right)
      else NoneCloser(tree, target, b, left, mid)
  {
    var mid := Mid(left, right);
    if PlaneOffset(tree, target, mid, depth) <= 0 {
      PruneHalf(tree, target, b, mid, mid + 1, right, AxisOf(depth));
    } else {
      PruneHalf(tree, target, b, mid, left, mid, AxisOf(depth));
    }
  }

  /** The update at the pivot: a strictly closer pivot becomes the best so far. */
  function VisitPivot(tree: seq<Pixel>, target: Pixel, b: Best, mid: nat): (r: Best)
    requires mid < |tree|
    ensures Improves(tree, target, b, r) && NoneCloser(tree, target, r, mid, mid + 1)
  {
    var dist := SquaredDistance(target, tree[mid]);
    if dist < b.minDist then Best(dist, tree[mid]) else b
  }

  /** Two steps of the search in a row are one step. */
  lemma ImprovesTransitive(tree: seq<Pixel>, target: Pixel, b0: Best, b1: Best, b2: Best)
    requires Improves(tree, target, b0, b1) && Improves(tree, target, b1, b2)
    ensures Improves(tree, target, b0, b2)
  {
  }

  /** The signed distance from the target to the splitting plane at `mid` on the depth's axis. */
  function PlaneOffset(tree: seq<Pixel>, target: Pixel, mid: nat, depth: nat): int
    requires mid < |tree|
  {
    Key(target, AxisOf(depth)) - Key(tree[mid], AxisOf(depth))
  }

  /** A later state of the search still has nothing closer in a range it had covered. */
  lemma NoneCloserLater(tree: seq<Pixel>, target: Pixel, b0: Best, b1: Best, lo: nat, hi: nat)
    requires lo <= hi <= |tree| && Improves(tree, target, b0, b1) && NoneCloser(tree, target, b0, lo, hi)
    ensures NoneCloser(tree, target, b1, lo, hi)
  {
  }

  /** Covered ranges side by side cover their union. */
  lemma NoneCloserJoin(tree: seq<Pixel>, target: Pixel, b: Best, lo: nat, mid: nat, hi: nat)
    requires lo <= mid <= hi <= |tree|
    requires NoneCloser(tree, target, b, lo, mid) && NoneCloser(tree, target, b, mid, hi)
    ensures NoneCloser(tree, target, b, lo, hi)
  {
  }

  /** The halves of a tree are trees one level deeper. */
  lemma KdTreeHalves(tree: seq<Pixel>, left: nat, right: nat, depth: nat)
    requires left < right <= |tree| && IsKdTree(tree, left, right, depth)
    ensures var mid := Mid(left, right);
      IsKdTree(tree, left, mid, depth + 1) && IsKdTree(tree, mid + 1, right, depth + 1)
  {
  }

  /**
   * The two halves around `mid` in the order they are searched: the one on the target's side of
   * the splitting plane (the left one when `diff <= 0`) first, then the other.
   */
  function Sides(left: nat, right: nat, diff: int): (nat, nat, nat, nat)
    requires left < right
  {
    var mid := Mid(left, right);
    if diff <= 0 then (left, mid, mid + 1, right) else (mid + 1, right, left, mid)
  }

  /**
   * One level of the search, put together: after the pivot, the half on the target's side of
   * the plane, and the other half unless `diff * diff >= min_dist` by then, nothing in the
   * range is closer than the final best distance.
   */
  lemma SearchLevel(tree: seq<Pixel>, target: Pixel, b0: Best, b1: Best, b2: Best, b3: Best,
                    left: nat, right: nat, depth: nat, diff: int,
                    nearLeft: nat, nearRight: nat, farLeft: nat, farRight: nat)
    requires left < right <= |tree| && IsKdTree(tree, left, right, depth)
    requires var mid := Mid(left, right);
      && diff == PlaneOffset(tree, target, mid, depth)
      && (nearLeft, nearRight, farLeft, farRight) == Sides(left, right, diff)
    requires b1 == VisitPivot(tree, target, b0, Mid(left, right))
    requires Improves(tree, target, b1, b2) && NoneCloser(tree, target, b2, nearLeft, nearRight)
    requires Improves(tree, target, b2, b3)
    requires diff * diff < b2.minDist ==> NoneCloser(tree, target, b3, farLeft, farRight)
    requires diff * diff >= b2.minDist ==> b3 == b2
    ensures Improves(tree, target, b0, b3) && NoneCloser(tree, target, b3, left, right)
  {
    var mid := Mid(left, right);
    ImprovesTransitive(tree, target, b0, b1, b2);
    ImprovesTransitive(tree, target, b0, b2, b3);
    if diff * diff >= b2.minDist {
      PruneFar(tree, target, b3, left, right, depth);
    }
    NoneCloserLater(tree, target, b1, b3, mid, mid + 1);
    NoneCloserLater(tree, target, b2, b3, nearLeft, nearRight);
    NoneCloserJoin(tree, target, b3, left, mid, mid + 1);
    NoneCloserJoin(tree, target, b3, left, mid + 1, right);
  }

  /** The half on the target's side of the plane and the other half are trees one level deeper. */
  lemma KdTreeSides(tree: seq<Pixel>, left: nat, right: nat, depth: nat, diff: int,
                    nearLeft: nat, nearRight: nat, farLeft: nat, farRight: nat)
    requires left < right <= |tree| && IsKdTree(tree, left, right, depth)
    requires (nearLeft, nearRight, farLeft, farRight) == Sides(left, right, diff)
    ensures nearLeft <= nearRight <= |tree| && farLeft <= farRight <= |tree|
    ensures IsKdTree(tree, nearLeft, nearRight, depth + 1) && IsKdTree(tree, farLeft, farRight, depth + 1)
  {
    KdTreeHalves(tree, left, right, depth);
    HalvesSides(tree, left, Mid(left, right), right, depth + 1, diff, nearLeft, nearRight, farLeft, farRight);
  }

  /** Which half comes first does not change that both are trees. */
  lemma HalvesSides(tree: seq<Pixel>, left: nat, mid: nat, right: nat, depth: nat, diff: int,
                    nearLeft: nat, nearRight: nat, farLeft: nat, farRight: nat)
    requires left <= mid < right <= |tree|
    requires IsKdTree(tree, left, mid, depth) && IsKdTree(tree, mid + 1, right, depth)
    requires diff <= 0 ==> (nearLeft, nearRight, farLeft, farRight) == (left, mid, mid + 1, right)
    requires diff > 0 ==> (nearLeft, nearRight, farLeft, farRight) == (mid + 1, right, left, mid)
    ensures nearLeft <= nearRight <= |tree| && farLeft <= farRight <= |tree|
    ensures IsKdTree(tree, nearLeft, nearRight, depth) && IsKdTree(tree, farLeft, farRight, depth)
  {
  }

  /**
   * `kdTreeNearestNeighbor`: afterwards `min_dist` is the least of its old value and the
   * distances from the target to the colours of `tree[left..right]`; if it went down, `nearest`
   * is a colour of the tree at that distance, and otherwise `nearest` is as it was.
   */
  method NearestNeighbor(tree: seq<Pixel>, target: Pixel, best: Best, left: nat, right: nat, depth: nat)
    returns (result: Best)
    requires left <= right <= |tree| && IsKdTree(tree, left, right, depth)
    decreases right - left
    ensures Improves(tree, target, best, result) && NoneCloser(tree, target, result, left, right)
  {
    result := best;
    if left >= right {
      return;
    }
    var mid := Mid(left, right);
    result := VisitPivot(tree, target, result, mid);
    ghost var visited := result;
    var diff := PlaneOffset(tree, target, mid, depth);
    // The half on the target's side of the splitting plane first, the other one if needed.
    var (nearLeft, nearRight, farLeft, farRight) := Sides(left, right, diff);
    KdTreeSides(tree, left, right, depth, diff, nearLeft, nearRight, farLeft, farRight);
    result := NearestNeighbor(tree, target, result, nearLeft, nearRight, depth + 1);
    ghost var nearDone := result;
    if diff * diff < result.minDist {
      result := NearestNeighbor(tree, target, result, farLeft, farRight, depth + 1);
    }
    SearchLevel(tree, target, best, visited, nearDone, result, left, right, depth, diff,
                nearLeft, nearRight, farLeft, farRight);
  }
}
