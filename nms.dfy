/** The NMS engine: scored quadrilaterals, their merging, greedy suppression
    and the locality-aware pipeline that folds row neighbours before
    suppressing. */
module Nms {
  import opened Geom
  import opened Sorting

  /** The four vertices of a detected box. */
  type Quad = q: Polygon | |q| == 4
    witness [Point(0.0, 0.0), Point(0.0, 0.0), Point(0.0, 0.0), Point(0.0, 0.0)]

  datatype BoundingBox = BoundingBox(poly: Quad, score: real)

  // ---------------------------------------------------------------------------
  // min_y
  // ---------------------------------------------------------------------------

  function Min(a: real, b: real): real
  {
    if b < a then b else a
  }

  /** The smallest y of the four vertices: the box's top row in image
      coordinates, the key of the row-wise sort. */
  function LowestY(q: Quad): (m: real)
    ensures forall i :: 0 <= i < 4 ==> m <= q[i].y
    ensures exists i :: 0 <= i < 4 && m == q[i].y
  {
    Min(Min(Min(q[0].y, q[1].y), q[2].y), q[3].y)
  }

  /** min_y: scans the vertices, keeping the smallest y seen. */
  method MinY(b: BoundingBox) returns (yMin: real)
    ensures forall i :: 0 <= i < 4 ==> yMin <= b.poly[i].y
    ensures exists i :: 0 <= i < 4 && yMin == b.poly[i].y
    ensures yMin == LowestY(b.poly)
  {
    yMin := b.poly[0].y;
    var i := 1;
    while i < 4
      invariant 1 <= i <= 4
      invariant forall k :: 0 <= k < i ==> yMin <= b.poly[k].y
      invariant exists k :: 0 <= k < i && yMin == b.poly[k].y
    {
      if b.poly[i].y < yMin {
        yMin := b.poly[i].y;
      }
      i := i + 1;
    }
  }

  // ---------------------------------------------------------------------------
  // should_merge
  // ---------------------------------------------------------------------------

  /** Over a positive denominator, comparing a ratio is comparing its
      numerator; over a zero one there is no ratio. */
  lemma RatioAtLeast(iou: Option<real>, union: real, inter: real, t: real)
    requires iou.Some? <==> union != 0.0
    requires iou.Some? ==> iou.value * union == inter
    ensures union > 0.0 ==> (iou.Some? && iou.value >= t <==> inter >= t * union)
    ensures union == 0.0 ==> iou.None?
  {
    if union > 0.0 {
      if iou.value >= t {
        assert (iou.value - t) * union >= 0.0;
      } else {
        assert (t - iou.value) * union > 0.0;
      }
    }
  }

  /** Multiplying by a negative union reverses the comparison. */
  lemma RatioAtLeastNegative(ratio: real, union: real, inter: real, t: real)
    requires ratio * union == inter && union < 0.0
    ensures ratio >= t <==> inter <= t * union
  {
    if ratio >= t {
      assert (ratio - t) * union <= 0.0;
    } else {
      assert (t - ratio) * union < 0.0;
    }
  }

  /** should_merge: the IoU reaches the threshold (inclusive). A zero union
      area never merges. The float quotient there is NaN when the
      intersection area is zero too, and `NaN >= t` is false; a positive
      intersection over a zero union would be +inf and merge, but needs an
      intersection larger than a union, which the convex clockwise boxes the
      kernel assumes cannot have. */
  function ShouldMerge(a: BoundingBox, b: BoundingBox, t: real): (r: bool)
    ensures UnionArea(a.poly, b.poly) > 0.0 ==>
      (r <==> Area(Intersection(a.poly, b.poly)) >= t * UnionArea(a.poly, b.poly))
    ensures UnionArea(a.poly, b.poly) == 0.0 ==> !r
  {
    var iou := IoU(a.poly, b.poly);
    RatioAtLeast(iou, UnionArea(a.poly, b.poly), Area(Intersection(a.poly, b.poly)), t);
    iou.Some? && iou.value >= t
  }

  /** A negative union area, which no pair of proper boxes has, reverses the
      comparison of the areas. */
  lemma ShouldMergeNegativeUnion(a: BoundingBox, b: BoundingBox, t: real)
    requires UnionArea(a.poly, b.poly) < 0.0
    ensures ShouldMerge(a, b, t) <==> Area(Intersection(a.poly, b.poly)) <= t * UnionArea(a.poly, b.poly)
  {
    var union, inter := UnionArea(a.poly, b.poly), Area(Intersection(a.poly, b.poly));
    var ratio := IoU(a.poly, b.poly).value;
    RatioAtLeastNegative(ratio, union, inter, t);
  }

  /** A lower threshold merges at least as much. */
  lemma ShouldMergeMonotone(a: BoundingBox, b: BoundingBox, t1: real, t2: real)
    requires t1 <= t2 && ShouldMerge(a, b, t2)
    ensures ShouldMerge(a, b, t1)
  {
  }

  /** A strictly convex box merges with itself at every threshold up to 1. */
  lemma ShouldMergeWithSelf(b: BoundingBox, t: real)
    requires StrictlyConvex(b.poly) && t <= 1.0
    ensures ShouldMerge(b, b, t)
  {
    IoUWithSelf(b.poly);
  }

  // ---------------------------------------------------------------------------
  // weighted_merge
  // ---------------------------------------------------------------------------

  /** weighted_merge: vertex k is the score-weighted average of the two
      vertices k; the scores add. */
  function WeightedMerge(a: BoundingBox, b: BoundingBox): (m: BoundingBox)
    requires a.score + b.score != 0.0
    ensures m.score == a.score + b.score
    ensures forall k :: 0 <= k < 4 ==>
      m.score * m.poly[k].x == a.score * a.poly[k].x + b.score * b.poly[k].x &&
      m.score * m.poly[k].y == a.score * a.poly[k].y + b.score * b.poly[k].y
  {
    BoundingBox(
      seq(4, k requires 0 <= k < 4 =>
        Point(Average(a.score, a.poly[k].x, b.score, b.poly[k].x),
              Average(a.score, a.poly[k].y, b.score, b.poly[k].y))),
      a.score + b.score)
  }

  /** The weighted average of two coordinates. */
  function Average(wa: real, u: real, wb: real, v: real): (w: real)
    requires wa + wb != 0.0
    ensures (wa + wb) * w == wa * u + wb * v
  {
    (wa * u + wb * v) / (wa + wb)
  }

  /** Merging a box with itself keeps its polygon and doubles its score. */
  lemma WeightedMergeWithSelf(b: BoundingBox)
    requires b.score != 0.0
    ensures WeightedMerge(b, b) == BoundingBox(b.poly, 2.0 * b.score)
  {
    var m := WeightedMerge(b, b);
    forall k | 0 <= k < 4
      ensures m.poly[k] == b.poly[k]
    {
      assert m.score * m.poly[k].x == m.score * b.poly[k].x;
      assert m.score * m.poly[k].y == m.score * b.poly[k].y;
    }
  }

  /** The merge does not depend on the order of its arguments. */
  lemma WeightedMergeSymmetric(a: BoundingBox, b: BoundingBox)
    requires a.score + b.score != 0.0
    ensures WeightedMerge(a, b) == WeightedMerge(b, a)
  {
    var m, m' := WeightedMerge(a, b), WeightedMerge(b, a);
    forall k | 0 <= k < 4
      ensures m.poly[k] == m'.poly[k]
    {
      assert m.score * m.poly[k].x == m.score * m'.poly[k].x;
      assert m.score * m.poly[k].y == m.score * m'.poly[k].y;
    }
  }

  /** With positive scores each merged coordinate lies between the two input
      coordinates. */
  lemma WeightedMergeBetween(a: BoundingBox, b: BoundingBox, k: nat)
    requires a.score > 0.0 && b.score > 0.0 && k < 4
    ensures var m := WeightedMerge(a, b);
      Min(a.poly[k].x, b.poly[k].x) <= m.poly[k].x <= -Min(-a.poly[k].x, -b.poly[k].x) &&
      Min(a.poly[k].y, b.poly[k].y) <= m.poly[k].y <= -Min(-a.poly[k].y, -b.poly[k].y)
  {
    var m := WeightedMerge(a, b);
    BetweenByWeights(a.score, b.score, a.poly[k].x, b.poly[k].x, m.poly[k].x);
    BetweenByWeights(a.score, b.score, a.poly[k].y, b.poly[k].y, m.poly[k].y);
  }

  lemma BetweenByWeights(wa: real, wb: real, u: real, v: real, w: real)
    requires wa > 0.0 && wb > 0.0 && (wa + wb) * w == wa * u + wb * v
    ensures Min(u, v) <= w <= -Min(-u, -v)
  {
    if u <= v {
      assert (wa + wb) * (w - u) == wb * (v - u);
      assert (wa + wb) * (v - w) == wa * (v - u);
    } else {
      assert (wa + wb) * (w - v) == wa * (u - v);
      assert (wa + wb) * (u - w) == wb * (u - v);
    }
  }

  /** Merging is associative: folding three boxes in either grouping gives
      the same box, the score-weighted average of all three. */
  lemma WeightedMergeAssociative(a: BoundingBox, b: BoundingBox, c: BoundingBox)
    requires a.score > 0.0 && b.score > 0.0 && c.score > 0.0
    ensures WeightedMerge(WeightedMerge(a, b), c) == WeightedMerge(a, WeightedMerge(b, c))
  {
    var ab, bc := WeightedMerge(a, b), WeightedMerge(b, c);
    var l, r := WeightedMerge(ab, c), WeightedMerge(a, bc);
    forall k | 0 <= k < 4
      ensures l.poly[k] == r.poly[k]
    {
      AverageAssociative(a.score, b.score, c.score, a.poly[k].x, b.poly[k].x, c.poly[k].x);
      AverageAssociative(a.score, b.score, c.score, a.poly[k].y, b.poly[k].y, c.poly[k].y);
    }
    assert l.poly == r.poly;
  }

  /** The two groupings of a three-term weighted average agree. */
  lemma AverageAssociative(wa: real, wb: real, wc: real, u: real, v: real, w: real)
    requires wa > 0.0 && wb > 0.0 && wc > 0.0
    ensures Average(wa + wb, Average(wa, u, wb, v), wc, w) == Average(wa, u, wb + wc, Average(wb, v, wc, w))
  {
    var uv, vw := Average(wa, u, wb, v), Average(wb, v, wc, w);
    var left, right := Average(wa + wb, uv, wc, w), Average(wa, u, wb + wc, vw);
    assert (wa + wb + wc) * left == wa * u + wb * v + wc * w;
    assert (wa + wb + wc) * right == wa * u + wb * v + wc * w;
    CancelPositive(wa + wb + wc, left, right);
  }

  lemma CancelPositive(s: real, u: real, v: real)
    requires s > 0.0 && s * u == s * v
    ensures u == v
  {
    assert s * (u - v) == 0.0;
  }

  // ---------------------------------------------------------------------------
  // standard_nms
  // ---------------------------------------------------------------------------

  /** The candidate indices 0, 1, ..., n - 1 before sorting. */
  function Range(n: nat): (r: seq<nat>)
    ensures |r| == n && forall i :: 0 <= i < n ==> r[i] == i
  {
    seq(n, i requires 0 <= i => i)
  }

  ghost predicate ValidIndices(boxes: seq<BoundingBox>, s: seq<nat>)
  {
    forall i :: 0 <= i < |s| ==> s[i] < |boxes|
  }

  ghost predicate Distinct(s: seq<nat>)
  {
    forall i, j :: 0 <= i < j < |s| ==> s[i] != s[j]
  }

  /** The indices are listed with non-increasing scores. */
  ghost predicate ScoreDescending(boxes: seq<BoundingBox>, s: seq<nat>)
    requires ValidIndices(boxes, s)
  {
    forall i, j :: 0 <= i < j < |s| ==> boxes[s[i]].score >= boxes[s[j]].score
  }

  /** What the descending sort of the candidate indices guarantees: every
      index exactly once, in non-increasing score order, ties in any order. */
  ghost predicate IsScoreOrder(boxes: seq<BoundingBox>, order: seq<nat>)
  {
    multiset(order) == multiset(Range(|boxes|)) &&
    ValidIndices(boxes, order) &&
    ScoreDescending(boxes, order)
  }

  /** A permutation of 0 .. n - 1 has n entries, each below n, none repeated. */
  lemma RangePermutation(order: seq<nat>, n: nat)
    requires multiset(order) == multiset(Range(n))
    ensures |order| == n
    ensures forall i :: 0 <= i < |order| ==> order[i] < n
    ensures Distinct(order)
  {
    assert |multiset(order)| == |order| && |multiset(Range(n))| == |Range(n)|;
    forall i | 0 <= i < |order|
      ensures order[i] < n
    {
      assert order[i] in multiset(Range(n));
    }
    forall i, j | 0 <= i < j < |order|
      ensures order[i] != order[j]
    {
      RangeCount(n, order[i]);
      RepeatCounted(order, i, j);
    }
  }

  /** An entry equal to a later one is counted at least twice. */
  lemma RepeatCounted(s: seq<nat>, i: nat, j: nat)
    requires i < j < |s|
    ensures s[i] == s[j] ==> multiset(s)[s[i]] >= 2
  {
    assert s == s[..i] + [s[i]] + s[i + 1..j] + [s[j]] + s[j + 1..];
  }

  /** Each index below n occurs once in Range(n). */
  lemma {:induction false} RangeCount(n: nat, x: nat)
    requires x < n
    ensures multiset(Range(n))[x] == 1
  {
    if n == x + 1 {
      assert Range(n) == Range(x) + [x];
      assert x !in Range(x);
    } else {
      assert Range(n) == Range(n - 1) + [n - 1];
      RangeCount(n - 1, x);
    }
  }

  /** The test that decides whether a kept box suppresses a candidate;
      standard_nms uses should_merge at its threshold. */
  type MergeTest = (BoundingBox, BoundingBox) -> bool

  /** The merge test of standard_nms at threshold t. */
  function MergesAt(t: real): MergeTest
  {
    (a, b) => ShouldMerge(a, b, t)
  }

  /** One round of suppression: the candidates among cands[1..n], in order,
      that do not merge with the current box. */
  function Survivors(boxes: seq<BoundingBox>, current: BoundingBox, cands: seq<nat>, n: nat, merges: MergeTest): (s: seq<nat>)
    requires 1 <= n <= |cands| && ValidIndices(boxes, cands)
    ensures |s| < n && ValidIndices(boxes, s)
  {
    if n == 1 then []
    else
      var s := Survivors(boxes, current, cands, n - 1, merges);
      if merges(current, boxes[cands[n - 1]]) then s else s + [cands[n - 1]]
  }

  /** The survivors are exactly the candidates that do not merge with the
      current box. */
  lemma {:induction false} SurvivorsMembers(boxes: seq<BoundingBox>, current: BoundingBox, cands: seq<nat>, n: nat, merges: MergeTest)
    requires 1 <= n <= |cands| && ValidIndices(boxes, cands)
    ensures forall j :: j in Survivors(boxes, current, cands, n, merges) <==> j in cands[1..n] && !merges(current, boxes[j])
  {
    if n > 1 {
      SurvivorsMembers(boxes, current, cands, n - 1, merges);
      assert cands[1..n] == cands[1..n - 1] + [cands[n - 1]];
    }
  }

  /** The greedy selection: keep the head candidate, drop every later one it
      merges with, repeat on what is left. */
  function GreedyKeep(boxes: seq<BoundingBox>, cands: seq<nat>, merges: MergeTest): (keep: seq<nat>)
    requires ValidIndices(boxes, cands)
    ensures |keep| <= |cands| && ValidIndices(boxes, keep)
    ensures keep == [] <==> cands == []
    decreases |cands|
  {
    if cands == [] then []
    else
      var next := Survivors(boxes, boxes[cands[0]], cands, |cands|, merges);
      [cands[0]] + GreedyKeep(boxes, next, merges)
  }

  /** Only candidates are kept. */
  lemma {:induction false} GreedyKeepMembers(boxes: seq<BoundingBox>, cands: seq<nat>, merges: MergeTest)
    requires ValidIndices(boxes, cands)
    ensures forall j :: j in GreedyKeep(boxes, cands, merges) ==> j in cands
    decreases |cands|
  {
    if cands != [] {
      var next := Survivors(boxes, boxes[cands[0]], cands, |cands|, merges);
      SurvivorsMembers(boxes, boxes[cands[0]], cands, |cands|, merges);
      GreedyKeepMembers(boxes, next, merges);
      forall j | j in GreedyKeep(boxes, next, merges)
        ensures j in cands
      {
        assert j in cands[1..|cands|];
      }
    }
  }

  /** The boxes at the given indices. */
  function Select(boxes: seq<BoundingBox>, keep: seq<nat>): (kept: seq<BoundingBox>)
    requires ValidIndices(boxes, keep)
    ensures |kept| == |keep|
    ensures forall i :: 0 <= i < |keep| ==> kept[i] == boxes[keep[i]]
  {
    seq(|keep|, i requires 0 <= i < |keep| => boxes[keep[i]])
  }

  lemma {:induction false} SurvivorsDistinct(boxes: seq<BoundingBox>, current: BoundingBox, cands: seq<nat>, n: nat, merges: MergeTest)
    requires 1 <= n <= |cands| && ValidIndices(boxes, cands) && Distinct(cands)
    ensures Distinct(Survivors(boxes, current, cands, n, merges))
  {
    if n > 1 {
      SurvivorsDistinct(boxes, current, cands, n - 1, merges);
      SurvivorsMembers(boxes, current, cands, n - 1, merges);
      assert cands[n - 1] !in cands[1..n - 1];
    }
  }

  lemma {:induction false} SurvivorsDescending(boxes: seq<BoundingBox>, current: BoundingBox, cands: seq<nat>, n: nat, merges: MergeTest)
    requires 1 <= n <= |cands| && ValidIndices(boxes, cands) && ScoreDescending(boxes, cands)
    ensures ScoreDescending(boxes, Survivors(boxes, current, cands, n, merges))
  {
    if n > 1 {
      var last := cands[n - 1];
      SurvivorsDescending(boxes, current, cands, n - 1, merges);
      SurvivorsMembers(boxes, current, cands, n - 1, merges);
      var s := Survivors(boxes, current, cands, n - 1, merges);
      if !merges(current, boxes[last]) {
        var s' := s + [last];
        forall a, b | 0 <= a < b < |s'|
          ensures boxes[s'[a]].score >= boxes[s'[b]].score
        {
          assert s'[a] == s[a];
          if b == |s| {
            assert s[a] in cands[1..n - 1];
            var k :| 0 <= k < n - 2 && cands[1..n - 1][k] == s[a];
            assert cands[k + 1] == s[a];
          } else {
            assert s'[b] == s[b];
          }
        }
      }
    }
  }

  /** No index is kept twice. */
  lemma {:induction false} GreedyKeepDistinct(boxes: seq<BoundingBox>, cands: seq<nat>, merges: MergeTest)
    requires ValidIndices(boxes, cands) && Distinct(cands)
    ensures Distinct(GreedyKeep(boxes, cands, merges))
    decreases |cands|
  {
    if cands != [] {
      var next := Survivors(boxes, boxes[cands[0]], cands, |cands|, merges);
      SurvivorsDistinct(boxes, boxes[cands[0]], cands, |cands|, merges);
      SurvivorsMembers(boxes, boxes[cands[0]], cands, |cands|, merges);
      GreedyKeepDistinct(boxes, next, merges);
      GreedyKeepMembers(boxes, next, merges);
      assert cands[0] !in cands[1..|cands|];
    }
  }

  /** The kept boxes come out in non-increasing score order. */
  lemma {:induction false} GreedyKeepDescending(boxes: seq<BoundingBox>, cands: seq<nat>, merges: MergeTest)
    requires ValidIndices(boxes, cands) && ScoreDescending(boxes, cands)
    ensures ScoreDescending(boxes, GreedyKeep(boxes, cands, merges))
    decreases |cands|
  {
    if cands != [] {
      var next := Survivors(boxes, boxes[cands[0]], cands, |cands|, merges);
      SurvivorsDescending(boxes, boxes[cands[0]], cands, |cands|, merges);
      GreedyKeepDescending(boxes, next, merges);
      SurvivorsMembers(boxes, boxes[cands[0]], cands, |cands|, merges);
      GreedyKeepMembers(boxes, next, merges);
      var rest := GreedyKeep(boxes, next, merges);
      var keep := GreedyKeep(boxes, cands, merges);
      assert keep[0] == cands[0] && keep[1..] == rest;
      forall a, b | 0 <= a < b < |keep|
        ensures boxes[keep[a]].score >= boxes[keep[b]].score
      {
        assert keep[b] == rest[b - 1];
        if a == 0 {
          assert rest[b - 1] in rest;
          var k :| 0 <= k < |cands[1..|cands|]| && cands[1..|cands|][k] == rest[b - 1];
          assert cands[k + 1] == keep[b];
        } else {
          assert keep[a] == rest[a - 1];
        }
      }
    }
  }

  /** No box in the list merges with a box listed after it. */
  ghost predicate PairwiseApart(boxes: seq<BoundingBox>, s: seq<nat>, merges: MergeTest)
    requires ValidIndices(boxes, s)
  {
    forall i, j :: 0 <= i < j < |s| ==> !merges(boxes[s[i]], boxes[s[j]])
  }

  /** No kept box merges with a box kept after it. */
  lemma {:induction false} GreedyKeepNoMerge(boxes: seq<BoundingBox>, cands: seq<nat>, merges: MergeTest)
    requires ValidIndices(boxes, cands)
    ensures PairwiseApart(boxes, GreedyKeep(boxes, cands, merges), merges)
    decreases |cands|
  {
    if cands != [] {
      var next := Survivors(boxes, boxes[cands[0]], cands, |cands|, merges);
      GreedyKeepNoMerge(boxes, next, merges);
      SurvivorsMembers(boxes, boxes[cands[0]], cands, |cands|, merges);
      GreedyKeepMembers(boxes, next, merges);
      var rest := GreedyKeep(boxes, next, merges);
      var keep := GreedyKeep(boxes, cands, merges);
      assert keep[0] == cands[0] && keep[1..] == rest;
      forall i, j | 0 <= i < j < |keep|
        ensures !merges(boxes[keep[i]], boxes[keep[j]])
      {
        assert keep[j] == rest[j - 1];
        if i == 0 {
          assert rest[j - 1] in rest;
          assert rest[j - 1] in next;
          assert !merges(boxes[cands[0]], boxes[rest[j - 1]]);
          assert !merges(boxes[keep[i]], boxes[keep[j]]);
        } else {
          assert keep[i] == rest[i - 1];
          assert !merges(boxes[rest[i - 1]], boxes[rest[j - 1]]);
        }
      }
    }
  }

  /** Every candidate that is not kept was suppressed by a kept box that
      merges with it and scores at least as high. */
  lemma {:induction false} GreedyKeepSuppressed(boxes: seq<BoundingBox>, cands: seq<nat>, merges: MergeTest, j: nat)
    requires ValidIndices(boxes, cands) && ScoreDescending(boxes, cands)
    requires j in cands && j !in GreedyKeep(boxes, cands, merges)
    ensures exists i ::
      i in GreedyKeep(boxes, cands, merges) && boxes[i].score >= boxes[j].score && merges(boxes[i], boxes[j])
    decreases |cands|
  {
    var head := cands[0];
    var next := Survivors(boxes, boxes[head], cands, |cands|, merges);
    var keep := GreedyKeep(boxes, cands, merges);
    assert keep == [head] + GreedyKeep(boxes, next, merges);
    assert j in cands[1..|cands|] by {
      assert cands == [head] + cands[1..|cands|];
    }
    SurvivorsMembers(boxes, boxes[head], cands, |cands|, merges);
    if j in next {
      SurvivorsDescending(boxes, boxes[head], cands, |cands|, merges);
      GreedyKeepSuppressed(boxes, next, merges, j);
      var i :| i in GreedyKeep(boxes, next, merges) &&
        boxes[i].score >= boxes[j].score && merges(boxes[i], boxes[j]);
      assert i in keep;
    } else {
      var k :| 0 <= k < |cands[1..|cands|]| && cands[1..|cands|][k] == j;
      assert cands[k + 1] == j;
      assert head in keep;
    }
  }

  /** The result of standard_nms for a given sorted candidate order. */
  function StandardNmsResult(boxes: seq<BoundingBox>, order: seq<nat>, t: real): (kept: seq<BoundingBox>)
    requires ValidIndices(boxes, order)
    ensures |kept| <= |order|
  {
    Select(boxes, GreedyKeep(boxes, order, MergesAt(t)))
  }

  /** The output is empty exactly when the input is, and never longer. */
  lemma StandardNmsSize(boxes: seq<BoundingBox>, order: seq<nat>, t: real)
    requires IsScoreOrder(boxes, order)
    ensures |StandardNmsResult(boxes, order, t)| <= |boxes|
    ensures StandardNmsResult(boxes, order, t) == [] <==> boxes == []
  {
    RangePermutation(order, |boxes|);
  }

  /** Every output box is an unmodified input box, and no input index is
      output twice. */
  lemma StandardNmsKeepsInputs(boxes: seq<BoundingBox>, order: seq<nat>, t: real)
    requires IsScoreOrder(boxes, order)
    ensures var keep := GreedyKeep(boxes, order, MergesAt(t));
      Distinct(keep) && StandardNmsResult(boxes, order, t) == Select(boxes, keep)
    ensures forall b :: b in StandardNmsResult(boxes, order, t) ==> b in boxes
  {
    RangePermutation(order, |boxes|);
    GreedyKeepDistinct(boxes, order, MergesAt(t));
  }

  /** The output is in non-increasing score order. */
  lemma StandardNmsDescending(boxes: seq<BoundingBox>, order: seq<nat>, t: real)
    requires IsScoreOrder(boxes, order)
    ensures var kept := StandardNmsResult(boxes, order, t);
      forall i, j :: 0 <= i < j < |kept| ==> kept[i].score >= kept[j].score
  {
    GreedyKeepDescending(boxes, order, MergesAt(t));
  }

  /** No output box merges with an output box after it. */
  lemma StandardNmsApart(boxes: seq<BoundingBox>, order: seq<nat>, t: real)
    requires IsScoreOrder(boxes, order)
    ensures var kept := StandardNmsResult(boxes, order, t);
      forall i, j :: 0 <= i < j < |kept| ==> !ShouldMerge(kept[i], kept[j], t)
  {
    var keep := GreedyKeep(boxes, order, MergesAt(t));
    GreedyKeepNoMerge(boxes, order, MergesAt(t));
    var kept := StandardNmsResult(boxes, order, t);
    forall i, j | 0 <= i < j < |kept|
      ensures !ShouldMerge(kept[i], kept[j], t)
    {
      assert !MergesAt(t)(boxes[keep[i]], boxes[keep[j]]);
    }
  }

  /** Every input box that is not output was suppressed by an output box
      that scores at least as high and merges with it. */
  lemma StandardNmsSuppressed(boxes: seq<BoundingBox>, order: seq<nat>, t: real, j: nat)
    requires IsScoreOrder(boxes, order)
    requires j < |boxes| && j !in GreedyKeep(boxes, order, MergesAt(t))
    ensures var kept := StandardNmsResult(boxes, order, t);
      exists i :: 0 <= i < |kept| && kept[i].score >= boxes[j].score && ShouldMerge(kept[i], boxes[j], t)
  {
    var keep := GreedyKeep(boxes, order, MergesAt(t));
    var kept := StandardNmsResult(boxes, order, t);
    assert j in order by {
      assert j in multiset(Range(|boxes|)) by {
        assert Range(|boxes|)[j] == j;
      }
    }
    GreedyKeepSuppressed(boxes, order, MergesAt(t), j);
    var k :| k in keep && boxes[k].score >= boxes[j].score && MergesAt(t)(boxes[k], boxes[j]);
    var i :| 0 <= i < |keep| && keep[i] == k;
    assert kept[i] == boxes[k];
  }

  /** Sorting the indices by ascending negated score lists them by
      descending score. */
  lemma SortedIsScoreOrder(boxes: seq<BoundingBox>, order: seq<nat>, key: nat -> real)
    requires forall i: nat :: i < |boxes| ==> key(i) == -boxes[i].score
    requires multiset(order) == multiset(Range(|boxes|)) && SortedBy(order, key)
    ensures IsScoreOrder(boxes, order)
  {
    RangePermutation(order, |boxes|);
  }

  /** standard_nms: sorts the candidate indices by descending score, then
      repeatedly keeps the head candidate and compacts the rest in place to
      those it does not merge with. `order` is the sorted candidate list,
      one of the orders the unstable sort may produce. */
  method StandardNms(boxes: seq<BoundingBox>, t: real) returns (kept: seq<BoundingBox>, ghost order: seq<nat>)
    requires 0.0 <= t <= 1.0
    ensures IsScoreOrder(boxes, order)
    ensures kept == StandardNmsResult(boxes, order, t)
  {
    var candidates := SortedCandidates(boxes);
    order := candidates[..];
    var keep := SuppressAll(boxes, MergesAt(t), candidates);
    kept := SelectBoxes(boxes, keep);
  }

  /** The while loop of standard_nms: keeps the head candidate, compacts the
      array to the survivors of this round, and repeats until no candidate
      is left. */
  method SuppressAll(boxes: seq<BoundingBox>, merges: MergeTest, candidates: array<nat>) returns (keep: seq<nat>)
    requires ValidIndices(boxes, candidates[..])
    modifies candidates
    ensures keep == GreedyKeep(boxes, old(candidates[..]), merges)
  {
    ghost var order := candidates[..];
    keep := [];
    var size := candidates.Length;
    assert candidates[..size] == order;
    while size > 0
      invariant 0 <= size <= candidates.Length
      invariant ValidIndices(boxes, candidates[..size])
      invariant keep + GreedyKeep(boxes, candidates[..size], merges) == GreedyKeep(boxes, order, merges)
      decreases size
    {
      ghost var round := candidates[..size];
      ghost var before := keep;
      var current := candidates[0];
      keep := keep + [current];
      size := SuppressRound(boxes, merges, candidates, size);
      assert GreedyKeep(boxes, round, merges) == [current] + GreedyKeep(boxes, candidates[..size], merges);
      assert keep + GreedyKeep(boxes, candidates[..size], merges) == before + GreedyKeep(boxes, round, merges);
    }
  }

  /** The candidate indices 0 .. |boxes| - 1 sorted by descending score. */
  method SortedCandidates(boxes: seq<BoundingBox>) returns (candidates: array<nat>)
    ensures fresh(candidates)
    ensures IsScoreOrder(boxes, candidates[..])
  {
    candidates := new nat[|boxes|](i requires 0 <= i < |boxes| => i);
    assert candidates[..] == Range(|boxes|);
    var key := (i: nat) => if i < |boxes| then -boxes[i].score else 0.0;
    SortBy(candidates, key);
    SortedIsScoreOrder(boxes, candidates[..], key);
  }

  /** Copies out the kept boxes, in keep order. */
  method SelectBoxes(boxes: seq<BoundingBox>, keep: seq<nat>) returns (kept: seq<BoundingBox>)
    requires ValidIndices(boxes, keep)
    ensures kept == Select(boxes, keep)
  {
    kept := [];
    var k := 0;
    while k < |keep|
      invariant 0 <= k <= |keep|
      invariant kept == Select(boxes, keep[..k])
    {
      assert keep[..k + 1] == keep[..k] + [keep[k]];
      kept := kept + [boxes[keep[k]]];
      k := k + 1;
    }
    assert keep[..k] == keep;
  }

  /** One round of standard_nms: moves the candidates after the head that do
      not merge with it to the front of the array, in order, and returns
      their number. */
  method SuppressRound(boxes: seq<BoundingBox>, merges: MergeTest, candidates: array<nat>, size: nat) returns (p: nat)
    requires 0 < size <= candidates.Length && ValidIndices(boxes, candidates[..size])
    modifies candidates
    ensures p < size
    ensures candidates[..p] == Survivors(boxes, boxes[old(candidates[0])], old(candidates[..size]), size, merges)
  {
    ghost var round := candidates[..size];
    ghost var survivors: seq<nat> := [];
    var current := candidates[0];
    p := 0;
    var i := 1;
    while i < size
      invariant 0 <= p < i <= size
      invariant forall k :: i <= k < size ==> candidates[k] == round[k]
      invariant |survivors| == p && forall k :: 0 <= k < p ==> candidates[k] == survivors[k]
      invariant survivors == Survivors(boxes, boxes[current], round, i, merges)
    {
      if !merges(boxes[current], boxes[candidates[i]]) {
        survivors := survivors + [candidates[i]];
        candidates[p] := candidates[i];
        p := p + 1;
      }
      i := i + 1;
    }
    assert candidates[..p] == survivors;
  }

  // ---------------------------------------------------------------------------
  // locality_aware_nms
  // ---------------------------------------------------------------------------

  ghost predicate PositiveScores(boxes: seq<BoundingBox>)
  {
    forall i :: 0 <= i < |boxes| ==> boxes[i].score > 0.0
  }

  /** The sum of the scores. */
  function TotalScore(boxes: seq<BoundingBox>): real
  {
    if boxes == [] then 0.0 else TotalScore(boxes[..|boxes| - 1]) + boxes[|boxes| - 1].score
  }

  /** The fold of locality_aware_nms over the row-sorted boxes: the
      accumulator absorbs the next box while they merge; otherwise it is
      emitted and the next box starts a new accumulator. */
  function FoldFrom(current: BoundingBox, rest: seq<BoundingBox>, merges: MergeTest): (folded: seq<BoundingBox>)
    requires current.score > 0.0 && PositiveScores(rest)
    ensures 1 <= |folded| <= |rest| + 1
    ensures PositiveScores(folded)
    decreases |rest|
  {
    if rest == [] then [current]
    else if merges(current, rest[0]) then FoldFrom(WeightedMerge(current, rest[0]), rest[1..], merges)
    else [current] + FoldFrom(rest[0], rest[1..], merges)
  }

  /** The folded list of a non-empty row-sorted list. */
  function Fold(boxes: seq<BoundingBox>, merges: MergeTest): (folded: seq<BoundingBox>)
    requires |boxes| > 0 && PositiveScores(boxes)
    ensures 1 <= |folded| <= |boxes|
  {
    FoldFrom(boxes[0], boxes[1..], merges)
  }

  lemma {:induction false} TotalScoreCons(b: BoundingBox, rest: seq<BoundingBox>)
    ensures TotalScore([b] + rest) == b.score + TotalScore(rest)
    decreases |rest|
  {
    if rest != [] {
      var init := rest[..|rest| - 1];
      assert ([b] + rest)[..|rest|] == [b] + init;
      TotalScoreCons(b, init);
    }
  }

  /** Folding neither creates nor loses score. */
  lemma {:induction false} FoldFromScore(current: BoundingBox, rest: seq<BoundingBox>, merges: MergeTest)
    requires current.score > 0.0 && PositiveScores(rest)
    ensures TotalScore(FoldFrom(current, rest, merges)) == current.score + TotalScore(rest)
    decreases |rest|
  {
    if rest != [] {
      TotalScoreCons(rest[0], rest[1..]);
      assert rest == [rest[0]] + rest[1..];
      if merges(current, rest[0]) {
        FoldFromScore(WeightedMerge(current, rest[0]), rest[1..], merges);
      } else {
        FoldFromScore(rest[0], rest[1..], merges);
        TotalScoreCons(current, FoldFrom(rest[0], rest[1..], merges));
      }
    }
  }

  /** The folded list has the score total of the input. */
  lemma FoldScore(boxes: seq<BoundingBox>, merges: MergeTest)
    requires |boxes| > 0 && PositiveScores(boxes)
    ensures TotalScore(Fold(boxes, merges)) == TotalScore(boxes)
  {
    FoldFromScore(boxes[0], boxes[1..], merges);
    TotalScoreCons(boxes[0], boxes[1..]);
    assert boxes == [boxes[0]] + boxes[1..];
  }

  /** weighted_merge folded left to right over a run of boxes. */
  function MergeRun(run: seq<BoundingBox>): (m: BoundingBox)
    requires |run| > 0 && PositiveScores(run)
    ensures m.score == TotalScore(run) && m.score > 0.0
  {
    if |run| == 1 then run[0]
    else WeightedMerge(MergeRun(run[..|run| - 1]), run[|run| - 1])
  }

  /** The input cut into the runs that the fold merges: run is the run in
      progress, rest the boxes not yet visited. */
  function RunsFrom(run: seq<BoundingBox>, rest: seq<BoundingBox>, merges: MergeTest): (runs: seq<seq<BoundingBox>>)
    requires |run| > 0 && PositiveScores(run) && PositiveScores(rest)
    ensures |runs| > 0 && |runs[0]| > 0 && runs[0][0] == run[0]
    ensures forall k :: 0 <= k < |runs| ==> |runs[k]| > 0 && PositiveScores(runs[k])
    decreases |rest|
  {
    if rest == [] then [run]
    else if merges(MergeRun(run), rest[0]) then RunsFrom(run + [rest[0]], rest[1..], merges)
    else [run] + RunsFrom([rest[0]], rest[1..], merges)
  }

  /** The runs of a non-empty row-sorted list. */
  function Runs(boxes: seq<BoundingBox>, merges: MergeTest): (runs: seq<seq<BoundingBox>>)
    requires |boxes| > 0 && PositiveScores(boxes)
    ensures forall k :: 0 <= k < |runs| ==> |runs[k]| > 0 && PositiveScores(runs[k])
  {
    RunsFrom([boxes[0]], boxes[1..], merges)
  }

  lemma {:induction false} FlattenCons<T>(a: seq<T>, chunks: seq<seq<T>>, k: nat)
    requires k <= |chunks|
    ensures Flatten([a] + chunks, k + 1) == a + Flatten(chunks, k)
  {
    if k > 0 {
      FlattenCons(a, chunks, k - 1);
      assert ([a] + chunks)[k] == chunks[k - 1];
    }
  }

  /** The runs, concatenated, are the run in progress followed by the rest. */
  lemma {:induction false} RunsFromFlatten(run: seq<BoundingBox>, rest: seq<BoundingBox>, merges: MergeTest)
    requires |run| > 0 && PositiveScores(run) && PositiveScores(rest)
    ensures var runs := RunsFrom(run, rest, merges);
      Flatten(runs, |runs|) == run + rest
    decreases |rest|
  {
    if rest == [] {
      assert Flatten([run], 1) == Flatten([run], 0) + run;
    } else {
      assert rest == [rest[0]] + rest[1..];
      if merges(MergeRun(run), rest[0]) {
        RunsFromFlatten(run + [rest[0]], rest[1..], merges);
      } else {
        var tail := RunsFrom([rest[0]], rest[1..], merges);
        RunsFromFlatten([rest[0]], rest[1..], merges);
        FlattenCons(run, tail, |tail|);
      }
    }
  }

  /** Each folded box is the merge of one run, in run order. */
  lemma {:induction false} FoldFromRuns(run: seq<BoundingBox>, rest: seq<BoundingBox>, merges: MergeTest)
    requires |run| > 0 && PositiveScores(run) && PositiveScores(rest)
    ensures var folded, runs := FoldFrom(MergeRun(run), rest, merges), RunsFrom(run, rest, merges);
      |folded| == |runs| && forall k :: 0 <= k < |runs| ==> folded[k] == MergeRun(runs[k])
    decreases |rest|
  {
    if rest != [] {
      var x := rest[0];
      if merges(MergeRun(run), x) {
        assert (run + [x])[..|run|] == run;
        assert MergeRun(run + [x]) == WeightedMerge(MergeRun(run), x);
        FoldFromRuns(run + [x], rest[1..], merges);
      } else {
        assert MergeRun([x]) == x;
        FoldFromRuns([x], rest[1..], merges);
      }
    }
  }

  /** Inside a run, each box merges with the merge of the boxes before it. */
  ghost predicate MergingRun(run: seq<BoundingBox>, merges: MergeTest)
    requires |run| > 0 && PositiveScores(run)
  {
    forall m :: 0 < m < |run| ==> merges(MergeRun(run[..m]), run[m])
  }

  lemma ExtendMergingRun(run: seq<BoundingBox>, x: BoundingBox, merges: MergeTest)
    requires |run| > 0 && PositiveScores(run) && x.score > 0.0
    requires MergingRun(run, merges) && merges(MergeRun(run), x)
    ensures MergingRun(run + [x], merges)
  {
    forall m | 0 < m <= |run|
      ensures (run + [x])[..m] == run[..m]
    {
      PrefixOfAppend(run, x, m);
    }
  }

  lemma PrefixOfAppend<T>(s: seq<T>, x: T, m: nat)
    requires m <= |s|
    ensures (s + [x])[..m] == s[..m]
  {
  }

  /** Every run is non-empty and has positive scores. */
  ghost predicate WellFormedRuns(runs: seq<seq<BoundingBox>>)
  {
    forall k :: 0 <= k < |runs| ==> |runs[k]| > 0 && PositiveScores(runs[k])
  }

  ghost predicate AllMerging(runs: seq<seq<BoundingBox>>, merges: MergeTest)
    requires WellFormedRuns(runs)
  {
    forall k :: 0 <= k < |runs| ==> MergingRun(runs[k], merges)
  }

  /** The merge of each run does not merge with the first box of the next. */
  ghost predicate RunsApart(runs: seq<seq<BoundingBox>>, merges: MergeTest)
    requires WellFormedRuns(runs)
  {
    forall k :: 0 <= k < |runs| - 1 ==> !merges(MergeRun(runs[k]), runs[k + 1][0])
  }

  lemma AllMergingCons(run: seq<BoundingBox>, tail: seq<seq<BoundingBox>>, merges: MergeTest)
    requires |run| > 0 && PositiveScores(run) && WellFormedRuns(tail)
    requires MergingRun(run, merges) && AllMerging(tail, merges)
    ensures WellFormedRuns([run] + tail) && AllMerging([run] + tail, merges)
  {
    var runs := [run] + tail;
    forall k | 0 < k < |runs|
      ensures runs[k] == tail[k - 1]
    {
    }
  }

  lemma RunsApartCons(run: seq<BoundingBox>, tail: seq<seq<BoundingBox>>, merges: MergeTest)
    requires |run| > 0 && PositiveScores(run) && WellFormedRuns(tail) && |tail| > 0
    requires !merges(MergeRun(run), tail[0][0]) && RunsApart(tail, merges)
    ensures WellFormedRuns([run] + tail) && RunsApart([run] + tail, merges)
  {
    var runs := [run] + tail;
    forall k | 0 < k < |runs|
      ensures runs[k] == tail[k - 1]
    {
    }
  }

  /** Every run the fold forms is a merging run. */
  lemma {:induction false} RunsFromMerging(run: seq<BoundingBox>, rest: seq<BoundingBox>, merges: MergeTest)
    requires |run| > 0 && PositiveScores(run) && PositiveScores(rest) && MergingRun(run, merges)
    ensures WellFormedRuns(RunsFrom(run, rest, merges)) && AllMerging(RunsFrom(run, rest, merges), merges)
    decreases |rest|
  {
    if rest == [] {
      assert RunsFrom(run, rest, merges) == [run];
    } else {
      var x := rest[0];
      if merges(MergeRun(run), x) {
        ExtendMergingRun(run, x, merges);
        RunsFromMerging(run + [x], rest[1..], merges);
      } else {
        assert MergingRun([x], merges);
        RunsFromMerging([x], rest[1..], merges);
        AllMergingCons(run, RunsFrom([x], rest[1..], merges), merges);
      }
    }
  }

  /** Consecutive runs of the fold are split where the merge test failed. */
  lemma {:induction false} RunsFromBoundaries(run: seq<BoundingBox>, rest: seq<BoundingBox>, merges: MergeTest)
    requires |run| > 0 && PositiveScores(run) && PositiveScores(rest)
    ensures WellFormedRuns(RunsFrom(run, rest, merges)) && RunsApart(RunsFrom(run, rest, merges), merges)
    decreases |rest|
  {
    if rest == [] {
      assert RunsFrom(run, rest, merges) == [run];
    } else {
      var x := rest[0];
      if merges(MergeRun(run), x) {
        RunsFromBoundaries(run + [x], rest[1..], merges);
      } else {
        RunsFromBoundaries([x], rest[1..], merges);
        var tail := RunsFrom([x], rest[1..], merges);
        assert tail[0][0] == x;
        RunsApartCons(run, tail, merges);
      }
    }
  }

  /** The fold cuts the row-sorted list into consecutive runs and replaces
      each run by the left-to-right weighted merge of its boxes: a box is
      only ever merged into the accumulation of the boxes right before it. */
  lemma FoldMergesRuns(boxes: seq<BoundingBox>, merges: MergeTest)
    requires |boxes| > 0 && PositiveScores(boxes)
    ensures var folded, runs := Fold(boxes, merges), Runs(boxes, merges);
      Flatten(runs, |runs|) == boxes &&
      |folded| == |runs| &&
      (forall k :: 0 <= k < |runs| ==> folded[k] == MergeRun(runs[k])) &&
      WellFormedRuns(runs) && AllMerging(runs, merges) && RunsApart(runs, merges)
  {
    RunsFromFlatten([boxes[0]], boxes[1..], merges);
    assert [boxes[0]] + boxes[1..] == boxes;
    assert MergeRun([boxes[0]]) == boxes[0];
    FoldFromRuns([boxes[0]], boxes[1..], merges);
    RunsFromMerging([boxes[0]], boxes[1..], merges);
    RunsFromBoundaries([boxes[0]], boxes[1..], merges);
  }

  /** The sort key of the row-wise sort: the box's min_y. */
  function RowKey(b: BoundingBox): real
  {
    LowestY(b.poly)
  }

  /** Reordering keeps every score positive. */
  lemma PermutationKeepsPositive(a: seq<BoundingBox>, b: seq<BoundingBox>)
    requires multiset(a) == multiset(b) && PositiveScores(b)
    ensures PositiveScores(a)
  {
    forall i | 0 <= i < |a|
      ensures a[i].score > 0.0
    {
      assert a[i] in multiset(b);
      var k :| 0 <= k < |b| && b[k] == a[i];
    }
  }

  /** locality_aware_nms: sorts the caller's boxes in place by min_y, folds
      each box into the running accumulator while they merge, then runs
      standard_nms on the folded list. `order` is the candidate order that
      standard_nms sorted the folded list into. */
  method LocalityAwareNms(boxes: array<BoundingBox>, t: real) returns (result: seq<BoundingBox>, ghost order: seq<nat>)
    requires boxes.Length > 0 && 0.0 <= t <= 1.0 && PositiveScores(boxes[..])
    modifies boxes
    ensures multiset(boxes[..]) == multiset(old(boxes[..]))
    ensures SortedBy(boxes[..], RowKey)
    ensures PositiveScores(boxes[..])
    ensures IsScoreOrder(Fold(boxes[..], MergesAt(t)), order)
    ensures result == StandardNmsResult(Fold(boxes[..], MergesAt(t)), order, t)
  {
    SortBy(boxes, RowKey);
    PermutationKeepsPositive(boxes[..], old(boxes[..]));
    var merged := FoldRows(boxes, MergesAt(t));
    result, order := StandardNms(merged, t);
  }

  /** The loop of locality_aware_nms over the sorted boxes. */
  method FoldRows(boxes: array<BoundingBox>, merges: MergeTest) returns (merged: seq<BoundingBox>)
    requires boxes.Length > 0 && PositiveScores(boxes[..])
    ensures merged == Fold(boxes[..], merges)
  {
    merged := [];
    var current := boxes[0];
    var i := 1;
    while i < boxes.Length
      invariant 1 <= i <= boxes.Length && current.score > 0.0
      invariant merged + FoldFrom(current, boxes[i..], merges) == Fold(boxes[..], merges)
    {
      assert boxes[i..] == [boxes[i]] + boxes[i + 1..];
      if merges(current, boxes[i]) {
        current := WeightedMerge(current, boxes[i]);
      } else {
        merged := merged + [current];
        current := boxes[i];
      }
      i := i + 1;
    }
    merged := merged + [current];
  }
}
