/** The NMS engine on the inputs of its unit tests. Where a test depends on
    an IoU that is not computed here, the merge decisions it relies on are
    hypotheses, and the result is stated for every box that meets them. */
module NmsExamples {
  import opened Geom
  import opened Sorting
  import opened Nms
  import opened GeomExamples

  /** A box over the rectangle [x0, x1] x [y0, y1]. */
  function RectBox(x0: real, y0: real, x1: real, y1: real, score: real): BoundingBox
  {
    BoundingBox(Rect(x0, y0, x1, y1), score)
  }

  /** min_y of the axis-aligned square and of the square rotated by 45
      degrees. */
  lemma MinYOfTestSquares()
    ensures LowestY(Rect(0.0, 0.0, 10.0, 10.0)) == 0.0
    ensures LowestY([Point(150.0, 79.0), Point(221.0, 150.0), Point(150.0, 221.0), Point(79.0, 150.0)]) == 79.0
  {
  }

  /** A proper rectangle merges with itself at every threshold up to 1. */
  lemma RectMergesWithItself(x0: real, y0: real, x1: real, y1: real, score: real, t: real)
    requires x0 < x1 && y0 < y1 && t <= 1.0
    ensures ShouldMerge(RectBox(x0, y0, x1, y1, score), RectBox(x0, y0, x1, y1, score), t)
  {
    RectIsStrictlyConvex(x0, y0, x1, y1);
    ShouldMergeWithSelf(RectBox(x0, y0, x1, y1, score), t);
  }

  /** Equal scores give the vertex-wise midpoints and the doubled score. */
  lemma WeightedMergeEqualScores(a: BoundingBox, b: BoundingBox)
    requires a.score == b.score && a.score > 0.0
    ensures var m := WeightedMerge(a, b);
      m.score == 2.0 * a.score &&
      forall k :: 0 <= k < 4 ==>
        m.poly[k] == Point((a.poly[k].x + b.poly[k].x) / 2.0, (a.poly[k].y + b.poly[k].y) / 2.0)
  {
    var m := WeightedMerge(a, b);
    forall k | 0 <= k < 4
      ensures m.poly[k] == Point((a.poly[k].x + b.poly[k].x) / 2.0, (a.poly[k].y + b.poly[k].y) / 2.0)
    {
      CancelPositive(a.score, 2.0 * m.poly[k].x, a.poly[k].x + b.poly[k].x);
      CancelPositive(a.score, 2.0 * m.poly[k].y, a.poly[k].y + b.poly[k].y);
    }
  }

  // ---------------------------------------------------------------------------
  // Candidate orders forced by distinct scores
  // ---------------------------------------------------------------------------

  /** The only score order of two boxes with distinct scores. */
  lemma OrderOfTwo(boxes: seq<BoundingBox>, order: seq<nat>)
    requires |boxes| == 2 && boxes[0].score > boxes[1].score
    requires IsScoreOrder(boxes, order)
    ensures order == [0, 1]
  {
    RangePermutation(order, 2);
    assert order == [order[0], order[1]];
    assert boxes[order[0]].score >= boxes[order[1]].score;
  }

  /** The only score order of three boxes whose scores rank 1, 2, 0. */
  lemma OrderOfThree(boxes: seq<BoundingBox>, order: seq<nat>)
    requires |boxes| == 3 && boxes[1].score > boxes[2].score > boxes[0].score
    requires IsScoreOrder(boxes, order)
    ensures order == [1, 2, 0]
  {
    RangePermutation(order, 3);
    assert order == [order[0], order[1], order[2]];
    assert boxes[order[0]].score >= boxes[order[1]].score >= boxes[order[2]].score;
  }

  // ---------------------------------------------------------------------------
  // standard_nms
  // ---------------------------------------------------------------------------

  /** A single box is returned unchanged. */
  lemma StandardNmsSingle(b: BoundingBox, order: seq<nat>, t: real)
    requires IsScoreOrder([b], order)
    ensures StandardNmsResult([b], order, t) == [b]
  {
    RangePermutation(order, 1);
    assert order == [0];
    assert Survivors([b], b, order, 1, MergesAt(t)) == [];
  }

  /** The greedy selection on two candidates. */
  lemma GreedyKeepOfTwo(boxes: seq<BoundingBox>, i: nat, j: nat, merges: MergeTest)
    requires i < |boxes| && j < |boxes|
    ensures GreedyKeep(boxes, [i, j], merges) == if merges(boxes[i], boxes[j]) then [i] else [i, j]
  {
    var next := Survivors(boxes, boxes[i], [i, j], 2, merges);
    assert Survivors(boxes, boxes[i], [i, j], 1, merges) == [];
    if !merges(boxes[i], boxes[j]) {
      assert next == [j];
      assert Survivors(boxes, boxes[j], next, 1, merges) == [];
    }
  }

  /** Two boxes with distinct scores: the weaker one is dropped exactly when
      the stronger one merges with it (the tests with and without overlap). */
  lemma StandardNmsTwo(b1: BoundingBox, b2: BoundingBox, order: seq<nat>, t: real)
    requires b1.score > b2.score && IsScoreOrder([b1, b2], order)
    ensures ShouldMerge(b1, b2, t) ==> StandardNmsResult([b1, b2], order, t) == [b1]
    ensures !ShouldMerge(b1, b2, t) ==> StandardNmsResult([b1, b2], order, t) == [b1, b2]
  {
    OrderOfTwo([b1, b2], order);
    GreedyKeepOfTwo([b1, b2], 0, 1, MergesAt(t));
  }

  // ---------------------------------------------------------------------------
  // locality_aware_nms
  // ---------------------------------------------------------------------------

  /** A single box folds to itself. */
  lemma FoldSingle(b: BoundingBox, merges: MergeTest)
    requires b.score > 0.0
    ensures Fold([b], merges) == [b]
  {
  }

  /** Three boxes that merge one after the other fold into the left-to-right
      weighted merge (the test with unequal scores 0.7, 0.8 and 0.9). */
  lemma FoldThreeInARow(a: BoundingBox, b: BoundingBox, c: BoundingBox, merges: MergeTest)
    requires a.score > 0.0 && b.score > 0.0 && c.score > 0.0
    requires merges(a, b) && merges(WeightedMerge(a, b), c)
    ensures Fold([a, b, c], merges) == [WeightedMerge(WeightedMerge(a, b), c)]
  {
    var ab := WeightedMerge(a, b);
    assert [a, b, c][1..] == [b, c] && [b, c][1..] == [c];
    assert FoldFrom(ab, [c], merges) == [WeightedMerge(ab, c)];
  }

  /** Two pairs of merging neighbours, with no merge across the pairs, fold
      into the two pair merges (the test with two translated rectangle
      pairs). */
  lemma FoldTwoPairs(a: BoundingBox, b: BoundingBox, c: BoundingBox, d: BoundingBox, merges: MergeTest)
    requires a.score > 0.0 && b.score > 0.0 && c.score > 0.0 && d.score > 0.0
    requires merges(a, b) && !merges(WeightedMerge(a, b), c) && merges(c, d)
    ensures Fold([a, b, c, d], merges) == [WeightedMerge(a, b), WeightedMerge(c, d)]
  {
    var ab, cd := WeightedMerge(a, b), WeightedMerge(c, d);
    assert [a, b, c, d][1..] == [b, c, d] && [b, c, d][1..] == [c, d] && [c, d][1..] == [d];
    assert FoldFrom(c, [d], merges) == [cd];
    assert FoldFrom(ab, [c, d], merges) == [ab] + [cd];
  }

  /** Two candidates that do not merge either way are both kept, in the
      candidate order, whichever it is. */
  lemma GreedyKeepTwoApart(boxes: seq<BoundingBox>, order: seq<nat>, merges: MergeTest)
    requires |boxes| == 2 && multiset(order) == multiset(Range(2))
    requires !merges(boxes[0], boxes[1]) && !merges(boxes[1], boxes[0])
    ensures order == [0, 1] || order == [1, 0]
    ensures GreedyKeep(boxes, order, merges) == order
  {
    RangePermutation(order, 2);
    assert order == [order[0], order[1]];
    GreedyKeepOfTwo(boxes, order[0], order[1], merges);
  }

  /** Two folded boxes that do not merge either way both survive
      standard_nms; with equal scores, as for the two pair merges, their
      order is the tie order of the sort. */
  lemma StandardNmsTwoApart(p: BoundingBox, q: BoundingBox, order: seq<nat>, t: real)
    requires !ShouldMerge(p, q, t) && !ShouldMerge(q, p, t) && IsScoreOrder([p, q], order)
    ensures StandardNmsResult([p, q], order, t) == [p, q] || StandardNmsResult([p, q], order, t) == [q, p]
  {
    GreedyKeepTwoApart([p, q], order, MergesAt(t));
  }

  /** The greedy selection on the candidates 1, 2, 0 when only box 2 merges
      with box 0. */
  lemma GreedyKeepRowWise(boxes: seq<BoundingBox>, merges: MergeTest)
    requires |boxes| == 3
    requires !merges(boxes[1], boxes[2]) && !merges(boxes[1], boxes[0]) && merges(boxes[2], boxes[0])
    ensures GreedyKeep(boxes, [1, 2, 0], merges) == [1, 2]
  {
    var order := [1, 2, 0];
    var next := Survivors(boxes, boxes[1], order, 3, merges);
    assert Survivors(boxes, boxes[1], order, 1, merges) == [];
    assert Survivors(boxes, boxes[1], order, 2, merges) == [2];
    assert next == [2, 0];
    GreedyKeepOfTwo(boxes, 2, 0, merges);
  }

  /** The fold of three boxes none of which merges with its successor. */
  lemma FoldNoMerges(a: BoundingBox, b: BoundingBox, c: BoundingBox, merges: MergeTest)
    requires a.score > 0.0 && b.score > 0.0 && c.score > 0.0
    requires !merges(a, b) && !merges(b, c)
    ensures Fold([a, b, c], merges) == [a, b, c]
  {
    assert [a, b, c][1..] == [b, c] && [b, c][1..] == [c];
    assert FoldFrom(b, [c], merges) == [b, c];
  }

  /** The row-wise special case. After the sort the rows are a (score 0.8),
      c (score 1.0, a row just below a) and b (score 0.9, a translated a).
      c sits between a and b and merges with neither, so the fold cannot
      merge a with b; standard_nms then keeps c and b, and b suppresses a. */
  lemma RowWiseSpecialCase(a: BoundingBox, b: BoundingBox, c: BoundingBox, order: seq<nat>, t: real)
    requires 0.0 < a.score < b.score < c.score
    requires !ShouldMerge(a, c, t) && !ShouldMerge(c, b, t) && !ShouldMerge(c, a, t) && ShouldMerge(b, a, t)
    requires IsScoreOrder(Fold([a, c, b], MergesAt(t)), order)
    ensures Fold([a, c, b], MergesAt(t)) == [a, c, b]
    ensures StandardNmsResult(Fold([a, c, b], MergesAt(t)), order, t) == [c, b]
  {
    FoldNoMerges(a, c, b, MergesAt(t));
    OrderOfThree([a, c, b], order);
    GreedyKeepRowWise([a, c, b], MergesAt(t));
  }

  /** The row-wise sort of the special case: a permutation of three boxes
      whose min_y are all different is sorted in exactly one way. */
  lemma RowSortOfThree(s: seq<BoundingBox>, a: BoundingBox, b: BoundingBox, c: BoundingBox)
    requires RowKey(a) < RowKey(c) < RowKey(b)
    requires multiset(s) == multiset([a, b, c]) && SortedBy(s, RowKey)
    ensures s == [a, c, b]
  {
    assert |s| == 3 by {
      assert |multiset(s)| == |s|;
    }
    assert s == [s[0], s[1], s[2]];
    assert a in multiset(s) && b in multiset(s) && c in multiset(s);
    assert s[0] in multiset([a, b, c]) && s[1] in multiset([a, b, c]) && s[2] in multiset([a, b, c]);
  }
}
