# Locality-aware NMS: a verified model of the geometry and NMS kernels

This project models the C++ core of a locality-aware non-maximum suppression
(NMS) library for text detection, in Dafny, and proves its properties. NMS
here means the post-processing step that reduces many candidate
quadrilaterals to a few detections. The core has two layers.

- **Geometry kernel** (`lanms/cc/kernels/geom.cc`), in module `Geom`
  (`geom.dfy`):
  - the shoelace polygon area;
  - the strict side-of-edge test;
  - the line/line intersection point;
  - Sutherland–Hodgman convex clipping, one pass per clip edge;
  - intersection over union (IoU) built from these.
- **NMS engine** (`lanms/cc/kernels/nms.cc`), in module `Nms` (`nms.dfy`):
  - `min_y`;
  - `should_merge`, an inclusive IoU threshold test;
  - `weighted_merge`, a score-weighted average of vertices whose scores add;
  - `standard_nms`, greedy suppression over score-sorted candidate indices,
    compacted in place;
  - `locality_aware_nms`, which sorts the caller's boxes by `min_y`, folds
    neighbours that merge into a running accumulator, and runs
    `standard_nms` on the folded list.

`std::sort` is modelled in module `Sorting` (`sort.dfy`) by an in-place
insertion sort. It is specified only by what `std::sort` promises: the array
ends sorted by the key and is a permutation of the original. Neither sort in
the source is stable, so every NMS result is stated for **every** order the
sort may produce. `StandardNms` returns that order as a ghost out-parameter,
and the results are stated for any `order` with `IsScoreOrder`.

The unit tests' scenarios are stated in `GeomExamples` (`geom_examples.dfy`)
and `NmsExamples` (`nms_examples.dfy`). Where a test uses one placement or
size, the lemma covers all of them. Where a test depends on an IoU value that
is not computed here, the merge decisions it relies on are hypotheses.

Modelling choices:
- Coordinates and scores are `real`. Float rounding, NaN and infinities are
  not modelled.
- `compute_intersection` requires a non-zero denominator. The clipping pass
  computes it only in the two branches that emit it. In those branches exactly
  one of the previous and current vertices is strictly inside the edge, and
  that makes the denominator non-zero (`CrossingDenominatorNonZero`). The
  source computes it on every step and discards the value otherwise.
- IoU is an `Option<real>`. It is `None` where the union area is zero.
  There the float division gives NaN when the intersection area is also zero,
  and `should_merge` is false, as `NaN >= t` is false. A positive
  intersection over a zero union would give +inf, and the source would merge;
  the model does not (see "Left out").
- `standard_nms` and the greedy and fold specifications are generic over the
  merge test (`MergeTest`). `MergesAt(t)` is the `should_merge` test at
  threshold `t`.
- Index vectors are arrays: `candidate_indices` with a logical size for
  `resize`, and the caller's box vector for `locality_aware_nms`. Vectors
  that are only appended to are `seq`s.

## Model

| member | source | states |
|---|---|---|
| Geom.Area | lanms/cc/kernels/geom.cc:19-30 | the polygon area is never negative and is plus or minus half the cyclic shoelace sum |
| Geom.PolygonArea | lanms/cc/kernels/geom.cc:22-29 | the loop's accumulated shoelace terms, halved and made absolute, are `Area` of the polygon |
| Geom.AreaRotationInvariant | lanms/cc/kernels/geom.cc:23-28 | rotating the vertex list by any r leaves the area unchanged, because the index wraps with `(i + 1) % n` |
| Geom.AreaReversalInvariant | lanms/cc/kernels/geom.cc:23-28 | reversing the vertex list leaves the area unchanged: the sum is negated and `fabs` removes the sign |
| Geom.StrictlyConvexAreaPositive | lanms/cc/kernels/geom.cc:10-30 | a strictly convex polygon with at least three vertices has positive shoelace sum and positive area |
| Geom.InsideEdge | lanms/cc/kernels/geom.cc:47-51 | the strict side test, exactly the source's comparison: true iff `Side(p, v1, v2) > 0`, so a point on the edge's line is never inside, and a degenerate edge (v1 = v2) has no inside |
| Geom.InsideEdgeStrict | lanms/cc/kernels/geom.cc:47-51 | inside means strictly on the positive side; off the line, swapping v1 and v2 flips the answer; on the line neither direction is inside; a degenerate edge has nothing inside |
| Geom.EndpointsOnLine | lanms/cc/kernels/geom.cc:47-51 | both endpoints of an edge lie on its line, so neither is inside it |
| Geom.Denominator | lanms/cc/kernels/geom.cc:36-40 | the denominator `dc.x * dp.y - dc.y * dp.x` is how far the side value drops from p1 to p2, so it is zero exactly when the segment is parallel to the edge's line |
| Geom.ComputeIntersection | lanms/cc/kernels/geom.cc:32-45 | with a non-zero denominator the point lies both on the line v1v2 and on the line p1p2 |
| Geom.IntersectionAsCombination | lanms/cc/kernels/geom.cc:36-44 | the denominator is the difference of the two endpoints' sides; the source's formula gives the point of segment p1p2 at parameter side(p1)/denominator, which is on both lines |
| Geom.WrapIndices | lanms/cc/kernels/geom.cc:66-73 | the modular indices `(i + 1) % n` and `(k + n - 1) % n` are the next and the previous vertex, wrapping at the ends |
| Geom.CrossingDenominatorNonZero | lanms/cc/kernels/geom.cc:75-84 | when exactly one of prev and current is strictly inside the edge, the denominator of compute_intersection is non-zero |
| Geom.Crossing | lanms/cc/kernels/geom.cc:75-84 | the point pushed on an inside/outside transition lies on the clip line |
| Geom.CrossingOnSegment | lanms/cc/kernels/geom.cc:75-84 | an emitted crossing lies on the segment from prev to current (parameter in [0, 1]) and on the clip line |
| Geom.CrossingAtLinePoint | lanms/cc/kernels/geom.cc:75-84 | if prev or current lies on the clip line, the emitted crossing is that vertex |
| Geom.EmitCases | lanms/cc/kernels/geom.cc:72-84 | one step of the inner loop appends [crossing, current] when only current is inside, [current] when both are, [crossing] when only prev is, and nothing when neither is |
| Geom.EmitShape | lanms/cc/kernels/geom.cc:72-84 | a step appends nothing exactly when current and prev are both outside, and a step whose current vertex is inside ends with that vertex |
| Geom.ClipPrefixNext | lanms/cc/kernels/geom.cc:71-85 | after step k the pass output is its output before step k followed by what step k appends |
| Geom.ClipEdge | lanms/cc/kernels/geom.cc:71-85 | a pass over a polygon with no vertices outputs none |
| Geom.ClipUpTo | lanms/cc/kernels/geom.cc:62-86 | before any pass the polygon is the subject; an empty subject stays empty through every pass |
| Geom.ClipUpToNext | lanms/cc/kernels/geom.cc:62-86 | pass i runs the inner loop over the output of the passes before it, with the edge clip[i] -> clip[(i + 1) % n] |
| Geom.Intersection | lanms/cc/kernels/geom.cc:53-89 | an empty clip polygon returns the subject unchanged; an empty subject returns an empty polygon |
| Geom.PolygonIntersection | lanms/cc/kernels/geom.cc:53-89 | the nested loops (copy, clear, push_back per clip edge) compute `Intersection`, the composition of one clipping pass per clip edge |
| Geom.ClipEdgeSize | lanms/cc/kernels/geom.cc:71-85 | one pass emits exactly one point per strictly inside vertex plus one per inside/outside transition, so at most 2 points per input vertex |
| Geom.ClipPrefixSize | lanms/cc/kernels/geom.cc:71-85 | the same count holds for every prefix of the pass |
| Geom.InsideVertexEmittedLast | lanms/cc/kernels/geom.cc:77-81 | a strictly inside vertex is pushed, as the last point of its step |
| Geom.ClipEdgeKeepsInsideVerticesInOrder | lanms/cc/kernels/geom.cc:71-85 | the strictly inside vertices appear in the pass output in their input order |
| Geom.ClipEdgeProvenance | lanms/cc/kernels/geom.cc:71-85 | every output point of a pass was emitted by some input step |
| Geom.ClipEdgeInHalfPlane | lanms/cc/kernels/geom.cc:77-84 | every output point of a pass lies on or inside the clip edge |
| Geom.ClipEdgeKeepsHalfPlane | lanms/cc/kernels/geom.cc:75-84 | a pass keeps every half-plane that contains all of its input points |
| Geom.ClipUpToInvariants | lanms/cc/kernels/geom.cc:62-86 | after i passes every point is on or inside the first i clip edges, and is a subject vertex or lies on one of those clip lines |
| Geom.IntersectionWithinClip | lanms/cc/kernels/geom.cc:53-89 | every point of the result is on or inside every clip edge |
| Geom.IntersectionPointsOrigin | lanms/cc/kernels/geom.cc:53-89 | a result point strictly inside every clip edge is a subject vertex; every other result point lies on a clip line |
| Geom.ClipUpToEmptyStep | lanms/cc/kernels/geom.cc:62-86 | a pass over an empty polygon leaves it empty |
| Geom.IntersectionEmptyStaysEmpty | lanms/cc/kernels/geom.cc:62-86 | once a pass leaves the polygon empty, every later pass does too |
| Geom.ClipByDegenerateEdge | lanms/cc/kernels/geom.cc:71-85 | clipping by a degenerate edge (v1 = v2) empties the polygon |
| Geom.IntersectionWithDegenerateEdge | lanms/cc/kernels/geom.cc:53-89 | a clip polygon with a repeated consecutive vertex leaves nothing |
| Geom.IntersectionWithSelf | lanms/cc/kernels/geom.cc:53-89 | a strictly convex polygon clipped by itself is its own vertex list rotated by one, with the same area |
| Geom.IoU | lanms/cc/kernels/geom.cc:91-98 | the ratio is defined exactly when the union area is non-zero, and then ratio times union equals the intersection area |
| Geom.IntersectionOverUnion | lanms/cc/kernels/geom.cc:91-98 | clipping, measuring the three areas and dividing computes `IoU` |
| Geom.IoUWithSelf | lanms/cc/kernels/geom.cc:91-98 | a strictly convex polygon has IoU 1 with itself |
| Geom.IoUOfEmptyIntersection | lanms/cc/kernels/geom.cc:91-98 | with an empty intersection the IoU is 0, or undefined when both areas are 0 |
| GeomExamples.AreaOfRightTriangle | lanms/cc/kernels/geom_test.h:10-13 | the right triangle with legs s has area s²/2 (50 for s = 10) |
| GeomExamples.AreaOfRect | lanms/cc/kernels/geom_test.h:15-23 | a rectangle's area is width times height (100 and 400 in the tests) |
| GeomExamples.AreaOfOctagon | lanms/cc/kernels/geom_test.h:25-38 | the test octagon scaled by u has area (20000 − 4·625)·u² |
| GeomExamples.HorizontalMeetsVertical | lanms/cc/kernels/geom_test.h:40-62 | a horizontal segment meets a vertical line at (line x, segment y): (20, 0) and (10, 10) in the tests |
| GeomExamples.ParallelHorizontals | lanms/cc/kernels/geom_test.h:64-74 | two horizontal lines give a zero denominator |
| GeomExamples.InsideEdgeCases | lanms/cc/kernels/geom_test.h:76-116 | the twelve side tests with horizontal, vertical and diagonal edges |
| GeomExamples.RectIsStrictlyConvex | lanms/cc/kernels/geom.cc:10-17 | a proper axis-aligned rectangle meets the kernel's convexity assumption |
| GeomExamples.RectWithItself | lanms/cc/kernels/geom_test.h:118-152 | a rectangle clipped by itself is its vertex list rotated by one, and its IoU with itself is 1 |
| GeomExamples.IoUWithCollapsedPolygon | lanms/cc/kernels/geom_test.h:160-164 | against a clip polygon collapsed onto a vertical line nothing is left and the IoU is 0 |
| Sorting.SortBy | lanms/cc/kernels/nms.cc:80-82 | the array ends sorted by the key and is a permutation of the original |
| Nms.LowestY | lanms/cc/kernels/nms.cc:12-21 | the result is at most every vertex's y and equals one of them |
| Nms.MinY | lanms/cc/kernels/nms.cc:12-21 | the loop keeping the smallest y seen returns a y at most every vertex's and equal to one of them |
| Nms.RatioAtLeast | lanms/cc/kernels/nms.cc:23-26 | over a positive union the ratio exists, and ratio ≥ t holds exactly when intersection ≥ t·union; over a zero union there is no ratio |
| Nms.RatioAtLeastNegative | lanms/cc/kernels/nms.cc:23-26 | over a negative union, ratio ≥ t holds exactly when intersection ≤ t·union: dividing by a negative number flips the comparison |
| Nms.ShouldMerge | lanms/cc/kernels/nms.cc:23-26 | with a positive union the boxes merge exactly when intersection area ≥ t·union area (IoU ≥ t, inclusive); with zero union they never merge |
| Nms.ShouldMergeNegativeUnion | lanms/cc/kernels/nms.cc:23-26 | with a negative union area (an intersection larger than both areas together) the boxes merge exactly when intersection area ≤ t·union area |
| Nms.ShouldMergeMonotone | lanms/cc/kernels/nms.cc:23-26 | a lower threshold merges every pair a higher one merges |
| Nms.ShouldMergeWithSelf | lanms/cc/kernels/nms.cc:23-26 | a strictly convex box merges with itself at every threshold up to 1 |
| Nms.WeightedMerge | lanms/cc/kernels/nms.cc:28-39 | the score is the sum of scores; vertex k times that sum equals a.score·a[k] + b.score·b[k], paired by position |
| Nms.Average | lanms/cc/kernels/nms.cc:33-36 | the weighted average times the weight sum is the weighted sum |
| Nms.WeightedMergeWithSelf | lanms/cc/kernels/nms.cc:28-39 | merging a box with itself keeps its polygon and doubles its score |
| Nms.WeightedMergeSymmetric | lanms/cc/kernels/nms.cc:28-39 | the merge does not depend on argument order |
| Nms.WeightedMergeBetween | lanms/cc/kernels/nms.cc:28-39 | with positive scores each merged coordinate lies between the two input coordinates |
| Nms.WeightedMergeAssociative | lanms/cc/kernels/nms.cc:28-39 | with positive scores, merging three boxes gives the same box in either grouping |
| Nms.Range | lanms/cc/kernels/nms.cc:44-45 | the initial candidate list is 0, 1, ..., n − 1 |
| Nms.RangePermutation | lanms/cc/kernels/nms.cc:44-48 | a permutation of 0 .. n − 1 has n entries, all below n, none repeated |
| Nms.SortedIsScoreOrder | lanms/cc/kernels/nms.cc:46-48 | indices sorted ascending by negated score are in non-increasing score order |
| Nms.Survivors | lanms/cc/kernels/nms.cc:58-63 | the compacted list of one round is shorter than the round's list and holds valid indices |
| Nms.SurvivorsMembers | lanms/cc/kernels/nms.cc:58-62 | an index survives a round exactly when it is a later candidate that does not merge with the current box |
| Nms.SurvivorsDistinct | lanms/cc/kernels/nms.cc:58-63 | compaction repeats no index |
| Nms.SurvivorsDescending | lanms/cc/kernels/nms.cc:58-63 | compaction keeps the candidates in score order |
| Nms.GreedyKeep | lanms/cc/kernels/nms.cc:52-64 | the kept list is no longer than the candidates, holds valid indices, and is empty exactly when there are no candidates |
| Nms.GreedyKeepMembers | lanms/cc/kernels/nms.cc:52-64 | only candidates are kept |
| Nms.GreedyKeepDistinct | lanms/cc/kernels/nms.cc:52-64 | no index is kept twice |
| Nms.GreedyKeepDescending | lanms/cc/kernels/nms.cc:52-64 | kept indices come out in non-increasing score order |
| Nms.GreedyKeepNoMerge | lanms/cc/kernels/nms.cc:52-64 | no kept box merges with a box kept after it |
| Nms.GreedyKeepSuppressed | lanms/cc/kernels/nms.cc:52-64 | every candidate not kept was suppressed by a kept box scoring at least as high that merges with it |
| Nms.Select | lanms/cc/kernels/nms.cc:66-70 | the output holds the boxes at the kept indices, in order |
| Nms.StandardNmsResult | lanms/cc/kernels/nms.cc:41-73 | the output is no longer than the candidate order |
| Nms.StandardNmsSize | lanms/cc/kernels/nms.cc:41-73 | the output is never longer than the input and is empty exactly when the input is |
| Nms.StandardNmsKeepsInputs | lanms/cc/kernels/nms.cc:66-72 | every output box is an unmodified input box, and no input index is output twice |
| Nms.StandardNmsDescending | lanms/cc/kernels/nms.cc:46-64 | the output is in non-increasing score order |
| Nms.StandardNmsApart | lanms/cc/kernels/nms.cc:52-64 | no output box merges with an output box after it |
| Nms.StandardNmsSuppressed | lanms/cc/kernels/nms.cc:58-62 | every input box not kept is merged by an output box that scores at least as high |
| Nms.StandardNms | lanms/cc/kernels/nms.cc:41-73 | the method's sorted candidate order is an order the sort may produce, and its output is `StandardNmsResult` for that order |
| Nms.SortedCandidates | lanms/cc/kernels/nms.cc:44-48 | the fresh index array holds 0 .. n − 1 in non-increasing score order |
| Nms.SuppressAll | lanms/cc/kernels/nms.cc:50-64 | the while loop keeps exactly `GreedyKeep` of the sorted candidates |
| Nms.SuppressRound | lanms/cc/kernels/nms.cc:53-63 | one round compacts the array in place to the round's survivors and returns their number p < size |
| Nms.SelectBoxes | lanms/cc/kernels/nms.cc:66-70 | the copy loop returns `Select` of the kept indices |
| Nms.FoldFrom | lanms/cc/kernels/nms.cc:84-96 | the fold from an accumulator emits between 1 and 1 + (rest length) boxes, all with positive score |
| Nms.Fold | lanms/cc/kernels/nms.cc:84-96 | a non-empty list folds to between 1 and n boxes |
| Nms.FoldFromScore | lanms/cc/kernels/nms.cc:84-96 | the fold neither creates nor loses score |
| Nms.FoldScore | lanms/cc/kernels/nms.cc:84-96 | the folded boxes' scores sum to the input total |
| Nms.MergeRun | lanms/cc/kernels/nms.cc:87-90 | the left-to-right merge of a run has the run's total score, which is positive |
| Nms.RunsFrom | lanms/cc/kernels/nms.cc:84-96 | the cut into runs yields non-empty runs with positive scores, the first starting with the accumulator's first box |
| Nms.RunsFromFlatten | lanms/cc/kernels/nms.cc:84-96 | the runs concatenated are the input in order |
| Nms.FoldFromRuns | lanms/cc/kernels/nms.cc:84-96 | folded box k is the left-to-right weighted merge of run k |
| Nms.RunsFromMerging | lanms/cc/kernels/nms.cc:87-89 | inside each run every box merges with the merge of the boxes before it |
| Nms.RunsFromBoundaries | lanms/cc/kernels/nms.cc:87-93 | the merge of each run does not merge with the first box of the next run |
| Nms.FoldMergesRuns | lanms/cc/kernels/nms.cc:84-96 | the fold cuts the sorted list into consecutive runs and replaces each run by its merge; within a run each box merged with its accumulator, across runs none did; so only neighbours in sorted order are ever merged |
| Nms.PermutationKeepsPositive | lanms/cc/kernels/nms.cc:80-82 | sorting keeps every score positive |
| Nms.LocalityAwareNms | lanms/cc/kernels/nms.cc:75-100 | the caller's array ends as a permutation of itself sorted by min_y, and the result is `standard_nms` of the fold of that array, for the candidate order standard_nms used |
| Nms.FoldRows | lanms/cc/kernels/nms.cc:84-96 | the loop with the running accumulator computes `Fold` of the sorted boxes |
| NmsExamples.MinYOfTestSquares | lanms/cc/kernels/nms_test.h:9-23 | min_y is 0 for the axis-aligned square and 79 for the rotated square |
| NmsExamples.RectMergesWithItself | lanms/cc/kernels/nms_test.h:25-35 | a proper rectangle merges with itself at every threshold up to 1 |
| NmsExamples.WeightedMergeEqualScores | lanms/cc/kernels/nms_test.h:52-87 | equal scores give the vertex-wise midpoints and the doubled score |
| NmsExamples.OrderOfTwo | lanms/cc/kernels/nms.cc:44-48 | two distinct scores force the candidate order [0, 1] |
| NmsExamples.OrderOfThree | lanms/cc/kernels/nms.cc:44-48 | three distinct scores ranking 1, 2, 0 force the candidate order [1, 2, 0] |
| NmsExamples.StandardNmsSingle | lanms/cc/kernels/nms_test.h:106-119 | a single box is returned unchanged |
| NmsExamples.GreedyKeepOfTwo | lanms/cc/kernels/nms.cc:52-64 | the greedy selection on two candidates keeps the second one exactly when the first does not merge with it |
| NmsExamples.StandardNmsTwo | lanms/cc/kernels/nms_test.h:121-168 | of two boxes with distinct scores the weaker is dropped exactly when the stronger merges with it; otherwise both come out, stronger first |
| NmsExamples.FoldSingle | lanms/cc/kernels/nms.cc:85-96 | a single box folds to itself |
| NmsExamples.FoldThreeInARow | lanms/python/ops/nms_ops_test.py:52-92 | three boxes that merge one after the other fold into ((a ⊕ b) ⊕ c), the left-to-right weighted merge |
| NmsExamples.FoldTwoPairs | lanms/python/ops/nms_ops_test.py:8-49 | two merging pairs with no merge across them fold into the two pair merges |
| NmsExamples.GreedyKeepTwoApart | lanms/cc/kernels/nms.cc:52-64 | two candidates that do not merge either way are both kept, in whichever of the two orders they come |
| NmsExamples.StandardNmsTwoApart | lanms/python/ops/nms_ops_test.py:8-49 | two folded boxes that do not merge either way both survive standard_nms, in the sort's tie order |
| NmsExamples.GreedyKeepRowWise | lanms/cc/kernels/nms.cc:52-64 | candidates 1, 2, 0 where only box 2 merges with box 0 keep [1, 2] |
| NmsExamples.FoldNoMerges | lanms/cc/kernels/nms.cc:84-96 | three boxes none of which merges with its successor fold to themselves |
| NmsExamples.RowWiseSpecialCase | lanms/python/ops/nms_ops_test.py:132-171 | the row-sorted boxes a, c, b fold to themselves, because c between them merges with neither; standard_nms then returns [c, b], b having suppressed a |
| NmsExamples.RowSortOfThree | lanms/python/ops/nms_ops_test.py:132-171 | three boxes with distinct min_y have exactly one row-sorted order |

## Left out

- IEEE float behaviour is not modelled: rounding, `EXPECT_FLOAT_EQ` tolerances, NaN and infinities. A parallel intersection (`geom_test.h:64-74`) is only shown to have a zero denominator, and a zero union area is an undefined IoU.
- Geom.ComputeIntersection: requires a non-zero denominator. The source also evaluates the point where it is discarded (`geom.cc:75`), possibly dividing by zero; over reals it is only computed where it is emitted.
- Nms.ShouldMerge: a zero union area never merges. This matches the source's `NaN >= t` only when the intersection area is also zero. With a positive intersection over a zero union the source divides to +inf, and `inf >= t` merges; the model does not. That case needs an intersection larger than the union, which the convex, clockwise polygons of `geom.cc:10-17` cannot give.
- The concrete IoU test values are not computed through the clipping: 1/3 for the half-offset squares, 0.01 for the nested squares, 8/12 in the should_merge threshold test (`geom_test.h:154-158,166-170`, `nms_test.h:37-50`). The 8-vertex clip of the square by the rotated square (`geom_test.h:143-147`) is left out for the same reason. The NMS scenarios take their merge decisions as hypotheses instead.
- Nms.WeightedMerge: requires a non-zero score sum. The source divides by the sum unguarded.
- Nms.LocalityAwareNms: requires every score to be positive, so that each running merge divides by a positive sum. The source only needs each sum to be non-zero. Scores are probabilities in the only caller.
- Nms.LocalityAwareNms: requires a non-empty input, because the source reads `bounding_boxes[0]` unconditionally. The TensorFlow adapter does not guard an empty input, so there it is undefined behaviour.
- Nms.StandardNms: requires the threshold to be in [0, 1], the check the TensorFlow adapter makes before calling (`nms_kernels.cc:29-30`). The model's results do not depend on it.
- The tie order of `std::sort` for equal scores or equal min_y is not fixed. Results are stated for every order the sort may produce, so the expected `[ab, cd]` order in the two-pairs test is shown only up to that tie.
- The rotation-equivariance test (`nms_ops_test.py:95-129`) depends on sin/cos and float rounding.
- The TensorFlow adapter is not part of this model: tensor decoding and encoding, shape checks, output allocation. Op registration and shape inference, shared-library loading and packaging are not part of this model either.
- `candidate_indices.resize(p)` is modelled by a logical size over the array rather than by reallocation.
- The 32-bit `float` type of scores and coordinates is not modelled. `real` has no overflow or precision loss.
