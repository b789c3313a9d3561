/** Model of the geometry kernel (lanms/cc/kernels/geom.h, geom.cc): the shoelace
    area, the half-plane test, the segment/line intersection, Sutherland-Hodgman
    clipping and intersection-over-union. Single-precision coordinates become
    exact reals, so the IEEE special values of the source become preconditions
    (the intersection) or an explicit `None` (a zero union area). */
module Geom {

  /** A 2-D point (geom.h). */
  datatype Point = Point(x: real, y: real)

  /** A polygon is its vertex list; the kernel assumes clockwise order in image
      coordinates, that is, the interior lies where `InsideEdge` holds. */
  type Polygon = seq<Point>

  /** A quotient that IEEE arithmetic would turn into NaN or an infinity is `None`. */
  datatype Option<T> = None | Some(value: T)

  function Abs(r: real): real
  {
    if r < 0.0 then -r else r
  }

  // ---------------------------------------------------------------------------
  // polygon_area
  // ---------------------------------------------------------------------------

  /** The shoelace term of two consecutive vertices. */
  function Cross(a: Point, b: Point): real
  {
    a.x * b.y - b.x * a.y
  }

  /** The term that vertex i contributes, wrapping from the last vertex to the first. */
  function Term(p: Polygon, i: nat): real
    requires i < |p|
  {
    Cross(p[i], p[(i + 1) % |p|])
  }

  function Terms(p: Polygon): (t: seq<real>)
    ensures |t| == |p|
    ensures forall i :: 0 <= i < |p| ==> t[i] == Term(p, i)
  {
    seq(|p|, i requires 0 <= i < |p| => Term(p, i))
  }

  /** Sum of a sequence, accumulated from the front as the source's loop does. */
  function Sum(s: seq<real>): real
  {
    if s == [] then 0.0 else Sum(s[..|s| - 1]) + s[|s| - 1]
  }

  /** The cyclic shoelace sum: twice the signed area. */
  function ShoelaceSum(p: Polygon): real
  {
    Sum(Terms(p))
  }

  /** The area the kernel reports: half the shoelace sum, made non-negative. */
  function Area(p: Polygon): (a: real)
    ensures a >= 0.0
    ensures a == ShoelaceSum(p) / 2.0 || a == -ShoelaceSum(p) / 2.0
  {
    Abs(ShoelaceSum(p) / 2.0)
  }

  /** polygon_area: accumulates the shoelace terms in a loop, halves, takes fabs. */
  method PolygonArea(polygon: Polygon) returns (area: real)
    ensures area == Area(polygon)
  {
    area := 0.0;
    var i := 0;
    while i < |polygon|
      invariant 0 <= i <= |polygon|
      invariant area == Sum(Terms(polygon)[..i])
    {
      var j := (i + 1) % |polygon|;
      area := area + (polygon[i].x * polygon[j].y - polygon[j].x * polygon[i].y);
      assert Terms(polygon)[..i + 1][..i] == Terms(polygon)[..i];
      i := i + 1;
    }
    assert Terms(polygon)[..i] == Terms(polygon);
    area := area / 2.0;
    area := Abs(area);
  }

  lemma {:induction false} SumConcat(a: seq<real>, b: seq<real>)
    ensures Sum(a + b) == Sum(a) + Sum(b)
    decreases |b|
  {
    if b == [] {
      assert a + b == a;
    } else {
      var b' := b[..|b| - 1];
      assert (a + b)[..|a + b| - 1] == a + b';
      SumConcat(a, b');
    }
  }

  /** Index arithmetic of the wrap-around `(i + 1) % n`. */
  lemma ModSmall(a: int, n: int)
    requires 0 <= a < n
    ensures a % n == a && (a + n) % n == a
  {
  }

  lemma ModWrap(n: int)
    requires n > 0
    ensures n % n == 0
  {
  }

  /** Moving the first vertex to the end shifts the term list the same way. */
  lemma TermsRotateLeft(p: Polygon)
    requires |p| > 0
    ensures Terms(p[1..] + [p[0]]) == Terms(p)[1..] + [Terms(p)[0]]
  {
    var n := |p|;
    var q := p[1..] + [p[0]];
    var t := Terms(p);
    ModWrap(n);
    forall k | 0 <= k < n
      ensures Terms(q)[k] == (t[1..] + [t[0]])[k]
    {
      if k < n - 1 {
        ModSmall(k + 1, n);
        assert q[k] == p[k + 1];
        if k + 1 < n - 1 {
          ModSmall(k + 2, n);
          assert q[k + 1] == p[k + 2];
        } else {
          assert q[n - 1] == p[0];
        }
        assert Term(q, k) == Term(p, k + 1);
      } else {
        assert q[n - 1] == p[0];
        if n == 1 {
          assert q == p;
        } else {
          ModSmall(1, n);
          assert q[0] == p[1];
          assert Term(q, k) == Term(p, 0);
        }
      }
    }
  }

  lemma ShoelaceRotateLeft(p: Polygon)
    requires |p| > 0
    ensures ShoelaceSum(p[1..] + [p[0]]) == ShoelaceSum(p)
  {
    var t := Terms(p);
    TermsRotateLeft(p);
    assert (t[1..] + [t[0]])[..|t| - 1] == t[1..];
    SumConcat([t[0]], t[1..]);
    assert [t[0]] + t[1..] == t;
    assert Sum([t[0]]) == Sum([t[0]][..0]) + t[0];
  }

  /** The area does not depend on which vertex the list starts from, because
      the sum wraps from the last vertex to the first. */
  lemma {:induction false} AreaRotationInvariant(p: Polygon, r: nat)
    requires r <= |p|
    ensures Area(p[r..] + p[..r]) == Area(p)
  {
    if r == 0 {
      assert p[0..] + p[..0] == p;
    } else {
      AreaRotationInvariant(p, r - 1);
      var q := p[r - 1..] + p[..r - 1];
      assert q[1..] + [q[0]] == p[r..] + p[..r];
      ShoelaceRotateLeft(q);
    }
  }

  /** The vertex list read backwards. */
  function Reverse<T>(s: seq<T>): (r: seq<T>)
    ensures |r| == |s|
  {
    seq(|s|, i requires 0 <= i < |s| => s[|s| - 1 - i])
  }

  function Negate(s: seq<real>): (r: seq<real>)
    ensures |r| == |s|
  {
    seq(|s|, i requires 0 <= i < |s| => -s[i])
  }

  lemma {:induction false} SumNegate(s: seq<real>)
    ensures Sum(Negate(s)) == -Sum(s)
    decreases |s|
  {
    if s != [] {
      assert Negate(s)[..|s| - 1] == Negate(s[..|s| - 1]);
      SumNegate(s[..|s| - 1]);
    }
  }

  lemma {:induction false} SumReverse(s: seq<real>)
    ensures Sum(Reverse(s)) == Sum(s)
    decreases |s|
  {
    if s != [] {
      var init := s[..|s| - 1];
      assert Reverse(s) == [s[|s| - 1]] + Reverse(init);
      SumConcat([s[|s| - 1]], Reverse(init));
      assert Sum([s[|s| - 1]]) == Sum([s[|s| - 1]][..0]) + s[|s| - 1];
      SumReverse(init);
    }
  }

  lemma TermsReverse(p: Polygon)
    requires |p| > 0
    ensures Terms(Reverse(p)) == Negate(Reverse(Terms(p)[..|p| - 1])) + [-Terms(p)[|p| - 1]]
  {
    var n := |p|;
    var q := Reverse(p);
    var t := Terms(p);
    var u := Negate(Reverse(t[..n - 1])) + [-t[n - 1]];
    ModWrap(n);
    forall k | 0 <= k < n
      ensures Terms(q)[k] == u[k]
    {
      if k < n - 1 {
        ModSmall(k + 1, n);
        ModSmall(n - 1 - k, n);
        assert q[k] == p[n - 1 - k] && q[k + 1] == p[n - 2 - k];
        assert u[k] == -t[n - 2 - k];
        assert t[n - 2 - k] == Cross(p[n - 2 - k], p[n - 1 - k]);
      } else {
        assert q[k] == p[0] && q[0] == p[n - 1];
        assert Term(q, k) == Cross(p[0], p[n - 1]);
        assert t[n - 1] == Cross(p[n - 1], p[0]);
      }
    }
  }

  /** Reversing the winding negates the shoelace sum, which the final fabs undoes. */
  lemma AreaReversalInvariant(p: Polygon)
    ensures Area(Reverse(p)) == Area(p)
  {
    if p != [] {
      var t := Terms(p);
      var n := |p|;
      TermsReverse(p);
      var u := Negate(Reverse(t[..n - 1]));
      assert (u + [-t[n - 1]])[..n - 1] == u;
      SumNegate(Reverse(t[..n - 1]));
      SumReverse(t[..n - 1]);
      assert ShoelaceSum(Reverse(p)) == -ShoelaceSum(p);
    }
  }

  // ---------------------------------------------------------------------------
  // inside_edge
  // ---------------------------------------------------------------------------

  /** The cross product (v2 - v1) x (p - v1): positive right of v1 -> v2 in image
      coordinates, zero on the line through v1 and v2. */
  function Side(p: Point, v1: Point, v2: Point): real
  {
    (v2.x - v1.x) * (p.y - v1.y) - (v2.y - v1.y) * (p.x - v1.x)
  }

  /** inside_edge: p lies strictly on the inner side of the directed edge
      v1 -> v2, so never on its line, and a degenerate edge has no inside. */
  function InsideEdge(p: Point, v1: Point, v2: Point): (r: bool)
    ensures r <==> Side(p, v1, v2) > 0.0
    ensures v1 == v2 ==> !r
  {
    (v2.x - v1.x) * (p.y - v1.y) > (v2.y - v1.y) * (p.x - v1.x)
  }

  /** The test is strict: it is the sign of `Side`, reversing the edge flips it
      for every point off the line, a point on the line is inside in neither
      direction, and a degenerate edge has no inside. */
  lemma InsideEdgeStrict(p: Point, v1: Point, v2: Point)
    ensures InsideEdge(p, v1, v2) <==> Side(p, v1, v2) > 0.0
    ensures Side(p, v2, v1) == -Side(p, v1, v2)
    ensures Side(p, v1, v2) != 0.0 ==> (InsideEdge(p, v2, v1) <==> !InsideEdge(p, v1, v2))
    ensures Side(p, v1, v2) == 0.0 ==> !InsideEdge(p, v1, v2) && !InsideEdge(p, v2, v1)
    ensures v1 == v2 ==> !InsideEdge(p, v1, v2)
  {
  }

  /** Both end points of an edge lie on its line. */
  lemma EndpointsOnLine(v1: Point, v2: Point)
    ensures Side(v1, v1, v2) == 0.0 && Side(v2, v1, v2) == 0.0
  {
  }

  // ---------------------------------------------------------------------------
  // compute_intersection
  // ---------------------------------------------------------------------------

  /** The quantity whose reciprocal compute_intersection takes: how far `Side`
      drops from p1 to p2, zero exactly when the two lines are parallel. */
  function Denominator(p1: Point, p2: Point, v1: Point, v2: Point): (d: real)
    ensures d == Side(p1, v1, v2) - Side(p2, v1, v2)
  {
    (v1.x - v2.x) * (p2.y - p1.y) - (v1.y - v2.y) * (p2.x - p1.x)
  }

  /** compute_intersection: where the line through p1 and p2 meets the line
      through v1 and v2. The source divides by the denominator unconditionally
      (a parallel pair gives NaN or an infinity); here it must be non-zero. */
  function ComputeIntersection(p1: Point, p2: Point, v1: Point, v2: Point): (r: Point)
    requires Denominator(p1, p2, v1, v2) != 0.0
    ensures Side(r, v1, v2) == 0.0
    ensures Side(r, p1, p2) == 0.0
  {
    var dc := Point(v1.x - v2.x, v1.y - v2.y);
    var dp := Point(p2.x - p1.x, p2.y - p1.y);
    var n1 := v1.x * v2.y - v1.y * v2.x;
    var n2 := p2.x * p1.y - p2.y * p1.x;
    var n3 := 1.0 / (dc.x * dp.y - dc.y * dp.x);
    IntersectionAsCombination(p1, p2, v1, v2);
    Point((n1 * dp.x - n2 * dc.x) * n3, (n1 * dp.y - n2 * dc.y) * n3)
  }

  /** The point p1 + t * (p2 - p1) of the line through p1 and p2. */
  function Along(p1: Point, p2: Point, t: real): Point
  {
    Point(p1.x + t * (p2.x - p1.x), p1.y + t * (p2.y - p1.y))
  }

  /** `Side` is affine along a line. */
  lemma SideAlong(p1: Point, p2: Point, t: real, w1: Point, w2: Point)
    ensures Side(Along(p1, p2, t), w1, w2) == Side(p1, w1, w2) + t * (Side(p2, w1, w2) - Side(p1, w1, w2))
  {
  }

  /** The denominator is the drop of `Side` from p1 to p2, and the computed
      point is p1 + t * (p2 - p1) with t = Side(p1) / that drop. */
  lemma IntersectionAsCombination(p1: Point, p2: Point, v1: Point, v2: Point)
    ensures Denominator(p1, p2, v1, v2) == Side(p1, v1, v2) - Side(p2, v1, v2)
    ensures Denominator(p1, p2, v1, v2) != 0.0 ==>
      var d := Denominator(p1, p2, v1, v2);
      var n1 := v1.x * v2.y - v1.y * v2.x;
      var n2 := p2.x * p1.y - p2.y * p1.x;
      var r := Along(p1, p2, Side(p1, v1, v2) / d);
      (n1 * (p2.x - p1.x) - n2 * (v1.x - v2.x)) * (1.0 / d) == r.x &&
      (n1 * (p2.y - p1.y) - n2 * (v1.y - v2.y)) * (1.0 / d) == r.y &&
      Side(r, v1, v2) == 0.0 && Side(r, p1, p2) == 0.0
  {
    var d := Denominator(p1, p2, v1, v2);
    if d != 0.0 {
      var s1 := Side(p1, v1, v2);
      var n1 := v1.x * v2.y - v1.y * v2.x;
      var n2 := p2.x * p1.y - p2.y * p1.x;
      assert n1 * (p2.x - p1.x) - n2 * (v1.x - v2.x) == p1.x * d + s1 * (p2.x - p1.x);
      assert n1 * (p2.y - p1.y) - n2 * (v1.y - v2.y) == p1.y * d + s1 * (p2.y - p1.y);
      SideAlong(p1, p2, s1 / d, v1, v2);
      SideAlong(p1, p2, s1 / d, p1, p2);
      EndpointsOnLine(p1, p2);
    }
  }

  // ---------------------------------------------------------------------------
  // polygon_intersection: Sutherland-Hodgman clipping
  // ---------------------------------------------------------------------------

  /** The end of clip edge e, wrapping from the last vertex to the first. */
  function EdgeEnd(clip: Polygon, e: nat): Point
    requires e < |clip|
  {
    if e + 1 == |clip| then clip[0] else clip[e + 1]
  }

  /** The vertex before k, wrapping from the first to the last. */
  function Prev(poly: Polygon, k: nat): Point
    requires k < |poly|
  {
    if k == 0 then poly[|poly| - 1] else poly[k - 1]
  }

  /** The wrap-around indices the source computes with `%` agree with
      EdgeEnd and Prev. */
  lemma WrapIndices(poly: Polygon, k: nat)
    requires k < |poly|
    ensures poly[(k + 1) % |poly|] == EdgeEnd(poly, k)
    ensures poly[(k + |poly| - 1) % |poly|] == Prev(poly, k)
  {
    var n := |poly|;
    if k + 1 == n {
      ModWrap(n);
    } else {
      ModSmall(k + 1, n);
    }
    if k == 0 {
      ModSmall(n - 1, n);
    } else {
      ModSmall(k - 1, n);
    }
  }

  /** When exactly one of two points is strictly inside an edge, the line
      through them is not parallel to the edge. */
  lemma CrossingDenominatorNonZero(prev: Point, cur: Point, v1: Point, v2: Point)
    requires InsideEdge(prev, v1, v2) != InsideEdge(cur, v1, v2)
    ensures Denominator(prev, cur, v1, v2) != 0.0
  {
    IntersectionAsCombination(prev, cur, v1, v2);
  }

  /** The intersection point a clipping step emits at a transition: a point of
      the clip line (`CrossingOnSegment` places it between prev and cur). */
  function Crossing(prev: Point, cur: Point, v1: Point, v2: Point): (r: Point)
    requires InsideEdge(prev, v1, v2) != InsideEdge(cur, v1, v2)
    ensures Side(r, v1, v2) == 0.0
  {
    CrossingDenominatorNonZero(prev, cur, v1, v2);
    ComputeIntersection(prev, cur, v1, v2)
  }

  /** A transition's intersection point lies on the clip line and on the
      segment from prev to cur. */
  lemma CrossingOnSegment(prev: Point, cur: Point, v1: Point, v2: Point)
    requires InsideEdge(prev, v1, v2) != InsideEdge(cur, v1, v2)
    ensures var t := Side(prev, v1, v2) / (Side(prev, v1, v2) - Side(cur, v1, v2));
      0.0 <= t <= 1.0 && Crossing(prev, cur, v1, v2) == Along(prev, cur, t)
    ensures Side(Crossing(prev, cur, v1, v2), v1, v2) == 0.0
  {
    IntersectionAsCombination(prev, cur, v1, v2);
    var s1, s2 := Side(prev, v1, v2), Side(cur, v1, v2);
    var t := s1 / (s1 - s2);
    assert t * (s1 - s2) == s1;
  }

  /** A transition whose outside point lies on the clip line emits that point. */
  lemma CrossingAtLinePoint(prev: Point, cur: Point, v1: Point, v2: Point)
    requires InsideEdge(prev, v1, v2) != InsideEdge(cur, v1, v2)
    ensures Side(cur, v1, v2) == 0.0 ==> Crossing(prev, cur, v1, v2) == cur
    ensures Side(prev, v1, v2) == 0.0 ==> Crossing(prev, cur, v1, v2) == prev
  {
    CrossingOnSegment(prev, cur, v1, v2);
  }

  /** What step k of a clipping pass appends (the body of the inner loop);
      `EmitCases` and `EmitShape` spell it out. */
  function Emit(poly: Polygon, k: nat, v1: Point, v2: Point): seq<Point>
    requires k < |poly|
  {
    var cur := poly[k];
    var prev := Prev(poly, k);
    if InsideEdge(cur, v1, v2) then
      (if !InsideEdge(prev, v1, v2) then [Crossing(prev, cur, v1, v2)] else []) + [cur]
    else if InsideEdge(prev, v1, v2) then
      [Crossing(prev, cur, v1, v2)]
    else
      []
  }

  /** A step emits nothing exactly when the vertex and its predecessor are both
      outside, and ends with the vertex when the vertex is inside. */
  lemma EmitShape(poly: Polygon, k: nat, v1: Point, v2: Point)
    requires k < |poly|
    ensures Emit(poly, k, v1, v2) == [] <==> !InsideEdge(poly[k], v1, v2) && !InsideEdge(Prev(poly, k), v1, v2)
    ensures InsideEdge(poly[k], v1, v2) ==>
      |Emit(poly, k, v1, v2)| > 0 && Emit(poly, k, v1, v2)[|Emit(poly, k, v1, v2)| - 1] == poly[k]
  {
  }

  /** The four cases of a step, by where the vertex and its predecessor lie. */
  lemma EmitCases(poly: Polygon, k: nat, v1: Point, v2: Point)
    requires k < |poly|
    ensures var cur, prev := poly[k], Prev(poly, k);
      (InsideEdge(cur, v1, v2) && !InsideEdge(prev, v1, v2) ==> Emit(poly, k, v1, v2) == [Crossing(prev, cur, v1, v2), cur]) &&
      (InsideEdge(cur, v1, v2) && InsideEdge(prev, v1, v2) ==> Emit(poly, k, v1, v2) == [cur]) &&
      (!InsideEdge(cur, v1, v2) && InsideEdge(prev, v1, v2) ==> Emit(poly, k, v1, v2) == [Crossing(prev, cur, v1, v2)]) &&
      (!InsideEdge(cur, v1, v2) && !InsideEdge(prev, v1, v2) ==> Emit(poly, k, v1, v2) == [])
  {
  }

  /** The concatenation of the first k chunks. */
  function Flatten<T>(chunks: seq<seq<T>>, k: nat): seq<T>
    requires k <= |chunks|
  {
    if k == 0 then [] else Flatten(chunks, k - 1) + chunks[k - 1]
  }

  /** What each step of a pass appends, step by step. */
  function Steps(poly: Polygon, v1: Point, v2: Point): (s: seq<seq<Point>>)
    ensures |s| == |poly|
  {
    seq(|poly|, k requires 0 <= k < |poly| => Emit(poly, k, v1, v2))
  }

  /** What the first k steps of a pass append. */
  function ClipPrefix(poly: Polygon, v1: Point, v2: Point, k: nat): seq<Point>
    requires k <= |poly|
  {
    Flatten(Steps(poly, v1, v2), k)
  }

  /** Step k appends what it emits to what the steps before it appended. */
  lemma ClipPrefixNext(poly: Polygon, v1: Point, v2: Point, k: nat)
    requires k < |poly|
    ensures ClipPrefix(poly, v1, v2, k + 1) == ClipPrefix(poly, v1, v2, k) + Emit(poly, k, v1, v2)
  {
  }

  /** A pass is all of its steps. */
  lemma ClipEdgeAsPrefix(poly: Polygon, v1: Point, v2: Point)
    ensures ClipEdge(poly, v1, v2) == ClipPrefix(poly, v1, v2, |poly|)
  {
  }

  /** One clipping pass: poly clipped by the edge v1 -> v2. A polygon with no
      vertices gives one with none; `ClipEdgeSize`, `ClipEdgeInHalfPlane` and
      `ClipEdgeKeepsInsideVerticesInOrder` state the rest. */
  function ClipEdge(poly: Polygon, v1: Point, v2: Point): (r: Polygon)
    ensures poly == [] ==> r == []
  {
    ClipPrefix(poly, v1, v2, |poly|)
  }

  /** The subject after the passes for the first i clip edges; pass i uses the
      edge clip[i] -> clip[(i + 1) % |clip|]. No pass makes an empty polygon
      non-empty. */
  function ClipUpTo(subject: Polygon, clip: Polygon, i: nat): (r: Polygon)
    requires i <= |clip|
    ensures i == 0 ==> r == subject
    ensures subject == [] ==> r == []
  {
    if i == 0 then subject
    else ClipEdge(ClipUpTo(subject, clip, i - 1), clip[i - 1], EdgeEnd(clip, i - 1))
  }

  /** Pass i clips the output of the passes before it by edge i. */
  lemma ClipUpToNext(subject: Polygon, clip: Polygon, i: nat)
    requires i < |clip|
    ensures var prior := ClipUpTo(subject, clip, i);
      ClipUpTo(subject, clip, i + 1) == ClipPrefix(prior, clip[i], EdgeEnd(clip, i), |prior|)
  {
  }

  /** The polygon polygon_intersection returns: the subject itself when there
      is no clip edge, and nothing when the subject is empty
      (`IntersectionWithinClip` states its soundness). */
  function Intersection(subject: Polygon, clip: Polygon): (r: Polygon)
    ensures clip == [] ==> r == subject
    ensures subject == [] ==> r == []
  {
    ClipUpTo(subject, clip, |clip|)
  }

  /** polygon_intersection: one pass per clip edge, each pass rebuilding the
      output from a copy of the previous one. */
  method PolygonIntersection(subjectPolygon: Polygon, clipPolygon: Polygon) returns (intersectionPolygon: Polygon)
    ensures intersectionPolygon == Intersection(subjectPolygon, clipPolygon)
  {
    intersectionPolygon := subjectPolygon;
    var i := 0;
    while i < |clipPolygon|
      invariant 0 <= i <= |clipPolygon|
      invariant intersectionPolygon == ClipUpTo(subjectPolygon, clipPolygon, i)
    {
      var currentPolygon := intersectionPolygon;
      intersectionPolygon := [];
      var j := (i + 1) % |clipPolygon|;
      var v1 := clipPolygon[i];
      var v2 := clipPolygon[j];
      WrapIndices(clipPolygon, i);
      var k := 0;
      while k < |currentPolygon|
        invariant 0 <= k <= |currentPolygon|
        invariant intersectionPolygon == ClipPrefix(currentPolygon, v1, v2, k)
      {
        var currentPoint := currentPolygon[k];
        var prevPoint := currentPolygon[(k + |currentPolygon| - 1) % |currentPolygon|];
        ghost var before := intersectionPolygon;
        WrapIndices(currentPolygon, k);
        EmitCases(currentPolygon, k, v1, v2);
        if InsideEdge(currentPoint, v1, v2) {
          if !InsideEdge(prevPoint, v1, v2) {
            CrossingDenominatorNonZero(prevPoint, currentPoint, v1, v2);
            intersectionPolygon := intersectionPolygon + [ComputeIntersection(prevPoint, currentPoint, v1, v2)];
          }
          intersectionPolygon := intersectionPolygon + [currentPoint];
        } else if InsideEdge(prevPoint, v1, v2) {
          CrossingDenominatorNonZero(prevPoint, currentPoint, v1, v2);
          intersectionPolygon := intersectionPolygon + [ComputeIntersection(prevPoint, currentPoint, v1, v2)];
        }
        assert intersectionPolygon == before + Emit(currentPolygon, k, v1, v2);
        ClipPrefixNext(currentPolygon, v1, v2, k);
        k := k + 1;
      }
      ClipUpToNext(subjectPolygon, clipPolygon, i);
      i := i + 1;
    }
  }

  // ---------------------------------------------------------------------------
  // The shape of one clipping pass
  // ---------------------------------------------------------------------------

  /** How many of the first k vertices are strictly inside the edge. */
  function InsideCount(p: Polygon, v1: Point, v2: Point, k: nat): nat
    requires k <= |p|
  {
    if k == 0 then 0
    else InsideCount(p, v1, v2, k - 1) + (if InsideEdge(p[k - 1], v1, v2) then 1 else 0)
  }

  /** How many of the first k steps go from inside to outside or back. */
  function TransitionCount(p: Polygon, v1: Point, v2: Point, k: nat): nat
    requires k <= |p|
  {
    if k == 0 then 0 else
      var step := if InsideEdge(p[k - 1], v1, v2) != InsideEdge(Prev(p, k - 1), v1, v2) then 1 else 0;
      TransitionCount(p, v1, v2, k - 1) + step
  }

  /** A pass emits one point per vertex strictly inside plus one per
      transition, so at most two points per input vertex. */
  lemma {:induction false} ClipPrefixSize(p: Polygon, v1: Point, v2: Point, k: nat)
    requires k <= |p|
    ensures |ClipPrefix(p, v1, v2, k)| == InsideCount(p, v1, v2, k) + TransitionCount(p, v1, v2, k)
    ensures |ClipPrefix(p, v1, v2, k)| <= 2 * k
  {
    if k > 0 {
      ClipPrefixSize(p, v1, v2, k - 1);
    }
  }

  lemma ClipEdgeSize(p: Polygon, v1: Point, v2: Point)
    ensures |ClipEdge(p, v1, v2)| == InsideCount(p, v1, v2, |p|) + TransitionCount(p, v1, v2, |p|)
    ensures |ClipEdge(p, v1, v2)| <= 2 * |p|
  {
    ClipPrefixSize(p, v1, v2, |p|);
  }

  /** Later chunks only append: what the first j chunks hold stays in place. */
  lemma {:induction false} FlattenExtends<T>(chunks: seq<seq<T>>, j: nat, k: nat, idx: nat)
    requires j <= k <= |chunks| && idx < |Flatten(chunks, j)|
    ensures idx < |Flatten(chunks, k)|
    ensures Flatten(chunks, k)[idx] == Flatten(chunks, j)[idx]
    decreases k
  {
    if j < k {
      FlattenExtends(chunks, j, k - 1, idx);
    }
  }

  lemma {:induction false} FlattenGrows<T>(chunks: seq<seq<T>>, j: nat, k: nat)
    requires j <= k <= |chunks|
    ensures |Flatten(chunks, j)| <= |Flatten(chunks, k)|
    decreases k
  {
    if j < k {
      FlattenGrows(chunks, j, k - 1);
    }
  }

  /** Every element of a concatenation comes from one of its chunks. */
  lemma {:induction false} FlattenMember<T>(chunks: seq<seq<T>>, k: nat, x: T)
    requires k <= |chunks| && x in Flatten(chunks, k)
    ensures exists m :: 0 <= m < k && x in chunks[m]
  {
    if x in Flatten(chunks, k - 1) {
      FlattenMember(chunks, k - 1, x);
    } else {
      assert x in chunks[k - 1];
    }
  }

  /** Concatenating empty chunks gives nothing. */
  lemma {:induction false} FlattenEmpty<T>(chunks: seq<seq<T>>, k: nat)
    requires k <= |chunks| && forall m :: 0 <= m < k ==> chunks[m] == []
    ensures Flatten(chunks, k) == []
  {
    if k > 0 {
      FlattenEmpty(chunks, k - 1);
    }
  }

  /** The position in the pass output of the last point step k emits. */
  function OutputPosition(p: Polygon, v1: Point, v2: Point, k: nat): int
    requires k < |p|
  {
    |ClipPrefix(p, v1, v2, k + 1)| - 1
  }

  /** A step whose vertex is strictly inside ends by emitting that vertex. */
  lemma InsideVertexEmittedLast(p: Polygon, v1: Point, v2: Point, k: nat)
    requires k < |p| && InsideEdge(p[k], v1, v2)
    ensures |ClipPrefix(p, v1, v2, k)| < |ClipPrefix(p, v1, v2, k + 1)|
    ensures ClipPrefix(p, v1, v2, k + 1)[OutputPosition(p, v1, v2, k)] == p[k]
  {
    var e := Emit(p, k, v1, v2);
    assert e[|e| - 1] == p[k];
  }

  /** Every vertex strictly inside the edge is emitted, and in input order. */
  lemma ClipEdgeKeepsInsideVerticesInOrder(p: Polygon, v1: Point, v2: Point, j: nat, k: nat)
    requires j < k < |p| && InsideEdge(p[j], v1, v2) && InsideEdge(p[k], v1, v2)
    ensures 0 <= OutputPosition(p, v1, v2, j) < OutputPosition(p, v1, v2, k) < |ClipEdge(p, v1, v2)|
    ensures ClipEdge(p, v1, v2)[OutputPosition(p, v1, v2, j)] == p[j]
    ensures ClipEdge(p, v1, v2)[OutputPosition(p, v1, v2, k)] == p[k]
  {
    ClipEdgeAsPrefix(p, v1, v2);
    InsideVertexEmittedLast(p, v1, v2, j);
    InsideVertexEmittedLast(p, v1, v2, k);
    var steps := Steps(p, v1, v2);
    FlattenGrows(steps, j + 1, k);
    FlattenExtends(steps, j + 1, |p|, OutputPosition(p, v1, v2, j));
    FlattenExtends(steps, k + 1, |p|, OutputPosition(p, v1, v2, k));
  }

  /** Every point a pass emits is a vertex strictly inside the edge or the
      intersection point of a transition. */
  ghost predicate EmittedBy(p: Polygon, v1: Point, v2: Point, k: nat, r: Point)
    requires k < |p|
  {
    (r == p[k] && InsideEdge(p[k], v1, v2)) ||
    (InsideEdge(p[k], v1, v2) != InsideEdge(Prev(p, k), v1, v2) &&
     r == Crossing(Prev(p, k), p[k], v1, v2))
  }

  lemma ClipEdgeProvenance(p: Polygon, v1: Point, v2: Point, r: Point)
    requires r in ClipEdge(p, v1, v2)
    ensures exists m :: 0 <= m < |p| && EmittedBy(p, v1, v2, m, r)
  {
    var steps := Steps(p, v1, v2);
    FlattenMember(steps, |p|, r);
    var m :| 0 <= m < |p| && r in steps[m];
    assert r in Emit(p, m, v1, v2);
    assert EmittedBy(p, v1, v2, m, r);
  }

  /** Whatever a step emits lies in the closed inner half-plane of its edge. */
  lemma EmittedInHalfPlane(p: Polygon, v1: Point, v2: Point, m: nat, r: Point)
    requires m < |p| && EmittedBy(p, v1, v2, m, r)
    ensures Side(r, v1, v2) >= 0.0
  {
    if InsideEdge(p[m], v1, v2) != InsideEdge(Prev(p, m), v1, v2) && r == Crossing(Prev(p, m), p[m], v1, v2) {
      CrossingOnSegment(Prev(p, m), p[m], v1, v2);
    }
  }

  /** The output of a pass lies in the closed inner half-plane of its edge. */
  lemma ClipEdgeInHalfPlane(p: Polygon, v1: Point, v2: Point, r: Point)
    requires r in ClipEdge(p, v1, v2)
    ensures Side(r, v1, v2) >= 0.0
  {
    ClipEdgeProvenance(p, v1, v2, r);
    var m :| 0 <= m < |p| && EmittedBy(p, v1, v2, m, r);
    EmittedInHalfPlane(p, v1, v2, m, r);
  }

  lemma ConvexCombinationNonNegative(s1: real, s2: real, t: real)
    requires s1 >= 0.0 && s2 >= 0.0 && 0.0 <= t <= 1.0
    ensures s1 + t * (s2 - s1) >= 0.0
  {
    assert s1 + t * (s2 - s1) == (1.0 - t) * s1 + t * s2;
    assert (1.0 - t) * s1 >= 0.0;
    assert t * s2 >= 0.0;
  }

  /** The intersection point of a transition is in every closed half-plane that
      holds both end points of its segment. */
  lemma CrossingKeepsHalfPlane(prev: Point, cur: Point, v1: Point, v2: Point, w1: Point, w2: Point)
    requires InsideEdge(prev, v1, v2) != InsideEdge(cur, v1, v2)
    requires Side(prev, w1, w2) >= 0.0 && Side(cur, w1, w2) >= 0.0
    ensures Side(Crossing(prev, cur, v1, v2), w1, w2) >= 0.0
  {
    CrossingOnSegment(prev, cur, v1, v2);
    var t := Side(prev, v1, v2) / (Side(prev, v1, v2) - Side(cur, v1, v2));
    SideAlong(prev, cur, t, w1, w2);
    ConvexCombinationNonNegative(Side(prev, w1, w2), Side(cur, w1, w2), t);
  }

  /** A pass keeps the polygon inside every closed half-plane that held all of
      its vertices: the intersection points lie on segments between them. */
  lemma ClipEdgeKeepsHalfPlane(p: Polygon, v1: Point, v2: Point, w1: Point, w2: Point, r: Point)
    requires forall q :: q in p ==> Side(q, w1, w2) >= 0.0
    requires r in ClipEdge(p, v1, v2)
    ensures Side(r, w1, w2) >= 0.0
  {
    ClipEdgeProvenance(p, v1, v2, r);
    var m :| 0 <= m < |p| && EmittedBy(p, v1, v2, m, r);
    if r != p[m] {
      CrossingKeepsHalfPlane(Prev(p, m), p[m], v1, v2, w1, w2);
    }
  }

  /** Vertices of the subject that survive each pass, or points on some clip edge. */
  ghost predicate OnClipLineBefore(r: Point, clip: Polygon, i: nat)
    requires i <= |clip|
  {
    exists e :: 0 <= e < i && Side(r, clip[e], EdgeEnd(clip, e)) == 0.0
  }

  lemma {:induction false} ClipUpToInvariants(subject: Polygon, clip: Polygon, i: nat, r: Point)
    requires i <= |clip| && r in ClipUpTo(subject, clip, i)
    ensures forall e :: 0 <= e < i ==> Side(r, clip[e], EdgeEnd(clip, e)) >= 0.0
    ensures r in subject || OnClipLineBefore(r, clip, i)
  {
    if i > 0 {
      var prior := ClipUpTo(subject, clip, i - 1);
      var v1, v2 := clip[i - 1], EdgeEnd(clip, i - 1);
      ClipEdgeInHalfPlane(prior, v1, v2, r);
      forall e | 0 <= e < i - 1
        ensures Side(r, clip[e], EdgeEnd(clip, e)) >= 0.0
      {
        forall q | q in prior
          ensures Side(q, clip[e], EdgeEnd(clip, e)) >= 0.0
        {
          ClipUpToInvariants(subject, clip, i - 1, q);
        }
        ClipEdgeKeepsHalfPlane(prior, v1, v2, clip[e], EdgeEnd(clip, e), r);
      }
      ClipEdgeProvenance(prior, v1, v2, r);
      var m :| 0 <= m < |prior| && EmittedBy(prior, v1, v2, m, r);
      if r == prior[m] && InsideEdge(prior[m], v1, v2) {
        ClipUpToInvariants(subject, clip, i - 1, r);
        if !(r in subject) {
          var e :| 0 <= e < i - 1 && Side(r, clip[e], EdgeEnd(clip, e)) == 0.0;
          assert 0 <= e < i;
        }
      } else {
        CrossingOnSegment(Prev(prior, m), prior[m], v1, v2);
        assert Side(r, clip[i - 1], EdgeEnd(clip, i - 1)) == 0.0;
      }
    }
  }

  /** Sutherland-Hodgman soundness: every point of the result lies in the closed
      inner half-plane of every clip edge. */
  lemma IntersectionWithinClip(subject: Polygon, clip: Polygon, r: Point, e: nat)
    requires r in Intersection(subject, clip) && e < |clip|
    ensures Side(r, clip[e], EdgeEnd(clip, e)) >= 0.0
  {
    ClipUpToInvariants(subject, clip, |clip|, r);
  }

  /** A point on the line of a clip edge is not strictly inside that edge. */
  lemma OnClipLineNotStrictlyInside(r: Point, clip: Polygon)
    requires OnClipLineBefore(r, clip, |clip|)
    ensures exists e :: 0 <= e < |clip| && !InsideEdge(r, clip[e], EdgeEnd(clip, e))
  {
    var e :| 0 <= e < |clip| && Side(r, clip[e], EdgeEnd(clip, e)) == 0.0;
    assert !InsideEdge(r, clip[e], EdgeEnd(clip, e));
  }

  /** A point of the result strictly inside every clip edge is a vertex of the
      subject; every other point lies on the line of some clip edge. */
  lemma IntersectionPointsOrigin(subject: Polygon, clip: Polygon, r: Point)
    requires r in Intersection(subject, clip)
    ensures r in subject || OnClipLineBefore(r, clip, |clip|)
    ensures (forall e :: 0 <= e < |clip| ==> InsideEdge(r, clip[e], EdgeEnd(clip, e))) ==> r in subject
  {
    ClipUpToInvariants(subject, clip, |clip|, r);
    if r !in subject {
      OnClipLineNotStrictlyInside(r, clip);
    }
  }

  /** The pass after an empty polygon leaves it empty. */
  lemma ClipUpToEmptyStep(subject: Polygon, clip: Polygon, i: nat)
    requires i < |clip| && ClipUpTo(subject, clip, i) == []
    ensures ClipUpTo(subject, clip, i + 1) == []
  {
  }

  /** An empty polygon stays empty through every later pass. */
  lemma {:induction false} IntersectionEmptyStaysEmpty(subject: Polygon, clip: Polygon, i: nat, j: nat)
    requires i <= j <= |clip| && ClipUpTo(subject, clip, i) == []
    ensures ClipUpTo(subject, clip, j) == []
    decreases j - i
  {
    if i < j {
      ClipUpToEmptyStep(subject, clip, i);
      IntersectionEmptyStaysEmpty(subject, clip, i + 1, j);
    }
  }


  // ---------------------------------------------------------------------------
  // Clipping a strictly convex polygon by its own edges
  // ---------------------------------------------------------------------------

  /** Strictly convex, and counter-clockwise with the y axis up (clockwise in
      image coordinates): every vertex off an edge lies strictly inside it. */
  ghost predicate StrictlyConvex(p: Polygon)
  {
    forall i, k :: 0 <= i < |p| && 0 <= k < |p| && k != i && k != Next(|p|, i) ==>
      InsideEdge(p[k], p[i], EdgeEnd(p, i))
  }

  /** The index after k, wrapping from the last to the first. */
  function Next(n: nat, k: nat): nat
    requires k < n
  {
    if k + 1 == n then 0 else k + 1
  }

  /** Chunks that each hold one element of s concatenate to a slice of s. */
  lemma {:induction false} FlattenSingletons<T>(chunks: seq<seq<T>>, s: seq<T>, lo: nat, hi: nat)
    requires lo <= hi <= |chunks| && hi <= |s|
    requires forall m :: lo <= m < hi ==> chunks[m] == [s[m]]
    ensures Flatten(chunks, hi) == Flatten(chunks, lo) + s[lo..hi]
    decreases hi
  {
    if lo < hi {
      FlattenSingletons(chunks, s, lo, hi - 1);
      assert s[lo..hi] == s[lo..hi - 1] + [s[hi - 1]];
    }
  }

  /** One step of clipping q by the line through its own edge a: the vertices
      of that edge are on the line, every other vertex strictly inside. */
  lemma EmitOwnEdge(q: Polygon, v1: Point, v2: Point, a: nat, k: nat)
    requires 3 <= |q| && a < |q| && k < |q|
    requires Side(q[a], v1, v2) == 0.0 && Side(q[Next(|q|, a)], v1, v2) == 0.0
    requires forall m :: 0 <= m < |q| && m != a && m != Next(|q|, a) ==> InsideEdge(q[m], v1, v2)
    ensures var b := Next(|q|, a);
      Emit(q, k, v1, v2) ==
        if k == b then []
        else if k == Next(|q|, b) then [q[b], q[k]]
        else [q[k]]
  {
    var n, b := |q|, Next(|q|, a);
    var c := Next(n, b);
    InsideEdgeStrict(q[a], v1, v2);
    InsideEdgeStrict(q[b], v1, v2);
    var pk := if k == 0 then n - 1 else k - 1;
    assert Prev(q, k) == q[pk];
    assert pk == a <==> k == b;
    assert pk == b <==> k == c;
    if k == c {
      CrossingAtLinePoint(q[b], q[k], v1, v2);
    } else if k == a {
      CrossingAtLinePoint(q[pk], q[k], v1, v2);
    }
  }

  /** The concatenation of one-vertex chunks of q in which chunk b is empty and
      the chunk after it holds q[b] too: q again, or q rotated right by one
      when b is the last index. */
  lemma FlattenSkipOne<T>(chunks: seq<seq<T>>, q: seq<T>, b: nat)
    requires 3 <= |q| == |chunks| && b < |q|
    requires chunks[b] == [] && chunks[Next(|q|, b)] == [q[b], q[Next(|q|, b)]]
    requires forall m :: 0 <= m < |q| && m != b && m != Next(|q|, b) ==> chunks[m] == [q[m]]
    ensures Flatten(chunks, |q|) == if b == |q| - 1 then [q[|q| - 1]] + q[..|q| - 1] else q
  {
    var n := |q|;
    if b == n - 1 {
      FlattenSkipLast(chunks, q);
    } else if b == 0 {
      FlattenSkipFirst(chunks, q);
    } else {
      FlattenSkipInner(chunks, q, b);
    }
  }

  /** The last element, then the first, then the middle is the last element
      before all the others. */
  lemma LastThenFront<T>(q: seq<T>)
    requires 2 <= |q|
    ensures [q[|q| - 1], q[0]] + q[1..|q| - 1] == [q[|q| - 1]] + q[..|q| - 1]
  {
    assert q[..|q| - 1] == [q[0]] + q[1..|q| - 1];
  }

  lemma FlattenSkipLast<T>(chunks: seq<seq<T>>, q: seq<T>)
    requires 3 <= |q| == |chunks|
    requires chunks[|q| - 1] == [] && chunks[0] == [q[|q| - 1], q[0]]
    requires forall m :: 1 <= m < |q| - 1 ==> chunks[m] == [q[m]]
    ensures Flatten(chunks, |q|) == [q[|q| - 1]] + q[..|q| - 1]
  {
    var n := |q|;
    assert Flatten(chunks, 1) == Flatten(chunks, 0) + chunks[0] == [q[n - 1], q[0]];
    FlattenSingletons(chunks, q, 1, n - 1);
    assert Flatten(chunks, n) == Flatten(chunks, n - 1) + chunks[n - 1] == Flatten(chunks, n - 1);
    LastThenFront(q);
  }

  lemma FlattenSkipFirst<T>(chunks: seq<seq<T>>, q: seq<T>)
    requires 3 <= |q| == |chunks|
    requires chunks[0] == [] && chunks[1] == [q[0], q[1]]
    requires forall m :: 2 <= m < |q| ==> chunks[m] == [q[m]]
    ensures Flatten(chunks, |q|) == q
  {
    assert Flatten(chunks, 1) == [];
    assert Flatten(chunks, 2) == q[..2];
    FlattenSingletons(chunks, q, 2, |q|);
    assert q[..2] + q[2..|q|] == q;
  }

  lemma FlattenSkipInner<T>(chunks: seq<seq<T>>, q: seq<T>, b: nat)
    requires |q| == |chunks| && 0 < b < |q| - 1
    requires chunks[b] == [] && chunks[b + 1] == [q[b], q[b + 1]]
    requires forall m :: 0 <= m < |q| && m != b && m != b + 1 ==> chunks[m] == [q[m]]
    ensures Flatten(chunks, |q|) == q
  {
    var n := |q|;
    FlattenSingletons(chunks, q, 0, b);
    FlattenTwoSteps(chunks, b);
    FlattenSingletons(chunks, q, b + 2, n);
    SplitAround(q, b);
    JoinAround(Flatten(chunks, b), chunks[b], chunks[b + 1], Flatten(chunks, b + 2), Flatten(chunks, n), q, b);
  }

  /** The concatenation step of `FlattenSkipInner`, on plain sequences. */
  lemma JoinAround<T>(front: seq<T>, gap: seq<T>, pair: seq<T>, middle: seq<T>, all: seq<T>, q: seq<T>, b: nat)
    requires b + 2 <= |q| && gap == [] && pair == [q[b], q[b + 1]]
    requires front == q[..b] && middle == front + gap + pair && all == middle + q[b + 2..|q|]
    requires q[..b] + [q[b], q[b + 1]] + q[b + 2..|q|] == q
    ensures all == q
  {
    assert middle == q[..b] + [q[b], q[b + 1]];
  }

  /** Two steps of Flatten append the two chunks they pass. */
  lemma FlattenTwoSteps<T>(chunks: seq<seq<T>>, b: nat)
    requires b + 2 <= |chunks|
    ensures Flatten(chunks, b + 2) == Flatten(chunks, b) + chunks[b] + chunks[b + 1]
  {
  }

  /** A sequence is its part before b, its elements at b and b + 1, and the
      rest. */
  lemma SplitAround<T>(q: seq<T>, b: nat)
    requires b + 2 <= |q|
    ensures q[..b] + [q[b], q[b + 1]] + q[b + 2..|q|] == q
  {
    assert q[..b] + [q[b], q[b + 1]] == q[..b + 2];
    assert q[..b + 2] + q[b + 2..|q|] == q;
  }

  /** Clipping q by the line through its own edge a gives back q, except that
      the edge from the second-to-last vertex moves the last vertex to the
      front. */
  lemma ClipByOwnEdge(q: Polygon, v1: Point, v2: Point, a: nat)
    requires 3 <= |q| && a < |q|
    requires Side(q[a], v1, v2) == 0.0 && Side(q[Next(|q|, a)], v1, v2) == 0.0
    requires forall m :: 0 <= m < |q| && m != a && m != Next(|q|, a) ==> InsideEdge(q[m], v1, v2)
    ensures ClipEdge(q, v1, v2) == if a == |q| - 2 then [q[|q| - 1]] + q[..|q| - 1] else q
  {
    var n, steps := |q|, Steps(q, v1, v2);
    var b := Next(n, a);
    var c := Next(n, b);
    forall k | 0 <= k < n
      ensures steps[k] == if k == b then [] else if k == c then [q[b], q[k]] else [q[k]]
    {
      EmitOwnEdge(q, v1, v2, a, k);
    }
    FlattenSkipOne(steps, q, b);
  }

  /** The passes of clipping a strictly convex polygon by itself: each pass but
      the second-to-last gives back its input, that one rotates it right. */
  lemma {:induction false} ClipUpToSelf(p: Polygon, i: nat)
    requires 3 <= |p| && i < |p| && StrictlyConvex(p)
    ensures ClipUpTo(p, p, i) == if i == |p| - 1 then [p[|p| - 1]] + p[..|p| - 1] else p
  {
    if i > 0 {
      var n, a := |p|, i - 1;
      ClipUpToSelf(p, a);
      EndpointsOnLine(p[a], EdgeEnd(p, a));
      ClipByOwnEdge(p, p[a], EdgeEnd(p, a), a);
    }
  }

  /** A strictly convex polygon clipped by itself is itself, its vertex list
      rotated right by one. */
  lemma IntersectionWithSelf(p: Polygon)
    requires 3 <= |p| && StrictlyConvex(p)
    ensures Intersection(p, p) == p[|p| - 1..] + p[..|p| - 1]
    ensures Area(Intersection(p, p)) == Area(p)
  {
    var n := |p|;
    var r := [p[n - 1]] + p[..n - 1];
    ClipUpToSelf(p, n - 1);
    EndpointsOnLine(p[n - 1], p[0]);
    forall m | 0 <= m < n && m != 0 && m != Next(n, 0)
      ensures InsideEdge(r[m], p[n - 1], p[0])
    {
      assert r[m] == p[m - 1];
      assert InsideEdge(p[m - 1], p[n - 1], EdgeEnd(p, n - 1));
    }
    ClipByOwnEdge(r, p[n - 1], p[0], 0);
    assert p[n - 1..] == [p[n - 1]];
    AreaRotationInvariant(p, n - 1);
  }

  /** Twice the signed areas of the triangles fanning out from p[0] over the
      first k edges. */
  function FanSum(p: Polygon, k: nat): real
    requires 0 < |p| && k <= |p|
  {
    if k == 0 then 0.0 else FanSum(p, k - 1) + Side(p[0], p[k - 1], EdgeEnd(p, k - 1))
  }

  /** The shoelace term of an edge, split at a third point c. */
  lemma CrossAroundPoint(c: Point, a: Point, b: Point)
    ensures Cross(a, b) == Side(c, a, b) + Cross(c, b) - Cross(c, a)
  {
  }

  /** The shoelace sum is the fan sum: the Cross(p[0], .) parts telescope. */
  lemma {:induction false} ShoelaceAsFan(p: Polygon, k: nat)
    requires 0 < |p| && k <= |p|
    ensures Sum(Terms(p)[..k]) == FanSum(p, k) + Cross(p[0], p[if k == |p| then 0 else k]) - Cross(p[0], p[0])
  {
    if k > 0 {
      ShoelaceAsFan(p, k - 1);
      assert Terms(p)[..k][..k - 1] == Terms(p)[..k - 1];
      WrapIndices(p, k - 1);
      CrossAroundPoint(p[0], p[k - 1], EdgeEnd(p, k - 1));
    }
  }

  /** Every fan triangle of a strictly convex polygon is counter-clockwise with
      the y axis up (clockwise in image coordinates), and all but the two at
      p[0]'s own edges are proper. */
  lemma {:induction false} FanSumPositive(p: Polygon, k: nat)
    requires 3 <= |p| && k <= |p| && StrictlyConvex(p)
    ensures FanSum(p, k) >= 0.0
    ensures k >= 2 ==> FanSum(p, k) > 0.0
  {
    if k > 0 {
      FanSumPositive(p, k - 1);
      var i := k - 1;
      EndpointsOnLine(p[i], EdgeEnd(p, i));
      if 0 < i < |p| - 1 {
        assert InsideEdge(p[0], p[i], EdgeEnd(p, i));
        InsideEdgeStrict(p[0], p[i], EdgeEnd(p, i));
      }
    }
  }

  /** A strictly convex polygon is counter-clockwise with the y axis up
      (clockwise in image coordinates) and has positive area. */
  lemma StrictlyConvexAreaPositive(p: Polygon)
    requires 3 <= |p| && StrictlyConvex(p)
    ensures ShoelaceSum(p) > 0.0 && Area(p) > 0.0
  {
    ShoelaceAsFan(p, |p|);
    assert Terms(p)[..|p|] == Terms(p);
    FanSumPositive(p, |p|);
  }

  // ---------------------------------------------------------------------------
  // intersection_over_union
  // ---------------------------------------------------------------------------

  /** The union area intersection_over_union divides by. */
  function UnionArea(a: Polygon, b: Polygon): real
  {
    Area(a) + Area(b) - Area(Intersection(a, b))
  }

  /** The ratio intersection_over_union computes; `None` where the union area is
      zero, so that the float division would give NaN or an infinity. */
  function IoU(a: Polygon, b: Polygon): (iou: Option<real>)
    ensures iou.Some? <==> UnionArea(a, b) != 0.0
    ensures iou.Some? ==> iou.value * UnionArea(a, b) == Area(Intersection(a, b))
  {
    var union := UnionArea(a, b);
    if union == 0.0 then None else Some(Area(Intersection(a, b)) / union)
  }

  /** intersection_over_union: clips, measures the three areas, divides. */
  method IntersectionOverUnion(a: Polygon, b: Polygon) returns (iou: Option<real>)
    ensures iou == IoU(a, b)
  {
    var clipped := PolygonIntersection(a, b);
    var intersectionArea := PolygonArea(clipped);
    var areaA := PolygonArea(a);
    var areaB := PolygonArea(b);
    var unionArea := areaA + areaB - intersectionArea;
    if unionArea == 0.0 {
      iou := None;
    } else {
      iou := Some(intersectionArea / unionArea);
    }
  }

  /** A strictly convex polygon overlaps itself completely. */
  lemma IoUWithSelf(p: Polygon)
    requires 3 <= |p| && StrictlyConvex(p)
    ensures IoU(p, p) == Some(1.0)
  {
    IntersectionWithSelf(p);
    StrictlyConvexAreaPositive(p);
    FullOverlapRatio(Area(Intersection(p, p)), Area(p));
  }

  lemma FullOverlapRatio(inter: real, area: real)
    requires inter == area > 0.0
    ensures area + area - inter != 0.0 && inter / (area + area - inter) == 1.0
  {
  }

  /** Polygons whose clipped overlap has no vertices have IoU zero, unless both
      are degenerate. */
  lemma IoUOfEmptyIntersection(a: Polygon, b: Polygon)
    requires Intersection(a, b) == []
    ensures Area(a) + Area(b) == 0.0 ==> IoU(a, b) == None
    ensures Area(a) + Area(b) != 0.0 ==> IoU(a, b) == Some(0.0)
  {
    assert Terms([]) == [];
  }

  /** A degenerate clip edge has no inside, so its pass empties the polygon. */
  lemma ClipByDegenerateEdge(p: Polygon, v: Point)
    ensures ClipEdge(p, v, v) == []
  {
    var steps := Steps(p, v, v);
    forall m | 0 <= m < |p|
      ensures steps[m] == []
    {
      InsideEdgeStrict(p[m], v, v);
      InsideEdgeStrict(Prev(p, m), v, v);
    }
    FlattenEmpty(steps, |p|);
  }

  /** A clip polygon with a repeated consecutive vertex clips everything away. */
  lemma IntersectionWithDegenerateEdge(subject: Polygon, clip: Polygon, e: nat)
    requires e < |clip| && clip[e] == EdgeEnd(clip, e)
    ensures Intersection(subject, clip) == []
  {
    ClipByDegenerateEdge(ClipUpTo(subject, clip, e), clip[e]);
    IntersectionEmptyStaysEmpty(subject, clip, e + 1, |clip|);
  }
}
