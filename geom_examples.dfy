/** The geometry kernel on the inputs of its unit tests, stated for every
    placement or size of those inputs where the tests use one instance. */
module GeomExamples {
  import opened Geom

  /** The axis-aligned rectangle [x0, x1] x [y0, y1], counter-clockwise with
      the y axis up (clockwise in image coordinates) when x0 < x1 and y0 < y1. */
  function Rect(x0: real, y0: real, x1: real, y1: real): Polygon
  {
    [Point(x0, y0), Point(x1, y0), Point(x1, y1), Point(x0, y1)]
  }

  lemma SumOfThree(t: seq<real>)
    requires |t| == 3
    ensures Sum(t) == t[0] + t[1] + t[2]
  {
    assert t[..2][..1][..0] == [];
    assert t[..2][..1] == t[..1];
    assert Sum(t[..1]) == t[0];
    assert Sum(t[..2]) == t[0] + t[1];
  }

  lemma SumOfFour(t: seq<real>)
    requires |t| == 4
    ensures Sum(t) == t[0] + t[1] + t[2] + t[3]
  {
    SumOfThree(t[..3]);
  }

  /** The shoelace formula written out for a triangle and a quadrilateral. */
  lemma AreaOfThree(a: Point, b: Point, c: Point)
    ensures Area([a, b, c]) == Abs((Cross(a, b) + Cross(b, c) + Cross(c, a)) / 2.0)
  {
    var p := [a, b, c];
    assert Terms(p) == [Cross(a, b), Cross(b, c), Cross(c, a)];
    SumOfThree(Terms(p));
  }

  lemma AreaOfFour(a: Point, b: Point, c: Point, d: Point)
    ensures Area([a, b, c, d]) == Abs((Cross(a, b) + Cross(b, c) + Cross(c, d) + Cross(d, a)) / 2.0)
  {
    var p := [a, b, c, d];
    assert Terms(p) == [Cross(a, b), Cross(b, c), Cross(c, d), Cross(d, a)];
    SumOfFour(Terms(p));
  }

  /** The right triangle with legs s: 50 for s = 10. */
  lemma AreaOfRightTriangle(s: real)
    ensures Area([Point(0.0, 0.0), Point(s, 0.0), Point(s, s)]) == s * s / 2.0
  {
    AreaOfThree(Point(0.0, 0.0), Point(s, 0.0), Point(s, s));
  }

  /** Width times height: 100 for [0, 10]^2, 400 for [-10, 10]^2. */
  lemma AreaOfRect(x0: real, y0: real, x1: real, y1: real)
    requires x0 <= x1 && y0 <= y1
    ensures Area(Rect(x0, y0, x1, y1)) == (x1 - x0) * (y1 - y0)
  {
    AreaOfFour(Point(x0, y0), Point(x1, y0), Point(x1, y1), Point(x0, y1));
    assert (x1 - x0) * (y1 - y0) >= 0.0;
  }

  /** The octagon of the tests scaled by u: a 200u x 100u rectangle with four
      corner triangles of 50u x 25u cut off. */
  lemma AreaOfOctagon(u: real)
    ensures Area([Point(50.0 * u, 0.0), Point(150.0 * u, 0.0), Point(200.0 * u, 25.0 * u), Point(200.0 * u, 75.0 * u),
                  Point(150.0 * u, 100.0 * u), Point(50.0 * u, 100.0 * u), Point(0.0, 75.0 * u), Point(0.0, 25.0 * u)])
            == (200.0 * 100.0 - 4.0 * (50.0 * 25.0 / 2.0)) * u * u
  {
    var p := [Point(50.0 * u, 0.0), Point(150.0 * u, 0.0), Point(200.0 * u, 25.0 * u), Point(200.0 * u, 75.0 * u),
              Point(150.0 * u, 100.0 * u), Point(50.0 * u, 100.0 * u), Point(0.0, 75.0 * u), Point(0.0, 25.0 * u)];
    var t := Terms(p);
    assert t[..4] == [Cross(p[0], p[1]), Cross(p[1], p[2]), Cross(p[2], p[3]), Cross(p[3], p[4])];
    assert t[4..] == [Cross(p[4], p[5]), Cross(p[5], p[6]), Cross(p[6], p[7]), Cross(p[7], p[0])];
    SumOfFour(t[..4]);
    SumOfFour(t[4..]);
    SumConcat(t[..4], t[4..]);
    assert t[..4] + t[4..] == t;
    assert u * u >= 0.0;
  }

  /** A horizontal segment meets a vertical line at the line's x and the
      segment's y: (20, 0) and (10, 10) in the tests. */
  lemma HorizontalMeetsVertical(a: real, b: real, h: real, c: real, d1: real, d2: real)
    requires a != b && d1 != d2
    ensures Denominator(Point(a, h), Point(b, h), Point(c, d1), Point(c, d2)) != 0.0
    ensures ComputeIntersection(Point(a, h), Point(b, h), Point(c, d1), Point(c, d2)) == Point(c, h)
  {
    var p1, p2, v1, v2 := Point(a, h), Point(b, h), Point(c, d1), Point(c, d2);
    assert Denominator(p1, p2, v1, v2) == (d2 - d1) * (b - a);
    var r := ComputeIntersection(p1, p2, v1, v2);
    assert (d2 - d1) * (r.x - c) == 0.0;
    assert (b - a) * (r.y - h) == 0.0;
  }

  /** Two horizontal lines never meet: the denominator is zero, which the
      source turns into NaN or an infinity. */
  lemma ParallelHorizontals(a: real, b: real, h: real, c: real, d: real, k: real)
    ensures Denominator(Point(a, h), Point(b, h), Point(c, k), Point(d, k)) == 0.0
  {
  }

  lemma InsideEdgeCases()
    ensures !InsideEdge(Point(5.0, 0.0), Point(0.0, 10.0), Point(10.0, 10.0))
    ensures InsideEdge(Point(5.0, 15.0), Point(0.0, 10.0), Point(10.0, 10.0))
    ensures InsideEdge(Point(5.0, 0.0), Point(10.0, 10.0), Point(0.0, 10.0))
    ensures !InsideEdge(Point(5.0, 15.0), Point(10.0, 10.0), Point(0.0, 10.0))
    ensures InsideEdge(Point(5.0, 5.0), Point(10.0, 0.0), Point(10.0, 10.0))
    ensures !InsideEdge(Point(15.0, 5.0), Point(10.0, 0.0), Point(10.0, 10.0))
    ensures !InsideEdge(Point(5.0, 5.0), Point(10.0, 10.0), Point(10.0, 0.0))
    ensures InsideEdge(Point(15.0, 5.0), Point(10.0, 10.0), Point(10.0, 0.0))
    ensures !InsideEdge(Point(0.0, 0.0), Point(0.0, 10.0), Point(10.0, 0.0))
    ensures InsideEdge(Point(10.0, 10.0), Point(0.0, 10.0), Point(10.0, 0.0))
    ensures InsideEdge(Point(0.0, 0.0), Point(10.0, 0.0), Point(0.0, 10.0))
    ensures !InsideEdge(Point(10.0, 10.0), Point(10.0, 0.0), Point(0.0, 10.0))
  {
  }

  lemma ProductPositive(a: real, b: real)
    requires a > 0.0 && b > 0.0
    ensures a * b > 0.0
  {
  }

  lemma RectIsStrictlyConvex(x0: real, y0: real, x1: real, y1: real)
    requires x0 < x1 && y0 < y1
    ensures StrictlyConvex(Rect(x0, y0, x1, y1))
  {
    var p := Rect(x0, y0, x1, y1);
    ProductPositive(x1 - x0, y1 - y0);
    forall i, k | 0 <= i < 4 && 0 <= k < 4 && k != i && k != Next(4, i)
      ensures InsideEdge(p[k], p[i], EdgeEnd(p, i))
    {
      InsideEdgeStrict(p[k], p[i], EdgeEnd(p, i));
    }
  }

  /** A proper rectangle clipped by itself is itself, its vertex list rotated
      by one, and its IoU with itself is 1. */
  lemma RectWithItself(x0: real, y0: real, x1: real, y1: real)
    requires x0 < x1 && y0 < y1
    ensures Intersection(Rect(x0, y0, x1, y1), Rect(x0, y0, x1, y1)) ==
      [Point(x0, y1), Point(x0, y0), Point(x1, y0), Point(x1, y1)]
    ensures IoU(Rect(x0, y0, x1, y1), Rect(x0, y0, x1, y1)) == Some(1.0)
  {
    var p := Rect(x0, y0, x1, y1);
    RectIsStrictlyConvex(x0, y0, x1, y1);
    IntersectionWithSelf(p);
    assert p[3..] + p[..3] == [Point(x0, y1), Point(x0, y0), Point(x1, y0), Point(x1, y1)];
    IoUWithSelf(p);
  }

  /** A polygon against a clip polygon collapsed onto a line x = c, as in the
      test without overlap: nothing is left and the IoU is 0. */
  lemma IoUWithCollapsedPolygon(x0: real, y0: real, x1: real, y1: real, c: real, d: real)
    requires x0 < x1 && y0 < y1
    ensures Intersection(Rect(x0, y0, x1, y1), [Point(c, y0), Point(c, y0), Point(c, d), Point(c, d)]) == []
    ensures IoU(Rect(x0, y0, x1, y1), [Point(c, y0), Point(c, y0), Point(c, d), Point(c, d)]) == Some(0.0)
  {
    var p, q := Rect(x0, y0, x1, y1), [Point(c, y0), Point(c, y0), Point(c, d), Point(c, d)];
    IntersectionWithDegenerateEdge(p, q, 0);
    AreaOfRect(x0, y0, x1, y1);
    AreaOfFour(q[0], q[1], q[2], q[3]);
    ProductPositive(x1 - x0, y1 - y0);
    IoUOfEmptyIntersection(p, q);
  }
}
