/**
 * Points, segments and the parametric segment intersection test of the
 * plane sweep (`findIntersection` in src/index.ts). Coordinates are exact
 * reals; the source's IEEE doubles are not modelled.
 */
module Geometry {

  datatype Option<T> = None | Some(value: T)

  /** A point `[x, y]`. */
  datatype Point = Point(x: real, y: real)

  /** A segment `[p, q]`: two endpoints, in the order they are given. */
  datatype Segment = Segment(p: Point, q: Point)

  /** The point at parameter `t` on the line through `s`: `p + t * (q - p)`. */
  function At(s: Segment, t: real): Point {
    Point(s.p.x + t * (s.q.x - s.p.x), s.p.y + t * (s.q.y - s.p.y))
  }

  /** The segment with its endpoints swapped. */
  function Reverse(s: Segment): Segment {
    Segment(s.q, s.p)
  }

  /** The determinant of the two direction vectors; zero exactly when they are parallel. */
  function Denom(s1: Segment, s2: Segment): real {
    (s2.q.y - s2.p.y) * (s1.q.x - s1.p.x) - (s2.q.x - s2.p.x) * (s1.q.y - s1.p.y)
  }

  /** Numerator of the parameter along `s1`. */
  function NumA(s1: Segment, s2: Segment): real {
    (s2.q.x - s2.p.x) * (s1.p.y - s2.p.y) - (s2.q.y - s2.p.y) * (s1.p.x - s2.p.x)
  }

  /** Numerator of the parameter along `s2`. */
  function NumB(s1: Segment, s2: Segment): real {
    (s1.q.x - s1.p.x) * (s1.p.y - s2.p.y) - (s1.q.y - s1.p.y) * (s1.p.x - s2.p.x)
  }

  /** The parameter `ua` along `s1` of the crossing of the two lines. */
  function UA(s1: Segment, s2: Segment): real
    requires Denom(s1, s2) != 0.0
  {
    NumA(s1, s2) / Denom(s1, s2)
  }

  /** The parameter `ub` along `s2` of the crossing of the two lines. */
  function UB(s1: Segment, s2: Segment): real
    requires Denom(s1, s2) != 0.0
  {
    NumB(s1, s2) / Denom(s1, s2)
  }

  /**
   * `findIntersection`: none for parallel or collinear segments; otherwise
   * the crossing point of the two lines when both parameters lie in [0, 1].
   */
  function FindIntersection(s1: Segment, s2: Segment): Option<Point> {
    var denom := Denom(s1, s2);
    if denom == 0.0 then None
    else
      var ua := NumA(s1, s2) / denom;
      var ub := NumB(s1, s2) / denom;
      if 0.0 <= ua <= 1.0 && 0.0 <= ub <= 1.0 then Some(At(s1, ua)) else None
  }

  /** `p` lies on both closed segments. */
  ghost predicate CommonPoint(s1: Segment, s2: Segment, p: Point) {
    exists t, u :: 0.0 <= t <= 1.0 && 0.0 <= u <= 1.0 && At(s1, t) == p && At(s2, u) == p
  }

  /** Parallel and collinear pairs are never reported, overlapping or not. */
  lemma ParallelNeverIntersects(s1: Segment, s2: Segment)
    requires Denom(s1, s2) == 0.0
    ensures FindIntersection(s1, s2) == None
  {
  }

  // Cramer's rule, coordinate by coordinate, with the differences named:
  // a, b = direction of s1; c, e = direction of s2; f, g = s1.p - s2.p.

  lemma CrossingOnBothLines(a: real, b: real, c: real, e: real, f: real, g: real)
    ensures c * (a * g - b * f) - a * (c * g - e * f) == f * (e * a - c * b)
    ensures e * (a * g - b * f) - b * (c * g - e * f) == g * (e * a - c * b)
  {
  }

  lemma CrossingParameters(a: real, b: real, c: real, e: real, f: real, g: real, t: real, u: real)
    requires f + t * a == u * c && g + t * b == u * e
    ensures t * (e * a - c * b) == c * g - e * f
    ensures u * (e * a - c * b) == a * g - b * f
  {
    assert e * f + t * a * e == u * c * e;
    assert c * g + t * b * c == u * e * c;
    assert b * f + t * a * b == u * c * b;
    assert a * g + t * b * a == u * e * a;
  }

  /** Division by a non-zero real, as multiplication. */
  lemma DivUnique(n: real, d: real, t: real)
    requires d != 0.0 && t * d == n
    ensures n / d == t
  {
  }

  lemma ScaledDifference(n: real, m: real, d: real, c: real, a: real, f: real)
    requires d != 0.0 && n * c - m * a == f * d
    ensures (n / d) * c - (m / d) * a == f
  {
    assert (n / d) * c - (m / d) * a == (n * c - m * a) / d;
  }

  /** The parameters solved by Cramer's rule meet on both lines. */
  lemma CramerSolution(a: real, b: real, c: real, e: real, f: real, g: real, d: real, na: real, nb: real)
    requires d == e * a - c * b && d != 0.0
    requires na == c * g - e * f && nb == a * g - b * f
    ensures (nb / d) * c - (na / d) * a == f
    ensures (nb / d) * e - (na / d) * b == g
  {
    CrossingOnBothLines(a, b, c, e, f, g);
    ScaledDifference(nb, na, d, c, a, f);
    ScaledDifference(nb, na, d, e, b, g);
  }

  /**
   * Soundness: a reported point has both parameters in [0, 1], is
   * `P1 + ua * (P2 - P1)`, and is also `P3 + ub * (P4 - P3)`, so it lies on
   * both segments; endpoint touches (a parameter of 0 or 1) are included.
   */
  lemma FindIntersectionSound(s1: Segment, s2: Segment, p: Point)
    requires FindIntersection(s1, s2) == Some(p)
    ensures Denom(s1, s2) != 0.0
    ensures 0.0 <= UA(s1, s2) <= 1.0 && 0.0 <= UB(s1, s2) <= 1.0
    ensures p == At(s1, UA(s1, s2)) && p == At(s2, UB(s1, s2))
    ensures CommonPoint(s1, s2, p)
  {
    var d, na, nb := Denom(s1, s2), NumA(s1, s2), NumB(s1, s2);
    var ua, ub := UA(s1, s2), UB(s1, s2);
    assert ua == na / d && ub == nb / d;
    CramerSolution(s1.q.x - s1.p.x, s1.q.y - s1.p.y, s2.q.x - s2.p.x, s2.q.y - s2.p.y,
                   s1.p.x - s2.p.x, s1.p.y - s2.p.y, d, na, nb);
    assert At(s2, ub).x == At(s1, ua).x;
    assert At(s2, ub).y == At(s1, ua).y;
  }

  /**
   * Completeness: for non-parallel segments, any point on both closed
   * segments is reported.
   */
  lemma FindIntersectionComplete(s1: Segment, s2: Segment, t: real, u: real)
    requires Denom(s1, s2) != 0.0
    requires 0.0 <= t <= 1.0 && 0.0 <= u <= 1.0 && At(s1, t) == At(s2, u)
    ensures FindIntersection(s1, s2) == Some(At(s1, t))
  {
    var a, b := s1.q.x - s1.p.x, s1.q.y - s1.p.y;
    var c, e := s2.q.x - s2.p.x, s2.q.y - s2.p.y;
    var f, g := s1.p.x - s2.p.x, s1.p.y - s2.p.y;
    var d := Denom(s1, s2);
    assert d == e * a - c * b;
    assert f + t * a == u * c && g + t * b == u * e;
    CrossingParameters(a, b, c, e, f, g, t, u);
    DivUnique(NumA(s1, s2), d, t);
    DivUnique(NumB(s1, s2), d, u);
  }

  /** For non-parallel segments a point is reported exactly when it lies on both. */
  lemma FindIntersectionExact(s1: Segment, s2: Segment, p: Point)
    requires Denom(s1, s2) != 0.0
    ensures FindIntersection(s1, s2) == Some(p) <==> CommonPoint(s1, s2, p)
  {
    if FindIntersection(s1, s2) == Some(p) {
      FindIntersectionSound(s1, s2, p);
    }
    if CommonPoint(s1, s2, p) {
      var t, u :| 0.0 <= t <= 1.0 && 0.0 <= u <= 1.0 && At(s1, t) == p && At(s2, u) == p;
      FindIntersectionComplete(s1, s2, t, u);
    }
  }

  lemma DenomSwap(s1: Segment, s2: Segment)
    ensures Denom(s2, s1) == -Denom(s1, s2)
    ensures Denom(Reverse(s1), s2) == -Denom(s1, s2)
  {
  }

  lemma ReverseAt(s: Segment, t: real)
    ensures At(Reverse(s), 1.0 - t) == At(s, t)
  {
  }

  /** The test does not depend on which segment comes first. */
  lemma FindIntersectionSymmetric(s1: Segment, s2: Segment)
    ensures FindIntersection(s1, s2) == FindIntersection(s2, s1)
  {
    DenomSwap(s1, s2);
    if Denom(s1, s2) != 0.0 {
      var r := FindIntersection(s1, s2);
      if r.Some? {
        FindIntersectionSound(s1, s2, r.value);
        var t, u := UA(s1, s2), UB(s1, s2);
        FindIntersectionComplete(s2, s1, u, t);
      } else if FindIntersection(s2, s1).Some? {
        FindIntersectionSound(s2, s1, FindIntersection(s2, s1).value);
        FindIntersectionComplete(s1, s2, UB(s2, s1), UA(s2, s1));
      }
    }
  }

  /** The test does not depend on the order of the first segment's endpoints. */
  lemma FindIntersectionReverse(s1: Segment, s2: Segment)
    ensures FindIntersection(Reverse(s1), s2) == FindIntersection(s1, s2)
  {
    DenomSwap(s1, s2);
    if Denom(s1, s2) != 0.0 {
      var r := FindIntersection(s1, s2);
      if r.Some? {
        FindIntersectionSound(s1, s2, r.value);
        var t, u := UA(s1, s2), UB(s1, s2);
        ReverseAt(s1, t);
        FindIntersectionComplete(Reverse(s1), s2, 1.0 - t, u);
      } else if FindIntersection(Reverse(s1), s2).Some? {
        var rs := Reverse(s1);
        FindIntersectionSound(rs, s2, FindIntersection(rs, s2).value);
        var t, u := UA(rs, s2), UB(rs, s2);
        ReverseAt(rs, t);
        assert Reverse(rs) == s1;
        FindIntersectionComplete(s1, s2, 1.0 - t, u);
      }
    }
  }

  /**
   * Reversing either segment (`r1`, `r2`) and swapping the two (`sw`), in
   * any combination, gives the same answer.
   */
  lemma FindIntersectionOrientationFree(s1: Segment, s2: Segment, r1: bool, r2: bool, sw: bool)
    ensures var a := if r1 then Reverse(s1) else s1;
            var b := if r2 then Reverse(s2) else s2;
            FindIntersection(if sw then b else a, if sw then a else b) == FindIntersection(s1, s2)
  {
    var a := if r1 then Reverse(s1) else s1;
    var b := if r2 then Reverse(s2) else s2;
    if r1 { FindIntersectionReverse(s1, b); }
    FindIntersectionSymmetric(s1, b);
    if r2 { FindIntersectionReverse(s2, s1); }
    FindIntersectionSymmetric(s2, s1);
    FindIntersectionSymmetric(a, b);
  }

  /**
   * Two non-parallel segments that share an endpoint are reported at that
   * endpoint (here: the end of `s1` is the start of `s2`).
   */
  lemma SharedEndpointIsReported(s1: Segment, s2: Segment)
    requires s1.q == s2.p && Denom(s1, s2) != 0.0
    ensures FindIntersection(s1, s2) == Some(s1.q)
  {
    assert At(s1, 1.0) == s1.q;
    assert At(s2, 0.0) == s2.p;
    FindIntersectionComplete(s1, s2, 1.0, 0.0);
  }

  /** Two perpendicular segments crossing at the origin. */
  lemma PerpendicularCrossing()
    ensures FindIntersection(Segment(Point(0.0, -10.0), Point(0.0, 10.0)),
                             Segment(Point(-10.0, 0.0), Point(10.0, 0.0)))
         == Some(Point(0.0, 0.0))
  {
  }
}
