/** Points in viewport pixel coordinates and the Euclidean distance used by the
    pointer trail. JavaScript numbers are modelled as reals; `Math.sqrt` is not
    defined in Dafny, so the distance is a parameter `d` that every caller must
    supply, constrained by `Euclidean(d)` to be the non-negative square root of
    the squared distance. That constraint determines `d` uniquely. */
module Geometry {

  /** A pointer position (the source's `Point` interface). */
  datatype Point = Point(x: real, y: real)

  /** A distance function on points; `Euclidean` says which one. */
  type Metric = (Point, Point) -> real

  /** `dx * dx + dy * dy`, the radicand the source hands to `Math.sqrt`. */
  function SqDist(a: Point, b: Point): (s: real)
    ensures 0.0 <= s
  {
    var dx := a.x - b.x;
    var dy := a.y - b.y;
    assert 0.0 <= dx * dx && 0.0 <= dy * dy;
    dx * dx + dy * dy
  }

  /** `d` never returns a negative length. */
  ghost predicate NonNegative(d: Metric) {
    forall p, q :: 0.0 <= d(p, q)
  }

  /** `d` is `Math.sqrt(dx * dx + dy * dy)`: non-negative, and its square is the
      squared distance. */
  ghost predicate Euclidean(d: Metric) {
    forall p, q :: 0.0 <= d(p, q) && d(p, q) * d(p, q) == SqDist(p, q)
  }

  /** A Euclidean distance is non-negative. */
  lemma EuclideanIsNonNegative(d: Metric)
    requires Euclidean(d)
    ensures NonNegative(d)
  {
  }

  /** Moving a fraction `t >= 0` of the way along any segment covers `t` times
      its length under `d`. */
  ghost predicate ScalesAlongSegments(d: Metric) {
    forall p, q, t :: 0.0 <= t ==> d(p, Lerp(p, q, t)) == t * d(p, q)
  }

  /** The midpoint of two points, used as the on-curve endpoint of a curve segment. */
  function Mid(a: Point, b: Point): Point {
    Point((a.x + b.x) / 2.0, (a.y + b.y) / 2.0)
  }

  /** The point `2 m - a`: the mirror image of `a` through `m`. */
  function Reflect(m: Point, a: Point): (r: Point)
    ensures Mid(a, r) == m
  {
    Point(2.0 * m.x - a.x, 2.0 * m.y - a.y)
  }

  /** The point a fraction `t` of the way from `from` toward `toward`, written as
      the source writes it: `from - (from - toward) * t`. */
  function Lerp(from: Point, toward: Point, t: real): Point {
    Point(from.x - (from.x - toward.x) * t, from.y - (from.y - toward.y) * t)
  }

  /** Reflecting the first point through the midpoint gives back the second. */
  lemma ReflectMid(a: Point, b: Point)
    ensures Reflect(Mid(a, b), a) == b
  {
  }

  /** The product of two positive reals is positive. */
  lemma PositiveProduct(a: real, b: real)
    requires 0.0 < a && 0.0 < b
    ensures 0.0 < a * b
  {
  }

  /** Two non-negative reals with the same square are equal. */
  lemma SquareRootUnique(a: real, b: real)
    requires 0.0 <= a && 0.0 <= b
    requires a * a == b * b
    ensures a == b
  {
    assert (a - b) * (a + b) == a * a - b * b;
    if a + b == 0.0 {
      assert a == 0.0 && b == 0.0;
    } else {
      assert (a - b) * (a + b) == 0.0;
      assert a - b == ((a - b) * (a + b)) / (a + b);
    }
  }

  /** Comparing the square root with a non-negative threshold is the same as
      comparing the radicand with the threshold's square. */
  lemma DistanceExceedsIff(d: Metric, p: Point, q: Point, m: real)
    requires Euclidean(d)
    requires 0.0 <= m
    ensures d(p, q) > m <==> SqDist(p, q) > m * m
  {
    var r := d(p, q);
    assert 0.0 <= r && r * r == SqDist(p, q);
    if r > m {
      assert r - m > 0.0 && r + m > 0.0;
      PositiveProduct(r - m, r + m);
      assert r * r - m * m == (r - m) * (r + m);
      assert r * r > m * m;
      assert SqDist(p, q) > m * m;
    } else {
      assert m * m - r * r == (m - r) * (m + r);
      assert (m - r) * (m + r) >= 0.0;
    }
  }

  /** Moving a fraction `t >= 0` of the way along a segment covers `t` times its
      length. */
  lemma LerpScalesDistance(d: Metric, p: Point, q: Point, t: real)
    requires Euclidean(d)
    requires 0.0 <= t
    ensures d(p, Lerp(p, q, t)) == t * d(p, q)
  {
    var l := Lerp(p, q, t);
    var dx := p.x - q.x;
    var dy := p.y - q.y;
    assert p.x - l.x == dx * t && p.y - l.y == dy * t;
    assert SqDist(p, l) == (dx * t) * (dx * t) + (dy * t) * (dy * t);
    assert (dx * t) * (dx * t) + (dy * t) * (dy * t) == (t * t) * (dx * dx + dy * dy);
    var a := d(p, l);
    var b := d(p, q);
    assert a * a == SqDist(p, l) && b * b == SqDist(p, q);
    assert a * a == (t * b) * (t * b);
    assert 0.0 <= t * b;
    SquareRootUnique(a, t * b);
  }

  /** A Euclidean distance scales along segments. */
  lemma EuclideanScales(d: Metric)
    requires Euclidean(d)
    ensures ScalesAlongSegments(d)
  {
    forall p, q, t | 0.0 <= t
      ensures d(p, Lerp(p, q, t)) == t * d(p, q)
    {
      LerpScalesDistance(d, p, q, t);
    }
  }
}
