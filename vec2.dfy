/** Two-dimensional vector arithmetic and the clamped projection of a point
    onto a line segment (src/vec2.rs). Coordinates are exact reals. */
module Vectors {

  datatype Vec2 = Vec2(x: real, y: real)

  /** `f64::powi(a, 2)`. The product is kept behind `Times` so that the
      solver reasons about the square as one term. */
  function Pow2(a: real): real {
    Times(a, a)
  }

  function Times(a: real, b: real): real {
    a * b
  }

  function Scale(v: Vec2, factor: real): Vec2 {
    Vec2(v.x * factor, v.y * factor)
  }

  function ModulusSqr(v: Vec2): real {
    Pow2(v.x) + Pow2(v.y)
  }

  function Add(a: Vec2, b: Vec2): Vec2 {
    Vec2(a.x + b.x, a.y + b.y)
  }

  function Subtract(a: Vec2, b: Vec2): Vec2 {
    Vec2(a.x - b.x, a.y - b.y)
  }

  function Dot(a: Vec2, b: Vec2): real {
    a.x * b.x + a.y * b.y
  }

  function DistanceSqr(a: Vec2, b: Vec2): real {
    Pow2(b.x - a.x) + Pow2(b.y - a.y)
  }

  /** Rust's `f64::clamp(min, max)` for `min <= max`. */
  function Clamp(v: real, lo: real, hi: real): (r: real)
    requires lo <= hi
    ensures lo <= r <= hi
    ensures lo <= v <= hi ==> r == v
    ensures v < lo ==> r == lo
    ensures v > hi ==> r == hi
  {
    if v < lo then lo else if v > hi then hi else v
  }

  /** The point at parameter `t` on the segment from `p1` to `p2`, written
      independently of `Scale`/`Add`: the reference for what a projection returns. */
  function Lerp(p1: Vec2, p2: Vec2, t: real): Vec2 {
    Vec2(p1.x + t * (p2.x - p1.x), p1.y + t * (p2.y - p1.y))
  }

  /** `project_line_segment`: the point of segment p1-p2 nearest to `p`, and
      its parameter along the segment. A degenerate segment divides by zero in
      the source, so it is excluded. */
  function ProjectLineSegment(p: Vec2, p1: Vec2, p2: Vec2): (r: (Vec2, real))
    requires p1 != p2
    ensures 0.0 <= r.1 <= 1.0
    ensures r.0 == Lerp(p1, p2, r.1)
  {
    var x := Subtract(p, p1);
    var v := Subtract(p2, p1);
    NonDegenerate(p1, p2);
    var m := ModulusSqr(v);
    var dot := Clamp(Dot(x, v), 0.0, m);
    var t := dot / m;
    (Add(Scale(v, t), p1), t)
  }

  lemma Pow2NonNegative(a: real)
    ensures Pow2(a) >= 0.0
  {
    if a < 0.0 {
      assert Times(a, a) == Times(-a, -a);
    }
  }

  lemma Pow2Positive(a: real)
    requires a != 0.0
    ensures Pow2(a) > 0.0
  {
    if a > 0.0 {
      ProductPositive(a, a);
    } else {
      ProductPositive(-a, -a);
      assert Times(a, a) == Times(-a, -a);
    }
  }

  lemma Pow2ZeroOnlyAtZero(a: real)
    ensures Pow2(a) >= 0.0
    ensures Pow2(a) == 0.0 <==> a == 0.0
  {
    Pow2NonNegative(a);
    if a != 0.0 {
      Pow2Positive(a);
    }
  }

  lemma ProductPositive(a: real, b: real)
    requires a > 0.0 && b > 0.0
    ensures Times(a, b) > 0.0
  {
  }

  /** A segment with distinct endpoints has a positive squared length. */
  lemma NonDegenerate(p1: Vec2, p2: Vec2)
    requires p1 != p2
    ensures ModulusSqr(Subtract(p2, p1)) > 0.0
  {
    var v := Subtract(p2, p1);
    Pow2NonNegative(v.x);
    Pow2NonNegative(v.y);
    if v.x != 0.0 {
      Pow2Positive(v.x);
    } else {
      Pow2Positive(v.y);
    }
  }

  /** The squared length is never negative and is zero only for the zero
      vector. */
  lemma ModulusSqrProperties(v: Vec2)
    ensures ModulusSqr(v) >= 0.0
    ensures ModulusSqr(v) == 0.0 <==> v == Vec2(0.0, 0.0)
  {
    Pow2ZeroOnlyAtZero(v.x);
    Pow2ZeroOnlyAtZero(v.y);
  }

  /** Scaling by `factor` scales the squared length by `factor²`. */
  lemma ScaleModulus(v: Vec2, factor: real)
    ensures ModulusSqr(Scale(v, factor)) == Pow2(factor) * ModulusSqr(v)
  {
    var r := Scale(v, factor);
    assert Pow2(r.x) == Pow2(factor) * Pow2(v.x);
    assert Pow2(r.y) == Pow2(factor) * Pow2(v.y);
  }

  lemma SubtractAddInverse(a: Vec2, b: Vec2)
    ensures Add(Subtract(a, b), b) == a
  {
  }

  lemma AddSubtractInverse(a: Vec2, b: Vec2)
    ensures Subtract(Add(a, b), b) == a
  {
  }

  lemma AddCommutative(a: Vec2, b: Vec2)
    ensures Add(a, b) == Add(b, a)
  {
  }

  lemma DotSelf(a: Vec2)
    ensures Dot(a, a) == ModulusSqr(a)
  {
  }

  lemma DistanceSqrProperties(a: Vec2, b: Vec2)
    ensures DistanceSqr(a, b) >= 0.0
    ensures DistanceSqr(a, b) == DistanceSqr(b, a)
    ensures DistanceSqr(a, b) == ModulusSqr(Subtract(b, a))
    ensures DistanceSqr(a, b) == 0.0 <==> a == b
  {
    Pow2NonNegative(b.x - a.x);
    Pow2NonNegative(b.y - a.y);
    assert Pow2(b.x - a.x) == Pow2(a.x - b.x);
    assert Pow2(b.y - a.y) == Pow2(a.y - b.y);
    if a != b {
      NonDegenerate(a, b);
    }
  }

  /** The parameter 0 lands on the first endpoint and 1 on the second. */
  lemma LerpEndpoints(p1: Vec2, p2: Vec2)
    ensures Lerp(p1, p2, 0.0) == p1
    ensures Lerp(p1, p2, 1.0) == p2
  {
  }

  /** The squared distance from `p` to the point at parameter `s`, as a
      quadratic in `s`. */
  lemma DistanceAlong(p: Vec2, p1: Vec2, p2: Vec2, s: real)
    ensures DistanceSqr(p, Lerp(p1, p2, s))
         == ModulusSqr(Subtract(p, p1))
            - 2.0 * s * Dot(Subtract(p, p1), Subtract(p2, p1))
            + s * s * ModulusSqr(Subtract(p2, p1))
  {
    var x, v := Subtract(p, p1), Subtract(p2, p1);
    var q := Lerp(p1, p2, s);
    assert q.x - p.x == s * v.x - x.x;
    assert q.y - p.y == s * v.y - x.y;
    ExpandComponent(s, v.x, x.x);
    ExpandComponent(s, v.y, x.y);
  }

  lemma ExpandComponent(s: real, v: real, x: real)
    ensures Pow2(s * v - x) == s * s * Pow2(v) - 2.0 * s * (x * v) + Pow2(x)
  {
    assert (s * v - x) * (s * v - x) == s * s * (v * v) - 2.0 * s * (x * v) + x * x;
  }

  /** The projection is the nearest point of the whole segment: no point at a
      parameter in [0, 1] is closer to `p`. */
  lemma ProjectionIsNearest(p: Vec2, p1: Vec2, p2: Vec2, s: real)
    requires p1 != p2
    requires 0.0 <= s <= 1.0
    ensures DistanceSqr(p, ProjectLineSegment(p, p1, p2).0) <= DistanceSqr(p, Lerp(p1, p2, s))
  {
    var x, v := Subtract(p, p1), Subtract(p2, p1);
    NonDegenerate(p1, p2);
    var m, d := ModulusSqr(v), Dot(x, v);
    var t := ProjectLineSegment(p, p1, p2).1;
    DistanceAlong(p, p1, p2, s);
    DistanceAlong(p, p1, p2, t);
    if d <= 0.0 {
      assert t == 0.0;
      ClampedBelow(m, d, s);
    } else if d >= m {
      assert t == 1.0;
      ClampedAbove(m, d, s);
    } else {
      assert t == d / m;
      Interior(m, d, s, t);
    }
  }

  // The three cases of the clamp, for f(s) = s*s*m - 2*s*d, a parabola with
  // its minimum at d / m.

  lemma ClampedBelow(m: real, d: real, s: real)
    requires m > 0.0 && d <= 0.0 && 0.0 <= s
    ensures s * s * m - 2.0 * s * d >= 0.0
  {
    assert s * s * m == s * (s * m);
    assert s * m >= 0.0;
    assert s * (s * m) >= 0.0;
    assert s * d <= 0.0;
  }

  lemma ClampedAbove(m: real, d: real, s: real)
    requires m > 0.0 && d >= m && s <= 1.0
    ensures s * s * m - 2.0 * s * d >= 1.0 * 1.0 * m - 2.0 * 1.0 * d
  {
    assert (s * s * m - 2.0 * s * d) - (m - 2.0 * d) == (1.0 - s) * (2.0 * d - m * (s + 1.0));
    assert 2.0 * d - m * (s + 1.0) >= 0.0 by {
      assert m * (s + 1.0) <= m * 2.0;
    }
    assert (1.0 - s) * (2.0 * d - m * (s + 1.0)) >= 0.0;
  }

  lemma Interior(m: real, d: real, s: real, t: real)
    requires m > 0.0 && t == d / m
    ensures s * s * m - 2.0 * s * d >= t * t * m - 2.0 * t * d
  {
    assert d == t * m;
    assert (s * s * m - 2.0 * s * d) - (t * t * m - 2.0 * t * d) == m * Times(s - t, s - t);
    Pow2NonNegative(s - t);
  }

  /** Hence the projection is no farther from `p` than either endpoint. */
  lemma ProjectionCloserThanEndpoints(p: Vec2, p1: Vec2, p2: Vec2)
    requires p1 != p2
    ensures DistanceSqr(p, ProjectLineSegment(p, p1, p2).0) <= DistanceSqr(p, p1)
    ensures DistanceSqr(p, ProjectLineSegment(p, p1, p2).0) <= DistanceSqr(p, p2)
  {
    ProjectionIsNearest(p, p1, p2, 0.0);
    ProjectionIsNearest(p, p1, p2, 1.0);
    LerpEndpoints(p1, p2);
  }

  /** Projecting a projected point again changes neither the point nor its
      parameter. */
  lemma ProjectionIdempotent(p: Vec2, p1: Vec2, p2: Vec2)
    requires p1 != p2
    ensures ProjectLineSegment(ProjectLineSegment(p, p1, p2).0, p1, p2) == ProjectLineSegment(p, p1, p2)
  {
    var (q, t) := ProjectLineSegment(p, p1, p2);
    var v := Subtract(p2, p1);
    NonDegenerate(p1, p2);
    var m := ModulusSqr(v);
    assert Subtract(q, p1) == Scale(v, t);
    assert Dot(Scale(v, t), v) == t * m;
    assert 0.0 <= t * m <= m by {
      assert t * m <= 1.0 * m;
    }
    assert Clamp(t * m, 0.0, m) == t * m;
    assert t * m / m == t;
  }
}
