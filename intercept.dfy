/**
 * The two-curve intersection engine of `interpolated_intercept`: two curves
 * sampled on a common x axis are compared sample by sample, every adjacent
 * pair of samples where the sign of their difference changes is a bracket,
 * and on each bracket the two straight segments are intersected with
 * Cramer's rule.  Arithmetic is exact (`real`) in place of floating point.
 */
module Intercept {

  datatype Option<T> = None | Some(value: T)

  /** An (x, y) pair. */
  datatype Point = Point(x: real, y: real)

  /** The implicit line a*x + b*y == c, as the triple `line` returns. */
  datatype Line = Line(a: real, b: real, c: real)

  predicate OnLine(l: Line, p: Point)
  {
    l.a * p.x + l.b * p.y == l.c
  }

  /** q lies on the straight line through p1 and p2 (any q when p1 == p2). */
  predicate Collinear(p1: Point, p2: Point, q: Point)
  {
    (q.x - p1.x) * (p2.y - p1.y) == (q.y - p1.y) * (p2.x - p1.x)
  }

  /**
   * `line(p1, p2)`: A = p1.y - p2.y, B = p2.x - p1.x and, as the third
   * coefficient, the negation of C = p1.x * p2.y - p2.x * p1.y.
   */
  function LineThrough(p1: Point, p2: Point): Line
  {
    Line(p1.y - p2.y, p2.x - p1.x, p2.x * p1.y - p1.x * p2.y)
  }

  /** `line(p1, p2)` passes through p1 and p2, and is a proper line when they differ. */
  lemma LineThroughEndpoints(p1: Point, p2: Point)
    ensures OnLine(LineThrough(p1, p2), p1) && OnLine(LineThrough(p1, p2), p2)
    ensures p1 != p2 ==> LineThrough(p1, p2).a != 0.0 || LineThrough(p1, p2).b != 0.0
  {
  }

  /** A point is on `line(p1, p2)` exactly when it is collinear with p1 and p2. */
  lemma LineThroughIsCollinear(p1: Point, p2: Point, q: Point)
    ensures OnLine(LineThrough(p1, p2), q) <==> Collinear(p1, p2, q)
  {
    var l := LineThrough(p1, p2);
    assert (q.x - p1.x) * (p2.y - p1.y) - (q.y - p1.y) * (p2.x - p1.x)
        == -(l.a * q.x + l.b * q.y - l.c);
  }

  /** The determinant D of the 2x2 system formed by two lines. */
  function Determinant(l1: Line, l2: Line): real
  {
    l1.a * l2.b - l1.b * l2.a
  }

  /** Cramer's numerator for x. */
  function DeterminantX(l1: Line, l2: Line): real
  {
    l1.c * l2.b - l1.b * l2.c
  }

  /** Cramer's numerator for y. */
  function DeterminantY(l1: Line, l2: Line): real
  {
    l1.a * l2.c - l1.c * l2.a
  }

  /** Any common point of two lines satisfies Cramer's equations. */
  lemma CommonPointSolvesCramer(l1: Line, l2: Line, q: Point)
    requires OnLine(l1, q) && OnLine(l2, q)
    ensures q.x * Determinant(l1, l2) == DeterminantX(l1, l2)
    ensures q.y * Determinant(l1, l2) == DeterminantY(l1, l2)
  {
    assert q.x * Determinant(l1, l2) == l2.b * (l1.a * q.x) - l1.b * (l2.a * q.x);
    assert l1.a * q.x == l1.c - l1.b * q.y;
    assert l2.a * q.x == l2.c - l2.b * q.y;
    assert q.y * Determinant(l1, l2) == l1.a * (l2.b * q.y) - l2.a * (l1.b * q.y);
    assert l2.b * q.y == l2.c - l2.a * q.x;
    assert l1.b * q.y == l1.c - l1.a * q.x;
  }

  /** Cramer's solution lies on both lines when D is not zero. */
  lemma CramerSolutionOnBoth(l1: Line, l2: Line)
    requires Determinant(l1, l2) != 0.0
    ensures OnLine(l1, Point(DeterminantX(l1, l2) / Determinant(l1, l2), DeterminantY(l1, l2) / Determinant(l1, l2)))
    ensures OnLine(l2, Point(DeterminantX(l1, l2) / Determinant(l1, l2), DeterminantY(l1, l2) / Determinant(l1, l2)))
  {
    var d, dx, dy := Determinant(l1, l2), DeterminantX(l1, l2), DeterminantY(l1, l2);
    var px, py := dx / d, dy / d;
    assert px * d == dx && py * d == dy;
    assert l1.a * dx + l1.b * dy == l1.c * d;
    assert l2.a * dx + l2.b * dy == l2.c * d;
    assert (l1.a * px + l1.b * py) * d == l1.c * d;
    assert (l2.a * px + l2.b * py) * d == l2.c * d;
  }

  /**
   * `intersection(L1, L2)`: x = Dx / D and y = Dy / D.  When D is zero the
   * divisions have no finite value; None stands for that.
   */
  function Intersection(l1: Line, l2: Line): (r: Option<Point>)
    ensures r.Some? <==> Determinant(l1, l2) != 0.0
    ensures r.Some? ==> OnLine(l1, r.value) && OnLine(l2, r.value)
  {
    var d := Determinant(l1, l2);
    if d == 0.0 then None
    else
      CramerSolutionOnBoth(l1, l2);
      Some(Point(DeterminantX(l1, l2) / d, DeterminantY(l1, l2) / d))
  }

  /** When D is not zero, the solution is the only point on both lines. */
  lemma IntersectionUnique(l1: Line, l2: Line, q: Point)
    requires Determinant(l1, l2) != 0.0
    requires OnLine(l1, q) && OnLine(l2, q)
    ensures Intersection(l1, l2) == Some(q)
  {
    CommonPointSolvesCramer(l1, l2, q);
    var d := Determinant(l1, l2);
    assert q.x == DeterminantX(l1, l2) / d;
    assert q.y == DeterminantY(l1, l2) / d;
  }

  /** `intercept(point1, point2, point3, point4)`: where the line through the first two points meets the line through the last two. */
  function Intercept(p1: Point, p2: Point, p3: Point, p4: Point): Option<Point>
  {
    Intersection(LineThrough(p1, p2), LineThrough(p3, p4))
  }

  /** A point on both lines, when D is not zero, is the value of `intercept`. */
  lemma InterceptAt(p1: Point, p2: Point, p3: Point, p4: Point, q: Point)
    requires Determinant(LineThrough(p1, p2), LineThrough(p3, p4)) != 0.0
    requires Collinear(p1, p2, q) && Collinear(p3, p4, q)
    ensures Intercept(p1, p2, p3, p4) == Some(q)
  {
    LineThroughIsCollinear(p1, p2, q);
    LineThroughIsCollinear(p3, p4, q);
    IntersectionUnique(LineThrough(p1, p2), LineThrough(p3, p4), q);
  }

  /** The example in the docstring of `intercept`. */
  lemma InterceptDocExample()
    ensures Intercept(Point(0.0, 0.0), Point(1.0, 1.0), Point(0.0, 1.0), Point(1.0, 0.0)) == Some(Point(0.5, 0.5))
  {
    var l1 := LineThrough(Point(0.0, 0.0), Point(1.0, 1.0));
    assert l1.a == -1.0;
    assert l1.b == 1.0;
    var l2 := LineThrough(Point(0.0, 1.0), Point(1.0, 0.0));
    assert l2.a == 1.0;
    assert l2.b == 1.0;
    assert Determinant(l1, l2) == -2.0;
    InterceptAt(Point(0.0, 0.0), Point(1.0, 1.0), Point(0.0, 1.0), Point(1.0, 0.0), Point(0.5, 0.5));
  }

  /** `np.sign`: -1, 0 or 1. */
  function Sign(v: real): (s: int)
    ensures s == -1 || s == 0 || s == 1
    ensures (s == 1 <==> v > 0.0) && (s == -1 <==> v < 0.0)
  {
    if v > 0.0 then 1 else if v < 0.0 then -1 else 0
  }

  /** `y1 - y2`, sample by sample. */
  function Difference(y1: seq<real>, y2: seq<real>): (d: seq<real>)
    requires |y1| == |y2|
    ensures |d| == |y1|
    ensures forall i :: 0 <= i < |d| ==> d[i] == y1[i] - y2[i]
  {
    seq(|y1|, i requires 0 <= i < |y1| => y1[i] - y2[i])
  }

  /** The sign of d changes between samples i and i + 1 (zero is a sign of its own). */
  predicate SignChangeAt(d: seq<real>, i: int)
    requires 0 <= i < |d| - 1
  {
    Sign(d[i]) != Sign(d[i + 1])
  }

  predicate StrictlyIncreasing(s: seq<int>)
  {
    forall j, k :: 0 <= j < k < |s| ==> s[j] < s[k]
  }

  /** The brackets of d at or after index lo, in increasing order. */
  function BracketsFrom(d: seq<real>, lo: nat): (r: seq<int>)
    decreases |d| - lo
    ensures forall k :: 0 <= k < |r| ==> lo <= r[k] < |d| - 1 && SignChangeAt(d, r[k])
    ensures forall i :: lo <= i < |d| - 1 && SignChangeAt(d, i) ==> i in r
    ensures StrictlyIncreasing(r)
  {
    if lo + 1 >= |d| then []
    else if SignChangeAt(d, lo) then [lo] + BracketsFrom(d, lo + 1)
    else BracketsFrom(d, lo + 1)
  }

  /**
   * `np.argwhere(np.diff(np.sign(y1 - y2)) != 0)`: every index i whose
   * sign of y1 - y2 differs from that at i + 1, in increasing order.
   */
  function Brackets(y1: seq<real>, y2: seq<real>): (r: seq<int>)
    requires |y1| == |y2|
    ensures forall k :: 0 <= k < |r| ==> 0 <= r[k] < |y1| - 1
    ensures forall i :: 0 <= i < |y1| - 1 ==>
              (i in r <==> Sign(y1[i] - y2[i]) != Sign(y1[i + 1] - y2[i + 1]))
    ensures StrictlyIncreasing(r)
    ensures r == [] <==> forall i :: 0 <= i < |y1| - 1 ==> Sign(y1[i] - y2[i]) == Sign(y1[i + 1] - y2[i + 1])
  {
    var d := Difference(y1, y2);
    var r := BracketsFrom(d, 0);
    assert forall i :: 0 <= i < |y1| - 1 ==> (SignChangeAt(d, i) <==> Sign(y1[i] - y2[i]) != Sign(y1[i + 1] - y2[i + 1]));
    assert r != [] ==> r[0] in r;
    r
  }

  /**
   * The intercept of the two segments on bracket i.  When x[i] < x[i+1] and
   * the sign of y1 - y2 changes there, it exists, its x lies in
   * [x[i], x[i+1]], and both piecewise-linear curves take its y there.
   */
  function BracketIntercept(x: seq<real>, y1: seq<real>, y2: seq<real>, i: int): (p: Option<Point>)
    requires |x| == |y1| == |y2|
    requires 0 <= i < |x| - 1
    ensures x[i] < x[i + 1] && Sign(y1[i] - y2[i]) != Sign(y1[i + 1] - y2[i + 1]) ==>
              && p.Some?
              && x[i] <= p.value.x <= x[i + 1]
              && p.value.y == Interp(x[i], y1[i], x[i + 1], y1[i + 1], p.value.x)
              && p.value.y == Interp(x[i], y2[i], x[i + 1], y2[i + 1], p.value.x)
  {
    if x[i] < x[i + 1] && Sign(y1[i] - y2[i]) != Sign(y1[i + 1] - y2[i + 1]) then
      SegmentCrossing(x[i], x[i + 1], y1[i], y1[i + 1], y2[i], y2[i + 1]);
      Intercept(Point(x[i], y1[i]), Point(x[i + 1], y1[i + 1]), Point(x[i], y2[i]), Point(x[i + 1], y2[i + 1]))
    else
      Intercept(Point(x[i], y1[i]), Point(x[i + 1], y1[i + 1]), Point(x[i], y2[i]), Point(x[i + 1], y2[i + 1]))
  }

  /**
   * `interpolated_intercept(x, y1, y2)`: the intercept on every bracket, in
   * bracket order.  An entry is None where the division has no finite value.
   * On an x axis that increases strictly, every entry is a finite point,
   * between the samples of its bracket, where the two curves agree.
   */
  function InterpolatedIntercept(x: seq<real>, y1: seq<real>, y2: seq<real>): (r: seq<Option<Point>>)
    requires |x| == |y1| == |y2|
    ensures |r| == |Brackets(y1, y2)|
    ensures forall k :: 0 <= k < |r| ==> r[k] == BracketIntercept(x, y1, y2, Brackets(y1, y2)[k])
    ensures var b := Brackets(y1, y2);
            (forall j, k :: 0 <= j < k < |x| ==> x[j] < x[k]) ==>
            forall k :: 0 <= k < |r| ==>
              && r[k].Some?
              && x[b[k]] <= r[k].value.x <= x[b[k] + 1]
              && r[k].value.y == Interp(x[b[k]], y1[b[k]], x[b[k] + 1], y1[b[k] + 1], r[k].value.x)
              && r[k].value.y == Interp(x[b[k]], y2[b[k]], x[b[k] + 1], y2[b[k] + 1], r[k].value.x)
  {
    var b := Brackets(y1, y2);
    var r := seq(|b|, k requires 0 <= k < |b| => BracketIntercept(x, y1, y2, b[k]));
    assert forall k :: 0 <= k < |r| ==> b[k] in b;
    r
  }

  /** The value at x of the straight segment from (x0, v0) to (x1, v1). */
  function Interp(x0: real, v0: real, x1: real, v1: real, x: real): real
    requires x0 != x1
  {
    v0 + (v1 - v0) * ((x - x0) / (x1 - x0))
  }

  /**
   * For the segments (xa, ua)-(xb, ub) and (xa, va)-(xb, vb) over the same
   * two abscissae, D == (xb - xa) * ((ua - va) - (ub - vb)).
   */
  lemma SegmentDeterminant(xa: real, xb: real, ua: real, ub: real, va: real, vb: real)
    ensures Determinant(LineThrough(Point(xa, ua), Point(xb, ub)), LineThrough(Point(xa, va), Point(xb, vb)))
            == (xb - xa) * ((ua - va) - (ub - vb))
  {
    var l1 := LineThrough(Point(xa, ua), Point(xb, ub));
    var l2 := LineThrough(Point(xa, va), Point(xb, vb));
    assert l1.a == ua - ub && l1.b == xb - xa;
    assert l2.a == va - vb && l2.b == xb - xa;
    assert Determinant(l1, l2) == (ua - ub) * (xb - xa) - (xb - xa) * (va - vb);
  }

  /** The point a fraction t of the way from p1 to p2 is on their line. */
  lemma SegmentPointCollinear(p1: Point, p2: Point, t: real)
    ensures Collinear(p1, p2, Point(p1.x + t * (p2.x - p1.x), p1.y + t * (p2.y - p1.y)))
  {
    var dx, dy := p2.x - p1.x, p2.y - p1.y;
    assert (t * dx) * dy == (t * dy) * dx;
  }

  /** Where a difference changes sign from d0 to d1, its zero is a fraction t in [0, 1] of the way. */
  lemma CrossingFraction(d0: real, d1: real)
    requires Sign(d0) != Sign(d1)
    ensures d0 != d1
    ensures 0.0 <= d0 / (d0 - d1) <= 1.0
    ensures d0 / (d0 - d1) * (d0 - d1) == d0
  {
    if d0 > 0.0 {
      assert d0 - d1 >= d0;
    } else if d0 < 0.0 {
      assert d0 - d1 <= d0;
    }
  }

  /** Interp at the abscissa a fraction t in [0, 1] of the way along the segment. */
  lemma InterpAtFraction(x0: real, v0: real, x1: real, v1: real, t: real)
    requires x0 < x1
    requires 0.0 <= t <= 1.0
    ensures Interp(x0, v0, x1, v1, x0 + t * (x1 - x0)) == v0 + t * (v1 - v0)
    ensures x0 <= x0 + t * (x1 - x0) <= x1
  {
    var dx := x1 - x0;
    assert (x0 + t * dx - x0) / dx == t;
    assert t * dx <= dx;
  }

  /**
   * Where the difference of two segments over xa < xb vanishes a fraction t
   * of the way along, `intercept` returns that point.
   */
  lemma SegmentInterceptAt(xa: real, xb: real, ua: real, ub: real, va: real, vb: real, t: real)
    requires xa < xb
    requires ua - va != ub - vb
    requires (ua + t * (ub - ua)) - (va + t * (vb - va)) == 0.0
    ensures Intercept(Point(xa, ua), Point(xb, ub), Point(xa, va), Point(xb, vb))
            == Some(Point(xa + t * (xb - xa), ua + t * (ub - ua)))
  {
    var pu, pv := Point(xa + t * (xb - xa), ua + t * (ub - ua)), Point(xa + t * (xb - xa), va + t * (vb - va));
    assert pu == pv;
    SegmentDeterminant(xa, xb, ua, ub, va, vb);
    assert (xb - xa) * ((ua - va) - (ub - vb)) != 0.0;
    SegmentPointCollinear(Point(xa, ua), Point(xb, ub), t);
    SegmentPointCollinear(Point(xa, va), Point(xb, vb), t);
    InterceptAt(Point(xa, ua), Point(xb, ub), Point(xa, va), Point(xb, vb), pu);
  }

  /**
   * Two segments over xa < xb whose difference vanishes a fraction t in
   * [0, 1] of the way along meet there, inside [xa, xb], where both
   * segments take the same value.
   */
  lemma SegmentMeetingAt(xa: real, xb: real, ua: real, ub: real, va: real, vb: real, t: real)
    requires xa < xb && 0.0 <= t <= 1.0
    requires ua - va != ub - vb
    requires (ua + t * (ub - ua)) - (va + t * (vb - va)) == 0.0
    ensures Intercept(Point(xa, ua), Point(xb, ub), Point(xa, va), Point(xb, vb)).Some?
    ensures var p := Intercept(Point(xa, ua), Point(xb, ub), Point(xa, va), Point(xb, vb)).value;
            && xa <= p.x <= xb
            && p.y == Interp(xa, ua, xb, ub, p.x)
            && p.y == Interp(xa, va, xb, vb, p.x)
  {
    var x, y := xa + t * (xb - xa), ua + t * (ub - ua);
    SegmentInterceptAt(xa, xb, ua, ub, va, vb, t);
    assert Intercept(Point(xa, ua), Point(xb, ub), Point(xa, va), Point(xb, vb)) == Some(Point(x, y));
    InterpAtFraction(xa, ua, xb, ub, t);
    InterpAtFraction(xa, va, xb, vb, t);
    assert Interp(xa, ua, xb, ub, x) == y;
    assert Interp(xa, va, xb, vb, x) == va + t * (vb - va) == y;
  }

  /**
   * Two segments over xa < xb whose difference changes sign meet at one
   * point, inside [xa, xb], where both segments take the same value.
   */
  lemma SegmentCrossing(xa: real, xb: real, ua: real, ub: real, va: real, vb: real)
    requires xa < xb
    requires Sign(ua - va) != Sign(ub - vb)
    ensures Intercept(Point(xa, ua), Point(xb, ub), Point(xa, va), Point(xb, vb)).Some?
    ensures var p := Intercept(Point(xa, ua), Point(xb, ub), Point(xa, va), Point(xb, vb)).value;
            && xa <= p.x <= xb
            && p.y == Interp(xa, ua, xb, ub, p.x)
            && p.y == Interp(xa, va, xb, vb, p.x)
  {
    var d0, d1 := ua - va, ub - vb;
    CrossingFraction(d0, d1);
    var t := d0 / (d0 - d1);
    assert (ua + t * (ub - ua)) - (va + t * (vb - va)) == 0.0 by {
      assert (ua + t * (ub - ua)) - (va + t * (vb - va)) == d0 - t * (d0 - d1);
    }
    SegmentMeetingAt(xa, xb, ua, ub, va, vb, t);
  }

  /**
   * On a bracket, D == (x[i+1] - x[i]) * (d[i] - d[i+1]); with x[i] < x[i+1]
   * it is not zero, so both divisions of `intersection` are defined.
   */
  lemma BracketDeterminant(x: seq<real>, y1: seq<real>, y2: seq<real>, i: int)
    requires |x| == |y1| == |y2|
    requires 0 <= i < |x| - 1
    ensures var l1 := LineThrough(Point(x[i], y1[i]), Point(x[i + 1], y1[i + 1]));
            var l2 := LineThrough(Point(x[i], y2[i]), Point(x[i + 1], y2[i + 1]));
            Determinant(l1, l2) == (x[i + 1] - x[i]) * ((y1[i] - y2[i]) - (y1[i + 1] - y2[i + 1]))
    ensures x[i] < x[i + 1] && Sign(y1[i] - y2[i]) != Sign(y1[i + 1] - y2[i + 1]) ==>
            var l1 := LineThrough(Point(x[i], y1[i]), Point(x[i + 1], y1[i + 1]));
            var l2 := LineThrough(Point(x[i], y2[i]), Point(x[i + 1], y2[i + 1]));
            Determinant(l1, l2) != 0.0
  {
    SegmentDeterminant(x[i], x[i + 1], y1[i], y1[i + 1], y2[i], y2[i + 1]);
    if x[i] < x[i + 1] && Sign(y1[i] - y2[i]) != Sign(y1[i + 1] - y2[i + 1]) {
      CrossingFraction(y1[i] - y2[i], y1[i + 1] - y2[i + 1]);
      assert (x[i + 1] - x[i]) * ((y1[i] - y2[i]) - (y1[i + 1] - y2[i + 1])) != 0.0;
    }
  }

  /**
   * On an x axis that increases strictly the entries of
   * `interpolated_intercept` come in non-decreasing x, as the brackets do.
   */
  lemma InterceptsInIncreasingOrder(x: seq<real>, y1: seq<real>, y2: seq<real>)
    requires |x| == |y1| == |y2|
    requires forall j, k :: 0 <= j < k < |x| ==> x[j] < x[k]
    ensures var r := InterpolatedIntercept(x, y1, y2);
            forall k :: 0 <= k < |r| ==> r[k].Some?
    ensures var r := InterpolatedIntercept(x, y1, y2);
            forall j, k :: 0 <= j < k < |r| ==> r[j].value.x <= r[k].value.x
  {
    BracketedInOrder(x, Brackets(y1, y2), InterpolatedIntercept(x, y1, y2));
  }

  /** Points lying in brackets that follow one another along an increasing axis come in order. */
  lemma BracketedInOrder(x: seq<real>, b: seq<int>, r: seq<Option<Point>>)
    requires |b| == |r| && StrictlyIncreasing(b)
    requires forall j, k :: 0 <= j < k < |x| ==> x[j] < x[k]
    requires forall k :: 0 <= k < |r| ==> 0 <= b[k] < |x| - 1 && r[k].Some? && x[b[k]] <= r[k].value.x <= x[b[k] + 1]
    ensures forall j, k :: 0 <= j < k < |r| ==> r[j].value.x <= r[k].value.x
  {
    forall j, k | 0 <= j < k < |r|
      ensures r[j].value.x <= r[k].value.x
    {
      assert b[j] + 1 <= b[k];
      assert x[b[j] + 1] <= x[b[k]];
    }
  }

  /** Two curves whose difference keeps one sign have no intercept. */
  lemma NoSignChangeNoIntercept(x: seq<real>, y1: seq<real>, y2: seq<real>)
    requires |x| == |y1| == |y2|
    requires forall i :: 0 <= i < |x| ==> Sign(y1[i] - y2[i]) == Sign(y1[0] - y2[0])
    ensures InterpolatedIntercept(x, y1, y2) == []
  {
  }

  /** Segments that meet at their right end (only) intersect there. */
  lemma SegmentsMeetAtRightEnd(xa: real, xb: real, ua: real, ub: real, va: real, vb: real)
    requires xa < xb && ua != va && ub == vb
    ensures Intercept(Point(xa, ua), Point(xb, ub), Point(xa, va), Point(xb, vb)) == Some(Point(xb, ub))
  {
    var t := 1.0;
    assert (ua + t * (ub - ua)) - (va + t * (vb - va)) == 0.0;
    SegmentInterceptAt(xa, xb, ua, ub, va, vb, t);
    assert Point(xa + t * (xb - xa), ua + t * (ub - ua)) == Point(xb, ub);
  }

  /** Segments that meet at their left end (only) intersect there. */
  lemma SegmentsMeetAtLeftEnd(xa: real, xb: real, ua: real, ub: real, va: real, vb: real)
    requires xa < xb && ua == va && ub != vb
    ensures Intercept(Point(xa, ua), Point(xb, ub), Point(xa, va), Point(xb, vb)) == Some(Point(xa, ua))
  {
    var t := 0.0;
    assert (ua + t * (ub - ua)) - (va + t * (vb - va)) == 0.0;
    SegmentInterceptAt(xa, xb, ua, ub, va, vb, t);
    assert Point(xa + t * (xb - xa), ua + t * (ub - ua)) == Point(xa, ua);
  }

  /** Brackets j - 1 and j, when both reported, are neighbours in the list. */
  lemma ConsecutiveBrackets(y1: seq<real>, y2: seq<real>, j: int) returns (k: int)
    requires |y1| == |y2|
    requires 0 < j < |y1| - 1
    requires Sign(y1[j - 1] - y2[j - 1]) != Sign(y1[j] - y2[j])
    requires Sign(y1[j] - y2[j]) != Sign(y1[j + 1] - y2[j + 1])
    ensures 0 <= k < |Brackets(y1, y2)| - 1
    ensures Brackets(y1, y2)[k] == j - 1 && Brackets(y1, y2)[k + 1] == j
  {
    var b := Brackets(y1, y2);
    assert j - 1 in b && j in b;
    k :| 0 <= k < |b| && b[k] == j - 1;
    var m :| 0 <= m < |b| && b[m] == j;
    IncreasingGap(b, k, m);
  }

  /** In a strictly increasing list of integers, values one apart sit side by side. */
  lemma IncreasingGap(s: seq<int>, k: int, m: int)
    requires StrictlyIncreasing(s)
    requires 0 <= k < |s| && 0 <= m < |s| && s[m] == s[k] + 1
    ensures m == k + 1
  {
    var lo, hi := if k < m then k else m, if k < m then m else k;
    assert lo < hi && s[lo] < s[hi];
    assert k < m;
    assert s[k] < s[k + 1] <= s[m];
  }

  /**
   * Where the curves meet exactly at an interior sample j and differ at its
   * neighbours, zero is a sign of its own, so both brackets j - 1 and j are
   * reported, one after the other, and both give the point (x[j], y1[j]):
   * the same crossing appears twice.
   */
  lemma MeetingAtSampleReportedTwice(x: seq<real>, y1: seq<real>, y2: seq<real>, j: int)
    requires |x| == |y1| == |y2|
    requires 0 < j < |x| - 1
    requires x[j - 1] < x[j] < x[j + 1]
    requires y1[j] == y2[j] && y1[j - 1] != y2[j - 1] && y1[j + 1] != y2[j + 1]
    ensures var r := InterpolatedIntercept(x, y1, y2);
            exists k :: 0 <= k < |r| - 1 && Brackets(y1, y2)[k] == j - 1
                        && r[k] == Some(Point(x[j], y1[j])) && r[k + 1] == Some(Point(x[j], y1[j]))
  {
    var k := ConsecutiveBrackets(y1, y2, j);
    TouchingBrackets(x, y1, y2, j);
    var r, p := InterpolatedIntercept(x, y1, y2), Some(Point(x[j], y1[j]));
    assert r[k] == BracketIntercept(x, y1, y2, j - 1);
    assert r[k + 1] == BracketIntercept(x, y1, y2, j);
    assert 0 <= k < |r| - 1 && Brackets(y1, y2)[k] == j - 1 && r[k] == p && r[k + 1] == p;
  }

  /** Both brackets around a sample where the curves touch have that sample as their intercept. */
  lemma TouchingBrackets(x: seq<real>, y1: seq<real>, y2: seq<real>, j: int)
    requires |x| == |y1| == |y2|
    requires 0 < j < |x| - 1
    requires x[j - 1] < x[j] < x[j + 1]
    requires y1[j] == y2[j] && y1[j - 1] != y2[j - 1] && y1[j + 1] != y2[j + 1]
    ensures BracketIntercept(x, y1, y2, j - 1) == Some(Point(x[j], y1[j]))
    ensures BracketIntercept(x, y1, y2, j) == Some(Point(x[j], y1[j]))
  {
    SegmentsMeetAtRightEnd(x[j - 1], x[j], y1[j - 1], y1[j], y2[j - 1], y2[j]);
    SegmentsMeetAtLeftEnd(x[j], x[j + 1], y1[j], y1[j + 1], y2[j], y2[j + 1]);
  }
}
