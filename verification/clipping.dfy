/**
 * Cohen-Sutherland segment clipping (`Algorithms2D::computeOutCode` and
 * `Algorithms2D::cohenSutherlandClip`) over exact reals.
 *
 * `Clip` is the reference: one recursive call per iteration of
 * `cohenSutherlandClip`'s loop.  `CohenSutherlandClip` is the loop itself, with its two out-code
 * variables, proved to compute `Clip`.  `cohenSutherlandClip`'s `double`s are `real`s
 * here, so intersection points are exact.
 */
module CohenSutherland {

  /** An out-code: one bit per half-plane outside the rectangle. */
  type OutCode = bv4

  const INSIDE: OutCode := 0
  const LEFT: OutCode := 1
  const RIGHT: OutCode := 2
  const BOTTOM: OutCode := 4
  const TOP: OutCode := 8

  datatype Point = Point(x: real, y: real)

  /** The clip window `[xmin, xmax] x [ymin, ymax]`. */
  datatype Rect = Rect(xmin: real, xmax: real, ymin: real, ymax: real) {
    predicate WellFormed() { xmin <= xmax && ymin <= ymax }
    predicate Contains(p: Point) { xmin <= p.x <= xmax && ymin <= p.y <= ymax }
  }

  /**
   * `computeOutCode`: LEFT or RIGHT by x (LEFT tested first), then BOTTOM or
   * TOP by y (BOTTOM tested first).
   */
  function ComputeOutCode(p: Point, r: Rect): (code: OutCode)
    ensures code & LEFT != 0 <==> p.x < r.xmin
    ensures code & RIGHT != 0 <==> r.xmin <= p.x && r.xmax < p.x
    ensures code & BOTTOM != 0 <==> p.y < r.ymin
    ensures code & TOP != 0 <==> r.ymin <= p.y && r.ymax < p.y
    ensures Valid(code)
    ensures code == INSIDE <==> r.Contains(p)
  {
    var code := INSIDE;
    var byX := if p.x < r.xmin then code | LEFT else if p.x > r.xmax then code | RIGHT else code;
    if p.y < r.ymin then byX | BOTTOM else if p.y > r.ymax then byX | TOP else byX
  }

  /** No out-code names two opposite sides. */
  predicate Valid(c: OutCode) {
    c & (LEFT | RIGHT) != LEFT | RIGHT && c & (BOTTOM | TOP) != BOTTOM | TOP
  }

  function Bits(c: OutCode): nat {
    (if c & LEFT != 0 then 1 else 0) + (if c & RIGHT != 0 then 1 else 0)
    + (if c & BOTTOM != 0 then 1 else 0) + (if c & TOP != 0 then 1 else 0)
  }

  /**
   * The termination measure of the clip loop: the sides still to clip
   * against, plus one while the endpoints share no outside half-plane.
   */
  function Measure(c0: OutCode, c1: OutCode): nat {
    Bits(c0) + Bits(c1) + (if c0 & c1 == 0 then 1 else 0)
  }

  /**
   * Clipping the outside endpoint (code `cp`) against a side on `axis`
   * strictly lowers the measure, provided the new code `cn` has no bit on
   * that axis and no bit that neither endpoint had before.
   */
  lemma MeasureDrops(cp: OutCode, cq: OutCode, cn: OutCode, axis: OutCode)
    requires axis == LEFT | RIGHT || axis == BOTTOM | TOP
    requires Valid(cp) && Valid(cq) && Valid(cn)
    requires cp & cq == 0 && cp & axis != 0
    requires cn & axis == 0 && cn & !(cp | cq) == 0
    ensures Measure(cn, cq) < Measure(cp, cq)
    ensures Measure(cq, cn) < Measure(cq, cp)
  {
  }

  datatype Segment = Segment(p0: Point, p1: Point)

  /** What `cohenSutherlandClip` hands back: the verdict and the (possibly moved) endpoints. */
  datatype Clipped = Clipped(accept: bool, seg: Segment)

  /** `outcode0 ? outcode0 : outcode1`: the endpoint the iteration moves. */
  function OutsideCode(c0: OutCode, c1: OutCode): OutCode {
    if c0 != 0 then c0 else c1
  }

  /** Does the branch taken for `out` compute against a horizontal side (TOP or BOTTOM)? */
  predicate Horizontal(out: OutCode) {
    out & TOP != 0 || out & BOTTOM != 0
  }

  /** The divisor of the branch taken for `out` is not zero. */
  predicate DivisorNonZero(s: Segment, out: OutCode) {
    if Horizontal(out) then s.p1.y - s.p0.y != 0.0 else s.p1.x - s.p0.x != 0.0
  }

  /**
   * The intersection of the segment's line with the side selected by `out`,
   * tested in the order TOP, BOTTOM, RIGHT, LEFT, with `cohenSutherlandClip`'s formulas.
   */
  /** `p` lies on the side line that the branch taken for `out` cuts against. */
  predicate OnChosenSide(p: Point, r: Rect, out: OutCode) {
    if out & TOP != 0 then p.y == r.ymax
    else if out & BOTTOM != 0 then p.y == r.ymin
    else if out & RIGHT != 0 then p.x == r.xmax
    else p.x == r.xmin
  }

  function Intersection(s: Segment, r: Rect, out: OutCode): (p: Point)
    requires DivisorNonZero(s, out)
    ensures OnChosenSide(p, r, out)
  {
    var x0, y0, x1, y1 := s.p0.x, s.p0.y, s.p1.x, s.p1.y;
    if out & TOP != 0 then Point(CutAt(x0, y0, x1, y1, r.ymax), r.ymax)
    else if out & BOTTOM != 0 then Point(CutAt(x0, y0, x1, y1, r.ymin), r.ymin)
    else if out & RIGHT != 0 then Point(r.xmax, CutAt(y0, x0, y1, x1, r.xmax))
    else Point(r.xmin, CutAt(y0, x0, y1, x1, r.xmin))
  }

  /**
   * `cohenSutherlandClip`'s intersection formula: the `u` coordinate where the line
   * through `(u0, v0)` and `(u1, v1)` meets `v == edge`.
   */
  function CutAt(u0: real, v0: real, u1: real, v1: real, edge: real): real
    requires v1 - v0 != 0.0
  {
    u0 + (u1 - u0) * (edge - v0) / (v1 - v0)
  }

  /** The parameter `(edge - v0) / (v1 - v0)` at which `v` reaches `edge`. */
  function Ratio(v0: real, v1: real, edge: real): real
    requires v1 - v0 != 0.0
  {
    (edge - v0) / (v1 - v0)
  }

  /** The state in which `cohenSutherlandClip`'s loop computes an intersection. */
  predicate MustClip(s: Segment, r: Rect) {
    var c0, c1 := ComputeOutCode(s.p0, r), ComputeOutCode(s.p1, r);
    c0 | c1 != 0 && c0 & c1 == 0
  }

  /**
   * The clipper never divides by zero: the selected side's bit is set on one
   * endpoint and clear on the other, so the endpoints differ in the
   * coordinate the divisor subtracts.
   */
  lemma NoDivisionByZero(s: Segment, r: Rect)
    requires r.WellFormed() && MustClip(s, r)
    ensures DivisorNonZero(s, OutsideCode(ComputeOutCode(s.p0, r), ComputeOutCode(s.p1, r)))
  {
  }

  /** One iteration of the loop's else-branch: move the outside endpoint onto the side. */
  function ClipStep(s: Segment, r: Rect): (n: Segment)
    requires r.WellFormed() && MustClip(s, r)
    ensures var c0, c1 := ComputeOutCode(s.p0, r), ComputeOutCode(s.p1, r);
      var out := OutsideCode(c0, c1);
      && (out == c0 ==> n.p1 == s.p1 && OnChosenSide(n.p0, r, out))
      && (out != c0 ==> n.p0 == s.p0 && OnChosenSide(n.p1, r, out))
  {
    var c0, c1 := ComputeOutCode(s.p0, r), ComputeOutCode(s.p1, r);
    var out := OutsideCode(c0, c1);
    NoDivisionByZero(s, r);
    var p := Intersection(s, r, out);
    if out == c0 then Segment(p, s.p1) else Segment(s.p0, p)
  }

  /** `p + (q - p) * t`: the point at parameter `t` along `p` to `q`. */
  function Lerp(p: Point, q: Point, t: real): Point {
    Point(p.x + (q.x - p.x) * t, p.y + (q.y - p.y) * t)
  }

  /** `(edge - from) / (to - from)`, the parameter of the intersection. */
  function Param(s: Segment, r: Rect, out: OutCode): real
    requires DivisorNonZero(s, out)
  {
    var x0, y0, x1, y1 := s.p0.x, s.p0.y, s.p1.x, s.p1.y;
    if out & TOP != 0 then Ratio(y0, y1, r.ymax)
    else if out & BOTTOM != 0 then Ratio(y0, y1, r.ymin)
    else if out & RIGHT != 0 then Ratio(x0, x1, r.xmax)
    else Ratio(x0, x1, r.xmin)
  }

  /**
   * Cutting the line through `(u0, v0)` and `(u1, v1)` at `v == edge` with the
   * formula in `cohenSutherlandClip` gives the point at parameter `(edge - v0) / (v1 - v0)`.
   */
  lemma Cut(u0: real, v0: real, u1: real, v1: real, edge: real)
    requires v1 - v0 != 0.0
    ensures var t := Ratio(v0, v1, edge);
      CutAt(u0, v0, u1, v1, edge) == u0 + (u1 - u0) * t && edge == v0 + (v1 - v0) * t
  {
    var d, t := v1 - v0, (edge - v0) / (v1 - v0);
    assert d * t == edge - v0;
    assert (u1 - u0) * (edge - v0) / d == (u1 - u0) * t;
  }

  /** Cutting against a horizontal side gives the point at parameter `Ratio` on the y axis. */
  lemma HorizontalCut(p0: Point, p1: Point, edge: real)
    requires p1.y - p0.y != 0.0
    ensures Point(CutAt(p0.x, p0.y, p1.x, p1.y, edge), edge) == Lerp(p0, p1, Ratio(p0.y, p1.y, edge))
  {
    Cut(p0.x, p0.y, p1.x, p1.y, edge);
  }

  /** Cutting against a vertical side gives the point at parameter `Ratio` on the x axis. */
  lemma VerticalCut(p0: Point, p1: Point, edge: real)
    requires p1.x - p0.x != 0.0
    ensures Point(edge, CutAt(p0.y, p0.x, p1.y, p1.x, edge)) == Lerp(p0, p1, Ratio(p0.x, p1.x, edge))
  {
    Cut(p0.y, p0.x, p1.y, p1.x, edge);
  }

  /** `cohenSutherlandClip`'s intersection formulas evaluate the segment's line at `Param`. */
  lemma IntersectionIsLerp(s: Segment, r: Rect, out: OutCode)
    requires DivisorNonZero(s, out)
    ensures Intersection(s, r, out) == Lerp(s.p0, s.p1, Param(s, r, out))
  {
    if out & TOP != 0 {
      HorizontalCut(s.p0, s.p1, r.ymax);
    } else if out & BOTTOM != 0 {
      HorizontalCut(s.p0, s.p1, r.ymin);
    } else if out & RIGHT != 0 {
      VerticalCut(s.p0, s.p1, r.xmax);
    } else {
      VerticalCut(s.p0, s.p1, r.xmin);
    }
  }

  /** A quotient whose numerator lies between 0 and the denominator lies in [0, 1]. */
  lemma QuotientInUnit(num: real, den: real)
    requires (0.0 <= num <= den && 0.0 < den) || (den <= num <= 0.0 && den < 0.0)
    ensures 0.0 <= num / den <= 1.0
  {
    if den < 0.0 {
      NegatedQuotient(num, den);
    }
  }

  lemma NegatedQuotient(num: real, den: real)
    requires den != 0.0
    ensures num / den == (-num) / (-den)
  {
  }

  /** A fraction of a non-negative number lies between 0 and the number. */
  lemma FractionOf(d: real, t: real)
    requires d >= 0.0 && 0.0 <= t <= 1.0
    ensures 0.0 <= d * t <= d
  {
    assert d * (1.0 - t) >= 0.0;
  }

  /** Moving a fraction `t` of the way from `a` to `b` stays between them. */
  lemma Between(a: real, b: real, t: real)
    requires 0.0 <= t <= 1.0
    ensures Min(a, b) <= a + (b - a) * t <= Max(a, b)
  {
    var d := b - a;
    var m := d * t;
    if a <= b {
      FractionOf(d, t);
      assert 0.0 <= m <= d;
    } else {
      FractionOf(-d, t);
      assert (-d) * t == -m;
    }
  }

  /**
   * The intersection point lies on the side the iteration clips against,
   * between the two current endpoints.
   */
  lemma StepPoint(s: Segment, r: Rect)
    requires r.WellFormed() && MustClip(s, r)
    ensures var out := OutsideCode(ComputeOutCode(s.p0, r), ComputeOutCode(s.p1, r));
      && DivisorNonZero(s, out)
      && 0.0 <= Param(s, r, out) <= 1.0
      && Intersection(s, r, out) == Lerp(s.p0, s.p1, Param(s, r, out))
  {
    var c0, c1 := ComputeOutCode(s.p0, r), ComputeOutCode(s.p1, r);
    var out := OutsideCode(c0, c1);
    NoDivisionByZero(s, r);
    IntersectionIsLerp(s, r, out);
    var x0, y0, x1, y1 := s.p0.x, s.p0.y, s.p1.x, s.p1.y;
    if out & TOP != 0 {
      QuotientInUnit(r.ymax - y0, y1 - y0);
    } else if out & BOTTOM != 0 {
      QuotientInUnit(r.ymin - y0, y1 - y0);
    } else if out & RIGHT != 0 {
      QuotientInUnit(r.xmax - x0, x1 - x0);
    } else {
      QuotientInUnit(r.xmin - x0, x1 - x0);
    }
  }

  /** A point within the bounding box of two points is outside no side both of them are inside of. */
  lemma CodeBetween(p: Point, q: Point, n: Point, r: Rect)
    requires r.WellFormed()
    requires Min(p.x, q.x) <= n.x <= Max(p.x, q.x) && Min(p.y, q.y) <= n.y <= Max(p.y, q.y)
    ensures ComputeOutCode(n, r) & !(ComputeOutCode(p, r) | ComputeOutCode(q, r)) == 0
  {
    var cp, cq, cn := ComputeOutCode(p, r), ComputeOutCode(q, r), ComputeOutCode(n, r);
    assert cn & LEFT != 0 ==> cp & LEFT != 0 || cq & LEFT != 0;
    assert cn & RIGHT != 0 ==> cp & RIGHT != 0 || cq & RIGHT != 0;
    assert cn & BOTTOM != 0 ==> cp & BOTTOM != 0 || cq & BOTTOM != 0;
    assert cn & TOP != 0 ==> cp & TOP != 0 || cq & TOP != 0;
  }

  /** Both coordinates of a point between `p` and `q` lie between theirs. */
  lemma LerpBetween(p: Point, q: Point, t: real)
    requires 0.0 <= t <= 1.0
    ensures var n := Lerp(p, q, t);
      Min(p.x, q.x) <= n.x <= Max(p.x, q.x) && Min(p.y, q.y) <= n.y <= Max(p.y, q.y)
  {
    Between(p.x, q.x, t);
    Between(p.y, q.y, t);
  }

  /** The new endpoint is on the chosen side, so its code has no bit on that axis. */
  lemma StepOnSide(s: Segment, r: Rect)
    requires r.WellFormed() && MustClip(s, r)
    ensures var out := OutsideCode(ComputeOutCode(s.p0, r), ComputeOutCode(s.p1, r));
      var axis := if Horizontal(out) then BOTTOM | TOP else LEFT | RIGHT;
      DivisorNonZero(s, out) && out & axis != 0 && ComputeOutCode(Intersection(s, r, out), r) & axis == 0
  {
    NoDivisionByZero(s, r);
  }

  /** Lying between the old endpoints, the new endpoint has no bit neither of them had. */
  lemma StepWithin(s: Segment, r: Rect)
    requires r.WellFormed() && MustClip(s, r)
    ensures var c0, c1 := ComputeOutCode(s.p0, r), ComputeOutCode(s.p1, r);
      var out := OutsideCode(c0, c1);
      DivisorNonZero(s, out) && ComputeOutCode(Intersection(s, r, out), r) & !(c0 | c1) == 0
  {
    var out := OutsideCode(ComputeOutCode(s.p0, r), ComputeOutCode(s.p1, r));
    StepPoint(s, r);
    LerpBetween(s.p0, s.p1, Param(s, r, out));
    CodeBetween(s.p0, s.p1, Intersection(s, r, out), r);
  }

  /** Each iteration that clips strictly lowers the measure, so the loop ends. */
  lemma StepDecreases(s: Segment, r: Rect)
    requires r.WellFormed() && MustClip(s, r)
    ensures var n := ClipStep(s, r);
      Measure(ComputeOutCode(n.p0, r), ComputeOutCode(n.p1, r))
        < Measure(ComputeOutCode(s.p0, r), ComputeOutCode(s.p1, r))
  {
    var c0, c1 := ComputeOutCode(s.p0, r), ComputeOutCode(s.p1, r);
    var out := OutsideCode(c0, c1);
    var cn := ComputeOutCode(Intersection(s, r, out), r);
    var axis := if Horizontal(out) then BOTTOM | TOP else LEFT | RIGHT;
    StepOnSide(s, r);
    StepWithin(s, r);
    if out == c0 {
      MeasureDrops(c0, c1, cn, axis);
    } else {
      MeasureDrops(c1, c0, cn, axis);
    }
  }

  /**
   * `cohenSutherlandClip` as a function.  An accepted segment has both
   * endpoints in the window; a rejected one has both endpoints outside one
   * common side.
   */
  function Clip(s: Segment, r: Rect): (c: Clipped)
    requires r.WellFormed()
    ensures c.accept ==> r.Contains(c.seg.p0) && r.Contains(c.seg.p1)
    ensures !c.accept ==> ComputeOutCode(c.seg.p0, r) & ComputeOutCode(c.seg.p1, r) != 0
    decreases Measure(ComputeOutCode(s.p0, r), ComputeOutCode(s.p1, r))
  {
    var c0, c1 := ComputeOutCode(s.p0, r), ComputeOutCode(s.p1, r);
    if c0 | c1 == 0 then Clipped(true, s)
    else if c0 & c1 != 0 then Clipped(false, s)
    else
      StepDecreases(s, r);
      Clip(ClipStep(s, r), r)
  }

  /** Both endpoints inside: accepted with all four coordinates unchanged. */
  lemma InsideUnchanged(s: Segment, r: Rect)
    requires r.WellFormed()
    ensures r.Contains(s.p0) && r.Contains(s.p1) ==> Clip(s, r) == Clipped(true, s)
  {
  }

  /** Both endpoints beyond one common side: rejected at once, nothing moved. */
  lemma SharedSideRejected(s: Segment, r: Rect)
    requires r.WellFormed()
    ensures ComputeOutCode(s.p0, r) & ComputeOutCode(s.p1, r) != 0 ==> Clip(s, r) == Clipped(false, s)
  {
  }

  function Cross(u: Point, v: Point): real {
    u.x * v.y - u.y * v.x
  }

  function Minus(p: Point, q: Point): Point {
    Point(p.x - q.x, p.y - q.y)
  }

  function Min(a: real, b: real): real {
    if a < b then a else b
  }

  function Max(a: real, b: real): real {
    if a < b then b else a
  }

  /** `p` lies on the closed segment from `a` to `b`: on its line and in its bounding box. */
  predicate OnSegment(a: Point, b: Point, p: Point) {
    && Cross(Minus(b, a), Minus(p, a)) == 0.0
    && Min(a.x, b.x) <= p.x <= Max(a.x, b.x)
    && Min(a.y, b.y) <= p.y <= Max(a.y, b.y)
  }

  /** The cross product is linear in its second argument along a `Lerp`. */
  lemma CrossLerp(u: Point, a: Point, p: Point, q: Point, t: real)
    ensures Cross(u, Minus(Lerp(p, q, t), a))
      == Cross(u, Minus(p, a)) + t * (Cross(u, Minus(q, a)) - Cross(u, Minus(p, a)))
  {
  }

  /** A point between two points of a line is on the line too. */
  lemma LerpCollinear(u: Point, a: Point, p: Point, q: Point, t: real)
    requires Cross(u, Minus(p, a)) == 0.0 && Cross(u, Minus(q, a)) == 0.0
    ensures Cross(u, Minus(Lerp(p, q, t), a)) == 0.0
  {
    CrossLerp(u, a, p, q, t);
  }

  /** A point between two points of a box is in the box too. */
  lemma LerpInBox(lo: Point, hi: Point, p: Point, q: Point, t: real)
    requires lo.x <= p.x <= hi.x && lo.y <= p.y <= hi.y
    requires lo.x <= q.x <= hi.x && lo.y <= q.y <= hi.y
    requires 0.0 <= t <= 1.0
    ensures var n := Lerp(p, q, t); lo.x <= n.x <= hi.x && lo.y <= n.y <= hi.y
  {
    var n := Lerp(p, q, t);
    Between(p.x, q.x, t);
    Between(p.y, q.y, t);
    assert Min(p.x, q.x) <= n.x <= Max(p.x, q.x);
    assert Min(p.y, q.y) <= n.y <= Max(p.y, q.y);
  }

  /** A point between two points of a segment is on the segment too. */
  lemma LerpOnSegment(a: Point, b: Point, p: Point, q: Point, t: real)
    requires OnSegment(a, b, p) && OnSegment(a, b, q) && 0.0 <= t <= 1.0
    ensures OnSegment(a, b, Lerp(p, q, t))
  {
    LerpCollinear(Minus(b, a), a, p, q, t);
    LerpInBox(Point(Min(a.x, b.x), Min(a.y, b.y)), Point(Max(a.x, b.x), Max(a.y, b.y)), p, q, t);
  }

  /** One iteration keeps both endpoints on a segment they were on. */
  lemma StepOnSegment(a: Point, b: Point, s: Segment, r: Rect)
    requires r.WellFormed() && MustClip(s, r)
    requires OnSegment(a, b, s.p0) && OnSegment(a, b, s.p1)
    ensures OnSegment(a, b, ClipStep(s, r).p0) && OnSegment(a, b, ClipStep(s, r).p1)
  {
    var out := OutsideCode(ComputeOutCode(s.p0, r), ComputeOutCode(s.p1, r));
    StepPoint(s, r);
    LerpOnSegment(a, b, s.p0, s.p1, Param(s, r, out));
  }

  lemma {:induction false} ClipOnSegment(a: Point, b: Point, s: Segment, r: Rect)
    requires r.WellFormed()
    requires OnSegment(a, b, s.p0) && OnSegment(a, b, s.p1)
    ensures OnSegment(a, b, Clip(s, r).seg.p0) && OnSegment(a, b, Clip(s, r).seg.p1)
    decreases Measure(ComputeOutCode(s.p0, r), ComputeOutCode(s.p1, r))
  {
    if MustClip(s, r) {
      StepDecreases(s, r);
      StepOnSegment(a, b, s, r);
      ClipOnSegment(a, b, ClipStep(s, r), r);
    }
  }

  /** Both returned endpoints lie on the original segment, accepted or not. */
  lemma ClipStaysOnOriginal(s: Segment, r: Rect)
    requires r.WellFormed()
    ensures OnSegment(s.p0, s.p1, Clip(s, r).seg.p0) && OnSegment(s.p0, s.p1, Clip(s, r).seg.p1)
  {
    ClipOnSegment(s.p0, s.p1, s, r);
  }

  // ---------------------------------------------------------------------
  // What clipping keeps: exactly the part of the segment inside the window
  // ---------------------------------------------------------------------

  /** `s` is the piece of the line through `a` and `b` from parameter `t0` to parameter `t1`, within `[0, 1]`. */
  predicate Tracks(a: Point, b: Point, s: Segment, t0: real, t1: real) {
    0.0 <= t0 <= t1 <= 1.0 && s == Segment(Lerp(a, b, t0), Lerp(a, b, t1))
  }

  /** Every point of `a`-`b` inside the window lies at a parameter in `[t0, t1]`. */
  ghost predicate InsideWithin(a: Point, b: Point, r: Rect, t0: real, t1: real) {
    forall u :: 0.0 <= u <= 1.0 && r.Contains(Lerp(a, b, u)) ==> t0 <= u <= t1
  }

  /** A point between two points of a line, taken along that line, is a point of the line. */
  lemma LerpCompose(a: Point, b: Point, t0: real, t1: real, t: real)
    ensures Lerp(Lerp(a, b, t0), Lerp(a, b, t1), t) == Lerp(a, b, t0 + (t1 - t0) * t)
  {
    AxisCompose(a.x, b.x - a.x, t0, t1, t);
    AxisCompose(a.y, b.y - a.y, t0, t1, t);
  }

  /** `LerpCompose` along one axis. */
  lemma AxisCompose(c: real, d: real, t0: real, t1: real, t: real)
    ensures (c + d * t0) + ((c + d * t1) - (c + d * t0)) * t == c + d * (t0 + (t1 - t0) * t)
  {
    var w := t1 - t0;
    assert (c + d * t1) - (c + d * t0) == d * w;
    assert (d * w) * t == d * (w * t);
    assert d * t0 + d * (w * t) == d * (t0 + w * t);
  }

  /** An affine function lies between its values at the ends of an interval. */
  lemma AffineBetween(c: real, d: real, t0: real, t1: real, u: real)
    requires t0 <= u <= t1
    ensures Min(c + d * t0, c + d * t1) <= c + d * u <= Max(c + d * t0, c + d * t1)
  {
    if d >= 0.0 {
      assert d * (u - t0) >= 0.0 && d * (t1 - u) >= 0.0;
    } else {
      assert d * (u - t0) <= 0.0 && d * (t1 - u) <= 0.0;
    }
  }

  /**
   * An affine function that is beyond `edge` at `tEnd` and meets it at `tn`
   * is beyond it everywhere strictly on `tEnd`'s side of `tn`.
   */
  lemma AffineBeyond(c: real, d: real, tEnd: real, tn: real, u: real, edge: real)
    requires c + d * tEnd > edge && c + d * tn == edge
    requires (tEnd <= u < tn) || (tn < u <= tEnd)
    ensures c + d * u > edge
  {
    assert (c + d * tEnd) - (c + d * tn) == d * (tEnd - tn);
    assert (c + d * u) - (c + d * tn) == d * (u - tn);
    if u < tn {
      assert tEnd - tn < 0.0 && u - tn < 0.0;
      assert d < 0.0;
    } else {
      assert tEnd - tn > 0.0 && u - tn > 0.0;
      assert d > 0.0;
    }
  }

  /** `AffineBeyond` for the `y` coordinates of the points along `a`-`b`. */
  lemma YBeyond(a: Point, b: Point, tEnd: real, tn: real, u: real, edge: real)
    requires Lerp(a, b, tEnd).y > edge && Lerp(a, b, tn).y == edge
    requires (tEnd <= u < tn) || (tn < u <= tEnd)
    ensures Lerp(a, b, u).y > edge
  {
    AffineBeyond(a.y, b.y - a.y, tEnd, tn, u, edge);
  }

  /** `AffineBelow` for the `y` coordinates of the points along `a`-`b`. */
  lemma YBelow(a: Point, b: Point, tEnd: real, tn: real, u: real, edge: real)
    requires Lerp(a, b, tEnd).y < edge && Lerp(a, b, tn).y == edge
    requires (tEnd <= u < tn) || (tn < u <= tEnd)
    ensures Lerp(a, b, u).y < edge
  {
    AffineBelow(a.y, b.y - a.y, tEnd, tn, u, edge);
  }

  /** `AffineBeyond` for the `x` coordinates of the points along `a`-`b`. */
  lemma XBeyond(a: Point, b: Point, tEnd: real, tn: real, u: real, edge: real)
    requires Lerp(a, b, tEnd).x > edge && Lerp(a, b, tn).x == edge
    requires (tEnd <= u < tn) || (tn < u <= tEnd)
    ensures Lerp(a, b, u).x > edge
  {
    AffineBeyond(a.x, b.x - a.x, tEnd, tn, u, edge);
  }

  /** `AffineBelow` for the `x` coordinates of the points along `a`-`b`. */
  lemma XBelow(a: Point, b: Point, tEnd: real, tn: real, u: real, edge: real)
    requires Lerp(a, b, tEnd).x < edge && Lerp(a, b, tn).x == edge
    requires (tEnd <= u < tn) || (tn < u <= tEnd)
    ensures Lerp(a, b, u).x < edge
  {
    AffineBelow(a.x, b.x - a.x, tEnd, tn, u, edge);
  }

  /** The mirror image of `AffineBeyond`: below `edge` at `tEnd`, on it at `tn`. */
  lemma AffineBelow(c: real, d: real, tEnd: real, tn: real, u: real, edge: real)
    requires c + d * tEnd < edge && c + d * tn == edge
    requires (tEnd <= u < tn) || (tn < u <= tEnd)
    ensures c + d * u < edge
  {
    assert (c + d * tEnd) - (c + d * tn) == d * (tEnd - tn);
    assert (c + d * u) - (c + d * tn) == d * (u - tn);
    if u < tn {
      assert tEnd - tn < 0.0 && u - tn < 0.0;
      assert d > 0.0;
    } else {
      assert tEnd - tn > 0.0 && u - tn > 0.0;
      assert d < 0.0;
    }
  }

  /** `p` is strictly beyond the side line that the branch taken for `out` cuts against. */
  predicate BeyondChosenSide(p: Point, r: Rect, out: OutCode) {
    if out & TOP != 0 then p.y > r.ymax
    else if out & BOTTOM != 0 then p.y < r.ymin
    else if out & RIGHT != 0 then p.x > r.xmax
    else p.x < r.xmin
  }

  /** A point outside the window is beyond whichever side its out-code has the branch choose. */
  lemma CodeIsBeyond(p: Point, r: Rect)
    requires ComputeOutCode(p, r) != INSIDE
    ensures BeyondChosenSide(p, r, ComputeOutCode(p, r))
  {
  }

  /** Two points whose out-codes share a bit are both beyond the same side. */
  lemma SharedSide(p: Point, q: Point, r: Rect)
    requires ComputeOutCode(p, r) & ComputeOutCode(q, r) != 0
    ensures || (p.x < r.xmin && q.x < r.xmin) || (p.x > r.xmax && q.x > r.xmax)
            || (p.y < r.ymin && q.y < r.ymin) || (p.y > r.ymax && q.y > r.ymax)
  {
    var k := ComputeOutCode(p, r) & ComputeOutCode(q, r);
    assert k & LEFT != 0 || k & RIGHT != 0 || k & BOTTOM != 0 || k & TOP != 0;
  }

  /**
   * No point of `a`-`b` inside the window lies strictly between the moved
   * endpoint (at `tEnd`, with out-code `out`) and the cut (at `tn`).
   */
  lemma NothingInsideBeyondCut(a: Point, b: Point, r: Rect, out: OutCode, tEnd: real, tn: real, u: real)
    requires out != 0 && out == ComputeOutCode(Lerp(a, b, tEnd), r)
    requires OnChosenSide(Lerp(a, b, tn), r, out)
    requires (tEnd <= u < tn) || (tn < u <= tEnd)
    ensures !r.Contains(Lerp(a, b, u))
  {
    var pEnd, pn, q := Lerp(a, b, tEnd), Lerp(a, b, tn), Lerp(a, b, u);
    CodeIsBeyond(pEnd, r);
    if out & TOP != 0 {
      YBeyond(a, b, tEnd, tn, u, r.ymax);
    } else if out & BOTTOM != 0 {
      YBelow(a, b, tEnd, tn, u, r.ymin);
    } else if out & RIGHT != 0 {
      XBeyond(a, b, tEnd, tn, u, r.xmax);
    } else {
      XBelow(a, b, tEnd, tn, u, r.xmin);
    }
  }

  /** A point at parameter `t` in `[0, 1]` along a piece `[t0, t1]` of a line is a point of that piece. */
  lemma SubLerp(a: Point, b: Point, t0: real, t1: real, t: real) returns (tn: real)
    requires t0 <= t1 && 0.0 <= t <= 1.0
    ensures t0 <= tn <= t1 && Lerp(Lerp(a, b, t0), Lerp(a, b, t1), t) == Lerp(a, b, tn)
  {
    tn := t0 + (t1 - t0) * t;
    LerpCompose(a, b, t0, t1, t);
    FractionOf(t1 - t0, t);
  }

  /** The cut made by one iteration, located on the original segment at a parameter `tn`. */
  lemma StepCut(a: Point, b: Point, s: Segment, r: Rect, t0: real, t1: real) returns (tn: real)
    requires r.WellFormed() && MustClip(s, r) && Tracks(a, b, s, t0, t1)
    ensures var out := OutsideCode(ComputeOutCode(s.p0, r), ComputeOutCode(s.p1, r));
      && t0 <= tn <= t1
      && Intersection(s, r, out) == Lerp(a, b, tn)
  {
    var out := OutsideCode(ComputeOutCode(s.p0, r), ComputeOutCode(s.p1, r));
    StepPoint(s, r);
    tn := SubLerp(a, b, t0, t1, Param(s, r, out));
  }

  /** One iteration keeps every inside point of the original between the new endpoints. */
  lemma StepTracks(a: Point, b: Point, s: Segment, r: Rect, t0: real, t1: real) returns (t0': real, t1': real)
    requires r.WellFormed() && MustClip(s, r)
    requires Tracks(a, b, s, t0, t1) && InsideWithin(a, b, r, t0, t1)
    ensures Tracks(a, b, ClipStep(s, r), t0', t1') && InsideWithin(a, b, r, t0', t1')
  {
    var c0, c1 := ComputeOutCode(s.p0, r), ComputeOutCode(s.p1, r);
    var out := OutsideCode(c0, c1);
    var tn := StepCut(a, b, s, r, t0, t1);
    NoDivisionByZero(s, r);
    var p := Intersection(s, r, out);
    assert OnChosenSide(Lerp(a, b, tn), r, out);
    if out == c0 {
      t0', t1' := tn, t1;
      assert ClipStep(s, r) == Segment(p, s.p1);
    } else {
      t0', t1' := t0, tn;
      assert ClipStep(s, r) == Segment(s.p0, p);
    }
    forall u | 0.0 <= u <= 1.0 && r.Contains(Lerp(a, b, u))
      ensures t0' <= u <= t1'
    {
      if out == c0 && u < tn {
        NothingInsideBeyondCut(a, b, r, out, t0, tn, u);
      } else if out != c0 && u > tn {
        NothingInsideBeyondCut(a, b, r, out, t1, tn, u);
      }
    }
  }

  /** `n` lies in the bounding box of `p` and `q`. */
  predicate InBox(p: Point, q: Point, n: Point) {
    Min(p.x, q.x) <= n.x <= Max(p.x, q.x) && Min(p.y, q.y) <= n.y <= Max(p.y, q.y)
  }

  /** The points of `a`-`b` at parameters in `[t0, t1]` lie in the box of the two points at `t0` and `t1`. */
  lemma LerpInRange(a: Point, b: Point, t0: real, t1: real, u: real)
    requires t0 <= u <= t1
    ensures InBox(Lerp(a, b, t0), Lerp(a, b, t1), Lerp(a, b, u))
  {
    AffineBetween(a.x, b.x - a.x, t0, t1, u);
    AffineBetween(a.y, b.y - a.y, t0, t1, u);
  }

  /** The points of `a`-`b` at parameters in `[t0, t1]` lie on the segment between those two points. */
  lemma TrackedOnSegment(a: Point, b: Point, t0: real, t1: real, u: real)
    requires t0 <= u <= t1
    ensures OnSegment(Lerp(a, b, t0), Lerp(a, b, t1), Lerp(a, b, u))
  {
    LerpInRange(a, b, t0, t1, u);
    LerpDifference(a, b, t0, t1);
    LerpDifference(a, b, t0, u);
    ParallelCross(b.x - a.x, b.y - a.y, t1 - t0, u - t0);
  }

  /** The vector between the points at `t0` and `t1` is the direction scaled by `t1 - t0`. */
  lemma LerpDifference(a: Point, b: Point, t0: real, t1: real)
    ensures Minus(Lerp(a, b, t1), Lerp(a, b, t0)) == Point((b.x - a.x) * (t1 - t0), (b.y - a.y) * (t1 - t0))
  {
    var dx, dy := b.x - a.x, b.y - a.y;
    assert (a.x + dx * t1) - (a.x + dx * t0) == dx * (t1 - t0);
    assert (a.y + dy * t1) - (a.y + dy * t0) == dy * (t1 - t0);
  }

  /** Two multiples of the same direction have cross product zero. */
  lemma ParallelCross(d: real, e: real, k: real, m: real)
    ensures Cross(Point(d * k, e * k), Point(d * m, e * m)) == 0.0
  {
    assert (d * k) * (e * m) == (d * e) * (k * m);
    assert (e * k) * (d * m) == (d * e) * (k * m);
  }

  /** Two points beyond a common side put their whole bounding box beyond it. */
  lemma BoxOutside(p: Point, q: Point, n: Point, r: Rect)
    requires InBox(p, q, n) && ComputeOutCode(p, r) & ComputeOutCode(q, r) != 0
    ensures !r.Contains(n)
  {
    SharedSide(p, q, r);
  }

  /** Endpoints beyond a common side put every point between them beyond it. */
  lemma SharedSideExcludes(a: Point, b: Point, r: Rect, t0: real, t1: real, u: real)
    requires t0 <= u <= t1
    requires ComputeOutCode(Lerp(a, b, t0), r) & ComputeOutCode(Lerp(a, b, t1), r) != 0
    ensures !r.Contains(Lerp(a, b, u))
  {
    LerpInRange(a, b, t0, t1, u);
    BoxOutside(Lerp(a, b, t0), Lerp(a, b, t1), Lerp(a, b, u), r);
  }

  /**
   * Run alongside `Clip`: if every inside point of `a`-`b` lies between the
   * current endpoints, an accepted result contains them all and a rejection
   * means there were none.
   */
  lemma {:induction false} ClipTracks(a: Point, b: Point, s: Segment, r: Rect, t0: real, t1: real)
    requires r.WellFormed()
    requires Tracks(a, b, s, t0, t1) && InsideWithin(a, b, r, t0, t1)
    ensures var c := Clip(s, r);
      && (c.accept ==> forall u :: 0.0 <= u <= 1.0 && r.Contains(Lerp(a, b, u)) ==>
            OnSegment(c.seg.p0, c.seg.p1, Lerp(a, b, u)))
      && (!c.accept ==> forall u :: 0.0 <= u <= 1.0 ==> !r.Contains(Lerp(a, b, u)))
    decreases Measure(ComputeOutCode(s.p0, r), ComputeOutCode(s.p1, r))
  {
    var c0, c1 := ComputeOutCode(s.p0, r), ComputeOutCode(s.p1, r);
    ClipUnfold(s, r);
    if c0 | c1 == 0 {
      forall u | 0.0 <= u <= 1.0 && r.Contains(Lerp(a, b, u))
        ensures OnSegment(s.p0, s.p1, Lerp(a, b, u))
      {
        TrackedOnSegment(a, b, t0, t1, u);
      }
    } else if c0 & c1 != 0 {
      forall u | 0.0 <= u <= 1.0
        ensures !r.Contains(Lerp(a, b, u))
      {
        if t0 <= u <= t1 {
          SharedSideExcludes(a, b, r, t0, t1, u);
        }
      }
    } else {
      StepDecreases(s, r);
      var t0', t1' := StepTracks(a, b, s, r, t0, t1);
      ClipTracks(a, b, ClipStep(s, r), r, t0', t1');
    }
  }

  /** Where a point of the segment `a`-`b` sits along it: the `t` with `Lerp(a, b, t) == q`. */
  function ParamOf(a: Point, b: Point, q: Point): real {
    if a.x != b.x then (q.x - a.x) / (b.x - a.x)
    else if a.y != b.y then (q.y - a.y) / (b.y - a.y)
    else 0.0
  }

  /** Along one axis, a value between `a0` and `b0` sits at parameter `(q0 - a0) / (b0 - a0)`. */
  lemma AxisParam(a0: real, b0: real, q0: real)
    requires a0 != b0 && Min(a0, b0) <= q0 <= Max(a0, b0)
    ensures 0.0 <= (q0 - a0) / (b0 - a0) <= 1.0
    ensures q0 == a0 + (b0 - a0) * ((q0 - a0) / (b0 - a0))
  {
    QuotientInUnit(q0 - a0, b0 - a0);
  }

  /** On a line through the origin with direction `(d, e)`, `d != 0`, the second coordinate follows the first. */
  lemma CollinearFollows(d: real, e: real, v: real, w: real, u: real)
    requires d != 0.0 && d * w == e * v && v == d * u
    ensures w == e * u
  {
    assert d * w == d * (e * u);
  }

  /** `OnSegmentIsLerp` for a segment that is not vertical: the parameter is read off `x`. */
  lemma OnSlantedSegment(a: Point, b: Point, q: Point)
    requires OnSegment(a, b, q) && a.x != b.x
    ensures 0.0 <= ParamOf(a, b, q) <= 1.0 && q == Lerp(a, b, ParamOf(a, b, q))
  {
    var u := ParamOf(a, b, q);
    assert u == (q.x - a.x) / (b.x - a.x);
    SlantedParam(a.x, a.y, b.x, b.y, q.x, q.y);
    var l := Lerp(a, b, u);
    assert l.x == q.x && l.y == q.y;
  }

  /** The arithmetic of `OnSlantedSegment`, on coordinates. */
  lemma SlantedParam(x0: real, y0: real, x1: real, y1: real, qx: real, qy: real)
    requires x0 != x1 && Min(x0, x1) <= qx <= Max(x0, x1)
    requires (x1 - x0) * (qy - y0) == (y1 - y0) * (qx - x0)
    ensures var u := (qx - x0) / (x1 - x0);
      0.0 <= u <= 1.0 && qx == x0 + (x1 - x0) * u && qy == y0 + (y1 - y0) * u
  {
    var u := (qx - x0) / (x1 - x0);
    AxisParam(x0, x1, qx);
    CollinearFollows(x1 - x0, y1 - y0, qx - x0, qy - y0, u);
  }

  /** `OnSegmentIsLerp` for a vertical segment of positive length: the parameter is read off `y`. */
  lemma OnVerticalSegment(a: Point, b: Point, q: Point)
    requires OnSegment(a, b, q) && a.x == b.x && a.y != b.y
    ensures 0.0 <= ParamOf(a, b, q) <= 1.0 && q == Lerp(a, b, ParamOf(a, b, q))
  {
    AxisParam(a.y, b.y, q.y);
    assert q.x == a.x;
  }

  /** A point on a segment is the point at some parameter in `[0, 1]`. */
  lemma OnSegmentIsLerp(a: Point, b: Point, q: Point)
    requires OnSegment(a, b, q)
    ensures 0.0 <= ParamOf(a, b, q) <= 1.0 && q == Lerp(a, b, ParamOf(a, b, q))
  {
    if a.x != b.x {
      OnSlantedSegment(a, b, q);
    } else if a.y != b.y {
      OnVerticalSegment(a, b, q);
    } else {
      assert q == a;
    }
  }

  /** The original segment is tracked from parameter 0 to 1, and every inside point is within. */
  lemma TracksWhole(s: Segment, r: Rect)
    ensures Tracks(s.p0, s.p1, s, 0.0, 1.0) && InsideWithin(s.p0, s.p1, r, 0.0, 1.0)
  {
    assert Lerp(s.p0, s.p1, 0.0) == s.p0 && Lerp(s.p0, s.p1, 1.0) == s.p1;
  }

  /** A rejected segment has no point inside the window. */
  lemma RejectedMissesWindow(s: Segment, r: Rect)
    requires r.WellFormed()
    ensures !Clip(s, r).accept ==> forall q :: OnSegment(s.p0, s.p1, q) ==> !r.Contains(q)
  {
    TracksWhole(s, r);
    ClipTracks(s.p0, s.p1, s, r, 0.0, 1.0);
    forall q | OnSegment(s.p0, s.p1, q)
      ensures !Clip(s, r).accept ==> !r.Contains(q)
    {
      OnSegmentIsLerp(s.p0, s.p1, q);
    }
  }

  /** An accepted segment keeps every point of the original that lies inside the window. */
  lemma AcceptedKeepsInside(s: Segment, r: Rect)
    requires r.WellFormed()
    ensures var c := Clip(s, r);
      c.accept ==> forall q :: OnSegment(s.p0, s.p1, q) && r.Contains(q) ==> OnSegment(c.seg.p0, c.seg.p1, q)
  {
    TracksWhole(s, r);
    ClipTracks(s.p0, s.p1, s, r, 0.0, 1.0);
    var c := Clip(s, r);
    forall q | OnSegment(s.p0, s.p1, q) && r.Contains(q)
      ensures c.accept ==> OnSegment(c.seg.p0, c.seg.p1, q)
    {
      OnSegmentIsLerp(s.p0, s.p1, q);
    }
  }

  /** The intersection step of `cohenSutherlandClip`'s loop, with its four branches in their order there. */
  method IntersectSide(x0: real, y0: real, x1: real, y1: real, r: Rect, outcodeOut: OutCode)
    returns (x: real, y: real)
    requires outcodeOut != 0
    requires DivisorNonZero(Segment(Point(x0, y0), Point(x1, y1)), outcodeOut)
    ensures Point(x, y) == Intersection(Segment(Point(x0, y0), Point(x1, y1)), r, outcodeOut)
  {
    if outcodeOut & TOP != 0 {
      x := x0 + (x1 - x0) * (r.ymax - y0) / (y1 - y0);
      y := r.ymax;
      assert x == CutAt(x0, y0, x1, y1, r.ymax);
    } else if outcodeOut & BOTTOM != 0 {
      x := x0 + (x1 - x0) * (r.ymin - y0) / (y1 - y0);
      y := r.ymin;
      assert x == CutAt(x0, y0, x1, y1, r.ymin);
    } else if outcodeOut & RIGHT != 0 {
      y := y0 + (y1 - y0) * (r.xmax - x0) / (x1 - x0);
      x := r.xmax;
      assert y == CutAt(y0, x0, y1, x1, r.xmax);
    } else {
      assert outcodeOut & LEFT != 0;
      y := y0 + (y1 - y0) * (r.xmin - x0) / (x1 - x0);
      x := r.xmin;
      assert y == CutAt(y0, x0, y1, x1, r.xmin);
    }
  }

  /** The three outcomes of one iteration of `cohenSutherlandClip`'s loop, in terms of `Clip`. */
  lemma ClipUnfold(s: Segment, r: Rect)
    requires r.WellFormed()
    ensures var c0, c1 := ComputeOutCode(s.p0, r), ComputeOutCode(s.p1, r);
      && (c0 | c1 == 0 ==> Clip(s, r) == Clipped(true, s))
      && (c0 | c1 != 0 && c0 & c1 != 0 ==> Clip(s, r) == Clipped(false, s))
      && (MustClip(s, r) ==> Clip(s, r) == Clip(ClipStep(s, r), r))
  {
  }

  /** `cohenSutherlandClip` as written: the loop over the two out-codes. */
  method CohenSutherlandClip(s: Segment, r: Rect) returns (accept: bool, res: Segment)
    requires r.WellFormed()
    ensures Clipped(accept, res) == Clip(s, r)
  {
    var x0, y0, x1, y1 := s.p0.x, s.p0.y, s.p1.x, s.p1.y;
    var outcode0 := ComputeOutCode(Point(x0, y0), r);
    var outcode1 := ComputeOutCode(Point(x1, y1), r);
    accept := false;
    ghost var cur := s;
    while true
      invariant cur == Segment(Point(x0, y0), Point(x1, y1))
      invariant outcode0 == ComputeOutCode(cur.p0, r) && outcode1 == ComputeOutCode(cur.p1, r)
      invariant Clip(cur, r) == Clip(s, r)
      invariant !accept
      decreases Measure(outcode0, outcode1)
    {
      ClipUnfold(cur, r);
      if outcode0 | outcode1 == 0 {
        accept := true;
        break;
      } else if outcode0 & outcode1 != 0 {
        break;
      } else {
        NoDivisionByZero(cur, r);
        StepDecreases(cur, r);
        var outcodeOut := if outcode0 != 0 then outcode0 else outcode1;
        var x, y := IntersectSide(x0, y0, x1, y1, r, outcodeOut);
        if outcodeOut == outcode0 {
          x0, y0 := x, y;
          outcode0 := ComputeOutCode(Point(x0, y0), r);
        } else {
          x1, y1 := x, y;
          outcode1 := ComputeOutCode(Point(x1, y1), r);
        }
        cur := ClipStep(cur, r);
      }
    }
    res := Segment(Point(x0, y0), Point(x1, y1));
  }

  /** A horizontal segment crossing the whole window is cut at both vertical sides. */
  lemma CrossingExample()
    ensures Clip(Segment(Point(-5.0, 50.0), Point(250.0, 50.0)), Rect(0.0, 200.0, 0.0, 200.0))
      == Clipped(true, Segment(Point(0.0, 50.0), Point(200.0, 50.0)))
  {
    var r := Rect(0.0, 200.0, 0.0, 200.0);
    var s0 := Segment(Point(-5.0, 50.0), Point(250.0, 50.0));
    var s1 := Segment(Point(0.0, 50.0), Point(250.0, 50.0));
    var s2 := Segment(Point(0.0, 50.0), Point(200.0, 50.0));
    assert ComputeOutCode(s0.p0, r) == LEFT && ComputeOutCode(s0.p1, r) == RIGHT;
    assert ClipStep(s0, r) == s1;
    assert ComputeOutCode(s1.p0, r) == INSIDE;
    assert ClipStep(s1, r) == s2;
  }

  /** A segment wholly left of and below the window is rejected untouched. */
  lemma RejectExample()
    ensures Clip(Segment(Point(-10.0, -10.0), Point(-5.0, -5.0)), Rect(0.0, 200.0, 0.0, 200.0))
      == Clipped(false, Segment(Point(-10.0, -10.0), Point(-5.0, -5.0)))
  {
    var r := Rect(0.0, 200.0, 0.0, 200.0);
    assert ComputeOutCode(Point(-10.0, -10.0), r) == LEFT | BOTTOM;
    assert ComputeOutCode(Point(-5.0, -5.0), r) == LEFT | BOTTOM;
  }
}
