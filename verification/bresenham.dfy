/**
 * Bresenham's line rasterisation (`Algorithms2D::bresenhamLine`) on
 * unbounded integers.
 *
 * `Iter` is the reference: the state after k iterations of `bresenhamLine`'s loop,
 * kept in a `Cursor`.  `BresenhamLine` is the loop itself, proved to produce
 * `Line`, the pixels of the cursors it visits.  `bresenhamLine` stores every
 * pixel as a `Vec3` whose z coordinate is the constant 0; a `Pixel` keeps
 * only x and y.
 */
module Bresenham {
  import opened IntArith

  datatype Pixel = Pixel(x: int, y: int)

  function Abs(n: int): int {
    if n < 0 then -n else n
  }

  function Max(a: int, b: int): int {
    if a < b then b else a
  }

  function Min(a: int, b: int): int {
    if a < b then a else b
  }

  /** The direction of travel along one axis: `(from < to) ? 1 : -1`. */
  function Dir(from: int, to: int): int {
    if from < to then 1 else -1
  }

  /** How many unit steps `cur` lies from `from` in the direction of `to`. */
  function Progress(from: int, to: int, cur: int): int {
    if from < to then cur - from else from - cur
  }

  /** The two endpoints of the line, `(x1, y1)` to `(x2, y2)`. */
  datatype Endpoints = Endpoints(x1: int, y1: int, x2: int, y2: int) {
    function Dx(): int { Abs(x2 - x1) }
    function Dy(): int { Abs(y2 - y1) }
    function Sx(): int { Dir(x1, x2) }
    function Sy(): int { Dir(y1, y2) }
    /** Steps taken along x and along y when at `(x, y)`. */
    function A(x: int): int { Progress(x1, x2, x) }
    function B(y: int): int { Progress(y1, y2, y) }
    /**
     * Twice the deviation of `(x, y)` from the exact line, scaled by the
     * line's length: zero on the line, positive when y is ahead.
     */
    function Deviation(x: int, y: int): int { Times(B(y), Dx()) - Times(A(x), Dy()) }
    /** Does the walk progress by one step per point along x (else along y)? */
    predicate XMajor() { Dx() >= Dy() }
  }

  /** The loop state: the current point and the error accumulator `err`. */
  datatype Cursor = Cursor(x: int, y: int, err: int)

  /**
   * The invariant of `bresenhamLine`'s loop in terms of the steps taken, `a` along x
   * and `b` along y, and the deviation `e`: neither axis has passed its end,
   * `e` is `b * dx - a * dy`, and it stays within half a pixel along the
   * minor axis.
   */
  predicate Inv(dx: int, dy: int, a: int, b: int, e: int) {
    && 0 <= a <= dx
    && 0 <= b <= dy
    && e == Times(b, dx) - Times(a, dy)
    && (if dx >= dy then (dx > 0 ==> -dx <= 2 * e < dx) && (dx == dy ==> e == 0)
        else -dy < 2 * e <= dy)
  }

  /** The invariant of `bresenhamLine`'s loop at cursor `c`, whose `err` is the deviation shifted by `dx - dy`. */
  predicate Tracking(l: Endpoints, c: Cursor) {
    Inv(l.Dx(), l.Dy(), l.A(c.x), l.B(c.y), c.err - l.Dx() + l.Dy())
  }

  /**
   * A pixel of the line: between the endpoints, and within half a pixel of
   * the exact line along the minor axis.
   */
  predicate NearLine(l: Endpoints, p: Pixel) {
    && 0 <= l.A(p.x) <= l.Dx()
    && 0 <= l.B(p.y) <= l.Dy()
    && (if l.XMajor() then -l.Dx() <= 2 * l.Deviation(p.x, p.y) <= l.Dx()
        else -l.Dy() <= 2 * l.Deviation(p.x, p.y) <= l.Dy())
  }

  /** Steps left along the major axis. */
  function Remaining(l: Endpoints, c: Cursor): int {
    if l.XMajor() then l.Dx() - l.A(c.x) else l.Dy() - l.B(c.y)
  }

  /** Steps taken along the major axis. */
  function Done(l: Endpoints, p: Pixel): int {
    if l.XMajor() then l.A(p.x) else l.B(p.y)
  }

  predicate AtEnd(l: Endpoints, c: Cursor) {
    c.x == l.x2 && c.y == l.y2
  }

  /** 8-connected neighbours: one unit step in x, in y, or in both. */
  predicate Adjacent(p: Pixel, q: Pixel) {
    p != q && Abs(q.x - p.x) <= 1 && Abs(q.y - p.y) <= 1
  }

  /** The body of `bresenhamLine`'s loop after the point is emitted. */
  function Advance(l: Endpoints, c: Cursor): Cursor {
    var e2 := 2 * c.err;
    var c1 := if e2 > -l.Dy() then Cursor(c.x + l.Sx(), c.y, c.err - l.Dy()) else c;
    if e2 < l.Dx() then Cursor(c1.x, c1.y + l.Sy(), c1.err + l.Dx()) else c1
  }

  lemma ProgressStep(from: int, to: int, cur: int)
    ensures Progress(from, to, cur + Dir(from, to)) == Progress(from, to, cur) + 1
    ensures Progress(from, to, cur) == Abs(to - from) <==> cur == to
  {
  }

  /**
   * The deviation at the two corners of the box next to the end point: having
   * finished x but not y puts the point at least `dx` behind the line, having
   * finished y but not x puts it at least `dy` ahead.
   */
  lemma Corner(dx: int, dy: int, a: int, b: int)
    requires 0 <= a <= dx && 0 <= b <= dy
    ensures a == dx && b < dy ==> Times(b, dx) - Times(a, dy) <= -dx
    ensures b == dy && a < dx ==> Times(b, dx) - Times(a, dy) >= dy
  {
    TimesCommutes(dx, dy);
    if a == dx && b < dy {
      TimesMonotone(b, dy - 1, dx);
    }
    if b == dy && a < dx {
      TimesMonotone(a, dx - 1, dy);
    }
  }

  /**
   * When x is the major axis and the end is not reached, x always steps, it
   * has not reached its end yet, and y steps only if it has not reached its end.
   */
  lemma XMajorStep(dx: int, dy: int, a: int, b: int, e: int)
    requires 0 <= dy <= dx && 0 < dx
    requires 0 <= a <= dx && 0 <= b <= dy
    requires a == dx && b < dy ==> e <= -dx
    requires b == dy && a < dx ==> e >= dy
    requires -dx <= 2 * e < dx && (dx == dy ==> e == 0)
    requires a != dx || b != dy
    ensures 2 * e > dy - 2 * dx
    ensures a < dx
    ensures 2 * e < 2 * dy - dx ==> b < dy
  {
  }

  /** The mirror image of `XMajorStep` when y is the major axis. */
  lemma YMajorStep(dx: int, dy: int, a: int, b: int, e: int)
    requires 0 <= dx < dy
    requires 0 <= a <= dx && 0 <= b <= dy
    requires a == dx && b < dy ==> e <= -dx
    requires b == dy && a < dx ==> e >= dy
    requires -dy < 2 * e <= dy
    requires a != dx || b != dy
    ensures 2 * e < 2 * dy - dx
    ensures b < dy
    ensures 2 * e > dy - 2 * dx ==> a < dx
  {
  }

  /**
   * One iteration of the loop on the invariant's quantities: with
   * `err == e + dx - dy`, x steps when `2 * err > -dy` and y steps when
   * `2 * err < dx`; at least one steps, the major axis always does, and the
   * invariant holds again.
   */
  lemma InvStep(dx: int, dy: int, a: int, b: int, e: int)
    requires Inv(dx, dy, a, b, e) && (a != dx || b != dy)
    ensures var err := e + dx - dy;
      var stepX, stepY := 2 * err > -dy, 2 * err < dx;
      var a', b' := if stepX then a + 1 else a, if stepY then b + 1 else b;
      && Inv(dx, dy, a', b', e + (if stepY then dx else 0) - (if stepX then dy else 0))
      && (if dx >= dy then stepX else stepY)
  {
    Corner(dx, dy, a, b);
    if dx >= dy {
      XMajorStep(dx, dy, a, b, e);
    } else {
      YMajorStep(dx, dy, a, b, e);
    }
    assert Times(a + 1, dy) == Times(a, dy) + dy;
    assert Times(b + 1, dx) == Times(b, dx) + dx;
  }

  /**
   * What one iteration does to the quantities of the invariant: x steps when
   * `2 * err > -dy`, y steps when `2 * err < dx`, and the steps taken and
   * `err` change accordingly.
   */
  lemma AdvanceSteps(l: Endpoints, c: Cursor)
    ensures var n, e2 := Advance(l, c), 2 * c.err;
      var stepX, stepY := e2 > -l.Dy(), e2 < l.Dx();
      && l.A(n.x) == l.A(c.x) + (if stepX then 1 else 0)
      && l.B(n.y) == l.B(c.y) + (if stepY then 1 else 0)
      && Abs(n.x - c.x) == (if stepX then 1 else 0)
      && Abs(n.y - c.y) == (if stepY then 1 else 0)
      && n.err == c.err - (if stepX then l.Dy() else 0) + (if stepY then l.Dx() else 0)
  {
    ProgressStep(l.x1, l.x2, c.x);
    ProgressStep(l.y1, l.y2, c.y);
  }

  /** One iteration that does not stop keeps the invariant and takes exactly one step along the major axis. */
  lemma AdvanceKeepsTracking(l: Endpoints, c: Cursor)
    requires Tracking(l, c) && !AtEnd(l, c)
    ensures Tracking(l, Advance(l, c))
    ensures Remaining(l, Advance(l, c)) == Remaining(l, c) - 1
    ensures Done(l, Pixel(Advance(l, c).x, Advance(l, c).y)) == Done(l, Pixel(c.x, c.y)) + 1
  {
    ProgressStep(l.x1, l.x2, c.x);
    ProgressStep(l.y1, l.y2, c.y);
    AdvanceSteps(l, c);
    InvStep(l.Dx(), l.Dy(), l.A(c.x), l.B(c.y), c.err - l.Dx() + l.Dy());
  }

  /** One iteration that does not stop moves to an 8-connected neighbour. */
  lemma AdvanceIsAdjacent(l: Endpoints, c: Cursor)
    requires Tracking(l, c) && !AtEnd(l, c)
    ensures Adjacent(Pixel(c.x, c.y), Pixel(Advance(l, c).x, Advance(l, c).y))
  {
    ProgressStep(l.x1, l.x2, c.x);
    ProgressStep(l.y1, l.y2, c.y);
    AdvanceSteps(l, c);
    InvStep(l.Dx(), l.Dy(), l.A(c.x), l.B(c.y), c.err - l.Dx() + l.Dy());
  }

  /** Under the invariant, the end is reached exactly when no major-axis step remains. */
  lemma EndIffNoneRemaining(l: Endpoints, c: Cursor)
    requires Tracking(l, c)
    ensures Remaining(l, c) >= 0
    ensures AtEnd(l, c) <==> Remaining(l, c) == 0
  {
    ProgressStep(l.x1, l.x2, c.x);
    ProgressStep(l.y1, l.y2, c.y);
    Corner(l.Dx(), l.Dy(), l.A(c.x), l.B(c.y));
  }

  /** Every cursor satisfying the invariant is at a pixel near the line. */
  lemma TrackingIsNearLine(l: Endpoints, c: Cursor)
    requires Tracking(l, c)
    ensures NearLine(l, Pixel(c.x, c.y))
  {
  }

  /** The cursor before the first iteration. */
  function Start(l: Endpoints): Cursor {
    Cursor(l.x1, l.y1, l.Dx() - l.Dy())
  }

  /** The number of iterations that advance: one per step along the longer axis. */
  function Steps(l: Endpoints): int {
    Max(l.Dx(), l.Dy())
  }

  /** The cursor after `k` iterations of the loop body. */
  function Iter(l: Endpoints, k: int): Cursor
    decreases k
  {
    if k <= 0 then Start(l) else Advance(l, Iter(l, k - 1))
  }

  function PixelOf(c: Cursor): Pixel {
    Pixel(c.x, c.y)
  }

  /**
   * The invariant holds after each of the first `Steps` iterations, and
   * each of them takes one step along the major axis.
   */
  lemma {:induction false} IterTracking(l: Endpoints, k: int)
    requires 0 <= k <= Steps(l)
    ensures Tracking(l, Iter(l, k)) && Remaining(l, Iter(l, k)) == Steps(l) - k
    decreases k
  {
    if k > 0 {
      var c := Iter(l, k - 1);
      IterTracking(l, k - 1);
      EndIffNoneRemaining(l, c);
      AdvanceKeepsTracking(l, c);
    }
  }

  /**
   * The loop's exit test `x1 == x2 && y1 == y2` first succeeds after exactly
   * `Steps` iterations.
   */
  lemma IterEnd(l: Endpoints, k: int)
    requires 0 <= k <= Steps(l)
    ensures AtEnd(l, Iter(l, k)) <==> k == Steps(l)
  {
    IterTracking(l, k);
    EndIffNoneRemaining(l, Iter(l, k));
  }

  /** The pixels of the cursors of the first `n` iterations, in order. */
  function Trace(l: Endpoints, n: int): seq<Pixel>
    decreases n
  {
    if n <= 0 then [] else Trace(l, n - 1) + [PixelOf(Iter(l, n - 1))]
  }

  /** The i-th pixel of a trace is the pixel of the cursor after i iterations. */
  lemma {:induction false} TraceAt(l: Endpoints, n: int)
    requires 0 <= n
    ensures |Trace(l, n)| == n
    ensures forall i :: 0 <= i < n ==> Trace(l, n)[i] == PixelOf(Iter(l, i))
    decreases n
  {
    if n > 0 {
      TraceAt(l, n - 1);
    }
  }

  /**
   * `bresenhamLine(x1, y1, x2, y2)` as a function: the pixel of each cursor
   * the loop visits, from the start to the iteration that reaches the end
   * point (`IterEnd` shows the loop stops exactly there).
   */
  function Line(x1: int, y1: int, x2: int, y2: int): seq<Pixel> {
    var l := Endpoints(x1, y1, x2, y2);
    Trace(l, Steps(l) + 1)
  }

  /** The points of `pts` form an 8-connected chain. */
  predicate Connected(pts: seq<Pixel>) {
    forall k :: 0 <= k < |pts| - 1 ==> Adjacent(pts[k], pts[k + 1])
  }

  /**
   * The line starts at `(x1, y1)`, ends at `(x2, y2)`, has one point per step
   * along the longer axis plus one, and moves between 8-connected neighbours.
   */
  lemma LineShape(x1: int, y1: int, x2: int, y2: int)
    ensures var pts := Line(x1, y1, x2, y2);
      && |pts| == Max(Abs(x2 - x1), Abs(y2 - y1)) + 1
      && pts[0] == Pixel(x1, y1) && pts[|pts| - 1] == Pixel(x2, y2)
      && Connected(pts)
  {
    var l := Endpoints(x1, y1, x2, y2);
    var pts := Line(x1, y1, x2, y2);
    TraceAt(l, Steps(l) + 1);
    IterEnd(l, Steps(l));
    forall k | 0 <= k < |pts| - 1
      ensures Adjacent(pts[k], pts[k + 1])
    {
      IterTracking(l, k);
      IterEnd(l, k);
      AdvanceIsAdjacent(l, Iter(l, k));
    }
  }

  /**
   * Every pixel of the line lies within half a pixel of the exact line along
   * the minor axis, and the k-th pixel is k steps along the major axis.
   */
  lemma LineFollowsExactLine(x1: int, y1: int, x2: int, y2: int)
    ensures var l, pts := Endpoints(x1, y1, x2, y2), Line(x1, y1, x2, y2);
      forall k :: 0 <= k < |pts| ==> NearLine(l, pts[k]) && Done(l, pts[k]) == k
  {
    var l, pts := Endpoints(x1, y1, x2, y2), Line(x1, y1, x2, y2);
    TraceAt(l, Steps(l) + 1);
    forall k | 0 <= k < |pts|
      ensures NearLine(l, pts[k]) && Done(l, pts[k]) == k
    {
      IterTracking(l, k);
      TrackingIsNearLine(l, Iter(l, k));
    }
  }

  /** Every pixel of the line lies in the bounding box of its endpoints. */
  lemma LineInBox(x1: int, y1: int, x2: int, y2: int)
    ensures forall p :: p in Line(x1, y1, x2, y2) ==>
      && Min(x1, x2) <= p.x <= Max(x1, x2)
      && Min(y1, y2) <= p.y <= Max(y1, y2)
  {
    LineFollowsExactLine(x1, y1, x2, y2);
  }

  /** One pass of the loop body after the exit test: the two error-term updates. */
  method Step(ghost l: Endpoints, dx: int, dy: int, sx: int, sy: int, x: int, y: int, err: int)
    returns (x': int, y': int, err': int)
    requires dx == l.Dx() && dy == l.Dy() && sx == l.Sx() && sy == l.Sy()
    ensures Cursor(x', y', err') == Advance(l, Cursor(x, y, err))
  {
    x', y', err' := x, y, err;
    var e2 := 2 * err;
    if e2 > -dy {
      err' := err' - dy;
      x' := x' + sx;
    }
    if e2 < dx {
      err' := err' + dx;
      y' := y' + sy;
    }
  }

  /** `bresenhamLine` as written: the error-accumulator loop. */
  method BresenhamLine(x1: int, y1: int, x2: int, y2: int) returns (points: seq<Pixel>)
    ensures points == Line(x1, y1, x2, y2)
  {
    ghost var l := Endpoints(x1, y1, x2, y2);
    points := [];
    var dx := Abs(x2 - x1);
    var dy := Abs(y2 - y1);
    var sx := if x1 < x2 then 1 else -1;
    var sy := if y1 < y2 then 1 else -1;
    var err := dx - dy;
    var x, y := x1, y1;
    ghost var k := 0;
    while true
      invariant 0 <= k <= Steps(l)
      invariant Cursor(x, y, err) == Iter(l, k)
      invariant points == Trace(l, k)
      decreases Steps(l) - k
    {
      IterEnd(l, k);
      points := points + [PixelOf(Cursor(x, y, err))];
      if x == x2 && y == y2 {
        break;
      }
      x, y, err := Step(l, dx, dy, sx, sy, x, y, err);
      k := k + 1;
    }
  }

  /** The loop along a horizontal line drawn to the right visits every column once. */
  lemma {:induction false} HorizontalIter(x: int, y: int, n: nat, k: int)
    requires 0 <= k <= n
    ensures Iter(Endpoints(x, y, x + n, y), k) == Cursor(x + k, y, n)
    decreases k
  {
    if k > 0 {
      HorizontalIter(x, y, n, k - 1);
    }
  }

  /** A horizontal line drawn to the right: one pixel per column, both endpoints included. */
  lemma HorizontalLine(x: int, y: int, n: nat)
    ensures Line(x, y, x + n, y) == seq(n + 1, i => Pixel(x + i, y))
  {
    var pts := Line(x, y, x + n, y);
    TraceAt(Endpoints(x, y, x + n, y), n + 1);
    forall k | 0 <= k <= n
      ensures pts[k] == Pixel(x + k, y)
    {
      HorizontalIter(x, y, n, k);
    }
  }

  /** The loop along a 45-degree line steps both coordinates every time. */
  lemma {:induction false} DiagonalIter(x: int, y: int, n: nat, k: int)
    requires 0 <= k <= n
    ensures Iter(Endpoints(x, y, x + n, y + n), k) == Cursor(x + k, y + k, 0)
    decreases k
  {
    if k > 0 {
      DiagonalIter(x, y, n, k - 1);
    }
  }

  /** A 45-degree line: both coordinates advance together. */
  lemma DiagonalLine(x: int, y: int, n: nat)
    ensures Line(x, y, x + n, y + n) == seq(n + 1, i => Pixel(x + i, y + i))
  {
    var pts := Line(x, y, x + n, y + n);
    TraceAt(Endpoints(x, y, x + n, y + n), n + 1);
    forall k | 0 <= k <= n
      ensures pts[k] == Pixel(x + k, y + k)
    {
      DiagonalIter(x, y, n, k);
    }
  }

  /**
   * A shallow line: y advances on every other column, where the error term
   * crosses zero.
   */
  lemma ShallowExample(x: int, y: int)
    ensures Line(x, y, x + 4, y + 2)
      == [Pixel(x, y), Pixel(x + 1, y), Pixel(x + 2, y + 1), Pixel(x + 3, y + 1), Pixel(x + 4, y + 2)]
  {
    var l := Endpoints(x, y, x + 4, y + 2);
    TraceAt(l, 5);
    assert Iter(l, 1) == Cursor(x + 1, y, 0);
    assert Iter(l, 2) == Cursor(x + 2, y + 1, 2);
    assert Iter(l, 3) == Cursor(x + 3, y + 1, 0);
    assert Iter(l, 4) == Cursor(x + 4, y + 2, 2);
  }

  /** A line drawn right to left steps x by -1 and still ends at its end point. */
  lemma ReversedExample(x: int, y: int)
    ensures Line(x + 3, y + 3, x, y) == [Pixel(x + 3, y + 3), Pixel(x + 2, y + 2), Pixel(x + 1, y + 1), Pixel(x, y)]
  {
    var l := Endpoints(x + 3, y + 3, x, y);
    TraceAt(l, 4);
    assert Iter(l, 1) == Cursor(x + 2, y + 2, 0);
    assert Iter(l, 2) == Cursor(x + 1, y + 1, 0);
    assert Iter(l, 3) == Cursor(x, y, 0);
  }

  /** Identical endpoints give exactly one point. */
  lemma SinglePoint(x: int, y: int)
    ensures Line(x, y, x, y) == [Pixel(x, y)]
  {
    TraceAt(Endpoints(x, y, x, y), 1);
  }
}
