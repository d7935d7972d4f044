/**
 * The minimap path trace, updated once per frame from the camera position.
 *
 * When the camera has moved more than half a unit along x or z since the
 * last recorded position, the old and new positions are mapped to minimap
 * pixels, the segment between them is clipped to the 200 x 200 minimap with
 * Cohen-Sutherland, and, if anything is left, its Bresenham pixels are
 * appended to the trace.  Drawing the trace is not part of this model.
 */
module PathTrace {
  import opened Math3D
  import CohenSutherland
  import Bresenham

  type Pixel = Bresenham.Pixel

  /** The minimap is `MinimapSize` pixels on each side. */
  const MinimapSize := 200

  /** The clip window: the minimap, in pixels. */
  const Minimap := CohenSutherland.Rect(0.0, MinimapSize as real, 0.0, MinimapSize as real)

  /** The trace so far and the camera position it was last extended from. */
  datatype Trace = Trace(points: seq<Pixel>, lastPos: Vec3)

  /** The state before the first frame: an empty trace anchored at the start position. */
  function Start(pos: Vec3): Trace {
    Trace([], pos)
  }

  function AbsReal(r: real): real {
    if r < 0.0 then -r else r
  }

  /** The C++ conversion `(int)r`: the fractional part is dropped, rounding toward zero. */
  function Trunc(r: real): (n: int)
    ensures 0.0 <= r ==> 0 <= n && n as real <= r < n as real + 1.0
    ensures r < 0.0 ==> n <= 0 && n as real - 1.0 < r <= n as real
  {
    if r < 0.0 then -((-r).Floor) else r.Floor
  }

  /**
   * A world coordinate in `[-25, 25]` (the 50 x 50 terrain centred on the
   * origin) mapped to a minimap pixel in `[0, 200]`: `(int)((c + 25) * 4)`.
   */
  function ToMinimap(c: real): (n: int)
    ensures -25.0 <= c ==> 0 <= n && n as real <= (c + 25.0) * 4.0 < n as real + 1.0
    ensures -25.0 <= c <= 25.0 ==> n <= MinimapSize
  {
    Trunc((c + 25.0) * 4.0)
  }

  /** The frame's movement test: more than half a unit along x or along z. */
  predicate Moved(last: Vec3, cur: Vec3) {
    AbsReal(cur.x - last.x) > 0.5 || AbsReal(cur.z - last.z) > 0.5
  }

  /** The segment from the last recorded position to `cur`, in minimap pixels. */
  function PixelSegment(last: Vec3, cur: Vec3): CohenSutherland.Segment {
    CohenSutherland.Segment(
      CohenSutherland.Point(ToMinimap(last.x) as real, ToMinimap(last.z) as real),
      CohenSutherland.Point(ToMinimap(cur.x) as real, ToMinimap(cur.z) as real))
  }

  /** The pixels a clipped segment contributes: none if rejected, else its Bresenham line. */
  function Pixels(c: CohenSutherland.Clipped): seq<Pixel> {
    if c.accept then
      Bresenham.Line(Trunc(c.seg.p0.x), Trunc(c.seg.p0.y), Trunc(c.seg.p1.x), Trunc(c.seg.p1.y))
    else
      []
  }

  /**
   * One frame's update.  Below the threshold nothing changes.  Otherwise the
   * trace can only grow and `lastPos` becomes the camera position whether or
   * not the clip accepted.
   */
  function Update(t: Trace, cur: Vec3): (r: Trace)
    ensures !Moved(t.lastPos, cur) ==> r == t
    ensures Moved(t.lastPos, cur) ==> r.lastPos == cur
    ensures t.points <= r.points
  {
    if !Moved(t.lastPos, cur) then t
    else
      var c := CohenSutherland.Clip(PixelSegment(t.lastPos, cur), Minimap);
      Trace(t.points + Pixels(c), cur)
  }

  /** The state after a sequence of frames, one camera position per frame. */
  function Run(t: Trace, positions: seq<Vec3>): Trace
    decreases |positions|
  {
    if |positions| == 0 then t else Update(Run(t, positions[..|positions| - 1]), positions[|positions| - 1])
  }

  /** Pixel `p` lies in the minimap. */
  predicate InMinimap(p: Pixel) {
    0 <= p.x <= MinimapSize && 0 <= p.y <= MinimapSize
  }

  predicate AllInMinimap(pts: seq<Pixel>) {
    forall i :: 0 <= i < |pts| ==> InMinimap(pts[i])
  }

  /** Truncation is monotone, so it keeps a value within integer bounds. */
  lemma TruncBetween(r: real, lo: int, hi: int)
    requires lo as real <= r <= hi as real
    ensures lo <= Trunc(r) <= hi
  {
  }

  /** Whatever the clipper accepts rasterises to pixels inside the minimap. */
  lemma PixelsInMinimap(s: CohenSutherland.Segment)
    ensures AllInMinimap(Pixels(CohenSutherland.Clip(s, Minimap)))
  {
    var c := CohenSutherland.Clip(s, Minimap);
    if c.accept {
      var p0, p1 := c.seg.p0, c.seg.p1;
      TruncBetween(p0.x, 0, MinimapSize);
      TruncBetween(p0.y, 0, MinimapSize);
      TruncBetween(p1.x, 0, MinimapSize);
      TruncBetween(p1.y, 0, MinimapSize);
      Bresenham.LineInBox(Trunc(p0.x), Trunc(p0.y), Trunc(p1.x), Trunc(p1.y));
    }
  }

  /**
   * If the clip rejects, the frame appends nothing; if it accepts, the
   * frame appends an 8-connected chain of pixels from the truncated clipped
   * start to the truncated clipped end, all inside the minimap.
   */
  lemma UpdateAppends(t: Trace, cur: Vec3)
    requires Moved(t.lastPos, cur)
    ensures var c, r := CohenSutherland.Clip(PixelSegment(t.lastPos, cur), Minimap), Update(t, cur);
      var added := r.points[|t.points|..];
      && (!c.accept ==> added == [])
      && (c.accept ==>
           && 0 < |added|
           && added[0] == Bresenham.Pixel(Trunc(c.seg.p0.x), Trunc(c.seg.p0.y))
           && added[|added| - 1] == Bresenham.Pixel(Trunc(c.seg.p1.x), Trunc(c.seg.p1.y))
           && Bresenham.Connected(added))
      && AllInMinimap(added)
  {
    var c, r := CohenSutherland.Clip(PixelSegment(t.lastPos, cur), Minimap), Update(t, cur);
    assert r.points[|t.points|..] == Pixels(c);
    PixelsInMinimap(PixelSegment(t.lastPos, cur));
    if c.accept {
      Bresenham.LineShape(Trunc(c.seg.p0.x), Trunc(c.seg.p0.y), Trunc(c.seg.p1.x), Trunc(c.seg.p1.y));
    }
  }

  /** Every frame keeps the whole trace inside the minimap. */
  lemma UpdateStaysInMinimap(t: Trace, cur: Vec3)
    requires AllInMinimap(t.points)
    ensures AllInMinimap(Update(t, cur).points)
  {
    if Moved(t.lastPos, cur) {
      PixelsInMinimap(PixelSegment(t.lastPos, cur));
    }
  }

  /** Over any sequence of frames, a trace inside the minimap stays inside it. */
  lemma {:induction false} RunStaysInMinimap(t: Trace, positions: seq<Vec3>)
    requires AllInMinimap(t.points)
    ensures AllInMinimap(Run(t, positions).points)
    decreases |positions|
  {
    if |positions| > 0 {
      var n := |positions| - 1;
      RunStaysInMinimap(t, positions[..n]);
      UpdateStaysInMinimap(Run(t, positions[..n]), positions[n]);
    }
  }

  /** The trace is only ever appended to: each earlier state's trace is a prefix of the latest. */
  lemma {:induction false} RunExtends(t: Trace, positions: seq<Vec3>, k: int)
    requires 0 <= k <= |positions|
    ensures Run(t, positions[..k]).points <= Run(t, positions).points
    decreases |positions|
  {
    if k < |positions| {
      var n := |positions| - 1;
      RunExtends(t, positions[..n], k);
      assert positions[..n][..k] == positions[..k];
    } else {
      assert positions[..k] == positions;
    }
  }

  /** A fresh session's trace never leaves the minimap. */
  lemma SessionInMinimap(start: Vec3, positions: seq<Vec3>)
    ensures AllInMinimap(Run(Start(start), positions).points)
  {
    RunStaysInMinimap(Start(start), positions);
  }

  /**
   * The cast truncates toward zero: a position just left of the terrain edge
   * maps to pixel 0, not -1.
   */
  lemma TruncTowardZero()
    ensures ToMinimap(-25.1) == 0
    ensures ToMinimap(-26.0) == -4
  {
  }

  /** An accepted horizontal segment between integer points contributes the pixels of its row. */
  lemma HorizontalPixels(x: int, y: int, n: nat)
    ensures var p0, p1 := CohenSutherland.Point(x as real, y as real), CohenSutherland.Point((x + n) as real, y as real);
      Pixels(CohenSutherland.Clipped(true, CohenSutherland.Segment(p0, p1))) == seq(n + 1, i => Bresenham.Pixel(x + i, y))
  {
    assert Trunc(x as real) == x && Trunc((x + n) as real) == x + n && Trunc(y as real) == y;
    Bresenham.HorizontalLine(x, y, n);
  }

  /** The pixel segment of the move in `CrossingFrame`. */
  lemma CrossingPixels(y0: real, y1: real)
    ensures PixelSegment(Vec3(-26.25, y0, -12.5), Vec3(37.5, y1, -12.5))
      == CohenSutherland.Segment(CohenSutherland.Point(-5.0, 50.0), CohenSutherland.Point(250.0, 50.0))
  {
    assert ToMinimap(-26.25) == -5 && ToMinimap(37.5) == 250 && ToMinimap(-12.5) == 50;
  }

  /**
   * Moving along z = -12.5 from x = -26.25 to x = 37.5 gives the pixel
   * segment (-5, 50)-(250, 50), which is clipped to (0, 50)-(200, 50): the
   * frame appends the 201 pixels of row 50.
   */
  lemma CrossingFrame(t: Trace, y0: real, y1: real)
    requires t.lastPos == Vec3(-26.25, y0, -12.5)
    ensures Update(t, Vec3(37.5, y1, -12.5)).points == t.points + seq(201, i => Bresenham.Pixel(i, 50))
  {
    CrossingPixels(y0, y1);
    CohenSutherland.CrossingExample();
    HorizontalPixels(0, 50, 200);
  }
}
