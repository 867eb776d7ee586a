/**
 `SSD1306::draw_line`: integer Bresenham stepping from the start point toward
 the end point with an `int8_t` error accumulator.  The loop runs while the
 current point differs from the end point and plots before it steps, so the
 end point itself is never plotted.  Spans are at most 127 pixels per axis,
 which every pair of on-panel end points meets.
 */
module Lines {
  import opened Bits
  import opened PageLayout
  import Ssd1306

  datatype Point = Point(x: UInt8, y: UInt8)

  /** |a - b|. */
  function Dist(a: int, b: int): nat
  {
    if a >= b then a - b else b - a
  }

  function Max(a: int, b: int): int
  {
    if a >= b then a else b
  }

  /** `step_x` / `step_y`: +1 toward a larger end coordinate, else -1. */
  function Direction(a: int, b: int): int
  {
    if a < b then 1 else -1
  }

  /** The coordinate `n` steps from `a` in the direction of `b`. */
  function Toward(a: int, b: int, n: int): int
  {
    if a < b then a + n else a - n
  }

  /** `v` lies between `a` and `b`, both included. */
  predicate Between(v: int, a: int, b: int)
  {
    if a <= b then a <= v <= b else b <= v <= a
  }

  /** Consecutive plotted points touch, sideways or diagonally. */
  predicate KingStep(p: Point, q: Point)
  {
    Dist(p.x, q.x) <= 1 && Dist(p.y, q.y) <= 1
  }

  /** The buffer after plotting `pts` in order with `draw_pixel`. */
  function PlotAll(data: seq<bv8>, pts: seq<Point>): (r: seq<bv8>)
    ensures |r| == |data|
  {
    if |pts| == 0 then data
    else
      var p := pts[|pts| - 1];
      PutPixel(PlotAll(data, pts[..|pts| - 1]), Ssd1306.SCREEN_WIDTH, p.x, p.y, true)
  }

  /** Plotting on-panel points lights exactly those points and keeps every other pixel. */
  lemma {:induction false} PlotAllEffect(data: seq<bv8>, pts: seq<Point>)
    requires |data| == 1024
    requires forall k | 0 <= k < |pts| :: pts[k].x < Ssd1306.SCREEN_WIDTH && pts[k].y < Ssd1306.SCREEN_HEIGHT
    ensures forall px: nat, py: nat | px < Ssd1306.SCREEN_WIDTH && py < Ssd1306.SCREEN_HEIGHT ::
      Lit(PlotAll(data, pts), Ssd1306.SCREEN_WIDTH, px, py)
        == (Lit(data, Ssd1306.SCREEN_WIDTH, px, py) || Point(px, py) in pts)
    decreases |pts|
  {
    if |pts| > 0 {
      var init, p := pts[..|pts| - 1], pts[|pts| - 1];
      PlotAllEffect(data, init);
      var before := PlotAll(data, init);
      forall px: nat, py: nat | px < Ssd1306.SCREEN_WIDTH && py < Ssd1306.SCREEN_HEIGHT
        ensures Lit(PlotAll(data, pts), Ssd1306.SCREEN_WIDTH, px, py)
          == (Lit(data, Ssd1306.SCREEN_WIDTH, px, py) || Point(px, py) in pts)
      {
        PutPixelAt(before, Ssd1306.SCREEN_WIDTH, p.x, p.y, true, px, py);
        assert pts == init + [p];
        assert (Point(px, py) in pts) == (Point(px, py) in init || Point(px, py) == p);
      }
    }
  }

  lemma MulNonNeg(a: int, b: int)
    requires a >= 0 && b >= 0
    ensures a * b >= 0
  {
  }

  /**
   Before a step, the error term says how far the current point lies from
   the ideal line: within half a pixel across the longer axis.
   */
  lemma LineCloseness(dx: int, dy: int, rx: int, ry: int, err0: int, e: int)
    requires dx >= 0 && dy >= 0 && e == err0 - dy * rx + dx * ry
    requires dx > dy ==> err0 == dx / 2 && 0 <= e < dx
    requires dx <= dy ==> dy > 0 && err0 == -(dy / 2) && -dy < e <= 0
    ensures dx > dy ==> 2 * Dist(dx * ry, dy * rx) <= dx
    ensures dx <= dy ==> 2 * Dist(dy * rx, dx * ry) <= dy
  {
  }

  /**
   The minor axis never overshoots: when `m * k` stays below `m`, `k` is at
   most 0, and it is exactly 0 once nothing is left to subtract.
   */
  lemma CatchUp(m: int, k: int, t: int, u: int)
    requires m > 0 && u >= 0 && m * k == t - u && -m < t < m
    ensures k <= 0
    ensures u == 0 ==> k == 0
  {
    if k > 0 {
      MulAtLeast(m, k);
    } else if k < 0 {
      MulAtLeast(m, -k);
      assert m * k == -(m * -k);
    }
  }

  /**
   One step of a line whose x span is the longer: x always moves, y moves
   when the error is below dy, and the error stays in [0, dx).  Once x has
   made all dx steps, y has made all dy.
   */
  lemma XMajorStep(dx: int, dy: int, rx: int, ry: int, err0: int, e: int)
    requires 0 <= dy < dx && err0 == dx / 2 && 0 <= rx < dx && 0 <= ry <= dy
    requires e == err0 - dy * rx + dx * ry && 0 <= e < dx
    ensures e > -dx
    ensures var yMoves := e < dy;
            var eNext := e - dy + (if yMoves then dx else 0);
            var ryNext := ry + (if yMoves then 1 else 0);
            eNext == err0 - dy * (rx + 1) + dx * ryNext && 0 <= eNext < dx && ryNext <= dy &&
            (rx + 1 == dx ==> ryNext == dy)
  {
    XMajorError(dx, dy, rx, ry, err0, e);
    XMajorCatchUp(dx, dy, rx, ry, err0, e);
  }

  /** The x-major error update keeps the error equal to its closed form. */
  lemma XMajorError(dx: int, dy: int, rx: int, ry: int, err0: int, e: int)
    requires e == err0 - dy * rx + dx * ry
    ensures var ryNext := ry + (if e < dy then 1 else 0);
            e - dy + (if e < dy then dx else 0) == err0 - dy * (rx + 1) + dx * ryNext
  {
    assert dy * (rx + 1) == dy * rx + dy;
    assert dx * (ry + 1) == dx * ry + dx;
  }

  /** In an x-major step y never passes its end, and reaches it with x. */
  lemma XMajorCatchUp(dx: int, dy: int, rx: int, ry: int, err0: int, e: int)
    requires 0 <= dy < dx && err0 == dx / 2 && 0 <= rx < dx && 0 <= ry <= dy
    requires e == err0 - dy * rx + dx * ry && 0 <= e < dx
    ensures var ryNext := ry + (if e < dy then 1 else 0);
            ryNext <= dy && (rx + 1 == dx ==> ryNext == dy)
  {
    assert 0 <= err0 < dx;
    var ryNext := ry + (if e < dy then 1 else 0);
    var eNext := e - dy + (if e < dy then dx else 0);
    XMajorError(dx, dy, rx, ry, err0, e);
    var u := dy * (dx - rx - 1);
    MulNonNeg(dy, dx - rx - 1);
    Distrib(dx, ryNext, dy);
    Distrib(dy, dx, rx + 1);
    CatchUp(dx, ryNext - dy, eNext - err0, u);
  }

  /**
   One step of a line whose y span is at least the x span: y always moves,
   x moves when the error is above -dx, and the error stays in (-dy, 0].
   Once y has made all dy steps, x has made all dx.
   */
  lemma YMajorStep(dx: int, dy: int, rx: int, ry: int, err0: int, e: int)
    requires 0 <= dx <= dy && 0 < dy && err0 == -(dy / 2) && 0 <= rx <= dx && 0 <= ry < dy
    requires e == err0 - dy * rx + dx * ry && -dy < e <= 0
    ensures e < dy
    ensures var xMoves := e > -dx;
            var eNext := e + dx - (if xMoves then dy else 0);
            var rxNext := rx + (if xMoves then 1 else 0);
            eNext == err0 - dy * rxNext + dx * (ry + 1) && -dy < eNext <= 0 && rxNext <= dx &&
            (ry + 1 == dy ==> rxNext == dx)
  {
    YMajorError(dx, dy, rx, ry, err0, e);
    YMajorCatchUp(dx, dy, rx, ry, err0, e);
  }

  /** The y-major error update keeps the error equal to its closed form. */
  lemma YMajorError(dx: int, dy: int, rx: int, ry: int, err0: int, e: int)
    requires e == err0 - dy * rx + dx * ry
    ensures var rxNext := rx + (if e > -dx then 1 else 0);
            e + dx - (if e > -dx then dy else 0) == err0 - dy * rxNext + dx * (ry + 1)
  {
    assert dx * (ry + 1) == dx * ry + dx;
    assert dy * (rx + 1) == dy * rx + dy;
  }

  /** In a y-major step x never passes its end, and reaches it with y. */
  lemma YMajorCatchUp(dx: int, dy: int, rx: int, ry: int, err0: int, e: int)
    requires 0 <= dx <= dy && 0 < dy && err0 == -(dy / 2) && 0 <= rx <= dx && 0 <= ry < dy
    requires e == err0 - dy * rx + dx * ry && -dy < e <= 0
    ensures var rxNext := rx + (if e > -dx then 1 else 0);
            rxNext <= dx && (ry + 1 == dy ==> rxNext == dx)
  {
    assert -dy < err0 <= 0;
    var rxNext := rx + (if e > -dx then 1 else 0);
    var eNext := e + dx - (if e > -dx then dy else 0);
    YMajorError(dx, dy, rx, ry, err0, e);
    var u := dx * (dy - ry - 1);
    MulNonNeg(dx, dy - ry - 1);
    Distrib(dy, rxNext, dx);
    Distrib(dx, dy, ry + 1);
    CatchUp(dy, rxNext - dx, err0 - eNext, u);
  }

  /** Multiplication distributes over a difference. */
  lemma Distrib(a: int, b: int, c: int)
    ensures a * (b - c) == a * b - a * c
    ensures a * c == c * a
  {
  }

  /** Point `p` may be point `k` of the line: in the bounding box, k steps along the longer axis, near the ideal line. */
  predicate Fits(p: Point, k: int, startX: UInt8, startY: UInt8, endX: UInt8, endY: UInt8)
  {
    var dx, dy := Dist(startX, endX), Dist(startY, endY);
    Between(p.x, startX, endX) && Between(p.y, startY, endY) &&
    (dx > dy ==> p.x == Toward(startX, endX, k) && 2 * Dist(dx * Dist(p.y, startY), dy * k) <= dx) &&
    (dx <= dy ==> p.y == Toward(startY, endY, k) && 2 * Dist(dy * Dist(p.x, startX), dx * k) <= dy)
  }

  /** The points plotted so far start at the start point, each fits its index and touches the next. */
  predicate Shape(pts: seq<Point>, startX: UInt8, startY: UInt8, endX: UInt8, endY: UInt8)
  {
    (|pts| > 0 ==> pts[0] == Point(startX, startY)) &&
    (forall k | 0 <= k < |pts| :: Fits(pts[k], k, startX, startY, endX, endY)) &&
    (forall k | 0 <= k < |pts| - 1 :: KingStep(pts[k], pts[k + 1]))
  }

  lemma ShapeGrows(pts: seq<Point>, p: Point, startX: UInt8, startY: UInt8, endX: UInt8, endY: UInt8)
    requires Shape(pts, startX, startY, endX, endY) && Fits(p, |pts|, startX, startY, endX, endY)
    requires |pts| == 0 ==> p == Point(startX, startY)
    requires |pts| > 0 ==> KingStep(pts[|pts| - 1], p)
    ensures Shape(pts + [p], startX, startY, endX, endY)
  {
    var q := pts + [p];
    forall k | 0 <= k < |q| ensures Fits(q[k], k, startX, startY, endX, endY) {
      if k < |pts| {
        assert q[k] == pts[k];
      }
    }
  }

  /** What the shape of a finished line says about all of its points. */
  lemma ShapeOfFinishedLine(pts: seq<Point>, startX: UInt8, startY: UInt8, endX: UInt8, endY: UInt8)
    requires Shape(pts, startX, startY, endX, endY)
    requires |pts| == Max(Dist(startX, endX), Dist(startY, endY))
    ensures forall k | 0 <= k < |pts| :: pts[k] != Point(endX, endY)
    ensures forall k | 0 <= k < |pts| :: Between(pts[k].x, startX, endX) && Between(pts[k].y, startY, endY)
    ensures Dist(startX, endX) > Dist(startY, endY) ==> forall k | 0 <= k < |pts| ::
      pts[k].x == Toward(startX, endX, k) &&
      2 * Dist(Dist(startX, endX) * Dist(pts[k].y, startY), Dist(startY, endY) * k) <= Dist(startX, endX)
    ensures Dist(startX, endX) <= Dist(startY, endY) ==> forall k | 0 <= k < |pts| ::
      pts[k].y == Toward(startY, endY, k) &&
      2 * Dist(Dist(startY, endY) * Dist(pts[k].x, startX), Dist(startX, endX) * k) <= Dist(startY, endY)
    ensures startY == endY ==> forall k | 0 <= k < |pts| :: pts[k] == Point(Toward(startX, endX, k), startY)
    ensures startX < Ssd1306.SCREEN_WIDTH && startY < Ssd1306.SCREEN_HEIGHT &&
            endX < Ssd1306.SCREEN_WIDTH && endY < Ssd1306.SCREEN_HEIGHT ==>
      forall k | 0 <= k < |pts| :: pts[k].x < Ssd1306.SCREEN_WIDTH && pts[k].y < Ssd1306.SCREEN_HEIGHT
  {
    forall k | 0 <= k < |pts| ensures pts[k] != Point(endX, endY) {
      assert Fits(pts[k], k, startX, startY, endX, endY);
    }
  }

  /** The loop variables of `draw_line`: the current point and the `int8_t` error. */
  datatype Tracer = Tracer(x: UInt8, y: UInt8, err: int)

  /**
   The stepping half of one loop iteration, in the source's order and
   widths: with `err2` the error before the step, x moves when
   err2 > -dx (err -= dy), then y moves when err2 < dy (err += dx); the
   error is stored as int8_t and the coordinates as uint8_t.
   */
  function Advance(t: Tracer, dx: int, dy: int, stepX: int, stepY: int): Tracer
  {
    var err2 := t.err;
    var afterX := if err2 > -dx then Tracer(U8(t.x + stepX), t.y, I8(t.err - dy)) else t;
    if err2 < dy then Tracer(afterX.x, U8(afterX.y + stepY), I8(afterX.err + dx)) else afterX
  }

  /** Initial error: ((dx > dy) ? dx : -dy) / 2 with C division, truncating toward zero. */
  function InitialError(dx: int, dy: int): int
  {
    if dx > dy then dx / 2 else -(dy / 2)
  }

  /** Points plotted after rx x-steps and ry y-steps: one per step along the longer axis. */
  function Plotted(rx: int, ry: int, dx: int, dy: int): int
  {
    if dx > dy then rx else ry
  }

  /**
   The loop state after rx steps in x and ry steps in y: the point is that
   many steps from the start, the error is the Bresenham term and lies in
   [0, dx) when x is the longer axis, (-dy, 0] otherwise.
   */
  predicate Tracing(t: Tracer, rx: int, ry: int, startX: UInt8, startY: UInt8, endX: UInt8, endY: UInt8)
  {
    var dx: int, dy: int := Dist(startX, endX), Dist(startY, endY);
    0 <= rx <= dx && 0 <= ry <= dy &&
    t.x == Toward(startX, endX, rx) && t.y == Toward(startY, endY, ry) &&
    t.err == InitialError(dx, dy) - dy * rx + dx * ry &&
    (dx > dy ==> 0 <= t.err < dx && (rx == dx ==> ry == dy)) &&
    (dx <= dy ==> (-dy < t.err <= 0 || dy == 0) && (ry == dy ==> rx == dx))
  }

  /** A `uint8_t` coordinate stepped once toward `b` is one more step from `a`. */
  lemma TowardStep(a: UInt8, b: UInt8, n: int)
    requires 0 <= n < Dist(a, b)
    ensures U8(Toward(a, b, n) + Direction(a, b)) == Toward(a, b, n + 1)
  {
  }

  /**
   The error after one iteration, both `int8_t` stores included: the
   Bresenham update, with no wrap-around once both updates are done.
   */
  lemma ErrorStep(t: Tracer, dx: int, dy: int, stepX: int, stepY: int)
    requires 0 <= dx <= 127 && 0 <= dy <= 127
    requires -127 <= t.err <= 127
    requires t.err > -dx && t.err >= dy ==> -128 <= t.err - dy
    ensures Advance(t, dx, dy, stepX, stepY).err
      == t.err - (if t.err > -dx then dy else 0) + (if t.err < dy then dx else 0)
  {
    var e := t.err;
    if e > -dx && e < dy {
      I8Absorbs(e - dy, dx);
    }
  }

  /** The point about to be plotted fits its index: the loop state places it on the line. */
  lemma TracingFits(t: Tracer, rx: int, ry: int, startX: UInt8, startY: UInt8, endX: UInt8, endY: UInt8)
    requires Tracing(t, rx, ry, startX, startY, endX, endY) && (t.x != endX || t.y != endY)
    ensures Fits(Point(t.x, t.y), Plotted(rx, ry, Dist(startX, endX), Dist(startY, endY)), startX, startY, endX, endY)
  {
    var dx: int, dy: int := Dist(startX, endX), Dist(startY, endY);
    LineCloseness(dx, dy, rx, ry, InitialError(dx, dy), t.err);
  }

  /** One iteration of a line whose x span is the longer keeps the loop state. */
  lemma AdvanceXMajor(t: Tracer, rx: int, ry: int, startX: UInt8, startY: UInt8, endX: UInt8, endY: UInt8)
    returns (rx': int, ry': int)
    requires Dist(startX, endX) <= 127 && Dist(startY, endY) < Dist(startX, endX)
    requires Tracing(t, rx, ry, startX, startY, endX, endY) && (t.x != endX || t.y != endY)
    ensures var n := Advance(t, Dist(startX, endX), Dist(startY, endY), Direction(startX, endX), Direction(startY, endY));
      Tracing(n, rx', ry', startX, startY, endX, endY) && rx' == rx + 1 &&
      KingStep(Point(t.x, t.y), Point(n.x, n.y))
  {
    var dx: int, dy: int := Dist(startX, endX), Dist(startY, endY);
    var e := t.err;
    XMajorStep(dx, dy, rx, ry, InitialError(dx, dy), e);
    rx' := rx + 1;
    ry' := if e < dy then ry + 1 else ry;
    ErrorStep(t, dx, dy, Direction(startX, endX), Direction(startY, endY));
    TowardStep(startX, endX, rx);
    if e < dy {
      TowardStep(startY, endY, ry);
    }
  }

  /** One iteration of a line whose y span is at least the x span keeps the loop state. */
  lemma AdvanceYMajor(t: Tracer, rx: int, ry: int, startX: UInt8, startY: UInt8, endX: UInt8, endY: UInt8)
    returns (rx': int, ry': int)
    requires Dist(startY, endY) <= 127 && Dist(startX, endX) <= Dist(startY, endY)
    requires Tracing(t, rx, ry, startX, startY, endX, endY) && (t.x != endX || t.y != endY)
    ensures var n := Advance(t, Dist(startX, endX), Dist(startY, endY), Direction(startX, endX), Direction(startY, endY));
      Tracing(n, rx', ry', startX, startY, endX, endY) && ry' == ry + 1 &&
      KingStep(Point(t.x, t.y), Point(n.x, n.y))
  {
    var dx: int, dy: int := Dist(startX, endX), Dist(startY, endY);
    var e := t.err;
    YMajorStep(dx, dy, rx, ry, InitialError(dx, dy), e);
    rx' := if e > -dx then rx + 1 else rx;
    ry' := ry + 1;
    ErrorStep(t, dx, dy, Direction(startX, endX), Direction(startY, endY));
    TowardStep(startY, endY, ry);
    if e > -dx {
      TowardStep(startX, endX, rx);
    }
  }

  /** The loop stops at the end point, after one plotted point per step along the longer axis. */
  lemma TracingDone(t: Tracer, rx: int, ry: int, startX: UInt8, startY: UInt8, endX: UInt8, endY: UInt8)
    requires Tracing(t, rx, ry, startX, startY, endX, endY) && t.x == endX && t.y == endY
    ensures Plotted(rx, ry, Dist(startX, endX), Dist(startY, endY)) == Max(Dist(startX, endX), Dist(startY, endY))
  {
    assert rx == Dist(startX, endX) && ry == Dist(startY, endY);
  }

  /**
   One iteration keeps the loop state: the point it plots fits its index
   and touches the next point, and exactly one more point is plotted.
   */
  lemma AdvanceKeepsTracing(t: Tracer, rx: int, ry: int, startX: UInt8, startY: UInt8, endX: UInt8, endY: UInt8)
    returns (rx': int, ry': int)
    requires Dist(startX, endX) <= 127 && Dist(startY, endY) <= 127
    requires Tracing(t, rx, ry, startX, startY, endX, endY) && (t.x != endX || t.y != endY)
    ensures var dx, dy := Dist(startX, endX), Dist(startY, endY);
      var n := Advance(t, dx, dy, Direction(startX, endX), Direction(startY, endY));
      Tracing(n, rx', ry', startX, startY, endX, endY) &&
      Plotted(rx', ry', dx, dy) == Plotted(rx, ry, dx, dy) + 1 &&
      KingStep(Point(t.x, t.y), Point(n.x, n.y))
    ensures Fits(Point(t.x, t.y), Plotted(rx, ry, Dist(startX, endX), Dist(startY, endY)), startX, startY, endX, endY)
  {
    TracingFits(t, rx, ry, startX, startY, endX, endY);
    if Dist(startY, endY) < Dist(startX, endX) {
      rx', ry' := AdvanceXMajor(t, rx, ry, startX, startY, endX, endY);
    } else {
      rx', ry' := AdvanceYMajor(t, rx, ry, startX, startY, endX, endY);
    }
  }

  /**
   `draw_line(start_x, start_y, end_x, end_y)`.  Returns the display and
   the plotted points in plotting order.  There are max(|dx|, |dy|) of
   them: the start point first, never the end point, all inside the
   bounding box, each touching the next, the last touching the end point.
   Along the longer axis point k is k steps from the start; across it the
   point stays within half a pixel of the ideal line.  The buffer is the
   old one with those points drawn, and an update is pending once a point
   was drawn.
   */
  method DrawLine(d: Ssd1306.Display, startX: UInt8, startY: UInt8, endX: UInt8, endY: UInt8)
    returns (r: Ssd1306.Display, pts: seq<Point>)
    requires Ssd1306.Valid(d)
    requires Dist(startX, endX) <= 127 && Dist(startY, endY) <= 127
    ensures Ssd1306.Valid(r) && Ssd1306.SameSettings(d, r)
    ensures r.pending == (d.pending || |pts| > 0)
    ensures r.fb.data == PlotAll(d.fb.data, pts)
    ensures |pts| == Max(Dist(startX, endX), Dist(startY, endY))
    ensures |pts| > 0 ==> pts[0] == Point(startX, startY)
    ensures forall k | 0 <= k < |pts| :: pts[k] != Point(endX, endY)
    ensures forall k | 0 <= k < |pts| :: Between(pts[k].x, startX, endX) && Between(pts[k].y, startY, endY)
    ensures forall k | 0 <= k < |pts| - 1 :: KingStep(pts[k], pts[k + 1])
    ensures |pts| > 0 ==> KingStep(pts[|pts| - 1], Point(endX, endY))
    ensures Dist(startX, endX) > Dist(startY, endY) ==> forall k | 0 <= k < |pts| ::
      pts[k].x == Toward(startX, endX, k) &&
      2 * Dist(Dist(startX, endX) * Dist(pts[k].y, startY), Dist(startY, endY) * k) <= Dist(startX, endX)
    ensures Dist(startX, endX) <= Dist(startY, endY) ==> forall k | 0 <= k < |pts| ::
      pts[k].y == Toward(startY, endY, k) &&
      2 * Dist(Dist(startY, endY) * Dist(pts[k].x, startX), Dist(startX, endX) * k) <= Dist(startY, endY)
    ensures startY == endY ==> forall k | 0 <= k < |pts| :: pts[k] == Point(Toward(startX, endX, k), startY)
    ensures startX < Ssd1306.SCREEN_WIDTH && startY < Ssd1306.SCREEN_HEIGHT &&
            endX < Ssd1306.SCREEN_WIDTH && endY < Ssd1306.SCREEN_HEIGHT ==>
      forall px: nat, py: nat | px < Ssd1306.SCREEN_WIDTH && py < Ssd1306.SCREEN_HEIGHT ::
        Ssd1306.Pixel(r, px, py) == (Ssd1306.Pixel(d, px, py) || Point(px, py) in pts)
  {
    var dx := Dist(startX, endX);
    var dy := Dist(startY, endY);
    var stepX := Direction(startX, endX);
    var stepY := Direction(startY, endY);
    var t := Tracer(startX, startY, InitialError(dx, dy));
    Ssd1306.BufferIs1024Bytes(d);
    var data := d.fb.data;
    pts := [];
    ghost var rx, ry := 0, 0;
    while t.x != endX || t.y != endY
      invariant |data| == |d.fb.data| && data == PlotAll(d.fb.data, pts)
      invariant Tracing(t, rx, ry, startX, startY, endX, endY) && |pts| == Plotted(rx, ry, dx, dy)
      invariant Shape(pts, startX, startY, endX, endY)
      invariant |pts| > 0 ==> KingStep(pts[|pts| - 1], Point(t.x, t.y))
      invariant |pts| == 0 ==> t.x == startX && t.y == startY
      decreases Max(dx, dy) - |pts|
    {
      var here := Point(t.x, t.y);
      rx, ry := AdvanceKeepsTracing(t, rx, ry, startX, startY, endX, endY);
      ShapeGrows(pts, here, startX, startY, endX, endY);
      pts := pts + [here];
      data := PutPixel(data, Ssd1306.SCREEN_WIDTH, here.x, here.y, true);
      t := Advance(t, dx, dy, stepX, stepY);
    }
    TracingDone(t, rx, ry, startX, startY, endX, endY);
    r := d.(fb := d.fb.(data := data), pending := d.pending || |pts| > 0);
    ShapeOfFinishedLine(pts, startX, startY, endX, endY);
    if startX < Ssd1306.SCREEN_WIDTH && startY < Ssd1306.SCREEN_HEIGHT &&
       endX < Ssd1306.SCREEN_WIDTH && endY < Ssd1306.SCREEN_HEIGHT {
      PlotAllEffect(d.fb.data, pts);
    }
  }
}
