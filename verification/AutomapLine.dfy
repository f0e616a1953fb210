/** The line drawing of am_map.c: which pixels a segment paints. */
module AutomapLine {
  import opened Common

  datatype Point = Point(x: int, y: int)
  datatype Segment = Segment(a: Point, b: Point)

  /** How far `x` lies from `from` in the direction of `to`. */
  function Along(from: int, to: int, x: int): int {
    if to < from then from - x else x - from
  }

  /** A step of `u` on the major axis and `v` on the minor axis is within half a pixel of the line
      that gains `minor` over `major`; of two pixels half a pixel away the farther one counts. */
  predicate Near(major: nat, minor: nat, u: int, v: int) {
    0 <= u <= major && if major == 0 then v == 0 else 0 - major <= 2 * (u * minor - v * major) < major
  }

  /** The pixels of a segment. */
  predicate OnLine(s: Segment, p: Point) {
    var dx, dy := Abs(s.b.x - s.a.x), Abs(s.b.y - s.a.y);
    var u, v := Along(s.a.x, s.b.x, p.x), Along(s.a.y, s.b.y, p.y);
    if dx > dy then Near(dx, dy, u, v) else Near(dy, dx, v, u)
  }

  /** The one pixel of each step. */
  function Nearest(major: nat, minor: nat, u: nat): (v: nat)
    requires u <= major
  {
    if major == 0 then 0 else (2 * u * minor + major) / (2 * major)
  }

  lemma NearUnique(major: nat, minor: nat, u: int, v: int, w: int)
    requires Near(major, minor, u, v) && Near(major, minor, u, w)
    ensures v == w
  {
    if v < w {
      MulGap(v, w, major);
    } else if w < v {
      MulGap(w, v, major);
    }
  }

  lemma NearestIsNear(major: nat, minor: nat, u: nat)
    requires u <= major
    ensures Near(major, minor, u, Nearest(major, minor, u))
    ensures minor <= major ==> Nearest(major, minor, u) <= minor
  {
    if major != 0 {
      var n, d := 2 * u * minor + major, 2 * major;
      var v := Nearest(major, minor, u);
      DivModNat(n, d);
      assert v * d == 2 * (v * major) && 2 * u * minor == 2 * (u * minor);
      if v > minor {
        MulGap(minor, v, major);
        MulMonotone(u, major, minor);
      }
    }
  }

  /** Within half a pixel of the line means on the minor span. */
  lemma NearInSpan(major: nat, minor: nat, u: int, v: int)
    requires Near(major, minor, u, v) && minor <= major
    ensures 0 <= v <= minor
  {
    NearestIsNear(major, minor, u);
    NearUnique(major, minor, u, v, Nearest(major, minor, u));
  }

  /** The error term that decides the next step from step `u`, row `v`. */
  function Decision(major: nat, minor: nat, u: int, v: int): int {
    2 * (u * minor - v * major) + 2 * minor - major
  }

  /** Stepping the minor axis exactly when the error term is not negative stays nearest to the line. */
  lemma NearStep(major: nat, minor: nat, u: int, v: int)
    requires Near(major, minor, u, v) && u < major && minor <= major
    ensures var d := Decision(major, minor, u, v);
            var w := if d >= 0 then v + 1 else v;
            && Near(major, minor, u + 1, w)
            && Decision(major, minor, u + 1, w) == d - (if d >= 0 then 2 * major else 0) + 2 * minor
  {
    assert (u + 1) * minor == u * minor + minor;
    assert (v + 1) * major == v * major + major;
  }

  predicate InFrame(w: int, h: int, p: Point) {
    0 <= p.x < w && 0 <= p.y < h
  }

  /** A segment with both ends in the frame. */
  predicate SegmentInFrame(w: int, h: int, s: Segment) {
    InFrame(w, h, s.a) && InFrame(w, h, s.b)
  }

  /** Every pixel of a segment in the frame is in the frame; the ends are two of them. */
  lemma LineInFrame(w: int, h: int, s: Segment, p: Point)
    requires SegmentInFrame(w, h, s) && OnLine(s, p)
    ensures InFrame(w, h, p)
  {
    var dx, dy := Abs(s.b.x - s.a.x), Abs(s.b.y - s.a.y);
    var u, v := Along(s.a.x, s.b.x, p.x), Along(s.a.y, s.b.y, p.y);
    if dx > dy {
      NearInSpan(dx, dy, u, v);
    } else {
      NearInSpan(dy, dx, v, u);
    }
  }

  lemma EndsOnLine(s: Segment)
    ensures OnLine(s, s.a) && OnLine(s, s.b)
  {
  }

  /** The byte of a pixel in a frame buffer. */
  function Pixel(w: int, h: int, fb: seq<byte>, x: int, y: int): byte
    requires |fb| == w * h && InFrame(w, h, Point(x, y))
  {
    OffsetInBuffer(w, h, x, y);
    fb[y * w + x]
  }

  /** Two buffers differ in one pixel at most. */
  ghost predicate Dotted(w: int, h: int, was: seq<byte>, fb: seq<byte>, x: int, y: int, color: byte)
    requires |fb| == |was| == w * h
  {
    forall i, j | InFrame(w, h, Point(i, j)) ::
      Pixel(w, h, fb, i, j) == if i == x && j == y then color else Pixel(w, h, was, i, j)
  }

  /** Steps along the major axis from the start of the segment. */
  function Steps(s: Segment, p: Point): int {
    if Abs(s.b.x - s.a.x) > Abs(s.b.y - s.a.y) then Along(s.a.x, s.b.x, p.x) else Along(s.a.y, s.b.y, p.y)
  }

  /** The pixels of the segment up to step `k` are painted, and no other pixel differs. */
  ghost predicate PaintedTo(w: int, h: int, was: seq<byte>, fb: seq<byte>, s: Segment, color: byte, k: int)
    requires |fb| == |was| == w * h
  {
    forall x, y | InFrame(w, h, Point(x, y)) ::
      Pixel(w, h, fb, x, y) ==
      if OnLine(s, Point(x, y)) && Steps(s, Point(x, y)) <= k then color else Pixel(w, h, was, x, y)
  }

  /** A segment is painted: its pixels have the color and no other pixel differs. */
  ghost predicate Painted(w: int, h: int, was: seq<byte>, fb: seq<byte>, s: Segment, color: byte)
    requires |fb| == |was| == w * h
  {
    forall x, y | InFrame(w, h, Point(x, y)) ::
      Pixel(w, h, fb, x, y) == if OnLine(s, Point(x, y)) then color else Pixel(w, h, was, x, y)
  }

  lemma NothingPainted(w: int, h: int, was: seq<byte>, s: Segment, color: byte)
    requires |was| == w * h
    ensures PaintedTo(w, h, was, was, s, color, -1)
  {
  }

  /** Painting the pixel of step `k` extends the painted part by that step. */
  lemma DotPaints(w: int, h: int, was: seq<byte>, before: seq<byte>, after: seq<byte>,
                  s: Segment, color: byte, k: int, x: int, y: int)
    requires |was| == |before| == |after| == w * h
    requires InFrame(w, h, Point(x, y)) && OnLine(s, Point(x, y)) && Steps(s, Point(x, y)) == k
    requires PaintedTo(w, h, was, before, s, color, k - 1)
    requires Dotted(w, h, before, after, x, y, color)
    ensures PaintedTo(w, h, was, after, s, color, k)
  {
    var dx, dy := Abs(s.b.x - s.a.x), Abs(s.b.y - s.a.y);
    forall i, j | InFrame(w, h, Point(i, j)) && OnLine(s, Point(i, j)) && Steps(s, Point(i, j)) == k
      ensures i == x && j == y
    {
      if dx > dy {
        NearUnique(dx, dy, k, Along(s.a.y, s.b.y, y), Along(s.a.y, s.b.y, j));
      } else {
        NearUnique(dy, dx, k, Along(s.a.x, s.b.x, x), Along(s.a.x, s.b.x, i));
      }
    }
  }

  /** The last step completes the segment. */
  lemma PaintedAll(w: int, h: int, was: seq<byte>, fb: seq<byte>, s: Segment, color: byte)
    requires |fb| == |was| == w * h
    requires PaintedTo(w, h, was, fb, s, color, Max(Abs(s.b.x - s.a.x), Abs(s.b.y - s.a.y)))
    ensures Painted(w, h, was, fb, s, color)
  {
  }

  lemma CrossMagnitude(dx: int, dy: int, x: int, y: int, u: int, v: int)
    requires u == (if dx < 0 then -x else x) && v == (if dy < 0 then -y else y)
    ensures Abs(dx * y - dy * x) == Abs(u * Abs(dy) - v * Abs(dx))
  {
    SignedProduct(Abs(dx), v);
    SignedProduct(Abs(dy), u);
    assert dx * y == if (dx < 0) == (dy < 0) then Abs(dx) * v else -(Abs(dx) * v);
    assert dy * x == if (dx < 0) == (dy < 0) then Abs(dy) * u else -(Abs(dy) * u);
  }

  /** In coordinates: the cross product with the segment is at most half its longer side, so the
      pixel is at most half a pixel off the ideal line along the minor axis. */
  lemma HalfPixel(s: Segment, p: Point)
    requires OnLine(s, p)
    ensures 2 * Abs((s.b.x - s.a.x) * (p.y - s.a.y) - (s.b.y - s.a.y) * (p.x - s.a.x))
            <= Max(Abs(s.b.x - s.a.x), Abs(s.b.y - s.a.y))
  {
    var u, v := Along(s.a.x, s.b.x, p.x), Along(s.a.y, s.b.y, p.y);
    CrossMagnitude(s.b.x - s.a.x, s.b.y - s.a.y, p.x - s.a.x, p.y - s.a.y, u, v);
  }

  // ----- the drawing loops

  /** Steps from one end to the other. */
  function Length(s: Segment): nat {
    Max(Abs(s.b.x - s.a.x), Abs(s.b.y - s.a.y))
  }

  /** The pixel a loop is at, and the error term that decides where the next one is. */
  datatype Walker = Walker(x: int, y: int, d: int)

  function Sign(from: int, to: int): int {
    if to < from then -1 else 1
  }

  function Start(s: Segment): Walker {
    var ax, ay := 2 * Abs(s.b.x - s.a.x), 2 * Abs(s.b.y - s.a.y);
    Walker(s.a.x, s.a.y, if ax > ay then ay - ax / 2 else ax - ay / 2)
  }

  function Next(s: Segment, p: Walker): Walker {
    var ax, ay := 2 * Abs(s.b.x - s.a.x), 2 * Abs(s.b.y - s.a.y);
    var sx, sy := Sign(s.a.x, s.b.x), Sign(s.a.y, s.b.y);
    if ax > ay then Walker(p.x + sx, if p.d >= 0 then p.y + sy else p.y, (if p.d >= 0 then p.d - ax else p.d) + ay)
    else Walker(if p.d >= 0 then p.x + sx else p.x, p.y + sy, (if p.d >= 0 then p.d - ay else p.d) + ax)
  }

  /** The loop after `k` rounds. */
  function Walk(s: Segment, k: nat): Walker {
    if k == 0 then Start(s) else Next(s, Walk(s, k - 1))
  }

  /** The pixel is that of step `k`, and the error term is the decision at that step. */
  predicate AtStep(s: Segment, k: nat, p: Walker) {
    var dx, dy := Abs(s.b.x - s.a.x), Abs(s.b.y - s.a.y);
    var u, v := Along(s.a.x, s.b.x, p.x), Along(s.a.y, s.b.y, p.y);
    if dx > dy then u == k && Near(dx, dy, u, v) && p.d == Decision(dx, dy, u, v)
    else v == k && Near(dy, dx, v, u) && p.d == Decision(dy, dx, v, u)
  }

  /** One step on an axis, in the direction of the segment. */
  lemma AlongNext(from: int, to: int, x: int)
    ensures Along(from, to, x + Sign(from, to)) == Along(from, to, x) + 1
  {
  }

  lemma NextStepX(s: Segment, k: nat, p: Walker)
    requires Abs(s.b.x - s.a.x) > Abs(s.b.y - s.a.y) && k < Length(s) && AtStep(s, k, p)
    ensures AtStep(s, k + 1, Next(s, p))
  {
    NearStep(Abs(s.b.x - s.a.x), Abs(s.b.y - s.a.y), k, Along(s.a.y, s.b.y, p.y));
    AlongNext(s.a.x, s.b.x, p.x);
    AlongNext(s.a.y, s.b.y, p.y);
  }

  lemma NextStepY(s: Segment, k: nat, p: Walker)
    requires Abs(s.b.x - s.a.x) <= Abs(s.b.y - s.a.y) && k < Length(s) && AtStep(s, k, p)
    ensures AtStep(s, k + 1, Next(s, p))
  {
    NearStep(Abs(s.b.y - s.a.y), Abs(s.b.x - s.a.x), k, Along(s.a.x, s.b.x, p.x));
    AlongNext(s.a.x, s.b.x, p.x);
    AlongNext(s.a.y, s.b.y, p.y);
  }

  lemma {:induction false} WalkSteps(s: Segment, k: nat)
    requires k <= Length(s)
    ensures AtStep(s, k, Walk(s, k))
  {
    if k > 0 {
      WalkSteps(s, k - 1);
      if Abs(s.b.x - s.a.x) > Abs(s.b.y - s.a.y) {
        NextStepX(s, k - 1, Walk(s, k - 1));
      } else {
        NextStepY(s, k - 1, Walk(s, k - 1));
      }
    }
  }

  /** The pixel of a round is one of the segment, in the frame with it, and the last round is at the end. */
  lemma WalkInFrame(w: int, h: int, s: Segment, k: nat)
    requires SegmentInFrame(w, h, s) && k <= Length(s)
    ensures var p := Point(Walk(s, k).x, Walk(s, k).y);
            && OnLine(s, p) && Steps(s, p) == k && InFrame(w, h, p)
            && (k == Length(s) <==> if Abs(s.b.x - s.a.x) > Abs(s.b.y - s.a.y) then p.x == s.b.x else p.y == s.b.y)
  {
    WalkSteps(s, k);
    LineInFrame(w, h, s, Point(Walk(s, k).x, Walk(s, k).y));
  }

  /** A buffer with one byte changed. */
  function Dot(w: int, fb: seq<byte>, x: int, y: int, color: byte): (r: seq<byte>)
    ensures |r| == |fb|
  {
    if 0 <= Offset(w, x, y) < |fb| then fb[Offset(w, x, y) := color] else fb
  }

  lemma DotChangesOne(w: int, h: int, fb: seq<byte>, x: int, y: int, color: byte)
    requires |fb| == w * h && InFrame(w, h, Point(x, y))
    ensures Dotted(w, h, fb, Dot(w, fb, x, y, color), x, y, color)
  {
    OffsetInBuffer(w, h, x, y);
    var after := Dot(w, fb, x, y, color);
    forall i, j | InFrame(w, h, Point(i, j))
      ensures Pixel(w, h, after, i, j) == if i == x && j == y then color else Pixel(w, h, fb, i, j)
    {
      OffsetInBuffer(w, h, i, j);
      if Offset(w, i, j) == Offset(w, x, y) {
        OffsetInjective(w, i, j, x, y);
      }
    }
  }

  /** The buffer after `n` rounds. */
  function Dots(w: int, was: seq<byte>, s: Segment, color: byte, n: nat): (r: seq<byte>)
    ensures |r| == |was|
  {
    if n == 0 then was else Dot(w, Dots(w, was, s, color, n - 1), Walk(s, n - 1).x, Walk(s, n - 1).y, color)
  }

  lemma {:induction false} DotsPaint(w: int, h: int, was: seq<byte>, s: Segment, color: byte, n: nat)
    requires |was| == w * h && SegmentInFrame(w, h, s) && n <= Length(s) + 1
    ensures PaintedTo(w, h, was, Dots(w, was, s, color, n), s, color, n - 1)
  {
    if n == 0 {
      NothingPainted(w, h, was, s, color);
    } else {
      var before, p := Dots(w, was, s, color, n - 1), Walk(s, n - 1);
      DotsPaint(w, h, was, s, color, n - 1);
      WalkInFrame(w, h, s, n - 1);
      DotChangesOne(w, h, before, p.x, p.y, color);
      DotPaints(w, h, was, before, Dots(w, was, s, color, n), s, color, n - 1, p.x, p.y);
    }
  }

  /** All the rounds together paint the segment. */
  lemma AllDotsPaint(w: int, h: int, was: seq<byte>, s: Segment, color: byte)
    requires |was| == w * h && SegmentInFrame(w, h, s)
    ensures Painted(w, h, was, Dots(w, was, s, color, Length(s) + 1), s, color)
  {
    DotsPaint(w, h, was, s, color, Length(s) + 1);
    PaintedAll(w, h, was, Dots(w, was, s, color, Length(s) + 1), s, color);
  }

  // ----- how many pixels

  function Advance(from: int, to: int, n: nat): int {
    if to < from then from - n else from + n
  }

  /** The pixel of step `u`. */
  function PixelOf(s: Segment, u: nat): Point
    requires u <= Length(s)
  {
    var dx, dy := Abs(s.b.x - s.a.x), Abs(s.b.y - s.a.y);
    if dx > dy then Point(Advance(s.a.x, s.b.x, u), Advance(s.a.y, s.b.y, Nearest(dx, dy, u)))
    else Point(Advance(s.a.x, s.b.x, Nearest(dy, dx, u)), Advance(s.a.y, s.b.y, u))
  }

  lemma OnePixelAStep(s: Segment, u: nat, p: Point)
    requires u <= Length(s)
    ensures OnLine(s, p) && Steps(s, p) == u <==> p == PixelOf(s, u)
  {
    var dx, dy := Abs(s.b.x - s.a.x), Abs(s.b.y - s.a.y);
    if dx > dy {
      NearestIsNear(dx, dy, u);
      if OnLine(s, p) && Steps(s, p) == u {
        NearUnique(dx, dy, u, Along(s.a.y, s.b.y, p.y), Nearest(dx, dy, u));
      }
    } else {
      NearestIsNear(dy, dx, u);
      if OnLine(s, p) && Steps(s, p) == u {
        NearUnique(dy, dx, u, Along(s.a.x, s.b.x, p.x), Nearest(dy, dx, u));
      }
    }
  }

  ghost function PixelsTo(s: Segment, k: int): (ps: set<Point>)
    requires -1 <= k <= Length(s)
    ensures |ps| == k + 1
    ensures forall p :: p in ps <==> OnLine(s, p) && Steps(s, p) <= k
    decreases k + 1
  {
    if k == -1 then {}
    else
      assert forall p :: OnLine(s, p) && Steps(s, p) == k <==> p == PixelOf(s, k) by {
        forall p ensures OnLine(s, p) && Steps(s, p) == k <==> p == PixelOf(s, k) {
          OnePixelAStep(s, k, p);
        }
      }
      PixelsTo(s, k - 1) + {PixelOf(s, k)}
  }

  /** A segment has one pixel more than the length of its longer side. */
  lemma PixelCount(s: Segment, pixels: set<Point>)
    requires forall p :: p in pixels <==> OnLine(s, p)
    ensures |pixels| == Max(Abs(s.b.x - s.a.x), Abs(s.b.y - s.a.y)) + 1
  {
    assert pixels == PixelsTo(s, Length(s));
  }

  class FLine {
    var a: Point
    var b: Point
  }

  class FrameBuffer {
    const f_w: int
    const f_h: int
    const fb: array<byte>

    ghost predicate Valid() {
      f_w > 0 && f_h > 0 && fb.Length == f_w * f_h
    }

    constructor (w: int, h: int, buffer: array<byte>)
      requires w > 0 && h > 0 && buffer.Length == w * h
      ensures Valid() && f_w == w && f_h == h && fb == buffer
    {
      f_w, f_h, fb := w, h, buffer;
    }

    method PutDot(x: int, y: int, color: byte)
      requires Valid() && InFrame(f_w, f_h, Point(x, y))
      modifies fb
      ensures fb[..] == Dot(f_w, old(fb[..]), x, y, color)
    {
      OffsetInBuffer(f_w, f_h, x, y);
      fb[y * f_w + x] := color;
    }

    /** The loop that steps along x. */
    method DrawXMajor(s: Segment, color: byte)
      requires Valid() && SegmentInFrame(f_w, f_h, s)
      requires Abs(s.b.x - s.a.x) > Abs(s.b.y - s.a.y)
      modifies fb
      ensures Painted(f_w, f_h, old(fb[..]), fb[..], s, color)
    {
      ghost var was := fb[..];
      var dx := s.b.x - s.a.x;
      var ax := 2 * (if dx < 0 then -dx else dx);
      var sx := if dx < 0 then -1 else 1;
      var dy := s.b.y - s.a.y;
      var ay := 2 * (if dy < 0 then -dy else dy);
      var sy := if dy < 0 then -1 else 1;
      var x, y := s.a.x, s.a.y;
      var d := ay - ax / 2;
      ghost var k: nat := 0;
      AllDotsPaint(f_w, f_h, was, s, color);
      while true
        invariant k <= Length(s) && Walker(x, y, d) == Walk(s, k)
        invariant fb[..] == Dots(f_w, was, s, color, k)
        decreases Length(s) - k
      {
        WalkInFrame(f_w, f_h, s, k);
        PutDot(x, y, color);
        if x == s.b.x {
          return;
        }
        if d >= 0 {
          y := y + sy;
          d := d - ax;
        }
        x := x + sx;
        d := d + ay;
        k := k + 1;
      }
    }

    /** The loop that steps along y. */
    method DrawYMajor(s: Segment, color: byte)
      requires Valid() && SegmentInFrame(f_w, f_h, s)
      requires Abs(s.b.x - s.a.x) <= Abs(s.b.y - s.a.y)
      modifies fb
      ensures Painted(f_w, f_h, old(fb[..]), fb[..], s, color)
    {
      ghost var was := fb[..];
      var dx := s.b.x - s.a.x;
      var ax := 2 * (if dx < 0 then -dx else dx);
      var sx := if dx < 0 then -1 else 1;
      var dy := s.b.y - s.a.y;
      var ay := 2 * (if dy < 0 then -dy else dy);
      var sy := if dy < 0 then -1 else 1;
      var x, y := s.a.x, s.a.y;
      var d := ax - ay / 2;
      ghost var k: nat := 0;
      AllDotsPaint(f_w, f_h, was, s, color);
      while true
        invariant k <= Length(s) && Walker(x, y, d) == Walk(s, k)
        invariant fb[..] == Dots(f_w, was, s, color, k)
        decreases Length(s) - k
      {
        WalkInFrame(f_w, f_h, s, k);
        PutDot(x, y, color);
        if y == s.b.y {
          return;
        }
        if d >= 0 {
          x := x + sx;
          d := d - ay;
        }
        y := y + sy;
        d := d + ax;
        k := k + 1;
      }
    }

    /** Draws a segment whose ends are in the frame; refuses any other. */
    method DrawFline(fl: FLine, color: byte)
      requires Valid()
      modifies fb
      ensures var s := Segment(fl.a, fl.b);
              if SegmentInFrame(f_w, f_h, s) then Painted(f_w, f_h, old(fb[..]), fb[..], s, color)
              else fb[..] == old(fb[..])
    {
      if fl.a.x < 0 || fl.a.x >= f_w || fl.a.y < 0 || fl.a.y >= f_h
         || fl.b.x < 0 || fl.b.x >= f_w || fl.b.y < 0 || fl.b.y >= f_h {
        return;
      }
      var s := Segment(fl.a, fl.b);
      if Abs(s.b.x - s.a.x) > Abs(s.b.y - s.a.y) {
        DrawXMajor(s, color);
      } else {
        DrawYMajor(s, color);
      }
    }
  }
}
