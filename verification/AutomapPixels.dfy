/** Pixels and places: each pixel of a segment is near a place of it, and each place near a pixel. */
module AutomapPixels {
  import opened Common
  import opened AutomapLine
  import opened AutomapCut
  import opened AutomapTrace

  predicate Within(p: Point, q: Place, d: real) {
    -d <= p.x as real - q.x <= d && -d <= p.y as real - q.y <= d
  }

  /** Step `u` of `major` is this part of the way. */
  lemma StepPart(u: nat, major: nat) returns (t: real)
    requires u <= major
    ensures 0.0 <= t <= 1.0 && t * major as real == u as real
  {
    t := if major == 0 then 0.0 else u as real / major as real;
  }

  lemma OffLine(t: real, m: real, n: real, u: real, v: real)
    requires t * m == u
    ensures (v - t * n) * m == v * m - u * n
  {
    assert t * n * m == t * m * n;
  }

  lemma RealCross(u: int, v: int, m: int, n: int)
    ensures (v * m - u * n) as real == v as real * m as real - u as real * n as real
  {
    RealTimes(v, m);
    RealTimes(u, n);
  }

  lemma HalfOf(d: real, m: real, cross: int)
    requires m > 0.0 && d * m == cross as real && -m <= 2.0 * cross as real <= m
    ensures -0.5 <= d <= 0.5
  {
    if d > 0.5 {
      NotNegative(d - 0.5, m);
    } else if d < -0.5 {
      NotNegative(-0.5 - d, m);
    }
  }

  /** On the minor axis the pixel of a step is half a pixel off at most. */
  lemma MinorPart(major: nat, minor: nat, u: int, v: int, t: real)
    requires Near(major, minor, u, v) && minor <= major && t * major as real == u as real
    ensures -0.5 <= v as real - t * minor as real <= 0.5
  {
    if major != 0 {
      var cross := v * major - u * minor;
      assert 0 - major <= 2 * cross <= major;
      RealCross(u, v, major, minor);
      OffLine(t, major as real, minor as real, u as real, v as real);
      HalfOf(v as real - t * minor as real, major as real, cross);
    }
  }

  /** Offsets along a segment, whichever way it runs. */
  lemma PartAlong(from: int, to: int, x: int, t: real)
    ensures Along(from, to, x) as real - t * Abs(to - from) as real
         == if to < from then -(x as real - Part(from, to, t)) else x as real - Part(from, to, t)
  {
    assert to < from ==> t * Abs(to - from) as real == -(t * (to - from) as real);
  }

  /** A pixel off its place by less than a bound on both axes of the segment. */
  lemma WithinAlong(s: Segment, p: Point, t: real, d: real)
    requires -d <= Along(s.a.x, s.b.x, p.x) as real - t * Abs(s.b.x - s.a.x) as real <= d
    requires -d <= Along(s.a.y, s.b.y, p.y) as real - t * Abs(s.b.y - s.a.y) as real <= d
    ensures Within(p, PlaceAt(s, t), d)
  {
    PartAlong(s.a.x, s.b.x, p.x, t);
    PartAlong(s.a.y, s.b.y, p.y, t);
  }

  lemma StepAlong(s: Segment, u: nat)
    requires u <= Length(s)
    ensures var dx, dy, p := Abs(s.b.x - s.a.x), Abs(s.b.y - s.a.y), PixelOf(s, u);
            && Along(s.a.x, s.b.x, p.x) == (if dx > dy then u else Nearest(dy, dx, u))
            && Along(s.a.y, s.b.y, p.y) == (if dx > dy then Nearest(dx, dy, u) else u)
  {
  }

  predicate HalfOff(u: int, major: nat, t: real) {
    -0.5 <= u as real - t * major as real <= 0.5
  }

  predicate OneOff(u: int, major: nat, t: real) {
    -1.0 <= u as real - t * major as real <= 1.0
  }

  lemma StepHasPart(major: nat, minor: nat, u: int, v: int) returns (t: real)
    requires Near(major, minor, u, v) && minor <= major
    ensures 0.0 <= t <= 1.0 && HalfOff(u, major, t) && HalfOff(v, minor, t)
  {
    t := StepPart(u, major);
    MinorPart(major, minor, u, v, t);
  }

  /** Every pixel of a segment is within half a pixel of a place of it. */
  lemma PixelHasPlace(s: Segment, p: Point) returns (t: real)
    requires OnLine(s, p)
    ensures 0.0 <= t <= 1.0 && Within(p, PlaceAt(s, t), 0.5)
  {
    var dx, dy := Abs(s.b.x - s.a.x), Abs(s.b.y - s.a.y);
    var u, v := Along(s.a.x, s.b.x, p.x), Along(s.a.y, s.b.y, p.y);
    if dx > dy {
      t := StepHasPart(dx, dy, u, v);
    } else {
      t := StepHasPart(dy, dx, v, u);
    }
    WithinAlong(s, p, t, 0.5);
  }

  lemma Rounded(t: real, major: nat) returns (u: nat)
    requires 0.0 <= t <= 1.0
    ensures u <= major && HalfOff(u, major, t)
  {
    NotNegative(t, major as real);
    NotNegative(1.0 - t, major as real);
    SumTimes(t, 1.0 - t, major as real);
    u := (t * major as real + 0.5).Floor;
  }

  /** Parts half a step apart on the major axis are at most that far apart on the minor one. */
  lemma Shrinks(r: real, t: real, major: nat, minor: nat)
    requires minor <= major && -0.5 <= (r - t) * major as real <= 0.5
    ensures -0.5 <= r * minor as real - t * minor as real <= 0.5
  {
    var d := r - t;
    assert d * minor as real == r * minor as real - t * minor as real;
    assert d * major as real == d * minor as real + d * (major - minor) as real;
    if d >= 0.0 {
      NotNegative(d, minor as real);
      NotNegative(d, (major - minor) as real);
    } else {
      NotNegative(-d, minor as real);
      NotNegative(-d, (major - minor) as real);
    }
  }

  /** The step nearest to a part of the way, and how far its pixel is off on the minor axis. */
  lemma PartHasStep(major: nat, minor: nat, t: real) returns (u: nat)
    requires 0.0 <= t <= 1.0 && minor <= major
    ensures u <= major && HalfOff(u, major, t)
    ensures OneOff(u, major, t) && OneOff(Nearest(major, minor, u), minor, t)
  {
    u := Rounded(t, major);
    NearestIsNear(major, minor, u);
    var r := StepPart(u, major);
    MinorPart(major, minor, u, Nearest(major, minor, u), r);
    Shrinks(r, t, major, minor);
  }

  /** Every place of a segment is within a pixel of a pixel of it. */
  lemma PlaceHasPixel(s: Segment, t: real) returns (p: Point)
    requires 0.0 <= t <= 1.0
    ensures OnLine(s, p) && Within(p, PlaceAt(s, t), 1.0)
  {
    var dx, dy := Abs(s.b.x - s.a.x), Abs(s.b.y - s.a.y);
    var u: nat;
    if dx > dy {
      u := PartHasStep(dx, dy, t);
    } else {
      u := PartHasStep(dy, dx, t);
    }
    p := PixelOf(s, u);
    StepAlong(s, u);
    assert OneOff(Along(s.a.x, s.b.x, p.x), dx, t) && OneOff(Along(s.a.y, s.b.y, p.y), dy, t);
    WithinAlong(s, p, t, 1.0);
    OnePixelAStep(s, u, p);
  }

  // ----- pixels of one segment near another

  lemma LineInBox(s: Segment, p: Point)
    requires OnLine(s, p)
    ensures InBox(s, p)
  {
    var dx, dy := Abs(s.b.x - s.a.x), Abs(s.b.y - s.a.y);
    var u, v := Along(s.a.x, s.b.x, p.x), Along(s.a.y, s.b.y, p.y);
    if dx > dy {
      NearInSpan(dx, dy, u, v);
    } else {
      NearInSpan(dy, dx, v, u);
    }
  }

  /** The pixels of a segment whose ends lie near the line of `s` lie near it. */
  lemma LineDrifts(s: Segment, r: Segment, p: Point, m: nat)
    requires OnLine(r, p) && Abs(Cross(s, r.a)) <= m && Abs(Cross(s, r.b)) <= m
    ensures Abs(Cross(s, p)) <= m + Reach(s)
  {
    HalfPixel(r, p);
    LineInBox(r, p);
    if Abs(r.b.x - r.a.x) > Abs(r.b.y - r.a.y) {
      ColumnDrift(s, r, p, m);
    } else if r.a.y != r.b.y {
      RowDrift(s, r, p, m);
    } else {
      assert p == r.a;
    }
  }

  lemma TenAtMost(d: real, m: real, c: real)
    requires m > 0.0 && d * m == c && -10.0 * m <= c <= 10.0 * m
    ensures -10.0 <= d <= 10.0
  {
    if d > 10.0 {
      NotNegative(d - 10.0, m);
    } else if d < -10.0 {
      NotNegative(-10.0 - d, m);
    }
  }

  lemma TenOff(d: real, m: int, cross: int)
    requires m != 0 && d * m as real == cross as real && Abs(cross) <= 10 * Abs(m)
    ensures -10.0 <= d <= 10.0
  {
    if m > 0 {
      TenAtMost(d, m as real, cross as real);
    } else {
      assert d * (-m) as real == -(d * m as real);
      TenAtMost(d, (-m) as real, (-cross) as real);
    }
  }

  predicate OffBy(u: int, span: int, t: real, d: real) {
    -d <= u as real - t * span as real <= d
  }

  /** A point between the ends on the major axis, and by how far it is off on the minor one. */
  lemma MajorPart(m: int, n: int, u: int, v: int, cross: int) returns (t: real)
    requires m != 0 && (0 <= u <= m || m <= u <= 0) && cross == v * m - u * n && Abs(cross) <= 10 * Abs(m)
    ensures 0.0 <= t <= 1.0 && OffBy(u, m, t, 10.0) && OffBy(v, n, t, 10.0)
  {
    t := Ratio(u as real, m as real);
    RealCross(u, v, m, n);
    OffLine(t, m as real, n as real, u as real, v as real);
    TenOff(v as real - t * n as real, m, cross);
  }

  /** A point is off a place by as much as it is from the first end on. */
  lemma OffPlace(s: Segment, p: Point, t: real, d: real)
    requires OffBy(p.x - s.a.x, s.b.x - s.a.x, t, d) && OffBy(p.y - s.a.y, s.b.y - s.a.y, t, d)
    ensures Within(p, PlaceAt(s, t), d)
  {
  }

  lemma LongerSide(s: Segment, p: Point)
    requires Abs(Cross(s, p)) <= 5 * Reach(s)
    ensures Abs(Cross(s, p)) <= 10 * Max(Abs(s.b.x - s.a.x), Abs(s.b.y - s.a.y))
  {
  }

  /** A point in the box of a segment, near its line, is within ten pixels of a place of it. */
  lemma NearPlace(s: Segment, p: Point) returns (t: real)
    requires InBox(s, p) && Abs(Cross(s, p)) <= 5 * Reach(s)
    ensures 0.0 <= t <= 1.0 && Within(p, PlaceAt(s, t), 10.0)
  {
    var dx, dy, cross := s.b.x - s.a.x, s.b.y - s.a.y, Cross(s, p);
    var u, v := p.x - s.a.x, p.y - s.a.y;
    CrossOf(s, p, u, v);
    LongerSide(s, p);
    if dx == 0 && dy == 0 {
      t := 0.0;
      assert OffBy(u, dx, t, 10.0) && OffBy(v, dy, t, 10.0);
    } else if Abs(dx) > Abs(dy) {
      assert cross == v * dx - u * dy;
      t := MajorPart(dx, dy, u, v, cross);
    } else {
      assert -cross == u * dy - v * dx;
      t := MajorPart(dy, dx, v, u, -cross);
    }
    OffPlace(s, p, t, 10.0);
  }
}
