/** One cut of the Cohen-Sutherland clipping of am_map.c, with truncating integer division. */
module AutomapCut {
  import opened Common
  import opened AutomapLine

  const LEFT: bv4 := 1
  const RIGHT: bv4 := 2
  const BOTTOM: bv4 := 4
  const TOP: bv4 := 8

  /** Sides of the frame that a point lies beyond. */
  function Outcode(w: int, h: int, p: Point): bv4 {
    (if p.y < 0 then TOP else if p.y >= h then BOTTOM else 0)
    | (if p.x < 0 then LEFT else if p.x >= w then RIGHT else 0)
  }

  /** The new end of a segment that is cut at the first side in `outside`. */
  function CutPoint(w: int, h: int, s: Segment, outside: bv4): Point
    requires outside & (TOP | BOTTOM) != 0 ==> s.a.y != s.b.y
    requires outside & (TOP | BOTTOM) == 0 && outside & (RIGHT | LEFT) != 0 ==> s.a.x != s.b.x
  {
    var dx := s.b.x - s.a.x;
    var dy := s.b.y - s.a.y;
    if outside & TOP != 0 then Point(s.a.x + Quot(dx * s.a.y, -dy), 0)
    else if outside & BOTTOM != 0 then Point(s.a.x + Quot(dx * (s.a.y - h), -dy), h - 1)
    else if outside & RIGHT != 0 then Point(w - 1, s.a.y + Quot(dy * (w - 1 - s.a.x), dx))
    else if outside & LEFT != 0 then Point(0, s.a.y + Quot(dy * -s.a.x, dx))
    else Point(0, 0)
  }

  /** The end that the loop cuts next. */
  function OutsideEnd(w: int, h: int, s: Segment): Point {
    if InFrame(w, h, s.a) then s.b else s.a
  }

  /** The cut of the next end divides by something. */
  predicate CutDefined(w: int, h: int, s: Segment) {
    var outside := Outcode(w, h, OutsideEnd(w, h, s));
    && (outside & (TOP | BOTTOM) != 0 ==> s.a.y != s.b.y)
    && (outside & (TOP | BOTTOM) == 0 && outside & (RIGHT | LEFT) != 0 ==> s.a.x != s.b.x)
  }

  predicate Between(a: int, b: int, x: int) {
    a <= x <= b || b <= x <= a
  }

  /** In the bounding box of a segment. */
  predicate InBox(s: Segment, p: Point) {
    Between(s.a.x, s.b.x, p.x) && Between(s.a.y, s.b.y, p.y)
  }

  /** `q` is the fraction `num / den` of `span`, truncated: it stays in the span and is less than one unit
      short. */
  predicate Fractional(span: int, num: int, den: int, q: int) {
    && den != 0 && (num == 0 || (num < 0) == (den < 0))
    && (0 <= q <= span || span <= q <= 0)
    && Abs(q * den - span * num) < Abs(den) && Abs(q * den) <= Abs(span * num)
  }

  /** The quotient has the sign of the span, or is zero. */
  lemma FractionSign(span: int, num: int, den: int)
    requires den != 0 && (num == 0 || (num < 0) == (den < 0))
    ensures var q := Quot(span * num, den); q == 0 || (q < 0) == (span < 0)
  {
    ProductSign(span, num);
  }

  lemma Fraction(span: int, num: int, den: int)
    requires den != 0 && Abs(num) <= Abs(den) && (num == 0 || (num < 0) == (den < 0))
    ensures Fractional(span, num, den, Quot(span * num, den))
  {
    Product(span, num);
    MulMonotone(Abs(num), Abs(den), Abs(span));
    QuotBelow(span * num, den, Abs(span));
    QuotRemainder(span * num, den);
    QuotTimes(span * num, den);
    DivModNat(Abs(span * num), Abs(den));
    FractionSign(span, num, den);
  }

  lemma FractionNegated(span: int, num: int, den: int, q: int)
    requires Fractional(span, num, den, q)
    ensures Fractional(span, -num, -den, q)
  {
    SignedProduct(q, den);
    SignedProduct(span, num);
  }

  /** What truncation leaves over has the sign that carries the quotient on, away from zero. */
  lemma LeftOver(span: int, num: int, den: int, q: int)
    requires Fractional(span, num, den, q)
    ensures var m := span * num - q * den;
            && Abs(m) < Abs(den)
            && (span >= 0 ==> m == 0 || (m < 0) == (den < 0))
            && (span <= 0 ==> m == 0 || (m < 0) != (den < 0))
  {
    ProductSign(span, num);
    ProductSign(q, den);
  }

  lemma LeftOverSize(span: int, num: int, den: int, q: int)
    requires Fractional(span, num, den, q)
    ensures Abs(span * num - q * den) == Abs(span) * Abs(num) % Abs(den)
  {
    LeftOver(span, num, den, q);
    ProductSign(span, num);
    ProductSign(q, den);
    Product(span, num);
    Product(q, den);
    RemainderIs(Abs(span) * Abs(num), Abs(den), Abs(q), Abs(span * num - q * den));
  }

  /** Both points lie beyond the same side. */
  predicate ShareSide(w: int, h: int, p: Point, q: Point) {
    (p.y < 0 && q.y < 0) || (p.y >= h && q.y >= h) || (p.x < 0 && q.x < 0) || (p.x >= w && q.x >= w)
  }

  lemma OutcodeBits(w: int, h: int, p: Point)
    requires w > 0 && h > 0
    ensures Outcode(w, h, p) & TOP != 0 <==> p.y < 0
    ensures Outcode(w, h, p) & BOTTOM != 0 <==> p.y >= h
    ensures Outcode(w, h, p) & (TOP | BOTTOM) != 0 <==> p.y < 0 || p.y >= h
    ensures Outcode(w, h, p) & RIGHT != 0 <==> p.x >= w
    ensures Outcode(w, h, p) & LEFT != 0 <==> p.x < 0
    ensures Outcode(w, h, p) & (RIGHT | LEFT) != 0 <==> p.x < 0 || p.x >= w
    ensures Outcode(w, h, p) == 0 <==> InFrame(w, h, p)
  {
  }

  lemma OutcodesMeet(w: int, h: int, p: Point, q: Point)
    requires w > 0 && h > 0
    ensures Outcode(w, h, p) & Outcode(w, h, q) != 0 <==> ShareSide(w, h, p, q)
    ensures Outcode(w, h, p) | Outcode(w, h, q) == 0 <==> InFrame(w, h, p) && InFrame(w, h, q)
  {
  }

  /** How many of the two axes a point is out of the frame on. */
  function AxesOut(w: int, h: int, p: Point): nat {
    (if 0 <= p.x < w then 0 else 1) + (if 0 <= p.y < h then 0 else 1)
  }

  /** Nearest value in 0 up to `n`. */
  function Clamp(n: int, x: int): int {
    if x < 0 then 0 else if x >= n then n - 1 else x
  }

  /** Both coordinates clamped to the frame. */
  function ClampPoint(w: int, h: int, p: Point): Point {
    Point(Clamp(w, p.x), Clamp(h, p.y))
  }

  predicate AxisAligned(s: Segment) {
    s.a.x == s.b.x || s.a.y == s.b.y
  }

  function OtherEnd(w: int, h: int, s: Segment): Point {
    if InFrame(w, h, s.a) then s.a else s.b
  }

  lemma CutVertically(w: int, h: int, s: Segment)
    requires w > 0 && h > 0 && !ShareSide(w, h, s.a, s.b)
    requires OutsideEnd(w, h, s).y < 0 || OutsideEnd(w, h, s).y >= h
    ensures s.a.y != s.b.y
    ensures var dx, dy, y := s.b.x - s.a.x, s.b.y - s.a.y, if OutsideEnd(w, h, s).y < 0 then 0 else h;
            Fractional(dx, y - s.a.y, dy, Quot(dx * (s.a.y - y), -dy))
  {
    var dx, dy, y := s.b.x - s.a.x, s.b.y - s.a.y, if OutsideEnd(w, h, s).y < 0 then 0 else h;
    var num, den := s.a.y - y, -dy;
    Fraction(dx, num, den);
    var q := Quot(dx * num, den);
    FractionNegated(dx, num, den, q);
    assert Fractional(dx, y - s.a.y, dy, q);
  }

  lemma CutHorizontally(w: int, h: int, s: Segment)
    requires w > 0 && h > 0 && !ShareSide(w, h, s.a, s.b)
    requires OutsideEnd(w, h, s).x < 0 || OutsideEnd(w, h, s).x >= w
    ensures s.a.x != s.b.x
    ensures var dx, dy, x := s.b.x - s.a.x, s.b.y - s.a.y, if OutsideEnd(w, h, s).x < 0 then 0 else w - 1;
            Fractional(dy, x - s.a.x, dx, Quot(dy * (x - s.a.x), dx))
  {
    var dx, dy, x := s.b.x - s.a.x, s.b.y - s.a.y, if OutsideEnd(w, h, s).x < 0 then 0 else w - 1;
    Fraction(dy, x - s.a.x, dx);
  }

  /** Where the next cut puts the end: on the border row or column, at the truncated crossing. A cut at the
      bottom takes the crossing with row `h` and puts it on row `h - 1`. */
  predicate CutAt(w: int, h: int, s: Segment, p: Point) {
    var end, dx, dy := OutsideEnd(w, h, s), s.b.x - s.a.x, s.b.y - s.a.y;
    if end.y < 0 then dy != 0 && p.y == 0 && Fractional(dx, -s.a.y, dy, p.x - s.a.x)
    else if end.y >= h then dy != 0 && p.y == h - 1 && Fractional(dx, h - s.a.y, dy, p.x - s.a.x)
    else
      var x := if end.x < 0 then 0 else w - 1;
      dx != 0 && p.x == x && Fractional(dy, x - s.a.x, dx, p.y - s.a.y)
  }

  lemma CutIsAt(w: int, h: int, s: Segment) returns (p: Point)
    requires w > 0 && h > 0 && !ShareSide(w, h, s.a, s.b) && !SegmentInFrame(w, h, s)
    ensures CutDefined(w, h, s) && p == CutPoint(w, h, s, Outcode(w, h, OutsideEnd(w, h, s)))
    ensures CutAt(w, h, s, p)
  {
    var end := OutsideEnd(w, h, s);
    OutcodeBits(w, h, end);
    if end.y < 0 || end.y >= h {
      CutVertically(w, h, s);
    } else {
      CutHorizontally(w, h, s);
    }
    p := CutPoint(w, h, s, Outcode(w, h, end));
  }

  /** One cut: the new end is in the bounding box; on a segment along an axis it is the old end
      clamped; and either the segment is now beyond one side or the cut end is out on fewer axes. */
  lemma CutAdvances(w: int, h: int, s: Segment) returns (t: Point)
    requires w > 0 && h > 0 && !ShareSide(w, h, s.a, s.b) && !SegmentInFrame(w, h, s)
    ensures CutDefined(w, h, s) && t == CutPoint(w, h, s, Outcode(w, h, OutsideEnd(w, h, s)))
    ensures InBox(s, t)
    ensures AxisAligned(s) ==> t == ClampPoint(w, h, OutsideEnd(w, h, s))
    ensures ShareSide(w, h, t, OtherEnd(w, h, s)) || AxesOut(w, h, t) < AxesOut(w, h, OutsideEnd(w, h, s))
  {
    t := CutIsAt(w, h, s);
  }

  /** Twice the signed area of the triangle of the segment and a point; 0 on its line. */
  function Cross(s: Segment, p: Point): int {
    (s.b.x - s.a.x) * (p.y - s.a.y) - (s.b.y - s.a.y) * (p.x - s.a.x)
  }

  lemma CrossOf(s: Segment, p: Point, x: int, y: int)
    requires p.x == s.a.x + x && p.y == s.a.y + y
    ensures Cross(s, p) == y * (s.b.x - s.a.x) - (s.b.y - s.a.y) * x
    ensures Cross(s, p) == y * (s.b.x - s.a.x) - x * (s.b.y - s.a.y)
  {
    assert p.x - s.a.x == x && p.y - s.a.y == y;
  }

  /** How far a cut is off the line of the segment, as a cross product: cuts at the top, the left and
      the right are less than a pixel off. The cut at the bottom is computed where the line crosses
      row `h` but placed on row `h - 1`. */
  lemma CutAccuracy(w: int, h: int, s: Segment, t: Point)
    requires w > 0 && h > 0 && !ShareSide(w, h, s.a, s.b) && !SegmentInFrame(w, h, s) && CutAt(w, h, s, t)
    ensures var end := OutsideEnd(w, h, s);
            if end.y < 0 then Abs(Cross(s, t)) < Abs(s.b.y - s.a.y)
            else if end.y >= h then Abs(Cross(s, Point(t.x, h))) < Abs(s.b.y - s.a.y)
            else Abs(Cross(s, t)) < Abs(s.b.x - s.a.x)
  {
    var end := OutsideEnd(w, h, s);
    if end.y < 0 || end.y >= h {
      var y := if end.y < 0 then 0 else h;
      CrossOf(s, Point(t.x, y), t.x - s.a.x, y - s.a.y);
    } else {
      CrossOf(s, t, t.x - s.a.x, t.y - s.a.y);
    }
  }

  lemma Expand(dx: int, dy: int, a: int, u: int, v: int, x: int, y: int)
    ensures u * (a + dx * y - dy * x) == (u - y) * a + y * (a + dx * u - dy * v) + dy * (v * y - u * x)
    ensures v * (a + dx * y - dy * x) == (v - x) * a + x * (a + dx * u - dy * v) + dx * (v * y - u * x)
  {
  }

  lemma CrossFrom(s: Segment, p: Point, q: Point)
    ensures Cross(s, q) == Cross(s, p) + (s.b.x - s.a.x) * (q.y - p.y) - (s.b.y - s.a.y) * (q.x - p.x)
  {
  }

  /** Seen from the line of another segment, a point is a mean of the ends and of its own distance. */
  lemma CrossBlend(s: Segment, t: Segment, p: Point)
    ensures (t.b.y - t.a.y) * Cross(s, p)
         == (t.b.y - p.y) * Cross(s, t.a) + (p.y - t.a.y) * Cross(s, t.b) + (s.b.y - s.a.y) * Cross(t, p)
    ensures (t.b.x - t.a.x) * Cross(s, p)
         == (t.b.x - p.x) * Cross(s, t.a) + (p.x - t.a.x) * Cross(s, t.b) + (s.b.x - s.a.x) * Cross(t, p)
  {
    var u, v, x, y := t.b.y - t.a.y, t.b.x - t.a.x, p.x - t.a.x, p.y - t.a.y;
    CrossFrom(s, t.a, p);
    CrossFrom(s, t.a, t.b);
    Expand(s.b.x - s.a.x, s.b.y - s.a.y, Cross(s, t.a), u, v, x, y);
  }

  /** One pixel along each axis, as a cross product with the segment. */
  function Reach(s: Segment): nat {
    Abs(s.b.x - s.a.x) + Abs(s.b.y - s.a.y)
  }

  /** Both ends are at most `n` pixels along each axis off the line of `s`. */
  predicate Drifted(s: Segment, t: Segment, n: nat) {
    Abs(Cross(s, t.a)) <= n * Reach(s) && Abs(Cross(s, t.b)) <= n * Reach(s)
  }

  lemma OneRowUp(s: Segment, p: Point, q: Point)
    requires q.x == p.x && q.y == p.y - 1
    ensures Abs(Cross(s, q)) <= Abs(Cross(s, p)) + Abs(s.b.x - s.a.x)
  {
    CrossFrom(s, p, q);
    assert (s.b.x - s.a.x) * (q.y - p.y) == -(s.b.x - s.a.x);
  }

  lemma RowDrift(s: Segment, t: Segment, p: Point, m: nat)
    requires t.a.y != t.b.y && Between(t.a.y, t.b.y, p.y) && Abs(Cross(t, p)) <= Abs(t.b.y - t.a.y)
    requires Abs(Cross(s, t.a)) <= m && Abs(Cross(s, t.b)) <= m
    ensures Abs(Cross(s, p)) <= m + Abs(s.b.y - s.a.y)
  {
    CrossBlend(s, t, p);
    BlendBound(t.b.y - t.a.y, Cross(s, p), t.b.y - p.y, p.y - t.a.y, Cross(s, t.a), Cross(s, t.b),
               s.b.y - s.a.y, Cross(t, p), m);
  }

  lemma ColumnDrift(s: Segment, t: Segment, p: Point, m: nat)
    requires t.a.x != t.b.x && Between(t.a.x, t.b.x, p.x) && Abs(Cross(t, p)) <= Abs(t.b.x - t.a.x)
    requires Abs(Cross(s, t.a)) <= m && Abs(Cross(s, t.b)) <= m
    ensures Abs(Cross(s, p)) <= m + Abs(s.b.x - s.a.x)
  {
    CrossBlend(s, t, p);
    BlendBound(t.b.x - t.a.x, Cross(s, p), t.b.x - p.x, p.x - t.a.x, Cross(s, t.a), Cross(s, t.b),
               s.b.x - s.a.x, Cross(t, p), m);
  }

  /** Cutting a segment that lies near the line of `s` moves it off by at most one pixel along each axis. */
  lemma CutDrifts(w: int, h: int, s: Segment, t: Segment, m: nat) returns (p: Point)
    requires w > 0 && h > 0 && !ShareSide(w, h, t.a, t.b) && !SegmentInFrame(w, h, t)
    requires Abs(Cross(s, t.a)) <= m && Abs(Cross(s, t.b)) <= m
    ensures CutDefined(w, h, t) && p == CutPoint(w, h, t, Outcode(w, h, OutsideEnd(w, h, t)))
    ensures Abs(Cross(s, p)) <= m + Reach(s)
  {
    p := CutIsAt(w, h, t);
    CutAccuracy(w, h, t, p);
    var end := OutsideEnd(w, h, t);
    if end.y < 0 {
      RowDrift(s, t, p, m);
    } else if end.y >= h {
      RowDrift(s, t, Point(p.x, h), m);
      OneRowUp(s, Point(p.x, h), p);
    } else {
      ColumnDrift(s, t, p, m);
    }
  }

  /** How far a cut at the bottom is off the line, exactly. The remainder of its division, which truncation
      leaves over, adds to the row that is missing when the first end is cut and offsets it when the second is. */
  function BottomError(h: int, s: Segment): nat
    requires s.a.y != s.b.y
  {
    var dx, dy := Abs(s.b.x - s.a.x), Abs(s.b.y - s.a.y);
    var r := dx * Abs(h - s.a.y) % dy;
    if s.a.y >= h then r + dx else Abs(dx - r)
  }

  lemma OneLess(a: int, n: int)
    ensures (n - 1) * a == a * n - a
  {
  }

  /** What is left over against the direction of `d` adds to it, and along it offsets it. */
  lemma ErrorSize(m: int, d: int, first: bool)
    requires m == 0 || ((m < 0) == (d < 0)) == !first
    requires d == 0 ==> m == 0
    ensures Abs(m - d) == if first then Abs(m) + Abs(d) else Abs(Abs(d) - Abs(m))
  {
  }

  /** A cut at the bottom is within a pixel of the line along its row exactly when that error is less than
      the rows of the segment; from the crossing with the row below it is always less than a pixel. */
  lemma BottomCut(w: int, h: int, s: Segment, t: Point)
    requires w > 0 && h > 0 && !ShareSide(w, h, s.a, s.b) && !SegmentInFrame(w, h, s) && CutAt(w, h, s, t)
    requires OutsideEnd(w, h, s).y >= h
    ensures Abs(Cross(s, t)) == BottomError(h, s)
    ensures Abs(Cross(s, t)) < Abs(s.b.y - s.a.y) <==> BottomError(h, s) < Abs(s.b.y - s.a.y)
    ensures Abs(Cross(s, t) + (s.b.x - s.a.x)) < Abs(s.b.y - s.a.y)
  {
    var dx, dy, q := s.b.x - s.a.x, s.b.y - s.a.y, t.x - s.a.x;
    var m := dx * (h - s.a.y) - q * dy;
    LeftOver(dx, h - s.a.y, dy, q);
    LeftOverSize(dx, h - s.a.y, dy, q);
    assert Cross(s, t) == m - dx by {
      CrossOf(s, t, q, h - 1 - s.a.y);
      OneLess(dx, h - s.a.y);
    }
    ErrorSize(m, dx, s.a.y >= h);
  }

  /** In a frame 100 wide and 100 high the segment from (0, 98) to (90, 101) is cut at (60, 99), where
      its line passes through (30, 99); the error of 90 is that of thirty columns of its three rows. */
  lemma BottomCutOff()
    ensures var s := Segment(Point(0, 98), Point(90, 101));
            && Outcode(100, 100, s.a) == 0 && Outcode(100, 100, s.b) == BOTTOM
            && CutPoint(100, 100, s, BOTTOM) == Point(60, 99)
            && Abs(Cross(s, Point(60, 99))) == BottomError(100, s) == 90
            && Cross(s, Point(30, 99)) == 0
  {
    var s := Segment(Point(0, 98), Point(90, 101));
    var t := CutIsAt(100, 100, s);
    BottomCut(100, 100, s, t);
  }

  // ----- 32-bit arithmetic

  predicate FitsInt(x: int) {
    -0x8000_0000 <= x < 0x8000_0000
  }

  /** A factor, its product with a difference of the ends, the quotient, and the sum with a coordinate. */
  predicate TermFits(base: int, d: int, factor: int, divisor: int) {
    && FitsInt(factor) && FitsInt(d * factor) && divisor != 0 && FitsInt(Quot(d * factor, divisor))
    && FitsInt(base + Quot(d * factor, divisor))
  }

  /** Everything that the next cut computes is of type `int`. */
  predicate CutFits(w: int, h: int, s: Segment) {
    var end, dx, dy := OutsideEnd(w, h, s), s.b.x - s.a.x, s.b.y - s.a.y;
    && FitsInt(dx) && FitsInt(dy) && FitsInt(-dy)
    && if end.y < 0 then TermFits(s.a.x, dx, s.a.y, -dy)
       else if end.y >= h then TermFits(s.a.x, dx, s.a.y - h, -dy)
       else if end.x >= w then TermFits(s.a.y, dy, w - 1 - s.a.x, dx)
       else TermFits(s.a.y, dy, -s.a.x, dx)
  }

  /** Sixteen bits on each axis, rows counted from the bottom, in a frame of that size at most. */
  predicate SixteenBits(w: int, h: int, p: Point) {
    && 0 < w <= 0x8000 && 0 < h <= 0x8000
    && -0x8000 <= p.x < 0x8000 && -0x8000 <= h - p.y < 0x8000
  }

  lemma ProductFits(base: int, d: int, factor: int, divisor: int)
    requires Abs(d) <= 0xFFFF && Abs(factor) <= 0x8000 && divisor != 0
    requires FitsInt(base + Quot(d * factor, divisor))
    ensures TermFits(base, d, factor, divisor)
  {
    Product(d, factor);
    MulMonotone(Abs(d), 0xFFFF, Abs(factor));
    MulMonotone(Abs(factor), 0x8000, 0xFFFF);
    QuotBelow(d * factor, divisor, 0xFFFF * 0x8000);
    MulMonotone(1, Abs(divisor), 0xFFFF * 0x8000);
  }

  lemma SmallCutFits(w: int, h: int, s: Segment)
    requires w > 0 && h > 0 && !ShareSide(w, h, s.a, s.b) && !SegmentInFrame(w, h, s)
    requires SixteenBits(w, h, s.a) && SixteenBits(w, h, s.b)
    ensures CutFits(w, h, s)
  {
    var p := CutAdvances(w, h, s);
    OutcodeBits(w, h, OutsideEnd(w, h, s));
    var end, dx, dy := OutsideEnd(w, h, s), s.b.x - s.a.x, s.b.y - s.a.y;
    if end.y < 0 {
      ProductFits(s.a.x, dx, s.a.y, -dy);
    } else if end.y >= h {
      ProductFits(s.a.x, dx, s.a.y - h, -dy);
    } else if end.x >= w {
      ProductFits(s.a.y, dy, w - 1 - s.a.x, dx);
    } else {
      ProductFits(s.a.y, dy, -s.a.x, dx);
    }
  }

  /** The segment after one round of the loop. */
  function AfterCut(w: int, h: int, s: Segment, t: Point): Segment {
    if InFrame(w, h, s.a) then s.(b := t) else s.(a := t)
  }

  /** How many of the four coordinates are out of the frame. */
  function AllAxesOut(w: int, h: int, t: Segment): nat {
    AxesOut(w, h, t.a) + AxesOut(w, h, t.b)
  }

  lemma CutAgain(w: int, h: int, t: Segment)
    requires w > 0 && h > 0 && !ShareSide(w, h, t.a, t.b) && !SegmentInFrame(w, h, t)
    ensures CutDefined(w, h, t)
    ensures var u := AfterCut(w, h, t, CutPoint(w, h, t, Outcode(w, h, OutsideEnd(w, h, t))));
            ShareSide(w, h, u.a, u.b) || AllAxesOut(w, h, u) < AllAxesOut(w, h, t)
  {
    var p := CutAdvances(w, h, t);
  }

  /** The segment after the next cut. */
  function NextCut(w: int, h: int, t: Segment): (u: Segment)
    requires w > 0 && h > 0 && !ShareSide(w, h, t.a, t.b) && !SegmentInFrame(w, h, t)
    ensures ShareSide(w, h, u.a, u.b) || AllAxesOut(w, h, u) < AllAxesOut(w, h, t)
  {
    CutAgain(w, h, t);
    AfterCut(w, h, t, CutPoint(w, h, t, Outcode(w, h, OutsideEnd(w, h, t))))
  }
}
