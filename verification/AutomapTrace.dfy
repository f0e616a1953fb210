/** What cuts do to the places on a line: where each place of the segment goes when an end is cut. */
module AutomapTrace {
  import opened Common
  import opened AutomapLine
  import opened AutomapCut

  datatype Place = Place(x: real, y: real)

  function Part(from: int, to: int, t: real): real {
    from as real + t * (to - from) as real
  }

  /** The part `t` of the way from `o` to `e`. */
  function PlaceFrom(o: Point, e: Point, t: real): Place {
    Place(Part(o.x, e.x, t), Part(o.y, e.y, t))
  }

  /** The place of a segment at parameter `t`, 0 at the first end and 1 at the second. */
  function PlaceAt(s: Segment, t: real): Place {
    PlaceFrom(s.a, s.b, t)
  }

  lemma SumTimes(a: real, b: real, c: real)
    ensures (a + b) * c == a * c + b * c
  {
  }

  lemma PartBackwards(from: int, to: int, t: real)
    ensures Part(from, to, t) == Part(to, from, 1.0 - t)
  {
    SumTimes(1.0 - t, t, (to - from) as real);
    assert (1.0 - t) * (from - to) as real == -((1.0 - t) * (to - from) as real);
  }

  // ----- one cut, along one axis

  lemma Ratio(m: real, d: real) returns (r: real)
    requires d != 0.0
    ensures r * d == m
    ensures 0.0 <= m <= d || d <= m <= 0.0 ==> 0.0 <= r <= 1.0
    ensures 0.0 <= -m <= d || d <= -m <= 0.0 ==> -1.0 <= r <= 0.0
  {
    r := m / d;
  }

  lemma IntRatio(m: int, d: int) returns (r: real)
    requires Abs(m) < Abs(d)
    ensures r * d as real == m as real
    ensures m == 0 || (m < 0) == (d < 0) ==> 0.0 <= r <= 1.0
    ensures m == 0 || (m < 0) != (d < 0) ==> -1.0 <= r <= 0.0
  {
    r := Ratio(m as real, d as real);
  }

  lemma RealTimes(a: int, b: int)
    ensures (a * b) as real == a as real * b as real
  {
  }

  /** `c` is the exact fraction of `span`. */
  predicate Exact(span: int, num: int, den: int, c: real) {
    c * den as real == (span * num) as real
  }

  lemma SplitExact(span: int, num: int, den: int, q: int, r: real)
    requires r * den as real == (span * num - q * den) as real
    ensures Exact(span, num, den, q as real + r)
  {
    RealTimes(q, den);
    SumTimes(q as real, r, den as real);
  }

  /** The exact offset that a truncated quotient stands for is less than one unit farther. */
  lemma Truncated(span: int, num: int, den: int, q: int) returns (c: real)
    requires Fractional(span, num, den, q)
    ensures Exact(span, num, den, c)
    ensures span >= 0 ==> 0.0 <= c - q as real <= 1.0
    ensures span <= 0 ==> -1.0 <= c - q as real <= 0.0
  {
    LeftOver(span, num, den, q);
    var m := span * num - q * den;
    var r := IntRatio(m, den);
    SplitExact(span, num, den, q, r);
    c := q as real + r;
  }

  lemma NonZero(a: real, b: real)
    requires b != 0.0 && a * b == 0.0
    ensures a == 0.0
  {
  }

  /** The part `lam` of the way from `o` to `e` is part `kap` of the way to the crossing `c` on that way. The
      displacements are given: `eu`, `ev` to `e`, and `cu`, `cv` to `c`. */
  lemma Rescale(eu: real, ev: real, cu: real, cv: real, lam: real) returns (kap: real)
    requires eu != 0.0 && cv * eu == cu * ev
    requires 0.0 <= lam * eu <= cu || cu <= lam * eu <= 0.0
    ensures 0.0 <= kap <= 1.0 && kap * cu == lam * eu && kap * cv == lam * ev
  {
    if cu == 0.0 {
      NonZero(lam, eu);
      kap := 0.0;
    } else {
      kap := Ratio(lam * eu, cu);
      var d := kap * cv - lam * ev;
      assert d * eu == 0.0 by {
        assert d * eu == kap * (cv * eu) - lam * ev * eu;
        assert kap * (cu * ev) == (kap * cu) * ev;
      }
      NonZero(d, eu);
    }
  }

  /** Moved by at most one towards `a`, which lies on the other side from `b`. */
  predicate Towards(a: int, b: int, p: real, q: real) {
    && (a <= b ==> 0.0 <= p - q <= 1.0)
    && (a >= b ==> -1.0 <= p - q <= 0.0)
  }

  lemma NotNegative(a: real, b: real)
    requires a >= 0.0 && b >= 0.0
    ensures a * b >= 0.0
  {
  }

  lemma SmallPart(kap: real, d: real)
    requires 0.0 <= kap <= 1.0
    ensures 0.0 <= d <= 1.0 ==> 0.0 <= kap * d <= 1.0
    ensures -1.0 <= d <= 0.0 ==> -1.0 <= kap * d <= 0.0
  {
    var rest := 1.0 - kap;
    assert kap * d + rest * d == d by {
      SumTimes(kap, rest, d);
    }
    if d >= 0.0 {
      NotNegative(kap, d);
      NotNegative(rest, d);
    } else {
      NotNegative(kap, -d);
      NotNegative(rest, -d);
    }
  }

  /** The way from `o` to `e` is at `cv` where it crosses `cu`. */
  predicate Crosses(ou: int, ov: int, eu: int, ev: int, cu: int, cv: real) {
    (cv - ov as real) * (eu - ou) as real == (cu - ou) as real * (ev - ov) as real
  }

  lemma PartsDiffer(o: int, e: int, p: int, c: real, lam: real, kap: real)
    requires kap * (c - o as real) == lam * (e - o) as real
    ensures Part(o, e, lam) - Part(o, p, kap) == kap * (c - p as real)
  {
    SumTimes(c - p as real, (p - o) as real, kap);
  }

  /** A cut moves a part of the way by the same part of the way from the crossing to the new end. */
  lemma AxisTrace(ou: int, ov: int, eu: int, ev: int, cu: int, cv: real, pu: int, pv: int, lam: real,
                  a: int, b: int)
    returns (kap: real)
    requires Towards(a, b, cv, pv as real)
    requires eu != ou && Crosses(ou, ov, eu, ev, cu, cv)
    requires ou as real <= Part(ou, eu, lam) <= cu as real || cu as real <= Part(ou, eu, lam) <= ou as real
    ensures 0.0 <= kap <= 1.0
    ensures Part(ou, eu, lam) - Part(ou, pu, kap) == kap * (cu - pu) as real
    ensures Towards(a, b, Part(ov, ev, lam), Part(ov, pv, kap))
  {
    kap := Rescale((eu - ou) as real, (ev - ov) as real, (cu - ou) as real, cv - ov as real, lam);
    PartsDiffer(ou, eu, pu, cu as real, lam, kap);
    PartsDiffer(ov, ev, pv, cv, lam, kap);
    SmallPart(kap, cv - pv as real);
  }

  /** A crossing seen from the first end is a crossing seen from the second. */
  lemma SeenFromOther(au: int, av: int, bu: int, bv: int, cu: int, c: real)
    requires Exact(bv - av, cu - au, bu - au, c)
    ensures Crosses(au, av, bu, bv, cu, av as real + c) && Crosses(bu, bv, au, av, cu, av as real + c)
  {
    var du, dv := (bu - au) as real, (bv - av) as real;
    RealTimes(bv - av, cu - au);
    assert (av as real + c - bv as real) * (au - bu) as real == dv * du - c * du;
    assert (cu - bu) as real * (av - bv) as real == dv * du - (cu - au) as real * dv;
  }

  /** The two ends of a segment, in some order. */
  predicate Ends(s: Segment, o: Point, e: Point) {
    (o == s.a && e == s.b) || (o == s.b && e == s.a)
  }

  /** The way from `o` to `e` is cut where it crosses column `x`, and the new end is put on column `px`. */
  lemma ColumnTrace(s: Segment, o: Point, e: Point, x: int, q: int, px: int, lam: real) returns (kap: real)
    requires s.a.x != s.b.x && Ends(s, o, e)
    requires o.x as real <= Part(o.x, e.x, lam) <= x as real || x as real <= Part(o.x, e.x, lam) <= o.x as real
    requires Fractional(s.b.y - s.a.y, x - s.a.x, s.b.x - s.a.x, q)
    ensures 0.0 <= kap <= 1.0
    ensures Towards(s.a.y, s.b.y, Part(o.y, e.y, lam), Part(o.y, s.a.y + q, kap))
    ensures Part(o.x, e.x, lam) - Part(o.x, px, kap) == kap * (x - px) as real
  {
    var c := Truncated(s.b.y - s.a.y, x - s.a.x, s.b.x - s.a.x, q);
    SeenFromOther(s.a.x, s.a.y, s.b.x, s.b.y, x, c);
    kap := AxisTrace(o.x, o.y, e.x, e.y, x, s.a.y as real + c, px, s.a.y + q, lam, s.a.y, s.b.y);
  }

  function Flipped(p: Point): Point {
    Point(p.y, p.x)
  }

  /** The same for a row. */
  lemma RowTrace(s: Segment, o: Point, e: Point, y: int, q: int, py: int, lam: real) returns (kap: real)
    requires s.a.y != s.b.y && Ends(s, o, e)
    requires o.y as real <= Part(o.y, e.y, lam) <= y as real || y as real <= Part(o.y, e.y, lam) <= o.y as real
    requires Fractional(s.b.x - s.a.x, y - s.a.y, s.b.y - s.a.y, q)
    ensures 0.0 <= kap <= 1.0
    ensures Towards(s.a.x, s.b.x, Part(o.x, e.x, lam), Part(o.x, s.a.x + q, kap))
    ensures Part(o.y, e.y, lam) - Part(o.y, py, kap) == kap * (y - py) as real
  {
    kap := ColumnTrace(Segment(Flipped(s.a), Flipped(s.b)), Flipped(o), Flipped(e), y, q, py, lam);
  }

  /** How a cut moves a place: towards the first end by at most a pixel along the side, and a cut at the
      bottom moves it up by at most a row besides. */
  predicate Moved(w: int, h: int, t: Segment, p: Place, q: Place) {
    var end := OutsideEnd(w, h, t);
    if end.y < 0 || end.y >= h then
      && Towards(t.a.x, t.b.x, p.x, q.x)
      && if end.y < 0 then q.y == p.y else 0.0 <= p.y - q.y <= 1.0
    else q.x == p.x && Towards(t.a.y, t.b.y, p.y, q.y)
  }

  /** Not beyond the side at which the next cut is made. */
  predicate Kept(w: int, h: int, t: Segment, p: Place) {
    var end := OutsideEnd(w, h, t);
    if end.y < 0 then p.y >= 0.0
    else if end.y >= h then p.y <= h as real
    else if end.x < 0 then p.x >= 0.0
    else p.x <= (w - 1) as real
  }

  lemma BetweenParts(from: int, to: int, t: real)
    requires 0.0 <= t <= 1.0
    ensures from <= to ==> from as real <= Part(from, to, t) <= to as real
    ensures from >= to ==> to as real <= Part(from, to, t) <= from as real
  {
  }

  /** Where a cut at the upper or the lower side puts a place that it keeps. */
  lemma RowCutTrace(w: int, h: int, t: Segment, lam: real) returns (kap: real)
    requires w > 0 && h > 0 && !ShareSide(w, h, t.a, t.b) && !SegmentInFrame(w, h, t)
    requires 0.0 <= lam <= 1.0 && Kept(w, h, t, PlaceFrom(OtherEnd(w, h, t), OutsideEnd(w, h, t), lam))
    requires var e := OutsideEnd(w, h, t); e.y < 0 || e.y >= h
    ensures CutDefined(w, h, t) && 0.0 <= kap <= 1.0
    ensures var p := CutPoint(w, h, t, Outcode(w, h, OutsideEnd(w, h, t)));
            Moved(w, h, t, PlaceFrom(OtherEnd(w, h, t), OutsideEnd(w, h, t), lam),
                  PlaceFrom(OtherEnd(w, h, t), p, kap))
  {
    var o, e := OtherEnd(w, h, t), OutsideEnd(w, h, t);
    var p := CutIsAt(w, h, t);
    BetweenParts(o.y, e.y, lam);
    kap := RowTrace(t, o, e, if e.y < 0 then 0 else h, p.x - t.a.x, p.y, lam);
  }

  /** Where a cut at the left or the right side puts it. */
  lemma ColumnCutTrace(w: int, h: int, t: Segment, lam: real) returns (kap: real)
    requires w > 0 && h > 0 && !ShareSide(w, h, t.a, t.b) && !SegmentInFrame(w, h, t)
    requires 0.0 <= lam <= 1.0 && Kept(w, h, t, PlaceFrom(OtherEnd(w, h, t), OutsideEnd(w, h, t), lam))
    requires 0 <= OutsideEnd(w, h, t).y < h
    ensures CutDefined(w, h, t) && 0.0 <= kap <= 1.0
    ensures var p := CutPoint(w, h, t, Outcode(w, h, OutsideEnd(w, h, t)));
            Moved(w, h, t, PlaceFrom(OtherEnd(w, h, t), OutsideEnd(w, h, t), lam),
                  PlaceFrom(OtherEnd(w, h, t), p, kap))
  {
    var o, e := OtherEnd(w, h, t), OutsideEnd(w, h, t);
    var p := CutIsAt(w, h, t);
    BetweenParts(o.x, e.x, lam);
    kap := ColumnTrace(t, o, e, p.x, p.y - t.a.y, p.x, lam);
  }

  /** Where the next cut puts a place that it keeps. */
  lemma CutTrace(w: int, h: int, t: Segment, lam: real) returns (kap: real)
    requires w > 0 && h > 0 && !ShareSide(w, h, t.a, t.b) && !SegmentInFrame(w, h, t)
    requires 0.0 <= lam <= 1.0 && Kept(w, h, t, PlaceFrom(OtherEnd(w, h, t), OutsideEnd(w, h, t), lam))
    ensures CutDefined(w, h, t) && 0.0 <= kap <= 1.0
    ensures var p := CutPoint(w, h, t, Outcode(w, h, OutsideEnd(w, h, t)));
            Moved(w, h, t, PlaceFrom(OtherEnd(w, h, t), OutsideEnd(w, h, t), lam),
                  PlaceFrom(OtherEnd(w, h, t), p, kap))
  {
    if 0 <= OutsideEnd(w, h, t).y < h {
      kap := ColumnCutTrace(w, h, t, lam);
    } else {
      kap := RowCutTrace(w, h, t, lam);
    }
  }

  // ----- many cuts

  /** How many of the two rows, and of the two columns, are out of the frame. */
  function RowsOut(h: int, t: Segment): nat {
    (if 0 <= t.a.y < h then 0 else 1) + (if 0 <= t.b.y < h then 0 else 1)
  }

  function ColumnsOut(w: int, t: Segment): nat {
    (if 0 <= t.a.x < w then 0 else 1) + (if 0 <= t.b.x < w then 0 else 1)
  }

  function EndsBelow(h: int, t: Segment): nat {
    (if t.a.y >= h then 1 else 0) + (if t.b.y >= h then 1 else 0)
  }

  /** Segment `t` came from `s` by cuts, the first end first, and runs the same way. */
  predicate CutFrom(w: int, h: int, s: Segment, t: Segment) {
    && !ShareSide(w, h, s.a, s.b)
    && (!InFrame(w, h, t.a) ==> t.b == s.b)
    && (t.a.y < 0 || t.a.y >= h ==> t.a == s.a)
    && (s.a.x <= s.b.x ==> t.a.x <= t.b.x) && (s.a.x >= s.b.x ==> t.a.x >= t.b.x)
    && (s.a.y <= s.b.y ==> t.a.y <= t.b.y) && (s.a.y >= s.b.y ==> t.a.y >= t.b.y)
  }

  /** The cuts moved a place from `p` to `q`: towards the first end, or one row up by a cut at the bottom. */
  predicate Drawn(s: Segment, p: Place, q: Place) {
    && (s.a.x <= s.b.x ==> q.x <= p.x) && (s.a.x >= s.b.x ==> p.x <= q.x)
    && (s.a.y <= s.b.y ==> q.y <= p.y) && (s.a.y >= s.b.y ==> p.y - 1.0 <= q.y)
  }

  /** A cut at a row moves by at most one column; a cut at a column, and a cut at the bottom, by one row. */
  predicate Shifted(w: int, h: int, s: Segment, t: Segment, p: Place, q: Place) {
    var columns, rows := RowsOut(h, s) - RowsOut(h, t),
                         ColumnsOut(w, s) - ColumnsOut(w, t) + EndsBelow(h, s) - EndsBelow(h, t);
    -(columns as real) <= p.x - q.x <= columns as real && -(rows as real) <= p.y - q.y <= rows as real
  }

  /** Inside the frame, and a pixel or more from its left, right and upper border. */
  predicate InCore(w: int, h: int, p: Place) {
    1.0 <= p.x <= (w - 2) as real && 1.0 <= p.y <= (h - 1) as real
  }

  /** No cut removes a place of the core. */
  lemma CoreIsKept(w: int, h: int, s: Segment, t: Segment, p: Place, q: Place)
    requires !ShareSide(w, h, t.a, t.b) && !SegmentInFrame(w, h, t)
    requires CutFrom(w, h, s, t) && Drawn(s, p, q) && Shifted(w, h, s, t, p, q) && InCore(w, h, p)
    ensures Kept(w, h, t, q)
  {
  }

  /** After a cut, unless it shows that the segment misses the frame, fewer ends are out. */
  lemma CutCounts(w: int, h: int, t: Segment)
    requires w > 0 && h > 0 && !ShareSide(w, h, t.a, t.b) && !SegmentInFrame(w, h, t)
    ensures var u, end := NextCut(w, h, t), OutsideEnd(w, h, t);
            !ShareSide(w, h, u.a, u.b) ==>
              if end.y < 0 || end.y >= h then
                && RowsOut(h, u) == RowsOut(h, t) - 1 && ColumnsOut(w, u) <= ColumnsOut(w, t)
                && EndsBelow(h, u) == EndsBelow(h, t) - (if end.y < 0 then 0 else 1)
              else
                && RowsOut(h, u) == RowsOut(h, t) && ColumnsOut(w, u) == ColumnsOut(w, t) - 1
                && EndsBelow(h, u) == EndsBelow(h, t)
  {
    var p := CutIsAt(w, h, t);
  }

  /** The new end of a cut is in the rows of the frame, unless the cut shows that the segment misses it. */
  lemma CutStaysInRows(w: int, h: int, t: Segment)
    requires w > 0 && h > 0 && !ShareSide(w, h, t.a, t.b) && !SegmentInFrame(w, h, t)
    ensures var u := NextCut(w, h, t);
            !ShareSide(w, h, u.a, u.b) ==> 0 <= (if InFrame(w, h, t.a) then u.b.y else u.a.y) < h
  {
    var p := CutIsAt(w, h, t);
  }

  lemma CutFromOnce(w: int, h: int, s: Segment, t: Segment)
    requires w > 0 && h > 0 && !ShareSide(w, h, t.a, t.b) && !SegmentInFrame(w, h, t)
    requires CutFrom(w, h, s, t)
    ensures var u := NextCut(w, h, t); !ShareSide(w, h, u.a, u.b) ==> CutFrom(w, h, s, u)
  {
    var p := CutAdvances(w, h, t);
    CutStaysInRows(w, h, t);
  }

  lemma Backwards(o: Point, e: Point, t: real)
    ensures PlaceFrom(o, e, t) == PlaceFrom(e, o, 1.0 - t)
  {
    PartBackwards(o.x, e.x, t);
    PartBackwards(o.y, e.y, t);
  }

  /** A cut carries a kept place on. */
  lemma PlaceCarried(w: int, h: int, t: Segment, mu: real) returns (nu: real)
    requires w > 0 && h > 0 && !ShareSide(w, h, t.a, t.b) && !SegmentInFrame(w, h, t)
    requires 0.0 <= mu <= 1.0 && Kept(w, h, t, PlaceAt(t, mu))
    ensures 0.0 <= nu <= 1.0 && Moved(w, h, t, PlaceAt(t, mu), PlaceAt(NextCut(w, h, t), nu))
  {
    var u := NextCut(w, h, t);
    if InFrame(w, h, t.a) {
      nu := CutTrace(w, h, t, mu);
    } else {
      Backwards(t.a, t.b, mu);
      var kap := CutTrace(w, h, t, 1.0 - mu);
      nu := 1.0 - kap;
      Backwards(u.a, u.b, nu);
    }
  }

  /** A cut moves a place on in the directions of the cuts before it. */
  lemma DrawnOn(w: int, h: int, s: Segment, t: Segment, p: Place, q: Place, r: Place)
    requires !ShareSide(w, h, t.a, t.b) && !SegmentInFrame(w, h, t)
    requires CutFrom(w, h, s, t) && Drawn(s, p, q) && Moved(w, h, t, q, r) && Shifted(w, h, s, t, p, q)
    ensures Drawn(s, p, r)
  {
  }

  lemma ShiftedOn(w: int, h: int, s: Segment, t: Segment, p: Place, q: Place, r: Place)
    requires w > 0 && h > 0 && !ShareSide(w, h, t.a, t.b) && !SegmentInFrame(w, h, t)
    requires Shifted(w, h, s, t, p, q) && Moved(w, h, t, q, r)
    ensures var u := NextCut(w, h, t); !ShareSide(w, h, u.a, u.b) ==> Shifted(w, h, s, u, p, r)
  {
    CutCounts(w, h, t);
  }

  /** A segment that a cut shows to miss the frame has no place that came from the core. */
  lemma RefusedMissesCore(w: int, h: int, s: Segment, t: Segment, p: Place, nu: real)
    requires w > 0 && h > 0 && !ShareSide(w, h, t.a, t.b) && !SegmentInFrame(w, h, t) && CutFrom(w, h, s, t)
    requires var u := NextCut(w, h, t); ShareSide(w, h, u.a, u.b) && 0.0 <= nu <= 1.0 && Drawn(s, p, PlaceAt(u, nu))
    ensures !InCore(w, h, p)
  {
    var u := NextCut(w, h, t);
    BetweenParts(u.a.x, u.b.x, nu);
    BetweenParts(u.a.y, u.b.y, nu);
  }

  /** A place of the frame. */
  predicate InFrameArea(w: int, h: int, p: Place) {
    0.0 <= p.x <= (w - 1) as real && 0.0 <= p.y <= (h - 1) as real
  }

  /** When a first cut shows that the segment misses the frame, or none is needed to show it, all of its line
      does. */
  lemma FirstRefusalIsRight(w: int, h: int, s: Segment, mu: real)
    requires w > 0 && h > 0 && 0.0 <= mu <= 1.0
    requires ShareSide(w, h, s.a, s.b) ||
             (!SegmentInFrame(w, h, s) && ShareSide(w, h, NextCut(w, h, s).a, NextCut(w, h, s).b))
    ensures !InFrameArea(w, h, PlaceAt(s, mu))
  {
    BetweenParts(s.a.x, s.b.x, mu);
    BetweenParts(s.a.y, s.b.y, mu);
    if !ShareSide(w, h, s.a, s.b) && InFrameArea(w, h, PlaceAt(s, mu)) {
      var nu := PlaceCarried(w, h, s, mu);
      var u := NextCut(w, h, s);
      BetweenParts(u.a.x, u.b.x, nu);
      BetweenParts(u.a.y, u.b.y, nu);
      assert false;
    }
  }
}
