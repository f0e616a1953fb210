/** The clipping loop of am_map.c and the drawing of a map line. */
module AutomapClip {
  import opened Common
  import opened FixedPoint
  import opened AutomapLine
  import opened AutomapCut
  import opened AutomapPixels
  import opened AutomapTrace

  datatype MapPoint = MapPoint(x: fixed, y: fixed)
  datatype MapLine = MapLine(a: MapPoint, b: MapPoint)

  /** What clipping makes of a segment: cut after cut, until it is seen to miss the frame or lies in it. */
  function ClipResult(w: int, h: int, t: Segment): Option<Segment>
    requires w > 0 && h > 0
    decreases if ShareSide(w, h, t.a, t.b) then 0 else 1 + AllAxesOut(w, h, t)
  {
    if ShareSide(w, h, t.a, t.b) then None
    else if SegmentInFrame(w, h, t) then Some(t)
    else ClipResult(w, h, NextCut(w, h, t))
  }

  /** No cut leaves the range of `int`, up to the end of the loop. */
  predicate ClipFits(w: int, h: int, t: Segment)
    requires w > 0 && h > 0
    decreases if ShareSide(w, h, t.a, t.b) then 0 else 1 + AllAxesOut(w, h, t)
  {
    ShareSide(w, h, t.a, t.b) || SegmentInFrame(w, h, t) ||
    (CutFits(w, h, t) && ClipFits(w, h, NextCut(w, h, t)))
  }

  lemma {:induction false} SmallClipFits(w: int, h: int, t: Segment)
    requires w > 0 && h > 0 && SixteenBits(w, h, t.a) && SixteenBits(w, h, t.b)
    ensures ClipFits(w, h, t)
    decreases if ShareSide(w, h, t.a, t.b) then 0 else 1 + AllAxesOut(w, h, t)
  {
    if !ShareSide(w, h, t.a, t.b) && !SegmentInFrame(w, h, t) {
      SmallCutFits(w, h, t);
      var p := CutAdvances(w, h, t);
      SmallClipFits(w, h, NextCut(w, h, t));
    }
  }

  // ----- what becomes of the ends

  predicate OnBorder(w: int, h: int, p: Point) {
    p.x == 0 || p.x == w - 1 || p.y == 0 || p.y == h - 1
  }

  /** Segment `t` came from `s` by at most `cuts` cuts. */
  predicate Clipping(w: int, h: int, s: Segment, t: Segment, cuts: nat) {
    && InBox(s, t.a) && InBox(s, t.b)
    && Drifted(s, t, cuts)
    && (t.a == s.a || (!InFrame(w, h, s.a) && OnBorder(w, h, t.a)))
    && (t.b == s.b || (!InFrame(w, h, s.b) && OnBorder(w, h, t.b)))
    && (AxisAligned(s) ==>
          && AxisAligned(t)
          && (t.a == s.a || t.a == ClampPoint(w, h, s.a))
          && (t.b == s.b || t.b == ClampPoint(w, h, s.b)))
  }

  lemma DriftStep(w: int, h: int, s: Segment, t: Segment, cuts: nat)
    requires w > 0 && h > 0 && !ShareSide(w, h, t.a, t.b) && !SegmentInFrame(w, h, t)
    requires Drifted(s, t, cuts)
    ensures Drifted(s, NextCut(w, h, t), cuts + 1)
  {
    var q := CutDrifts(w, h, s, t, cuts * Reach(s));
    Distribute(cuts, 1, Reach(s));
  }

  lemma CutOnBorder(w: int, h: int, t: Segment)
    requires w > 0 && h > 0 && !ShareSide(w, h, t.a, t.b) && !SegmentInFrame(w, h, t)
    ensures OnBorder(w, h, if InFrame(w, h, t.a) then NextCut(w, h, t).b else NextCut(w, h, t).a)
  {
    var p := CutIsAt(w, h, t);
  }

  /** One more cut. Only a segment with no end in the frame, and not along an axis, is seen to miss the
      frame by a cut. */
  lemma ClippingStep(w: int, h: int, s: Segment, t: Segment, cuts: nat)
    requires w > 0 && h > 0 && !ShareSide(w, h, t.a, t.b) && !SegmentInFrame(w, h, t)
    requires Clipping(w, h, s, t, cuts)
    ensures var u := NextCut(w, h, t);
            && Clipping(w, h, s, u, cuts + 1)
            && (ShareSide(w, h, u.a, u.b) ==> !AxisAligned(s) && !InFrame(w, h, s.a) && !InFrame(w, h, s.b))
  {
    var p := CutAdvances(w, h, t);
    CutOnBorder(w, h, t);
    DriftStep(w, h, s, t, cuts);
  }

  lemma EndsOnOwnLine(s: Segment)
    ensures Cross(s, s.a) == 0 && Cross(s, s.b) == 0
  {
  }

  lemma NoCuts(w: int, h: int, s: Segment)
    requires w > 0 && h > 0
    ensures Clipping(w, h, s, s, 0)
  {
    EndsOnOwnLine(s);
  }

  /** What becomes of the ends. The ends of an accepted segment are in the frame and in the bounding box, within
      four pixels along each axis of the line of the segment; one that was moved is on the border. An end in
      the frame is kept and makes sure of acceptance. A segment along an axis is accepted unless it lies beyond
      one side, and is clamped exactly. */
  predicate EndsClipped(w: int, h: int, s: Segment, r: Option<Segment>) {
    && (r.Some? ==>
          && SegmentInFrame(w, h, r.value) && InBox(s, r.value.a) && InBox(s, r.value.b)
          && Drifted(s, r.value, 4)
          && (r.value.a == s.a || OnBorder(w, h, r.value.a)) && (r.value.b == s.b || OnBorder(w, h, r.value.b)))
    && (InFrame(w, h, s.a) ==> r.Some? && r.value.a == s.a)
    && (InFrame(w, h, s.b) ==> r.Some? && r.value.b == s.b)
    && (AxisAligned(s) ==>
          r == if ShareSide(w, h, s.a, s.b) then None else Some(Segment(ClampPoint(w, h, s.a), ClampPoint(w, h, s.b))))
  }

  lemma {:induction false} EndsMeaning(w: int, h: int, s: Segment, t: Segment, cuts: nat)
    requires w > 0 && h > 0 && !ShareSide(w, h, s.a, s.b) && !ShareSide(w, h, t.a, t.b)
    requires Clipping(w, h, s, t, cuts) && cuts + AllAxesOut(w, h, t) <= 4
    ensures EndsClipped(w, h, s, ClipResult(w, h, t))
    decreases AllAxesOut(w, h, t)
  {
    if SegmentInFrame(w, h, t) {
      MulMonotone(cuts, 4, Reach(s));
    } else {
      ClippingStep(w, h, s, t, cuts);
      var u := NextCut(w, h, t);
      if !ShareSide(w, h, u.a, u.b) {
        EndsMeaning(w, h, s, u, cuts + 1);
      }
    }
  }

  // ----- what becomes of the places between

  /** Two columns and three rows at most lie between the places. */
  predicate CloseTo(p: Place, q: Place) {
    -2.0 <= p.x - q.x <= 2.0 && -3.0 <= p.y - q.y <= 3.0
  }

  ghost predicate HasPlaceNear(r: Segment, p: Place) {
    exists t: real :: 0.0 <= t <= 1.0 && CloseTo(p, PlaceAt(r, t))
  }

  /** Every place of the segment in the core of the frame has a place of the clipped segment near it; so a
      segment with a place in the core is accepted. */
  ghost predicate CoreShown(w: int, h: int, s: Segment, r: Option<Segment>) {
    forall t: real :: 0.0 <= t <= 1.0 && InCore(w, h, PlaceAt(s, t)) ==> r.Some? && HasPlaceNear(r.value, PlaceAt(s, t))
  }

  lemma {:induction false} CoreTraced(w: int, h: int, s: Segment, t: Segment, p: Place, mu: real)
    requires w > 0 && h > 0 && !ShareSide(w, h, t.a, t.b) && CutFrom(w, h, s, t)
    requires 0.0 <= mu <= 1.0 && InCore(w, h, p)
    requires Drawn(s, p, PlaceAt(t, mu)) && Shifted(w, h, s, t, p, PlaceAt(t, mu))
    ensures ClipResult(w, h, t).Some? && HasPlaceNear(ClipResult(w, h, t).value, p)
    decreases AllAxesOut(w, h, t)
  {
    if SegmentInFrame(w, h, t) {
      assert CloseTo(p, PlaceAt(t, mu));
    } else {
      var q, u := PlaceAt(t, mu), NextCut(w, h, t);
      CoreIsKept(w, h, s, t, p, q);
      var nu := PlaceCarried(w, h, t, mu);
      DrawnOn(w, h, s, t, p, q, PlaceAt(u, nu));
      if ShareSide(w, h, u.a, u.b) {
        RefusedMissesCore(w, h, s, t, p, nu);
      } else {
        CutFromOnce(w, h, s, t);
        ShiftedOn(w, h, s, t, p, q, PlaceAt(u, nu));
        CoreTraced(w, h, s, u, p, nu);
      }
    }
  }

  /** What clipping promises. */
  ghost predicate Clipped(w: int, h: int, s: Segment, r: Option<Segment>) {
    EndsClipped(w, h, s, r) && CoreShown(w, h, s, r)
  }

  lemma PlaceShown(w: int, h: int, s: Segment, t: real)
    requires w > 0 && h > 0 && 0.0 <= t <= 1.0 && InCore(w, h, PlaceAt(s, t))
    ensures ClipResult(w, h, s).Some? && HasPlaceNear(ClipResult(w, h, s).value, PlaceAt(s, t))
  {
    if ShareSide(w, h, s.a, s.b) {
      FirstRefusalIsRight(w, h, s, t);
      assert false;
    } else {
      CoreTraced(w, h, s, s, PlaceAt(s, t), t);
    }
  }

  lemma EndsShown(w: int, h: int, s: Segment)
    requires w > 0 && h > 0
    ensures EndsClipped(w, h, s, ClipResult(w, h, s))
  {
    if !ShareSide(w, h, s.a, s.b) {
      NoCuts(w, h, s);
      EndsMeaning(w, h, s, s, 0);
    }
  }

  lemma ClipMeaning(w: int, h: int, s: Segment)
    requires w > 0 && h > 0
    ensures Clipped(w, h, s, ClipResult(w, h, s))
  {
    EndsShown(w, h, s);
    forall t: real | 0.0 <= t <= 1.0 && InCore(w, h, PlaceAt(s, t))
      ensures ClipResult(w, h, s).Some? && HasPlaceNear(ClipResult(w, h, s).value, PlaceAt(s, t))
    {
      PlaceShown(w, h, s, t);
    }
  }

  // ----- when a segment is refused

  /** The second cut of the first end shows that the segment misses the frame. */
  predicate SecondCutRefuses(w: int, h: int, s: Segment)
    requires w > 0 && h > 0 && !ShareSide(w, h, s.a, s.b) && !InFrame(w, h, s.a)
  {
    var t := NextCut(w, h, s);
    !ShareSide(w, h, t.a, t.b) && !InFrame(w, h, t.a) && ShareSide(w, h, NextCut(w, h, t).a, NextCut(w, h, t).b)
  }

  /** Both ends beyond one side, before any cut or after the first or the second cut of the first end. */
  predicate Refuses(w: int, h: int, s: Segment)
    requires w > 0 && h > 0
  {
    || ShareSide(w, h, s.a, s.b)
    || (!InFrame(w, h, s.a) && (ShareSide(w, h, NextCut(w, h, s).a, NextCut(w, h, s).b) || SecondCutRefuses(w, h, s)))
  }

  lemma FirstEndInside(w: int, h: int, t: Segment)
    requires w > 0 && h > 0 && InFrame(w, h, t.a)
    ensures ClipResult(w, h, t).Some?
  {
    ClipMeaning(w, h, t);
  }

  lemma CutComesInside(w: int, h: int, s: Segment)
    requires w > 0 && h > 0 && !ShareSide(w, h, s.a, s.b) && !InFrame(w, h, s.a)
    ensures var t := NextCut(w, h, s);
            && t.b == s.b
            && (!ShareSide(w, h, t.a, t.b) ==> AxesOut(w, h, t.a) < AxesOut(w, h, s.a))
  {
    var p := CutAdvances(w, h, s);
  }

  /** Once the first end has one cut left, that cut decides. */
  lemma LastCutDecides(w: int, h: int, t: Segment)
    requires w > 0 && h > 0 && !ShareSide(w, h, t.a, t.b) && !InFrame(w, h, t.a) && AxesOut(w, h, t.a) <= 1
    ensures ClipResult(w, h, t) == None <==> ShareSide(w, h, NextCut(w, h, t).a, NextCut(w, h, t).b)
  {
    var u := NextCut(w, h, t);
    CutComesInside(w, h, t);
    assert ClipResult(w, h, t) == ClipResult(w, h, u);
    if !ShareSide(w, h, u.a, u.b) {
      FirstEndInside(w, h, u);
    }
  }

  /** Exactly when a segment is refused: at most two cuts decide it. */
  lemma RefusedIff(w: int, h: int, s: Segment)
    requires w > 0 && h > 0
    ensures ClipResult(w, h, s) == None <==> Refuses(w, h, s)
  {
    if ShareSide(w, h, s.a, s.b) {
    } else if InFrame(w, h, s.a) {
      FirstEndInside(w, h, s);
    } else {
      var t := NextCut(w, h, s);
      CutComesInside(w, h, s);
      assert ClipResult(w, h, s) == ClipResult(w, h, t);
      if ShareSide(w, h, t.a, t.b) {
      } else if InFrame(w, h, t.a) {
        FirstEndInside(w, h, t);
      } else {
        LastCutDecides(w, h, t);
      }
    }
  }

  /** A segment with a place in the frame is lost exactly when the second cut refuses it; the place is then within
      a pixel of the left, the right or the upper border. */
  lemma LostIff(w: int, h: int, s: Segment, mu: real)
    requires w > 0 && h > 0 && 0.0 <= mu <= 1.0 && InFrameArea(w, h, PlaceAt(s, mu))
    ensures ClipResult(w, h, s) == None <==>
            !ShareSide(w, h, s.a, s.b) && !InFrame(w, h, s.a) && SecondCutRefuses(w, h, s)
    ensures ClipResult(w, h, s) == None ==> !InCore(w, h, PlaceAt(s, mu))
  {
    RefusedIff(w, h, s);
    ClipMeaning(w, h, s);
    if ShareSide(w, h, s.a, s.b) ||
       (!InFrame(w, h, s.a) && ShareSide(w, h, NextCut(w, h, s).a, NextCut(w, h, s).b)) {
      FirstRefusalIsRight(w, h, s, mu);
      assert false;
    }
  }

  /** In a frame 320 wide and 168 high the second cut refuses this steep segment: cut at the top it starts a
      column too far left, and cut from there at the left side it begins below the frame. */
  const STEEP: Segment := Segment(Point(-3, -570), Point(1, 338))

  lemma SteepCuts()
    ensures ClipResult(320, 168, STEEP) == None
  {
    var t := Segment(Point(-1, 0), Point(1, 338));
    assert CutPoint(320, 168, STEEP, TOP | LEFT) == t.a;
    assert NextCut(320, 168, STEEP) == t;
    assert CutPoint(320, 168, t, LEFT) == Point(0, 169);
    assert NextCut(320, 168, t) == Segment(Point(0, 169), Point(1, 338));
  }

  // ----- what becomes of the pixels

  /** Two pixels or more from the border of the frame. */
  predicate InnerPixel(w: int, h: int, p: Point) {
    2 <= p.x <= w - 3 && 2 <= p.y <= h - 3
  }

  /** Three columns and four rows apart at most. */
  predicate CloseBy(p: Point, q: Point) {
    Abs(p.x - q.x) <= 3 && Abs(p.y - q.y) <= 4
  }

  /** A segment with a pixel well inside the frame is accepted, and has a pixel of the clipped segment near it. */
  lemma InnerPixelShown(w: int, h: int, s: Segment, p: Point) returns (q: Point)
    requires w > 0 && h > 0 && OnLine(s, p) && InnerPixel(w, h, p)
    ensures ClipResult(w, h, s).Some? && OnLine(ClipResult(w, h, s).value, q) && CloseBy(p, q)
  {
    var t := PixelHasPlace(s, p);
    ClipMeaning(w, h, s);
    assert InCore(w, h, PlaceAt(s, t));
    var r := ClipResult(w, h, s).value;
    var nu: real :| 0.0 <= nu <= 1.0 && CloseTo(PlaceAt(s, t), PlaceAt(r, nu));
    q := PlaceHasPixel(r, nu);
  }

  ghost predicate HasPixelNear(w: int, h: int, p: Point, fb: seq<byte>, color: byte)
    requires |fb| == w * h
  {
    exists q :: InFrame(w, h, q) && CloseBy(p, q) && Pixel(w, h, fb, q.x, q.y) == color
  }

  /** Every inner pixel of the segment has a painted pixel near it. */
  ghost predicate LineShown(w: int, h: int, s: Segment, fb: seq<byte>, color: byte)
    requires |fb| == w * h
  {
    forall p | OnLine(s, p) && InnerPixel(w, h, p) :: HasPixelNear(w, h, p, fb, color)
  }

  lemma PaintedShows(w: int, h: int, s: Segment, was: seq<byte>, fb: seq<byte>, color: byte)
    requires w > 0 && h > 0 && |was| == |fb| == w * h
    requires ClipResult(w, h, s).Some? ==> Painted(w, h, was, fb, ClipResult(w, h, s).value, color)
    ensures LineShown(w, h, s, fb, color)
  {
    ClipMeaning(w, h, s);
    forall p | OnLine(s, p) && InnerPixel(w, h, p) ensures HasPixelNear(w, h, p, fb, color) {
      var q := InnerPixelShown(w, h, s, p);
      LineInFrame(w, h, ClipResult(w, h, s).value, q);
      assert Pixel(w, h, fb, q.x, q.y) == color;
    }
  }

  /** Within ten pixels of a place of the segment. */
  ghost predicate ByLine(s: Segment, p: Point) {
    exists t: real :: 0.0 <= t <= 1.0 && Within(p, PlaceAt(s, t), 10.0)
  }

  lemma ClippedByLine(w: int, h: int, s: Segment, p: Point)
    requires w > 0 && h > 0 && ClipResult(w, h, s).Some? && OnLine(ClipResult(w, h, s).value, p)
    ensures ByLine(s, p)
  {
    var r := ClipResult(w, h, s).value;
    EndsShown(w, h, s);
    LineInBox(r, p);
    LineDrifts(s, r, p, 4 * Reach(s));
    var t := NearPlace(s, p);
  }

  /** Nothing changes but near the segment. */
  ghost predicate OnlyByLine(w: int, h: int, s: Segment, was: seq<byte>, fb: seq<byte>)
    requires |was| == |fb| == w * h
  {
    forall x, y | InFrame(w, h, Point(x, y)) && !ByLine(s, Point(x, y)) ::
      Pixel(w, h, fb, x, y) == Pixel(w, h, was, x, y)
  }

  lemma PaintedByLine(w: int, h: int, s: Segment, was: seq<byte>, fb: seq<byte>, color: byte)
    requires w > 0 && h > 0 && |was| == |fb| == w * h
    requires match ClipResult(w, h, s) case None => fb == was case Some(r) => Painted(w, h, was, fb, r, color)
    ensures OnlyByLine(w, h, s, was, fb)
  {
    if ClipResult(w, h, s).Some? {
      forall x, y | InFrame(w, h, Point(x, y)) && !ByLine(s, Point(x, y))
        ensures Pixel(w, h, fb, x, y) == Pixel(w, h, was, x, y)
      {
        if OnLine(ClipResult(w, h, s).value, Point(x, y)) {
          ClippedByLine(w, h, s, Point(x, y));
        }
      }
    }
  }

  lemma NearZero(major: nat, u: int, v: int)
    ensures Near(major, 0, u, v) <==> 0 <= u <= major && v == 0
  {
    if v > 0 {
      MulMonotone(1, v, major);
    } else if v < 0 {
      MulMonotone(1, -v, major);
      SignedProduct(v, major);
    }
  }

  /** The pixels of a segment along an axis are those of its bounding box. */
  lemma AxisPixels(s: Segment, p: Point)
    requires AxisAligned(s)
    ensures OnLine(s, p) <==> InBox(s, p)
  {
    var dx, dy := Abs(s.b.x - s.a.x), Abs(s.b.y - s.a.y);
    NearZero(dx, Along(s.a.x, s.b.x, p.x), Along(s.a.y, s.b.y, p.y));
    NearZero(dy, Along(s.a.y, s.b.y, p.y), Along(s.a.x, s.b.x, p.x));
  }

  /** Grid lines are clipped exactly: the clipped segment has the pixels of the whole segment that
      lie in the frame, and a segment beyond one side has none. */
  lemma AxisClipIsExact(w: int, h: int, s: Segment, p: Point)
    requires w > 0 && h > 0 && AxisAligned(s)
    ensures var r := ClipResult(w, h, s);
            r.Some? && OnLine(r.value, p) <==> OnLine(s, p) && InFrame(w, h, p)
  {
    ClipMeaning(w, h, s);
    AxisPixels(s, p);
    if ClipResult(w, h, s).Some? {
      AxisPixels(ClipResult(w, h, s).value, p);
    }
  }

  class Automap {
    const frame: FrameBuffer
    const fl: FLine
    var m_x: fixed
    var m_y: fixed
    var m_x2: fixed
    var m_y2: fixed
    var scale_mtof: fixed

    ghost predicate Valid() {
      frame.Valid()
    }

    constructor (frame: FrameBuffer, fl: FLine)
      requires frame.Valid()
      ensures Valid() && this.frame == frame && this.fl == fl
    {
      this.frame, this.fl := frame, fl;
      m_x, m_y, m_x2, m_y2, scale_mtof := 0, 0, 0, 0, 0;
    }

    function MapToFrame(x: fixed): (y: int)
      reads this
      ensures -0x8000 <= y < 0x8000
    {
      FixedMul(x, scale_mtof) / 0x1_0000
    }

    /** At one pixel a map unit, map units are pixels. */
    lemma UnitScale(x: int)
      requires scale_mtof == 0x1_0000 && -0x8000 <= x < 0x8000
      ensures MapToFrame(x * 0x1_0000) == x
    {
      assert x * 0x1_0000 * 0x1_0000 / 0x1_0000 == x * 0x1_0000;
    }

    /** A map point in frame coordinates; map rows count upwards. */
    function ToFrame(p: MapPoint): (q: Point)
      reads this
      ensures Valid() && frame.f_w <= 0x8000 && frame.f_h <= 0x8000 ==> SixteenBits(frame.f_w, frame.f_h, q)
    {
      Point(MapToFrame(ToInt32(p.x - m_x)), frame.f_h - MapToFrame(ToInt32(p.y - m_y)))
    }

    /** Coordinate `q` is that of a distance `d` from the corner of the window at the scale of the map: the pixel it
        falls into, as long as neither the distance nor the scaled distance leaves its type. */
    ghost predicate Scaled(d: int, q: int)
      reads this
    {
      FitsInt(d) && Abs(d * scale_mtof) < 0x8000_0000_0000 ==>
        q * 0x1_0000_0000 <= d * scale_mtof < (q + 1) * 0x1_0000_0000
    }

    /** Point `q` of the frame is where map point `p` lies, rows counted from the bottom. */
    ghost predicate LiesAt(p: MapPoint, q: Point)
      reads this
    {
      Scaled(p.x - m_x, q.x) && Scaled(p.y - m_y, frame.f_h - q.y)
    }

    lemma MapToFrameScales(d: int)
      ensures Scaled(d, MapToFrame(ToInt32(d)))
    {
      var p := d * scale_mtof;
      if FitsInt(d) && Abs(p) < 0x8000_0000_0000 {
        assert FixedMul(ToInt32(d), scale_mtof) == p / 0x1_0000;
      }
    }

    /** Every map point is put where it lies. */
    lemma ToFrameScales(p: MapPoint)
      ensures LiesAt(p, ToFrame(p))
    {
      MapToFrameScales(p.x - m_x);
      MapToFrameScales(p.y - m_y);
    }

    /** In a frame of 32768 pixels at most each way no line makes the arithmetic of clipping overflow. */
    lemma NoOverflow(ml: MapLine)
      requires Valid() && frame.f_w <= 0x8000 && frame.f_h <= 0x8000
      ensures ClipFits(frame.f_w, frame.f_h, Segment(ToFrame(ml.a), ToFrame(ml.b)))
    {
      SmallClipFits(frame.f_w, frame.f_h, Segment(ToFrame(ml.a), ToFrame(ml.b)));
    }

    /** Both ends lie beyond the same side of the map window. */
    predicate OutsideWindow(ml: MapLine)
      reads this
    {
      (ml.a.y > m_y2 && ml.b.y > m_y2) || (ml.a.y <= m_y2 && ml.a.y < m_y && ml.b.y <= m_y2 && ml.b.y < m_y)
      || (ml.a.x < m_x && ml.b.x < m_x) || (ml.a.x >= m_x && ml.a.x > m_x2 && ml.b.x >= m_x && ml.b.x > m_x2)
    }

    /** No place of the line is in the map window. */
    ghost predicate MissesWindow(ml: MapLine)
      reads this
    {
      forall t: real :: 0.0 <= t <= 1.0 ==>
        !(m_x as real <= Part(ml.a.x, ml.b.x, t) <= m_x2 as real
          && m_y as real <= Part(ml.a.y, ml.b.y, t) <= m_y2 as real)
    }

    /** What the checks against the window refuse: exactly the lines that lie beyond one side of it, which have no
        place in it. */
    lemma WindowRefuses(ml: MapLine)
      ensures OutsideWindow(ml) ==> MissesWindow(ml)
      ensures m_x <= m_x2 && m_y <= m_y2 ==>
                (OutsideWindow(ml) <==>
                 Max(ml.a.x, ml.b.x) < m_x || m_x2 < Min(ml.a.x, ml.b.x)
                 || Max(ml.a.y, ml.b.y) < m_y || m_y2 < Min(ml.a.y, ml.b.y))
    {
      forall t: real | 0.0 <= t <= 1.0 && OutsideWindow(ml)
        ensures !(m_x as real <= Part(ml.a.x, ml.b.x, t) <= m_x2 as real
                  && m_y as real <= Part(ml.a.y, ml.b.y, t) <= m_y2 as real)
      {
        BetweenParts(ml.a.x, ml.b.x, t);
        BetweenParts(ml.a.y, ml.b.y, t);
      }
    }

    /** One round of the clipping loop: the first end that is outside is cut at one side. */
    method CutEnd(outcode1: bv4, outcode2: bv4) returns (code1: bv4, code2: bv4, rejected: bool)
      requires Valid() && !ShareSide(frame.f_w, frame.f_h, fl.a, fl.b)
      requires outcode1 == Outcode(frame.f_w, frame.f_h, fl.a) && outcode2 == Outcode(frame.f_w, frame.f_h, fl.b)
      requires !SegmentInFrame(frame.f_w, frame.f_h, Segment(fl.a, fl.b))
      modifies fl
      ensures code1 == Outcode(frame.f_w, frame.f_h, fl.a) && code2 == Outcode(frame.f_w, frame.f_h, fl.b)
      ensures Segment(fl.a, fl.b) == NextCut(frame.f_w, frame.f_h, old(Segment(fl.a, fl.b)))
      ensures rejected <==> ShareSide(frame.f_w, frame.f_h, fl.a, fl.b)
    {
      ghost var t := Segment(fl.a, fl.b);
      OutcodeBits(frame.f_w, frame.f_h, fl.a);
      CutAgain(frame.f_w, frame.f_h, t);
      code1, code2 := outcode1, outcode2;
      var outside := if outcode1 != 0 then outcode1 else outcode2;
      var tmp := CutPoint(frame.f_w, frame.f_h, Segment(fl.a, fl.b), outside);
      if outside == outcode1 {
        fl.a := tmp;
        code1 := Outcode(frame.f_w, frame.f_h, fl.a);
      } else {
        fl.b := tmp;
        code2 := Outcode(frame.f_w, frame.f_h, fl.b);
      }
      OutcodesMeet(frame.f_w, frame.f_h, fl.a, fl.b);
      rejected := code1 & code2 != 0;
    }

    /** The segment that a clipping left in `fl`, if it accepted it. */
    function Visible(accepted: bool): Option<Segment>
      reads fl
    {
      if accepted then Some(Segment(fl.a, fl.b)) else None
    }

    /** The clipping loop, in frame coordinates: at most four cuts. */
    method ClipFline() returns (accepted: bool, ghost cuts: nat)
      requires Valid()
      modifies fl
      ensures cuts <= 4
      ensures ClipResult(frame.f_w, frame.f_h, old(Segment(fl.a, fl.b))) == Visible(accepted)
      ensures Clipped(frame.f_w, frame.f_h, old(Segment(fl.a, fl.b)), Visible(accepted))
    {
      ghost var s := Segment(fl.a, fl.b);
      ClipMeaning(frame.f_w, frame.f_h, s);
      cuts := 0;
      var outcode1 := Outcode(frame.f_w, frame.f_h, fl.a);
      var outcode2 := Outcode(frame.f_w, frame.f_h, fl.b);
      OutcodesMeet(frame.f_w, frame.f_h, fl.a, fl.b);
      if outcode1 & outcode2 != 0 {
        return false, cuts;
      }
      while outcode1 | outcode2 != 0
        invariant outcode1 == Outcode(frame.f_w, frame.f_h, fl.a)
        invariant outcode2 == Outcode(frame.f_w, frame.f_h, fl.b)
        invariant !ShareSide(frame.f_w, frame.f_h, fl.a, fl.b)
        invariant cuts + AllAxesOut(frame.f_w, frame.f_h, Segment(fl.a, fl.b)) <= 4
        invariant ClipResult(frame.f_w, frame.f_h, s) == ClipResult(frame.f_w, frame.f_h, Segment(fl.a, fl.b))
        decreases AllAxesOut(frame.f_w, frame.f_h, Segment(fl.a, fl.b))
      {
        OutcodesMeet(frame.f_w, frame.f_h, fl.a, fl.b);
        var rejected: bool;
        outcode1, outcode2, rejected := CutEnd(outcode1, outcode2);
        cuts := cuts + 1;
        if rejected {
          return false, cuts;
        }
      }
      OutcodesMeet(frame.f_w, frame.f_h, fl.a, fl.b);
      accepted := true;
    }

    /** What AM_clipMline makes of a line: the map-window rejects, the change of coordinates, the cuts. */
    ghost function ClippedLine(ml: MapLine): Option<Segment>
      reads this
      requires Valid()
    {
      if OutsideWindow(ml) then None
      else ClipResult(frame.f_w, frame.f_h, Segment(ToFrame(ml.a), ToFrame(ml.b)))
    }

    /** The frame as it is set up, at one pixel a map unit, its lower left corner at the origin of the map. */
    ghost predicate FullFrame()
      reads this
    {
      && frame.f_w == 320 && frame.f_h == 168 && scale_mtof == 0x1_0000
      && m_x == 0 && m_y == 0 && m_x2 == 320 * 0x1_0000 && m_y2 == 168 * 0x1_0000
    }

    /** The steep segment in map units: it passes the checks against the window, it runs down the left column
        from top to bottom, a part of it inside the frame, and it is dropped. */
    lemma SteepLineLost(y: int)
      requires Valid() && FullFrame() && 0 <= y < 168
      ensures var ml := MapLine(MapPoint(-3 * 0x1_0000, 738 * 0x1_0000), MapPoint(0x1_0000, -170 * 0x1_0000));
              && !OutsideWindow(ml) && ClippedLine(ml) == None
              && Segment(ToFrame(ml.a), ToFrame(ml.b)) == STEEP
              && OnLine(STEEP, Point(0, y)) && InFrameArea(320, 168, PlaceAt(STEEP, 0.75))
    {
      SteepCuts();
      UnitScale(-3);
      UnitScale(738);
      UnitScale(1);
      UnitScale(-170);
      assert PlaceAt(STEEP, 0.75) == Place(0.0, 111.0);
    }

    /** The checks of AM_clipMline against the map window. */
    method RejectTrivially(ml: MapLine) returns (outside: bool)
      ensures outside == OutsideWindow(ml)
    {
      var outcode1: bv4 := if ml.a.y > m_y2 then TOP else if ml.a.y < m_y then BOTTOM else 0;
      var outcode2: bv4 := if ml.b.y > m_y2 then TOP else if ml.b.y < m_y then BOTTOM else 0;
      if outcode1 & outcode2 != 0 {
        return true;
      }
      outcode1 := outcode1 | (if ml.a.x < m_x then LEFT else if ml.a.x > m_x2 then RIGHT else 0);
      outcode2 := outcode2 | (if ml.b.x < m_x then LEFT else if ml.b.x > m_x2 then RIGHT else 0);
      outside := outcode1 & outcode2 != 0;
    }

    /** AM_clipMline. */
    method ClipMline(ml: MapLine) returns (accepted: bool)
      requires Valid()
      modifies fl
      ensures ClippedLine(ml) == Visible(accepted)
      ensures LiesAt(ml.a, ToFrame(ml.a)) && LiesAt(ml.b, ToFrame(ml.b))
      ensures OutsideWindow(ml) ==> MissesWindow(ml) && !accepted
      ensures !OutsideWindow(ml) ==>
                Clipped(frame.f_w, frame.f_h, Segment(ToFrame(ml.a), ToFrame(ml.b)), Visible(accepted))
      ensures accepted ==> SegmentInFrame(frame.f_w, frame.f_h, Segment(fl.a, fl.b))
    {
      accepted := false;
      var outside := RejectTrivially(ml);
      if !outside {
        fl.a := ToFrame(ml.a);
        fl.b := ToFrame(ml.b);
        ghost var s, cuts := Segment(ToFrame(ml.a), ToFrame(ml.b)), 0;
        accepted, cuts := ClipFline();
        assert s == Segment(ToFrame(ml.a), ToFrame(ml.b));
      }
      WindowRefuses(ml);
      ToFrameScales(ml.a);
      ToFrameScales(ml.b);
    }

    /** AM_drawMline: an accepted segment is painted, so the guard of the painter never refuses it. Every inner
        pixel of the line has a painted pixel near it, and nothing changes but near the line. */
    method DrawMline(ml: MapLine, color: byte)
      requires Valid()
      modifies fl, frame.fb
      ensures match ClippedLine(ml)
              case None => frame.fb[..] == old(frame.fb[..])
              case Some(s) => Painted(frame.f_w, frame.f_h, old(frame.fb[..]), frame.fb[..], s, color)
      ensures LiesAt(ml.a, ToFrame(ml.a)) && LiesAt(ml.b, ToFrame(ml.b))
      ensures OutsideWindow(ml) ==> MissesWindow(ml) && frame.fb[..] == old(frame.fb[..])
      ensures var s := Segment(ToFrame(ml.a), ToFrame(ml.b));
              !OutsideWindow(ml) ==>
                && Clipped(frame.f_w, frame.f_h, s, ClippedLine(ml))
                && LineShown(frame.f_w, frame.f_h, s, frame.fb[..], color)
                && OnlyByLine(frame.f_w, frame.f_h, s, old(frame.fb[..]), frame.fb[..])
    {
      ghost var was := frame.fb[..];
      var visible := ClipMline(ml);
      if visible {
        frame.DrawFline(fl, color);
      }
      if !OutsideWindow(ml) {
        PaintedShows(frame.f_w, frame.f_h, Segment(ToFrame(ml.a), ToFrame(ml.b)), was, frame.fb[..], color);
        PaintedByLine(frame.f_w, frame.f_h, Segment(ToFrame(ml.a), ToFrame(ml.b)), was, frame.fb[..], color);
      }
    }
  }
}
