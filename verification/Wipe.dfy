/** The screen melt of f_wipe.c: columns of the old screen slide down and uncover the new one. Buffers
    are sequences of pixel pairs, the `short`s through which the program moves them. */
module Wipe {
  import opened Common

  type pair = x: int | 0 <= x < 0x1_0000

  // ----- images

  predicate IsImage(w: nat, h: nat, s: seq<pair>) {
    |s| == w * h
  }

  predicate OnScreen(w: nat, h: nat, c: int, r: int) {
    0 <= c < w && 0 <= r < h
  }

  /** Column `c`, row `r` of an image stored row by row. */
  function At(w: nat, h: nat, s: seq<pair>, c: int, r: int): pair
    requires IsImage(w, h, s) && OnScreen(w, h, c, r)
  {
    OffsetInBuffer(w, h, c, r);
    s[r * w + c]
  }

  lemma ColumnOffset(w: nat, h: nat, c: int, r: int)
    requires OnScreen(w, h, c, r)
    ensures 0 <= Offset(h, r, c) < w * h
  {
    OffsetInBuffer(h, w, r, c);
    assert w * h == h * w;
  }

  /** Column `c`, row `r` of an image stored column by column. */
  function AtColumn(w: nat, h: nat, s: seq<pair>, c: int, r: int): pair
    requires IsImage(w, h, s) && OnScreen(w, h, c, r)
  {
    ColumnOffset(w, h, c, r);
    s[c * h + r]
  }

  /** The second buffer holds the image of the first, column by column. */
  ghost predicate Transposed(w: nat, h: nat, rows: seq<pair>, columns: seq<pair>)
    requires IsImage(w, h, rows) && IsImage(w, h, columns)
  {
    forall c, r | OnScreen(w, h, c, r) :: AtColumn(w, h, columns, c, r) == At(w, h, rows, c, r)
  }

  lemma CellOf(w: nat, h: nat, k: nat) returns (c: nat, r: nat)
    requires k < w * h
    ensures OnScreen(w, h, c, r) && Offset(w, c, r) == k
  {
    MulMonotone(w, 0, h);
    c, r := k % w, k / w;
    DivModNat(k, w);
    assert k == k / w * w + k % w;
    QuotientBelow(k, w, h);
    assert h * w == w * h;
  }

  /** Two images with the same pixels are the same. */
  lemma SameImage(w: nat, h: nat, s: seq<pair>, t: seq<pair>)
    requires IsImage(w, h, s) && IsImage(w, h, t)
    requires forall c, r | OnScreen(w, h, c, r) :: At(w, h, s, c, r) == At(w, h, t, c, r)
    ensures s == t
  {
    forall k | 0 <= k < |s| ensures s[k] == t[k] {
      var c, r := CellOf(w, h, k);
      assert At(w, h, s, c, r) == At(w, h, t, c, r);
    }
  }

  /** Transposing twice, with the sides exchanged the second time, gives the image back. */
  lemma TransposeTwice(w: nat, h: nat, a: seq<pair>, b: seq<pair>, c: seq<pair>)
    requires IsImage(w, h, a) && IsImage(w, h, b) && IsImage(h, w, b) && IsImage(h, w, c) && IsImage(w, h, c)
    requires Transposed(w, h, a, b) && Transposed(h, w, b, c)
    ensures c == a
  {
    forall x, y | OnScreen(w, h, x, y) ensures At(w, h, c, x, y) == At(w, h, a, x, y) {
      assert OnScreen(h, w, y, x);
      assert AtColumn(h, w, c, y, x) == At(h, w, b, y, x);
      assert AtColumn(w, h, b, x, y) == At(w, h, a, x, y);
    }
    SameImage(w, h, c, a);
  }

  // ----- column offsets

  /** A column's offset after one more tick. */
  function Advance(h: nat, y: int): int {
    if y < 0 then y + 1
    else if y < h then
      var dy := if y < 16 then y + 1 else 8;
      if y + dy >= h then h else y + dy
    else y
  }

  function AdvanceN(h: nat, y: int, n: nat): int {
    if n == 0 then y else Advance(h, AdvanceN(h, y, n - 1))
  }

  /** Two runs of ticks are one run of all of them. */
  lemma {:induction false} AdvanceMore(h: nat, y: int, m: nat, n: nat)
    ensures AdvanceN(h, AdvanceN(h, y, m), n) == AdvanceN(h, y, m + n)
  {
    if n != 0 {
      AdvanceMore(h, y, m, n - 1);
    }
  }

  /** Ticks in which a column doubles its offset. */
  function Doublings(y: int): nat {
    if y < 1 then 5 else if y < 2 then 4 else if y < 4 then 3 else if y < 8 then 2 else if y < 16 then 1 else 0
  }

  /** An upper bound on the ticks a column still needs: waiting, doubling, then eight rows a tick. */
  function TicksLeft(h: nat, y: int): nat {
    if y >= h then 0
    else (if y < 0 then -y else 0) + Doublings(y) + (if y < 16 then (h + 7) / 8 else (h - y + 7) / 8)
  }

  lemma TickCounts(h: nat, y: int)
    ensures y < h ==> y < Advance(h, y) <= h && TicksLeft(h, Advance(h, y)) < TicksLeft(h, y)
    ensures y >= h ==> Advance(h, y) == y
    ensures y < 0 && h == 0 ==> Advance(h, y) <= 0
  {
  }

  lemma {:induction false} TicksBound(h: nat, y: int, n: nat)
    requires y <= h
    ensures AdvanceN(h, y, n) <= h
    ensures AdvanceN(h, y, n) < h ==> n + TicksLeft(h, AdvanceN(h, y, n)) <= TicksLeft(h, y)
  {
    if n != 0 {
      TicksBound(h, y, n - 1);
      TickCounts(h, AdvanceN(h, y, n - 1));
    }
  }

  /** Enough ticks for any column that waits at most fifteen. */
  function Enough(h: nat): nat {
    20 + (h + 7) / 8
  }

  /** A column that waits at most 15 ticks is done after 20 ticks and one for every eight rows. */
  lemma ColumnFinishes(h: nat, y: int, n: nat)
    requires -15 <= y <= h && n >= Enough(h)
    ensures AdvanceN(h, y, n) == h
  {
    TicksBound(h, y, n);
  }

  /** How far a column is down `k` ticks after its wait: 2^k - 1 rows up to the fifth, then eight more a tick. */
  function Fall(k: nat): nat {
    if k <= 5 then [0, 1, 3, 7, 15, 31][k] else 31 + 8 * (k - 5)
  }

  /** The offset of a column after `n` ticks, from its first offset. */
  function Fallen(h: nat, y: int, n: nat): int
    requires y <= 0
  {
    if n <= -y then y + n else Min(h, Fall(n + y))
  }

  lemma FallOn(h: nat, k: nat)
    ensures Advance(h, Min(h, Fall(k))) == Min(h, Fall(k + 1))
  {
  }

  lemma {:induction false} FallsSo(h: nat, y: int, n: nat)
    requires y <= 0
    ensures AdvanceN(h, y, n) == Fallen(h, y, n)
  {
    if n != 0 {
      FallsSo(h, y, n - 1);
      if n - 1 >= -y {
        FallOn(h, n - 1 + y);
      }
    }
  }

  /** The ticks that a column falls for until it is at the bottom. */
  function FallTicks(h: nat): nat {
    if h == 0 then 0
    else if h <= 1 then 1
    else if h <= 3 then 2
    else if h <= 7 then 3
    else if h <= 15 then 4
    else if h <= 31 then 5
    else 5 + (h - 24) / 8
  }

  /** The exact tick at which a column arrives. */
  lemma ArrivesAt(h: nat, y: int, n: nat)
    requires y <= 0
    ensures Fallen(h, y, n) < h <==> n < FallTicks(h) - y
  {
  }

  // ----- the screen

  /** Column `c` of the screen at offset `y`: the new image above, the old one shifted down below. */
  ghost predicate ColumnShows(w: nat, h: nat, scr: seq<pair>, start: seq<pair>, end: seq<pair>, c: nat, y: int)
    requires IsImage(w, h, scr) && IsImage(w, h, start) && IsImage(w, h, end)
  {
    forall r | OnScreen(w, h, c, r) ::
      At(w, h, scr, c, r) == if r < Max(y, 0) then At(w, h, end, c, r) else At(w, h, start, c, r - Max(y, 0))
  }

  ghost predicate ScreenShows(w: nat, h: nat, scr: seq<pair>, start: seq<pair>, end: seq<pair>, y: seq<int>)
    requires IsImage(w, h, scr) && IsImage(w, h, start) && IsImage(w, h, end) && |y| >= w
  {
    forall c | 0 <= c < w :: ColumnShows(w, h, scr, start, end, c, y[c])
  }

  /** When every column has reached the bottom the screen is the new image. */
  lemma MeltedIsEnd(w: nat, h: nat, scr: seq<pair>, start: seq<pair>, end: seq<pair>, y: seq<int>)
    requires IsImage(w, h, scr) && IsImage(w, h, start) && IsImage(w, h, end) && |y| >= w
    requires ScreenShows(w, h, scr, start, end, y)
    requires forall c | 0 <= c < w :: y[c] >= h
    ensures scr == end
  {
    forall c, r | OnScreen(w, h, c, r) ensures At(w, h, scr, c, r) == At(w, h, end, c, r) {
      assert ColumnShows(w, h, scr, start, end, c, y[c]);
    }
    SameImage(w, h, scr, end);
  }

  /** Two screens differ only in rows `row` up to `row + n` of column `c`, where one has `strip`. */
  ghost predicate StripCopied(w: nat, h: nat, was: seq<pair>, scr: seq<pair>, c: nat, row: nat, strip: seq<pair>)
    requires IsImage(w, h, was) && IsImage(w, h, scr)
  {
    forall x, r | OnScreen(w, h, x, r) ::
      At(w, h, scr, x, r) == if x == c && row <= r < row + |strip| then strip[r - row] else At(w, h, was, x, r)
  }

  /** A row of a strip of a transposed image. */
  lemma StripAt(w: nat, h: nat, image: seq<pair>, cols: seq<pair>, c: nat, y: nat, z: nat, r: nat)
    requires IsImage(w, h, image) && IsImage(w, h, cols) && Transposed(w, h, image, cols)
    requires c < w && y <= r < z <= h && 0 <= Offset(h, y, c) && Offset(h, z, c) <= |cols|
    ensures cols[Offset(h, y, c)..Offset(h, z, c)][r - y] == At(w, h, image, c, r)
  {
    assert AtColumn(w, h, cols, c, r) == At(w, h, image, c, r);
  }

  lemma StripLength(h: nat, cols: seq<pair>, c: nat, y: nat, z: nat)
    requires y <= z && 0 <= Offset(h, y, c) && Offset(h, z, c) <= |cols|
    ensures |cols[Offset(h, y, c)..Offset(h, z, c)]| == z - y
  {
  }

  /** Copying the strip of the new image that a column uncovers and the old image below it shows the
      column at its new offset, and no other column changes. */
  lemma ColumnMelted(w: nat, h: nat, was: seq<pair>, mid: seq<pair>, scr: seq<pair>, start: seq<pair>,
                     end: seq<pair>, startCols: seq<pair>, endCols: seq<pair>, c: nat, y: nat, z: nat)
    requires IsImage(w, h, was) && IsImage(w, h, mid) && IsImage(w, h, scr)
    requires IsImage(w, h, start) && IsImage(w, h, end) && IsImage(w, h, startCols) && IsImage(w, h, endCols)
    requires Transposed(w, h, start, startCols) && Transposed(w, h, end, endCols)
    requires c < w && y <= z <= h && ColumnShows(w, h, was, start, end, c, y)
    requires Offset(h, h, c) <= |endCols| && Offset(h, h - z, c) <= |startCols|
    requires 0 <= Offset(h, y, c) && 0 <= Offset(h, 0, c)
    requires StripCopied(w, h, was, mid, c, y, endCols[Offset(h, y, c)..Offset(h, z, c)])
    requires StripCopied(w, h, mid, scr, c, z, startCols[Offset(h, 0, c)..Offset(h, h - z, c)])
    ensures ColumnShows(w, h, scr, start, end, c, z)
    ensures forall x, r | OnScreen(w, h, x, r) && x != c :: At(w, h, scr, x, r) == At(w, h, was, x, r)
  {
    StripLength(h, endCols, c, y, z);
    StripLength(h, startCols, c, 0, h - z);
    forall r | OnScreen(w, h, c, r)
      ensures At(w, h, scr, c, r) == if r < z then At(w, h, end, c, r) else At(w, h, start, c, r - z)
    {
      if y <= r < z {
        StripAt(w, h, end, endCols, c, y, z, r);
      } else if z <= r {
        StripAt(w, h, start, startCols, c, 0, h - z, r - z);
      }
    }
  }

  // ----- the starting offsets

  /** The first offset, from one random number. */
  function FirstOffset(r: byte): int {
    -((r as int) % 16)
  }

  /** The next offset: one up, the same or one down, kept from -15 to 0. */
  function NextOffset(y: int, r: byte): int {
    var z := y + r % 3 - 1;
    if z > 0 then 0 else if z == -16 then -15 else z
  }

  predicate OffsetAt(y: seq<int>, rnd: seq<byte>, i: nat)
    requires i < |y| <= |rnd|
  {
    y[i] == if i == 0 then FirstOffset(rnd[0]) else NextOffset(y[i - 1], rnd[i])
  }

  ghost predicate OffsetsFrom(y: seq<int>, rnd: seq<byte>) {
    |y| <= |rnd| && forall i | 0 <= i < |y| :: OffsetAt(y, rnd, i)
  }

  /** Every column waits at most 15 ticks, and at most one tick more or less than its neighbour. */
  lemma {:induction false} OffsetsJagged(y: seq<int>, rnd: seq<byte>, i: nat)
    requires OffsetsFrom(y, rnd) && i < |y|
    ensures -15 <= y[i] <= 0
    ensures i > 0 ==> -1 <= y[i] - y[i - 1] <= 1
    ensures y[0] == -((rnd[0] as int) % 16)
    ensures i > 0 ==> y[i] == Max(-15, Min(0, y[i - 1] + rnd[i] % 3 - 1))
  {
    assert OffsetAt(y, rnd, i);
    if i > 0 {
      OffsetsJagged(y, rnd, i - 1);
    }
  }

  // ----- transposing in place

  /** The first `y` rows, and the first `x` pixels of row `y`, are transposed. */
  ghost predicate TransposedTo(w: nat, h: nat, rows: seq<pair>, columns: seq<pair>, x: nat, y: nat)
    requires IsImage(w, h, rows) && IsImage(w, h, columns)
  {
    forall c, r | OnScreen(w, h, c, r) && (r < y || (r == y && c < x)) ::
      AtColumn(w, h, columns, c, r) == At(w, h, rows, c, r)
  }

  lemma TransposeStep(w: nat, h: nat, rows: seq<pair>, before: seq<pair>, after: seq<pair>, x: nat, y: nat)
    requires IsImage(w, h, rows) && IsImage(w, h, before) && IsImage(w, h, after)
    requires OnScreen(w, h, x, y) && TransposedTo(w, h, rows, before, x, y)
    requires 0 <= Offset(h, y, x) < |before|
    requires after == before[Offset(h, y, x) := At(w, h, rows, x, y)]
    ensures TransposedTo(w, h, rows, after, x + 1, y)
  {
    forall c, r | OnScreen(w, h, c, r) && (r < y || (r == y && c < x + 1))
      ensures AtColumn(w, h, after, c, r) == At(w, h, rows, c, r)
    {
      ColumnOffset(w, h, c, r);
      if Offset(h, r, c) == Offset(h, y, x) {
        OffsetInjective(h, r, c, y, x);
        assert c == x && r == y;
      } else {
        assert AtColumn(w, h, after, c, r) == AtColumn(w, h, before, c, r);
      }
    }
  }

  lemma AllTransposed(w: nat, h: nat, rows: seq<pair>, columns: seq<pair>)
    requires IsImage(w, h, rows) && IsImage(w, h, columns) && TransposedTo(w, h, rows, columns, 0, h)
    ensures Transposed(w, h, rows, columns)
  {
  }

  /** wipe_shittyColMajorXform: rows become columns, by way of a copy. */
  method ColMajorXform(a: array<pair>, width: nat, height: nat)
    requires IsImage(width, height, a[..])
    modifies a
    ensures IsImage(width, height, old(a[..])) && Transposed(width, height, old(a[..]), a[..])
  {
    ghost var rows := a[..];
    var dest := new pair[width * height];
    var y := 0;
    while y < height
      invariant 0 <= y <= height && a[..] == rows
      invariant TransposedTo(width, height, rows, dest[..], 0, y)
    {
      var x := 0;
      while x < width
        invariant 0 <= x <= width && a[..] == rows
        invariant TransposedTo(width, height, rows, dest[..], x, y)
      {
        OffsetInBuffer(width, height, x, y);
        ColumnOffset(width, height, x, y);
        ghost var before := dest[..];
        dest[x * height + y] := a[y * width + x];
        TransposeStep(width, height, rows, before, dest[..], x, y);
        x := x + 1;
      }
      y := y + 1;
    }
    ghost var columns := dest[..];
    AllTransposed(width, height, rows, columns);
    forall k | 0 <= k < a.Length {
      a[k] := dest[k];
    }
    assert a[..] == columns;
  }

  lemma OffsetsGrow(y: seq<int>, rnd: seq<byte>, z: seq<int>)
    requires OffsetsFrom(y, rnd) && 0 < |y| < |rnd|
    requires z == y + [NextOffset(y[|y| - 1], rnd[|y|])]
    ensures OffsetsFrom(z, rnd)
  {
    forall i | 0 <= i < |z| ensures OffsetAt(z, rnd, i) {
      assert i < |y| ==> OffsetAt(y, rnd, i);
    }
  }

  /** The offsets that wipe_initMelt chooses. */
  method InitOffsets(width: nat, rnd: seq<byte>) returns (y: array<int>)
    requires 0 < width <= |rnd|
    ensures fresh(y) && y.Length == width && OffsetsFrom(y[..], rnd)
  {
    y := new int[width];
    y[0] := -((rnd[0] as int) % 16);
    var i := 1;
    assert y[..i] == [FirstOffset(rnd[0])];
    while i < width
      invariant 1 <= i <= width
      invariant OffsetsFrom(y[..i], rnd)
    {
      var r := (rnd[i] as int) % 3 - 1;
      ghost var before := y[..i];
      OffsetsJagged(before, rnd, i - 1);
      y[i] := y[i - 1] + r;
      if y[i] > 0 {
        y[i] := 0;
      } else if y[i] == -16 {
        y[i] := -15;
      }
      assert y[..i + 1] == before + [NextOffset(before[i - 1], rnd[i])];
      OffsetsGrow(before, rnd, y[..i + 1]);
      i := i + 1;
    }
    assert y[..i] == y[..];
  }

  /** The offsets after a tick of the first `i` of `w` columns. */
  ghost function Ticked(h: nat, w: nat, y: seq<int>, i: nat): seq<int>
    requires i <= w <= |y|
  {
    seq(|y|, k requires 0 <= k < |y| => if k < i then Advance(h, y[k]) else y[k])
  }

  lemma {:induction false} RestingStays(h: nat, y: int, n: nat)
    requires y >= h
    ensures AdvanceN(h, y, n) == y
  {
    if n != 0 {
      RestingStays(h, y, n - 1);
    }
  }

  /** While every column waits the screen is the old image. */
  lemma WaitingShowsStart(w: nat, h: nat, start: seq<pair>, end: seq<pair>, y: seq<int>, rnd: seq<byte>)
    requires IsImage(w, h, start) && IsImage(w, h, end) && |y| >= w && OffsetsFrom(y, rnd)
    ensures ScreenShows(w, h, start, start, end, y)
    ensures forall i | 0 <= i < w :: -15 <= y[i] <= 0
  {
    forall i | 0 <= i < w ensures -15 <= y[i] <= 0 {
      OffsetsJagged(y, rnd, i);
    }
  }

  lemma StripsInBuffer(w: nat, h: nat, c: nat, y: nat, z: nat)
    requires c < w && y <= z <= h
    ensures 0 <= Offset(h, y, c) <= Offset(h, z, c) <= Offset(h, h, c) <= w * h
    ensures 0 <= Offset(h, 0, c) <= Offset(h, h - z, c) <= w * h
  {
    MulMonotone(0, c, h);
    MulMonotone(c + 1, w, h);
    assert (c + 1) * h == c * h + h;
  }

  /** A tick of one column leaves what the other columns show. */
  lemma OtherColumnsStay(w: nat, h: nat, was: seq<pair>, scr: seq<pair>, start: seq<pair>, end: seq<pair>,
                         y: seq<int>, z: seq<int>, c: nat)
    requires IsImage(w, h, was) && IsImage(w, h, scr) && IsImage(w, h, start) && IsImage(w, h, end)
    requires c < w <= |y| == |z| && z == y[c := z[c]]
    requires ScreenShows(w, h, was, start, end, y)
    requires ColumnShows(w, h, scr, start, end, c, z[c])
    requires forall x, r | OnScreen(w, h, x, r) && x != c :: At(w, h, scr, x, r) == At(w, h, was, x, r)
    ensures ScreenShows(w, h, scr, start, end, z)
  {
    forall x | 0 <= x < w ensures ColumnShows(w, h, scr, start, end, x, z[x]) {
      if x != c {
        assert ColumnShows(w, h, was, start, end, x, y[x]);
      }
    }
  }

  lemma OffsetStep(w: nat, c: nat, r: nat, n: nat)
    ensures Offset(w, c, r + n) == Offset(w, c, r) + n * w
  {
  }

  lemma StripGrows(w: nat, h: nat, was: seq<pair>, before: seq<pair>, after: seq<pair>, c: nat, row: nat,
                   strip: seq<pair>, p: pair)
    requires IsImage(w, h, was) && IsImage(w, h, before) && IsImage(w, h, after)
    requires c < w && row + |strip| < h
    requires StripCopied(w, h, was, before, c, row, strip)
    requires 0 <= Offset(w, c, row + |strip|) < |before|
    requires after == before[Offset(w, c, row + |strip|) := p]
    ensures StripCopied(w, h, was, after, c, row, strip + [p])
  {
    forall x, r | OnScreen(w, h, x, r)
      ensures At(w, h, after, x, r) ==
              if x == c && r == row + |strip| then p else At(w, h, before, x, r)
    {
      OffsetInBuffer(w, h, x, r);
      if Offset(w, x, r) == Offset(w, c, row + |strip|) {
        OffsetInjective(w, x, r, c, row + |strip|);
      }
    }
  }

  // ----- the state of a melt

  class Melt {
    const width: nat
    const height: nat
    var wipe_scr: array<pair>
    var wipe_scr_start: array<pair>
    var wipe_scr_end: array<pair>
    var y: array<int>
    var go: bool

    // the two images, row by row
    ghost var start: seq<pair>
    ghost var end: seq<pair>

    // the offsets at the start of the wipe, and the ticks since
    ghost var first: seq<int>
    ghost var ran: nat

    /** Pixel pairs in a row. */
    function Columns(): nat {
      width / 2
    }

    ghost predicate Valid()
      reads this
    {
      var w := Columns();
      && width % 2 == 0 && width > 0
      && wipe_scr.Length == wipe_scr_start.Length == wipe_scr_end.Length == w * height
      && wipe_scr != wipe_scr_start && wipe_scr != wipe_scr_end && wipe_scr_start != wipe_scr_end
      && y as object != wipe_scr && y as object != wipe_scr_start && y as object != wipe_scr_end
    }

    /** Between ticks. */
    ghost predicate Melting()
      reads this, wipe_scr, wipe_scr_start, wipe_scr_end, y
    {
      var w := Columns();
      && Valid() && y.Length == width
      && IsImage(w, height, start) && IsImage(w, height, end)
      && Transposed(w, height, start, wipe_scr_start[..])
      && Transposed(w, height, end, wipe_scr_end[..])
      && ScreenShows(w, height, wipe_scr[..], start, end, y[..])
      && forall i | 0 <= i < w :: y[i] <= height
    }

    /** Both inner loops of wipe_doMelt: a run of one column-major buffer goes down a screen column. */
    method CopyStrip(s: array<pair>, from: nat, c: nat, row: nat, n: nat, ghost src: seq<pair>)
      requires Valid() && s != wipe_scr && src == s[..] && from + n <= |src|
      requires c < Columns() && row + n <= height
      modifies wipe_scr
      ensures StripCopied(Columns(), height, old(wipe_scr[..]), wipe_scr[..], c, row, src[from..from + n])
    {
      ghost var w := Columns();
      ghost var was := wipe_scr[..];
      var d := Offset(Columns(), c, row);
      var idx := 0;
      var j := n;
      OffsetStep(Columns(), c, row, 0);
      while j != 0
        invariant 0 <= j <= n
        invariant d + idx == Offset(w, c, row + n - j)
        invariant src == s[..]
        invariant StripCopied(w, height, was, wipe_scr[..], c, row, src[from..from + n - j])
      {
        OffsetInBuffer(w, height, c, row + n - j);
        OffsetStep(w, c, row + n - j, 1);
        ghost var before := wipe_scr[..];
        wipe_scr[d + idx] := s[from + n - j];
        StripGrows(w, height, was, before, wipe_scr[..], c, row, src[from..from + n - j], src[from + n - j]);
        assert src[from..from + n - j] + [src[from + n - j]] == src[from..from + n - j + 1];
        idx := idx + Columns();
        j := j - 1;
      }
    }

    /** Both strips of a column that moves from one row to another: the new image that it uncovers, and the old
        one below. */
    method ShowColumn(c: nat, from: nat, to: nat)
      requires Melting() && c < Columns() && from <= to <= height && y[c] == from
      modifies wipe_scr
      ensures ColumnShows(Columns(), height, wipe_scr[..], start, end, c, to)
      ensures forall x, r | OnScreen(Columns(), height, x, r) && x != c ::
                At(Columns(), height, wipe_scr[..], x, r) == At(Columns(), height, old(wipe_scr[..]), x, r)
    {
      ghost var w, was := Columns(), wipe_scr[..];
      ghost var startCols, endCols := wipe_scr_start[..], wipe_scr_end[..];
      assert ColumnShows(w, height, was, start, end, c, y[..][c]);
      StripsInBuffer(w, height, c, from, to);
      CopyStrip(wipe_scr_end, c * height + from, c, from, to - from, endCols);
      ghost var mid := wipe_scr[..];
      CopyStrip(wipe_scr_start, c * height, c, to, height - to, startCols);
      ColumnMelted(w, height, was, mid, wipe_scr[..], start, end, startCols, endCols, c, from, to);
    }

    /** A column that has begun to fall moves down by `dy` rows. */
    method MoveColumn(c: nat, dy: nat)
      requires Melting() && c < Columns() && 0 <= y[c] && y[c] + dy <= height
      modifies wipe_scr, y
      ensures Melting()
      ensures y[..] == old(y[..])[c := old(y[c]) + dy]
    {
      ghost var was, y0 := wipe_scr[..], y[..];
      ShowColumn(c, y[c], y[c] + dy);
      y[c] := y[c] + dy;
      OtherColumnsStay(Columns(), height, was, wipe_scr[..], start, end, y0, y[..], c);
    }

    /** The body of the column loop of wipe_doMelt. */
    method MeltColumn(c: nat) returns (moved: bool)
      requires Melting() && c < Columns()
      modifies wipe_scr, y
      ensures Melting()
      ensures y[..] == old(y[..])[c := Advance(height, old(y[c]))]
      ensures y[c] == if old(y[c]) < 0 then old(y[c]) + 1
                      else if old(y[c]) < 16 then Max(old(y[c]), Min(height, 2 * old(y[c]) + 1))
                      else Max(old(y[c]), Min(height, old(y[c]) + 8))
      ensures moved <==> old(y[c]) < height
    {
      moved := false;
      ghost var y0 := y[..];
      if y[c] < 0 {
        assert ColumnShows(Columns(), height, wipe_scr[..], start, end, c, y0[c]);
        y[c] := y[c] + 1;
        moved := true;
        OtherColumnsStay(Columns(), height, wipe_scr[..], wipe_scr[..], start, end, y0, y[..], c);
      } else if y[c] < height {
        var dy := if y[c] < 16 then y[c] + 1 else 8;
        if y[c] + dy >= height {
          dy := height - y[c];
        }
        MoveColumn(c, dy);
        moved := true;
      }
    }

    /** One tick of every column. */
    method MeltTick() returns (moved: bool)
      requires Melting()
      modifies wipe_scr, y
      ensures Melting()
      ensures y[..] == Ticked(height, Columns(), old(y[..]), Columns())
      ensures moved <==> exists c :: 0 <= c < Columns() && old(y[..])[c] < height
    {
      ghost var y0 := y[..];
      moved := false;
      var i := 0;
      while i < Columns()
        invariant 0 <= i <= Columns() && Melting()
        invariant y[..] == Ticked(height, Columns(), y0, i)
        invariant moved <==> exists c :: 0 <= c < i && y0[c] < height
      {
        assert y[i] == y0[i];
        var m := MeltColumn(i);
        moved := moved || m;
        i := i + 1;
      }
    }

    /** wipe_doMelt. It reports done when nothing moved; if it ran at all, the screen is then the new
        image. */
    method DoMelt(ticks: nat) returns (done: bool)
      requires Melting()
      modifies wipe_scr, y
      ensures Melting()
      ensures forall c | 0 <= c < Columns() :: y[c] == AdvanceN(height, old(y[..])[c], ticks)
      ensures done <==> ticks == 0 || forall c | 0 <= c < Columns() :: old(y[..])[c] >= height
      ensures done && ticks > 0 ==> wipe_scr[..] == end
    {
      ghost var y0 := y[..];
      done := true;
      var n := 0;
      while n < ticks
        invariant 0 <= n <= ticks && Melting()
        invariant forall c | 0 <= c < Columns() :: y[c] == AdvanceN(height, y0[c], n)
        invariant done <==> n == 0 || forall c | 0 <= c < Columns() :: y0[c] >= height
      {
        var moved := MeltTick();
        if moved {
          done := false;
        }
        forall c | 0 <= c < Columns() && y0[c] >= height
          ensures AdvanceN(height, y0[c], n) == y0[c]
        {
          RestingStays(height, y0[c], n);
        }
        n := n + 1;
      }
      if done && ticks > 0 {
        forall c | 0 <= c < Columns() ensures y[c] >= height {
          RestingStays(height, y0[c], n);
        }
        MeltedIsEnd(Columns(), height, wipe_scr[..], start, end, y[..]);
      }
    }

    /** wipe_initMelt: the old screen is shown and every column waits. */
    method InitMelt(rnd: seq<byte>)
      requires Valid() && |rnd| >= width
      modifies this, wipe_scr, wipe_scr_start, wipe_scr_end
      ensures Melting() && fresh(y) && go == old(go)
      ensures wipe_scr == old(wipe_scr) && wipe_scr_start == old(wipe_scr_start) && wipe_scr_end == old(wipe_scr_end)
      ensures start == old(wipe_scr_start[..]) && end == old(wipe_scr_end[..])
      ensures OffsetsFrom(y[..], rnd)
    {
      start, end := wipe_scr_start[..], wipe_scr_end[..];
      forall k | 0 <= k < wipe_scr.Length {
        wipe_scr[k] := wipe_scr_start[k];
      }
      assert wipe_scr[..] == start;
      assert wipe_scr_start[..] == start;
      ColMajorXform(wipe_scr_start, Columns(), height);
      ghost var startCols := wipe_scr_start[..];
      assert Transposed(Columns(), height, start, startCols);
      assert wipe_scr_end[..] == end;
      ColMajorXform(wipe_scr_end, Columns(), height);
      ghost var endCols := wipe_scr_end[..];
      assert Transposed(Columns(), height, end, endCols);
      y := InitOffsets(width, rnd);
      WaitingShowsStart(Columns(), height, start, end, y[..], rnd);
      assert wipe_scr[..] == start && wipe_scr_start[..] == startCols && wipe_scr_end[..] == endCols;
    }

    /** A wipe on its way: the offsets are those it started from, advanced by the ticks since. */
    ghost predicate Wiping()
      reads this, wipe_scr, wipe_scr_start, wipe_scr_end, y
    {
      && Melting() && |first| >= Columns()
      && forall c | 0 <= c < Columns() :: -15 <= first[c] <= 0 && y[c] == AdvanceN(height, first[c], ran)
    }

    /** Some column had not arrived after that many ticks. */
    ghost predicate Unfinished(n: nat)
      reads this
      requires |first| >= Columns()
    {
      exists c :: 0 <= c < Columns() && AdvanceN(height, first[c], n) < height
    }

    /** wipe_initMelt at the start of a wipe. */
    method StartWipe(rnd: seq<byte>)
      requires Valid() && |rnd| >= width
      modifies this, wipe_scr, wipe_scr_start, wipe_scr_end
      ensures Wiping() && fresh(y) && ran == 0 && OffsetsFrom(first, rnd) && go == old(go)
      ensures wipe_scr == old(wipe_scr) && wipe_scr_start == old(wipe_scr_start) && wipe_scr_end == old(wipe_scr_end)
      ensures start == old(wipe_scr_start[..]) && end == old(wipe_scr_end[..])
    {
      InitMelt(rnd);
      first, ran := y[..], 0;
      forall c | 0 <= c < Columns() ensures -15 <= first[c] <= 0 {
        OffsetsJagged(first, rnd, c);
      }
    }

    /** wipe_doMelt in a wipe. It is done exactly when it was not asked for a tick or every column had arrived. */
    method ContinueWipe(ticks: nat) returns (done: bool)
      requires Wiping()
      modifies wipe_scr, y, `ran
      ensures Wiping() && ran == old(ran) + ticks
      ensures done <==> ticks == 0 || !Unfinished(old(ran))
      ensures done && ticks > 0 ==> wipe_scr[..] == end
    {
      ghost var y0 := y[..];
      done := DoMelt(ticks);
      forall c | 0 <= c < Columns() ensures y[c] == AdvanceN(height, first[c], ran + ticks) {
        assert y0[c] == AdvanceN(height, first[c], ran);
        AdvanceMore(height, first[c], ran, ticks);
      }
      ran := ran + ticks;
    }

    /** Every column has arrived after enough ticks. */
    lemma AllArrive()
      requires Wiping()
      ensures forall n :: n >= Enough(height) ==> !Unfinished(n)
    {
      forall c, n: nat | 0 <= c < Columns() && n >= Enough(height) ensures AdvanceN(height, first[c], n) == height {
        ColumnFinishes(height, first[c], n);
      }
    }

    /** Some column is still waiting or falling after that many ticks. */
    ghost predicate Falling(n: nat)
      reads this
      requires |first| >= Columns()
    {
      exists c :: 0 <= c < Columns() && n < FallTicks(height) - first[c]
    }

    /** Where the columns are, and whether any is still on its way. */
    lemma WipeFalls()
      requires Wiping()
      ensures forall c | 0 <= c < Columns() :: y[c] == Fallen(height, first[c], ran)
      ensures forall n: nat :: Unfinished(n) <==> Falling(n)
    {
      forall c | 0 <= c < Columns() ensures y[c] == Fallen(height, first[c], ran) {
        FallsSo(height, first[c], ran);
      }
      forall c, n: nat | 0 <= c < Columns()
        ensures AdvanceN(height, first[c], n) < height <==> n < FallTicks(height) - first[c]
      {
        FallsSo(height, first[c], n);
        ArrivesAt(height, first[c], n);
      }
    }

    /** wipe_ScreenWipe with the melt: starts a wipe when none is running, and says whether it goes on. It goes on
        exactly while a column had not arrived before the call, and so is over once enough ticks have run. */
    method ScreenWipe(ticks: nat, rnd: seq<byte>) returns (running: bool)
      requires if go then Wiping() else Valid() && |rnd| >= width
      modifies this, wipe_scr, wipe_scr_start, wipe_scr_end, y
      ensures running == go && Wiping()
      ensures start == (if old(go) then old(start) else old(wipe_scr_start[..]))
      ensures end == (if old(go) then old(end) else old(wipe_scr_end[..]))
      ensures wipe_scr == old(wipe_scr)
      ensures if old(go) then first == old(first) && ran == old(ran) + ticks
              else OffsetsFrom(first, rnd) && ran == ticks
      ensures forall c | 0 <= c < Columns() :: y[c] == Fallen(height, first[c], ran)
      ensures running <==> ticks > 0 && Falling(ran - ticks)
      ensures ran - ticks >= Enough(height) ==> !running
      ensures !running && ticks > 0 ==> wipe_scr[..] == end
    {
      if !go {
        go := true;
        StartWipe(rnd);
      }
      var rc := ContinueWipe(ticks);
      if rc {
        go := false;
      }
      running := go;
      AllArrive();
      WipeFalls();
    }
  }
}
