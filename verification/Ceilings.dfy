/** Moving ceilings (p_ceilng.c): thinkers, the table of active ceilings, and the back-pointers from
    sectors. */
module Ceilings {
  import opened Common

  datatype Kind =
    LowerToFloor | RaiseToHighest | LowerAndCrush | CrushAndRaise | FastCrushAndRaise | SilentCrushAndRaise

  /** Outcome of moving a plane one step. */
  datatype Moved = Ok | Crushed | PastDest

  const FRACUNIT: int := 0x1_0000

  /** The tag of a ceiling and the fields that decide where it goes; heights are `None` until they are set. */
  datatype State = State(kind: Kind, direction: int, olddirection: int, running: bool,
                         top: Option<int>, bottom: Option<int>, speed: int, crush: bool, tag: int)

  predicate Crushes(k: Kind) {
    k.CrushAndRaise? || k.FastCrushAndRaise? || k.SilentCrushAndRaise?
  }

  /** Where a ceiling is heading, or was heading when it was put in stasis. */
  function Heading(s: State): int {
    if s.direction == 0 then s.olddirection else s.direction
  }

  /** In stasis exactly when the thinker is off; the heading is saved; the height it heads for is set. */
  predicate Sound(s: State) {
    && (s.direction == 0 <==> !s.running)
    && (Heading(s) == 1 || Heading(s) == -1)
    && (Heading(s) == 1 ==> s.top.Some? && !s.kind.LowerToFloor? && !s.kind.LowerAndCrush?)
    && (Heading(s) == -1 ==> s.bottom.Some? && !s.kind.RaiseToHighest?)
    && (Crushes(s.kind) ==> s.top.Some? && s.bottom.Some?)
  }

  /** The ceiling is done and should be removed. */
  predicate Finishes(s: State, res: Moved) {
    res.PastDest? && !Crushes(s.kind) && s.direction != 0
  }

  /** The kinds that slow down when something is below them on the way down. */
  predicate Slows(k: Kind) {
    k.CrushAndRaise? || k.SilentCrushAndRaise? || k.LowerAndCrush?
  }

  /** A crusher turns round at either end. One that slowed down on its way regains its speed at the bottom. */
  function AfterMove(s: State, res: Moved): State {
    if res.PastDest? && Crushes(s.kind) then
      s.(direction := -s.direction, speed := if s.direction == -1 && Slows(s.kind) then FRACUNIT else s.speed)
    else if res.Crushed? && s.direction == -1 && Slows(s.kind) then s.(speed := FRACUNIT / 8)
    else s
  }

  function Stopped(s: State): State {
    if s.direction != 0 then s.(olddirection := s.direction, running := false, direction := 0) else s
  }

  function Restarted(s: State): State {
    if s.direction == 0 then s.(direction := s.olddirection, running := true) else s
  }

  /** Stopping and restarting a ceiling, in motion or in stasis, sends it on its way; each of the two
      done twice is the same as done once. */
  lemma StopRestart(s: State)
    requires Sound(s)
    ensures Sound(Stopped(s)) && Sound(Restarted(s)) && Sound(Restarted(Stopped(s)))
    ensures Restarted(Stopped(s)).direction == Heading(s) && Restarted(Stopped(s)).running
    ensures s.direction != 0 ==> Restarted(Stopped(s)).(olddirection := s.olddirection) == s
    ensures s.direction == 0 ==> Stopped(Restarted(s)) == s
    ensures Stopped(s).direction == 0 && !Stopped(s).running && Heading(Stopped(s)) == Heading(s)
    ensures Stopped(Stopped(s)) == Stopped(s) && Restarted(Restarted(s)) == Restarted(s)
  {
  }

  /** What a new ceiling of each kind does to a sector with these heights. */
  function Launched(k: Kind, tag: int, floor: int, ceiling: int, highest: int): State {
    match k
    case RaiseToHighest => State(k, 1, 0, true, Some(highest), None, FRACUNIT, false, tag)
    case LowerToFloor => State(k, -1, 0, true, None, Some(floor), FRACUNIT, false, tag)
    case LowerAndCrush => State(k, -1, 0, true, None, Some(floor + 8 * FRACUNIT), FRACUNIT, false, tag)
    case _ => State(k, -1, 0, true, Some(ceiling), Some(floor + 8 * FRACUNIT),
                    if k == FastCrushAndRaise then 2 * FRACUNIT else FRACUNIT, true, tag)
  }

  /** What a move changes, kind by kind: a crusher turns round at either end of its way, and nothing else turns.
      What is below slows down all that crush on their way down but the fast ones, to an eighth; the others of the
      crushers are up to speed again when they turn round at the bottom. */
  lemma AfterMoveIs(s: State, res: Moved)
    requires Sound(s) && s.running
    ensures var crusher := s.kind.CrushAndRaise? || s.kind.SilentCrushAndRaise? || s.kind.FastCrushAndRaise?;
            var slow := s.kind.CrushAndRaise? || s.kind.SilentCrushAndRaise?;
            var t := AfterMove(s, res);
            && t == s.(direction := t.direction, speed := t.speed)
            && t.direction == (if crusher && res.PastDest? then -s.direction else s.direction)
            && t.speed == (if s.direction == -1 && slow && res.PastDest? then 65536
                           else if s.direction == -1 && (slow || s.kind.LowerAndCrush?) && res.Crushed? then 8192
                           else s.speed)
    ensures Finishes(s, res) <==>
              res.PastDest? && (s.kind.RaiseToHighest? || s.kind.LowerToFloor? || s.kind.LowerAndCrush?)
  {
  }

  lemma MoveSoundUnless(s: State, res: Moved)
    requires Sound(s)
    ensures !Finishes(s, res) ==> Sound(AfterMove(s, res))
    ensures s.direction == 1 ==> s.top.Some?
    ensures s.direction == -1 ==> s.bottom.Some?
  {
  }

  // ----- the way of a crusher

  function Moves(s: State, outcomes: seq<Moved>): State
    decreases |outcomes|
  {
    if outcomes == [] then s else Moves(AfterMove(s, outcomes[0]), outcomes[1..])
  }

  /** The heights at which the plane arrives, one after the other. */
  function Arrivals(s: State, outcomes: seq<Moved>): seq<Option<int>>
    decreases |outcomes|
  {
    if outcomes == [] then []
    else
      (if outcomes[0].PastDest? then [if s.direction == 1 then s.top else s.bottom] else [])
      + Arrivals(AfterMove(s, outcomes[0]), outcomes[1..])
  }

  /** A crusher that runs arrives at its two heights in turn, at the one it heads for first. */
  lemma {:induction false} CrusherAlternates(s: State, outcomes: seq<Moved>, k: nat)
    requires Sound(s) && s.running && Crushes(s.kind) && k < |Arrivals(s, outcomes)|
    ensures Arrivals(s, outcomes)[k] == if (s.direction == 1) == (k % 2 == 0) then s.top else s.bottom
    decreases |outcomes|
  {
    var t := AfterMove(s, outcomes[0]);
    AfterMoveIs(s, outcomes[0]);
    MoveSoundUnless(s, outcomes[0]);
    if outcomes[0].PastDest? {
      if k > 0 {
        CrusherAlternates(t, outcomes[1..], k - 1);
      }
    } else {
      CrusherAlternates(t, outcomes[1..], k);
    }
  }

  lemma {:induction false} MovesOn(s: State, outcomes: seq<Moved>)
    requires outcomes != []
    ensures Moves(s, outcomes) == AfterMove(Moves(s, outcomes[..|outcomes| - 1]), outcomes[|outcomes| - 1])
    decreases |outcomes|
  {
    if |outcomes| > 1 {
      var rest := outcomes[1..];
      MovesOn(AfterMove(s, outcomes[0]), rest);
      assert rest[..|rest| - 1] == outcomes[..|outcomes| - 1][1..];
    }
  }

  /** From its launch on a crusher goes down at full speed or slowed down to an eighth, and up at full speed; a fast
      one goes at twice that speed all the way. It never ends, and its heights stay. */
  lemma {:induction false} CrusherSpeeds(kind: Kind, tag: int, floor: int, ceiling: int, highest: int,
                                         outcomes: seq<Moved>)
    requires kind.CrushAndRaise? || kind.SilentCrushAndRaise? || kind.FastCrushAndRaise?
    ensures var t := Moves(Launched(kind, tag, floor, ceiling, highest), outcomes);
            && Sound(t) && t.running && t.kind == kind && t.tag == tag && t.crush
            && t.top == Some(ceiling) && t.bottom == Some(floor + 8 * 65536)
            && (kind.FastCrushAndRaise? ==> t.speed == 131072)
            && (!kind.FastCrushAndRaise? && t.direction == 1 ==> t.speed == 65536)
            && (!kind.FastCrushAndRaise? && t.direction == -1 ==> t.speed == 65536 || t.speed == 8192)
  {
    if outcomes != [] {
      var n := |outcomes| - 1;
      CrusherSpeeds(kind, tag, floor, ceiling, highest, outcomes[..n]);
      var t := Moves(Launched(kind, tag, floor, ceiling, highest), outcomes[..n]);
      MovesOn(Launched(kind, tag, floor, ceiling, highest), outcomes);
      AfterMoveIs(t, outcomes[n]);
      MoveSoundUnless(t, outcomes[n]);
    }
  }

  class Sector {
    var floorheight: int
    var ceilingheight: int
    const tag: int
    var specialdata: object?

    constructor (floor: int, ceiling: int, tag: int)
      ensures floorheight == floor && ceilingheight == ceiling && this.tag == tag && specialdata == null
    {
      floorheight, ceilingheight, specialdata := floor, ceiling, null;
      this.tag := tag;
    }
  }

  class Ceiling {
    var kind: Kind
    const sector: Sector
    var bottomheight: Option<int>
    var topheight: Option<int>
    var speed: int
    var crush: bool
    var direction: int
    var tag: int
    var olddirection: int
    // the thinker calls T_MoveCeiling
    var running: bool

    constructor (sec: Sector)
      ensures sector == sec && running && !crush && topheight == None && bottomheight == None && olddirection == 0
    {
      sector := sec;
      kind, direction, olddirection, tag, speed := LowerToFloor, 0, 0, 0, 0;
      bottomheight, topheight, crush, running := None, None, false, true;
    }

    function Snapshot(): State
      reads this
    {
      State(kind, direction, olddirection, running, topheight, bottomheight, speed, crush, tag)
    }
  }

  /** A ceiling as EV_DoCeiling makes it. */
  ghost predicate IsLaunched(c: Ceiling, tag: int, kind: Kind, highest: Sector -> int)
    reads c, c.sector`floorheight, c.sector`ceilingheight
  {
    && c.sector.tag == tag
    && c.Snapshot() == Launched(kind, tag, c.sector.floorheight, c.sector.ceilingheight, highest(c.sector))
  }

  /** The table with `c` in its first free slot; a full table takes no more. */
  function Placed(table: seq<Ceiling?>, c: Ceiling): (r: seq<Ceiling?>)
    ensures |r| == |table| && (null in table ==> c in r)
    ensures forall i :: 0 <= i < |table| ==> r[i] == table[i] || (table[i] == null && r[i] == c && null !in table[..i])
    ensures forall i, j :: 0 <= i < j < |table| && r[i] != table[i] ==> r[j] == table[j]
  {
    if table == [] then []
    else if table[0] == null then [c] + table[1..]
    else
      assert forall i :: 0 < i < |table| ==> null !in table[1..][..i - 1] ==> null !in table[..i];
      [table[0]] + Placed(table[1..], c)
  }

  lemma {:induction false} PlacedAt(table: seq<Ceiling?>, c: Ceiling, k: nat)
    requires k <= |table| && null !in table[..k] && (k < |table| ==> table[k] == null)
    ensures Placed(table, c) == if k < |table| then table[k := c] else table
  {
    if k > 0 {
      assert table[0] in table[..k] && table[1..][..k - 1] == table[..k][1..];
      PlacedAt(table[1..], c, k - 1);
    }
  }

  /** The table with the slot of `c` free. */
  function Without(table: seq<Ceiling?>, c: Ceiling): seq<Ceiling?> {
    seq(|table|, i requires 0 <= i < |table| => if table[i] == c then null else table[i])
  }

  function FreeSlots(table: seq<Ceiling?>): nat {
    if table == [] then 0 else (if table[0] == null then 1 else 0) + FreeSlots(table[1..])
  }

  lemma {:induction false} PlacedFree(table: seq<Ceiling?>, c: Ceiling)
    ensures FreeSlots(table) > 0 <==> null in table
    ensures FreeSlots(Placed(table, c)) == Max(0, FreeSlots(table) - 1)
  {
    if table != [] {
      PlacedFree(table[1..], c);
      if table[0] == null {
        assert ([c] + table[1..])[1..] == table[1..];
      } else {
        assert ([table[0]] + Placed(table[1..], c))[1..] == Placed(table[1..], c);
        assert null in table <==> null in table[1..];
      }
    }
  }

  /** A table of distinct ceilings that are all thinkers. */
  predicate TableOk(table: seq<Ceiling?>, thinkers: set<Ceiling>) {
    && |table| == 30
    && (forall i :: 0 <= i < 30 && table[i] != null ==> table[i] in thinkers)
    && (forall i, j :: 0 <= i < j < 30 && table[i] != null ==> table[i] != table[j])
  }

  function Slotless(table: seq<Ceiling?>, thinkers: set<Ceiling>): set<Ceiling> {
    set c | c in thinkers && c !in table
  }

  lemma PlacedOk(table: seq<Ceiling?>, c: Ceiling, thinkers: set<Ceiling>)
    requires TableOk(table, thinkers) && c in thinkers && c !in table
    ensures TableOk(Placed(table, c), thinkers)
  {
  }

  // ----- several ceilings, one after the other

  function Members(order: seq<Ceiling>): set<Ceiling> {
    if order == [] then {} else Members(order[..|order| - 1]) + {order[|order| - 1]}
  }

  predicate NoRepeats(order: seq<Ceiling>) {
    order == [] || (order[|order| - 1] !in Members(order[..|order| - 1]) && NoRepeats(order[..|order| - 1]))
  }

  function PlacedAll(table: seq<Ceiling?>, order: seq<Ceiling>): seq<Ceiling?> {
    if order == [] then table else Placed(PlacedAll(table, order[..|order| - 1]), order[|order| - 1])
  }

  lemma OneMore(table: seq<Ceiling?>, order: seq<Ceiling>, c: Ceiling)
    ensures Members(order + [c]) == Members(order) + {c}
    ensures PlacedAll(table, order + [c]) == Placed(PlacedAll(table, order), c)
    ensures NoRepeats(order + [c]) == (NoRepeats(order) && c !in Members(order))
  {
    assert (order + [c])[..|order|] == order;
  }

  lemma {:induction false} InMembers(order: seq<Ceiling>, k: nat)
    requires k < |order|
    ensures order[k] in Members(order)
  {
    if k < |order| - 1 {
      InMembers(order[..|order| - 1], k);
    }
  }

  lemma NotPlaced(was: seq<Ceiling?>, table: seq<Ceiling?>, added: set<Ceiling>, c: Ceiling)
    requires |was| == |table| && c !in was && c !in added
    requires forall i :: 0 <= i < |was| && was[i] != table[i] ==> table[i] in added
    ensures c !in table
  {
  }

  lemma PlacedKeeps(table: seq<Ceiling?>, c: Ceiling, d: Ceiling)
    requires d != c
    ensures d in Placed(table, c) <==> d in table
  {
    if d in table {
      var k :| 0 <= k < |table| && table[k] == d;
      assert Placed(table, c)[k] == d;
    }
  }

  /** What was in the table stays, every slot that was filled holds one of the new ceilings, and the first of
      those have slots, as many as were free. */
  ghost predicate FirstSeated(table: seq<Ceiling?>, t: seq<Ceiling?>, order: seq<Ceiling>) {
    && |t| == |table| && FreeSlots(t) == Max(0, FreeSlots(table) - |order|)
    && (forall i :: 0 <= i < |table| && table[i] != null ==> t[i] == table[i])
    && (forall i :: 0 <= i < |table| && table[i] != t[i] ==> t[i] in Members(order))
    && (forall k :: 0 <= k < |order| ==> (order[k] in t <==> k < FreeSlots(table)))
  }

  lemma PlacedWhenFree(t: seq<Ceiling?>, c: Ceiling)
    requires c !in t
    ensures c in Placed(t, c) <==> null in t
  {
    if null !in t {
      assert Placed(t, c) == t;
    }
  }

  lemma SeatNext(table: seq<Ceiling?>, t: seq<Ceiling?>, order: seq<Ceiling>, c: Ceiling)
    requires FirstSeated(table, t, order) && c !in table && c !in Members(order)
    ensures FirstSeated(table, Placed(t, c), order + [c])
  {
    var all := order + [c];
    OneMore(table, order, c);
    PlacedFree(t, c);
    NotPlaced(table, t, Members(order), c);
    forall k | 0 <= k < |all| ensures all[k] in Placed(t, c) <==> k < FreeSlots(table) {
      if k < |order| {
        InMembers(order, k);
        PlacedKeeps(t, c, order[k]);
      } else {
        PlacedWhenFree(t, c);
      }
    }
  }

  lemma {:induction false} AllSeated(table: seq<Ceiling?>, order: seq<Ceiling>)
    requires NoRepeats(order) && forall c :: c in Members(order) ==> c !in table
    ensures FirstSeated(table, PlacedAll(table, order), order)
  {
    if order != [] {
      var n := |order| - 1;
      AllSeated(table, order[..n]);
      SeatNext(table, PlacedAll(table, order[..n]), order[..n], order[n]);
      assert order[..n] + [order[n]] == order;
    }
  }

  lemma {:induction false} MembersAre(order: seq<Ceiling>)
    ensures forall c :: c in Members(order) <==> c in order
    ensures NoRepeats(order) ==> |Members(order)| == |order|
  {
    if order != [] {
      MembersAre(order[..|order| - 1]);
    }
  }

  /** All the new ceilings have slots exactly when there were free ones for all of them, and a ceiling that had
      none before has none after. */
  lemma SeatedIff(table: seq<Ceiling?>, order: seq<Ceiling>)
    requires NoRepeats(order) && forall c :: c in Members(order) ==> c !in table
    ensures (forall c :: c in Members(order) ==> c in PlacedAll(table, order)) <==> |order| <= FreeSlots(table)
    ensures forall c: Ceiling :: c !in table && c !in Members(order) ==> c !in PlacedAll(table, order)
    ensures |Members(order)| == |order|
  {
    var t := PlacedAll(table, order);
    AllSeated(table, order);
    MembersAre(order);
    if order != [] {
      InMembers(order, |order| - 1);
    }
  }

  /** Ceilings for different sectors, one for each of a set. */
  lemma {:induction false} OneEach(added: set<Ceiling>, free: set<Sector>)
    requires forall c :: c in added ==> c.sector in free
    requires forall c, d :: c in added && d in added && c.sector == d.sector ==> c == d
    requires forall s :: s in free ==> exists c :: c in added && c.sector == s
    ensures |added| == |free|
  {
    if added == {} {
      assert free == {};
    } else {
      var c :| c in added;
      OneEach(added - {c}, free - {c.sector});
    }
  }

  /** What T_MovePlane is asked to do. */
  datatype Plane = Plane(speed: int, destination: int, crush: bool, direction: int)

  /** T_MovePlane is not part of this model: the sector gets some new heights. */
  method MovePlane(sec: Sector, speed: int, destination: int, crush: bool, direction: int, floor: int, ceiling: int)
    returns (ghost asked: Plane)
    modifies sec`floorheight, sec`ceilingheight
    ensures asked == Plane(speed, destination, crush, direction)
  {
    sec.floorheight := floor;
    sec.ceilingheight := ceiling;
    asked := Plane(speed, destination, crush, direction);
  }

  class World {
    const activeceilings: array<Ceiling?>
    const sectors: seq<Sector>
    // ceilings on the thinker list
    var thinkers: set<Ceiling>

    /** Every thinker is in a sound state and owns its sector. */
    ghost predicate Owned()
      reads `thinkers, thinkers, set c | c in thinkers :: c.sector
    {
      forall c :: c in thinkers ==> c.sector in sectors && c.sector.specialdata == c && Sound(c.Snapshot())
    }

    ghost predicate Valid()
      reads this, activeceilings, thinkers, set c | c in thinkers :: c.sector
    {
      activeceilings.Length == 30 && Owned() && TableOk(activeceilings[..], thinkers)
    }

    /** Ceilings that never got a slot. */
    ghost function Stranded(): set<Ceiling>
      reads this, activeceilings
    {
      Slotless(activeceilings[..], thinkers)
    }

    constructor (secs: seq<Sector>)
      ensures Valid() && fresh(activeceilings) && sectors == secs && thinkers == {}
      ensures activeceilings[..] == seq(30, _ => null)
    {
      activeceilings := new Ceiling?[30](_ => null);
      sectors := secs;
      thinkers := {};
      new;
      assert activeceilings[..] == seq(30, _ => null);
    }

    /** Active ceilings hold distinct sectors. */
    lemma DistinctSectors(c: Ceiling, d: Ceiling)
      requires Valid() && c in thinkers && d in thinkers
      ensures c.sector == d.sector <==> c == d
    {
    }

    /** P_AddActiveCeiling: into the first free slot; a full table takes no more. */
    method AddActiveCeiling(c: Ceiling)
      requires Valid() && c in thinkers && c !in activeceilings[..]
      modifies activeceilings
      ensures Valid()
      ensures activeceilings[..] == Placed(old(activeceilings[..]), c)
    {
      ghost var table := activeceilings[..];
      PlacedOk(table, c, thinkers);
      var i := 0;
      while i < 30
        invariant 0 <= i <= 30 && null !in table[..i]
        invariant activeceilings[..] == table
      {
        if activeceilings[i] == null {
          PlacedAt(table, c, i);
          activeceilings[i] := c;
          assert activeceilings[..] == table[i := c];
          return;
        }
        i := i + 1;
      }
      PlacedAt(table, c, 30);
    }

    /** No sector with the tag below `limit` is free. */
    ghost predicate Occupied(tag: int, limit: int)
      requires 0 <= limit <= |sectors|
      reads sectors
    {
      forall i :: 0 <= i < limit && sectors[i].tag == tag ==> sectors[i].specialdata != null
    }

    ghost function Reached(secnum: int): (r: int)
      requires -1 <= secnum <= |sectors|
    {
      if secnum == -1 then |sectors| else secnum
    }

    /** P_FindSectorFromLineTag: the next sector with that tag, or -1. */
    method FindSectorFromLineTag(tag: int, start: int) returns (secnum: int)
      requires -1 <= start && (start == -1 || start < |sectors|)
      ensures secnum == -1 || start < secnum < |sectors|
      ensures secnum != -1 ==> sectors[secnum].tag == tag
      ensures forall i :: start < i < Reached(secnum) ==> sectors[i].tag != tag
      ensures Occupied(tag, start + 1) ==> Occupied(tag, Reached(secnum))
    {
      var i := start + 1;
      while i < |sectors|
        invariant start < i <= |sectors|
        invariant forall k :: start < k < i ==> sectors[k].tag != tag
      {
        if sectors[i].tag == tag {
          return i;
        }
        i := i + 1;
      }
      return -1;
    }

    /** A ceiling for one sector, not yet active. */
    method Launch(sec: Sector, kind: Kind, highest: int) returns (c: Ceiling)
      ensures fresh(c) && c.sector == sec
      ensures c.Snapshot() == Launched(kind, sec.tag, sec.floorheight, sec.ceilingheight, highest)
      ensures c.kind == kind && c.tag == sec.tag && c.running
      ensures c.direction == if kind.RaiseToHighest? then 1 else -1
      ensures c.speed == if kind.FastCrushAndRaise? then 131072 else 65536
      ensures c.crush <==> kind.CrushAndRaise? || kind.SilentCrushAndRaise? || kind.FastCrushAndRaise?
      ensures c.topheight == if c.crush then Some(sec.ceilingheight)
                             else if kind.RaiseToHighest? then Some(highest) else None
      ensures c.bottomheight == if kind.RaiseToHighest? then None
                                else if kind.LowerToFloor? then Some(sec.floorheight)
                                else Some(sec.floorheight + 524288)
    {
      c := new Ceiling(sec);
      if kind == FastCrushAndRaise {
        c.crush := true;
        c.topheight := Some(sec.ceilingheight);
        c.bottomheight := Some(sec.floorheight + 8 * FRACUNIT);
        c.direction := -1;
        c.speed := FRACUNIT * 2;
      } else if kind == RaiseToHighest {
        c.topheight := Some(highest);
        c.direction := 1;
        c.speed := FRACUNIT;
      } else {
        if kind == SilentCrushAndRaise || kind == CrushAndRaise {
          c.crush := true;
          c.topheight := Some(sec.ceilingheight);
        }
        c.bottomheight := Some(sec.floorheight);
        if kind != LowerToFloor {
          c.bottomheight := Some(sec.floorheight + 8 * FRACUNIT);
        }
        c.direction := -1;
        c.speed := FRACUNIT;
      }
      c.tag := sec.tag;
      c.kind := kind;
    }

    /** A run of EV_DoCeiling so far: `added` are the new ceilings, `was` what the sectors held at its start. */
    ghost predicate Launching(was: map<Sector, object?>, added: set<Ceiling>,
                              tag: int, kind: Kind, highest: Sector -> int)
      reads sectors, added
    {
      && (forall s :: s in sectors ==> s in was)
      && (forall c :: c in added ==>
            c.sector in sectors && was[c.sector] == null && IsLaunched(c, tag, kind, highest))
      && (forall s :: s in sectors && s.specialdata != was[s] ==>
            s.specialdata is Ceiling && s.specialdata as Ceiling in added && (s.specialdata as Ceiling).sector == s)
    }

    /** The sectors with the tag that held nothing. */
    ghost function FreeSectors(was: map<Sector, object?>, tag: int): set<Sector> {
      set s | s in sectors && s in was && s.tag == tag && was[s] == null
    }

    /** The sector and the thinker list take a new ceiling. */
    method Enlist(c: Ceiling)
      requires Valid() && c !in thinkers && c.sector in sectors && c.sector.specialdata == null && Sound(c.Snapshot())
      modifies `thinkers, c.sector`specialdata
      ensures Valid() && thinkers == old(thinkers) + {c} && c.sector.specialdata == c
    {
      thinkers := thinkers + {c};
      c.sector.specialdata := c;
    }

    /** One new ceiling for a free sector, in the table if that has room. */
    method LaunchOne(sec: Sector, kind: Kind, highest: Sector -> int) returns (c: Ceiling)
      requires Valid() && sec in sectors && sec.specialdata == null
      modifies `thinkers, activeceilings, sec`specialdata
      ensures Valid() && thinkers == old(thinkers) + {c} && fresh(c) && sec.specialdata == c && c.sector == sec
      ensures IsLaunched(c, sec.tag, kind, highest)
      ensures c !in old(activeceilings[..]) && activeceilings[..] == Placed(old(activeceilings[..]), c)
    {
      c := Launch(sec, kind, highest(sec));
      assert c !in activeceilings[..];
      Enlist(c);
      AddActiveCeiling(c);
    }

    /** One sector with the tag: a ceiling for it, unless it has one. */
    method Visit(ghost secnum: int, sec: Sector, kind: Kind, highest: Sector -> int, ghost was: map<Sector, object?>,
                 ghost added: set<Ceiling>) returns (c: Ceiling?)
      requires 0 <= secnum < |sectors| && sec == sectors[secnum] && Occupied(sec.tag, secnum)
      requires Valid() && sec in sectors && added <= thinkers && Launching(was, added, sec.tag, kind, highest)
      modifies `thinkers, activeceilings, sec`specialdata
      ensures Valid() && Occupied(sec.tag, secnum + 1)
      ensures c == null ==> thinkers == old(thinkers) && activeceilings[..] == old(activeceilings[..])
                            && Launching(was, added, sec.tag, kind, highest)
      ensures c != null ==>
                && fresh(c) && c.sector == sec && thinkers == old(thinkers) + {c}
                && c !in old(activeceilings[..]) && activeceilings[..] == Placed(old(activeceilings[..]), c)
                && Launching(was, added + {c}, sec.tag, kind, highest)
    {
      if sec.specialdata != null {
        return null;
      }
      c := LaunchOne(sec, kind, highest);
    }

    /** The ceilings stand in the sectors with these numbers, which increase and are below the limit. */
    ghost predicate InSectors(order: seq<Ceiling>, numbers: seq<nat>, limit: int) {
      && |numbers| == |order|
      && (forall k :: 0 <= k < |order| ==>
            numbers[k] < limit && numbers[k] < |sectors| && order[k].sector == sectors[numbers[k]])
      && (forall j, k :: 0 <= j < k < |numbers| ==> numbers[j] < numbers[k])
    }

    lemma OneMoreSector(order: seq<Ceiling>, numbers: seq<nat>, c: Ceiling, secnum: nat)
      requires InSectors(order, numbers, secnum) && secnum < |sectors| && c.sector == sectors[secnum]
      ensures InSectors(order + [c], numbers + [secnum], secnum + 1)
    {
    }

    /** The books after a ceiling was launched. */
    lemma NowLaunched(was: map<Sector, object?>, table: seq<Ceiling?>, base: set<Ceiling>, order: seq<Ceiling>,
                    numbers: seq<nat>, c: Ceiling, secnum: nat, tag: int, kind: Kind, highest: Sector -> int)
      requires thinkers == base + Members(order) + {c} && c !in Members(order) && NoRepeats(order)
      requires activeceilings[..] == Placed(PlacedAll(table, order), c)
      requires Launching(was, Members(order) + {c}, tag, kind, highest)
      requires InSectors(order, numbers, secnum) && secnum < |sectors| && c.sector == sectors[secnum]
      ensures thinkers == base + Members(order + [c]) && NoRepeats(order + [c])
      ensures activeceilings[..] == PlacedAll(table, order + [c])
      ensures Launching(was, Members(order + [c]), tag, kind, highest)
      ensures InSectors(order + [c], numbers + [secnum], secnum + 1)
    {
      OneMore(table, order, c);
      OneMoreSector(order, numbers, c, secnum);
      assert Members(order + [c]) == Members(order) + {c};
    }

    /** One round: `base` are the old thinkers, `table` the old table. */
    method VisitNext(secnum: nat, sec: Sector, kind: Kind, highest: Sector -> int, ghost was: map<Sector, object?>,
                     ghost table: seq<Ceiling?>, ghost base: set<Ceiling>, ghost order: seq<Ceiling>,
                     ghost numbers: seq<nat>)
      returns (launched: bool, ghost all: seq<Ceiling>, ghost allNumbers: seq<nat>)
      requires Valid() && secnum < |sectors| && sec == sectors[secnum] && thinkers == base + Members(order)
      requires Occupied(sec.tag, secnum) && Launching(was, Members(order), sec.tag, kind, highest)
      requires NoRepeats(order) && activeceilings[..] == PlacedAll(table, order)
      requires InSectors(order, numbers, secnum)
      modifies `thinkers, activeceilings, sec`specialdata
      ensures Valid() && Occupied(sec.tag, secnum + 1) && thinkers == base + Members(all)
      ensures forall c :: c in Members(all) ==> c in Members(order) || fresh(c)
      ensures if launched then all != [] else all == order
      ensures NoRepeats(all) && activeceilings[..] == PlacedAll(table, all)
      ensures Launching(was, Members(all), sec.tag, kind, highest)
      ensures InSectors(all, allNumbers, secnum + 1)
    {
      var c := Visit(secnum, sec, kind, highest, was, Members(order));
      if c == null {
        return false, order, numbers;
      }
      ghost var latest: Ceiling := c;
      NowLaunched(was, table, base, order, numbers, latest, secnum, sec.tag, kind, highest);
      OneMore(table, order, latest);
      return true, order + [latest], numbers + [secnum];
    }

    /** One round, and the next sector with the tag. */
    method VisitOn(secnum: nat, sec: Sector, kind: Kind, highest: Sector -> int, ghost was: map<Sector, object?>,
                   ghost table: seq<Ceiling?>, ghost base: set<Ceiling>, ghost order: seq<Ceiling>,
                   ghost numbers: seq<nat>)
      returns (launched: bool, next: int, ghost all: seq<Ceiling>, ghost allNumbers: seq<nat>)
      requires Valid() && secnum < |sectors| && sec == sectors[secnum] && thinkers == base + Members(order)
      requires Occupied(sec.tag, secnum) && Launching(was, Members(order), sec.tag, kind, highest)
      requires NoRepeats(order) && activeceilings[..] == PlacedAll(table, order)
      requires InSectors(order, numbers, secnum)
      modifies `thinkers, activeceilings, sec`specialdata
      ensures next == -1 || (secnum < next < |sectors| && sectors[next].tag == sec.tag)
      ensures Valid() && Occupied(sec.tag, Reached(next)) && thinkers == base + Members(all)
      ensures forall c :: c in Members(all) ==> c in Members(order) || fresh(c)
      ensures if launched then all != [] else all == order
      ensures NoRepeats(all) && activeceilings[..] == PlacedAll(table, all)
      ensures Launching(was, Members(all), sec.tag, kind, highest)
      ensures InSectors(all, allNumbers, Reached(next))
    {
      launched, all, allNumbers :=
        VisitNext(secnum, sec, kind, highest, was, table, base, order, numbers);
      next := FindSectorFromLineTag(sec.tag, secnum);
    }

    /** The loop of EV_DoCeiling over the sectors with the tag. */
    method LaunchEach(tag: int, kind: Kind, highest: Sector -> int, ghost was: map<Sector, object?>)
      returns (rtn: bool, ghost order: seq<Ceiling>, ghost numbers: seq<nat>)
      requires Valid() && was == map s | s in sectors :: s.specialdata
      modifies `thinkers, activeceilings, sectors`specialdata
      ensures Valid() && thinkers == old(thinkers) + Members(order) && fresh(Members(order)) && NoRepeats(order)
      ensures (rtn <==> order != []) && InSectors(order, numbers, |sectors|)
      ensures activeceilings[..] == PlacedAll(old(activeceilings[..]), order)
      ensures Launching(was, Members(order), tag, kind, highest)
      ensures Occupied(tag, |sectors|)
    {
      rtn, order, numbers := false, [], [];
      ghost var table, base := activeceilings[..], thinkers;
      var secnum := FindSectorFromLineTag(tag, -1);
      while secnum >= 0
        invariant -1 <= secnum < |sectors|
        invariant secnum != -1 ==> sectors[secnum].tag == tag
        invariant Valid() && thinkers == base + Members(order) && fresh(Members(order)) && NoRepeats(order)
        invariant (rtn <==> order != []) && InSectors(order, numbers, Reached(secnum))
        invariant activeceilings[..] == PlacedAll(table, order)
        invariant Launching(was, Members(order), tag, kind, highest)
        invariant Occupied(tag, Reached(secnum))
        decreases |sectors| - Reached(secnum)
      {
        var launched;
        launched, secnum, order, numbers :=
          VisitOn(secnum, sectors[secnum], kind, highest, was, table, base, order, numbers);
        rtn := rtn || launched;
      }
    }

    /** The new ceilings are as many as the sectors with the tag that were free; all of them have slots exactly
        when the table had room for that many, and no ceiling that had no slot before has got one. */
    lemma RoomForAll(was: map<Sector, object?>, table: seq<Ceiling?>, order: seq<Ceiling>,
                     tag: int, kind: Kind, highest: Sector -> int)
      requires Valid() && Members(order) <= thinkers && NoRepeats(order)
      requires activeceilings[..] == PlacedAll(table, order) && forall c :: c in Members(order) ==> c !in table
      requires Launching(was, Members(order), tag, kind, highest) && Occupied(tag, |sectors|)
      ensures |order| == |FreeSectors(was, tag)|
      ensures Members(order) !! Stranded() <==> |FreeSectors(was, tag)| <= FreeSlots(table)
      ensures forall c :: c in thinkers && c !in table && c !in Members(order) ==> c in Stranded()
    {
      var free := FreeSectors(was, tag);
      SeatedIff(table, order);
      forall s | s in free ensures exists c :: c in Members(order) && c.sector == s {
        var i :| 0 <= i < |sectors| && sectors[i] == s;
        assert s.specialdata != null;
        assert s.specialdata as Ceiling in Members(order);
      }
      OneEach(Members(order), free);
    }

    /** EV_DoCeiling after the reactivation: one new ceiling for every free sector with the tag, placed in their
        order. `highest` is P_FindHighestCeilingSurrounding of each sector. */
    method LaunchAll(tag: int, kind: Kind, highest: Sector -> int, ghost was: map<Sector, object?>)
      returns (rtn: bool, ghost order: seq<Ceiling>, ghost numbers: seq<nat>)
      requires Valid() && was == map s | s in sectors :: s.specialdata
      modifies `thinkers, activeceilings, sectors`specialdata
      ensures Valid() && thinkers == old(thinkers) + Members(order) && fresh(Members(order)) && NoRepeats(order)
      ensures (rtn <==> order != []) && InSectors(order, numbers, |sectors|)
      ensures activeceilings[..] == PlacedAll(old(activeceilings[..]), order)
      ensures Launching(was, Members(order), tag, kind, highest)
      ensures Occupied(tag, |sectors|)
      ensures forall k :: 0 <= k < |order| ==>
                (order[k] in activeceilings[..] <==> k < FreeSlots(old(activeceilings[..])))
      ensures Members(order) !! Stranded() <==> |FreeSectors(was, tag)| <= FreeSlots(old(activeceilings[..]))
      ensures old(Stranded()) <= Stranded()
    {
      rtn, order, numbers := LaunchEach(tag, kind, highest, was);
      RoomForAll(was, old(activeceilings[..]), order, tag, kind, highest);
      AllSeated(old(activeceilings[..]), order);
    }

    /** P_RemoveActiveCeiling: frees the sector, the thinker and the slot; a ceiling that never got a
        slot is not found, and nothing happens. */
    method RemoveActiveCeiling(c: Ceiling)
      requires Valid() && c in thinkers
      modifies activeceilings, `thinkers, c.sector`specialdata
      ensures Valid() && old(Stranded()) <= Stranded()
      ensures c !in old(activeceilings[..]) ==>
                thinkers == old(thinkers) && activeceilings[..] == old(activeceilings[..])
                && c.sector.specialdata == old(c.sector.specialdata)
      ensures c in old(activeceilings[..]) ==>
                && thinkers == old(thinkers) - {c} && c.sector.specialdata == null
                && activeceilings[..] == Without(old(activeceilings[..]), c)
    {
      var i := 0;
      while i < 30
        invariant 0 <= i <= 30 && c !in activeceilings[..i]
        invariant thinkers == old(thinkers) && activeceilings[..] == old(activeceilings[..])
        invariant c.sector.specialdata == old(c.sector.specialdata)
      {
        if activeceilings[i] == c {
          forall d | d in thinkers ensures d.sector == c.sector <==> d == c {
            DistinctSectors(c, d);
          }
          c.sector.specialdata := null;
          thinkers := thinkers - {c};
          activeceilings[i] := null;
          return;
        }
        i := i + 1;
      }
      assert activeceilings[..30] == activeceilings[..];
    }

    /** What has become of ceiling `c` and of the books when a move with that outcome is over. */
    ghost predicate MoveDone(c: Ceiling, s: State, res: Moved, table: seq<Ceiling?>, before: set<Ceiling>)
      reads this, activeceilings, c, c.sector
    {
      && c.Snapshot() == (if Finishes(s, res) then s else AfterMove(s, res))
      && if Finishes(s, res) && c in table
         then thinkers == before - {c} && activeceilings[..] == Without(table, c) && c.sector.specialdata == null
         else thinkers == before && activeceilings[..] == table && c.sector.specialdata == c
    }

    /** The end of a move up. */
    method EndUp(c: Ceiling, res: Moved)
      requires Valid() && c in thinkers && c.running && c.direction == 1
      modifies c, c.sector`specialdata, activeceilings, `thinkers
      ensures Valid() && old(Stranded()) <= Stranded()
      ensures MoveDone(c, old(c.Snapshot()), res, old(activeceilings[..]), old(thinkers))
    {
      MoveSoundUnless(c.Snapshot(), res);
      if res == PastDest {
        match c.kind {
          case RaiseToHighest => RemoveActiveCeiling(c);
          case SilentCrushAndRaise => c.direction := -1;
          case FastCrushAndRaise => c.direction := -1;
          case CrushAndRaise => c.direction := -1;
          case _ =>
        }
      }
    }

    /** The end of a move down. */
    method EndDown(c: Ceiling, res: Moved)
      requires Valid() && c in thinkers && c.running && c.direction == -1
      modifies c, c.sector`specialdata, activeceilings, `thinkers
      ensures Valid() && old(Stranded()) <= Stranded()
      ensures MoveDone(c, old(c.Snapshot()), res, old(activeceilings[..]), old(thinkers))
    {
      MoveSoundUnless(c.Snapshot(), res);
      if res == PastDest {
        match c.kind {
          case SilentCrushAndRaise => c.speed := FRACUNIT; c.direction := 1;
          case CrushAndRaise => c.speed := FRACUNIT; c.direction := 1;
          case FastCrushAndRaise => c.direction := 1;
          case LowerAndCrush => RemoveActiveCeiling(c);
          case LowerToFloor => RemoveActiveCeiling(c);
          case _ =>
        }
      } else if res == Crushed {
        match c.kind {
          case SilentCrushAndRaise => c.speed := FRACUNIT / 8;
          case CrushAndRaise => c.speed := FRACUNIT / 8;
          case LowerAndCrush => c.speed := FRACUNIT / 8;
          case _ =>
        }
      }
    }

    /** T_MoveCeiling, called for a running thinker. The plane moves towards a height that was set; the
        outcome and the new heights of the sector come from outside. A crusher past its height turns round; a
        ceiling of another kind past its height is removed, provided it has a slot; every other move goes on. */
    method MoveCeiling(c: Ceiling, res: Moved, floor: int, ceiling: int) returns (ghost asked: Plane)
      requires Valid() && c in thinkers && c.running
      modifies c, c.sector, activeceilings, `thinkers
      ensures Valid() && old(Stranded()) <= Stranded()
      ensures var height := if old(c.direction) == 1 then old(c.topheight) else old(c.bottomheight);
              height.Some? && asked == Plane(old(c.speed), height.value, old(c.direction) == -1 && old(c.crush),
                                             old(c.direction))
      ensures MoveDone(c, old(c.Snapshot()), res, old(activeceilings[..]), old(thinkers))
      ensures c.direction == if res.PastDest? && (c.kind.CrushAndRaise? || c.kind.SilentCrushAndRaise?
                                                  || c.kind.FastCrushAndRaise?)
                             then -old(c.direction) else old(c.direction)
      ensures c.speed == if old(c.direction) == -1 && res.PastDest?
                            && (c.kind.CrushAndRaise? || c.kind.SilentCrushAndRaise?)
                         then 65536
                         else if old(c.direction) == -1 && res.Crushed?
                                 && (c.kind.CrushAndRaise? || c.kind.SilentCrushAndRaise? || c.kind.LowerAndCrush?)
                         then 8192
                         else old(c.speed)
      ensures c.Snapshot() == old(c.Snapshot()).(direction := c.direction, speed := c.speed)
      ensures c !in thinkers <==> c in old(activeceilings[..]) && res.PastDest?
                                  && (c.kind.RaiseToHighest? || c.kind.LowerToFloor? || c.kind.LowerAndCrush?)
    {
      ghost var s := c.Snapshot();
      MoveSoundUnless(s, res);
      AfterMoveIs(s, res);
      if c.direction == 1 {
        asked := MovePlane(c.sector, c.speed, c.topheight.value, false, c.direction, floor, ceiling);
        EndUp(c, res);
      } else if c.direction == -1 {
        asked := MovePlane(c.sector, c.speed, c.bottomheight.value, c.crush, c.direction, floor, ceiling);
        EndDown(c, res);
      }
    }

    /** P_ActivateInStasisCeiling: the active ceilings in stasis with that tag go on. */
    method ActivateInStasisCeiling(tag: int)
      requires Valid()
      modifies thinkers
      ensures Valid()
      ensures Stranded() == old(Stranded())
      ensures forall c :: c in thinkers ==>
                c.Snapshot() == if c in activeceilings[..] && old(c.tag) == tag then Restarted(old(c.Snapshot()))
                                else old(c.Snapshot())
    {
      var i := 0;
      while i < 30
        invariant 0 <= i <= 30 && Valid()
        invariant forall c :: c in thinkers ==>
                    c.Snapshot() == if c in activeceilings[..i] && old(c.tag) == tag then Restarted(old(c.Snapshot()))
                                    else old(c.Snapshot())
      {
        var c := activeceilings[i];
        if c != null {
          StopRestart(c.Snapshot());
          if c.tag == tag && c.direction == 0 {
            c.direction := c.olddirection;
            c.running := true;
          }
        }
        assert activeceilings[..i + 1] == activeceilings[..i] + [activeceilings[i]];
        i := i + 1;
      }
      assert activeceilings[..i] == activeceilings[..];
    }

    method StopOne(c: Ceiling, tag: int) returns (stopped: bool)
      requires Valid() && c in thinkers
      modifies c
      ensures Valid()
      ensures c.Snapshot() == if old(c.tag) == tag then Stopped(old(c.Snapshot())) else old(c.Snapshot())
      ensures stopped <==> old(c.tag) == tag && old(c.direction) != 0
    {
      StopRestart(c.Snapshot());
      stopped := c.tag == tag && c.direction != 0;
      if stopped {
        c.olddirection := c.direction;
        c.running := false;
        c.direction := 0;
      }
    }

    /** EV_CeilingCrushStop: the active moving ceilings with that tag go into stasis. */
    method CeilingCrushStop(tag: int) returns (rtn: bool)
      requires Valid()
      modifies thinkers
      ensures Valid() && thinkers == old(thinkers)
      ensures Stranded() == old(Stranded())
      ensures forall c :: c in thinkers ==>
                c.Snapshot() == if c in activeceilings[..] && old(c.tag) == tag then Stopped(old(c.Snapshot()))
                                else old(c.Snapshot())
      ensures rtn <==> exists c :: c in thinkers && c in activeceilings[..] && old(c.tag) == tag
                                     && old(c.direction) != 0
    {
      rtn := false;
      var i := 0;
      while i < 30
        invariant 0 <= i <= 30 && Valid()
        invariant forall c :: c in thinkers ==>
                    c.Snapshot() == if c in activeceilings[..i] && old(c.tag) == tag then Stopped(old(c.Snapshot()))
                                    else old(c.Snapshot())
        invariant rtn <==> exists c :: c in thinkers && c in activeceilings[..i] && old(c.tag) == tag
                                         && old(c.direction) != 0
      {
        var c := activeceilings[i];
        if c != null {
          assert c !in activeceilings[..i];
          var stopped := StopOne(c, tag);
          if stopped {
            rtn := true;
          }
        }
        assert activeceilings[..i + 1] == activeceilings[..i] + [activeceilings[i]];
        i := i + 1;
      }
      assert activeceilings[..i] == activeceilings[..];
    }

    /** The first part of EV_DoCeiling. */
    method Reactivate(tag: int, kind: Kind)
      requires Valid()
      modifies thinkers
      ensures Valid()
      ensures forall c :: c in thinkers ==>
                c.Snapshot() == if Crushes(kind) && c in activeceilings[..] && old(c.tag) == tag
                                then Restarted(old(c.Snapshot())) else old(c.Snapshot())
    {
      if kind == FastCrushAndRaise || kind == SilentCrushAndRaise || kind == CrushAndRaise {
        ActivateInStasisCeiling(tag);
      }
    }

    /** EV_DoCeiling. The crushers first send on the ceilings in stasis with the tag. Then every free sector
        with the tag gets a ceiling, in the table while it has room; old ceilings keep their places and their
        states. */
    method DoCeiling(tag: int, kind: Kind, highest: Sector -> int, ghost was: map<Sector, object?>)
      returns (rtn: bool, ghost order: seq<Ceiling>, ghost numbers: seq<nat>)
      requires Valid() && was == map s | s in sectors :: s.specialdata
      modifies this`thinkers, thinkers, activeceilings, sectors`specialdata
      ensures Valid() && thinkers == old(thinkers) + Members(order) && fresh(Members(order)) && NoRepeats(order)
      ensures (rtn <==> order != []) && InSectors(order, numbers, |sectors|)
      ensures activeceilings[..] == PlacedAll(old(activeceilings[..]), order)
      ensures Launching(was, Members(order), tag, kind, highest)
      ensures Occupied(tag, |sectors|)
      ensures forall c :: c in old(thinkers) ==>
                c.Snapshot() == if Crushes(kind) && c in old(activeceilings[..]) && old(c.tag) == tag
                                then Restarted(old(c.Snapshot())) else old(c.Snapshot())
      ensures forall k :: 0 <= k < |order| ==>
                (order[k] in activeceilings[..] <==> k < FreeSlots(old(activeceilings[..])))
      ensures Members(order) !! Stranded() <==> |FreeSectors(was, tag)| <= FreeSlots(old(activeceilings[..]))
      ensures old(Stranded()) <= Stranded()
    {
      Reactivate(tag, kind);
      rtn, order, numbers := LaunchAll(tag, kind, highest, was);
    }
  }

  lemma {:induction false} EmptyTable(table: seq<Ceiling?>)
    requires forall i :: 0 <= i < |table| ==> table[i] == null
    ensures FreeSlots(table) == |table|
  {
    if table != [] {
      EmptyTable(table[1..]);
    }
  }

  lemma {:induction false} DistinctCount(secs: seq<Sector>)
    requires forall i, j :: 0 <= i < j < |secs| ==> secs[i] != secs[j]
    ensures |set s | s in secs| == |secs|
  {
    if secs != [] {
      var n := |secs| - 1;
      DistinctCount(secs[..n]);
      assert (set s | s in secs) == (set s | s in secs[..n]) + {secs[n]};
      assert secs[n] !in secs[..n];
    }
  }

  /** A level with thirty-one sectors of one tag: its first call of EV_DoCeiling leaves a ceiling without a slot. */
  method Crowded() returns (w: World, ghost c: Ceiling)
    ensures fresh(w) && w.Valid() && c in w.Stranded() && c.running && c.sector.specialdata == c
  {
    var secs: seq<Sector> := [];
    while |secs| < 31
      invariant |secs| <= 31 && fresh(secs) && forall s :: s in secs ==> s.tag == 7 && s.specialdata == null
      invariant forall i, j :: 0 <= i < j < |secs| ==> secs[i] != secs[j]
    {
      var s := new Sector(0, 128 * FRACUNIT, 7);
      secs := secs + [s];
    }
    w := new World(secs);
    ghost var was: map<Sector, object?> := map s | s in secs :: s.specialdata;
    EmptyTable(w.activeceilings[..]);
    DistinctCount(secs);
    assert w.FreeSectors(was, 7) == set s | s in secs;
    var rtn;
    ghost var order, numbers;
    rtn, order, numbers := w.DoCeiling(7, LowerToFloor, _ => 0, was);
    c :| c in Members(order) && c in w.Stranded();
  }
}
