/** The tic loop of d_loop.c as compiled for one player: commands are built ahead into a ring and run
    when their time comes, whatever the clock reads. */
module TicLoop {
  import opened Common

  datatype Cmd = Cmd(forwardmove: int8, sidemove: int8, angleturn: int16, chatchar: byte, buttons: byte,
                     consistancy: byte)

  /** A slot of the ring. */
  datatype TicSet = TicSet(cmds: seq<Cmd>, ingame: seq<bool>)

  predicate WellSized(s: TicSet) {
    |s.cmds| == 8 && |s.ingame| == 8
  }

  /** What a repeated command loses: chat, and any special button. */
  function Squash(c: Cmd): Cmd {
    c.(chatchar := 0, buttons := if c.buttons >= 128 then 0 else c.buttons)
  }

  lemma SquashTwice(c: Cmd)
    ensures Squash(Squash(c)) == Squash(c)
  {
  }

  /** What the game is given for a tic: the local player's command, the players in the game. */
  datatype Delivery = Delivery(cmd: Cmd, ingame: seq<bool>)

  function OnlyPlayer(player: nat): seq<bool> {
    seq(8, i => i == player)
  }

  /** The delivery for game tic `n`: the command built for tic `n / dup`, whole only the first time. */
  function Delivered(built: seq<Cmd>, n: nat, dup: nat, player: nat): Delivery
    requires dup > 0 && n / dup < |built|
  {
    Delivery(if n % dup == 0 then built[n / dup] else Squash(built[n / dup]), OnlyPlayer(player))
  }

  lemma GroupTic(q: nat, d: nat, i: nat)
    requires i < d
    ensures (q * d + i) / d == q && (q * d + i) % d == i
  {
    var n := q * d + i;
    DivModNat(n, d);
    assert n == n / d * d + n % d;
    if n / d < q {
      MulGap(n / d, q, d);
    } else if q < n / d {
      MulGap(q, n / d, d);
    }
  }

  /** The ring is large enough: slots of tics less than 128 apart differ. */
  lemma SlotsDiffer(a: nat, b: nat)
    requires a < b < a + 128
    ensures a % 128 != b % 128
  {
  }

  /** How many tics a call of TryRunTics means to run: at least one, else no more than are available. The old
      synchronisation keeps up with the clock as far as it can, and runs at most one tic more. */
  function Counts(newSync: bool, realtics: int, availabletics: int): (counts: int)
    ensures 1 <= counts <= Max(1, availabletics)
    ensures newSync ==> counts == Max(1, availabletics)
    ensures !newSync ==> Min(realtics, availabletics) <= counts <= Max(1, realtics + 1)
    ensures !newSync && realtics >= 1 ==> (counts == realtics + 1 <==> realtics + 1 < availabletics)
  {
    var c := if newSync then availabletics
             else if realtics < availabletics - 1 then realtics + 1
             else if realtics < availabletics then realtics
             else availabletics;
    if c < 1 then 1 else c
  }

  /** The clock in tics: TICRATE is 35. */
  function Tics(ms: nat): nat {
    ms * 35 / 1000
  }

  /** What a clock of 35 tics a second reads, in groups of `dup` tics, at a millisecond. */
  predicate Reads(ms: nat, dup: nat, tic: int) {
    1000 * dup * tic <= 35 * ms < 1000 * dup * (tic + 1)
  }

  /** The tic is not before its time. */
  predicate OnTime(ms: nat, dup: nat, tic: int) {
    1000 * dup * tic <= 35 * ms
  }

  lemma LatestRead(ms: nat, dup: nat, tic: int, last: int)
    requires dup > 0 && Reads(ms, dup, tic) && OnTime(ms, dup, last)
    ensures last <= tic
  {
    if tic < last {
      MulGap(tic, last, 1000 * dup);
    }
  }

  lemma TicsRead(ms: nat, dup: nat)
    requires dup > 0
    ensures Reads(ms, 1, Tics(ms)) && Reads(ms, dup, Tics(ms) / dup)
  {
    var n, e := Tics(ms), Tics(ms) / dup;
    DivModNat(n, dup);
    assert 1000 * dup * e == 1000 * (e * dup) && 1000 * dup * (e + 1) == 1000 * (e * dup + dup);
  }

  lemma PastIsOnTime(ms: nat, dup: nat, tic: nat)
    requires dup > 0 && Tics(ms) / dup > tic
    ensures OnTime(ms, dup, tic + 1)
  {
    TicsRead(ms, dup);
    MulMonotone(tic + 1, Tics(ms) / dup, 1000 * dup);
  }

  /** Late enough, the clock is past any tic. */
  lemma ClockPasses(ms: nat, tic: nat, dup: nat)
    requires dup > 0 && ms >= (tic + 1) * dup * 1000
    ensures Tics(ms) / dup > tic
  {
    var n := (tic + 1) * dup;
    assert Tics(ms) >= n;
    DivModNat(Tics(ms), dup);
    assert n == tic * dup + dup;
    MulMonotone(Tics(ms) / dup, tic, dup);
  }

  const EMPTY_SET: TicSet := TicSet(seq(8, _ => Cmd(0, 0, 0, 0, 0, 0)), seq(8, _ => false))

  /** Every tic that ran was given the command built for it. */
  ghost predicate Faithful(ran: seq<Delivery>, built: seq<Cmd>, dup: nat, player: nat)
    requires dup > 0
  {
    forall n :: 0 <= n < |ran| ==> n / dup < |built| && ran[n] == Delivered(built, n, dup, player)
  }

  lemma GroupsAdd(n: nat, d: nat)
    ensures n * d + d == (n + 1) * d
  {
  }

  lemma NextGroup(q: nat, d: nat)
    requires d > 0
    ensures q * d + d == (q + 1) * d
    ensures (q * d + d) / d == q + 1 && (q * d + d) % d == 0
  {
    GroupTic(q + 1, d, 0);
  }

  lemma NextQuotient(n: nat, d: nat)
    requires d > 0 && n % d == 0
    ensures (n + d) / d == n / d + 1
  {
    assert n == n / d * d + n % d;
    NextGroup(n / d, d);
  }

  /** Time that passes takes no tic back. */
  lemma ClockKeeps(dup: nat, was: nat, ms: nat)
    requires dup > 0 && was <= ms
    ensures Tics(was) / dup <= Tics(ms) / dup
  {
    var q, r := Tics(was) / dup, Tics(ms) / dup;
    DivModNat(Tics(was), dup);
    DivModNat(Tics(ms), dup);
    if r < q {
      MulGap(r, q, dup);
    }
  }

  /** Changing the slot of one tic leaves the slots of the tics built after it. */
  lemma OtherSlotsStay(was: seq<TicSet>, now: seq<TicSet>, slot: nat, q: nat, maketic: nat)
    requires |was| == |now| == 128 && slot == q % 128 && maketic <= q + 128
    requires now == was[slot := now[slot]]
    ensures forall k :: q < k < maketic ==> now[k % 128] == was[k % 128]
  {
    forall k | q < k < maketic ensures now[k % 128] == was[k % 128] {
      SlotsDiffer(q, k);
    }
  }

  lemma FaithfulAppend(ran: seq<Delivery>, built: seq<Cmd>, d: Delivery, dup: nat, player: nat)
    requires dup > 0 && Faithful(ran, built, dup, player)
    requires |ran| / dup < |built| && d == Delivered(built, |ran|, dup, player)
    ensures Faithful(ran + [d], built, dup, player)
  {
  }

  lemma FaithfulExtends(ran: seq<Delivery>, built: seq<Cmd>, more: seq<Cmd>, dup: nat, player: nat)
    requires dup > 0 && Faithful(ran, built, dup, player)
    ensures Faithful(ran, built + more, dup, player)
  {
  }

  class Loop {
    const ticdata: array<TicSet>
    const ticdup: nat
    const new_sync: bool
    const localplayer: nat
    var maketic: nat
    var gametic: nat
    var singletics: bool
    var skiptics: int
    var lasttime: int
    var oldentertics: int
    var local_playeringame: seq<bool>
    var ms: nat

    // every command built and everything delivered to the game, in order
    ghost var built: seq<Cmd>
    ghost var ran: seq<Delivery>

    /** How far commands are built ahead. */
    function Ahead(): nat {
      if new_sync then 3 else 5
    }

    /** The tic before which every command may be built. */
    ghost function Limit(): nat
      requires ticdup > 0
      reads this
    {
      gametic / ticdup + Ahead()
    }

    ghost predicate Valid()
      reads this, ticdata
    {
      && ticdup > 0 && localplayer < 8
      && ticdata.Length == 128
      && (forall k :: 0 <= k < 128 ==> WellSized(ticdata[k]))
      && |built| == maketic && |ran| == gametic
      && gametic / ticdup <= maketic <= Limit()
      && (forall k :: gametic / ticdup <= k < maketic ==>
            ticdata[k % 128].cmds[localplayer] == built[k] && ticdata[k % 128].ingame[localplayer])
    }

    /** Between groups of repeated tics: every tic that ran was given its own command. */
    ghost predicate Ready()
      reads this, ticdata
    {
      && Valid() && gametic % ticdup == 0
      && Faithful(ran, built, ticdup, localplayer)
    }

    /** Outside timed demos no more commands have been built than tics have passed, and so no tic has run before
        its time. */
    ghost predicate Paced()
      reads this
    {
      skiptics >= 0 && maketic <= lasttime && OnTime(ms, ticdup, lasttime)
    }

    lemma NeverEarly()
      requires Ready() && Paced()
      ensures 1000 * gametic <= 35 * ms
    {
      var q := gametic / ticdup;
      DivModNat(gametic, ticdup);
      assert gametic == q * ticdup + gametic % ticdup;
      MulMonotone(q, lasttime, ticdup);
      assert 1000 * ticdup * lasttime == 1000 * (lasttime * ticdup);
    }

    constructor (dup: nat, newSync: bool, player: nat)
      requires dup > 0 && player < 8
      ensures Ready() && Paced() && ticdup == dup && new_sync == newSync && localplayer == player
    {
      ticdata := new TicSet[128](_ => EMPTY_SET);
      ticdup, new_sync, localplayer := dup, newSync, player;
      maketic, gametic := 0, 0;
      singletics := false;
      skiptics, lasttime, oldentertics := 0, 0, 0;
      local_playeringame := [];
      ms := 0;
      built, ran := [], [];
      new;
      GroupTic(0, ticdup, 0);
    }

    /** A reading of the clock, which never goes back. */
    method GetTime() returns (tics: nat)
      modifies `ms
      ensures ms >= old(ms) && tics == Tics(ms)
      ensures 1000 * tics <= 35 * ms < 1000 * (tics + 1)
    {
      var later: nat :| true;
      ms := ms + later;
      tics := ms * 35 / 1000;
    }

    /** Sleeping takes at least the time asked for. */
    method Sleep(n: nat)
      modifies `ms
      ensures ms >= old(ms) + n
    {
      var later: nat :| true;
      ms := ms + n + later;
    }

    /** BuildNewTic: builds one command unless enough are waiting. */
    method BuildNewTic() returns (done: bool)
      requires Ready()
      modifies `maketic, `built, ticdata
      ensures Ready() && old(built) <= built
      ensures done <==> old(maketic) - gametic / ticdup < if new_sync then 3 else 5
      ensures maketic == old(maketic) + (if done then 1 else 0)
    {
      var gameticdiv := gametic / ticdup;
      if new_sync {
        if maketic - gameticdiv > 2 {
          return false;
        }
        if maketic - gameticdiv > 8 {
          return false;
        }
      } else {
        if maketic - gameticdiv >= 5 {
          return false;
        }
      }
      var cmd: Cmd :| true;
      var slot := ticdata[maketic % 128];
      ticdata[maketic % 128] := TicSet(slot.cmds[localplayer := cmd], slot.ingame[localplayer := true]);
      forall k | gametic / ticdup <= k < maketic
        ensures ticdata[k % 128].cmds[localplayer] == built[k] && ticdata[k % 128].ingame[localplayer]
      {
        SlotsDiffer(k, maketic);
      }
      FaithfulExtends(ran, built, [cmd], ticdup, localplayer);
      built := built + [cmd];
      maketic := maketic + 1;
      done := true;
    }

    /** The loop of NetUpdate. */
    method BuildTics(newtics: int)
      requires Ready()
      modifies `maketic, `built, ticdata
      ensures Ready() && old(built) <= built && maketic >= old(maketic)
      ensures maketic == Min(old(maketic) + Max(0, newtics), Limit())
    {
      var i := 0;
      while i < newtics
        invariant Ready() && old(built) <= built
        invariant maketic == old(maketic) + i && 0 <= i <= Max(0, newtics)
        decreases newtics - i
      {
        var done := BuildNewTic();
        if !done {
          break;
        }
        i := i + 1;
      }
    }

    /** The tics that have passed since the last update, less the tics to skip. */
    method PassTics() returns (newtics: int)
      requires ticdup > 0
      modifies `ms, `lasttime, `skiptics
      ensures ms >= old(ms) && Reads(ms, ticdup, lasttime) && lasttime == Tics(ms) / ticdup
      ensures Max(0, newtics) == Max(0, lasttime - old(lasttime) - old(skiptics))
      ensures skiptics == Max(0, old(skiptics) - (lasttime - old(lasttime)))
      ensures OnTime(old(ms), ticdup, old(lasttime)) ==> old(lasttime) <= lasttime
    {
      ghost var last := lasttime;
      var nowtime := GetTime();
      TicsRead(ms, ticdup);
      nowtime := nowtime / ticdup;
      newtics := nowtime - lasttime;
      lasttime := nowtime;
      if skiptics <= newtics {
        newtics := newtics - skiptics;
        skiptics := 0;
      } else {
        skiptics := skiptics - newtics;
        newtics := 0;
      }
      if OnTime(old(ms), ticdup, last) {
        LatestRead(ms, ticdup, lasttime, last);
      }
    }

    /** NetUpdate: one command for each tic of the time that has passed, less the tics to skip, as far as
        there is room. It may be called at any point between two groups of tics; the renderer does so too. */
    method NetUpdate()
      requires Ready()
      modifies `maketic, `built, `ms, `lasttime, `skiptics, ticdata
      ensures Ready() && old(built) <= built && maketic >= old(maketic)
      ensures ms >= old(ms)
      ensures singletics ==> maketic == old(maketic) && lasttime == old(lasttime) && skiptics == old(skiptics)
      ensures !singletics ==>
                && Reads(ms, ticdup, lasttime) && lasttime == Tics(ms) / ticdup
                && maketic == Min(old(maketic) + Max(0, lasttime - old(lasttime) - old(skiptics)),
                                  Limit())
                && skiptics == Max(0, old(skiptics) - (lasttime - old(lasttime)))
      ensures !singletics && old(Paced()) ==> Paced()
    {
      if singletics {
        return;
      }
      var newtics := PassTics();
      BuildTics(newtics);
    }

    /** SinglePlayerClear: nobody but the local player is in the game. */
    method SinglePlayerClear(slot: nat)
      requires slot < ticdata.Length && WellSized(ticdata[slot])
      modifies ticdata
      ensures ticdata[..] == old(ticdata[..])[slot := ticdata[slot]]
      ensures ticdata[slot].cmds == old(ticdata[slot]).cmds && |ticdata[slot].ingame| == 8
      ensures forall p :: 0 <= p < 8 ==>
                ticdata[slot].ingame[p] == (p == localplayer && old(ticdata[slot]).ingame[p])
    {
      var i := 0;
      while i < 8
        invariant 0 <= i <= 8
        invariant ticdata[..] == old(ticdata[..])[slot := ticdata[slot]]
        invariant ticdata[slot].cmds == old(ticdata[slot]).cmds && |ticdata[slot].ingame| == 8
        invariant forall p :: 0 <= p < 8 ==>
                    ticdata[slot].ingame[p] == ((p >= i || p == localplayer) && old(ticdata[slot]).ingame[p])
      {
        if i != localplayer {
          ticdata[slot] := ticdata[slot].(ingame := ticdata[slot].ingame[i := false]);
        }
        i := i + 1;
      }
    }

    /** TicdupSquash: every player's command is reduced for its next repeat. */
    method TicdupSquash(slot: nat)
      requires slot < ticdata.Length && WellSized(ticdata[slot])
      modifies ticdata
      ensures ticdata[..] == old(ticdata[..])[slot := ticdata[slot]]
      ensures ticdata[slot].ingame == old(ticdata[slot]).ingame && |ticdata[slot].cmds| == 8
      ensures forall p :: 0 <= p < 8 ==> ticdata[slot].cmds[p] == Squash(old(ticdata[slot]).cmds[p])
      ensures forall p :: 0 <= p < 8 ==>
                var now, was := ticdata[slot].cmds[p], old(ticdata[slot]).cmds[p];
                && now.chatchar == 0 && now.buttons == (if was.buttons < 128 then was.buttons else 0)
                && now == was.(chatchar := now.chatchar, buttons := now.buttons)
    {
      var i := 0;
      while i < 8
        invariant 0 <= i <= 8
        invariant ticdata[..] == old(ticdata[..])[slot := ticdata[slot]]
        invariant ticdata[slot].ingame == old(ticdata[slot]).ingame && |ticdata[slot].cmds| == 8
        invariant forall p :: 0 <= p < 8 ==>
                    ticdata[slot].cmds[p] ==
                    if p < i then Squash(old(ticdata[slot]).cmds[p]) else old(ticdata[slot]).cmds[p]
      {
        var cmd := ticdata[slot].cmds[i].(chatchar := 0);
        if cmd.buttons >= 128 {
          cmd := cmd.(buttons := 0);
        }
        ticdata[slot] := ticdata[slot].(cmds := ticdata[slot].cmds[i := cmd]);
        i := i + 1;
      }
    }

    /** State inside a group, before repeat `i` of tic `q`. */
    ghost predicate InGroup(q: nat, i: nat)
      reads this, ticdata
    {
      && ticdup > 0 && localplayer < 8 && ticdata.Length == 128
      && i <= ticdup && gametic == q * ticdup + i
      && (forall k :: 0 <= k < 128 ==> WellSized(ticdata[k]))
      && |built| == maketic && |ran| == gametic
      && q < maketic <= q + Ahead()
      && (forall k :: q < k < maketic ==>
            ticdata[k % 128].cmds[localplayer] == built[k] && ticdata[k % 128].ingame[localplayer])
      && ticdata[q % 128].ingame == OnlyPlayer(localplayer)
      && ticdata[q % 128].cmds[localplayer] == (if i == 0 then built[q] else Squash(built[q]))
      && Faithful(ran, built, ticdup, localplayer)
    }

    /** One repeat: the game is given the command, which is then reduced. */
    method RunRepeat(ghost q: nat, i: nat, slot: nat)
      requires InGroup(q, i) && i < ticdup && slot == q % 128
      modifies `gametic, `ran, `local_playeringame, ticdata
      ensures InGroup(q, i + 1) && old(ran) <= ran
    {
      local_playeringame := ticdata[slot].ingame;
      ghost var d := Delivery(ticdata[slot].cmds[localplayer], ticdata[slot].ingame);
      GroupTic(q, ticdup, i);
      FaithfulAppend(ran, built, d, ticdup, localplayer);
      ran := ran + [d];
      gametic := gametic + 1;
      SquashTwice(built[q]);
      ghost var was := ticdata[..];
      TicdupSquash(slot);
      OtherSlotsStay(was, ticdata[..], slot, q, maketic);
    }

    /** After its last repeat the group is a whole one. */
    lemma GroupEnds(q: nat)
      requires InGroup(q, ticdup)
      ensures Ready()
    {
      NextGroup(q, ticdup);
    }

    /** One tic run `ticdup` times; the error of the program is reported as a result. */
    method RunGroup(lowtic: nat) returns (error: bool)
      requires Ready() && gametic / ticdup < lowtic <= maketic
      modifies `gametic, `ran, `local_playeringame, ticdata
      ensures Ready() && !error
      ensures gametic == old(gametic) + ticdup && old(ran) <= ran
    {
      ghost var q := gametic / ticdup;
      assert gametic == q * ticdup + 0;
      var slot := gametic / ticdup % 128;
      ghost var was := ticdata[..];
      SinglePlayerClear(slot);
      OtherSlotsStay(was, ticdata[..], slot, q, maketic);
      assert ticdata[slot].ingame == OnlyPlayer(localplayer);
      var i := 0;
      while i < ticdup
        invariant 0 <= i <= ticdup && InGroup(q, i) && old(ran) <= ran
      {
        GroupTic(q, ticdup, i);
        if gametic / ticdup > lowtic {
          return true;
        }
        RunRepeat(q, i, slot);
        i := i + 1;
      }
      GroupEnds(q);
      error := false;
    }

    /** The wait of TryRunTics: builds commands until enough are there or the clock moves to the next tic. */
    method WaitForTics(entertic: nat, counts: nat) returns (error: bool, expired: bool, lowtic: nat)
      requires Ready() && Tics(ms) / ticdup >= entertic
      modifies `maketic, `built, `ms, `lasttime, `skiptics, ticdata
      ensures Ready() && !error && old(built) <= built
      ensures lowtic == maketic && ms >= old(ms) && singletics == old(singletics)
      ensures if expired then Tics(ms) / ticdup > entertic && old(maketic) < gametic / ticdup + counts
              else lowtic >= gametic / ticdup + counts
      ensures expired ==> OnTime(ms, ticdup, entertic + 1)
      ensures !singletics && old(Paced()) ==> Paced()
    {
      lowtic := maketic;
      error, expired := false, false;
      ghost var deadline := (entertic + 1) * ticdup * 1000;
      while lowtic < gametic / ticdup + counts
        invariant Ready() && !error && !expired && old(built) <= built
        invariant lowtic == maketic && ms >= old(ms)
        invariant !singletics && old(Paced()) ==> Paced()
        invariant lowtic != old(maketic) || ms != old(ms) ==> old(maketic) < gametic / ticdup + counts
        decreases Max(0, deadline - ms)
      {
        NetUpdate();
        lowtic := maketic;
        if lowtic < gametic / ticdup {
          error := true;
          return;
        }
        var now := GetTime();
        if now / ticdup - entertic > 0 {
          PastIsOnTime(ms, ticdup, entertic);
          expired := true;
          return;
        }
        if ms >= deadline {
          ClockPasses(ms, entertic, ticdup);
        }
        Sleep(1);
      }
    }

    /** One command when timing a demo, else as many as the clock asks for. */
    method BuildCommands()
      requires Ready()
      modifies `maketic, `built, `ms, `lasttime, `skiptics, ticdata
      ensures Ready() && old(built) <= built && maketic >= old(maketic) && ms >= old(ms)
      ensures Tics(ms) / ticdup >= Tics(old(ms)) / ticdup
      ensures singletics ==> maketic > gametic / ticdup
      ensures !singletics && old(Paced()) ==> Paced()
    {
      if singletics {
        var done := BuildNewTic();
      } else {
        NetUpdate();
      }
      ClockKeeps(ticdup, old(ms), ms);
    }

    /** The clock, and the time passed since the last call. */
    method EnterTic() returns (entertic: nat, realtics: int)
      requires ticdup > 0
      modifies `ms, `oldentertics
      ensures ms >= old(ms) && Reads(ms, ticdup, entertic)
      ensures entertic == oldentertics == Tics(ms) / ticdup && realtics == entertic - old(oldentertics)
    {
      var now := GetTime();
      TicsRead(ms, ticdup);
      entertic := now / ticdup;
      realtics := entertic - oldentertics;
      oldentertics := entertic;
    }

    /** The first part of TryRunTics: the clock, the commands for the time passed, the tics to run. The clock was
        read at millisecond `read`. */
    method EnterTics() returns (entertic: nat, counts: nat, ghost read: nat)
      requires Ready()
      modifies `maketic, `built, `ms, `lasttime, `skiptics, `oldentertics, ticdata
      ensures Ready() && old(built) <= built && maketic >= old(maketic)
      ensures counts == Counts(new_sync, entertic - old(oldentertics), maketic - gametic / ticdup)
      ensures oldentertics == entertic && Tics(ms) / ticdup >= entertic
      ensures singletics ==> maketic > gametic / ticdup
      ensures old(ms) <= read <= ms && Reads(read, ticdup, entertic)
      ensures !singletics && old(Paced()) ==> Paced()
    {
      var realtics: int;
      entertic, realtics := EnterTic();
      read := ms;
      BuildCommands();
      var availabletics: int := maketic - gametic / ticdup;
      counts := Counts(new_sync, realtics, availabletics);
    }

    /** The run loop of TryRunTics: group after group, building commands in between. */
    method RunTics(counts: nat, lowtic: nat) returns (error: bool)
      requires Ready() && gametic / ticdup + counts <= lowtic <= maketic
      modifies this, ticdata
      ensures Ready() && !error && old(built) <= built && old(ran) <= ran
      ensures maketic >= old(maketic) && singletics == old(singletics)
      ensures oldentertics == old(oldentertics) && ms >= old(ms)
      ensures gametic == old(gametic) + counts * ticdup
      ensures !singletics && old(Paced()) ==> Paced()
    {
      error := false;
      var left := counts;
      while left > 0
        invariant 0 <= left <= counts && Ready() && !error
        invariant old(built) <= built && old(ran) <= ran
        invariant gametic / ticdup + left <= lowtic <= maketic
        invariant maketic >= old(maketic) && singletics == old(singletics)
        invariant oldentertics == old(oldentertics) && ms >= old(ms)
        invariant gametic == old(gametic) + (counts - left) * ticdup
        invariant !singletics && old(Paced()) ==> Paced()
      {
        left := left - 1;
        GroupsAdd(counts - left - 1, ticdup);
        NextQuotient(gametic, ticdup);
        error := RunGroup(lowtic);
        if error {
          return;
        }
        NetUpdate();
      }
    }

    /** TryRunTics. Neither of its internal errors can occur. The tics that run are whole groups: as many as the
        time passed since the last call and the commands `available` after its first update ask for, by a clock
        of 35 tics a second that it reads at millisecond `read`. A call runs nothing only when no command was
        available and the clock has moved on while it waited for one; that cannot happen when timing a demo. And
        but for timed demos no tic runs before its time. */
    method TryRunTics() returns (error: bool, expired: bool, counts: nat, ghost available: int, ghost read: nat)
      requires Ready()
      modifies this, ticdata
      ensures old(ms) <= read <= ms && Reads(read, ticdup, oldentertics)
      ensures 0 <= available <= Ahead()
      ensures 1 <= counts == Counts(new_sync, oldentertics - old(oldentertics), available)
      ensures Ready() && !error && old(built) <= built && old(ran) <= ran
      ensures maketic >= old(maketic) && singletics == old(singletics)
      ensures gametic == old(gametic) + (if expired then 0 else counts * ticdup)
      ensures expired ==> available == 0 && OnTime(ms, ticdup, oldentertics + 1)
      ensures singletics ==> !expired
      ensures !singletics && old(Paced()) ==> Paced() && 1000 * gametic <= 35 * ms
    {
      var entertic: nat;
      entertic, counts, read := EnterTics();
      available := maketic - gametic / ticdup;
      var lowtic: nat;
      error, expired, lowtic := WaitForTics(entertic, counts);
      if !error && !expired {
        error := RunTics(counts, lowtic);
      }
      if !singletics && Paced() {
        NeverEarly();
      }
    }
  }
}
