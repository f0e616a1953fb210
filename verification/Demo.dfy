/** Demo recording and playback (g_game.c). */
module Demo {
  import opened Common

  const DEMOMARKER: byte := 0x80
  const LONGTICS_VERSION: byte := 111

  /** The part of a tic command that a demo keeps. */
  datatype Move = Move(forward: int8, side: int8, turn: int16, buttons: byte)

  /** The settings in a demo header, in file order, with one `ingame` byte a player. */
  datatype Settings = Settings(skill: byte, episode: byte, level: byte, deathmatch: byte, respawn: byte,
                               fast: byte, nomonsters: byte, player: byte, ingame: seq<byte>)

  /** The settings that a demo takes over while it plays: all but skill, episode and level. */
  datatype Rules = Rules(deathmatch: byte, respawn: byte, fast: byte, nomonsters: byte, player: byte,
                         ingame: seq<byte>)

  function RulesOf(g: Settings): Rules {
    Rules(g.deathmatch, g.respawn, g.fast, g.nomonsters, g.player, g.ingame)
  }

  /** What is left of them when it ends: a single-player game of the first player. */
  function RulesReset(r: Rules): (r': Rules)
    requires |r.ingame| == 4
    ensures |r'.ingame| == 4
  {
    Rules(0, 0, 0, 0, 0, [r.ingame[0], 0, 0, 0])
  }

  /** How G_CheckDemoStatus ends: with the report of a timed demo, with the end of a demo after which the program
      quits or goes on, with the report of a recorded one, or without any. */
  datatype Ending = Timed | Finished(quits: bool) | Recorded | NoDemo

  // ----- codec

  function MoveSize(longtics: bool): nat {
    if longtics then 5 else 4
  }

  function EncodeMove(m: Move, longtics: bool): (s: seq<byte>)
    ensures |s| == MoveSize(longtics)
    ensures s[0] == DEMOMARKER <==> m.forward == -128
  {
    [m.forward % 256, m.side % 256]
    + (if longtics then [m.turn % 256, m.turn / 256 % 256] else [m.turn / 256 % 256])
    + [m.buttons]
  }

  function DecodeMove(s: seq<byte>, p: nat, longtics: bool): Move
    requires p + MoveSize(longtics) <= |s|
  {
    if longtics then
      Move(ToInt8(s[p]), ToInt8(s[p + 1]), ToInt16((s[p + 3] as int) * 256 + s[p + 2]), s[p + 4])
    else
      Move(ToInt8(s[p]), ToInt8(s[p + 1]), ToInt16((s[p + 2] as int) * 256), s[p + 3])
  }

  lemma ShortOf(hi: byte, lo: byte)
    ensures ToInt16((hi as int) * 256 + lo) / 256 % 256 == hi && ToInt16((hi as int) * 256 + lo) % 256 == lo
  {
    var x := (hi as int) * 256 + lo;
    assert ToInt16(x) == if hi < 128 then x else x - 256 * 256;
  }

  /** Where each part of a move stands in its bytes. */
  lemma MoveBytes(s: seq<byte>, p: nat, longtics: bool)
    requires p + MoveSize(longtics) <= |s|
    ensures var m := DecodeMove(s, p, longtics);
            && m.forward % 256 == s[p] && m.side % 256 == s[p + 1]
            && m.turn / 256 % 256 == s[p + if longtics then 3 else 2]
            && m.turn % 256 == (if longtics then s[p + 2] else 0)
            && m.buttons == s[p + if longtics then 4 else 3]
  {
    if longtics {
      ShortOf(s[p + 3], s[p + 2]);
    } else {
      ShortOf(s[p + 2], 0);
    }
  }

  /** What a demo keeps of a move: a short one drops the low byte of the turn. */
  function Kept(m: Move, longtics: bool): Move {
    if longtics then m else m.(turn := m.turn - m.turn % 256)
  }

  lemma SignedByte(x: int8)
    ensures ToInt8(x % 256) == x
  {
  }

  lemma SignedShort(x: int16)
    ensures ToInt16(x / 256 % 256 * 256 + x % 256) == x
    ensures ToInt16(x / 256 % 256 * 256) == x - x % 256
  {
  }

  lemma MoveRoundTrip(m: Move, longtics: bool, before: seq<byte>, after: seq<byte>)
    ensures DecodeMove(before + EncodeMove(m, longtics) + after, |before|, longtics) == Kept(m, longtics)
  {
    var s, e := before + EncodeMove(m, longtics) + after, EncodeMove(m, longtics);
    assert forall k :: 0 <= k < |e| ==> s[|before| + k] == e[k];
    SignedByte(m.forward);
    SignedByte(m.side);
    SignedShort(m.turn);
  }

  /** Recording is lossless exactly for long demos and for turns that are multiples of 256; and what
      is kept is recorded and read without further loss. */
  lemma LosslessIff(m: Move, longtics: bool)
    ensures Kept(m, longtics) == m <==> longtics || m.turn % 256 == 0
    ensures Kept(Kept(m, longtics), longtics) == Kept(m, longtics)
    ensures EncodeMove(Kept(m, longtics), longtics) == EncodeMove(m, longtics)
  {
    var t := m.turn - m.turn % 256;
    assert t % 256 == 0 && t / 256 == m.turn / 256;
  }

  function EncodeAll(moves: seq<Move>, longtics: bool): seq<byte> {
    if moves == [] then [] else EncodeAll(moves[..|moves| - 1], longtics) + EncodeMove(moves[|moves| - 1], longtics)
  }

  /** The moves a player reads from offset `p` on, up to the marker. */
  function ReadAll(s: seq<byte>, p: nat, longtics: bool): Option<seq<Move>>
    decreases |s| - p
  {
    if p >= |s| then None
    else if s[p] == DEMOMARKER then Some([])
    else if p + MoveSize(longtics) > |s| then None
    else
      match ReadAll(s, p + MoveSize(longtics), longtics)
      case None => None
      case Some(moves) => Some([DecodeMove(s, p, longtics)] + moves)
  }

  function HeaderBytes(version: byte, g: Settings): (s: seq<byte>)
    requires |g.ingame| == 4
    ensures |s| == 13
  {
    [version, g.skill, g.episode, g.level, g.deathmatch, g.respawn, g.fast, g.nomonsters, g.player] + g.ingame
  }

  function ReadHeader(s: seq<byte>): Settings
    requires |s| >= 13
  {
    Settings(s[1], s[2], s[3], s[4], s[5], s[6], s[7], s[8], s[9..13])
  }

  /** Whether a demo of that version is read with long tics; an unknown version leaves the setting alone. */
  function ReadLongtics(version: byte, vanilla: byte, before: bool): bool {
    if version == vanilla then false else if version == LONGTICS_VERSION then true else before
  }

  datatype Replay = Replay(settings: Settings, longtics: bool, moves: seq<Move>)

  /** What playing a demo file delivers. */
  function Play(s: seq<byte>, vanilla: byte, before: bool): Option<Replay> {
    if |s| < 13 then None
    else
      var longtics := ReadLongtics(s[0], vanilla, before);
      match ReadAll(s, 13, longtics)
      case None => None
      case Some(moves) => Some(Replay(ReadHeader(s), longtics, moves))
  }

  /** Moves that a demo can hold: what it keeps, and none whose first byte would read as the marker. */
  predicate Recordable(moves: seq<Move>, longtics: bool) {
    moves == [] ||
    (var last := moves[|moves| - 1];
     last.forward != -128 && Kept(last, longtics) == last && Recordable(moves[..|moves| - 1], longtics))
  }

  /** A stored move reads back as what the demo keeps of it. */
  lemma StoredReads(s: seq<byte>, p: nat, m: Move, longtics: bool)
    requires p + MoveSize(longtics) <= |s| && s[p..p + MoveSize(longtics)] == EncodeMove(m, longtics)
    ensures s[p] == DEMOMARKER <==> m.forward == -128
    ensures DecodeMove(s, p, longtics) == Kept(m, longtics)
  {
    var n := MoveSize(longtics);
    assert s == s[..p] + EncodeMove(m, longtics) + s[p + n..];
    assert s[p] == s[p..p + n][0];
    MoveRoundTrip(m, longtics, s[..p], s[p + n..]);
  }

  lemma ReadStep(s: seq<byte>, p: nat, m: Move, longtics: bool, tail: seq<Move>)
    requires p + MoveSize(longtics) <= |s| && s[p..p + MoveSize(longtics)] == EncodeMove(m, longtics)
    requires m.forward != -128 && Kept(m, longtics) == m
    requires ReadAll(s, p + MoveSize(longtics), longtics) == Some(tail)
    ensures ReadAll(s, p, longtics) == Some([m] + tail)
  {
    StoredReads(s, p, m, longtics);
  }

  lemma LastEncoded(header: seq<byte>, moves: seq<Move>, longtics: bool)
    requires moves != []
    ensures header + EncodeAll(moves, longtics) ==
            header + EncodeAll(moves[..|moves| - 1], longtics) + EncodeMove(moves[|moves| - 1], longtics)
  {
    Regroup(header, EncodeAll(moves[..|moves| - 1], longtics), EncodeMove(moves[|moves| - 1], longtics));
  }

  lemma MovesSplit(moves: seq<Move>, tail: seq<Move>)
    requires moves != []
    ensures moves[..|moves| - 1] + ([moves[|moves| - 1]] + tail) == moves + tail
  {
  }

  lemma SplitLast(s: seq<byte>, q: nat, head: seq<byte>, last: seq<byte>)
    requires q <= |s| && s[..q] == head + last
    ensures s[..|head|] == head && s[|head|..q] == last
  {
    assert s[..|head|] == s[..q][..|head|];
    assert s[|head|..q] == s[..q][|head|..];
  }

  /** Reading from the start of the recorded moves gives them all, and then what follows them. */
  lemma {:induction false} ReadAllRoundTrip(s: seq<byte>, q: nat, header: seq<byte>, moves: seq<Move>,
                                            longtics: bool, tail: seq<Move>)
    requires Recordable(moves, longtics)
    requires q <= |s| && s[..q] == header + EncodeAll(moves, longtics)
    requires ReadAll(s, q, longtics) == Some(tail)
    ensures ReadAll(s, |header|, longtics) == Some(moves + tail)
    decreases |moves|
  {
    if moves == [] {
      assert header + [] == header && moves + tail == tail;
      assert |s[..q]| == q;
    } else {
      var front, last := moves[..|moves| - 1], moves[|moves| - 1];
      var before, e := header + EncodeAll(front, longtics), EncodeMove(last, longtics);
      LastEncoded(header, moves, longtics);
      SplitLast(s, q, before, e);
      ReadStep(s, |before|, last, longtics, tail);
      ReadAllRoundTrip(s, |before|, header, front, longtics, [last] + tail);
      MovesSplit(moves, tail);
    }
  }

  lemma HeaderKept(s: seq<byte>, header: seq<byte>, g: Settings)
    requires |g.ingame| == 4 && |header| == 13 <= |s| && header == HeaderBytes(header[0], g)
    requires header <= s
    ensures s[0] == header[0] && ReadHeader(s) == g
  {
    assert forall k :: 0 <= k < 13 ==> s[k] == header[k];
    assert s[9..13] == g.ingame;
  }

  /** A whole demo: the settings, the resolution and every move come back. */
  lemma DemoRoundTrip(vanilla: byte, longtics: bool, g: Settings, moves: seq<Move>, before: bool)
    requires 106 <= vanilla <= 109 && |g.ingame| == 4 && Recordable(moves, longtics)
    ensures Play(HeaderBytes(if longtics then LONGTICS_VERSION else vanilla, g) + EncodeAll(moves, longtics)
                 + [DEMOMARKER], vanilla, before)
            == Some(Replay(g, longtics, moves))
  {
    var header := HeaderBytes(if longtics then LONGTICS_VERSION else vanilla, g);
    var body := header + EncodeAll(moves, longtics);
    var s := body + [DEMOMARKER];
    assert s[..|body|] == body && s[|body|] == DEMOMARKER;
    assert ReadAll(s, |body|, longtics) == Some([]);
    ReadAllRoundTrip(s, |body|, header, moves, longtics, []);
    assert moves + [] == moves;
    HeaderKept(s, header, g);
  }

  /** In a demo that reads to its end, a step at offset `p` gives the next move or, when none is left,
      finds the marker; the other moves are still to come. */
  lemma NextMove(s: seq<byte>, p: nat, longtics: bool)
    requires ReadAll(s, p, longtics).Some?
    ensures p < |s| && (s[p] == DEMOMARKER <==> ReadAll(s, p, longtics).value == [])
    ensures s[p] != DEMOMARKER ==>
              && p + MoveSize(longtics) <= |s|
              && DecodeMove(s, p, longtics) == ReadAll(s, p, longtics).value[0]
              && ReadAll(s, p + MoveSize(longtics), longtics) == Some(ReadAll(s, p, longtics).value[1..])
  {
    if s[p] != DEMOMARKER {
      var tail := ReadAll(s, p + MoveSize(longtics), longtics).value;
      assert ([DecodeMove(s, p, longtics)] + tail)[1..] == tail;
    }
  }

  /** One step of playback, seen from the whole demo. */
  lemma PlayOn(s: seq<byte>, p: nat, longtics: bool, moves: seq<Move>, all: seq<Move>)
    requires ReadAll(s, p, longtics).Some? && all == moves + ReadAll(s, p, longtics).value
    ensures p < |s| && (s[p] == DEMOMARKER ==> all == moves)
    ensures s[p] != DEMOMARKER ==>
              && p + MoveSize(longtics) <= |s| && ReadAll(s, p + MoveSize(longtics), longtics).Some?
              && all == (moves + [DecodeMove(s, p, longtics)]) + ReadAll(s, p + MoveSize(longtics), longtics).value
  {
    NextMove(s, p, longtics);
    if s[p] != DEMOMARKER {
      var m, rest := DecodeMove(s, p, longtics), ReadAll(s, p + MoveSize(longtics), longtics).value;
      Regroup(moves, [m], rest);
    }
  }

  // ----- the recorder and player

  class TicCmd {
    var forwardmove: int8
    var sidemove: int8
    var angleturn: int16
    var chatchar: byte
    var buttons: byte
    var consistancy: byte

    function Value(): Move
      reads this
    {
      Move(forwardmove, sidemove, angleturn, buttons)
    }
  }

  lemma EncodeSnoc(moves: seq<Move>, m: Move, longtics: bool)
    ensures EncodeAll(moves + [m], longtics) == EncodeAll(moves, longtics) + EncodeMove(m, longtics)
  {
    assert (moves + [m])[..|moves|] == moves;
  }

  /** Moving the cursor past a stored move extends the recording. */
  lemma MoveRecorded(s: seq<byte>, p: nat, header: seq<byte>, moves: seq<Move>, m: Move, longtics: bool)
    requires Recordable(moves, longtics) && m.forward != -128
    requires p + MoveSize(longtics) <= |s| && s[..p] == header + EncodeAll(moves, longtics)
    requires s[p..p + MoveSize(longtics)] == EncodeMove(m, longtics)
    ensures Recordable(moves + [Kept(m, longtics)], longtics)
    ensures s[..p + MoveSize(longtics)] == header + EncodeAll(moves + [Kept(m, longtics)], longtics)
  {
    LosslessIff(m, longtics);
    EncodeSnoc(moves, Kept(m, longtics), longtics);
    assert s[..p + MoveSize(longtics)] == s[..p] + s[p..p + MoveSize(longtics)];
  }

  /** Slices within a prefix that is kept are kept. */
  lemma PrefixKept(was: seq<byte>, now: seq<byte>, p: nat, n: nat)
    requires |was| <= |now| && now[..|was|] == was && p + n <= |was|
    ensures now[..p] == was[..p] && now[p..p + n] == was[p..p + n]
  {
    forall k | 0 <= k < |was| ensures now[k] == was[k] {
      assert now[..|was|][k] == now[k];
    }
  }

  class DemoState {
    var demobuffer: array<byte>
    var demo_p: nat
    var longtics: bool
    var lowres_turn: bool
    var demorecording: bool
    var demoplayback: bool
    var timingdemo: bool
    var netgame: bool
    var netdemo: bool
    var rules: Rules
    const singledemo: bool
    const vanilla_demo_limit: bool
    const vanilla_version: byte

    // the file written when recording stops
    var file: seq<byte>

    // what has been recorded: the settings and the moves as the game saw them
    ghost var settings: Settings
    ghost var recorded: seq<Move>

    ghost predicate Valid()
      reads this
    {
      106 <= vanilla_version <= 109 && |rules.ingame| == 4
    }

    /** Everything recorded so far, as bytes. */
    ghost function Contents(): seq<byte>
      reads this
      requires |settings.ingame| == 4
    {
      HeaderBytes(if longtics then LONGTICS_VERSION else vanilla_version, settings)
      + EncodeAll(recorded, longtics)
    }

    /** While recording, eleven bytes at least are free: room for a move and for the marker. */
    ghost predicate Recording()
      reads this, demobuffer
    {
      && Valid() && demorecording && !demoplayback && !timingdemo
      && |settings.ingame| == 4 && Recordable(recorded, longtics)
      && 16 <= demobuffer.Length && demo_p + 11 <= demobuffer.Length
      && demobuffer[..demo_p] == Contents()
    }

    constructor (buffer: array<byte>, vanilla: byte, limit: bool, single: bool, recording: bool)
      requires 106 <= vanilla <= 109
      ensures Valid() && demobuffer == buffer && vanilla_version == vanilla && vanilla_demo_limit == limit
      ensures singledemo == single && demorecording == recording && !demoplayback && !timingdemo
    {
      demobuffer, demo_p := buffer, 0;
      vanilla_version, vanilla_demo_limit, singledemo := vanilla, limit, single;
      longtics, lowres_turn := false, true;
      demorecording, demoplayback, timingdemo := recording, false, false;
      netgame, netdemo := false, false;
      rules := Rules(0, 0, 0, 0, 0, [1, 0, 0, 0]);
      file := [];
      settings, recorded := Settings(0, 0, 0, 0, 0, 0, 0, 0, []), [];
    }

    /** The header, byte after byte. */
    method WriteHeader(version: byte, g: Settings)
      requires |g.ingame| == 4 && demobuffer.Length >= 13
      modifies `demo_p, demobuffer
      ensures demo_p == 13 && demobuffer[..13] == HeaderBytes(version, g)
    {
      demo_p := 0;
      ghost var header := HeaderBytes(version, g);
      demobuffer[demo_p] := version;
      demo_p := demo_p + 1;
      var fields := [g.skill, g.episode, g.level, g.deathmatch, g.respawn, g.fast, g.nomonsters, g.player];
      assert forall k :: 0 <= k < 8 ==> header[1 + k] == fields[k];
      var i := 0;
      while i < 8
        invariant 0 <= i <= 8 && demo_p == 1 + i
        invariant forall k :: 0 <= k < demo_p ==> demobuffer[k] == header[k]
      {
        demobuffer[demo_p] := fields[i];
        demo_p := demo_p + 1;
        i := i + 1;
      }
      assert header[9..] == g.ingame;
      i := 0;
      while i < 4
        invariant 0 <= i <= 4 && demo_p == 9 + i
        invariant forall k :: 0 <= k < demo_p ==> demobuffer[k] == header[k]
      {
        demobuffer[demo_p] := g.ingame[i];
        demo_p := demo_p + 1;
        i := i + 1;
      }
    }

    /** G_BeginRecording: the header, in a buffer with room for it, a move and the marker. */
    method BeginRecording(longticsParm: bool, g: Settings)
      requires Valid() && demorecording && !demoplayback && !timingdemo
      requires |g.ingame| == 4 && demobuffer.Length >= 24
      modifies `demo_p, `longtics, `lowres_turn, `settings, `recorded, demobuffer
      ensures Recording() && recorded == [] && settings == g
      ensures longtics == longticsParm && lowres_turn == !longticsParm
      ensures demo_p == 13
    {
      settings, recorded := g, [];
      longtics := longticsParm;
      lowres_turn := !longtics;
      WriteHeader(if longtics then LONGTICS_VERSION else vanilla_version, g);
      assert demobuffer[..13] == HeaderBytes(if longtics then LONGTICS_VERSION else vanilla_version, g) + [];
    }

    /** G_DoPlayDemo up to the start of the level and after it. `soloNet` says whether a parameter of the program
        asks for a net game. */
    method DoPlayDemo(lump: array<byte>, soloNet: bool) returns (g: Settings)
      requires lump.Length >= 13
      modifies `demobuffer, `demo_p, `longtics, `demoplayback, `rules, `netgame, `netdemo
      ensures demobuffer == lump && demo_p == 13 && demoplayback
      ensures longtics == ReadLongtics(lump[0], vanilla_version, old(longtics))
      ensures longtics <==> lump[0] != vanilla_version && (lump[0] == 111 || old(longtics))
      ensures g == ReadHeader(lump[..]) && rules == RulesOf(g)
      ensures rules == Rules(lump[4], lump[5], lump[6], lump[7], lump[8], lump[9..13])
      ensures g.skill == lump[1] && g.episode == lump[2] && g.level == lump[3]
      ensures var net := g.ingame[1] != 0 || soloNet;
              netgame == (old(netgame) || net) && netdemo == (old(netdemo) || net)
    {
      demobuffer := lump;
      demo_p := 0;
      var demoversion := demobuffer[demo_p];
      demo_p := demo_p + 1;
      if demoversion == vanilla_version {
        longtics := false;
      } else if demoversion == LONGTICS_VERSION {
        longtics := true;
      }
      rules := Rules(lump[4], lump[5], lump[6], lump[7], lump[8], lump[9..13]);
      g := Settings(lump[1], lump[2], lump[3], lump[4], lump[5], lump[6], lump[7], lump[8], rules.ingame);
      demo_p := demo_p + 12;
      if rules.ingame[1] != 0 || soloNet {
        netgame := true;
        netdemo := true;
      }
      demoplayback := true;
    }

    /** G_CheckDemoStatus. It ends a timed demo with a report; it ends playback and goes back to the rules of a
        single-player game; or it writes the marker and the file and ends recording. */
    method CheckDemoStatus() returns (end: Ending)
      requires Valid() && (demorecording ==> Recording())
      modifies `demo_p, `file, `demorecording, `demoplayback, `timingdemo, `rules, `netgame, `netdemo, demobuffer
      ensures Valid() && !demoplayback && !timingdemo
      ensures end == if old(timingdemo) then Timed else if old(demoplayback) then Finished(singledemo)
                     else if old(demorecording) then Recorded else NoDemo
      ensures rules == if end.Finished? then Rules(0, 0, 0, 0, 0, [old(rules.ingame[0]), 0, 0, 0]) else old(rules)
      ensures netgame == (old(netgame) && !end.Finished?) && netdemo == (old(netdemo) && !end.Finished?)
      ensures !end.Recorded? ==>
                && demorecording == old(demorecording) && file == old(file)
                && demo_p == old(demo_p) && demobuffer[..] == old(demobuffer[..])
      ensures end.Recorded? ==>
                && !demorecording
                && file == old(Contents()) + [DEMOMARKER]
                && Play(file, vanilla_version, longtics) == Some(Replay(settings, longtics, recorded))
    {
      if timingdemo {
        timingdemo := false;
        demoplayback := false;
        return Timed;
      }
      if demoplayback {
        demoplayback := false;
        netdemo := false;
        netgame := false;
        rules := RulesReset(rules);
        return Finished(singledemo);
      }
      if demorecording {
        ghost var c := Contents();
        demobuffer[demo_p] := DEMOMARKER;
        demo_p := demo_p + 1;
        file := demobuffer[..demo_p];
        assert file == c + [DEMOMARKER];
        DemoRoundTrip(vanilla_version, longtics, settings, recorded, longtics);
        demorecording := false;
        return Recorded;
      }
      end := NoDemo;
    }

    /** The move at the cursor, byte after byte, into the command. */
    method ReadMove(cmd: TicCmd)
      requires demo_p + MoveSize(longtics) <= demobuffer.Length
      modifies `demo_p, cmd
      ensures demo_p == old(demo_p) + MoveSize(longtics)
      ensures cmd.Value() == DecodeMove(demobuffer[..], old(demo_p), longtics)
      ensures cmd.chatchar == old(cmd.chatchar) && cmd.consistancy == old(cmd.consistancy)
    {
      cmd.forwardmove := ToInt8(demobuffer[demo_p]);
      demo_p := demo_p + 1;
      cmd.sidemove := ToInt8(demobuffer[demo_p]);
      demo_p := demo_p + 1;
      if longtics {
        var low := demobuffer[demo_p];
        demo_p := demo_p + 1;
        cmd.angleturn := ToInt16((demobuffer[demo_p] as int) * 256 + low);
        demo_p := demo_p + 1;
      } else {
        cmd.angleturn := ToInt16((demobuffer[demo_p] as int) * 256);
        demo_p := demo_p + 1;
      }
      cmd.buttons := demobuffer[demo_p];
      demo_p := demo_p + 1;
    }

    /** G_ReadDemoTiccmd: one move into the command, or the end of the demo at a marker. */
    method ReadDemoTiccmd(cmd: TicCmd) returns (ended: bool)
      requires Valid() && (demorecording ==> Recording())
      requires demo_p < demobuffer.Length
      requires demobuffer[demo_p] != DEMOMARKER ==> demo_p + MoveSize(longtics) <= demobuffer.Length
      modifies `demo_p, `file, `demorecording, `demoplayback, `timingdemo, `rules, `netgame, `netdemo
      modifies demobuffer, cmd
      ensures Valid() && (ended <==> old(demobuffer[demo_p]) == DEMOMARKER)
      ensures cmd.chatchar == old(cmd.chatchar) && cmd.consistancy == old(cmd.consistancy)
      ensures !ended ==>
                && demo_p == old(demo_p) + MoveSize(longtics)
                && cmd.Value() == DecodeMove(old(demobuffer[..]), old(demo_p), longtics)
                && demobuffer[..] == old(demobuffer[..]) && file == old(file)
                && demorecording == old(demorecording) && demoplayback == old(demoplayback)
                && timingdemo == old(timingdemo)
                && rules == old(rules) && netgame == old(netgame) && netdemo == old(netdemo)
      ensures ended ==> !demoplayback && !timingdemo && cmd.Value() == old(cmd.Value())
      ensures ended && (old(demoplayback) || !old(demorecording)) ==>
                && demorecording == old(demorecording) && file == old(file)
                && demo_p == old(demo_p) && demobuffer[..] == old(demobuffer[..])
      ensures ended && old(demoplayback) && !old(timingdemo) ==>
                rules == RulesReset(old(rules)) && !netgame && !netdemo
      ensures ended && old(demorecording) && !old(demoplayback) ==>
                && !demorecording
                && file == old(Contents()) + [DEMOMARKER]
                && Play(file, vanilla_version, longtics) == Some(Replay(settings, longtics, recorded))
    {
      if demobuffer[demo_p] == DEMOMARKER {
        var end := CheckDemoStatus();
        return true;
      }
      ReadMove(cmd);
      ended := false;
    }

    /** While a demo `s` plays: the moves so far and those still to be read are all of its moves. */
    ghost predicate Playing(s: seq<byte>, all: seq<Move>, moves: seq<Move>)
      reads this, demobuffer
    {
      && Valid() && !demorecording && demoplayback && demobuffer[..] == s
      && ReadAll(s, demo_p, longtics).Some? && all == moves + ReadAll(s, demo_p, longtics).value
    }

    /** A tic of G_Ticker while a demo plays. */
    method PlayTic(cmd: TicCmd, moves: seq<Move>, ghost s: seq<byte>, ghost all: seq<Move>)
      returns (more: seq<Move>)
      requires Playing(s, all, moves)
      modifies `demo_p, `file, `demorecording, `demoplayback, `timingdemo, `rules, `netgame, `netdemo
      modifies demobuffer, cmd
      ensures Valid() && !demorecording && demobuffer[..] == s && file == old(file)
      ensures demoplayback ==>
                && Playing(s, all, more) && old(demo_p) < demo_p <= |s|
                && timingdemo == old(timingdemo) && rules == old(rules)
      ensures !demoplayback ==>
                && more == all && !timingdemo
                && (!old(timingdemo) ==> rules == RulesReset(old(rules)) && !netgame && !netdemo)
    {
      PlayOn(s, demo_p, longtics, moves, all);
      var ended := ReadDemoTiccmd(cmd);
      more := if ended then moves else moves + [cmd.Value()];
    }

    /** A run of playback: G_DoPlayDemo, then tic after tic. Every demo that can be played to its marker delivers
        its settings and just its moves, and then playback is over. */
    method PlayBack(lump: array<byte>, soloNet: bool, cmd: TicCmd) returns (g: Settings, moves: seq<Move>)
      requires Valid() && !demorecording && lump.Length >= 13 && Play(lump[..], vanilla_version, longtics).Some?
      modifies this, lump, cmd
      ensures Valid() && !demoplayback && !timingdemo && !demorecording && file == old(file)
      ensures lump[..] == old(lump[..])
      ensures Play(old(lump[..]), vanilla_version, old(longtics)) == Some(Replay(g, longtics, moves))
      ensures !old(timingdemo) ==> rules == RulesReset(RulesOf(g)) && !netgame && !netdemo
    {
      ghost var s := lump[..];
      g := DoPlayDemo(lump, soloNet);
      ghost var all, long := ReadAll(s, demo_p, longtics).value, longtics;
      moves := [];
      while demoplayback
        invariant demobuffer == lump && demobuffer[..] == s && longtics == long && file == old(file)
        invariant Valid() && !demorecording
        invariant if demoplayback then Playing(s, all, moves) && rules == RulesOf(g) && timingdemo == old(timingdemo)
                  else all == moves && !timingdemo
        invariant !demoplayback && !old(timingdemo) ==> rules == RulesReset(RulesOf(g)) && !netgame && !netdemo
        decreases demoplayback, |s| - demo_p
      {
        moves := PlayTic(cmd, moves, s, all);
      }
    }

    /** IncreaseDemoBuffer: twice the room, the same contents. */
    method IncreaseDemoBuffer()
      modifies `demobuffer
      ensures fresh(demobuffer) && demobuffer.Length == 2 * old(demobuffer.Length)
      ensures demobuffer[..old(demobuffer.Length)] == old(demobuffer[..])
    {
      var current_length := demobuffer.Length;
      var new_demobuffer := new byte[current_length * 2];
      forall k | 0 <= k < current_length {
        new_demobuffer[k] := demobuffer[k];
      }
      demobuffer := new_demobuffer;
      assert demobuffer[..current_length] == old(demobuffer[..]);
    }

    /** The bytes of a move, written ahead of the cursor, which stays. */
    method StoreMove(m: Move)
      requires demo_p + 5 <= demobuffer.Length
      modifies this`demo_p, demobuffer
      ensures demo_p == old(demo_p)
      ensures demobuffer[..demo_p] == old(demobuffer[..demo_p])
      ensures demobuffer[demo_p..demo_p + MoveSize(longtics)] == EncodeMove(m, longtics)
    {
      var demo_start := demo_p;
      ghost var was := demobuffer[..];
      demobuffer[demo_p] := m.forward % 256;
      demo_p := demo_p + 1;
      demobuffer[demo_p] := m.side % 256;
      demo_p := demo_p + 1;
      if longtics {
        demobuffer[demo_p] := m.turn % 256;
        demo_p := demo_p + 1;
        demobuffer[demo_p] := m.turn / 256 % 256;
        demo_p := demo_p + 1;
      } else {
        demobuffer[demo_p] := m.turn / 256 % 256;
        demo_p := demo_p + 1;
      }
      demobuffer[demo_p] := m.buttons;
      demo_p := demo_p + 1;
      assert demobuffer[..demo_start] == was[..demo_start];
      assert demobuffer[demo_start..demo_p] == EncodeMove(m, longtics);
      demo_p := demo_start;
    }

    /** More room for a demo with a move stored ahead of its cursor. */
    method GrowDemo(ghost c: seq<byte>, ghost m: Move)
      requires 16 <= demobuffer.Length && demo_p + 5 <= demobuffer.Length
      requires demobuffer[..demo_p] == c
      requires demobuffer[demo_p..demo_p + MoveSize(longtics)] == EncodeMove(m, longtics)
      modifies `demobuffer
      ensures fresh(demobuffer) && demobuffer.Length >= old(demobuffer.Length) + 16
      ensures demobuffer[..demo_p] == c
      ensures demobuffer[demo_p..demo_p + MoveSize(longtics)] == EncodeMove(m, longtics)
    {
      ghost var was := demobuffer[..];
      assert was[..demo_p] == c && was[demo_p..demo_p + MoveSize(longtics)] == EncodeMove(m, longtics);
      IncreaseDemoBuffer();
      PrefixKept(was, demobuffer[..], demo_p, MoveSize(longtics));
    }

    /** The stored move is read back, to make sure the game sees what the demo keeps. */
    method KeepMove(cmd: TicCmd, ghost c: seq<byte>, ghost m: Move) returns (stopped: bool)
      requires Recording() && demo_p + 16 <= demobuffer.Length && c == Contents()
      requires demobuffer[demo_p..demo_p + MoveSize(longtics)] == EncodeMove(m, longtics)
      modifies `demo_p, `file, `demorecording, `demoplayback, `timingdemo, `rules, `netgame, `netdemo, `recorded
      modifies demobuffer, cmd
      ensures stopped <==> m.forward == -128
      ensures cmd.chatchar == old(cmd.chatchar) && cmd.consistancy == old(cmd.consistancy)
      ensures !stopped ==>
                && Recording()
                && recorded == old(recorded) + [Kept(m, longtics)]
                && cmd.Value() == Kept(m, longtics)
      ensures stopped ==>
                && !demorecording && recorded == old(recorded)
                && file == c + [DEMOMARKER]
                && Play(file, vanilla_version, longtics) == Some(Replay(settings, longtics, recorded))
    {
      ghost var s, p := demobuffer[..], demo_p;
      ghost var header := HeaderBytes(if longtics then LONGTICS_VERSION else vanilla_version, settings);
      assert s[p..p + MoveSize(longtics)] == EncodeMove(m, longtics) && s[..p] == c;
      StoredReads(s, p, m, longtics);
      if m.forward != -128 {
        MoveRecorded(s, p, header, recorded, m, longtics);
      }
      stopped := ReadDemoTiccmd(cmd);
      if !stopped {
        recorded := recorded + [Kept(m, longtics)];
        assert demobuffer[..demo_p] == s[..demo_p];
      }
    }

    /** G_WriteDemoTiccmd. Recording stops on the quit key, at the vanilla limit, or when the move would
        read back as the marker; the file then replays to everything recorded. Otherwise the command
        becomes what the demo keeps of it, and that is what is recorded. */
    method WriteDemoTiccmd(cmd: TicCmd, quit: bool) returns (stopped: bool)
      requires Recording()
      modifies `demo_p, `file, `demorecording, `demoplayback, `timingdemo, `rules, `netgame, `netdemo, `recorded
      modifies `demobuffer, demobuffer, cmd
      ensures stopped <==> quit || (vanilla_demo_limit && old(demo_p) + 16 > old(demobuffer.Length))
                           || old(cmd.forwardmove) == -128
      ensures demobuffer == old(demobuffer) || fresh(demobuffer)
      ensures cmd.chatchar == old(cmd.chatchar) && cmd.consistancy == old(cmd.consistancy)
      ensures !stopped ==>
                && Recording()
                && recorded == old(recorded) + [Kept(old(cmd.Value()), longtics)]
                && cmd.Value() == Kept(old(cmd.Value()), longtics)
      ensures stopped ==>
                && !demorecording && recorded == old(recorded)
                && file == old(Contents()) + [DEMOMARKER]
                && Play(file, vanilla_version, longtics) == Some(Replay(settings, longtics, recorded))
    {
      ghost var c := Contents();
      var m := cmd.Value();
      if quit {
        var end := CheckDemoStatus();
        return true;
      }
      StoreMove(m);
      ghost var n := MoveSize(longtics);
      assert demobuffer[..demo_p] == c && demobuffer[demo_p..demo_p + n] == EncodeMove(m, longtics);
      if demo_p + 16 > demobuffer.Length {
        if vanilla_demo_limit {
          var end := CheckDemoStatus();
          return true;
        }
        GrowDemo(c, m);
      }
      stopped := KeepMove(cmd, c, m);
    }
  }
}
