/** The MUS score format and what a score means as a timed list of MIDI events. */
module MusScore {
  import opened Common
  import opened MidiFormat

  const PERCUSSION: nat := 15

  datatype MusEvent =
    | ReleaseKey(ch: Channel, key: byte)
    | PressKey(ch: Channel, key: byte, volume: Option<byte>)
    | PitchWheel(ch: Channel, wheel: byte)
    | SystemEvent(ch: Channel, number: byte)
    | ChangeController(ch: Channel, number: byte, value: byte)
    | ScoreEnd(ch: Channel)

  datatype TimedMus = TimedMus(time: nat, ev: MusEvent)

  // ----- grammar

  /** An event, whether a delay follows it, and the offset just past it. */
  datatype Parsed = Parsed(ev: MusEvent, last: bool, next: nat)

  predicate ValidEvent(ev: MusEvent) {
    && (ev.SystemEvent? ==> 10 <= ev.number <= 14)
    && (ev.ChangeController? ==> ev.number <= 9)
  }

  function ParseEvent(s: seq<byte>, i: nat): (r: Option<Parsed>)
    ensures r.Some? ==> i < r.value.next <= |s| && r.value.last == (s[i] >= 128)
    ensures r.Some? ==> r.value.ev.ch == s[i] % 16 && ValidEvent(r.value.ev)
  {
    if i >= |s| then None
    else
      var ch: Channel := s[i] % 16;
      var last := s[i] >= 128;
      match s[i] / 16 % 8
      case 0 => if i + 1 < |s| then Some(Parsed(ReleaseKey(ch, s[i + 1]), last, i + 2)) else None
      case 1 =>
        if i + 1 >= |s| then None
        else if s[i + 1] < 128 then Some(Parsed(PressKey(ch, s[i + 1], None), last, i + 2))
        else if i + 2 < |s| then Some(Parsed(PressKey(ch, s[i + 1], Some(s[i + 2])), last, i + 3))
        else None
      case 2 => if i + 1 < |s| then Some(Parsed(PitchWheel(ch, s[i + 1]), last, i + 2)) else None
      case 3 =>
        if i + 1 < |s| && 10 <= s[i + 1] <= 14
        then Some(Parsed(SystemEvent(ch, s[i + 1]), last, i + 2)) else None
      case 4 =>
        if i + 2 < |s| && s[i + 1] <= 9
        then Some(Parsed(ChangeController(ch, s[i + 1], s[i + 2]), last, i + 3)) else None
      case 6 => Some(Parsed(ScoreEnd(ch), last, i + 1))
      case _ => None
  }

  /** A delay of any number of seven-bit groups. */
  function ParseDelay(s: seq<byte>, i: nat, acc: nat): (r: Option<(nat, nat)>)
    ensures r.Some? ==> i < r.value.1 <= |s|
    decreases |s| - i
  {
    if i >= |s| then None
    else if s[i] < 128 then Some((acc * 128 + s[i], i + 1))
    else ParseDelay(s, i + 1, acc * 128 + (s[i] - 128))
  }

  /** A delay is coded as in a MIDI file, in any number of bytes. */
  lemma {:induction false} DelayIsVlq(s: seq<byte>, i: nat, acc: nat, left: int)
    requires i <= |s| && left > |s| - i
    ensures var r, q := ParseDelay(s, i, acc), DecodeVlq(s[i..], acc, left);
            (r.Some? <==> q.Some?) && (r.Some? ==> q.value == (r.value.0, s[r.value.1..]))
    decreases |s| - i
  {
    if i < |s| {
      assert s[i..][0] == s[i] && s[i..][1..] == s[i + 1..];
      if s[i] >= 128 {
        DelayIsVlq(s, i + 1, acc * 128 + (s[i] - 128), left - 1);
      }
    }
  }

  function Cons(e: TimedMus, r: Option<seq<TimedMus>>): Option<seq<TimedMus>> {
    match r case None => None case Some(evs) => Some([e] + evs)
  }

  /** The events from offset `i` up to the score end, the first of them at time `now`. */
  function ParseScore(s: seq<byte>, i: nat, now: nat): (r: Option<seq<TimedMus>>)
    decreases |s| - i, 1
  {
    match ParseEvent(s, i)
    case None => None
    case Some(p) =>
      if p.ev.ScoreEnd? then Some([TimedMus(now, p.ev)])
      else Cons(TimedMus(now, p.ev), ParseNext(s, p, now))
  }

  function ParseDelayed(s: seq<byte>, i: nat, now: nat): Option<seq<TimedMus>>
    decreases |s| - i, 2
  {
    match ParseDelay(s, i, 0)
    case None => None
    case Some((d, j)) => ParseScore(s, j, now + d)
  }

  /** What follows event `p`: the next event at once, or after the delay that the event announces. */
  function ParseNext(s: seq<byte>, p: Parsed, now: nat): Option<seq<TimedMus>>
    decreases |s| - p.next, 3
  {
    if p.last then ParseDelayed(s, p.next, now) else ParseScore(s, p.next, now)
  }

  lemma DelayedIs(s: seq<byte>, i: nat, now: nat)
    ensures var r := ParseDelay(s, i, 0);
            ParseDelayed(s, i, now) ==
            if r.None? then None else ParseScore(s, r.value.1, now + r.value.0)
  {
  }

  function Prepend(done: seq<TimedMus>, r: Option<seq<TimedMus>>): Option<seq<TimedMus>> {
    match r case None => None case Some(evs) => Some(done + evs)
  }

  lemma PrependCons(done: seq<TimedMus>, e: TimedMus, r: Option<seq<TimedMus>>)
    ensures Prepend(done, Cons(e, r)) == Prepend(done + [e], r)
  {
    if r.Some? {
      assert done + ([e] + r.value) == (done + [e]) + r.value;
    }
  }

  predicate ValidScore(evs: seq<TimedMus>) {
    forall k :: 0 <= k < |evs| ==> ValidEvent(evs[k].ev)
  }

  predicate EndsOnce(evs: seq<TimedMus>) {
    evs != [] && forall k :: 0 <= k < |evs| ==> (evs[k].ev.ScoreEnd? <==> k == |evs| - 1)
  }

  /** Time of the event before index `k`. */
  function Before(evs: seq<TimedMus>, k: nat, from: nat): nat
    requires k <= |evs|
  {
    if k == 0 then from else evs[k - 1].time
  }

  predicate Ordered(evs: seq<TimedMus>, from: nat) {
    forall k :: 0 <= k < |evs| ==> Before(evs, k, from) <= evs[k].time
  }

  lemma ShapeCons(e: TimedMus, tail: seq<TimedMus>, later: nat)
    requires ValidEvent(e.ev) && !e.ev.ScoreEnd? && e.time <= later
    requires ValidScore(tail) && EndsOnce(tail) && Ordered(tail, later)
    ensures ValidScore([e] + tail) && EndsOnce([e] + tail) && Ordered([e] + tail, e.time)
  {
    var evs := [e] + tail;
    forall k | 0 < k < |evs|
      ensures evs[k] == tail[k - 1] && Before(evs, k, e.time) <= evs[k].time
    {
      assert Before(tail, k - 1, later) <= tail[k - 1].time;
    }
  }

  /** A score that parses has only valid events, ends with its only score-end event, and never
      goes back in time. */
  lemma {:induction false} ParsedShape(s: seq<byte>, i: nat, now: nat)
    requires ParseScore(s, i, now).Some?
    ensures var evs := ParseScore(s, i, now).value;
            ValidScore(evs) && EndsOnce(evs) && Ordered(evs, now)
    decreases |s| - i
  {
    var p := ParseEvent(s, i).value;
    if !p.ev.ScoreEnd? {
      var j, later := p.next, now;
      assert ParseNext(s, p, now).Some?;
      if p.last {
        assert ParseDelayed(s, p.next, now).Some?;
        j, later := ParseDelay(s, p.next, 0).value.1, now + ParseDelay(s, p.next, 0).value.0;
      }
      ParsedShape(s, j, later);
      ShapeCons(TimedMus(now, p.ev), ParseScore(s, j, later).value, later);
    }
  }

  lemma FrontShape(evs: seq<TimedMus>, from: nat)
    requires evs != [] && ValidScore(evs) && Ordered(evs, from)
    ensures ValidScore(evs[..|evs| - 1]) && Ordered(evs[..|evs| - 1], from)
    ensures Before(evs[..|evs| - 1], |evs| - 1, from) == Before(evs, |evs| - 1, from) <= evs[|evs| - 1].time
  {
    var front := evs[..|evs| - 1];
    forall k | 0 <= k < |front| ensures Before(front, k, from) <= front[k].time {
      assert Before(evs, k, from) <= evs[k].time;
    }
    assert Before(evs, |evs| - 1, from) <= evs[|evs| - 1].time;
  }

  /** A lump: the magic number, the offset of the score in bytes 6 and 7, and the score itself. */
  function ParseLump(s: seq<byte>, now: nat): (r: Option<seq<TimedMus>>)
    ensures r.Some? ==> ValidScore(r.value) && EndsOnce(r.value) && Ordered(r.value, now)
  {
    if |s| < 14 || s[..4] != [0x4D, 0x55, 0x53, 0x1A] then None
    else
      var start := s[6] + (s[7] as int) * 256;
      if start < |s| && ParseScore(s, start, now).Some? then
        ParsedShape(s, start, now);
        ParseScore(s, start, now)
      else None
  }

  // ----- channels, in order of first use

  predicate Distinct(uses: seq<nat>) {
    forall i, j :: 0 <= i < j < |uses| ==> uses[i] != uses[j]
  }

  /** A list of distinct channels, none of them percussion. */
  predicate ValidUses(uses: seq<nat>) {
    Distinct(uses) && forall i :: 0 <= i < |uses| ==> uses[i] < PERCUSSION
  }

  function Use(uses: seq<nat>, ch: Channel): (r: seq<nat>)
    ensures ValidUses(uses) ==> ValidUses(r)
  {
    if ch == PERCUSSION || ch in uses then uses else uses + [ch]
  }

  /** The channels a score needs from the allocator, in order of first use. */
  function FirstUses(evs: seq<TimedMus>): (uses: seq<nat>)
    ensures ValidUses(uses)
  {
    if evs == [] then [] else Use(FirstUses(evs[..|evs| - 1]), evs[|evs| - 1].ev.ch)
  }

  function IndexOf(uses: seq<nat>, ch: nat): (k: nat)
    requires ch in uses
    ensures k < |uses| && uses[k] == ch && ch !in uses[..k]
  {
    if uses[0] == ch then 0 else 1 + IndexOf(uses[1..], ch)
  }

  /** The k-th channel the allocator hands out: 0..8 and then 10 on. */
  function Allocated(k: nat): nat {
    if k < 9 then k else k + 1
  }

  ghost function Below(n: nat): (r: set<nat>)
    ensures |r| == n
    ensures forall c: nat :: c in r <==> c < n
  {
    if n == 0 then {} else Below(n - 1) + {n - 1}
  }

  lemma {:induction false} DistinctSize(uses: seq<nat>, bound: set<nat>)
    requires Distinct(uses) && forall i :: 0 <= i < |uses| ==> uses[i] in bound
    ensures |uses| <= |bound|
  {
    if uses != [] {
      var last := uses[|uses| - 1];
      DistinctSize(uses[..|uses| - 1], bound - {last});
    }
  }

  /** The fifteen channels other than percussion cannot run out. */
  lemma FewUses(uses: seq<nat>)
    requires ValidUses(uses)
    ensures |uses| <= PERCUSSION
  {
    DistinctSize(uses, Below(PERCUSSION));
  }

  /** The MIDI channel of a MUS channel: percussion is fixed, the others count up in order of first use. */
  function MidiChannel(uses: seq<nat>, ch: Channel): (m: Channel)
    requires ValidUses(uses) && (ch == PERCUSSION || ch in uses)
    ensures m == 9 <==> ch == PERCUSSION
  {
    if ch == PERCUSSION then 9
    else
      FewUses(uses);
      Allocated(IndexOf(uses, ch))
  }

  lemma MidiChannelInjective(uses: seq<nat>, c: Channel, d: Channel)
    requires ValidUses(uses)
    requires (c == PERCUSSION || c in uses) && (d == PERCUSSION || d in uses)
    ensures MidiChannel(uses, c) == MidiChannel(uses, d) <==> c == d
  {
    if c in uses && d in uses && MidiChannel(uses, c) == MidiChannel(uses, d) {
      assert IndexOf(uses, c) == IndexOf(uses, d);
    }
  }

  lemma {:induction false} IndexOfPrefix(uses: seq<nat>, more: seq<nat>, ch: nat)
    requires ch in uses
    ensures IndexOf(uses + more, ch) == IndexOf(uses, ch)
  {
    assert (uses + more)[0] == uses[0];
    if uses[0] != ch {
      assert (uses + more)[1..] == uses[1..] + more;
      IndexOfPrefix(uses[1..], more, ch);
    }
  }

  lemma {:induction false} FirstUsesGrow(evs: seq<TimedMus>, more: seq<TimedMus>)
    ensures FirstUses(evs) <= FirstUses(evs + more)
  {
    if more == [] {
      assert evs + more == evs;
    } else {
      var front := more[..|more| - 1];
      assert (evs + more)[..|evs + more| - 1] == evs + front;
      FirstUsesGrow(evs, front);
    }
  }

  lemma {:induction false} UsedIsFirstUse(evs: seq<TimedMus>, k: nat)
    requires k < |evs| && evs[k].ev.ch != PERCUSSION
    ensures evs[k].ev.ch in FirstUses(evs)
  {
    if k < |evs| - 1 {
      UsedIsFirstUse(evs[..|evs| - 1], k);
    }
  }

  /** Once a channel has a MIDI channel it keeps it, whatever the score does later. */
  lemma MidiChannelStable(evs: seq<TimedMus>, more: seq<TimedMus>, ch: Channel)
    requires ch == PERCUSSION || ch in FirstUses(evs)
    ensures ch == PERCUSSION || ch in FirstUses(evs + more)
    ensures MidiChannel(FirstUses(evs + more), ch) == MidiChannel(FirstUses(evs), ch)
  {
    FirstUsesGrow(evs, more);
    if ch != PERCUSSION {
      var uses := FirstUses(evs);
      var rest := FirstUses(evs + more)[|uses|..];
      assert FirstUses(evs + more) == uses + rest;
      IndexOfPrefix(uses, rest, ch);
    }
  }

  // ----- meaning

  /** The volume last sent with a key press on a channel. */
  function LastVolume(evs: seq<TimedMus>, ch: Channel): Option<byte> {
    if evs == [] then None
    else
      var e := evs[|evs| - 1].ev;
      if e.PressKey? && e.ch == ch && e.volume.Some? then e.volume
      else LastVolume(evs[..|evs| - 1], ch)
  }

  predicate ValidVolumes(v0: seq<byte>) {
    |v0| == 16 && forall m :: 0 <= m < 16 ==> v0[m] < 128
  }

  /** The volume a key press sounds at: the last one sent on its channel, or the one its MIDI
      channel had when the conversion began. */
  function Volume(evs: seq<TimedMus>, ch: Channel, v0: seq<byte>): Data
    requires ValidVolumes(v0)
    requires ch == PERCUSSION || ch in FirstUses(evs)
  {
    match LastVolume(evs, ch)
    case Some(v) => v % 128
    case None => v0[MidiChannel(FirstUses(evs), ch)]
  }

  const CONTROLLERS: seq<Data> :=
    [0x00, 0x20, 0x01, 0x07, 0x0A, 0x0B, 0x5B, 0x5D, 0x40, 0x43, 0x78, 0x7B, 0x7E, 0x7F, 0x79]

  const ALL_NOTES_OFF: Data := 0x7B

  /** One event on a MIDI channel that sounds at the given volume. */
  function Render(ev: MusEvent, m: Channel, volume: Data): (r: MidiEvent)
    requires ValidEvent(ev)
    ensures r.EndOfTrack? <==> ev.ScoreEnd?
  {
    match ev
    case ReleaseKey(_, key) => NoteOff(m, key % 128, 0)
    case PressKey(_, key, _) => NoteOn(m, key % 128, volume)
    case PitchWheel(_, wheel) => PitchBend(m, (wheel as int) * 64)
    case SystemEvent(_, number) => Control(m, CONTROLLERS[number], 0)
    case ChangeController(_, number, value) =>
      if number == 0 then Program(m, value % 128)
      else Control(m, CONTROLLERS[number], if value < 128 then value else 127)
    case ScoreEnd(_) => EndOfTrack
  }

  /** The controllers of the format under the numbers of MIDI 1.0: bank, modulation, volume, pan, expression,
      reverb, chorus, sustain and soft pedal; then all sounds off, all notes off, mono, poly and reset. */
  function Controller(number: byte): Data {
    match number
    case 1 => 32
    case 2 => 1
    case 3 => 7
    case 4 => 10
    case 5 => 11
    case 6 => 91
    case 7 => 93
    case 8 => 64
    case 9 => 67
    case 10 => 120
    case 11 => 123
    case 12 => 126
    case 13 => 127
    case 14 => 121
    case _ => 0
  }

  /** The MIDI event that the bytes at offset `i` of a score stand for. */
  lemma BytesMean(s: seq<byte>, i: nat, m: Channel, volume: Data)
    requires i < |s| && ParseEvent(s, i).Some?
    ensures var p, code := ParseEvent(s, i).value, s[i] / 16 % 8;
            && (code == 0 || code == 1 || code == 2 || code == 3 || code == 4 || code == 6)
            && (p.ev.PressKey? <==> code == 1)
            && (code == 1 ==> p.ev.volume == if s[i + 1] < 128 then None else Some(s[i + 2]))
            && p.next == i + (if code == 6 then 1
                              else if code == 4 || (code == 1 && s[i + 1] >= 128) then 3 else 2)
            && Render(p.ev, m, volume) ==
               (if code == 6 then EndOfTrack
                else if code == 0 then NoteOff(m, s[i + 1] % 128, 0)
                else if code == 1 then NoteOn(m, s[i + 1] % 128, volume)
                else if code == 2 then PitchBend(m, (s[i + 1] as int) * 64)
                else if code == 3 then Control(m, Controller(s[i + 1]), 0)
                else if s[i + 1] == 0 then Program(m, s[i + 2] % 128)
                else Control(m, Controller(s[i + 1]), Min(s[i + 2], 127)))
  {
  }

  /** The MIDI event for the last event of `evs`. */
  function Rendered(evs: seq<TimedMus>, v0: seq<byte>): MidiEvent
    requires ValidVolumes(v0) && evs != [] && ValidEvent(evs[|evs| - 1].ev)
  {
    var ev := evs[|evs| - 1].ev;
    Render(ev, MidiChannel(FirstUses(evs), ev.ch), Volume(evs, ev.ch, v0))
  }

  /** "All notes off" on the MIDI channel of a channel that is used for the first time. */
  function Announce(uses: seq<nat>, ch: Channel, time: nat): seq<Timed>
    requires ValidUses(uses)
  {
    if ch == PERCUSSION || ch in uses then []
    else [Timed(time, Control(MidiChannel(Use(uses, ch), ch), ALL_NOTES_OFF, 0))]
  }

  /** A new channel is given the next number of 0 to 8 and 10 to 15, and silenced there. */
  lemma NewChannel(uses: seq<nat>, ch: Channel, time: nat)
    requires ValidUses(uses) && ch != 15 && ch !in uses
    ensures MidiChannel(Use(uses, ch), ch) == if |uses| < 9 then |uses| else |uses| + 1
    ensures Announce(uses, ch, time) == [Timed(time, Control(if |uses| < 9 then |uses| else |uses| + 1, 123, 0))]
  {
    var more := uses + [ch];
    var k := IndexOf(more, ch);
    assert more[|uses|] == ch && k == |uses|;
  }

  /** What the last event of `evs` adds to the meaning. */
  function Step(evs: seq<TimedMus>, v0: seq<byte>): (r: seq<Timed>)
    requires ValidVolumes(v0) && evs != [] && ValidEvent(evs[|evs| - 1].ev)
    ensures 1 <= |r| <= 2
    ensures forall k :: 0 <= k < |r| ==> r[k].time == evs[|evs| - 1].time
    ensures forall k :: 0 <= k < |r| ==> (r[k].ev.EndOfTrack? <==> evs[|evs| - 1].ev.ScoreEnd? && k == |r| - 1)
  {
    var e := evs[|evs| - 1];
    Announce(FirstUses(evs[..|evs| - 1]), e.ev.ch, e.time) + [Timed(e.time, Rendered(evs, v0))]
  }

  /** The meaning of a score: every event rendered at its own time, each new channel announced. */
  function Translate(evs: seq<TimedMus>, v0: seq<byte>): seq<Timed>
    requires ValidVolumes(v0) && ValidScore(evs)
  {
    if evs == [] then []
    else
      Translate(evs[..|evs| - 1], v0) + Step(evs, v0)
  }

  /** One MIDI event for each MUS event and one for each channel used, none lost and none added. */
  lemma {:induction false} TranslateCount(evs: seq<TimedMus>, v0: seq<byte>)
    requires ValidVolumes(v0) && ValidScore(evs)
    ensures |Translate(evs, v0)| == |evs| + |FirstUses(evs)|
  {
    if evs != [] {
      TranslateCount(evs[..|evs| - 1], v0);
    }
  }

  lemma TranslateStep(evs: seq<TimedMus>, v0: seq<byte>) returns (before: seq<Timed>, step: seq<Timed>)
    requires ValidVolumes(v0) && ValidScore(evs) && evs != []
    ensures before == Translate(evs[..|evs| - 1], v0)
    ensures Translate(evs, v0) == before + step
    ensures step != [] && forall k :: 0 <= k < |step| ==> step[k].time == evs[|evs| - 1].time
    ensures forall k :: 0 <= k < |step| ==>
              (step[k].ev.EndOfTrack? <==> evs[|evs| - 1].ev.ScoreEnd? && k == |step| - 1)
  {
    before := Translate(evs[..|evs| - 1], v0);
    step := Step(evs, v0);
  }

  lemma AppendInOrder(out: seq<Timed>, more: seq<Timed>, t: nat, from: nat)
    requires InOrder(out, from) && LastTime(out, from) <= t
    requires more != [] && forall k :: 0 <= k < |more| ==> more[k].time == t
    ensures InOrder(out + more, from) && LastTime(out + more, from) == t
  {
    var all := out + more;
    forall k | 0 <= k < |all| ensures TimeBefore(all, k, from) <= all[k].time {
      if k < |out| {
        assert TimeBefore(out, k, from) <= out[k].time;
      }
    }
  }

  /** A meaning keeps the order and the last time of its score. */
  lemma {:induction false} TranslateInOrder(evs: seq<TimedMus>, v0: seq<byte>, from: nat)
    requires ValidVolumes(v0) && ValidScore(evs) && Ordered(evs, from)
    ensures LastTime(Translate(evs, v0), from) == Before(evs, |evs|, from)
    ensures InOrder(Translate(evs, v0), from)
  {
    if evs != [] {
      FrontShape(evs, from);
      TranslateInOrder(evs[..|evs| - 1], v0, from);
      var before, step := TranslateStep(evs, v0);
      AppendInOrder(before, step, evs[|evs| - 1].time, from);
    }
  }

  lemma {:induction false} TranslateNoEnd(evs: seq<TimedMus>, v0: seq<byte>)
    requires ValidVolumes(v0) && ValidScore(evs)
    requires forall k :: 0 <= k < |evs| ==> !evs[k].ev.ScoreEnd?
    ensures var out := Translate(evs, v0);
            forall k :: 0 <= k < |out| ==> !out[k].ev.EndOfTrack?
  {
    if evs != [] {
      TranslateNoEnd(evs[..|evs| - 1], v0);
      var before, step := TranslateStep(evs, v0);
      assert forall k :: 0 <= k < |step| ==> !step[k].ev.EndOfTrack?;
    }
  }

  lemma EndIsLast(before: seq<Timed>, step: seq<Timed>)
    requires forall k :: 0 <= k < |before| ==> !before[k].ev.EndOfTrack?
    requires step != [] && forall k :: 0 <= k < |step| ==> (step[k].ev.EndOfTrack? <==> k == |step| - 1)
    ensures var out := before + step;
            forall k :: 0 <= k < |out| ==> (out[k].ev.EndOfTrack? <==> k == |out| - 1)
  {
    var out := before + step;
    forall k | 0 <= k < |out| ensures out[k].ev.EndOfTrack? <==> k == |out| - 1 {
      if k >= |before| {
        assert out[k] == step[k - |before|];
      }
    }
  }

  lemma TranslateEnds(evs: seq<TimedMus>, v0: seq<byte>)
    requires ValidVolumes(v0) && ValidScore(evs) && EndsOnce(evs)
    ensures var out := Translate(evs, v0);
            out != [] && forall k :: 0 <= k < |out| ==> (out[k].ev.EndOfTrack? <==> k == |out| - 1)
  {
    var front := evs[..|evs| - 1];
    assert forall k :: 0 <= k < |front| ==> front[k] == evs[k] && !front[k].ev.ScoreEnd?;
    TranslateNoEnd(front, v0);
    var before, step := TranslateStep(evs, v0);
    EndIsLast(before, step);
  }

  /** The meaning of a complete score is a well-formed track. */
  lemma TranslateWellFormed(evs: seq<TimedMus>, v0: seq<byte>, from: nat)
    requires ValidVolumes(v0) && ValidScore(evs) && Ordered(evs, from) && EndsOnce(evs)
    ensures WellFormed(Translate(evs, v0), from)
  {
    TranslateInOrder(evs, v0, from);
    TranslateEnds(evs, v0);
  }

  /** Every delay of the score fits the target format. */
  predicate DelaysFit(evs: seq<TimedMus>, from: nat) {
    forall k :: 0 <= k < |evs| ==> evs[k].time - Before(evs, k, from) < VLQ_LIMIT
  }

  lemma AppendFits(out: seq<Timed>, more: seq<Timed>, t: nat, from: nat)
    requires more != [] && forall k :: 0 <= k < |more| ==> more[k].time == t
    ensures GapsFit(out + more, from) <==> GapsFit(out, from) && t - LastTime(out, from) < VLQ_LIMIT
  {
    var all := out + more;
    if GapsFit(all, from) {
      assert all[|out|].time - TimeBefore(all, |out|, from) < VLQ_LIMIT;
      forall k | 0 <= k < |out| ensures out[k].time - TimeBefore(out, k, from) < VLQ_LIMIT {
        assert all[k].time - TimeBefore(all, k, from) < VLQ_LIMIT;
      }
    }
    if GapsFit(out, from) && t - LastTime(out, from) < VLQ_LIMIT {
      forall k | 0 <= k < |all| ensures all[k].time - TimeBefore(all, k, from) < VLQ_LIMIT {
        if k < |out| {
          assert out[k].time - TimeBefore(out, k, from) < VLQ_LIMIT;
        }
      }
    }
  }

  lemma DelaysFitFront(evs: seq<TimedMus>, from: nat)
    requires evs != []
    ensures var n := |evs| - 1;
            DelaysFit(evs, from) <==>
            DelaysFit(evs[..n], from) && evs[n].time - Before(evs, n, from) < VLQ_LIMIT
  {
    var n := |evs| - 1;
    var front := evs[..n];
    assert forall k :: 0 <= k <= n ==> Before(evs, k, from) == Before(front, k, from);
    if DelaysFit(evs, from) {
      forall k | 0 <= k < n ensures front[k].time - Before(front, k, from) < VLQ_LIMIT {
        assert evs[k].time - Before(evs, k, from) < VLQ_LIMIT;
      }
    }
    if DelaysFit(front, from) && evs[n].time - Before(evs, n, from) < VLQ_LIMIT {
      forall k | 0 <= k < |evs| ensures evs[k].time - Before(evs, k, from) < VLQ_LIMIT {
        assert k < n ==> front[k].time - Before(front, k, from) < VLQ_LIMIT;
      }
    }
  }

  /** The delays of a meaning fit exactly when those of its score do. */
  lemma {:induction false} GapsFollowScore(evs: seq<TimedMus>, v0: seq<byte>, from: nat)
    requires ValidVolumes(v0) && ValidScore(evs) && Ordered(evs, from)
    ensures GapsFit(Translate(evs, v0), from) == DelaysFit(evs, from)
  {
    if evs != [] {
      var front := evs[..|evs| - 1];
      FrontShape(evs, from);
      GapsFollowScore(front, v0, from);
      TranslateInOrder(front, v0, from);
      var before, step := TranslateStep(evs, v0);
      AppendFits(before, step, evs[|evs| - 1].time, from);
      DelaysFitFront(evs, from);
      assert GapsFit(before, from) == DelaysFit(front, from);
      assert GapsFit(before + step, from) == DelaysFit(evs, from);
    }
  }
}
