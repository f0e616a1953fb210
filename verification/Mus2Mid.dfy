/** The MUS to MIDI converter of mus2mid.c, over in-memory streams. */
module Mus2Mid {
  import opened Common
  import opened MidiFormat
  import opened MusScore
  import M = MemIo

  /** The 22 bytes written first: the track length is patched in when the track is complete. */
  const PLACEHOLDER: seq<byte> := FILE_HEADER + [0, 0, 0, 0]

  // ----- the work register of WriteTime

  /** The register shifted left by eight bits, its top byte lost, with a byte put in below. */
  function Shift(buffer: uint32, b: byte): uint32 {
    (buffer as int) % 0x100_0000 * 256 + b
  }

  /** An `unsigned int` counter `n` steps on. */
  function Count(counter: uint32, n: nat): uint32 {
    (counter + n) % 0x1_0000_0000
  }

  lemma CountMore(counter: uint32, n: nat, m: nat)
    ensures Count(Count(counter, n), m) == Count(counter, n + m)
  {
  }

  /** The packing loop: seven-bit groups pushed into a 32-bit register, lowest group deepest. */
  function Pack(time: nat, buffer: uint32): uint32 {
    if time == 0 then buffer else Pack(time / 128, Shift(buffer, 128 + time % 128))
  }

  /** The unpacking loop: bytes off the low end of the register until one has its top bit clear. */
  function Unpack(buffer: uint32): seq<byte> {
    [buffer % 256] + (if buffer % 256 >= 128 then Unpack(buffer / 256) else [])
  }

  /** The value leaves the top `k` bytes of the register clear. */
  predicate Leaves(buffer: uint32, k: nat) {
    match k
    case 0 => true
    case 1 => buffer < 0x100_0000
    case 2 => buffer < 0x1_0000
    case 3 => buffer < 0x100
    case _ => buffer == 0
  }

  lemma ShiftParts(buffer: uint32, g: byte)
    requires buffer < 0x100_0000
    ensures Shift(buffer, g) == buffer * 256 + g
    ensures Shift(buffer, g) % 256 == g && Shift(buffer, g) / 256 == buffer
  {
  }

  lemma ShiftLeaves(buffer: uint32, k: nat, g: byte)
    requires 0 < k <= 4 && Leaves(buffer, k) && g >= 128
    ensures Leaves(Shift(buffer, g), k - 1)
    ensures Unpack(Shift(buffer, g)) == [g] + Unpack(buffer)
  {
    ShiftParts(buffer, g);
    match k case 1 => case 2 => case 3 => case 4 =>
  }

  lemma {:induction false} PackGroups(n: nat, buffer: uint32, k: nat)
    requires |Groups(n)| <= k <= 4 && Leaves(buffer, k)
    ensures Unpack(Pack(n, buffer)) == Groups(n) + Unpack(buffer)
  {
    var out := Unpack(buffer);
    if n == 0 {
      assert Groups(n) + out == out;
    } else {
      var g: byte, rest := 128 + n % 128, Groups(n / 128);
      ShiftLeaves(buffer, k, g);
      PackGroups(n / 128, Shift(buffer, g), k - 1);
      Regroup(rest, [g], out);
    }
  }

  /** The two values differ only in the top `k` bytes of the register. */
  predicate AgreeBelow(a: uint32, b: uint32, k: nat) {
    match k
    case 0 => a == b
    case 1 => (a - b) % 0x100_0000 == 0
    case 2 => (a - b) % 0x1_0000 == 0
    case 3 => (a - b) % 0x100 == 0
    case _ => true
  }

  lemma LowBytesAgree(a: uint32, b: uint32, k: nat)
    requires 0 < k && AgreeBelow(a, b, k)
    ensures var d := a % 0x100_0000 - b % 0x100_0000;
            (k == 1 ==> d == 0) && (k == 2 ==> d % 0x1_0000 == 0) && (k == 3 ==> d % 0x100 == 0)
  {
    var d, q := a % 0x100_0000 - b % 0x100_0000, a / 0x100_0000 - b / 0x100_0000;
    assert d == a - b - 0x100_0000 * q;
    match k
    case 1 => assert d == 0x100_0000 * ((a - b) / 0x100_0000 - q);
    case 2 => assert d == 0x1_0000 * ((a - b) / 0x1_0000 - 0x100 * q);
    case 3 => assert d == 0x100 * ((a - b) / 0x100 - 0x1_0000 * q);
    case _ =>
  }

  lemma MultipleOf(d: int, k: nat)
    requires (k == 1 ==> d == 0) && (k == 2 ==> d % 0x1_0000 == 0) && (k == 3 ==> d % 0x100 == 0)
    ensures k == 1 ==> 256 * d == 0
    ensures k == 2 ==> 256 * d % 0x100_0000 == 0
    ensures k == 3 ==> 256 * d % 0x1_0000 == 0
    ensures 256 * d % 0x100 == 0
  {
    match k
    case 2 => assert 256 * d == 0x100_0000 * (d / 0x1_0000);
    case 3 => assert 256 * d == 0x1_0000 * (d / 0x100);
    case _ =>
  }

  lemma ShiftBoth(a: uint32, b: uint32, g: byte)
    ensures Shift(a, g) - Shift(b, g) == 256 * (a % 0x100_0000 - b % 0x100_0000)
  {
  }

  lemma ShiftAgrees(a: uint32, b: uint32, k: nat, g: byte)
    requires 0 < k && AgreeBelow(a, b, k)
    ensures AgreeBelow(Shift(a, g), Shift(b, g), k - 1)
  {
    ShiftBoth(a, b, g);
    LowBytesAgree(a, b, k);
    MultipleOf(a % 0x100_0000 - b % 0x100_0000, k);
  }

  /** The groups still to come push out the top bytes of the register, so those do not matter. */
  lemma {:induction false} PackForgets(n: nat, a: uint32, b: uint32, k: nat)
    requires |Groups(n)| == k <= 4 && AgreeBelow(a, b, k)
    ensures Pack(n, a) == Pack(n, b)
  {
    if n != 0 {
      ShiftAgrees(a, b, k, 128 + n % 128);
      PackForgets(n / 128, Shift(a, 128 + n % 128), Shift(b, 128 + n % 128), k - 1);
    }
  }

  lemma UnpackByte(low: byte)
    requires low < 128
    ensures Unpack(low) == [low]
  {
    assert low % 256 == low;
  }

  lemma ByteLeaves(low: byte)
    ensures Leaves(low, 3) && Leaves(0, 4)
  {
  }

  /** Three groups leave room for the byte below them. */
  lemma PackShort(n: nat, low: byte)
    requires |Groups(n)| <= 3 && low < 128
    ensures Unpack(Pack(n, low)) == Groups(n) + [low]
  {
    UnpackByte(low);
    ByteLeaves(low);
    PackGroups(n, low, 3);
  }

  /** Four groups fill the register: the byte below them is gone, a zero stands in for it. */
  lemma PackLong(n: nat, low: byte)
    requires |Groups(n)| == 4
    ensures Unpack(Pack(n, low)) == Groups(n) + [0]
  {
    UnpackByte(0);
    ByteLeaves(0);
    PackForgets(n, low, 0, 4);
    PackGroups(n, 0, 4);
  }

  /** The register yields the delay's groups, most significant first. */
  lemma PackUnpack(t: uint32)
    ensures Unpack(Pack(t / 128, t % 128)) == TimeBytes(t)
  {
    var n, low := t / 128, t % 128;
    GroupsLength(n);
    if t < VLQ_LIMIT {
      PackShort(n, low);
    } else {
      PackLong(n, low);
    }
  }

  function Remaining(more: bool, buffer: uint32): seq<byte> {
    if more then Unpack(buffer) else []
  }

  lemma RemainingFirst(sent: seq<byte>, buffer: uint32)
    ensures var b := buffer % 256;
            sent + Remaining(true, buffer) == (sent + [b]) + Remaining(b >= 128, buffer / 256)
  {
    var more := Remaining(buffer % 256 >= 128, buffer / 256);
    assert sent + ([buffer % 256] + more) == (sent + [buffer % 256]) + more;
  }

  // ----- the channel map

  /** The channel map holds the MIDI channel of every channel used so far and -1 elsewhere. */
  ghost predicate Reflects(cmap: seq<int>, uses: seq<nat>) {
    && |cmap| == 16
    && ValidUses(uses)
    && forall c: Channel :: cmap[c] == if c in uses then Allocated(IndexOf(uses, c)) else -1
  }

  lemma IndexOfAt(uses: seq<nat>, k: nat)
    requires ValidUses(uses) && k < |uses|
    ensures IndexOf(uses, uses[k]) == k
  {
  }

  lemma ReflectsUse(cmap: seq<int>, uses: seq<nat>, ch: Channel)
    requires Reflects(cmap, uses) && ch != PERCUSSION && ch !in uses
    ensures Reflects(cmap[ch := Allocated(|uses|)], Use(uses, ch))
    ensures MidiChannel(Use(uses, ch), ch) == Allocated(|uses|)
  {
    var more := uses + [ch];
    IndexOfAt(more, |uses|);
    forall c: Channel | c in uses
      ensures IndexOf(more, c) == IndexOf(uses, c)
    {
      IndexOfPrefix(uses, [ch], c);
    }
  }

  /** The highest number in a channel map is the last one handed out. */
  lemma HighestChannel(cmap: seq<int>, uses: seq<nat>, max: int)
    requires Reflects(cmap, uses) && max >= -1
    requires forall j :: 0 <= j < 16 ==> cmap[j] <= max
    requires max == -1 || exists j :: 0 <= j < 16 && cmap[j] == max
    ensures max == if uses == [] then -1 else Allocated(|uses| - 1)
  {
    if uses == [] {
      assert forall c: Channel :: cmap[c] == -1;
    } else {
      IndexOfAt(uses, |uses| - 1);
      assert cmap[uses[|uses| - 1]] == Allocated(|uses| - 1);
      var j :| 0 <= j < 16 && cmap[j] == max;
      assert j in uses && IndexOf(uses, j) <= |uses| - 1;
    }
  }

  // ----- cached volumes

  /** The volume table holds the volume in force on every channel used, and its initial value elsewhere. */
  ghost predicate VolumesHold(volumes: seq<byte>, evs: seq<TimedMus>, v0: seq<byte>)
    requires ValidVolumes(v0)
  {
    var uses := FirstUses(evs);
    && |volumes| == 16
    && (forall ch: Channel :: ch == PERCUSSION || ch in uses ==>
          volumes[MidiChannel(uses, ch)] == Volume(evs, ch, v0))
    && (forall k :: |uses| <= k < 15 ==> volumes[Allocated(k)] == v0[Allocated(k)])
  }

  function NextVolumes(volumes: seq<byte>, evs: seq<TimedMus>): seq<byte>
    requires |volumes| == 16 && evs != []
  {
    var ev := evs[|evs| - 1].ev;
    if ev.PressKey? && ev.volume.Some?
    then volumes[MidiChannel(FirstUses(evs), ev.ch) := ev.volume.value % 128]
    else volumes
  }

  lemma {:induction false} UnusedHasNoVolume(evs: seq<TimedMus>, ch: Channel)
    requires ch != PERCUSSION && ch !in FirstUses(evs)
    ensures LastVolume(evs, ch) == None
  {
    if evs != [] {
      var n := |evs| - 1;
      assert FirstUses(evs) == Use(FirstUses(evs[..n]), evs[n].ev.ch);
      UnusedHasNoVolume(evs[..n], ch);
    }
  }

  /** The volume that an event sets on its channel. */
  function SetVolume(e: MusEvent): Option<byte> {
    if e.PressKey? then e.volume else None
  }

  lemma LastVolumeNext(evs: seq<TimedMus>, e: TimedMus, ch: Channel)
    ensures LastVolume(evs + [e], ch) ==
            if e.ev.ch == ch && SetVolume(e.ev).Some? then SetVolume(e.ev) else LastVolume(evs, ch)
  {
    var all := evs + [e];
    assert all[..|all| - 1] == evs && all[|all| - 1] == e;
  }

  /** A channel in use keeps its MIDI channel, and its volume unless the event sets it. */
  lemma OldVolumeNext(evs: seq<TimedMus>, e: TimedMus, v0: seq<byte>, ch: Channel)
    requires ValidVolumes(v0) && (ch == PERCUSSION || ch in FirstUses(evs))
    ensures ch == PERCUSSION || ch in FirstUses(evs + [e])
    ensures MidiChannel(FirstUses(evs + [e]), ch) == MidiChannel(FirstUses(evs), ch)
    ensures Volume(evs + [e], ch, v0) ==
            if e.ev.ch == ch && SetVolume(e.ev).Some? then SetVolume(e.ev).value % 128 else Volume(evs, ch, v0)
  {
    MidiChannelStable(evs, [e], ch);
    LastVolumeNext(evs, e, ch);
  }

  /** A channel that the event uses first has the first free MIDI channel, at the volume that has. */
  lemma NewVolumeNext(evs: seq<TimedMus>, e: TimedMus, v0: seq<byte>)
    requires ValidVolumes(v0) && e.ev.ch != PERCUSSION && e.ev.ch !in FirstUses(evs)
    ensures FirstUses(evs + [e]) == FirstUses(evs) + [e.ev.ch] && |FirstUses(evs)| < PERCUSSION
    ensures MidiChannel(FirstUses(evs + [e]), e.ev.ch) == Allocated(|FirstUses(evs)|)
    ensures Volume(evs + [e], e.ev.ch, v0) ==
            if SetVolume(e.ev).Some? then SetVolume(e.ev).value % 128 else v0[Allocated(|FirstUses(evs)|)]
  {
    var all := evs + [e];
    assert all[..|all| - 1] == evs && all[|all| - 1] == e;
    IndexOfAt(FirstUses(all), |FirstUses(evs)|);
    FewUses(FirstUses(all));
    UnusedHasNoVolume(evs, e.ev.ch);
    LastVolumeNext(evs, e, e.ev.ch);
  }

  lemma UsesNext(evs: seq<TimedMus>, e: TimedMus)
    ensures FirstUses(evs + [e]) == Use(FirstUses(evs), e.ev.ch)
  {
    var all := evs + [e];
    assert all[..|all| - 1] == evs && all[|all| - 1] == e;
  }

  lemma UsedIsFirstUseOf(evs: seq<TimedMus>, e: TimedMus)
    ensures e.ev.ch == PERCUSSION || e.ev.ch in FirstUses(evs + [e])
  {
    UsesNext(evs, e);
  }

  /** What a key press puts in the table. */
  lemma NextVolumesAt(volumes: seq<byte>, evs: seq<TimedMus>, e: TimedMus, m: Channel)
    requires |volumes| == 16 && (e.ev.ch == PERCUSSION || e.ev.ch in FirstUses(evs + [e]))
    ensures NextVolumes(volumes, evs + [e])[m] ==
            if SetVolume(e.ev).Some? && m == MidiChannel(FirstUses(evs + [e]), e.ev.ch)
            then SetVolume(e.ev).value % 128 else volumes[m]
  {
    assert (evs + [e])[|evs|] == e;
  }

  lemma VolumeNext(volumes: seq<byte>, evs: seq<TimedMus>, e: TimedMus, v0: seq<byte>, ch: Channel)
    requires ValidVolumes(v0) && VolumesHold(volumes, evs, v0)
    requires ch == PERCUSSION || ch in FirstUses(evs + [e])
    ensures NextVolumes(volumes, evs + [e])[MidiChannel(FirstUses(evs + [e]), ch)] == Volume(evs + [e], ch, v0)
  {
    var m := MidiChannel(FirstUses(evs + [e]), ch);
    UsedIsFirstUseOf(evs, e);
    NextVolumesAt(volumes, evs, e, m);
    MidiChannelInjective(FirstUses(evs + [e]), ch, e.ev.ch);
    if ch == PERCUSSION || ch in FirstUses(evs) {
      OldVolumeNext(evs, e, v0, ch);
    } else {
      UsesNext(evs, e);
      NewVolumeNext(evs, e, v0);
    }
  }

  lemma VolumesNext(volumes: seq<byte>, evs: seq<TimedMus>, e: TimedMus, v0: seq<byte>)
    requires ValidVolumes(v0) && VolumesHold(volumes, evs, v0)
    ensures VolumesHold(NextVolumes(volumes, evs + [e]), evs + [e], v0)
  {
    var all := evs + [e];
    assert all[..|all| - 1] == evs && all[|all| - 1] == e;
    forall ch: Channel | ch == PERCUSSION || ch in FirstUses(all)
      ensures NextVolumes(volumes, all)[MidiChannel(FirstUses(all), ch)] == Volume(all, ch, v0)
    {
      VolumeNext(volumes, evs, e, v0, ch);
    }
  }

  // ----- the converter

  /** Only a key press is rendered with the volume of its channel. */
  lemma RenderIgnores(ev: MusEvent, m: Channel, volume: Data)
    requires ValidEvent(ev)
    ensures !ev.PressKey? ==> Render(ev, m, volume) == Render(ev, m, 0)
  {
  }

  /** A system event as a controller change. */
  lemma SystemControl(m: Channel, ch: Channel, number: byte)
    requires 10 <= number <= 14
    ensures CONTROLLERS[number] % 128 == CONTROLLERS[number]
    ensures Render(SystemEvent(ch, number), m, 0) == Control(m, CONTROLLERS[number], 0)
  {
  }

  /** A pitch wheel byte as a bend. */
  lemma WheelBend(key: byte)
    ensures ToInt16((key as int) * 64) == (key as int) * 64 && ToInt16((key as int) * 64) % 0x4000 == (key as int) * 64
  {
  }

  /** The books between events: the track is the encoding of the events, the length counter counts
      its bytes, and the queued delay is the time since the last event. */
  ghost predicate Booked(track: seq<byte>, tracksize: uint32, queued: uint32, events: seq<Timed>, now: nat) {
    && track == EncodeTrack(Deltas(events, 0))
    && tracksize == Count(0, |track|)
    && queued == (now - LastTime(events, 0)) % 0x1_0000_0000
  }

  lemma BytesCounted(track: seq<byte>, time: seq<byte>, status: byte, data: seq<byte>)
    ensures Count(Count(0, |track|), |time| + 1 + |data|) == Count(0, |track + time + [status] + data|)
  {
    CountMore(0, |track|, |time| + 1 + |data|);
  }

  lemma SameBytes(track: seq<byte>, time: seq<byte>, status: byte, data: seq<byte>)
    ensures track + time + [status] + data == track + (time + ([status] + data))
  {
  }

  /** The bytes of a message extend the track by its event. */
  lemma TrackGrows(track: seq<byte>, queued: uint32, events: seq<Timed>, now: nat,
                   ev: MidiEvent, status: byte, data: seq<byte>)
    requires track == EncodeTrack(Deltas(events, 0)) && queued == (now - LastTime(events, 0)) % 0x1_0000_0000
    requires EventBytes(ev) == [status] + data
    ensures track + TimeBytes(queued) + [status] + data == EncodeTrack(Deltas(events + [Timed(now, ev)], 0))
    ensures LastTime(events + [Timed(now, ev)], 0) == now
  {
    var d := Delta(queued, ev);
    var after := track + TimeBytes(queued) + [status] + data;
    DeltasAppend(events, 0, Timed(now, ev));
    EncodeAppend(Deltas(events, 0), d);
    SameBytes(track, TimeBytes(queued), status, data);
    assert after == track + DeltaBytes(d);
  }

  /** A message sent at the current time keeps the books. */
  lemma MessageBooked(track: seq<byte>, tracksize: uint32, queued: uint32, events: seq<Timed>, now: nat,
                      ev: MidiEvent, status: byte, data: seq<byte>)
    requires Booked(track, tracksize, queued, events, now)
    requires EventBytes(ev) == [status] + data
    ensures Booked(track + TimeBytes(queued) + [status] + data,
                   Count(tracksize, |TimeBytes(queued)| + 1 + |data|), 0, events + [Timed(now, ev)], now)
  {
    TrackGrows(track, queued, events, now, ev, status, data);
    BytesCounted(track, TimeBytes(queued), status, data);
  }

  lemma BendBytes(wheel: int16)
    ensures wheel % 0x4000 % 128 == wheel % 128
    ensures wheel % 0x4000 / 128 == wheel / 128 % 128
  {
    var hi := wheel / 0x4000;
    var lo := wheel % 0x4000;
    assert wheel == 128 * (128 * hi) + lo;
    assert wheel / 128 == 128 * hi + lo / 128;
  }

  /** The score events `evs` have been converted to `events`. */
  ghost predicate Converted(cmap: seq<int>, volumes: seq<byte>, events: seq<Timed>,
                            evs: seq<TimedMus>, v0: seq<byte>) {
    && ValidVolumes(v0) && ValidScore(evs)
    && events == Translate(evs, v0)
    && Reflects(cmap, FirstUses(evs))
    && VolumesHold(volumes, evs, v0)
  }

  /** Besides, the MIDI channel `m` of the next event has been looked up, and announced if new. */
  ghost predicate LookedUp(cmap: seq<int>, volumes: seq<byte>, events: seq<Timed>,
                           evs: seq<TimedMus>, v0: seq<byte>, now: nat, ch: Channel, m: Channel) {
    && ValidVolumes(v0) && ValidScore(evs)
    && events == Translate(evs, v0) + Announce(FirstUses(evs), ch, now)
    && Reflects(cmap, Use(FirstUses(evs), ch))
    && VolumesHold(volumes, evs, v0)
    && m == MidiChannel(Use(FirstUses(evs), ch), ch)
  }

  /** The volume table after an event on MIDI channel `m`. */
  function AfterPress(volumes: seq<byte>, ev: MusEvent, m: Channel): (r: seq<byte>)
    requires ValidVolumes(volumes)
    ensures ValidVolumes(r)
  {
    if ev.PressKey? && ev.volume.Some? then volumes[m := ev.volume.value % 128] else volumes
  }

  lemma EventRendered(volumes: seq<byte>, evs: seq<TimedMus>, t: TimedMus, v0: seq<byte>, m: Channel)
    requires ValidVolumes(v0) && ValidVolumes(volumes) && ValidScore(evs) && ValidEvent(t.ev)
    requires VolumesHold(volumes, evs + [t], v0)
    requires FirstUses(evs + [t]) == Use(FirstUses(evs), t.ev.ch)
    requires m == MidiChannel(Use(FirstUses(evs), t.ev.ch), t.ev.ch)
    ensures ValidScore(evs + [t])
    ensures Translate(evs + [t], v0) ==
            Translate(evs, v0) + Announce(FirstUses(evs), t.ev.ch, t.time)
            + [Timed(t.time, Render(t.ev, m, volumes[m]))]
  {
    var all := evs + [t];
    assert all[..|all| - 1] == evs && all[|all| - 1] == t;
    assert Rendered(all, v0) == Render(t.ev, m, volumes[m]);
    var before, step := TranslateStep(all, v0);
    var announce := Announce(FirstUses(evs), t.ev.ch, t.time);
    var last := [Timed(t.time, Rendered(all, v0))];
    assert Step(all, v0) == announce + last;
    assert before + (announce + last) == before + announce + last;
  }

  /** Rendering the looked-up event completes its conversion. */
  lemma EventConverted(cmap: seq<int>, volumes: seq<byte>, events: seq<Timed>, evs: seq<TimedMus>,
                       v0: seq<byte>, now: nat, m: Channel, e: MusEvent)
    requires LookedUp(cmap, volumes, events, evs, v0, now, e.ch, m) && ValidEvent(e)
    requires ValidVolumes(volumes)
    ensures var volumes' := AfterPress(volumes, e, m);
            Converted(cmap, volumes', events + [Timed(now, Render(e, m, volumes'[m]))],
                      evs + [TimedMus(now, e)], v0)
  {
    var t := TimedMus(now, e);
    UsesNext(evs, t);
    VolumesNext(volumes, evs, t, v0);
    assert NextVolumes(volumes, evs + [t]) == AfterPress(volumes, e, m);
    EventRendered(AfterPress(volumes, e, m), evs, t, v0, m);
  }

  lemma DelayQueued(gap: int, d: nat)
    ensures Count(gap % 0x1_0000_0000, d % 0x1_0000_0000) == (gap + d) % 0x1_0000_0000
  {
  }

  lemma Wraps(x: nat, k: nat, y: nat)
    requires y == x + k * 0x1_0000_0000
    ensures y % 0x1_0000_0000 == x % 0x1_0000_0000
  {
  }

  lemma DelayStep(acc: nat, g: nat)
    ensures (acc % 0x1_0000_0000 * 128 + g) % 0x1_0000_0000 == (acc * 128 + g) % 0x1_0000_0000
  {
    Wraps(acc % 0x1_0000_0000 * 128 + g, acc / 0x1_0000_0000 * 128, acc * 128 + g);
  }

  lemma StartConverted(cmap: seq<int>, v0: seq<byte>)
    requires Reflects(cmap, []) && ValidVolumes(v0)
    ensures Converted(cmap, v0, [], [], v0)
  {
  }

  /** The track length as the converter splits it into bytes. */
  function SizeBytes(n: uint32): (r: seq<byte>)
    ensures r == BigEndian32(n)
  {
    assert n / 0x100 / 0x100 == n / 0x1_0000;
    assert n / 0x1_0000 / 0x100 == n / 0x100_0000;
    [n / 0x100_0000 % 256, n / 0x1_0000 % 256, n / 0x100 % 256, n % 256]
  }

  lemma Replaced(head: seq<byte>, hole: seq<byte>, data: seq<byte>, tail: seq<byte>)
    requires |hole| == |data|
    requires 0 < |hole| && |head + hole + tail| < 0x1_0000_0000
    ensures var s := M.Stream(head + hole + tail, |head + hole + tail|);
            var t := M.AfterSeek(s, |head|, M.SeekSet);
            t.pos == |head| && M.AfterWrite(t, data).bytes == head + data + tail
  {
    var s := head + hole + tail;
    assert s[..|head|] == head && s[|head| + |hole|..] == tail;
  }

  /** Seeking to the placeholder and writing the size there completes the file. */
  lemma Patched(track: seq<byte>)
    requires 22 + |track| < 0x1_0000_0000
    ensures var s := M.Stream(PLACEHOLDER + track, 22 + |track|);
            var t := M.AfterSeek(s, 18, M.SeekSet);
            && t.pos == 18
            && M.AfterWrite(t, SizeBytes(Count(0, |track|))).bytes == MidiFile(track)
  {
    var n: uint32 := |track|;
    assert Count(0, |track|) == n;
    Replaced(FILE_HEADER, [0, 0, 0, 0], SizeBytes(n), track);
  }

  /** The end marker completes the meaning of the score. */
  lemma ScoreClosed(before: seq<Timed>, score: seq<TimedMus>, v0: seq<byte>, now: nat)
    requires ValidVolumes(v0) && score != []
    requires var front, t := score[..|score| - 1], score[|score| - 1];
             && ValidScore(front) && t.ev.ScoreEnd? && t.time == now
             && before == Translate(front, v0) + Announce(FirstUses(front), t.ev.ch, now)
    ensures ValidScore(score)
    ensures before + [Timed(now, EndOfTrack)] == Translate(score, v0)
  {
    var front, t := score[..|score| - 1], score[|score| - 1];
    assert score == front + [t] && score[|score| - 1] == t;
    var announce := Announce(FirstUses(front), t.ev.ch, now);
    assert Rendered(score, v0) == EndOfTrack;
    assert Step(score, v0) == announce + [Timed(now, EndOfTrack)];
    assert Translate(front, v0) + (announce + [Timed(now, EndOfTrack)])
        == before + [Timed(now, EndOfTrack)];
  }

  /** The file written for a score reads as its meaning. */
  predicate Means(score: seq<TimedMus>, v0: seq<byte>)
    requires ValidVolumes(v0) && ValidScore(score)
  {
    var song := Translate(score, v0);
    var track := EncodeTrack(Deltas(song, 0));
    |track| < 0x1_0000_0000 && DecodeFile(MidiFile(track)) == Some(Song(0, 1, 70, song))
  }

  /** A written file means its score exactly when every delay of the score fits the format. */
  lemma SongDecodes(lump: seq<byte>, v0: seq<byte>, from: nat)
    requires ValidVolumes(v0) && ParseLump(lump, from).Some?
    requires |EncodeTrack(Deltas(Translate(ParseLump(lump, from).value, v0), 0))| < 0x1_0000_0000
    ensures Means(ParseLump(lump, from).value, v0) <==> DelaysFit(ParseLump(lump, from).value, 0)
  {
    var score := ParseLump(lump, from).value;
    assert Ordered(score, 0) by {
      forall k | 0 <= k < |score| ensures Before(score, k, 0) <= score[k].time {
        assert Before(score, k, from) <= score[k].time;
      }
    }
    TranslateWellFormed(score, v0, 0);
    GapsFollowScore(score, v0, 0);
    FileRoundTrip(Translate(score, v0));
  }

  lemma {:induction false} TrackLength(ds: seq<Delta>)
    ensures |EncodeTrack(ds)| <= 8 * |ds|
  {
    if ds != [] {
      GroupsLength(ds[0].dt / 128);
      TrackLength(ds[1..]);
    }
  }

  lemma {:induction false} ScoreLength(s: seq<byte>, i: nat, now: nat)
    requires i <= |s| && ParseScore(s, i, now).Some?
    ensures |ParseScore(s, i, now).value| <= |s| - i
    decreases |s| - i
  {
    var p := ParseEvent(s, i).value;
    if !p.ev.ScoreEnd? {
      assert ParseNext(s, p, now).Some?;
      if p.last {
        DelayedIs(s, p.next, now);
        var d := ParseDelay(s, p.next, 0).value;
        ScoreLength(s, d.1, now + d.0);
      } else {
        ScoreLength(s, p.next, now);
      }
    }
  }

  lemma LumpLength(lump: seq<byte>, from: nat)
    requires ParseLump(lump, from).Some?
    ensures |ParseLump(lump, from).value| <= |lump|
  {
    ScoreLength(lump, lump[6] + (lump[7] as int) * 256, from);
  }

  lemma SongLength(score: seq<TimedMus>, v0: seq<byte>)
    requires ValidVolumes(v0) && ValidScore(score)
    ensures |EncodeTrack(Deltas(Translate(score, v0), 0))| <= 8 * (|score| + PERCUSSION)
  {
    TranslateCount(score, v0);
    FewUses(FirstUses(score));
    TrackLength(Deltas(Translate(score, v0), 0));
  }

  /** The file of every lump up to half a gigabyte stays below 4 GiB. */
  lemma OutputFits(lump: seq<byte>, v0: seq<byte>, from: nat)
    requires ValidVolumes(v0) && ParseLump(lump, from).Some? && |lump| <= 0x1FFF_FFE0
    ensures 22 + |EncodeTrack(Deltas(Translate(ParseLump(lump, from).value, v0), 0))| < 0x1_0000_0000
  {
    LumpLength(lump, from);
    SongLength(ParseLump(lump, from).value, v0);
  }

  /** A lump that releases a key and ends 2^28 ticks later. */
  const SLOW_LUMP: seq<byte> :=
    [0x4D, 0x55, 0x53, 0x1A, 8, 0, 14, 0, 1, 0, 0, 0, 0, 0] + [0x80, 0x3C, 0x81, 0x80, 0x80, 0x80, 0x00, 0x60]

  const SLOW_SCORE: seq<TimedMus> := [TimedMus(0, ReleaseKey(0, 0x3C)), TimedMus(0x1000_0000, ScoreEnd(0))]

  lemma SlowDelay(s: seq<byte>, i: nat)
    requires |s| >= i + 5 && s[i..i + 5] == [0x81, 0x80, 0x80, 0x80, 0x00]
    ensures ParseDelay(s, i, 0) == Some((0x1000_0000, i + 5))
  {
    assert s[i] == s[i..i + 5][0] && s[i + 1] == s[i..i + 5][1] && s[i + 2] == s[i..i + 5][2];
    assert s[i + 3] == s[i..i + 5][3] && s[i + 4] == s[i..i + 5][4];
    assert ParseDelay(s, i + 4, 0x20_0000) == Some((0x1000_0000, i + 5));
    assert ParseDelay(s, i + 2, 0x80) == ParseDelay(s, i + 3, 0x4000) == ParseDelay(s, i + 4, 0x20_0000);
    assert ParseDelay(s, i, 0) == ParseDelay(s, i + 1, 1) == ParseDelay(s, i + 2, 0x80);
  }

  lemma SlowParses()
    ensures ParseLump(SLOW_LUMP, 0) == Some(SLOW_SCORE)
  {
    var s := SLOW_LUMP;
    assert s[..4] == [0x4D, 0x55, 0x53, 0x1A];
    SlowDelay(s, 16);
    DelayedIs(s, 16, 0);
    assert ParseEvent(s, 21) == Some(Parsed(ScoreEnd(0), false, 22));
    assert ParseEvent(s, 14) == Some(Parsed(ReleaseKey(0, 0x3C), true, 16));
    assert ParseScore(s, 21, 0x1000_0000) == Some([SLOW_SCORE[1]]);
    assert ParseScore(s, 14, 0) == Some([SLOW_SCORE[0]] + [SLOW_SCORE[1]]);
    assert s[6] == 14 && s[7] == 0 && [SLOW_SCORE[0]] + [SLOW_SCORE[1]] == SLOW_SCORE;
  }

  /** It converts, but its delay does not fit, so the file does not mean its score. */
  lemma DelayTooLong(v0: seq<byte>)
    requires ValidVolumes(v0)
    ensures ParseLump(SLOW_LUMP, 0) == Some(SLOW_SCORE) && ValidScore(SLOW_SCORE) && !Means(SLOW_SCORE, v0)
  {
    SlowParses();
    assert SLOW_SCORE[1].time - Before(SLOW_SCORE, 1, 0) == VLQ_LIMIT;
    OutputFits(SLOW_LUMP, v0, 0);
    SongDecodes(SLOW_LUMP, v0, 0);
  }

  /** A lump parses as the score that its header points to. */
  lemma LumpIs(s: seq<byte>, now: nat)
    ensures ParseLump(s, now) ==
            if |s| >= 14 && s[..4] == [0x4D, 0x55, 0x53, 0x1A] && s[6] + (s[7] as int) * 256 < |s|
            then ParseScore(s, s[6] + (s[7] as int) * 256, now) else None
  {
  }

  /** The stream `f` reads the bytes `s`. */
  ghost predicate Feeds(f: M.MemFile, s: seq<byte>)
    reads f, f.buf
  {
    f.Valid() && f.mode.Read? && f.buf[..f.buflen] == s
  }

  /** A mem_fread of a single byte. */
  method ReadByte(f: M.MemFile, ghost s: seq<byte>) returns (n: int, b: byte)
    requires Feeds(f, s)
    modifies f`position
    ensures Feeds(f, s)
    ensures n == 1 <==> old(f.position) < |s|
    ensures n == 1 ==> f.position == old(f.position) + 1 && b == s[old(f.position)]
    ensures n != 1 ==> f.position == old(f.position)
  {
    b := 0;
    var data;
    n, data := f.Read(1, 1);
    if n == 1 {
      b := data[0];
    }
  }

  class Converter {
    // statics of the program, which outlive a conversion
    var queuedtime: uint32
    var tracksize: uint32
    const channelMap: array<int>
    const channelVelocities: array<byte>

    // what has been written to the track, as events and as bytes, and the current time
    ghost var events: seq<Timed>
    ghost var track: seq<byte>
    ghost var now: nat

    ghost predicate Valid()
      reads this, channelMap, channelVelocities
    {
      && channelMap.Length == 16
      && channelVelocities.Length == 16
      && channelMap as object != channelVelocities
      && ValidVolumes(channelVelocities[..])
    }

    /** The output stream holds the header and the track, as long as its 32-bit cursor can follow. */
    ghost predicate Streaming(o: M.MemFile)
      reads this`track, o, o.buf
    {
      && o.Valid() && o.mode.Write?
      && o.buflen >= 22
      && (22 + |track| < 0x1_0000_0000 ==> o.Model() == M.Stream(PLACEHOLDER + track, 22 + |track|))
    }

    ghost predicate Writing(o: M.MemFile)
      reads this, o, o.buf
    {
      Streaming(o) && Booked(track, tracksize, queuedtime, events, now)
    }

    constructor ()
      ensures Valid() && fresh(channelMap) && fresh(channelVelocities)
      ensures queuedtime == 0 && channelVelocities[..] == seq(16, _ => 127)
    {
      queuedtime := 0;
      tracksize := 0;
      channelMap := new int[16](_ => 0);
      channelVelocities := new byte[16](_ => 127);
      events, track, now := [], [], 0;
      new;
      assert channelVelocities[..] == seq(16, _ => 127);
    }

    /** A mem_fwrite of a single byte. */
    method PutByte(b: byte, o: M.MemFile) returns (failed: bool)
      requires Streaming(o)
      modifies `track, o, o.buf
      ensures Streaming(o) && !failed && track == old(track) + [b]
      ensures o.buf == old(o.buf) || fresh(o.buf)
    {
      ghost var s := o.Model();
      var n := o.Write([b], 1);
      track := track + [b];
      if 22 + |track| < 0x1_0000_0000 {
        assert M.AfterWrite(s, [b]).bytes == s.bytes + [b] == PLACEHOLDER + track;
      }
      failed := n != 1;
    }

    /** The second loop of WriteTime: the register goes out a byte at a time. */
    method WriteRegister(register: uint32, o: M.MemFile) returns (failed: bool)
      requires Streaming(o)
      modifies `track, `tracksize, `queuedtime, o, o.buf
      ensures Streaming(o) && !failed
      ensures o.buf == old(o.buf) || fresh(o.buf)
      ensures track == old(track) + Unpack(register)
      ensures tracksize == Count(old(tracksize), |Unpack(register)|)
      ensures queuedtime == 0
    {
      var buffer := register;
      var more := true;
      ghost var target := track + Unpack(register);
      while more
        invariant Streaming(o)
        invariant o.buf == old(o.buf) || fresh(o.buf)
        invariant |old(track)| <= |track|
        invariant track + Remaining(more, buffer) == target
        invariant tracksize == Count(old(tracksize), |track| - |old(track)|)
        invariant !more ==> queuedtime == 0
        decreases more, buffer
      {
        var writeval: byte := buffer % 256;
        RemainingFirst(track, buffer);
        CountMore(old(tracksize), |track| - |old(track)|, 1);
        failed := PutByte(writeval, o);
        if failed {
          return;
        }
        tracksize := Count(tracksize, 1);
        if writeval >= 128 {
          buffer := buffer / 256;
        } else {
          queuedtime := 0;
          more := false;
        }
      }
      assert track + [] == track;
      failed := false;
    }

    /** The delay as a variable-length quantity; see `MidiFormat.TimeBytes` for delays that do not fit. */
    method WriteTime(time: uint32, o: M.MemFile) returns (failed: bool)
      requires Streaming(o)
      modifies `track, `tracksize, `queuedtime, o, o.buf
      ensures Streaming(o) && !failed
      ensures o.buf == old(o.buf) || fresh(o.buf)
      ensures track == old(track) + TimeBytes(time)
      ensures tracksize == Count(old(tracksize), |TimeBytes(time)|)
      ensures queuedtime == 0
    {
      var buffer: uint32 := time % 128;
      var t := time / 128;
      while t != 0
        invariant t >= 0 && Pack(t, buffer) == Pack(time / 128, time % 128)
      {
        buffer := Shift(buffer, 128 + t % 128);
        t := t / 128;
      }
      PackUnpack(time);
      failed := WriteRegister(buffer, o);
    }

    /** The data bytes of a message, each with its own mem_fwrite. */
    method PutBytes(data: seq<byte>, o: M.MemFile) returns (failed: bool)
      requires Streaming(o)
      modifies `track, o, o.buf
      ensures Streaming(o) && !failed && track == old(track) + data
      ensures o.buf == old(o.buf) || fresh(o.buf)
    {
      var i := 0;
      failed := false;
      while i < |data|
        invariant 0 <= i <= |data|
        invariant Streaming(o) && !failed
        invariant o.buf == old(o.buf) || fresh(o.buf)
        invariant track == old(track) + data[..i]
      {
        failed := PutByte(data[i], o);
        if failed {
          return;
        }
        assert data[..i + 1] == data[..i] + [data[i]];
        i := i + 1;
      }
      assert data[..i] == data;
    }

    /** What the event writers share: the queued delay, the status byte, the data bytes. */
    method Send(status: byte, data: seq<byte>, o: M.MemFile) returns (failed: bool)
      requires Streaming(o)
      modifies `track, `tracksize, `queuedtime, o, o.buf
      ensures Streaming(o) && !failed && queuedtime == 0
      ensures o.buf == old(o.buf) || fresh(o.buf)
      ensures track == old(track) + TimeBytes(old(queuedtime)) + [status] + data
      ensures tracksize == Count(old(tracksize), |TimeBytes(old(queuedtime))| + 1 + |data|)
    {
      CountMore(tracksize, |TimeBytes(queuedtime)|, 1 + |data|);
      failed := WriteTime(queuedtime, o);
      if failed {
        return;
      }
      failed := PutByte(status, o);
      if failed {
        return;
      }
      failed := PutBytes(data, o);
      if failed {
        return;
      }
      tracksize := Count(tracksize, 1 + |data|);
    }

    method WriteMessage(status: byte, data: seq<byte>, o: M.MemFile, ghost ev: MidiEvent) returns (failed: bool)
      requires Writing(o) && EventBytes(ev) == [status] + data
      modifies `track, `tracksize, `queuedtime, `events, o, o.buf
      ensures Writing(o) && !failed && queuedtime == 0
      ensures o.buf == old(o.buf) || fresh(o.buf)
      ensures events == old(events) + [Timed(now, ev)]
    {
      MessageBooked(track, tracksize, queuedtime, events, now, ev, status, data);
      failed := Send(status, data, o);
      events := events + [Timed(now, ev)];
    }

    /** Key press. */
    method WritePressKey(channel: Channel, key: byte, velocity: byte, o: M.MemFile) returns (failed: bool)
      requires Writing(o)
      modifies `track, `tracksize, `queuedtime, `events, o, o.buf
      ensures Writing(o) && !failed
      ensures o.buf == old(o.buf) || fresh(o.buf)
      ensures events == old(events) + [Timed(now, NoteOn(channel, key % 128, velocity % 128))]
    {
      failed := WriteMessage(0x90 + channel, [key % 128, velocity % 128], o,
                             NoteOn(channel, key % 128, velocity % 128));
    }

    /** Key release, always with velocity 0. */
    method WriteReleaseKey(channel: Channel, key: byte, o: M.MemFile) returns (failed: bool)
      requires Writing(o)
      modifies `track, `tracksize, `queuedtime, `events, o, o.buf
      ensures Writing(o) && !failed
      ensures o.buf == old(o.buf) || fresh(o.buf)
      ensures events == old(events) + [Timed(now, NoteOff(channel, key % 128, 0))]
    {
      failed := WriteMessage(0x80 + channel, [key % 128, 0], o, NoteOff(channel, key % 128, 0));
    }

    /** Pitch wheel, low seven bits first. */
    method WritePitchWheel(channel: Channel, wheel: int16, o: M.MemFile) returns (failed: bool)
      requires Writing(o)
      modifies `track, `tracksize, `queuedtime, `events, o, o.buf
      ensures Writing(o) && !failed
      ensures o.buf == old(o.buf) || fresh(o.buf)
      ensures events == old(events) + [Timed(now, PitchBend(channel, wheel % 0x4000))]
    {
      BendBytes(wheel);
      failed := WriteMessage(0xE0 + channel, [wheel % 128, wheel / 128 % 128], o,
                             PitchBend(channel, wheel % 0x4000));
    }

    /** Patch change. */
    method WriteChangePatch(channel: Channel, patch: byte, o: M.MemFile) returns (failed: bool)
      requires Writing(o)
      modifies `track, `tracksize, `queuedtime, `events, o, o.buf
      ensures Writing(o) && !failed
      ensures o.buf == old(o.buf) || fresh(o.buf)
      ensures events == old(events) + [Timed(now, Program(channel, patch % 128))]
    {
      failed := WriteMessage(0xC0 + channel, [patch % 128], o, Program(channel, patch % 128));
    }

    /** Controller change; a value with its top bit set is cut to 127. */
    method WriteChangeControllerValued(channel: Channel, control: byte, value: byte, o: M.MemFile)
      returns (failed: bool)
      requires Writing(o)
      modifies `track, `tracksize, `queuedtime, `events, o, o.buf
      ensures Writing(o) && !failed
      ensures o.buf == old(o.buf) || fresh(o.buf)
      ensures events == old(events) +
                        [Timed(now, Control(channel, control % 128, if value < 128 then value else 127))]
    {
      var working := value;
      if working >= 128 {
        working := 127;
      }
      failed := WriteMessage(0xB0 + channel, [control % 128, working], o,
                             Control(channel, control % 128, working));
    }

    /** Controller change without a value. */
    method WriteChangeControllerValueless(channel: Channel, control: byte, o: M.MemFile) returns (failed: bool)
      requires Writing(o)
      modifies `track, `tracksize, `queuedtime, `events, o, o.buf
      ensures Writing(o) && !failed
      ensures o.buf == old(o.buf) || fresh(o.buf)
      ensures events == old(events) + [Timed(now, Control(channel, control % 128, 0))]
    {
      failed := WriteChangeControllerValued(channel, control, 0, o);
    }

    /** End of track. */
    method WriteEndTrack(o: M.MemFile) returns (failed: bool)
      requires Writing(o)
      modifies `track, `tracksize, `queuedtime, `events, o, o.buf
      ensures Writing(o) && !failed && queuedtime == 0
      ensures o.buf == old(o.buf) || fresh(o.buf)
      ensures events == old(events) + [Timed(now, EndOfTrack)]
    {
      failed := WriteMessage(0xFF, [0x2F, 0x00], o, EndOfTrack);
    }

    /** The next free channel: one above the highest in use, skipping percussion. */
    method AllocateMIDIChannel(ghost uses: seq<nat>) returns (result: int)
      requires Valid() && Reflects(channelMap[..], uses)
      ensures result == Allocated(|uses|)
    {
      var max := -1;
      var i := 0;
      while i < 16
        invariant 0 <= i <= 16 && max >= -1
        invariant forall j :: 0 <= j < i ==> channelMap[j] <= max
        invariant max == -1 || exists j :: 0 <= j < i && channelMap[j] == max
        decreases 16 - i
      {
        if channelMap[i] > max {
          max := channelMap[i];
        }
        i := i + 1;
      }
      HighestChannel(channelMap[..], uses, max);
      result := max + 1;
      if result == 9 {
        result := result + 1;
      }
    }

    /** The MIDI channel of a MUS channel; a new channel is announced with "all notes off". */
    method GetMIDIChannel(ch: Channel, o: M.MemFile, ghost uses: seq<nat>) returns (m: Channel)
      requires Valid() && o.buf as object != channelMap
      requires Writing(o) && Reflects(channelMap[..], uses)
      modifies channelMap, `track, `tracksize, `queuedtime, `events, o, o.buf
      ensures Writing(o)
      ensures o.buf == old(o.buf) || fresh(o.buf)
      ensures Reflects(channelMap[..], Use(uses, ch)) && m == MidiChannel(Use(uses, ch), ch)
      ensures events == old(events) + Announce(uses, ch, now)
    {
      if ch == 15 {
        m := 9;
      } else {
        if channelMap[ch] == -1 {
          ghost var cmap := channelMap[..];
          var free := AllocateMIDIChannel(uses);
          ReflectsUse(cmap, uses, ch);
          FewUses(Use(uses, ch));
          channelMap[ch] := free;
          assert channelMap[..] == cmap[ch := free];
          m := free;
          var ignored := WriteChangeControllerValueless(m, 0x7B, o);
          assert channelMap[..] == cmap[ch := free];
        } else {
          assert ch in uses;
          assert channelMap[ch] == channelMap[..][ch] == MidiChannel(uses, ch);
        }
        m := channelMap[ch];
      }
    }

    /** The input is a stream opened for reading, and no two buffers are the same. */
    ghost predicate Apart(f: M.MemFile, o: M.MemFile)
      reads f, o
    {
      && f.mode.Read? && o.mode.Write?
      && f.buf != o.buf
      && channelVelocities != f.buf && channelVelocities != o.buf
      && channelMap as object != f.buf && channelMap as object != o.buf
    }

    /** mus_releasekey. */
    method ConvertRelease(m: Channel, f: M.MemFile, o: M.MemFile, ghost s: seq<byte>, ghost ch: Channel)
      returns (failed: bool)
      requires Valid() && Writing(o) && Feeds(f, s) && Apart(f, o)
      modifies `track, `tracksize, `queuedtime, `events, o, o.buf, f`position
      ensures Valid() && Writing(o) && Feeds(f, s) && (o.buf == old(o.buf) || fresh(o.buf))
      ensures failed <==> old(f.position) >= |s|
      ensures !failed ==>
                && f.position == old(f.position) + 1
                && events == old(events) + [Timed(now, Render(ReleaseKey(ch, s[old(f.position)]), m, 0))]
    {
      var n, key := ReadByte(f, s);
      if n != 1 {
        return true;
      }
      failed := WriteReleaseKey(m, key, o);
    }

    /** A key with its top bit set brings the volume of its channel. */
    method ReadVolume(key: byte, m: Channel, f: M.MemFile, ghost s: seq<byte>) returns (failed: bool)
      requires Valid() && Feeds(f, s) && f.buf != channelVelocities
      modifies channelVelocities, f`position
      ensures Valid() && Feeds(f, s)
      ensures failed <==> key >= 128 && old(f.position) >= |s|
      ensures key < 128 ==>
                f.position == old(f.position) && channelVelocities[..] == old(channelVelocities[..])
      ensures key >= 128 && !failed ==>
                && f.position == old(f.position) + 1
                && channelVelocities[..] == old(channelVelocities[..])[m := s[old(f.position)] % 128]
    {
      failed := false;
      if key >= 128 {
        var n, volume := ReadByte(f, s);
        if n != 1 {
          return true;
        }
        channelVelocities[m] := volume % 128;
      }
    }

    /** The bytes of a key press. */
    method ReadPress(m: Channel, f: M.MemFile, ghost s: seq<byte>) returns (failed: bool, key: byte)
      requires Valid() && Feeds(f, s) && f.buf != channelVelocities
      modifies channelVelocities, f`position
      ensures Valid() && Feeds(f, s)
      ensures var i := old(f.position);
              if i + 1 < |s| && s[i] >= 128 then
                && !failed && f.position == i + 2 && key == s[i]
                && channelVelocities[..] == old(channelVelocities[..])[m := s[i + 1] % 128]
              else if i < |s| && s[i] < 128 then
                && !failed && f.position == i + 1 && key == s[i]
                && channelVelocities[..] == old(channelVelocities[..])
              else failed
    {
      var n;
      n, key := ReadByte(f, s);
      if n != 1 {
        return true, 0;
      }
      failed := ReadVolume(key, m, f, s);
    }

    /** mus_presskey. */
    method ConvertPress(m: Channel, f: M.MemFile, o: M.MemFile, ghost s: seq<byte>, ghost ch: Channel)
      returns (failed: bool)
      requires Valid() && Writing(o) && Feeds(f, s) && Apart(f, o)
      modifies channelVelocities, `track, `tracksize, `queuedtime, `events, o, o.buf, f`position
      ensures Valid() && Writing(o) && Feeds(f, s) && (o.buf == old(o.buf) || fresh(o.buf))
      ensures var i := old(f.position);
              if i + 1 < |s| && s[i] >= 128 then
                && !failed && f.position == i + 2
                && channelVelocities[..] == old(channelVelocities[..])[m := s[i + 1] % 128]
                && events == old(events) + [Timed(now, NoteOn(m, s[i] % 128, s[i + 1] % 128))]
              else if i < |s| && s[i] < 128 then
                && !failed && f.position == i + 1
                && channelVelocities[..] == old(channelVelocities[..])
                && events == old(events) + [Timed(now, NoteOn(m, s[i] % 128, channelVelocities[m]))]
              else failed
    {
      var key;
      failed, key := ReadPress(m, f, s);
      if failed {
        return true;
      }
      ghost var volumes := channelVelocities[..];
      assert volumes[m] == channelVelocities[m] == channelVelocities[m] % 128;
      failed := WritePressKey(m, key, channelVelocities[m], o);
      assert channelVelocities[..] == volumes;
    }

    /** mus_pitchwheel: a missing byte is not reported here, and nothing is written. */
    method ConvertPitchWheel(m: Channel, f: M.MemFile, o: M.MemFile, ghost s: seq<byte>, ghost ch: Channel)
      returns (failed: bool)
      requires Valid() && Writing(o) && Feeds(f, s) && Apart(f, o)
      modifies `track, `tracksize, `queuedtime, `events, o, o.buf, f`position
      ensures Valid() && Writing(o) && Feeds(f, s) && (o.buf == old(o.buf) || fresh(o.buf))
      ensures !failed
      ensures old(f.position) >= |s| ==> f.position == old(f.position) && events == old(events)
      ensures old(f.position) < |s| ==>
                && f.position == old(f.position) + 1
                && events == old(events) + [Timed(now, Render(PitchWheel(ch, s[old(f.position)]), m, 0))]
    {
      var n, key := ReadByte(f, s);
      if n != 1 {
        return false;
      }
      WheelBend(key);
      failed := WritePitchWheel(m, ToInt16((key as int) * 64), o);
    }

    /** mus_systemevent. */
    method ConvertSystem(m: Channel, f: M.MemFile, o: M.MemFile, ghost s: seq<byte>, ghost ch: Channel)
      returns (failed: bool)
      requires Valid() && Writing(o) && Feeds(f, s) && Apart(f, o)
      modifies `track, `tracksize, `queuedtime, `events, o, o.buf, f`position
      ensures Valid() && Writing(o) && Feeds(f, s) && (o.buf == old(o.buf) || fresh(o.buf))
      ensures failed <==> !(old(f.position) < |s| && 10 <= s[old(f.position)] <= 14)
      ensures !failed ==>
                && f.position == old(f.position) + 1
                && events == old(events) + [Timed(now, Render(SystemEvent(ch, s[old(f.position)]), m, 0))]
    {
      var n, number := ReadByte(f, s);
      if n != 1 {
        return true;
      }
      if number < 10 || number > 14 {
        return true;
      }
      SystemControl(m, ch, number);
      failed := WriteChangeControllerValueless(m, CONTROLLERS[number], o);
    }

    /** Controller 0 is the patch; the others go through the controller table. */
    method WriteController(number: byte, m: Channel, value: byte, o: M.MemFile, ghost ch: Channel)
      returns (failed: bool)
      requires Writing(o)
      modifies `track, `tracksize, `queuedtime, `events, o, o.buf
      ensures Writing(o) && (o.buf == old(o.buf) || fresh(o.buf))
      ensures failed <==> number > 9
      ensures !failed ==>
                events == old(events) + [Timed(now, Render(ChangeController(ch, number, value), m, 0))]
    {
      if number == 0 {
        failed := WriteChangePatch(m, value, o);
      } else {
        if number < 1 || number > 9 {
          return true;
        }
        failed := WriteChangeControllerValued(m, CONTROLLERS[number], value, o);
      }
    }

    /** mus_changecontroller. */
    method ConvertController(m: Channel, f: M.MemFile, o: M.MemFile, ghost s: seq<byte>, ghost ch: Channel)
      returns (failed: bool)
      requires Valid() && Writing(o) && Feeds(f, s) && Apart(f, o)
      modifies `track, `tracksize, `queuedtime, `events, o, o.buf, f`position
      ensures Valid() && Writing(o) && Feeds(f, s) && (o.buf == old(o.buf) || fresh(o.buf))
      ensures var i := old(f.position);
              && (failed <==> !(i + 1 < |s| && s[i] <= 9))
              && (!failed ==>
                    && f.position == i + 2
                    && events == old(events)
                                 + [Timed(now, Render(ChangeController(ch, s[i], s[i + 1]), m, 0))])
    {
      var n, number := ReadByte(f, s);
      if n != 1 {
        return true;
      }
      var n', value := ReadByte(f, s);
      if n' != 1 {
        return true;
      }
      failed := WriteController(number, m, value, o, ch);
    }

    /** The switch on the event code; the descriptor at offset `at` has been read. */
    method ConvertBody(code: nat, m: Channel, f: M.MemFile, o: M.MemFile, ghost s: seq<byte>, ghost at: nat)
      returns (failed: bool, hitscoreend: bool)
      requires Valid() && Writing(o) && Feeds(f, s) && Apart(f, o)
      requires f.position == at + 1 && code == s[at] / 16 % 8
      modifies channelVelocities, `track, `tracksize, `queuedtime, `events, o, o.buf, f`position
      ensures Valid() && Writing(o) && Feeds(f, s) && (o.buf == old(o.buf) || fresh(o.buf))
      ensures var r := ParseEvent(s, at);
              if r.None? then failed || (!hitscoreend && f.position == |s|)
              else
                var ev := r.value.ev;
                && !failed && f.position == r.value.next && hitscoreend == ev.ScoreEnd?
                && channelVelocities[..] == AfterPress(old(channelVelocities[..]), ev, m)
                && events == if hitscoreend then old(events)
                             else old(events) + [Timed(now, Render(ev, m, channelVelocities[m]))]
    {
      ghost var ch: Channel := s[at] % 16;
      failed, hitscoreend := false, false;
      match code {
        case 0 => failed := ConvertRelease(m, f, o, s, ch);
        case 1 => failed := ConvertPress(m, f, o, s, ch);
        case 2 => failed := ConvertPitchWheel(m, f, o, s, ch);
        case 3 => failed := ConvertSystem(m, f, o, s, ch);
        case 4 => failed := ConvertController(m, f, o, s, ch);
        case 6 => hitscoreend := true;
        case _ => failed := true;
      }
      ghost var r := ParseEvent(s, at);
      if r.Some? {
        RenderIgnores(r.value.ev, m, channelVelocities[m]);
      }
    }

    /** State between two events; after a truncated pitch wheel event nothing is left to read. */
    ghost predicate Between(f: M.MemFile, o: M.MemFile, s: seq<byte>, evs: seq<TimedMus>,
                            v0: seq<byte>, truncated: bool)
      reads this, channelMap, channelVelocities, f, f.buf, o, o.buf
    {
      && Valid() && Writing(o) && Feeds(f, s) && Apart(f, o)
      && if truncated then f.position == |s|
         else Converted(channelMap[..], channelVelocities[..], events, evs, v0)
    }

    /** One event: descriptor, channel, body. A truncated pitch wheel event is the one malformed
        event that does not fail at once; it leaves nothing to read. */
    method ConvertEvent(f: M.MemFile, o: M.MemFile, ghost s: seq<byte>, ghost evs: seq<TimedMus>,
                        ghost v0: seq<byte>, ghost truncated: bool)
      returns (failed: bool, hitscoreend: bool, last: bool)
      requires Between(f, o, s, evs, v0, truncated)
      modifies channelMap, channelVelocities, `track, `tracksize, `queuedtime, `events, o, o.buf, f`position
      ensures Valid() && Writing(o) && Feeds(f, s) && (o.buf == old(o.buf) || fresh(o.buf))
      ensures !failed ==> old(f.position) < f.position
      ensures var r := ParseEvent(s, old(f.position));
              if r.None? then failed || (!hitscoreend && f.position == |s|)
              else
                var t := TimedMus(now, r.value.ev);
                && !failed && f.position == r.value.next
                && hitscoreend == t.ev.ScoreEnd? && last == r.value.last
                && if hitscoreend then events == Translate(evs, v0) + Announce(FirstUses(evs), t.ev.ch, now)
                   else Converted(channelMap[..], channelVelocities[..], events, evs + [t], v0)
    {
      ghost var at := f.position;
      var n, descriptor := ReadByte(f, s);
      if n != 1 {
        return true, false, false;
      }
      last := descriptor >= 128;
      var m := GetMIDIChannel(descriptor % 16, o, FirstUses(evs));
      ghost var cmap, volumes, announced := channelMap[..], channelVelocities[..], events;
      assert LookedUp(cmap, volumes, announced, evs, v0, now, descriptor % 16, m);
      failed, hitscoreend := ConvertBody(descriptor / 16 % 8, m, f, o, s, at);
      assert channelMap[..] == cmap;
      ghost var r := ParseEvent(s, at);
      if r.Some? && !hitscoreend {
        assert r.value.ev.ch == descriptor % 16;
        EventConverted(cmap, volumes, announced, evs, v0, now, m, r.value.ev);
      }
    }

    /** The delay after a group of events, accumulated modulo 2^32. */
    method ReadDelay(f: M.MemFile, ghost s: seq<byte>) returns (failed: bool, timedelay: uint32)
      requires Feeds(f, s)
      modifies f`position
      ensures Feeds(f, s)
      ensures var r := ParseDelay(s, old(f.position), 0);
              && (failed <==> r.None?)
              && (!failed ==> f.position == r.value.1 && timedelay == r.value.0 % 0x1_0000_0000)
    {
      ghost var acc: nat := 0;
      timedelay := 0;
      var more := true;
      while more
        invariant Feeds(f, s)
        invariant timedelay == acc % 0x1_0000_0000
        invariant ParseDelay(s, old(f.position), 0) ==
                  if more then ParseDelay(s, f.position, acc) else Some((acc, f.position))
        decreases more, f.buflen - f.position
      {
        var n, working := ReadByte(f, s);
        if n != 1 {
          return true, 0;
        }
        DelayStep(acc, working % 128);
        acc := acc * 128 + working % 128;
        timedelay := (timedelay * 128 + working % 128) % 0x1_0000_0000;
        more := working >= 128;
      }
      failed := false;
    }

    /** The lump header, read from a stream at its start. */
    method ReadMusHeader(f: M.MemFile, ghost s: seq<byte>) returns (ok: bool, id: seq<byte>, scorestart: nat)
      requires Feeds(f, s) && f.position == 0
      modifies f`position
      ensures Feeds(f, s)
      ensures ok <==> |s| >= 14
      ensures ok ==> id == s[..4] && scorestart == s[6] + (s[7] as int) * 256
    {
      scorestart := 0;
      var n: int;
      n, id := f.Read(1, 4);
      ok := n == 4;
      var field := 0;
      while ok && field < 5
        invariant 0 <= field <= 5
        invariant Feeds(f, s)
        invariant ok ==> f.position == 4 + 2 * field <= |s| && id == s[..4]
        invariant !ok ==> |s| < 14
        invariant ok && field >= 2 ==> scorestart == s[6] + (s[7] as int) * 256
        decreases ok, 5 - field
      {
        var short;
        n, short := f.Read(2, 1);
        ok := n == 1;
        if ok && field == 1 {
          scorestart := short[0] + (short[1] as int) * 256;
        }
        field := field + 1;
      }
    }

    /** State after the score end: its channel has been announced and the track is not yet closed. */
    ghost predicate AtEnd(o: M.MemFile, score: seq<TimedMus>, v0: seq<byte>)
      reads this, channelVelocities, channelMap, o, o.buf
    {
      && Valid() && Writing(o) && ValidVolumes(v0) && score != []
      && var front, t := score[..|score| - 1], score[|score| - 1];
         && ValidScore(front) && t.ev.ScoreEnd? && t.time == now
         && events == Translate(front, v0) + Announce(FirstUses(front), t.ev.ch, now)
    }

    /** The delay after a group of events is queued. */
    method QueueDelay(timedelay: uint32, ghost d: nat)
      requires Booked(track, tracksize, queuedtime, events, now) && timedelay == d % 0x1_0000_0000
      modifies `queuedtime, `now
      ensures Booked(track, tracksize, queuedtime, events, now) && now == old(now) + d
    {
      DelayQueued(now - LastTime(events, 0), d);
      queuedtime := Count(queuedtime, timedelay);
      now := now + d;
    }

    /** A group of events: up to the score end or the first event with a delay after it. */
    method ConvertGroup(f: M.MemFile, o: M.MemFile, ghost s: seq<byte>, ghost evs: seq<TimedMus>,
                        ghost v0: seq<byte>, ghost total: Option<seq<TimedMus>>)
      returns (failed: bool, hitscoreend: bool, ghost done: seq<TimedMus>, ghost truncated: bool)
      requires Between(f, o, s, evs, v0, false)
      requires total == Prepend(evs, ParseScore(s, f.position, now))
      modifies channelMap, channelVelocities, `track, `tracksize, `queuedtime, `events, o, o.buf, f`position
      ensures Valid() && (o.buf == old(o.buf) || fresh(o.buf))
      ensures failed ==> total == None
      ensures !failed && hitscoreend ==> total == Some(done) && AtEnd(o, done, v0)
      ensures !failed && !hitscoreend ==>
                && Between(f, o, s, done, v0, truncated)
                && old(f.position) < f.position
                && total == Prepend(done, ParseDelayed(s, f.position, now))
    {
      done, truncated := evs, false;
      hitscoreend := false;
      while !hitscoreend
        invariant o.buf == old(o.buf) || fresh(o.buf)
        invariant old(f.position) <= f.position
        invariant !hitscoreend ==> Between(f, o, s, done, v0, truncated)
        invariant !hitscoreend ==> total == Prepend(done, ParseScore(s, f.position, now))
        invariant hitscoreend ==> total == Some(done) && AtEnd(o, done, v0)
        decreases !hitscoreend, |s| - f.position
      {
        ghost var r := ParseEvent(s, f.position);
        var last: bool;
        failed, hitscoreend, last := ConvertEvent(f, o, s, done, v0, truncated);
        if failed {
          return;
        }
        if r.Some? {
          ghost var t := TimedMus(now, r.value.ev);
          PrependCons(done, t, ParseNext(s, r.value, now));
          assert (done + [t])[..|done|] == done;
          done := done + [t];
        } else {
          truncated := true;
        }
        if last {
          break;
        }
      }
      failed := false;
    }

    /** The delay after a group: time moves on by it, and what it leads to is parsed from there. */
    method PassDelay(f: M.MemFile, ghost s: seq<byte>) returns (failed: bool)
      requires Feeds(f, s) && Booked(track, tracksize, queuedtime, events, now)
      modifies `queuedtime, `now, f`position
      ensures Feeds(f, s) && (failed ==> ParseDelayed(s, old(f.position), old(now)) == None)
      ensures !failed ==>
                && Booked(track, tracksize, queuedtime, events, now) && old(f.position) < f.position
                && ParseDelayed(s, old(f.position), old(now)) == ParseScore(s, f.position, now)
    {
      ghost var at, was := f.position, now;
      ghost var r := ParseDelay(s, at, 0);
      var timedelay: uint32;
      failed, timedelay := ReadDelay(f, s);
      if failed {
        return;
      }
      QueueDelay(timedelay, r.value.0);
      DelayedIs(s, at, was);
    }

    /** The delay after a group moves the time on. */
    method ConvertDelay(f: M.MemFile, o: M.MemFile, ghost s: seq<byte>, ghost evs: seq<TimedMus>,
                        ghost v0: seq<byte>, ghost truncated: bool)
      returns (failed: bool)
      requires Between(f, o, s, evs, v0, truncated)
      modifies `queuedtime, `now, f`position
      ensures failed ==> ParseDelayed(s, old(f.position), old(now)) == None
      ensures !failed ==>
                && Between(f, o, s, evs, v0, false)
                && old(f.position) < f.position
                && ParseDelayed(s, old(f.position), old(now)) == ParseScore(s, f.position, now)
    {
      failed := PassDelay(f, s);
    }

    /** The body of the outer loop: a group of events and the delay after it. */
    method ConvertDelayedGroup(f: M.MemFile, o: M.MemFile, ghost s: seq<byte>, ghost evs: seq<TimedMus>,
                               ghost v0: seq<byte>, ghost total: Option<seq<TimedMus>>)
      returns (failed: bool, hitscoreend: bool, ghost done: seq<TimedMus>)
      requires Between(f, o, s, evs, v0, false)
      requires total == Prepend(evs, ParseScore(s, f.position, now))
      modifies channelMap, channelVelocities, `track, `tracksize, `queuedtime, `events, `now, o, o.buf, f`position
      ensures Valid() && (o.buf == old(o.buf) || fresh(o.buf))
      ensures failed ==> total == None
      ensures !failed && hitscoreend ==> total == Some(done) && AtEnd(o, done, v0)
      ensures !failed && !hitscoreend ==>
                && Between(f, o, s, done, v0, false)
                && old(f.position) < f.position
                && total == Prepend(done, ParseScore(s, f.position, now))
    {
      ghost var truncated;
      failed, hitscoreend, done, truncated := ConvertGroup(f, o, s, evs, v0, total);
      if failed {
        return;
      }
      if !hitscoreend {
        failed := ConvertDelay(f, o, s, done, v0, truncated);
      }
    }

    /** The whole score, up to its end event. */
    method ConvertScore(f: M.MemFile, o: M.MemFile, ghost s: seq<byte>, ghost v0: seq<byte>)
      returns (failed: bool, ghost score: seq<TimedMus>)
      requires Between(f, o, s, [], v0, false)
      modifies channelMap, channelVelocities, `track, `tracksize, `queuedtime, `events, `now, o, o.buf, f`position
      ensures Valid() && (o.buf == old(o.buf) || fresh(o.buf))
      ensures failed <==> ParseScore(s, old(f.position), old(now)) == None
      ensures !failed ==>
                ParseScore(s, old(f.position), old(now)) == Some(score) && AtEnd(o, score, v0)
    {
      ghost var total := ParseScore(s, f.position, now);
      assert total.Some? ==> [] + total.value == total.value;
      score := [];
      var hitscoreend := false;
      failed := false;
      while !hitscoreend
        invariant o.buf == old(o.buf) || fresh(o.buf)
        invariant !failed
        invariant !hitscoreend ==> Between(f, o, s, score, v0, false)
        invariant !hitscoreend ==> total == Prepend(score, ParseScore(s, f.position, now))
        invariant hitscoreend ==> total == Some(score) && AtEnd(o, score, v0)
        decreases !hitscoreend, |s| - f.position
      {
        failed, hitscoreend, score := ConvertDelayedGroup(f, o, s, score, v0, total);
        if failed {
          return;
        }
      }
    }

    /** Checks the lump header and moves to the score. */
    method FindScore(f: M.MemFile, ghost s: seq<byte>) returns (failed: bool)
      requires Feeds(f, s) && f.position == 0
      modifies f`position
      ensures Feeds(f, s)
      ensures !failed <==>
              && |s| >= 14 && s[..4] == [0x4D, 0x55, 0x53, 0x1A]
              && s[6] + (s[7] as int) * 256 < |s|
      ensures !failed ==> f.position == s[6] + (s[7] as int) * 256
    {
      var ok, id, scorestart := ReadMusHeader(f, s);
      if !ok {
        return true;
      }
      if id[0] != 0x4D || id[1] != 0x55 || id[2] != 0x53 || id[3] != 0x1A {
        return true;
      }
      assert id == [0x4D, 0x55, 0x53, 0x1A];
      var r := f.Seek(scorestart, M.SeekSet);
      failed := r != 0;
    }

    /** The track length goes into its placeholder. */
    method PatchTrackSize(o: M.MemFile) returns (failed: bool)
      requires Streaming(o) && tracksize == Count(0, |track|)
      modifies o, o.buf
      ensures o.Valid() && !failed
      ensures 22 + |track| < 0x1_0000_0000 ==> o.Model().bytes == MidiFile(track)
    {
      if 22 + |track| < 0x1_0000_0000 {
        Patched(track);
      }
      var r := o.Seek(18, M.SeekSet);
      if r != 0 {
        return true;
      }
      var n := o.Write(SizeBytes(tracksize), 4);
      failed := n != 4;
    }

    method InitChannelMap()
      requires Valid()
      modifies channelMap
      ensures Valid() && Reflects(channelMap[..], [])
    {
      var channel := 0;
      while channel < 16
        invariant 0 <= channel <= 16
        invariant forall c :: 0 <= c < channel ==> channelMap[c] == -1
      {
        channelMap[channel] := -1;
        channel := channel + 1;
      }
    }

    /** Writes the header and starts an empty track at the queued time. */
    method StartTrack(o: M.MemFile)
      requires o.Valid() && o.mode.Write? && o.Model() == M.Stream([], 0)
      modifies `track, `tracksize, `events, `now, o, o.buf
      ensures Writing(o) && (o.buf == old(o.buf) || fresh(o.buf))
      ensures events == [] && now == queuedtime
    {
      var ignored := o.Write(PLACEHOLDER, |PLACEHOLDER|);
      tracksize := 0;
      track, events, now := [], [], queuedtime;
      assert PLACEHOLDER + track == PLACEHOLDER;
    }

    /** Header, score and end marker, everything but the track length. */
    method ConvertTrack(f: M.MemFile, o: M.MemFile, ghost s: seq<byte>)
      returns (failed: bool, ghost score: seq<TimedMus>)
      requires Valid() && Feeds(f, s) && Apart(f, o)
      requires o.Valid() && o.Model() == M.Stream([], 0)
      requires Reflects(channelMap[..], [])
      modifies this, channelMap, channelVelocities, o, o.buf, f`position
      ensures Valid() && (o.buf == old(o.buf) || fresh(o.buf))
      ensures failed <==> ParseScore(s, old(f.position), old(queuedtime)) == None
      ensures !failed ==>
                && ParseScore(s, old(f.position), old(queuedtime)) == Some(score)
                && ValidScore(score) && Writing(o) && queuedtime == 0
                && events == Translate(score, old(channelVelocities[..]))
    {
      ghost var v0 := channelVelocities[..];
      StartTrack(o);
      StartConverted(channelMap[..], v0);
      failed, score := ConvertScore(f, o, s, v0);
      if failed {
        return;
      }
      ScoreClosed(events, score, v0, now);
      failed := WriteEndTrack(o);
    }

    /** Everything but the track length. */
    method ConvertBeforePatch(f: M.MemFile, o: M.MemFile) returns (failed: bool, ghost score: seq<TimedMus>)
      requires Valid() && f.Valid() && Apart(f, o) && f.position == 0
      requires o.Valid() && o.Model() == M.Stream([], 0)
      modifies this, channelMap, channelVelocities, o, o.buf, f`position
      ensures Valid() && (o.buf == old(o.buf) || fresh(o.buf))
      ensures ParseLump(old(f.Model().bytes), old(queuedtime)) == if failed then None else Some(score)
      ensures !failed ==>
                && Streaming(o) && queuedtime == 0 && tracksize == Count(0, |track|)
                && track == EncodeTrack(Deltas(Translate(score, old(channelVelocities[..])), 0))
    {
      ghost var s := f.Model().bytes;
      LumpIs(s, queuedtime);
      InitChannelMap();
      failed := FindScore(f, s);
      if failed {
        score := [];
        return;
      }
      failed, score := ConvertTrack(f, o, s);
    }

    /** The whole of mus2mid: header, score, track length. */
    method ConvertLump(f: M.MemFile, o: M.MemFile) returns (failed: bool, ghost score: seq<TimedMus>)
      requires Valid() && f.Valid() && Apart(f, o) && f.position == 0
      requires o.Valid() && o.Model() == M.Stream([], 0)
      modifies this, channelMap, channelVelocities, o, o.buf, f`position
      ensures Valid()
      ensures ParseLump(old(f.Model().bytes), old(queuedtime)) == if failed then None else Some(score)
      ensures !failed ==> queuedtime == 0 && tracksize == Count(0, |track|)
      ensures !failed ==> track == EncodeTrack(Deltas(Translate(score, old(channelVelocities[..])), 0))
      ensures !failed && 22 + |track| < 0x1_0000_0000 ==> o.Valid() && o.Model().bytes == MidiFile(track)
    {
      failed, score := ConvertBeforePatch(f, o);
      if failed {
        return;
      }
      failed := PatchTrackSize(o);
    }

    /** Converts a MUS lump. It fails exactly on lumps without a complete score. On success the
        output, as long as it stays below 4 GiB, is a MIDI file that a strict reader decodes to the
        meaning of the score exactly when every delay fits the format. */
    method Mus2Mid(f: M.MemFile, o: M.MemFile) returns (failed: bool, ghost score: seq<TimedMus>)
      requires Valid() && f.Valid() && Apart(f, o) && f.position == 0
      requires o.Valid() && o.Model() == M.Stream([], 0)
      modifies this, channelMap, channelVelocities, o, o.buf, f`position
      ensures Valid()
      ensures ParseLump(old(f.Model().bytes), old(queuedtime)) == if failed then None else Some(score)
      ensures !failed ==> queuedtime == 0 && tracksize == Count(0, |track|)
      ensures !failed ==> track == EncodeTrack(Deltas(Translate(score, old(channelVelocities[..])), 0))
      ensures !failed && 22 + |track| < 0x1_0000_0000 ==>
                && o.Valid() && o.Model().bytes == MidiFile(track)
                && (DecodeFile(o.Model().bytes) == Some(Song(0, 1, 70, Translate(score, old(channelVelocities[..]))))
                    <==> DelaysFit(score, 0))
    {
      ghost var s, v0, q0 := f.Model().bytes, channelVelocities[..], queuedtime;
      failed, score := ConvertLump(f, o);
      if !failed && 22 + |track| < 0x1_0000_0000 {
        SongDecodes(s, v0, q0);
      }
    }
  }
}
