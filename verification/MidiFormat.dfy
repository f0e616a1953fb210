/** Standard MIDI Files 1.0 as a reader sees them: variable-length quantities, a strict event
    decoder, and the bytes the converter produces for a timed event list. */
module MidiFormat {
  import opened Common

  type Channel = x: int | 0 <= x < 16
  type Data = x: int | 0 <= x < 128
  type Bend = x: int | 0 <= x < 0x4000

  datatype MidiEvent =
    | NoteOff(ch: Channel, key: Data, vel: Data)
    | NoteOn(ch: Channel, key: Data, vel: Data)
    | KeyPressure(ch: Channel, key: Data, pressure: Data)
    | Control(ch: Channel, ctl: Data, val: Data)
    | Program(ch: Channel, patch: Data)
    | ChannelPressure(ch: Channel, pressure: Data)
    | PitchBend(ch: Channel, bend: Bend)
    | EndOfTrack

  /** An event at an absolute time, and one after a delay that fits an `unsigned int`. */
  datatype Timed = Timed(time: nat, ev: MidiEvent)
  datatype Delta = Delta(dt: uint32, ev: MidiEvent)

  /** The largest delay the format can hold is one less than this. */
  const VLQ_LIMIT: nat := 0x1000_0000

  // ----- variable-length quantities

  /** Seven bits a byte, most significant first, every byte with its top bit set. */
  function Groups(n: nat): (s: seq<byte>) {
    if n == 0 then [] else Groups(n / 128) + [128 + n % 128]
  }

  /** The shortest encoding of a quantity. */
  function Vlq(t: nat): seq<byte> {
    Groups(t / 128) + [t % 128]
  }

  /** What the converter writes for a delay: from 2^28 on the lowest group does not fit its
      32-bit work register and a zero stands in for it. */
  function TimeBytes(t: uint32): seq<byte> {
    Groups(t / 128) + [if t < VLQ_LIMIT then t % 128 else 0]
  }

  /** Reads a quantity of at most `left` bytes off the front of `s`. */
  function DecodeVlq(s: seq<byte>, acc: nat, left: int): (r: Option<(nat, seq<byte>)>)
    ensures r.Some? ==> |r.value.1| < |s|
  {
    if left <= 0 || s == [] then None
    else if s[0] < 128 then Some((acc * 128 + s[0], s[1..]))
    else DecodeVlq(s[1..], acc * 128 + (s[0] - 128), left - 1)
  }

  lemma {:induction false} DecodeGroups(n: nat, tail: seq<byte>, left: int)
    ensures DecodeVlq(Groups(n) + tail, 0, left) == DecodeVlq(tail, n, left - |Groups(n)|)
  {
    if n == 0 {
      assert Groups(n) + tail == tail;
    } else {
      var last: byte := 128 + n % 128;
      assert Groups(n) + tail == Groups(n / 128) + ([last] + tail);
      DecodeGroups(n / 128, [last] + tail, left);
      assert ([last] + tail)[1..] == tail;
    }
  }

  lemma GroupsLength(n: nat)
    ensures n < 0x20_0000 <==> |Groups(n)| < 4
    ensures n < 0x1_0000_0000 / 128 ==> |Groups(n)| <= 4
  {
    assert |Groups(n)| < 4 <==> n / 128 / 128 / 128 == 0 by {
      if n >= 128 {
        assert Groups(n) == Groups(n / 128) + [128 + n % 128];
        if n / 128 >= 128 {
          assert |Groups(n / 128 / 128)| == |Groups(n)| - 2;
        }
      }
    }
  }

  /** A delay below 2^28 is written in the shortest form, whatever follows it is left unread, and
      a strict reader gets the delay back. */
  lemma TimeRoundTrip(t: uint32, rest: seq<byte>)
    requires t < VLQ_LIMIT
    ensures TimeBytes(t) == Vlq(t)
    ensures DecodeVlq(TimeBytes(t) + rest, 0, 4) == Some((t, rest))
  {
    var last: byte := t % 128;
    assert TimeBytes(t) + rest == Groups(t / 128) + ([last] + rest);
    DecodeGroups(t / 128, [last] + rest, 4);
    GroupsLength(t / 128);
    assert ([last] + rest)[1..] == rest;
  }

  /** From 2^28 on a strict reader refuses the delay, and a reader that allows a fifth byte gets it
      with its low seven bits cleared. */
  lemma TimeTooLong(t: uint32, rest: seq<byte>)
    requires t >= VLQ_LIMIT
    ensures DecodeVlq(TimeBytes(t) + rest, 0, 4) == None
    ensures DecodeVlq(TimeBytes(t) + rest, 0, 5) == Some((t - t % 128, rest))
    ensures |TimeBytes(t)| == 5
  {
    var tail: seq<byte> := [0] + rest;
    assert TimeBytes(t) + rest == Groups(t / 128) + tail;
    DecodeGroups(t / 128, tail, 4);
    DecodeGroups(t / 128, tail, 5);
    GroupsLength(t / 128);
    assert tail[1..] == rest;
  }

  lemma GroupsGrow(n: nat, g: nat)
    requires g < 128
    ensures |Groups(n * 128 + g)| <= |Groups(n)| + 1
  {
    if n * 128 + g != 0 {
      assert (n * 128 + g) / 128 == n;
    }
  }

  lemma {:induction false} ConsumedAtLeast(s: seq<byte>, acc: nat, left: int)
    requires DecodeVlq(s, acc, left).Some?
    ensures var (v, rest) := DecodeVlq(s, acc, left).value;
            |Vlq(v)| <= |Groups(acc)| + |s| - |rest|
    decreases |s|
  {
    if s[0] < 128 {
      assert (acc * 128 + s[0]) / 128 == acc;
    } else {
      GroupsGrow(acc, s[0] - 128);
      ConsumedAtLeast(s[1..], acc * 128 + (s[0] - 128), left - 1);
    }
  }

  /** No encoding that decodes to `v` is shorter than `Vlq(v)`. */
  lemma VlqIsShortest(s: seq<byte>, v: nat, left: int)
    requires DecodeVlq(s, 0, left) == Some((v, []))
    ensures |Vlq(v)| <= |s|
  {
    ConsumedAtLeast(s, 0, left);
  }

  // ----- events

  function EventBytes(ev: MidiEvent): (s: seq<byte>) {
    match ev
    case NoteOff(ch, key, vel) => [0x80 + ch, key, vel]
    case NoteOn(ch, key, vel) => [0x90 + ch, key, vel]
    case KeyPressure(ch, key, p) => [0xA0 + ch, key, p]
    case Control(ch, ctl, val) => [0xB0 + ch, ctl, val]
    case Program(ch, patch) => [0xC0 + ch, patch]
    case ChannelPressure(ch, p) => [0xD0 + ch, p]
    case PitchBend(ch, bend) => [0xE0 + ch, bend % 128, bend / 128]
    case EndOfTrack => [0xFF, 0x2F, 0x00]
  }

  predicate TwoData(s: seq<byte>) {
    |s| >= 3 && s[1] < 128 && s[2] < 128
  }

  /** The strict reader: every event carries its own status byte, and data bytes are below 0x80. */
  function DecodeEvent(s: seq<byte>): (r: Option<(MidiEvent, seq<byte>)>)
    ensures r.Some? ==> |r.value.1| < |s|
  {
    if s == [] || s[0] < 0x80 then None
    else if s[0] == 0xFF then
      if |s| >= 3 && s[1] == 0x2F && s[2] == 0 then Some((EndOfTrack, s[3..])) else None
    else
      var ch: Channel := s[0] % 16;
      match s[0] / 16
      case 8 => if TwoData(s) then Some((NoteOff(ch, s[1], s[2]), s[3..])) else None
      case 9 => if TwoData(s) then Some((NoteOn(ch, s[1], s[2]), s[3..])) else None
      case 10 => if TwoData(s) then Some((KeyPressure(ch, s[1], s[2]), s[3..])) else None
      case 11 => if TwoData(s) then Some((Control(ch, s[1], s[2]), s[3..])) else None
      case 12 => if |s| >= 2 && s[1] < 128 then Some((Program(ch, s[1]), s[2..])) else None
      case 13 => if |s| >= 2 && s[1] < 128 then Some((ChannelPressure(ch, s[1]), s[2..])) else None
      case 14 => if TwoData(s) then Some((PitchBend(ch, (s[2] as int) * 128 + s[1]), s[3..])) else None
      case _ => None
  }

  lemma EventRoundTrip(ev: MidiEvent, rest: seq<byte>)
    ensures DecodeEvent(EventBytes(ev) + rest) == Some((ev, rest))
  {
    var b := EventBytes(ev);
    assert (b + rest)[|b|..] == rest;
    assert forall k :: 0 <= k < |b| ==> (b + rest)[k] == b[k];
    assert !ev.EndOfTrack? ==> (b + rest)[0] / 16 == b[0] / 16 && b[0] % 16 == ev.ch;
  }

  // ----- tracks

  /** A track is read up to its end marker, which must be the last thing in it. */
  function DecodeTrack(s: seq<byte>, now: nat): (r: Option<seq<Timed>>)
    decreases |s|
  {
    match DecodeVlq(s, 0, 4)
    case None => None
    case Some((dt, afterTime)) =>
      match DecodeEvent(afterTime)
      case None => None
      case Some((ev, rest)) =>
        if ev.EndOfTrack? then (if rest == [] then Some([Timed(now + dt, ev)]) else None)
        else
          match DecodeTrack(rest, now + dt)
          case None => None
          case Some(evs) => Some([Timed(now + dt, ev)] + evs)
  }

  function DeltaBytes(d: Delta): seq<byte> {
    TimeBytes(d.dt) + EventBytes(d.ev)
  }

  function EncodeTrack(ds: seq<Delta>): seq<byte> {
    if ds == [] then [] else DeltaBytes(ds[0]) + EncodeTrack(ds[1..])
  }

  /** Delays between successive events, in `unsigned int` arithmetic. */
  function Deltas(evs: seq<Timed>, from: nat): (ds: seq<Delta>)
    ensures |ds| == |evs|
  {
    if evs == [] then []
    else [Delta((evs[0].time - from) % 0x1_0000_0000, evs[0].ev)] + Deltas(evs[1..], evs[0].time)
  }

  function LastTime(evs: seq<Timed>, from: nat): nat {
    if evs == [] then from else evs[|evs| - 1].time
  }

  lemma {:induction false} EncodeAppend(ds: seq<Delta>, d: Delta)
    ensures EncodeTrack(ds + [d]) == EncodeTrack(ds) + DeltaBytes(d)
  {
    if ds == [] {
      assert ds + [d] == [d] && [d][1..] == [];
      assert EncodeTrack([d]) == DeltaBytes(d) + [];
    } else {
      assert (ds + [d])[1..] == ds[1..] + [d];
      EncodeAppend(ds[1..], d);
    }
  }

  lemma {:induction false} DeltasAppend(evs: seq<Timed>, from: nat, e: Timed)
    ensures Deltas(evs + [e], from) ==
            Deltas(evs, from) + [Delta((e.time - LastTime(evs, from)) % 0x1_0000_0000, e.ev)]
    decreases |evs|
  {
    if evs == [] {
      assert evs + [e] == [e] && [e][1..] == [];
    } else {
      assert (evs + [e])[1..] == evs[1..] + [e];
      DeltasAppend(evs[1..], evs[0].time, e);
      assert LastTime(evs[1..], evs[0].time) == LastTime(evs, from);
    }
  }

  /** Time of the event before index `k`. */
  function TimeBefore(evs: seq<Timed>, k: nat, from: nat): nat
    requires k <= |evs|
  {
    if k == 0 then from else evs[k - 1].time
  }

  predicate InOrder(evs: seq<Timed>, from: nat) {
    forall k :: 0 <= k < |evs| ==> TimeBefore(evs, k, from) <= evs[k].time
  }

  /** Times never go back, and the end marker is the last event and only the last. */
  predicate WellFormed(evs: seq<Timed>, from: nat) {
    && evs != []
    && InOrder(evs, from)
    && forall k :: 0 <= k < |evs| ==> (evs[k].ev.EndOfTrack? <==> k == |evs| - 1)
  }

  /** Every delay fits the format. */
  predicate GapsFit(evs: seq<Timed>, from: nat) {
    forall k :: 0 <= k < |evs| ==> evs[k].time - TimeBefore(evs, k, from) < VLQ_LIMIT
  }

  lemma TailShape(evs: seq<Timed>, from: nat)
    requires |evs| > 1
    ensures WellFormed(evs, from) ==> WellFormed(evs[1..], evs[0].time)
    ensures GapsFit(evs, from) <==>
            evs[0].time - from < VLQ_LIMIT && GapsFit(evs[1..], evs[0].time)
  {
    var t := evs[1..];
    forall k | 0 <= k < |t|
      ensures t[k] == evs[k + 1] && TimeBefore(t, k, evs[0].time) == TimeBefore(evs, k + 1, from)
    {
    }
    if GapsFit(evs, from) {
      assert evs[0].time - TimeBefore(evs, 0, from) < VLQ_LIMIT;
      forall k | 0 <= k < |t| ensures t[k].time - TimeBefore(t, k, evs[0].time) < VLQ_LIMIT {
        assert evs[k + 1].time - TimeBefore(evs, k + 1, from) < VLQ_LIMIT;
      }
    }
    if evs[0].time - from < VLQ_LIMIT && GapsFit(t, evs[0].time) {
      forall k | 0 <= k < |evs| ensures evs[k].time - TimeBefore(evs, k, from) < VLQ_LIMIT {
        assert k > 0 ==> t[k - 1].time - TimeBefore(t, k - 1, evs[0].time) < VLQ_LIMIT;
      }
    }
  }

  /** What a strict reader makes of one written event and whatever follows it. */
  lemma DecodeStep(d: Delta, rest: seq<byte>, from: nat)
    ensures var e := Timed(from + d.dt, d.ev);
            DecodeTrack(DeltaBytes(d) + rest, from) ==
            if d.dt >= VLQ_LIMIT then None
            else if d.ev.EndOfTrack? then (if rest == [] then Some([e]) else None)
            else if DecodeTrack(rest, e.time).None? then None
            else Some([e] + DecodeTrack(rest, e.time).value)
  {
    assert DeltaBytes(d) + rest == TimeBytes(d.dt) + (EventBytes(d.ev) + rest);
    EventRoundTrip(d.ev, rest);
    if d.dt >= VLQ_LIMIT {
      TimeTooLong(d.dt, EventBytes(d.ev) + rest);
    } else {
      TimeRoundTrip(d.dt, EventBytes(d.ev) + rest);
    }
  }

  lemma ConsEqual(e: Timed, rest: seq<Timed>, evs: seq<Timed>)
    requires evs != []
    ensures [e] + rest == evs <==> e == evs[0] && rest == evs[1..]
  {
    assert ([e] + rest)[1..] == rest;
    assert evs == [evs[0]] + evs[1..];
  }

  lemma OneEventRoundTrip(e: Timed, from: nat)
    requires from <= e.time && e.ev.EndOfTrack?
    ensures DecodeTrack(EncodeTrack(Deltas([e], from)), from) == Some([e]) <==> e.time - from < VLQ_LIMIT
  {
    var d := Delta((e.time - from) % 0x1_0000_0000, e.ev);
    assert Deltas([e], from) == [d] + [];
    assert EncodeTrack([d]) == DeltaBytes(d) + [];
    DecodeStep(d, [], from);
  }

  lemma GapKept(from: nat, time: nat)
    requires from <= time
    ensures var dt := (time - from) % 0x1_0000_0000;
            dt < VLQ_LIMIT && from + dt == time <==> time - from < VLQ_LIMIT
  {
  }

  lemma TrackCons(evs: seq<Timed>, from: nat)
    requires evs != []
    ensures EncodeTrack(Deltas(evs, from)) ==
            DeltaBytes(Delta((evs[0].time - from) % 0x1_0000_0000, evs[0].ev))
            + EncodeTrack(Deltas(evs[1..], evs[0].time))
  {
    var ds := Deltas(evs, from);
    assert ds[1..] == Deltas(evs[1..], evs[0].time);
  }

  /** A first event that is not the last is recovered when its delay fits and the rest is recovered. */
  lemma ConsRoundTrip(evs: seq<Timed>, from: nat)
    requires |evs| > 1 && from <= evs[0].time && !evs[0].ev.EndOfTrack?
    ensures var rest := EncodeTrack(Deltas(evs[1..], evs[0].time));
            DecodeTrack(EncodeTrack(Deltas(evs, from)), from) == Some(evs) <==>
            evs[0].time - from < VLQ_LIMIT && DecodeTrack(rest, evs[0].time) == Some(evs[1..])
  {
    var d := Delta((evs[0].time - from) % 0x1_0000_0000, evs[0].ev);
    var rest := EncodeTrack(Deltas(evs[1..], evs[0].time));
    TrackCons(evs, from);
    DecodeStep(d, rest, from);
    var e := Timed(from + d.dt, d.ev);
    GapKept(from, evs[0].time);
    if DecodeTrack(rest, e.time).Some? {
      ConsEqual(e, DecodeTrack(rest, e.time).value, evs);
    }
  }

  /** A strict reader recovers a written track exactly when every delay fits the format. */
  lemma {:induction false} TrackRoundTrip(evs: seq<Timed>, from: nat)
    requires WellFormed(evs, from)
    ensures DecodeTrack(EncodeTrack(Deltas(evs, from)), from) == Some(evs) <==> GapsFit(evs, from)
    decreases |evs|
  {
    assert TimeBefore(evs, 0, from) <= evs[0].time;
    if |evs| == 1 {
      OneEventRoundTrip(evs[0], from);
      assert evs == [evs[0]];
    } else {
      TailShape(evs, from);
      TrackRoundTrip(evs[1..], evs[0].time);
      ConsRoundTrip(evs, from);
    }
  }

  // ----- files

  function BigEndian32(n: nat): (s: seq<byte>)
    requires n < 0x1_0000_0000
    ensures |s| == 4
  {
    var a, b, c := n / 0x100, n / 0x100 / 0x100, n / 0x100 / 0x100 / 0x100;
    [c, b % 0x100, a % 0x100, n % 0x100]
  }

  function ReadBigEndian32(s: seq<byte>): nat
    requires |s| == 4
  {
    (s[0] as int) * 0x100_0000 + (s[1] as int) * 0x1_0000 + (s[2] as int) * 0x100 + s[3]
  }

  lemma BigEndianRoundTrip(n: nat)
    requires n < 0x1_0000_0000
    ensures ReadBigEndian32(BigEndian32(n)) == n
  {
    var a := n / 0x100;
    var b := a / 0x100;
    assert n == 0x100 * a + n % 0x100 && a == 0x100 * b + a % 0x100 && b == 0x100 * (b / 0x100) + b % 0x100;
  }

  /** "MThd", length 6, format 0, one track, 70 ticks a beat, "MTrk". */
  const FILE_HEADER: seq<byte> :=
    [0x4D, 0x54, 0x68, 0x64, 0, 0, 0, 6, 0, 0, 0, 1, 0, 0x46, 0x4D, 0x54, 0x72, 0x6B]

  /** The file written for a track. */
  function MidiFile(track: seq<byte>): seq<byte>
    requires |track| < 0x1_0000_0000
  {
    FILE_HEADER + BigEndian32(|track|) + track
  }

  /** What a file holds: its format, how many tracks, the ticks of a beat, and the events of its track. */
  datatype Song = Song(format: nat, tracks: nat, ticksPerBeat: nat, events: seq<Timed>)

  function ReadBigEndian16(s: seq<byte>): nat
    requires |s| == 2
  {
    (s[0] as int) * 256 + s[1]
  }

  function Letter(c: char): byte {
    if c < 128 as char then c as int else 0
  }

  function Ascii(name: string): (s: seq<byte>)
    ensures |s| == |name|
  {
    seq(|name|, i requires 0 <= i < |name| => Letter(name[i]))
  }

  /** The chunk at the front of `s`, when it has that name and all of its data is there, and what follows it. */
  function ReadChunk(s: seq<byte>, name: string): (r: Option<(seq<byte>, seq<byte>)>)
    requires |name| == 4
  {
    if |s| < 8 || s[..4] != Ascii(name) || |s| - 8 < ReadBigEndian32(s[4..8]) then None
    else
      var end := 8 + ReadBigEndian32(s[4..8]);
      Some((s[8..end], s[end..]))
  }

  /** The song of a header of six bytes and a track. */
  function ReadSong(header: seq<byte>, track: seq<byte>): Option<Song> {
    if |header| != 6 then None
    else
      match DecodeTrack(track, 0)
      case None => None
      case Some(evs) =>
        Some(Song(ReadBigEndian16(header[..2]), ReadBigEndian16(header[2..4]), ReadBigEndian16(header[4..]), evs))
  }

  /** A strict reader of one-track files: a header chunk of six bytes, a track chunk, and nothing after it. */
  function DecodeFile(s: seq<byte>): Option<Song> {
    match ReadChunk(s, "MThd")
    case None => None
    case Some((header, rest)) =>
      match ReadChunk(rest, "MTrk")
      case None => None
      case Some((track, after)) => if after == [] then ReadSong(header, track) else None
  }

  lemma ChunkIsRead(name: string, data: seq<byte>, rest: seq<byte>, s: seq<byte>)
    requires |name| == 4 && |data| < 0x1_0000_0000
    requires s == Ascii(name) + BigEndian32(|data|) + data + rest
    ensures ReadChunk(s, name) == Some((data, rest))
  {
    assert s[..4] == Ascii(name) && s[4..8] == BigEndian32(|data|);
    BigEndianRoundTrip(|data|);
    assert s[8..8 + |data|] == data && s[8 + |data|..] == rest;
  }

  /** A written file is a header chunk and a track chunk. */
  lemma FileChunks(track: seq<byte>)
    requires |track| < 0x1_0000_0000
    ensures ReadChunk(MidiFile(track), "MThd") ==
            Some(([0, 0, 0, 1, 0, 70], Ascii("MTrk") + BigEndian32(|track|) + track))
    ensures ReadChunk(Ascii("MTrk") + BigEndian32(|track|) + track, "MTrk") == Some((track, []))
  {
    var rest := Ascii("MTrk") + BigEndian32(|track|) + track;
    assert BigEndian32(6) == [0, 0, 0, 6];
    assert Ascii("MThd") == [0x4D, 0x54, 0x68, 0x64] && Ascii("MTrk") == [0x4D, 0x54, 0x72, 0x6B];
    ChunkIsRead("MThd", [0, 0, 0, 1, 0, 70], rest, MidiFile(track));
    ChunkIsRead("MTrk", track, [], rest);
  }

  lemma HeaderReads(track: seq<byte>)
    ensures ReadSong([0, 0, 0, 1, 0, 70], track) ==
            match DecodeTrack(track, 0) case None => None case Some(evs) => Some(Song(0, 1, 70, evs))
  {
    var header: seq<byte> := [0, 0, 0, 1, 0, 70];
    assert header[..2] == [0, 0] && header[2..4] == [0, 1] && header[4..] == [0, 70];
  }

  lemma FileReads(track: seq<byte>)
    requires |track| < 0x1_0000_0000
    ensures DecodeFile(MidiFile(track)) ==
            match DecodeTrack(track, 0) case None => None case Some(evs) => Some(Song(0, 1, 70, evs))
  {
    FileChunks(track);
    HeaderReads(track);
  }

  /** The meaning of a written file: format 0, one track, 70 ticks a beat, and the event list it was made from,
      provided every delay fits. */
  lemma FileRoundTrip(evs: seq<Timed>)
    requires WellFormed(evs, 0)
    requires |EncodeTrack(Deltas(evs, 0))| < 0x1_0000_0000
    ensures DecodeFile(MidiFile(EncodeTrack(Deltas(evs, 0)))) == Some(Song(0, 1, 70, evs)) <==> GapsFit(evs, 0)
  {
    FileReads(EncodeTrack(Deltas(evs, 0)));
    TrackRoundTrip(evs, 0);
  }
}
