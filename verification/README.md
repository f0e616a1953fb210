# Verified models of the Doom engine's state machines

This project models the parts of the Doom port under `src/user/doom/doomgeneric` that carry the most
state and arithmetic, and proves what they are for.

| module | models |
|---|---|
| `MemIo` | the in-memory stream of memio.c |
| `MidiFormat` | Standard MIDI Files 1.0: variable-length quantities, a strict event and track reader, files |
| `MusScore` | the MUS score format, and what a score means as a timed list of MIDI events |
| `Mus2Mid` | the converter of mus2mid.c with its statics as fields, proved to write that meaning |
| `AutomapLine` | the line painter of am_map.c |
| `AutomapCut` | one cut of the line clipping of am_map.c, its accuracy and its 32-bit arithmetic |
| `AutomapTrace`, `AutomapPixels` | where cuts move the places of a segment, and which pixels are near which places |
| `AutomapClip` | the clipping loop of am_map.c and the drawing of map lines |
| `Wipe` | the screen melt of f_wipe.c |
| `Demo`, `Turning` | demo recording, playback and low-resolution turning of g_game.c |
| `TicLoop` | the single-player tic loop of d_loop.c |
| `Ceilings` | the moving ceilings of p_ceilng.c |
| `Strings` | copying, joining and replacing of m_misc.c |
| `FixedPoint` | m_fixed.c |
| `Common` | machine integers and truncating division |

Code that updates state is modelled by classes with the same fields and by methods with the same loops;
each is proved against functions on values, and the promises of the code are lemmas about those functions
and invariants that every method keeps. Bit operations are written as arithmetic; 32-bit and 16-bit
wrap-around is explicit.

## What came out

* A MUS delay from 2^28 up to 2^32 tics is written as five bytes that no strict reader accepts, with the low
  seven bits lost. A file means its score if and only if every delay is below 2^28
  (`Mus2Mid.Converter.Mus2Mid`, `Mus2Mid.DelayTooLong`).
* A pitch wheel event cut off by the end of the lump does not fail by itself; the conversion still always
  fails, because nothing is left to read.
* The automap cut at the bottom side takes the column of the row below the last one, so a flat line can be
  cut many pixels from where it leaves the frame. The size of that error is exact, with a condition on the
  ends for it to be within a pixel (`AutomapCut.BottomCut`, `AutomapCut.BottomCutOff`); at the other sides a
  cut is less than a pixel off, and axis-aligned lines are cut exactly.
* Repeated cuts drift, so a steep line down the left column of the frame can be refused
  (`AutomapClip.Automap.SteepLineLost`). A line that meets the frame is refused exactly when the second cut of
  its first end puts both ends beyond one side (`AutomapClip.LostIff`), and nothing of it is then farther
  inside than a pixel from the left, right or upper border. Everything of an accepted line that is farther inside is drawn
  within a few pixels, and nothing is drawn more than ten pixels off along an axis
  (`AutomapClip.ClipMeaning`, `AutomapClip.Automap.DrawMline`).
* A move with forwardmove -128 ends the recording, because its first byte reads as the marker; the file
  still plays back all moves before it.
* A ceiling started when all thirty slots are taken moves, but stop and restart do not reach it and it is
  never removed: its sector stays occupied. It happens exactly when `EV_DoCeiling` finds more free sectors with
  the tag than free slots (`Ceilings.World.DoCeiling`, `Ceilings.Crowded`), and no operation ends it.
* A call of `TryRunTics` that finds a command runs at least one tic; only a call that finds none can end
  without, when the clock moves on first (`TicLoop.Loop.TryRunTics`).
* The melt falls in closed form (`Wipe.FallsSo`), so the tick at which it is over is exact, in however many
  calls and whatever the random numbers (`Wipe.Melt.ScreenWipe`).
* But for timed demos no tic runs before its time, whatever the clock readings (`TicLoop.Loop.NeverEarly`).
* `M_StringReplace` with an empty needle does not end, so the model asks for a nonempty one.

The main results are the first 40 rows of the table, down to `FixedPoint.SaturatesIff`; the
others are the operations and the lemmas that carry them, by module.

## Model

| member | source | states |
|---|---|---|
| `Mus2Mid.Converter.Mus2Mid` | src/user/doom/doomgeneric/mus2mid.c:444-693 | Fails exactly on the lumps that do not parse as a complete MUS score (wrong header, bad event, truncated before the score end). On success the output, below 4 GiB, is a MIDI file that a strict reader decodes to the translation of the score, as one track of format 0 at 70 ticks a beat, if and only if every delay is below 2^28; the queued time is 0 again, the size counter equals the track length, and the converter may be used again from the state it is left in |
| `Mus2Mid.SongDecodes` | src/user/doom/doomgeneric/mus2mid.c:511-690 | For every lump that parses: the file written for its score reads as the score's meaning if and only if every delay fits the format |
| `MidiFormat.TrackRoundTrip` | src/user/doom/doomgeneric/mus2mid.c:139-345 | A well-formed event list is decoded from its track if and only if all its gaps fit |
| `MidiFormat.TimeRoundTrip` | src/user/doom/doomgeneric/mus2mid.c:103-135 | Below 2^28 the bytes of a time are its shortest encoding, and a strict reader gets back the time and leaves whatever follows unread |
| `MidiFormat.TimeTooLong` | src/user/doom/doomgeneric/mus2mid.c:103-135 | From 2^28 on a strict reader refuses the five bytes, and one that allows five gets the time with its low seven bits cleared |
| `Mus2Mid.PackUnpack` | src/user/doom/doomgeneric/mus2mid.c:103-135 | For every 32-bit time the packed work register, unpacked, is the encoding of the time; from 2^28 on the low group has been shifted out and a zero stands in for it |
| `MusScore.MidiChannelStable` | src/user/doom/doomgeneric/mus2mid.c:386-413 | A channel once given is kept however the score goes on |
| `MusScore.GapsFollowScore` | src/user/doom/doomgeneric/mus2mid.c:511-674 | The gaps of the translation fit the format if and only if the delays of the score do |
| `MusScore.BytesMean` | src/user/doom/doomgeneric/mus2mid.c:520-642 | Which MIDI event the bytes of each MUS event stand for, the controllers under their numbers in MIDI 1.0, and how many bytes it takes |
| `AutomapClip.Automap.DrawMline` | src/user/doom/doomgeneric/am_map.c:1062-1070 | Both ends are put on the pixels their distances from the corner of the window fall into at the scale of the map. A line beyond one side of the window has no place in it and changes no byte. A line that clipping accepts is painted as clipped, so the range guard of the painter never refuses it; for any other line no byte changes. For every line that is not beyond one side of the map window: every pixel of the unclipped line two or more pixels from the border of the frame has a painted pixel within three columns and four rows, and every byte that changes is that of a pixel within ten pixels along each axis of a place of the unclipped line |
| `AutomapClip.ClipMeaning` | src/user/doom/doomgeneric/am_map.c:904-976 | For every segment and frame. No place of a refused segment is inside the frame a pixel or more from its left, right and upper border; every such place has a place of the accepted segment within two columns and three rows. The ends of an accepted segment are in the frame and in the bounding box of the original, within four pixels along each axis of its line, and an end that was moved is on the border. An end in the frame is kept and the segment accepted; an axis-aligned segment is accepted unless it lies beyond one side, and clamped exactly |
| `AutomapClip.RefusedIff` | src/user/doom/doomgeneric/am_map.c:904-976 | A segment is refused if and only if both ends are beyond one side, or the first cut of the first end puts both beyond one side, or the second cut of that end does |
| `AutomapClip.LostIff` | src/user/doom/doomgeneric/am_map.c:904-976 | A segment with a place in the frame is refused if and only if the second cut of its first end puts both ends beyond one side; that place is then less than a pixel from the left, right or upper border |
| `AutomapClip.AxisClipIsExact` | src/user/doom/doomgeneric/am_map.c:847-976 | Clipped axis-aligned segments have exactly the pixels of the whole segment that lie in the frame |
| `AutomapCut.BottomCut` | src/user/doom/doomgeneric/am_map.c:933-939 | How far a cut at the bottom is off the line, exactly, as a cross product: with m and n the columns and rows that the segment spans and r the remainder of its division, r + m when the first end is cut and the difference of r and m when the second is; the cut is within a pixel along its row if and only if that is less than n, and the row below is always crossed within a pixel of its column |
| `AutomapClip.Automap.ToFrameScales` | src/user/doom/doomgeneric/am_map.c:103-106 | For every window, scale and map point, as long as the distance and its scaled value keep to their types: the coordinates are the scaled distances rounded down, rows counted from the bottom |
| `AutomapClip.Automap.NoOverflow` | src/user/doom/doomgeneric/am_map.c:904-973 | In a frame of at most 32768 pixels each way no difference, product, quotient or sum of any cut of any map line leaves `int` |
| `AutomapLine.FrameBuffer.DrawFline` | src/user/doom/doomgeneric/am_map.c:982-1055 | A segment in the frame is painted: the pixels of the ideal line get the color and no other byte changes; any other segment changes nothing |
| `AutomapLine.PixelCount` | src/user/doom/doomgeneric/am_map.c:1010-1054 | As many pixels are painted as the longer side of the segment has steps, and one |
| `TicLoop.Loop.TryRunTics` | src/user/doom/doomgeneric/d_loop.c:706-821 | By a clock of 35 tics a second, in milliseconds: every tic run was given the command built for it, whole only in its first repeat; neither internal error occurs; exactly as many whole groups run as the time passed and the commands available ask for. A call runs nothing only when no command was available after its first update and the clock has moved on past the tic it was entered in; never when timing a demo. And but for timed demos no tic has run before its time |
| `TicLoop.Loop.NeverEarly` | src/user/doom/doomgeneric/d_loop.c:706-821 | In every state so reached 1000 times the tics run are at most 35 times the milliseconds |
| `TicLoop.Counts` | src/user/doom/doomgeneric/d_loop.c:745-769 | At least one, else no more than are available; the new synchronisation runs all of them; the old one runs no fewer than the clock asks for while there are commands, at most one more, and that one exactly when more than it are waiting |
| `Wipe.Melt.ScreenWipe` | src/user/doom/doomgeneric/f_wipe.c:255-293 | A wipe starts from the screen as captured. Over any number of calls each column is where it has fallen to in all ticks since: it waits out its first offset, is then down 1, 3, 7, 15 and 31 rows and eight more each tick, and stops at the bottom. The wipe goes on if and only if this call was given a tick and before it some column had not arrived, at a tick given in closed form; when it is over the screen is the new image |
| `Wipe.FallsSo` | src/user/doom/doomgeneric/f_wipe.c:178-214 | The closed form of the fall: y + n while the column waits, then 2^k - 1 rows up to the fifth tick and eight more each tick, at most the height |
| `Ceilings.World.DoCeiling` | src/user/doom/doomgeneric/p_ceilng.c:160-234 | Crushers first restart what is in stasis under the tag; then every free sector with the tag, and no other, gets a new ceiling of that kind, in the order of the sector numbers. The first of them have slots, exactly as many as were free, so all of them if and only if no more sectors were free than slots; old ceilings keep their tags, states and slots, and one without a slot gets none. True exactly when there is a new one |
| `Ceilings.World.MoveCeiling` | src/user/doom/doomgeneric/p_ceilng.c:45-153 | The plane is moved at the speed of the ceiling towards a height that was set for it, crushing only on the way down. A crusher past its height turns round, every other ceiling past its height is removed if it has a slot, and all other moves keep the direction. Speed falls to an eighth when something is crushed on the way down, but for the fast kind, and is full again at the bottom. Nothing else about the ceiling changes, and no ceiling without a slot disappears |
| `Ceilings.CrusherAlternates` | src/user/doom/doomgeneric/p_ceilng.c:45-153 | For any outcomes of its moves a crusher arrives at its two heights in turn, at the one it heads for first |
| `Ceilings.World.DistinctSectors` | src/user/doom/doomgeneric/p_ceilng.c:45-324 | No two ceilings share a sector, in every reachable state |
| `Ceilings.StopRestart` | src/user/doom/doomgeneric/p_ceilng.c:280-324 | Stopping and restarting restores the direction, and each done twice is done once |
| `Demo.DemoRoundTrip` | src/user/doom/doomgeneric/g_game.c:2058-2098 | A whole demo plays back with its settings, resolution and every recorded move, and stops at its marker |
| `Demo.DemoState.PlayBack` | src/user/doom/doomgeneric/g_game.c:909-917 | A run of playback, G_DoPlayDemo and then G_ReadDemoTiccmd again and again: for every file that can be played to its marker, the settings and just its moves are delivered, playback is over, the file is unchanged, and unless it was timed the rules are those of a single-player game again |
| `Demo.DemoState.WriteDemoTiccmd` | src/user/doom/doomgeneric/g_game.c:1956-2003 | The recording grows by the move, the command becomes what was kept, and eleven bytes stay free, whatever doubling that takes; or recording stops, in exactly three cases, with a file that plays back everything recorded |
| `Demo.LosslessIff` | src/user/doom/doomgeneric/g_game.c:1956-1982 | Nothing is lost if and only if the demo is long or the turn a multiple of 256; what is kept is kept again |
| `Turning.TurningConserved` | src/user/doom/doomgeneric/g_game.c:580-596 | Over any run the turns emitted and the final carry add up to the turns asked for and the first carry, modulo 2^16 |
| `Strings.StringReplace` | src/user/doom/doomgeneric/m_misc.c:283-334 | For every nonempty needle whose result fits the address space: a new block of exactly the result and its terminator, holding the left-to-right non-overlapping replacement |
| `Strings.SplitUnique` | src/user/doom/doomgeneric/m_misc.c:283-334 | No other list of pieces has that property |
| `MemIo.WrittenIsReadBack` | src/user/doom/doomgeneric/memio.c:58-141 | What was written chunk by chunk is read back chunk by chunk |
| `MemIo.RunKeepsBytes` | src/user/doom/doomgeneric/memio.c:58-195 | No run of operations shortens a stream, and runs without writes leave its bytes alone |
| `FixedPoint.FixedDivMeaning` | src/user/doom/doomgeneric/m_fixed.c:47-61 | Either the exact quotient has magnitude 2^30 or more and the result is the extreme value of its sign, or the result is the quotient truncated toward zero |
| `FixedPoint.SaturatesIff` | src/user/doom/doomgeneric/m_fixed.c:49-52 | The shift test decides exactly whether the quotient reaches 2^30, a zero divisor included |
| `Mus2Mid.DelayTooLong` | src/user/doom/doomgeneric/mus2mid.c:103-135 | A lump of 22 bytes that converts, with a delay of 2^28, whose file does not read as its meaning |
| `Mus2Mid.OutputFits` | src/user/doom/doomgeneric/mus2mid.c:511-690 | The file of every lump up to half a gigabyte stays below 4 GiB |
| `Mus2Mid.Converter.ConvertTrack` | src/user/doom/doomgeneric/mus2mid.c:508-674 | Succeeds exactly when the score parses; the events written are then the translation of the whole score, closed by the end-of-track event |
| `Mus2Mid.Converter.ConvertScore` | src/user/doom/doomgeneric/mus2mid.c:512-668 | Both nested loops: they end, with failure exactly when the rest of the lump is not a complete score, and else with the translation of every event read |
| `Mus2Mid.Converter.ConvertDelayedGroup` | src/user/doom/doomgeneric/mus2mid.c:514-668 | One round of the outer loop: what is done and what is still to parse together are the whole score, and the cursor has moved on |
| `Mus2Mid.Converter.ConvertGroup` | src/user/doom/doomgeneric/mus2mid.c:516-648 | A group of events up to the score end or to an event with a delay; a truncated pitch wheel leaves nothing to read |
| `Mus2Mid.Converter.ConvertDelay` | src/user/doom/doomgeneric/mus2mid.c:650-667 | Fails exactly when no complete delay follows; otherwise time moves on by the delay |
| `Mus2Mid.Converter.ReadDelay` | src/user/doom/doomgeneric/mus2mid.c:652-665 | Reads seven-bit groups of any number, accumulated modulo 2^32 |
| `Mus2Mid.Converter.ConvertEvent` | src/user/doom/doomgeneric/mus2mid.c:520-647 | One event: parsed as the grammar says, its channel announced at first use, its translation appended; a malformed one fails, or (pitch wheel) leaves nothing to read |
| `Mus2Mid.EventConverted` | src/user/doom/doomgeneric/mus2mid.c:520-647 | The channel map, the cached volumes and the events written after one event are those of the score that is one event longer |
| `Mus2Mid.Converter.ConvertBody` | src/user/doom/doomgeneric/mus2mid.c:526-642 | The switch over event types: exact failures, bytes consumed, event emitted and volume cached for each type |
| `Mus2Mid.Converter.ConvertPress` | src/user/doom/doomgeneric/mus2mid.c:543-565 | A key press with and without its own volume, and both truncations |
| `Mus2Mid.Converter.ConvertRelease` | src/user/doom/doomgeneric/mus2mid.c:530-541 | A key release, or failure when the key is missing |
| `Mus2Mid.Converter.ConvertPitchWheel` | src/user/doom/doomgeneric/mus2mid.c:567-577 | A missing byte is not reported and writes nothing |
| `Mus2Mid.Converter.ConvertSystem` | src/user/doom/doomgeneric/mus2mid.c:579-596 | Numbers 10 to 14 only |
| `Mus2Mid.Converter.ConvertController` | src/user/doom/doomgeneric/mus2mid.c:598-633 | Patch change for number 0, controllers 1 to 9, failure else |
| `Mus2Mid.Converter.WriteTime` | src/user/doom/doomgeneric/mus2mid.c:103-135 | Appends exactly the encoding of the queued time, counts its bytes and resets the queue |
| `Mus2Mid.Converter.WriteRegister` | src/user/doom/doomgeneric/mus2mid.c:116-134 | The second loop: the work register goes out byte by byte |
| `Mus2Mid.Converter.WriteMessage` | src/user/doom/doomgeneric/mus2mid.c:158-190 | An event message is booked: the track grows by its time and bytes, the event list by the event, the queue is empty |
| `Mus2Mid.MessageBooked` | src/user/doom/doomgeneric/mus2mid.c:103-345 | After every message the track is the encoding of the events so far, the size counter its length modulo 2^32, and the queued time the gap since the last event modulo 2^32 |
| `Mus2Mid.Converter.WritePressKey` | src/user/doom/doomgeneric/mus2mid.c:158-190 | Appends a note-on with masked key and velocity |
| `Mus2Mid.Converter.WriteReleaseKey` | src/user/doom/doomgeneric/mus2mid.c:193-225 | Appends a note-off of velocity 0 |
| `Mus2Mid.Converter.WritePitchWheel` | src/user/doom/doomgeneric/mus2mid.c:228-259 | Appends a bend in two data bytes, low seven bits first |
| `Mus2Mid.Converter.WriteChangePatch` | src/user/doom/doomgeneric/mus2mid.c:262-287 | Appends a program change |
| `Mus2Mid.Converter.WriteChangeControllerValued` | src/user/doom/doomgeneric/mus2mid.c:291-336 | Appends a controller change, values from 0x80 on sent as 0x7F |
| `Mus2Mid.Converter.WriteChangeControllerValueless` | src/user/doom/doomgeneric/mus2mid.c:339-345 | Appends a controller change of value 0 |
| `Mus2Mid.Converter.WriteEndTrack` | src/user/doom/doomgeneric/mus2mid.c:139-155 | Appends the end-of-track event |
| `Mus2Mid.Converter.AllocateMIDIChannel` | src/user/doom/doomgeneric/mus2mid.c:349-381 | The next channel in the order 0 to 8, 10 to 15, given which were handed out before |
| `Mus2Mid.Converter.GetMIDIChannel` | src/user/doom/doomgeneric/mus2mid.c:386-413 | 9 for percussion; else the channel of the first use, announced by all notes off when it is new |
| `Mus2Mid.Converter.ReadMusHeader` | src/user/doom/doomgeneric/mus2mid.c:415-436 | Succeeds exactly on at least 14 bytes and gives the magic and the start offset |
| `Mus2Mid.Converter.FindScore` | src/user/doom/doomgeneric/mus2mid.c:470-503 | Succeeds exactly when the header is complete and correct and the start offset lies inside the lump |
| `Mus2Mid.Converter.PatchTrackSize` | src/user/doom/doomgeneric/mus2mid.c:676-690 | The length goes into its placeholder and every other byte stays |
| `Mus2Mid.Converter.ConvertLump` | src/user/doom/doomgeneric/mus2mid.c:444-690 | A lump converts exactly when it parses; the track is then the encoding of its meaning, and the file has its length |
| `MusScore.FewUses` | src/user/doom/doomgeneric/mus2mid.c:349-381 | The fifteen non-percussion channels never run out |
| `MusScore.MidiChannelInjective` | src/user/doom/doomgeneric/mus2mid.c:386-413 | Two MUS channels have the same MIDI channel only if they are the same |
| `MusScore.ParsedShape` | src/user/doom/doomgeneric/mus2mid.c:511-668 | A score that parses has valid events, exactly one score end, as its last event, and times that never decrease |
| `MusScore.ParseLump` | src/user/doom/doomgeneric/mus2mid.c:470-503 | The same for lumps: magic number, start offset and score |
| `MusScore.ParseEvent` | src/user/doom/doomgeneric/mus2mid.c:520-642 | An event lies inside the lump, its channel and its delay flag come from its first byte, and its controller numbers are in range |
| `MusScore.TranslateCount` | src/user/doom/doomgeneric/mus2mid.c:511-674 | One MIDI event for each MUS event and one for each channel used |
| `MusScore.TranslateInOrder` | src/user/doom/doomgeneric/mus2mid.c:511-674 | The translation keeps the order and the last time of the score |
| `MusScore.TranslateWellFormed` | src/user/doom/doomgeneric/mus2mid.c:511-674 | The translation of a complete score ends with its only end-of-track event |
| `MusScore.DelayIsVlq` | src/user/doom/doomgeneric/mus2mid.c:650-665 | A delay is coded as in a MIDI file, in any number of bytes |
| `MusScore.NewChannel` | src/user/doom/doomgeneric/mus2mid.c:349-413 | A channel used for the first time gets the next number of 0 to 8 and 10 to 15 and is silenced there by controller 123 |
| `MidiFormat.VlqIsShortest` | src/user/doom/doomgeneric/mus2mid.c:103-135 | No byte string that decodes to a time is shorter than its encoding |
| `MidiFormat.EventRoundTrip` | src/user/doom/doomgeneric/mus2mid.c:139-345 | The bytes of every event decode to that event and nothing more is read |
| `MidiFormat.FileRoundTrip` | src/user/doom/doomgeneric/mus2mid.c:67-76 | The same for a whole file, by a reader of named chunks: a header of six bytes for one track of format 0 at 70 ticks a beat, a track of the length it says, and nothing after it |
| `MemIo.MemFile.Read` | src/user/doom/doomgeneric/memio.c:58-86 | Whole items only, as many as fit; -1 on a stream opened for writing, with nothing changed |
| `MemIo.MemFile.Write` | src/user/doom/doomgeneric/memio.c:107-141 | Overlays the bytes at the cursor and extends the stream; -1 on a stream opened for reading; the 32-bit cursor wraps |
| `MemIo.MemFile.Reserve` | src/user/doom/doomgeneric/memio.c:114-133 | The doubling loop ends with room for the data and the contents unchanged |
| `MemIo.MemFile.Seek` | src/user/doom/doomgeneric/memio.c:164-195 | Moves to a target strictly inside the stream; any other target changes nothing and gives -1 |
| `MemIo.MemFile.OpenRead` | src/user/doom/doomgeneric/memio.c:42-54 | A stream of the given bytes, at its start |
| `MemIo.MemFile.OpenWrite` | src/user/doom/doomgeneric/memio.c:90-103 | An empty stream |
| `MemIo.WritesAppend` | src/user/doom/doomgeneric/memio.c:107-141 | A run of writes at the end appends the chunks in order |
| `MemIo.PatchInPlace` | src/user/doom/doomgeneric/memio.c:107-195 | Seek and write inside the stream change those bytes and no others |
| `MemIo.WrittenByte` | src/user/doom/doomgeneric/memio.c:107-141 | Byte by byte: a write replaces what it covers, extends the stream, and leaves the rest |
| `MemIo.SeekReaches` | src/user/doom/doomgeneric/memio.c:164-195 | From each of the three origins: a target strictly inside the stream is reached, any other of 32 bits is not |
| `AutomapClip.Automap.ClipMline` | src/user/doom/doomgeneric/am_map.c:847-976 | Lines beyond one side of the map window, which have no place in it, are refused; every other is put where it lies in the frame and clipped there, with all that clipping promises, and an accepted one is in the frame |
| `AutomapClip.Automap.ClipFline` | src/user/doom/doomgeneric/am_map.c:904-976 | The clipping loop ends after at most four cuts, with the segment that the cuts define or a refusal, as clipping promises |
| `AutomapClip.Automap.CutEnd` | src/user/doom/doomgeneric/am_map.c:916-973 | One round: the first outside end is cut, its outcode recomputed, the segment refused exactly when both ends are now beyond the same side |
| `AutomapClip.Automap.SteepLineLost` | src/user/doom/doomgeneric/am_map.c:847-976 | In the frame of 320 by 168 pixels, at one pixel a map unit: a map line that is not beyond a side of the window, runs down the left column from top to bottom with a part of it inside the frame, and is dropped |
| `AutomapClip.ClippedByLine` | src/user/doom/doomgeneric/am_map.c:904-976 | Every pixel of the clipped segment is within ten pixels along each axis of a place of the unclipped one |
| `AutomapClip.InnerPixelShown` | src/user/doom/doomgeneric/am_map.c:904-976 | A segment with a pixel two or more pixels from the border is accepted, and the clipped segment has a pixel within three columns and four rows of it |
| `AutomapClip.Automap.WindowRefuses` | src/user/doom/doomgeneric/am_map.c:877-902 | The checks against the window refuse exactly the lines with both ends beyond one of its sides, and such a line has no place in it |
| `AutomapTrace.FirstRefusalIsRight` | src/user/doom/doomgeneric/am_map.c:904-976 | A segment refused before the first cut or by it has no place in the frame |
| `AutomapTrace.PlaceCarried` | src/user/doom/doomgeneric/am_map.c:926-957 | One cut moves each place of the segment that it keeps by at most one column for a cut at a row, by at most one row for a cut at a column, and one row up for a cut at the bottom |
| `AutomapCut.CutAdvances` | src/user/doom/doomgeneric/am_map.c:926-957 | A cut never divides by zero, its point is in the bounding box of the current segment, and it either shows the segment to miss the frame or takes the end out on fewer axes; on an axis-aligned segment it is the end clamped to the frame |
| `AutomapCut.CutAccuracy` | src/user/doom/doomgeneric/am_map.c:926-957 | How far a cut is off the line of the current segment: less than one pixel along the side at the top, left and right; at the bottom the column is that of the row below the last |
| `AutomapCut.BottomCutOff` | src/user/doom/doomgeneric/am_map.c:933-939 | A segment of three rows cut with an error of ninety, thirty columns from where it crosses the last row |
| `AutomapCut.CutDrifts` | src/user/doom/doomgeneric/am_map.c:926-957 | A cut moves the segment off the original line by at most one more pixel along each axis |
| `AutomapPixels.PixelHasPlace` | src/user/doom/doomgeneric/am_map.c:1010-1054 | Every pixel of a segment is within half a pixel of a place of it |
| `AutomapPixels.PlaceHasPixel` | src/user/doom/doomgeneric/am_map.c:1010-1054 | Every place of a segment is within one pixel of a pixel of it |
| `AutomapLine.FrameBuffer.DrawXMajor` | src/user/doom/doomgeneric/am_map.c:1023-1038 | The same for the loop along x, which ends |
| `AutomapLine.FrameBuffer.DrawYMajor` | src/user/doom/doomgeneric/am_map.c:1039-1054 | The same for the loop along y, which ends |
| `AutomapLine.NearStep` | src/user/doom/doomgeneric/am_map.c:1023-1054 | Stepping the minor axis exactly when the error term is not negative stays within half a pixel of the line, and the updated term is the error of the new pixel |
| `AutomapLine.HalfPixel` | src/user/doom/doomgeneric/am_map.c:1010-1054 | In coordinates: every painted pixel is at most half a pixel off the ideal line along the minor axis |
| `AutomapLine.EndsOnLine` | src/user/doom/doomgeneric/am_map.c:1010-1054 | Both ends are painted |
| `TicLoop.Loop.EnterTics` | src/user/doom/doomgeneric/d_loop.c:716-763 | How many groups to run, from the clock and from the commands available after the first update, of which there is one when timing a demo |
| `TicLoop.Loop.WaitForTics` | src/user/doom/doomgeneric/d_loop.c:767-785 | The wait ends: with enough commands, or because the clock has moved to the next tic after there were too few at its start |
| `TicLoop.Loop.RunTics` | src/user/doom/doomgeneric/d_loop.c:787-820 | Whole groups, in order, building commands in between |
| `TicLoop.Loop.RunGroup` | src/user/doom/doomgeneric/d_loop.c:788-817 | One tic and its repeats; the second internal error does not occur |
| `TicLoop.Loop.RunRepeat` | src/user/doom/doomgeneric/d_loop.c:800-816 | One delivery to the game: the right command for this repeat, only the local player in the game |
| `TicLoop.Loop.BuildNewTic` | src/user/doom/doomgeneric/d_loop.c:136-194 | One command into its slot, which no waiting command occupies, unless five (three under the new synchronisation) are waiting |
| `TicLoop.Loop.NetUpdate` | src/user/doom/doomgeneric/d_loop.c:203-250 | As many commands as tics of a 35th of a second have passed, less the tics to skip, up to the limit; no more commands than tics, over any run |
| `TicLoop.Loop.BuildTics` | src/user/doom/doomgeneric/d_loop.c:243-249 | As many commands as asked for, up to the limit |
| `TicLoop.Loop.SinglePlayerClear` | src/user/doom/doomgeneric/d_loop.c:689-700 | The local player stays as he was and all others leave |
| `TicLoop.Loop.TicdupSquash` | src/user/doom/doomgeneric/d_loop.c:672-684 | Every player's command loses chat and special buttons and nothing else |
| `TicLoop.Loop.GetTime` | src/user/doom/doomgeneric/i_timer.c:40-56 | The tics read are 35 for each 1000 milliseconds, rounded down |
| `Wipe.Melt.DoMelt` | src/user/doom/doomgeneric/f_wipe.c:163-216 | Each column shows the new image above its offset and the old image shifted down below; done exactly when nothing moved, and then the screen is the new image |
| `Wipe.Melt.InitMelt` | src/user/doom/doomgeneric/f_wipe.c:132-161 | The old image is on the screen, both images are transposed, the offsets are chosen |
| `Wipe.Melt.MeltTick` | src/user/doom/doomgeneric/f_wipe.c:180-213 | Every column advances by its own rule and reports whether any moved |
| `Wipe.Melt.MeltColumn` | src/user/doom/doomgeneric/f_wipe.c:182-212 | One row while waiting, twice the offset and one up to row 16, eight rows from there, never past the bottom; and the column shows both images at its new offset |
| `Wipe.MeltedIsEnd` | src/user/doom/doomgeneric/f_wipe.c:163-216 | When every column is at the bottom the screen equals the new image |
| `Wipe.ColMajorXform` | src/user/doom/doomgeneric/f_wipe.c:42-62 | The buffer becomes its transpose |
| `Wipe.TransposeTwice` | src/user/doom/doomgeneric/f_wipe.c:42-62 | Transposing twice, with the sides exchanged, gives the image back |
| `Wipe.InitOffsets` | src/user/doom/doomgeneric/f_wipe.c:148-158 | The offsets are those the random numbers give |
| `Wipe.OffsetsJagged` | src/user/doom/doomgeneric/f_wipe.c:148-158 | The first offset is minus the low four bits of the first number; each next one is its neighbour moved by -1, 0 or 1 and kept from -15 to 0 |
| `Wipe.ColumnFinishes` | src/user/doom/doomgeneric/f_wipe.c:178-214 | A column is at the bottom after 20 ticks and one for every eight rows, whatever the random numbers |
| `Wipe.Melt.StartWipe` | src/user/doom/doomgeneric/f_wipe.c:132-161 | The offsets are chosen, no tick has run, both images are captured |
| `Wipe.Melt.ContinueWipe` | src/user/doom/doomgeneric/f_wipe.c:163-216 | Done if and only if no tick was asked for or every column had arrived before; the ticks add up |
| `Wipe.AdvanceMore` | src/user/doom/doomgeneric/f_wipe.c:178-214 | m ticks and then n are m + n ticks |
| `Wipe.ArrivesAt` | src/user/doom/doomgeneric/f_wipe.c:178-214 | The exact tick at which a column is at the bottom |
| `Ceilings.World.LaunchAll` | src/user/doom/doomgeneric/p_ceilng.c:186-233 | The loop over the sectors with the tag |
| `Ceilings.World.Launch` | src/user/doom/doomgeneric/p_ceilng.c:193-231 | Direction, speed, crushing and both heights of each kind, in a sector with these heights |
| `Ceilings.World.FindSectorFromLineTag` | src/user/doom/doomgeneric/p_spec.c:444-455 | The next sector with the tag, none skipped |
| `Ceilings.World.AddActiveCeiling` | src/user/doom/doomgeneric/p_ceilng.c:240-252 | Into the first free slot; a full table takes no more |
| `Ceilings.World.RemoveActiveCeiling` | src/user/doom/doomgeneric/p_ceilng.c:259-273 | The slot, the sector and the thinker are freed; a ceiling that never got a slot stays, with its sector, and no ceiling without a slot disappears |
| `Ceilings.World.ActivateInStasisCeiling` | src/user/doom/doomgeneric/p_ceilng.c:280-295 | Exactly the active ceilings in stasis with the tag go on in their old direction |
| `Ceilings.World.CeilingCrushStop` | src/user/doom/doomgeneric/p_ceilng.c:303-324 | Exactly the active moving ceilings with the tag go into stasis with their direction saved; true exactly when there was one |
| `Ceilings.MoveSoundUnless` | src/user/doom/doomgeneric/p_ceilng.c:45-153 | A move that does not finish keeps a ceiling's state sound, and the height it heads for is set |
| `Ceilings.World.RoomForAll` | src/user/doom/doomgeneric/p_ceilng.c:160-252 | There are as many new ceilings as free sectors with the tag, all have slots if and only if that is at most the number of slots free before, and a ceiling without a slot stays without |
| `Ceilings.SeatedIff` | src/user/doom/doomgeneric/p_ceilng.c:240-252 | Ceilings added one after the other all have slots if and only if they are no more than the free slots, and no other ceiling gets one |
| `Ceilings.AllSeated` | src/user/doom/doomgeneric/p_ceilng.c:240-252 | Exactly the first of them have slots, as many as were free; a slot that changed holds one of them, and what was in the table stays |
| `Ceilings.Crowded` | src/user/doom/doomgeneric/p_ceilng.c:160-252 | The first call of EV_DoCeiling in a level with thirty-one sectors of one tag leaves a running ceiling without a slot, its sector occupied |
| `Ceilings.CrusherSpeeds` | src/user/doom/doomgeneric/p_ceilng.c:45-234 | From its launch on, for any outcomes: a crusher goes up at full speed and down at full speed or an eighth of it, the fast kind at twice the speed throughout, between heights that stay |
| `Ceilings.AfterMoveIs` | src/user/doom/doomgeneric/p_ceilng.c:45-153 | Direction and speed after a move by kind and outcome, which kinds finish, and that nothing else changes |
| `Demo.ReadAllRoundTrip` | src/user/doom/doomgeneric/g_game.c:1898-1922 | Reading from the start of any recorded moves gives all of them and then whatever follows |
| `Demo.MoveRoundTrip` | src/user/doom/doomgeneric/g_game.c:1898-1922 | A written move reads back, wherever it stands, as what the demo keeps of it |
| `Demo.DemoState.IncreaseDemoBuffer` | src/user/doom/doomgeneric/g_game.c:1926-1954 | Twice the room, the same contents |
| `Demo.DemoState.ReadDemoTiccmd` | src/user/doom/doomgeneric/g_game.c:1898-1922 | The move at the cursor in the resolution of the demo, the other fields of the command and all else untouched; at the marker playback or timing ends with the file unchanged, or recording ends with a file that plays back everything recorded |
| `Demo.DemoState.CheckDemoStatus` | src/user/doom/doomgeneric/g_game.c:2248-2300 | Exactly one of four ends: a timed demo is reported; playback ends, the rules go back to a single-player game, and the program quits or goes on; the marker is added and the file plays back everything recorded; or nothing happens. What each leaves alone |
| `Demo.DemoState.BeginRecording` | src/user/doom/doomgeneric/g_game.c:2058-2098 | The header for the settings and an empty recording, with room for a move and the marker |
| `Demo.DemoState.DoPlayDemo` | src/user/doom/doomgeneric/g_game.c:2152-2215 | The settings of the header, which become the rules; the resolution its version stands for, an unknown version leaving it alone; a net game exactly when there is a second player or a parameter asks for one |
| `Demo.MoveBytes` | src/user/doom/doomgeneric/g_game.c:1898-1922 | Which byte of a move is which part of it: forward, side, the turn with its high byte last, buttons |
| `Turning.RoundingError` | src/user/doom/doomgeneric/g_game.c:580-596 | The emitted turn is a multiple of 256 and the carry from -128 to 127, for every 16-bit input |
| `Turning.Turner.Turn` | src/user/doom/doomgeneric/g_game.c:580-596 | One tic of it, in the fields of the object |
| `Turning.LowResIsLossless` | src/user/doom/doomgeneric/g_game.c:580-596 | A short demo keeps every emitted turn exactly |
| `Strings.ReplacedSize` | src/user/doom/doomgeneric/m_misc.c:286-304 | The counting pass gives the size of the result and its terminator, with `size_t` arithmetic that wraps |
| `Strings.ReplaceIsJoin` | src/user/doom/doomgeneric/m_misc.c:283-334 | The replacement is the pieces between the occurrences, glued with the new text |
| `Strings.SplitJoins` | src/user/doom/doomgeneric/m_misc.c:283-334 | The pieces glued with the needle are the string, and each occurrence is the leftmost one |
| `Strings.ReplaceBySelf` | src/user/doom/doomgeneric/m_misc.c:283-334 | A needle replaced by itself changes nothing |
| `Strings.ReplaceIsText` | src/user/doom/doomgeneric/m_misc.c:283-334 | The result has no terminator inside |
| `Strings.EmptyNeedleStalls` | src/user/doom/doomgeneric/m_misc.c:295-304 | With an empty needle the counting pass never moves on, which is why none is allowed |
| `Strings.StringCopy` | src/user/doom/doomgeneric/m_misc.c:339-351 | The string cut to the size, padded with zeros and terminated; true exactly when nothing was cut; the rest of the buffer stays |
| `Strings.StringConcat` | src/user/doom/doomgeneric/m_misc.c:356-365 | The same behind the string already there; a buffer that is full already stays as it is |
| `Strings.StringJoin` | src/user/doom/doomgeneric/m_misc.c:383-423 | A new block of exactly all the strings in order and a terminator |
| `Strings.CopiedByte` | src/user/doom/doomgeneric/m_misc.c:339-351 | Byte by byte: as much of the text as fits before the last byte, and zeros behind it |
| `FixedPoint.DivThenMul` | src/user/doom/doomgeneric/m_fixed.c:33-61 | Multiplying the quotient back is off by at most the magnitude of the divisor over 65536, and one |

## Left out

- Mus2Mid.Converter.Mus2Mid: the contents of an output of 4 GiB or more are not described, because the 32-bit cursor of the stream wraps there; lumps up to half a gigabyte cannot reach it.
- MemIo.MemFile.OpenRead: streams of 4 GiB or more, which the 32-bit cursor cannot reach.
- MemIo.MemFile.Write: what a stream holds after a write that takes the cursor past 2^32; the cursor itself is described.
- AutomapClip.Automap.ClipMline: a frame whose window does not start at 0, 0, and how the map window is kept in step with the frame.
- AutomapLine.FrameBuffer.DrawFline: the message and its counter when a segment is refused.
- Wipe.Melt.ScreenWipe: only the melt; the colour wipe is never selected. Pixels are handled in pairs throughout, and the random table is an arbitrary list of numbers.
- Wipe.Melt.InitMelt: the release of the three buffers when a wipe ends.
- Demo.DemoState.BeginRecording: a demo buffer of fewer than 24 bytes. Its size is given in units of 1024, so only `-maxdemo 0`, which gives no buffer at all for the header, and sizes below zero are left out.
- Demo.DemoState.DoPlayDemo: the start of the level, and a lump shorter than a header.
- Demo.DemoState.ReadDemoTiccmd: a demo without an end marker.
- Demo.DemoState.CheckDemoStatus: the figures of the report on a timed demo; the reports and the quitting of the program are results, after which nothing is assumed to run. No demo is recorded while another is played or timed.
- Demo.DemoState.WriteDemoTiccmd: the quit key is a parameter.
- TicLoop.Loop.TryRunTics: network play, drones, the menu and the events, which touch none of the modelled fields; the clock is unbounded, while the 32-bit product in `I_GetTime` wraps after 34 hours, a sleep takes at least the time asked for, and the clock is not adjusted by an offset.
- TicLoop.Loop.BuildNewTic: the command is arbitrary, and so covers whatever the input code builds; its fields for other games are left out.
- Ceilings.World.MoveCeiling: sounds and the movement of the plane itself; the outcome and the new heights are arbitrary.
- Ceilings.World.DoCeiling: the search for the highest surrounding ceiling is an arbitrary function of the sector.
- Strings.StringReplace: a failed allocation, and results that do not fit the address space.
- FixedPoint.FixedDivMeaning: the operand -2^31, on which `abs` is undefined.
- Save games, the other sector movers, menus, the status bar, input, video and WAD files.
