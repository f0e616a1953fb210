/** The in-memory stream of memio.c: a growing byte buffer with a cursor. */
module MemIo {
  import opened Common

  datatype Mode = Read | Write

  datatype Whence = SeekSet | SeekCur | SeekEnd

  /** What a stream means: a byte sequence and a position in it. */
  datatype Stream = Stream(bytes: seq<byte>, pos: nat)

  ghost predicate InBounds(s: Stream) {
    s.pos <= |s.bytes|
  }

  /** How many whole items of `size` bytes a read of `nmemb` items delivers. */
  function ItemsRead(s: Stream, size: nat, nmemb: nat): nat
    requires InBounds(s)
  {
    if nmemb * size > |s.bytes| - s.pos then (|s.bytes| - s.pos) / size else nmemb
  }

  lemma ItemsFit(s: Stream, size: nat, nmemb: nat)
    requires InBounds(s)
    ensures s.pos + ItemsRead(s, size, nmemb) * size <= |s.bytes|
    ensures ItemsRead(s, size, nmemb) <= nmemb
    ensures ItemsRead(s, size, nmemb) < nmemb ==>
              s.pos + (ItemsRead(s, size, nmemb) + 1) * size > |s.bytes|
  {
    var left := |s.bytes| - s.pos;
    if nmemb * size > left {
      var q := left / size;
      DivModNat(left, size);
      QuotientBelow(left, size, nmemb);
      Distribute(q, 1, size);
    }
  }

  function AfterRead(s: Stream, n: nat): (t: Stream)
    requires s.pos + n <= |s.bytes|
  {
    Stream(s.bytes, s.pos + n)
  }

  /** A write overlays the bytes at the cursor and extends the stream where it runs past the end. */
  function AfterWrite(s: Stream, data: seq<byte>): (t: Stream)
    requires InBounds(s)
  {
    var end := s.pos + |data|;
    Stream(s.bytes[..s.pos] + data + (if end < |s.bytes| then s.bytes[end..] else []), end)
  }

  /** The target of a seek: `unsigned int` arithmetic, so it wraps modulo 2^32. */
  function SeekTarget(s: Stream, offset: int, whence: Whence): (p: uint32) {
    match whence
    case SeekSet => offset % 0x1_0000_0000
    case SeekCur => (s.pos + offset) % 0x1_0000_0000
    case SeekEnd => (|s.bytes| + offset) % 0x1_0000_0000
  }

  function AfterSeek(s: Stream, offset: int, whence: Whence): Stream {
    var p := SeekTarget(s, offset, whence);
    if p < |s.bytes| then s.(pos := p) else s
  }

  /** Byte by byte: a write replaces what it covers and leaves the rest. */
  lemma WrittenByte(s: Stream, data: seq<byte>, k: nat)
    requires InBounds(s) && k < Max(s.pos + |data|, |s.bytes|)
    ensures var t := AfterWrite(s, data);
            && t.pos == s.pos + |data| && |t.bytes| == Max(s.pos + |data|, |s.bytes|)
            && t.bytes[k] == if s.pos <= k < s.pos + |data| then data[k - s.pos] else s.bytes[k]
  {
  }

  /** A target strictly inside the stream is reached; one at its end, or outside it and of 32 bits, is not. */
  lemma SeekReaches(s: Stream, offset: int, whence: Whence)
    ensures var from := if whence.SeekSet? then 0 else if whence.SeekCur? then s.pos else |s.bytes|;
            var t := AfterSeek(s, offset, whence);
            && t.bytes == s.bytes
            && (0 <= from + offset < 0x1_0000_0000 ==>
                  t.pos == if from + offset < |s.bytes| then from + offset else s.pos)
  {
  }

  lemma WrittenLength(s: Stream, data: seq<byte>)
    requires InBounds(s)
    ensures |AfterWrite(s, data).bytes| == Max(s.pos + |data|, |s.bytes|)
  {
  }

  /** Copying into a buffer that starts with `bytes` leaves one that starts with the written stream. */
  lemma Overlaid(bytes: seq<byte>, pos: nat, data: seq<byte>, was: seq<byte>, buffer: seq<byte>)
    requires pos <= |bytes| <= |was| && pos + |data| <= |was|
    requires was[..|bytes|] == bytes
    requires buffer == was[..pos] + data + was[pos + |data|..]
    ensures var t := AfterWrite(Stream(bytes, pos), data).bytes;
            |t| <= |buffer| && t == buffer[..|t|]
  {
    assert forall k :: 0 <= k < |bytes| ==> bytes[k] == was[..|bytes|][k] == was[k];
  }

  class MemFile {
    var buf: array<byte>
    var buflen: nat
    var alloced: nat
    var position: nat
    const mode: Mode

    ghost predicate Valid()
      reads this
    {
      && position <= buflen <= buf.Length
      && position < 0x1_0000_0000
      && (mode.Read? ==> buflen < 0x1_0000_0000)
      && (mode.Write? ==> alloced == buf.Length && alloced > 0)
    }

    ghost function Model(): Stream
      reads this, buf
      requires Valid()
    {
      Stream(buf[..buflen], position)
    }

    /** mem_fopen_read; the cursor is an `unsigned int`, so the buffer is shorter than 4 GiB. */
    constructor OpenRead(data: array<byte>)
      requires data.Length < 0x1_0000_0000
      ensures Valid() && mode.Read? && buf == data
      ensures Model() == Stream(data[..], 0)
    {
      buf := data;
      buflen := data.Length;
      alloced := 0;
      position := 0;
      mode := Mode.Read;
      new;
      assert buf[..buflen] == data[..];
    }

    constructor OpenWrite()
      ensures Valid() && mode.Write? && fresh(buf)
      ensures Model() == Stream([], 0)
    {
      alloced := 1024;
      buf := new byte[1024];
      buflen := 0;
      position := 0;
      mode := Mode.Write;
    }

    /** mem_fread: whole items only; -1 on a stream opened for writing. */
    method Read(size: nat, nmemb: nat) returns (items: int, data: seq<byte>)
      requires Valid()
      modifies `position
      ensures Valid()
      ensures mode.Write? ==> items == -1 && data == [] && Model() == old(Model())
      ensures mode.Read? ==>
                var s := old(Model());
                var n := ItemsRead(s, size, nmemb);
                && items == n
                && s.pos + n * size <= |s.bytes|
                && data == s.bytes[s.pos..s.pos + n * size]
                && Model() == AfterRead(s, n * size)
    {
      if mode != Mode.Read {
        return -1, [];
      }
      ItemsFit(Model(), size, nmemb);
      items := nmemb;
      if items * size > buflen - position {
        items := (buflen - position) / size;
      }
      data := buf[position..position + items * size];
      assert data == Model().bytes[position..position + items * size];
      position := position + items * size;
    }

    /** The reallocation loop of mem_fwrite: doubling until `bytes` more fit after the cursor. */
    method Reserve(bytes: nat)
      requires Valid() && mode.Write?
      modifies `buf, `alloced
      ensures Valid() && position + bytes <= alloced
      ensures buf == old(buf) || fresh(buf)
      ensures buf[..buflen] == old(buf[..buflen])
    {
      while bytes > alloced - position
        invariant Valid()
        invariant buf == old(buf) || fresh(buf)
        invariant buf[..buflen] == old(buf[..buflen])
        decreases bytes + position - alloced
      {
        var newbuf := new byte[alloced * 2];
        forall i | 0 <= i < alloced {
          newbuf[i] := buf[i];
        }
        assert newbuf[..buflen] == buf[..buflen];
        buf := newbuf;
        alloced := alloced * 2;
      }
    }

    /** The memcpy of mem_fwrite. */
    method CopyIn(data: seq<byte>)
      requires Valid() && mode.Write? && position + |data| <= buf.Length
      modifies buf
      ensures buf[..] == old(buf[..position]) + data + old(buf[position + |data|..])
    {
      forall i | 0 <= i < |data| {
        buf[position + i] := data[i];
      }
      forall k | 0 <= k < buf.Length
        ensures buf[k] == (old(buf[..position]) + data + old(buf[position + |data|..]))[k]
      {
        if position <= k < position + |data| {
          assert buf[position + (k - position)] == data[k - position];
        }
      }
    }

    /** The cursor update of mem_fwrite. */
    method Advance(bytes: nat)
      requires position + bytes <= buf.Length
      modifies `position, `buflen
      ensures position == (old(position) + bytes) % 0x1_0000_0000
      ensures old(position) + bytes < 0x1_0000_0000 ==> position == old(position) + bytes
      ensures buflen == Max(position, old(buflen))
    {
      position := (position + bytes) % 0x1_0000_0000;
      if position > buflen {
        buflen := position;
      }
    }

    /** The copy and the cursor update of mem_fwrite, once the buffer has room. */
    method Store(data: seq<byte>)
      requires Valid() && mode.Write? && position + |data| <= alloced
      modifies buf, `position, `buflen
      ensures Valid()
      ensures position == (old(position) + |data|) % 0x1_0000_0000
      ensures buflen == Max(position, old(buflen))
      ensures old(position) + |data| < 0x1_0000_0000 ==> Model() == AfterWrite(old(Model()), data)
    {
      ghost var s, was := Model(), buf[..];
      assert was[..buflen] == s.bytes;
      CopyIn(data);
      ghost var t := AfterWrite(s, data);
      Overlaid(s.bytes, position, data, was, buf[..]);
      ghost var now := buf[..];
      Advance(|data|);
      assert buf[..buflen] == now[..buflen];
      if s.pos + |data| < 0x1_0000_0000 {
        WrittenLength(s, data);
      }
    }

    /** mem_fwrite: doubles the buffer until the data fits; -1 on a stream opened for reading.
        The cursor is an `unsigned int`: a write past 4 GiB wraps it. */
    method Write(data: seq<byte>, nmemb: nat) returns (written: int)
      requires Valid()
      modifies this, buf
      ensures Valid()
      ensures mode.Read? ==> written == -1 && buf == old(buf) && Model() == old(Model())
      ensures mode.Write? ==>
                && written == nmemb
                && (buf == old(buf) || fresh(buf))
                && position == (old(position) + |data|) % 0x1_0000_0000
                && buflen == Max(position, old(buflen))
      ensures mode.Write? && old(position) + |data| < 0x1_0000_0000 ==>
                Model() == AfterWrite(old(Model()), data)
    {
      if mode != Mode.Write {
        return -1;
      }
      Reserve(|data|);
      Store(data);
      written := nmemb;
    }

    method Tell() returns (p: nat)
      requires Valid()
      ensures p == Model().pos
    {
      p := position;
    }

    /** mem_fseek: 0 when the target lies strictly inside the stream, else -1 and nothing moves. */
    method Seek(offset: int, whence: Whence) returns (r: int)
      requires Valid()
      modifies `position
      ensures Valid()
      ensures Model() == AfterSeek(old(Model()), offset, whence)
      ensures r == if SeekTarget(old(Model()), offset, whence) < buflen then 0 else -1
    {
      var newpos: nat;
      match whence {
        case SeekSet => newpos := offset % 0x1_0000_0000;
        case SeekCur => newpos := (position + offset) % 0x1_0000_0000;
        case SeekEnd => newpos := (buflen + offset) % 0x1_0000_0000;
      }
      if newpos < buflen {
        position := newpos;
        r := 0;
      } else {
        r := -1;
      }
    }
  }

  // ----- any run of stream operations

  datatype Op =
    | DoRead(size: nat, nmemb: nat)
    | DoWrite(data: seq<byte>)
    | DoSeek(offset: int, whence: Whence)

  ghost function Step(s: Stream, op: Op): (t: Stream)
    requires InBounds(s)
    ensures InBounds(t)
  {
    match op
    case DoRead(size, nmemb) =>
      ItemsFit(s, size, nmemb);
      AfterRead(s, ItemsRead(s, size, nmemb) * size)
    case DoWrite(data) => AfterWrite(s, data)
    case DoSeek(offset, whence) => AfterSeek(s, offset, whence)
  }

  ghost function Run(s: Stream, ops: seq<Op>): (t: Stream)
    requires InBounds(s)
    ensures InBounds(t)
    decreases |ops|
  {
    if ops == [] then s else Run(Step(s, ops[0]), ops[1..])
  }

  /** Reads and seeks never change what the stream holds, and no run of operations shortens it. */
  lemma {:induction false} RunKeepsBytes(s: Stream, ops: seq<Op>)
    requires InBounds(s)
    ensures |s.bytes| <= |Run(s, ops).bytes|
    ensures (forall k :: 0 <= k < |ops| ==> !ops[k].DoWrite?) ==> Run(s, ops).bytes == s.bytes
    decreases |ops|
  {
    if ops != [] {
      var t := Step(s, ops[0]);
      assert |s.bytes| <= |t.bytes|;
      assert ops[0].DoWrite? || t.bytes == s.bytes;
      RunKeepsBytes(t, ops[1..]);
      assert (forall k :: 0 <= k < |ops| ==> !ops[k].DoWrite?) ==>
             (forall k :: 0 <= k < |ops[1..]| ==> !ops[1..][k].DoWrite?) by {
        if forall k :: 0 <= k < |ops| ==> !ops[k].DoWrite? {
          assert forall k :: 0 <= k < |ops[1..]| ==> ops[1..][k] == ops[k + 1];
        }
      }
    }
  }

  ghost function Concat(chunks: seq<seq<byte>>): seq<byte> {
    if chunks == [] then [] else chunks[0] + Concat(chunks[1..])
  }

  ghost function Writes(chunks: seq<seq<byte>>): (ops: seq<Op>) {
    seq(|chunks|, i requires 0 <= i < |chunks| => DoWrite(chunks[i]))
  }

  /** A run of writes at the end of the stream appends the chunks in order. */
  lemma {:induction false} WritesAppend(s: Stream, chunks: seq<seq<byte>>)
    requires s.pos == |s.bytes|
    ensures Run(s, Writes(chunks)) == Stream(s.bytes + Concat(chunks), |s.bytes| + |Concat(chunks)|)
    decreases |chunks|
  {
    if chunks != [] {
      var t := Step(s, DoWrite(chunks[0]));
      assert t.bytes == s.bytes + chunks[0];
      assert Writes(chunks)[1..] == Writes(chunks[1..]);
      WritesAppend(t, chunks[1..]);
      assert (s.bytes + chunks[0]) + Concat(chunks[1..]) == s.bytes + Concat(chunks);
    }
  }

  /** What a reader that asks for pieces of the given sizes is handed, one byte an item. */
  ghost function ReadPieces(s: Stream, sizes: seq<nat>): (pieces: seq<seq<byte>>)
    requires InBounds(s)
    decreases |sizes|
  {
    if sizes == [] then []
    else
      var n := ItemsRead(s, 1, sizes[0]);
      [s.bytes[s.pos..s.pos + n]] + ReadPieces(AfterRead(s, n), sizes[1..])
  }

  lemma NextPiece(before: seq<byte>, chunk: seq<byte>, rest: seq<byte>, after: seq<byte>)
    ensures before + (chunk + rest) + after == (before + chunk) + rest + after
    ensures (before + (chunk + rest) + after)[|before|..|before| + |chunk|] == chunk
  {
    Regroup(before, chunk, rest);
    assert ((before + chunk) + rest + after)[|before|..|before| + |chunk|] == chunk;
  }

  /** What was written chunk by chunk is read back chunk by chunk. */
  lemma {:induction false} WrittenIsReadBack(before: seq<byte>, chunks: seq<seq<byte>>, after: seq<byte>)
    ensures var s := Stream(before + Concat(chunks) + after, |before|);
            ReadPieces(s, seq(|chunks|, i requires 0 <= i < |chunks| => |chunks[i]|)) == chunks
    decreases |chunks|
  {
    if chunks != [] {
      var s := Stream(before + Concat(chunks) + after, |before|);
      var sizes := seq(|chunks|, i requires 0 <= i < |chunks| => |chunks[i]|);
      assert sizes[1..] == seq(|chunks[1..]|, i requires 0 <= i < |chunks[1..]| => |chunks[1..][i]|);
      WrittenIsReadBack(before + chunks[0], chunks[1..], after);
      NextPiece(before, chunks[0], Concat(chunks[1..]), after);
    }
  }

  /** Overwriting inside the stream and going back reads the new bytes and leaves every other byte alone. */
  lemma PatchInPlace(s: Stream, at: nat, data: seq<byte>)
    requires InBounds(s) && at < |s.bytes| < 0x1_0000_0000 && at + |data| <= |s.bytes|
    ensures var t := AfterWrite(AfterSeek(s, at, SeekSet), data);
            && |t.bytes| == |s.bytes|
            && t.bytes[at..at + |data|] == data
            && t.bytes[..at] == s.bytes[..at]
            && t.bytes[at + |data|..] == s.bytes[at + |data|..]
  {
    assert AfterSeek(s, at, SeekSet) == Stream(s.bytes, at);
  }
}
