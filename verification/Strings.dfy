/** String building of m_misc.c over C strings: copy, concatenate, join and replace. */
module Strings {
  import opened Common

  /** The characters of a C string before its terminator. */
  type Text = s: seq<byte> | 0 !in s

  /** The character at `p`, the terminator after the last one. */
  function CharAt(s: Text, p: nat): byte
    requires p <= |s|
  {
    if p < |s| then s[p] else 0
  }

  /** Memory that starts with a C string. */
  predicate Holds(memory: seq<byte>, s: Text) {
    |s| < |memory| && memory[..|s|] == s && memory[|s|] == 0
  }

  // ----- Occurrences -----

  /** strncmp finds the needle at `p`. */
  predicate OccursAt(s: seq<byte>, needle: seq<byte>, p: nat) {
    p + |needle| <= |s| && s[p..p + |needle|] == needle
  }

  /** strstr from `p`. */
  function FirstFrom(s: seq<byte>, needle: seq<byte>, p: nat): (r: Option<nat>)
    requires p <= |s|
    ensures r.Some? ==> p <= r.value && OccursAt(s, needle, r.value)
    ensures forall k :: p <= k < (if r.Some? then r.value else |s|) ==> !OccursAt(s, needle, k)
    decreases |s| - p
  {
    if OccursAt(s, needle, p) then Some(p)
    else if p == |s| then None
    else FirstFrom(s, needle, p + 1)
  }

  /** Every occurrence replaced, from left to right, none overlapping an earlier one. */
  function ReplaceAll(s: seq<byte>, needle: seq<byte>, repl: seq<byte>): seq<byte>
    requires needle != []
  {
    if s == [] then []
    else if OccursAt(s, needle, 0) then repl + ReplaceAll(s[|needle|..], needle, repl)
    else [s[0]] + ReplaceAll(s[1..], needle, repl)
  }

  /** The pieces of a string between the occurrences that strstr finds. */
  function Split(s: seq<byte>, needle: seq<byte>): (r: seq<seq<byte>>)
    requires needle != []
    ensures r != []
    decreases |s|
  {
    match FirstFrom(s, needle, 0)
    case None => [s]
    case Some(q) => [s[..q]] + Split(s[q + |needle|..], needle)
  }

  function Joined(pieces: seq<seq<byte>>, glue: seq<byte>): seq<byte>
    requires pieces != []
  {
    if |pieces| == 1 then pieces[0] else pieces[0] + glue + Joined(pieces[1..], glue)
  }

  /** Followed by the needle, strstr finds it behind each piece and not before; in the last piece it finds
      none. */
  predicate Leftmost(pieces: seq<seq<byte>>, needle: seq<byte>) {
    && pieces != []
    && if |pieces| == 1 then FirstFrom(pieces[0], needle, 0) == None
       else FirstFrom(pieces[0] + needle, needle, 0) == Some(|pieces[0]|) && Leftmost(pieces[1..], needle)
  }

  lemma OccursInPrefix(s: seq<byte>, rest: seq<byte>, needle: seq<byte>, k: nat)
    requires k + |needle| <= |s|
    ensures OccursAt(s + rest, needle, k) <==> OccursAt(s, needle, k)
  {
    assert (s + rest)[k..k + |needle|] == s[k..k + |needle|];
  }

  lemma OccursInSuffix(s: seq<byte>, needle: seq<byte>, from: nat, k: nat)
    requires from <= |s|
    ensures OccursAt(s[from..], needle, k) <==> OccursAt(s, needle, from + k)
  {
    if from + k + |needle| <= |s| {
      assert s[from..][k..k + |needle|] == s[from + k..from + k + |needle|];
    }
  }

  lemma {:induction false} FirstIs(s: seq<byte>, needle: seq<byte>, p: nat, q: nat)
    requires p <= q && OccursAt(s, needle, q) && forall k :: p <= k < q ==> !OccursAt(s, needle, k)
    ensures FirstFrom(s, needle, p) == Some(q)
    decreases q - p
  {
    if p < q {
      FirstIs(s, needle, p + 1, q);
    }
  }

  /** Whether an occurrence is the first is decided by the text up to its end. */
  lemma FirstInPrefix(piece: seq<byte>, rest: seq<byte>, needle: seq<byte>)
    requires needle != []
    ensures FirstFrom(piece + needle, needle, 0) == Some(|piece|)
       <==> FirstFrom(piece + needle + rest, needle, 0) == Some(|piece|)
  {
    var s := piece + needle;
    forall k | 0 <= k <= |piece| ensures OccursAt(s + rest, needle, k) <==> OccursAt(s, needle, k) {
      OccursInPrefix(s, rest, needle, k);
    }
    assert OccursAt(s, needle, |piece|);
    if FirstFrom(s, needle, 0) == Some(|piece|) {
      FirstIs(s + rest, needle, 0, |piece|);
    } else if FirstFrom(s + rest, needle, 0) == Some(|piece|) {
      FirstIs(s, needle, 0, |piece|);
    }
  }

  /** The pieces, glued with the needle, are the string again, and each occurrence is the leftmost. */
  lemma {:induction false} SplitJoins(s: seq<byte>, needle: seq<byte>)
    requires needle != []
    ensures Joined(Split(s, needle), needle) == s && Leftmost(Split(s, needle), needle)
    decreases |s|
  {
    match FirstFrom(s, needle, 0)
    case None =>
    case Some(q) =>
      var rest := s[q + |needle|..];
      assert s == s[..q] + needle + rest;
      FirstInPrefix(s[..q], rest, needle);
      SplitJoins(rest, needle);
      assert Split(s, needle)[1..] == Split(rest, needle);
  }

  /** No other pieces do. */
  lemma {:induction false} SplitUnique(pieces: seq<seq<byte>>, needle: seq<byte>)
    requires needle != [] && Leftmost(pieces, needle)
    ensures Split(Joined(pieces, needle), needle) == pieces
  {
    if |pieces| > 1 {
      var rest := Joined(pieces[1..], needle);
      FirstInPrefix(pieces[0], rest, needle);
      var s := pieces[0] + needle + rest;
      assert s[..|pieces[0]|] == pieces[0] && s[|pieces[0]| + |needle|..] == rest;
      SplitUnique(pieces[1..], needle);
    }
  }

  /** strstr and strncmp find the same occurrences: what lies before the first one is copied, and the
      search goes on after it. */
  lemma {:induction false} ReplaceSkips(s: seq<byte>, needle: seq<byte>, repl: seq<byte>, q: nat)
    requires needle != [] && q <= |s| && forall k :: 0 <= k < q ==> !OccursAt(s, needle, k)
    ensures ReplaceAll(s, needle, repl) == s[..q] + ReplaceAll(s[q..], needle, repl)
  {
    if q == 0 {
      assert s[0..] == s;
    } else {
      assert !OccursAt(s, needle, 0);
      forall k | 0 <= k < q - 1 ensures !OccursAt(s[1..], needle, k) {
        OccursInSuffix(s, needle, 1, k);
      }
      ReplaceSkips(s[1..], needle, repl, q - 1);
      assert s[1..][q - 1..] == s[q..];
      assert s[..q] == [s[0]] + s[1..][..q - 1];
    }
  }

  /** Replacing is gluing the pieces with the replacement. */
  lemma {:induction false} ReplaceIsJoin(s: seq<byte>, needle: seq<byte>, repl: seq<byte>)
    requires needle != []
    ensures ReplaceAll(s, needle, repl) == Joined(Split(s, needle), repl)
    decreases |s|
  {
    match FirstFrom(s, needle, 0)
    case None =>
      ReplaceSkips(s, needle, repl, |s|);
      assert s[..|s|] == s;
    case Some(q) =>
      ReplaceSkips(s, needle, repl, q);
      var rest := s[q + |needle|..];
      assert s[q..][|needle|..] == rest && OccursAt(s[q..], needle, 0);
      ReplaceIsJoin(rest, needle, repl);
      assert ([s[..q]] + Split(rest, needle))[1..] == Split(rest, needle);
  }

  /** A needle replaced by itself changes nothing. */
  lemma ReplaceBySelf(s: seq<byte>, needle: seq<byte>)
    requires needle != []
    ensures ReplaceAll(s, needle, needle) == s
  {
    ReplaceIsJoin(s, needle, needle);
    SplitJoins(s, needle);
  }

  lemma {:induction false} ReplaceIsText(s: Text, needle: Text, repl: Text)
    requires needle != []
    ensures 0 !in ReplaceAll(s, needle, repl)
  {
    if s != [] {
      ReplaceIsText(if OccursAt(s, needle, 0) then s[|needle|..] else s[1..], needle, repl);
    }
  }

  /** With an empty needle the counting pass never moves on. */
  lemma EmptyNeedleStalls(s: Text, p: nat)
    requires p <= |s|
    ensures FirstFrom(s, [], p) == Some(p)
  {
  }

  // ----- Copying -----

  /** What strncpy leaves in `n` bytes. */
  function Padded(s: seq<byte>, n: nat): (r: seq<byte>)
    ensures |r| == n
  {
    if |s| >= n then s[..n] else s + seq(n - |s|, _ => 0)
  }

  /** A buffer that has changed between two offsets only. */
  lemma Spliced(was: seq<byte>, now: seq<byte>, at: nat, mid: seq<byte>)
    requires |was| == |now| && at + |mid| <= |was|
    requires forall k :: 0 <= k < |was| ==> now[k] == if at <= k < at + |mid| then mid[k - at] else was[k]
    ensures now == was[..at] + mid + was[at + |mid|..]
  {
  }

  method StrNCpy(dest: array<byte>, at: nat, src: Text, n: nat)
    requires at + n <= dest.Length
    modifies dest
    ensures dest[..] == old(dest[..at]) + Padded(src, n) + old(dest[at + n..])
  {
    ghost var was, padded := dest[..], Padded(src, n);
    var i := 0;
    while i < n
      invariant 0 <= i <= n
      invariant forall k :: 0 <= k < dest.Length ==> dest[k] == if at <= k < at + i then padded[k - at] else was[k]
    {
      dest[at + i] := if i < |src| then src[i] else 0;
      i := i + 1;
    }
    Spliced(was, dest[..], at, padded);
    assert was[..at] == old(dest[..at]) && was[at + n..] == old(dest[at + n..]);
  }

  method StrLen(dest: array<byte>, at: nat, ghost s: Text) returns (len: nat)
    requires at <= dest.Length && Holds(dest[at..], s)
    ensures len == |s|
  {
    assert forall k :: 0 <= k < |s| ==> s[k] != 0 && dest[at..][..|s|][k] == dest[at + k];
    len := 0;
    while dest[at + len] != 0
      invariant len <= |s|
      decreases |s| - len
    {
      len := len + 1;
    }
  }

  /** What M_StringCopy leaves in a buffer of `size` bytes. */
  function Copied(src: seq<byte>, size: nat): (r: seq<byte>)
    requires size >= 1
    ensures |r| == size
  {
    Padded(src, size - 1) + [0]
  }

  /** Byte by byte: as much of the text as fits before the last byte, and zeros behind it. */
  lemma CopiedByte(src: Text, size: nat, k: nat)
    requires k < size
    ensures |Copied(src, size)| == size
    ensures Copied(src, size)[k] == if k < |src| && k < size - 1 then src[k] else 0
  {
  }

  function Cut(s: Text, size: nat): Text {
    if |s| <= size then s else s[..size]
  }

  lemma CopiedHolds(src: Text, size: nat, before: seq<byte>, after: seq<byte>)
    requires size >= 1
    ensures Holds((before + Copied(src, size) + after)[|before|..], Cut(src, size - 1))
  {
    var all := before + Copied(src, size) + after;
    assert all[|before|..] == Copied(src, size) + after;
  }

  /** M_StringCopy to `dest + at`. */
  method StringCopy(dest: array<byte>, at: nat, src: Text, dest_size: nat) returns (ok: bool)
    requires at + dest_size <= dest.Length
    modifies dest
    ensures ok <==> |src| < dest_size
    ensures dest_size == 0 ==> dest[..] == old(dest[..])
    ensures dest_size > 0 ==> dest[..] == old(dest[..at]) + Copied(src, dest_size) + old(dest[at + dest_size..])
  {
    if dest_size >= 1 {
      dest[at + dest_size - 1] := 0;
      StrNCpy(dest, at, src, dest_size - 1);
      assert dest[..] == old(dest[..at]) + Copied(src, dest_size) + old(dest[at + dest_size..]);
    } else {
      return false;
    }
    CopiedHolds(src, dest_size, old(dest[..at]), old(dest[at + dest_size..]));
    var len := StrLen(dest, at, Cut(src, dest_size - 1));
    return CharAt(src, len) == 0;
  }

  lemma CopiedWhole(before: seq<byte>, src: seq<byte>, size: nat, after: seq<byte>)
    requires |src| < size
    ensures var all := before + Copied(src, size) + after;
            all[..|before| + |src|] == before + src && all[|before| + |src|] == 0
    ensures |src| + 1 == size ==> Copied(src, size) == src + [0]
  {
    assert Padded(src, size - 1)[..|src|] == src;
  }

  /** M_StringConcat; `dest` holds the string `s`. */
  method StringConcat(dest: array<byte>, src: Text, dest_size: nat, ghost s: Text) returns (ok: bool)
    requires dest_size <= dest.Length && Holds(dest[..], s)
    modifies dest
    ensures ok <==> |s| + |src| < dest_size
    ensures |s| >= dest_size ==> dest[..] == old(dest[..])
    ensures |s| < dest_size ==> dest[..] == s + Copied(src, dest_size - |s|) + old(dest[dest_size..])
  {
    assert dest[0..] == dest[..];
    var offset := StrLen(dest, 0, s);
    if offset > dest_size {
      offset := dest_size;
    }
    ok := StringCopy(dest, offset, src, dest_size - offset);
  }

  lemma {:induction false} JoinedSnoc(pieces: seq<seq<byte>>, p: seq<byte>, glue: seq<byte>)
    requires pieces != []
    ensures Joined(pieces + [p], glue) == Joined(pieces, glue) + glue + p
  {
    if |pieces| > 1 {
      assert (pieces + [p])[1..] == pieces[1..] + [p];
      JoinedSnoc(pieces[1..], p, glue);
      var rest := Joined(pieces[1..], glue);
      assert pieces[0] + glue + (rest + glue + p) == pieces[0] + glue + rest + glue + p;
    } else {
      assert (pieces + [p])[1..] == [p];
    }
  }

  /** The length of the first pieces is at most that of them all. */
  lemma {:induction false} JoinedGrows(pieces: seq<seq<byte>>, k: nat, glue: seq<byte>)
    requires 1 <= k <= |pieces|
    ensures |Joined(pieces[..k], glue)| <= |Joined(pieces, glue)|
    decreases |pieces| - k
  {
    if k < |pieces| {
      assert pieces[..k + 1] == pieces[..k] + [pieces[k]];
      JoinedSnoc(pieces[..k], pieces[k], glue);
      JoinedGrows(pieces, k + 1, glue);
    } else {
      assert pieces[..k] == pieces;
    }
  }

  lemma JoinOneMore(pieces: seq<Text>, k: nat)
    requires 1 <= k < |pieces|
    ensures Joined(pieces[..k + 1], []) == Joined(pieces[..k], []) + pieces[k]
    ensures |Joined(pieces[..k + 1], [])| <= |Joined(pieces, [])|
  {
    assert pieces[..k + 1] == pieces[..k] + [pieces[k]];
    JoinedSnoc(pieces[..k], pieces[k], []);
    JoinedGrows(pieces, k + 1, []);
  }

  /** The first pass of M_StringJoin over `pieces`, of which the first is the fixed argument. */
  method JoinedSize(pieces: seq<Text>) returns (result_len: nat)
    requires pieces != [] && |Joined(pieces, [])| + 1 < 0x1_0000_0000_0000_0000
    ensures result_len == |Joined(pieces, [])| + 1
  {
    JoinedGrows(pieces, 1, []);
    result_len := (|pieces[0]| + 1) % 0x1_0000_0000_0000_0000;
    var i := 1;
    while i < |pieces|
      invariant 1 <= i <= |pieces|
      invariant result_len == |Joined(pieces[..i], [])| + 1
    {
      JoinOneMore(pieces, i);
      result_len := (result_len + |pieces[i]|) % 0x1_0000_0000_0000_0000;
      i := i + 1;
    }
    assert pieces[..i] == pieces;
  }

  /** M_StringJoin: all the strings one after the other, in a block of just the size. */
  method StringJoin(pieces: seq<Text>) returns (result: array<byte>)
    requires pieces != [] && |Joined(pieces, [])| + 1 < 0x1_0000_0000_0000_0000
    ensures fresh(result) && result[..] == Joined(pieces, []) + [0]
  {
    var result_len := JoinedSize(pieces);
    result := new byte[result_len];
    JoinedGrows(pieces, 1, []);
    var ok := StringCopy(result, 0, pieces[0], result_len);
    CopiedWhole([], pieces[0], result_len, []);
    ghost var done: Text := pieces[0];
    var i := 1;
    while i < |pieces|
      invariant 1 <= i <= |pieces| && ok
      invariant done == Joined(pieces[..i], []) && Holds(result[..], done)
      invariant result.Length == result_len
    {
      JoinOneMore(pieces, i);
      ok := StringConcat(result, pieces[i], result_len, done);
      CopiedWhole(done, pieces[i], result_len - |done|, []);
      done := done + pieces[i];
      i := i + 1;
    }
    assert pieces[..i] == pieces;
  }

  // ----- Replacing -----

  lemma StepFrom(s: seq<byte>, p: nat, needle: seq<byte>, repl: seq<byte>)
    requires p < |s| && needle != []
    ensures ReplaceAll(s[p..], needle, repl)
         == if OccursAt(s, needle, p) then repl + ReplaceAll(s[p + |needle|..], needle, repl)
            else [s[p]] + ReplaceAll(s[p + 1..], needle, repl)
  {
    OccursInSuffix(s, needle, p, 0);
    assert s[p..][1..] == s[p + 1..];
    if OccursAt(s, needle, p) {
      assert s[p..][|needle|..] == s[p + |needle|..];
    }
  }

  lemma SkipFrom(s: seq<byte>, p: nat, needle: seq<byte>, repl: seq<byte>, q: nat)
    requires p <= q <= |s| && needle != [] && forall k :: p <= k < q ==> !OccursAt(s, needle, k)
    ensures ReplaceAll(s[p..], needle, repl) == s[p..q] + ReplaceAll(s[q..], needle, repl)
  {
    forall k | 0 <= k < q - p ensures !OccursAt(s[p..], needle, k) {
      OccursInSuffix(s, needle, p, k);
    }
    ReplaceSkips(s[p..], needle, repl, q - p);
    assert s[p..][q - p..] == s[q..] && s[p..][..q - p] == s[p..q];
  }

  /** What one jump of the counting pass skips, and what comes after it. */
  lemma JumpFrom(s: seq<byte>, p: nat, needle: seq<byte>, repl: seq<byte>) returns (q: nat)
    requires p <= |s| && needle != []
    ensures p <= q <= |s|
    ensures ReplaceAll(s[p..], needle, repl) == s[p..q] + ReplaceAll(s[q..], needle, repl)
    ensures match FirstFrom(s, needle, p)
              case None => q == |s|
              case Some(r) =>
                q == r && ReplaceAll(s[q..], needle, repl) == repl + ReplaceAll(s[q + |needle|..], needle, repl)
  {
    var f := FirstFrom(s, needle, p);
    q := if f.Some? then f.value else |s|;
    SkipFrom(s, p, needle, repl, q);
    if f.Some? {
      StepFrom(s, q, needle, repl);
    }
  }

  /** Lengths are of type `size_t`: taking the shorter from the longer wraps, and the sum wraps back. */
  lemma WrapsBack(len: int, more: int)
    ensures (len % 0x1_0000_0000_0000_0000 + more % 0x1_0000_0000_0000_0000) % 0x1_0000_0000_0000_0000
         == (len + more) % 0x1_0000_0000_0000_0000
  {
  }

  /** By how much replacing lengthens the string from `p` on. */
  ghost function Growth(s: seq<byte>, p: nat, needle: seq<byte>, repl: seq<byte>): int
    requires p <= |s| && needle != []
  {
    |ReplaceAll(s[p..], needle, repl)| - |s[p..]|
  }

  lemma JumpGrowth(s: seq<byte>, p: nat, needle: seq<byte>, repl: seq<byte>)
    requires p <= |s| && needle != []
    ensures match FirstFrom(s, needle, p)
              case None => Growth(s, p, needle, repl) == 0
              case Some(q) =>
                Growth(s, p, needle, repl) == |repl| - |needle| + Growth(s, q + |needle|, needle, repl)
  {
    var q := JumpFrom(s, p, needle, repl);
  }

  /** The first pass of M_StringReplace: the size of the result with its terminator. */
  method ReplacedSize(haystack: Text, needle: Text, replacement: Text) returns (result_len: nat)
    requires needle != []
    ensures result_len == (|ReplaceAll(haystack, needle, replacement)| + 1) % 0x1_0000_0000_0000_0000
  {
    result_len := (|haystack| + 1) % 0x1_0000_0000_0000_0000;
    ghost var exact := |haystack| + 1;
    var p := 0;
    assert haystack[0..] == haystack;
    while true
      invariant 0 <= p <= |haystack|
      invariant result_len == exact % 0x1_0000_0000_0000_0000
      invariant exact + Growth(haystack, p, needle, replacement) == |ReplaceAll(haystack, needle, replacement)| + 1
      decreases |haystack| - p
    {
      JumpGrowth(haystack, p, needle, replacement);
      WrapsBack(exact, |replacement| - |needle|);
      var found := FirstFrom(haystack, needle, p);
      if found == None {
        break;
      }
      p := found.value + |needle|;
      result_len := (result_len + (|replacement| - |needle|) % 0x1_0000_0000_0000_0000) % 0x1_0000_0000_0000_0000;
      exact := exact + |replacement| - |needle|;
    }
  }

  /** What one step of the copying pass writes. */
  lemma CopyStep(s: seq<byte>, p: nat, needle: seq<byte>, repl: seq<byte>, done: seq<byte>)
    returns (more: seq<byte>, after: nat)
    requires p < |s| && needle != []
    ensures if OccursAt(s, needle, p) then more == repl && after == p + |needle| else more == [s[p]] && after == p + 1
    ensures after <= |s|
    ensures ReplaceAll(s[p..], needle, repl) == more + ReplaceAll(s[after..], needle, repl)
    ensures done + ReplaceAll(s[p..], needle, repl) == (done + more) + ReplaceAll(s[after..], needle, repl)
  {
    StepFrom(s, p, needle, repl);
    if OccursAt(s, needle, p) {
      more, after := repl, p + |needle|;
    } else {
      more, after := [s[p]], p + 1;
    }
    Regroup(done, more, ReplaceAll(s[after..], needle, repl));
  }

  /** A string that fits, copied behind what is there. */
  method CopyBehind(result: array<byte>, dst: nat, src: Text, dst_len: nat, ghost done: seq<byte>)
    requires dst + dst_len == result.Length && |src| < dst_len && result[..dst] == done
    modifies result
    ensures result[..dst + |src|] == done + src
  {
    var ok := StringCopy(result, dst, src, dst_len);
    assert ok && result[..] == done + Copied(src, dst_len) + [];
    CopiedWhole(done, src, dst_len, []);
    assert result[..dst + |src|] == result[..][..dst + |src|];
  }

  /** M_StringReplace: every occurrence replaced, in a block of just the size, no copy cut short. */
  method StringReplace(haystack: Text, needle: Text, replacement: Text) returns (result: array<byte>)
    requires needle != []
    requires |ReplaceAll(haystack, needle, replacement)| + 1 < 0x1_0000_0000_0000_0000
    ensures fresh(result) && result[..] == ReplaceAll(haystack, needle, replacement) + [0]
  {
    var result_len := ReplacedSize(haystack, needle, replacement);
    result := new byte[result_len];
    var dst, dst_len, p := 0, result_len, 0;
    ghost var done: seq<byte> := [];
    assert haystack[0..] == haystack;
    while p < |haystack|
      invariant 0 <= p <= |haystack| && dst == |done| && dst + dst_len == result.Length
      invariant dst_len == |ReplaceAll(haystack[p..], needle, replacement)| + 1
      invariant result[..dst] == done
      invariant done + ReplaceAll(haystack[p..], needle, replacement) == ReplaceAll(haystack, needle, replacement)
      decreases |haystack| - p
    {
      ghost var more, after := CopyStep(haystack, p, needle, replacement, done);
      if OccursAt(haystack, needle, p) {
        CopyBehind(result, dst, replacement, dst_len, done);
        p := p + |needle|;
        dst := dst + |replacement|;
        dst_len := dst_len - |replacement|;
      } else {
        result[dst] := haystack[p];
        assert result[..dst + 1] == done + [haystack[p]];
        dst := dst + 1;
        dst_len := dst_len - 1;
        p := p + 1;
      }
      assert p == after && result[..dst] == done + more;
      done := done + more;
    }
    result[dst] := 0;
  }
}
