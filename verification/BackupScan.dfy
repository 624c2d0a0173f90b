/** The chunked search for a marker in a binary backup file. */
module BackupScan {

  type byte = b: int | 0 <= b < 256

  predicate OccursAt(needle: seq<byte>, s: seq<byte>, i: int)
  {
    0 <= i <= |s| - |needle| && s[i..i + |needle|] == needle
  }

  predicate Occurs(needle: seq<byte>, s: seq<byte>)
  {
    exists i :: 0 <= i <= |s| - |needle| && OccursAt(needle, s, i)
  }

  /** What one read returns: a whole chunk, less only at the end of the file. */
  /** To occur is to stand somewhere in the text, whole and in order. */
  lemma OccursIff(needle: seq<byte>, s: seq<byte>)
    ensures Occurs(needle, s) <==> exists head, tail :: s == head + needle + tail
  {
    if Occurs(needle, s) {
      var i :| 0 <= i <= |s| - |needle| && OccursAt(needle, s, i);
      assert s == s[..i] + needle + s[i + |needle|..];
    }
    if head, tail :| s == head + needle + tail {
      assert OccursAt(needle, s, |head|);
    }
  }

  function ReadAt(content: seq<byte>, at: nat, size: nat): seq<byte>
    requires at <= |content|
  {
    if at + size <= |content| then content[at..at + size] else content[at..]
  }

  /** The last n bytes; a slice from minus zero, or from further than the length, is the whole chunk. */
  function LastBytes(chunk: seq<byte>, n: nat): seq<byte>
  {
    if n == 0 || n > |chunk| then chunk else chunk[|chunk| - n..]
  }

  /** Where a chunk can start: at a multiple of the chunk size. */
  predicate ChunkStart(r: int, size: nat)
    requires size > 0
    decreases if r < 0 then 0 else r
  {
    r == 0 || (r >= size && ChunkStart(r - size, size))
  }

  /** How many bytes of the previous chunk are searched again with the next. */
  function Overlap(n: nat, size: nat): nat
  {
    if n == 0 || n > size then size else n
  }

  /** The bytes searched in the round that starts reading at r. */
  function Window(content: seq<byte>, n: nat, size: nat, r: nat): seq<byte>
    requires size > 0 && r <= |content| && ChunkStart(r, size)
  {
    if r == 0 then ReadAt(content, 0, size)
    else content[r - Overlap(n, size)..r] + ReadAt(content, r, size)
  }

  ghost predicate FoundAt(content: seq<byte>, needle: seq<byte>, size: nat, limit: int, r: int)
    requires size > 0
  {
    && 0 <= r < |content| && r < limit && ChunkStart(r, size)
    && Occurs(needle, Window(content, |needle|, size, r))
  }

  /** Some round finds the needle. */
  ghost predicate Found(content: seq<byte>, needle: seq<byte>, size: nat, limit: int)
    requires size > 0
  {
    exists r :: FoundAt(content, needle, size, limit, r)
  }

  lemma {:induction false} ChunkStartsApart(r: nat, q: nat, size: nat)
    requires size > 0 && ChunkStart(r, size) && ChunkStart(q, size) && r < q + size
    ensures r <= q
    decreases q
  {
    if r > 0 && q > 0 {
      ChunkStartsApart(r - size, q - size, size);
    }
  }

  /** Either the file is read to its end, or the next chunk starts here and the tail precedes it. */
  ghost predicate Position(content: seq<byte>, n: nat, size: nat, read: nat, tail: seq<byte>)
    requires size > 0
  {
    && read <= |content|
    && (read == |content| || ChunkStart(read, size))
    && (read < |content| ==> if read == 0 then tail == [] else tail == content[read - Overlap(n, size)..read])
  }

  lemma NextPosition(content: seq<byte>, n: nat, size: nat, read: nat, tail: seq<byte>)
    requires size > 0 && Position(content, n, size, read, tail) && read < |content|
    ensures tail + ReadAt(content, read, size) == Window(content, n, size, read)
    ensures var chunk := ReadAt(content, read, size);
      Position(content, n, size, read + |chunk|, LastBytes(chunk, n))
  {
    var chunk := ReadAt(content, read, size);
    if read + size <= |content| {
      var next := read + size;
      assert ChunkStart(next, size);
      assert chunk == content[read..next];
      assert LastBytes(chunk, n) == content[next - Overlap(n, size)..next];
    }
  }

  ghost predicate NotBefore(content: seq<byte>, needle: seq<byte>, size: nat, limit: int, read: nat)
    requires size > 0
  {
    forall r :: r < read ==> !FoundAt(content, needle, size, limit, r)
  }

  lemma NotBeforeNext(content: seq<byte>, needle: seq<byte>, size: nat, limit: int, read: nat)
    requires size > 0 && read < |content| && ChunkStart(read, size)
    requires NotBefore(content, needle, size, limit, read)
    requires !Occurs(needle, Window(content, |needle|, size, read))
    ensures NotBefore(content, needle, size, limit, read + |ReadAt(content, read, size)|)
  {
    forall r | r < read + |ReadAt(content, read, size)|
      ensures !FoundAt(content, needle, size, limit, r)
    {
      if r > read && 0 <= r && ChunkStart(r, size) {
        ChunkStartsApart(r, read, size);
      }
    }
  }

  method BinaryContains(content: seq<byte>, needle: seq<byte>, size: nat, limit: int) returns (found: bool)
    requires size > 0
    ensures found <==> Found(content, needle, size, limit)
  {
    var read := 0;
    var tail: seq<byte> := [];
    while read < limit
      invariant read >= 0
      invariant Position(content, |needle|, size, read, tail)
      invariant NotBefore(content, needle, size, limit, read)
      decreases limit - read
    {
      var chunk := ReadAt(content, read, size);
      if chunk == [] {
        return false;
      }
      NextPosition(content, |needle|, size, read, tail);
      if Occurs(needle, tail + chunk) {
        assert FoundAt(content, needle, size, limit, read);
        return true;
      }
      NotBeforeNext(content, needle, size, limit, read);
      tail := LastBytes(chunk, |needle|);
      read := read + |chunk|;
    }
    return false;
  }

  // ----- when the search is exact -----

  /** The limit rounded up to whole chunks. */
  function RoundedUp(limit: int, size: nat): nat
    requires size > 0
    decreases if limit < 0 then 0 else limit
  {
    if limit <= 0 then 0 else size + RoundedUp(limit - size, size)
  }

  /** The part of the file the rounds read. */
  function PrefixRead(content: seq<byte>, size: nat, limit: int): seq<byte>
    requires size > 0
  {
    var n := RoundedUp(limit, size);
    if n <= |content| then content[..n] else content
  }

  lemma {:induction false} ChunkOf(at: nat, size: nat) returns (r: nat)
    requires size > 0
    ensures ChunkStart(r, size) && r <= at < r + size
  {
    if at < size {
      r := 0;
    } else {
      var q := ChunkOf(at - size, size);
      r := q + size;
    }
  }

  lemma {:induction false} StartBelowLimit(r: nat, size: nat, limit: int)
    requires size > 0 && ChunkStart(r, size)
    ensures r < limit ==> r + size <= RoundedUp(limit, size)
    ensures r < RoundedUp(limit, size) ==> r < limit
    decreases r
  {
    if r > 0 {
      StartBelowLimit(r - size, size, limit - size);
    }
  }

  /** The bytes a round searches are one stretch of the file. */
  lemma WindowIsSlice(content: seq<byte>, n: nat, size: nat, r: nat)
    requires size > 0 && r < |content| && ChunkStart(r, size)
    ensures var lo := if r == 0 then 0 else r - Overlap(n, size);
      var hi := if r + size <= |content| then r + size else |content|;
      0 <= lo <= hi <= |content| && Window(content, n, size, r) == content[lo..hi]
  {
    var hi := if r + size <= |content| then r + size else |content|;
    assert ReadAt(content, r, size) == content[r..hi];
    if r > 0 {
      Adjacent(content, r - Overlap(n, size), r, hi);
    }
  }

  lemma Adjacent(s: seq<byte>, a: nat, b: nat, c: nat)
    requires a <= b <= c <= |s|
    ensures s[a..b] + s[b..c] == s[a..c]
  {
  }

  lemma SliceOccurs(needle: seq<byte>, s: seq<byte>, lo: nat, hi: nat, i: int)
    requires lo <= hi <= |s|
    ensures OccursAt(needle, s[lo..hi], i) <==> 0 <= i && i + lo + |needle| <= hi && OccursAt(needle, s, i + lo)
  {
    if 0 <= i && i + lo + |needle| <= hi {
      var t, n := s[lo..hi], |needle|;
      assert forall k :: i <= k < i + n ==> t[k] == s[k + lo];
      assert t[i..i + n] == s[i + lo..i + lo + n];
    }
  }

  /** Nothing is found that the part read does not hold. */
  lemma FoundOccurs(content: seq<byte>, needle: seq<byte>, size: nat, limit: int)
    requires size > 0 && Found(content, needle, size, limit)
    ensures Occurs(needle, PrefixRead(content, size, limit))
  {
    var r :| FoundAt(content, needle, size, limit, r);
    var n := |needle|;
    var lo := if r == 0 then 0 else r - Overlap(n, size);
    var hi := if r + size <= |content| then r + size else |content|;
    WindowIsSlice(content, n, size, r);
    StartBelowLimit(r, size, limit);
    var i :| 0 <= i <= hi - lo - n && OccursAt(needle, Window(content, n, size, r), i);
    SliceOccurs(needle, content, lo, hi, i);
    var p := PrefixRead(content, size, limit);
    assert p == content[0..|p|];
    SliceOccurs(needle, content, 0, |p|, i + lo);
    assert OccursAt(needle, p, i + lo);
  }

  /** The round that reads the last byte of an occurrence holds the whole occurrence. */
  lemma HeldByItsRound(content: seq<byte>, needle: seq<byte>, size: nat, r: nat, i: nat)
    requires 1 <= |needle| <= size + 1 && size > 0 && ChunkStart(r, size) && OccursAt(needle, content, i)
    requires r <= i + |needle| - 1 < r + size
    ensures r < |content| && Occurs(needle, Window(content, |needle|, size, r))
  {
    var n := |needle|;
    WindowIsSlice(content, n, size, r);
    var lo := if r == 0 then 0 else r - Overlap(n, size);
    var hi := if r + size <= |content| then r + size else |content|;
    SliceOccurs(needle, content, lo, hi, i - lo);
    assert OccursAt(needle, Window(content, n, size, r), i - lo);
  }

  /** A needle of one to size + 1 bytes is found wherever it lies, across chunk ends too. */
  lemma OccursFound(content: seq<byte>, needle: seq<byte>, size: nat, limit: int)
    requires 1 <= |needle| <= size + 1 && size > 0
    requires Occurs(needle, PrefixRead(content, size, limit))
    ensures Found(content, needle, size, limit)
  {
    var n := |needle|;
    var p := PrefixRead(content, size, limit);
    var i :| 0 <= i <= |p| - n && OccursAt(needle, p, i);
    assert p == content[0..|p|];
    SliceOccurs(needle, content, 0, |p|, i);
    var r := ChunkOf(i + n - 1, size);
    StartBelowLimit(r, size, limit);
    HeldByItsRound(content, needle, size, r, i);
    assert FoundAt(content, needle, size, limit, r);
  }

  ghost predicate Exact(content: seq<byte>, needle: seq<byte>, size: nat, limit: int)
    requires size > 0
  {
    Found(content, needle, size, limit) <==> Occurs(needle, PrefixRead(content, size, limit))
  }

  function Padding(pad: byte, n: nat): (s: seq<byte>)
    ensures |s| == n && forall k :: 0 <= k < n ==> s[k] == pad
  {
    seq(n, _ => pad)
  }

  /** So many bytes of padding that a needle of length n ends one byte into a chunk. */
  lemma {:induction false} PadTo(n: nat, size: nat) returns (p: nat, r: nat)
    requires size > 0 && n > 0
    ensures ChunkStart(r, size) && p + n == r + 1 && r >= n - 1
  {
    var q := ChunkOf(n - 1, size);
    if q == n - 1 {
      p, r := 0, q;
    } else {
      r := q + size;
      p := r + 1 - n;
    }
  }

  /** A longer needle is missed where its last byte alone begins a chunk. */
  lemma LongNeedleMissed(needle: seq<byte>, size: nat) returns (content: seq<byte>, limit: int)
    requires size > 0 && |needle| >= size + 2
    ensures !Exact(content, needle, size, limit)
  {
    var n := |needle|;
    var pad: byte := if needle[0] == 0 then 1 else 0;
    var p, r := PadTo(n, size);
    content := Padding(pad, p) + needle;
    limit := |content|;
    RoundsCover(|content|, size);
    assert content[p..p + n] == needle;
    assert PrefixRead(content, size, limit) == content;
    assert OccursAt(needle, content, p);
    assert Occurs(needle, PrefixRead(content, size, limit));
    forall q ensures !FoundAt(content, needle, size, limit, q) {
      if 0 <= q < |content| && ChunkStart(q, size) {
        OnlyAtPadding(content, needle, p, pad, size, q);
        ChunkStartsApart(q, r, size);
      }
    }
  }

  lemma {:induction false} RoundsCover(limit: nat, size: nat)
    requires size > 0
    ensures RoundedUp(limit, size) >= limit
  {
    if limit > size {
      RoundsCover(limit - size, size);
    }
  }

  lemma OnlyAtPadding(content: seq<byte>, needle: seq<byte>, p: nat, pad: byte, size: nat, q: nat)
    requires size > 0 && |needle| >= size + 2 && needle[0] != pad
    requires content == Padding(pad, p) + needle
    requires ChunkStart(|content| - 1, size) && q < |content| && ChunkStart(q, size)
    ensures !Occurs(needle, Window(content, |needle|, size, q))
  {
    var n := |needle|;
    var lo := if q == 0 then 0 else q - Overlap(n, size);
    var hi := if q + size <= |content| then q + size else |content|;
    WindowIsSlice(content, n, size, q);
    if q < |content| - 1 { ChunkStartsApart(q + size, |content| - 1, size); }
    forall i ensures !OccursAt(needle, content[lo..hi], i) {
      SliceOccurs(needle, content, lo, hi, i);
      if 0 <= i && i + lo + n <= hi && i + lo < p {
        assert content[i + lo..i + lo + n][0] == pad;
      }
    }
  }

  /** The search is exact for every file and limit, if and only if the needle has 1 to size + 1 bytes. */
  lemma ExactIffNeedleFits(needle: seq<byte>, size: nat)
    requires size > 0
    ensures (forall content: seq<byte>, limit: int :: Exact(content, needle, size, limit))
      <==> 1 <= |needle| <= size + 1
  {
    if 1 <= |needle| <= size + 1 {
      forall content: seq<byte>, limit: int ensures Exact(content, needle, size, limit) {
        if Found(content, needle, size, limit) {
          FoundOccurs(content, needle, size, limit);
        } else if Occurs(needle, PrefixRead(content, size, limit)) {
          OccursFound(content, needle, size, limit);
        }
      }
    } else if needle == [] {
      var content: seq<byte> := [];
      assert OccursAt(needle, PrefixRead(content, size, 1), 0);
      assert !Exact(content, needle, size, 1);
    } else {
      var content, limit := LongNeedleMissed(needle, size);
    }
  }

  const CHUNK_BYTES: nat := 1024 * 1024
  const DEFAULT_LIMIT: nat := 32 * 1024 * 1024

  lemma {:induction false} WholeChunksAsTheyAre(r: nat, size: nat)
    requires size > 0 && ChunkStart(r, size)
    ensures RoundedUp(r, size) == r
  {
    if r > 0 {
      WholeChunksAsTheyAre(r - size, size);
    }
  }

  lemma {:induction false} StartOfChunk(k: nat)
    ensures ChunkStart(k * CHUNK_BYTES, CHUNK_BYTES)
  {
    if k > 0 {
      StartOfChunk(k - 1);
      assert k * CHUNK_BYTES - CHUNK_BYTES == (k - 1) * CHUNK_BYTES;
    }
  }

  /** With the default sizes, a marker is found exactly when it lies in the first 32 MiB. */
  lemma DefaultSearchesThirtyTwoMiB(content: seq<byte>, needle: seq<byte>)
    requires 1 <= |needle| <= CHUNK_BYTES + 1
    ensures Found(content, needle, CHUNK_BYTES, DEFAULT_LIMIT)
      <==> Occurs(needle, if |content| >= DEFAULT_LIMIT then content[..DEFAULT_LIMIT] else content)
  {
    StartOfChunk(32);
    WholeChunksAsTheyAre(DEFAULT_LIMIT, CHUNK_BYTES);
    ExactIffNeedleFits(needle, CHUNK_BYTES);
    assert Exact(content, needle, CHUNK_BYTES, DEFAULT_LIMIT);
  }
}
