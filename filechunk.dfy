/** `FileChunkHash`, the part of the digest engine that reads one regular file.
    Both snapshots of `DeltaHash` carry the same text of it, so both engines
    use this module.

    In full mode (`chunkCount == -1`) the file is read front to back through a
    buffer of `1024 * chunkSize` bytes. In sampled mode `chunkCount + 2` reads
    are made; after each read the position moves on by the gap
    `(size - count * buffer) / (count - 1)`, a truncating division, so the
    samples are spread over the file (or overlap, when the gap is negative). */
module FileChunk {
  import opened Base
  import opened FileSystem

  /** The largest chunk size (in kilobytes) whose buffer size `1024 * chunkSize`
      still fits in a Java `int`. */
  const MAX_CHUNK_SIZE: int := INT_MAX / 1024

  /** One successful `read`: `length` bytes starting at `offset`. */
  datatype Read = Read(offset: nat, length: nat)

  /** What `FileChannel.read` into a fresh buffer of `bb` bytes returns at
      position `pos` of a file of `size` bytes: 0 when the buffer has no room,
      -1 at or past the end of the file, otherwise as many bytes as fit. */
  function ReadSize(size: nat, bb: nat, pos: nat): (n: int)
    ensures bb == 0 ==> n == 0
    ensures bb > 0 && pos >= size ==> n == -1
    ensures bb > 0 && pos < size ==> 0 < n <= bb && pos + n <= size && (n == bb || pos + n == size)
  {
    if bb == 0 then 0
    else if pos >= size then -1
    else if size - pos < bb then size - pos
    else bb
  }

  /** `ByteBuffer.allocate(bb)` followed by `read`: the buffer (zero-filled
      past what was read) and the count the read returns. */
  function ChannelRead(data: Bytes, pos: nat, bb: nat): (res: (Bytes, int))
    ensures |res.0| == bb
    ensures res.1 == ReadSize(|data|, bb, pos)
    ensures res.1 > 0 ==> res.0[..res.1] == data[pos..pos + res.1]
    ensures forall k :: (if res.1 > 0 then res.1 else 0) <= k < bb ==> res.0[k] == 0
  {
    var n := ReadSize(|data|, bb, pos);
    if n <= 0 then (ZeroBytes(bb), n)
    else (data[pos..pos + n] + ZeroBytes(bb - n), n)
  }

  /** Every read lies inside a file of `size` bytes. */
  predicate Within(rs: seq<Read>, size: nat) {
    forall k :: 0 <= k < |rs| ==> rs[k].offset + rs[k].length <= size
  }

  /** The full-mode reads from position `pos` on: one per loop turn, until a read returns 0 or -1. */
  function FullReads(size: nat, bb: nat, pos: nat): (rs: seq<Read>)
    decreases size - pos
  {
    var n := ReadSize(size, bb, pos);
    if n <= 0 then [] else [Read(pos, n)] + FullReads(size, bb, pos + n)
  }

  /** The sampled-mode reads from position `pos` with `remaining` loop turns
      left, each followed by a move of `delta`; `Err` when a move aims before
      the start of the file (`position` throws `IllegalArgumentException`). */
  function SampledReads(size: nat, bb: nat, delta: int, pos: nat, remaining: nat): (r: Result<seq<Read>>)
    ensures r.Err? ==> r.error == IllegalArgument
    ensures r.Ok? ==> |r.value| <= remaining
    decreases remaining
  {
    if remaining == 0 then Ok([])
    else
      var n := ReadSize(size, bb, pos);
      if n <= 0 then Ok([])
      else if pos + n + delta < 0 then Err(IllegalArgument)
      else Prepend([Read(pos, n)], SampledReads(size, bb, delta, pos + n + delta, remaining - 1))
  }

  /** `rs` followed by the reads of `r`, or `r`'s error. */
  function Prepend(rs: seq<Read>, r: Result<seq<Read>>): (p: Result<seq<Read>>)
    ensures p.Ok? <==> r.Ok?
    ensures p.Ok? ==> p.value == rs + r.value
    ensures p.Err? ==> p == r
  {
    match r
    case Ok(tail) => Ok(rs + tail)
    case Err(e) => Err(e)
  }

  /** The gap between two samples, `(size - count * bb) / (count - 1)` in Java's truncating division. */
  function Gap(size: nat, bb: nat, count: int): (delta: int)
    requires count >= 2
  {
    TruncDiv(size - count * bb, count - 1)
  }

  /** The reads `FileChunkHash` makes on a file of `size` bytes. */
  function ReadPlan(size: nat, chunkSize: nat, chunkCount: int): (r: Result<seq<Read>>)
    requires chunkCount >= -1
    ensures r.Err? ==> r.error == IllegalArgument && chunkCount >= 0
  {
    var bb := 1024 * chunkSize;
    if chunkCount == -1 then Ok(FullReads(size, bb, 0))
    else SampledReads(size, bb, Gap(size, bb, chunkCount + 2), 0, chunkCount + 2)
  }

  /** The bytes of `data` that read `x` covers (nothing when it lies outside). */
  function Slice(data: Bytes, x: Read): (s: Bytes)
    ensures x.offset + x.length <= |data| ==> s == data[x.offset..x.offset + x.length]
  {
    if x.offset + x.length <= |data| then data[x.offset..x.offset + x.length] else []
  }

  /** The bytes the reads `rs` pass to `md.update`, in order. */
  function Feed(data: Bytes, rs: seq<Read>): Bytes {
    if |rs| == 0 then [] else Slice(data, rs[0]) + Feed(data, rs[1..])
  }

  /** The bytes a read plan feeds, or its error. */
  function FeedPlan(data: Bytes, plan: Result<seq<Read>>): (r: Result<Bytes>)
    ensures r.Ok? <==> plan.Ok?
    ensures r.Err? ==> r == Err(plan.error)
  {
    match plan
    case Err(e) => Err(e)
    case Ok(rs) => Ok(Feed(data, rs))
  }

  /** What `FileChunkHash(path, chunkSize, chunkCount, algorithm)` returns or raises. */
  function ChunkDigest(algorithm: DigestFn, node: Node, chunkSize: int, chunkCount: int): (r: Result<Bytes>)
    ensures r.Ok? ==> |r.value| == DIGEST_LENGTH
  {
    if chunkCount < -1 then Err(IllegalArgument)
    else if chunkSize < 0 then Err(IllegalArgument)
    else if node.Missing? then Err(FileNotFound)
    else if !node.RegularFile? then Err(IOFailure)
    else FileDigest(algorithm, node.data, chunkSize, chunkCount)
  }

  /** The digest of the bytes the read plan feeds, or the plan's error. */
  function FileDigest(algorithm: DigestFn, data: Bytes, chunkSize: nat, chunkCount: int): (r: Result<Bytes>)
    requires chunkCount >= -1
    ensures r.Ok? ==> |r.value| == DIGEST_LENGTH
  {
    match ReadPlan(|data|, chunkSize, chunkCount)
    case Err(e) => Err(e)
    case Ok(rs) => Ok(algorithm(Feed(data, rs)))
  }

  /** `FileChunkHash`: validates the arguments, then runs the read loop and
      digests the bytes the loop passes to the digest. Opening something that
      is not a regular file fails with an I/O error. */
  method FileChunkHash(node: Node, chunkSize: int, chunkCount: int, algorithm: DigestFn) returns (r: Result<Bytes>)
    requires chunkSize <= MAX_CHUNK_SIZE && chunkCount <= INT_MAX - 2
    ensures r == ChunkDigest(algorithm, node, chunkSize, chunkCount)
  {
    if chunkCount < 0 && chunkCount != -1 {
      return Err(IllegalArgument);
    }
    if chunkSize < 0 {
      return Err(IllegalArgument);
    }
    if node.Missing? {
      return Err(FileNotFound);
    }
    if !node.RegularFile? {
      return Err(IOFailure);
    }
    r := DigestFile(node.data, chunkSize, chunkCount, algorithm);
  }

  /** The rest of `FileChunkHash` once the file is open: sets up the buffer
      and the sampling gap, runs the read loop and digests what it fed. */
  method DigestFile(data: Bytes, chunkSize: nat, chunkCount: int, algorithm: DigestFn) returns (r: Result<Bytes>)
    requires chunkSize <= MAX_CHUNK_SIZE && -1 <= chunkCount <= INT_MAX - 2
    ensures r == FileDigest(algorithm, data, chunkSize, chunkCount)
  {
    var fullHash := chunkCount == -1;
    var bbSize: nat := 1024 * chunkSize;
    var count := chunkCount;
    var deltaPosition := 0;
    if !fullHash {
      count := chunkCount + 2;
      deltaPosition := Gap(|data|, bbSize, count);
    }
    var stream := ReadLoop(data, bbSize, count, deltaPosition, fullHash);
    assert stream == FeedPlan(data, ReadPlan(|data|, chunkSize, chunkCount));
    match stream
    case Err(e) => r := Err(e);
    case Ok(fed) => r := Ok(algorithm(fed));
  }

  /** The `for` loop of `FileChunkHash`: the bytes it passes to `md.update`,
      in order, or the error a seek before the start of the file raises. */
  method ReadLoop(data: Bytes, bbSize: nat, count: int, deltaPosition: int, fullHash: bool) returns (r: Result<Bytes>)
    requires !fullHash ==> count >= 0
    ensures fullHash ==> r == Ok(Feed(data, FullReads(|data|, bbSize, 0)))
    ensures !fullHash ==> r == FeedPlan(data, SampledReads(|data|, bbSize, deltaPosition, 0, count))
  {
    var size := |data|;
    var fed: Bytes := [];
    var pos: nat := 0;
    var i := 0;
    ghost var done: seq<Read> := [];
    PendingStart(data, bbSize, count, deltaPosition, fullHash);
    while i < count || fullHash
      invariant fed == Feed(data, done)
      invariant Pending(data, bbSize, count, deltaPosition, fullHash, done, pos, i)
      decreases if fullHash then size - pos else count - i
    {
      var res := ChannelRead(data, pos, bbSize);
      var buffer, readSize := res.0, res.1;
      if readSize <= 0 {
        break;
      }
      ghost var read := Read(pos, readSize);
      fed := Update(data, fed, buffer, readSize, pos);
      FeedSnoc(data, done, read);
      ghost var before := done;
      done := done + [read];
      pos := pos + readSize;
      if !fullHash {
        var target := deltaPosition + pos;
        if target < 0 {
          PendingFails(data, bbSize, count, deltaPosition, before, read.offset, i);
          return Err(IllegalArgument);
        }
        pos := target;
      }
      PendingStep(data, bbSize, count, deltaPosition, fullHash, before, read.offset, i);
      i := i + 1;
    }
    PendingDone(data, bbSize, count, deltaPosition, fullHash, done, pos, i);
    r := Ok(fed);
  }

  /** `md.update(buffer)` for a full buffer, `md.update(buffer, 0, readSize)` otherwise:
      either way the bytes of the read are appended. */
  method Update(ghost data: Bytes, fed: Bytes, buffer: Bytes, readSize: nat, ghost pos: nat) returns (r: Bytes)
    requires 0 < readSize <= |buffer| && pos + readSize <= |data|
    requires buffer[..readSize] == data[pos..pos + readSize]
    ensures r == fed + Slice(data, Read(pos, readSize))
  {
    if readSize == |buffer| {
      assert buffer == buffer[..readSize];
      r := fed + buffer;
    } else {
      r := fed + buffer[..readSize];
    }
  }

  /** What remains of the read plan when the loop has made the reads `done`
      and is at position `pos` with `i` turns taken. */
  ghost predicate Pending(data: Bytes, bb: nat, count: int, delta: int, fullHash: bool, done: seq<Read>, pos: nat, i: int) {
    if fullHash then pos <= |data| && FullReads(|data|, bb, 0) == done + FullReads(|data|, bb, pos)
    else 0 <= i <= count && SampledReads(|data|, bb, delta, 0, count) == Prepend(done, SampledReads(|data|, bb, delta, pos, count - i))
  }

  lemma PendingStart(data: Bytes, bb: nat, count: int, delta: int, fullHash: bool)
    requires !fullHash ==> count >= 0
    ensures Pending(data, bb, count, delta, fullHash, [], 0, 0)
  {
    if !fullHash {
      PrependNothing(SampledReads(|data|, bb, delta, 0, count));
    }
  }

  /** One turn that reads at `pos` and, in sampled mode, moves to a valid position. */
  lemma PendingStep(data: Bytes, bb: nat, count: int, delta: int, fullHash: bool, done: seq<Read>, pos: nat, i: int)
    requires Pending(data, bb, count, delta, fullHash, done, pos, i)
    requires ReadSize(|data|, bb, pos) > 0 && (!fullHash ==> i < count && pos + ReadSize(|data|, bb, pos) + delta >= 0)
    ensures Pending(data, bb, count, delta, fullHash, done + [Read(pos, ReadSize(|data|, bb, pos))],
      if fullHash then pos + ReadSize(|data|, bb, pos) else pos + ReadSize(|data|, bb, pos) + delta, i + 1)
  {
    if fullHash {
      FullInvariantStep(|data|, bb, done, pos);
    } else {
      SampledInvariantStep(|data|, bb, delta, count, i, done, pos);
    }
  }

  /** A sampled-mode move before the start of the file. */
  lemma PendingFails(data: Bytes, bb: nat, count: int, delta: int, done: seq<Read>, pos: nat, i: int)
    requires Pending(data, bb, count, delta, false, done, pos, i)
    requires ReadSize(|data|, bb, pos) > 0 && i < count && pos + ReadSize(|data|, bb, pos) + delta < 0
    ensures SampledReads(|data|, bb, delta, 0, count) == Err(IllegalArgument)
  {
    SampledFailsAt(|data|, bb, delta, count, i, done, pos);
  }

  /** The loop ends when a read returns 0 or -1, or, in sampled mode, after `count` turns. */
  lemma PendingDone(data: Bytes, bb: nat, count: int, delta: int, fullHash: bool, done: seq<Read>, pos: nat, i: int)
    requires Pending(data, bb, count, delta, fullHash, done, pos, i)
    requires ReadSize(|data|, bb, pos) <= 0 || (!fullHash && i >= count)
    ensures fullHash ==> FullReads(|data|, bb, 0) == done
    ensures !fullHash ==> SampledReads(|data|, bb, delta, 0, count) == Ok(done)
  {
    assert done + [] == done;
  }

  /** The full-mode loop invariant survives one turn that reads at `pos`. */
  lemma FullInvariantStep(size: nat, bb: nat, done: seq<Read>, pos: nat)
    requires ReadSize(size, bb, pos) > 0
    requires FullReads(size, bb, 0) == done + FullReads(size, bb, pos)
    ensures FullReads(size, bb, 0) == (done + [Read(pos, ReadSize(size, bb, pos))]) + FullReads(size, bb, pos + ReadSize(size, bb, pos))
  {
    FullStep(size, bb, pos);
    ConsAssoc(done, Read(pos, ReadSize(size, bb, pos)), FullReads(size, bb, pos + ReadSize(size, bb, pos)));
  }

  /** The sampled-mode loop invariant survives one turn that reads at `pos` and moves to a valid position. */
  lemma SampledInvariantStep(size: nat, bb: nat, delta: int, count: int, i: int, done: seq<Read>, pos: nat)
    requires 0 <= i < count && ReadSize(size, bb, pos) > 0 && pos + ReadSize(size, bb, pos) + delta >= 0
    requires SampledReads(size, bb, delta, 0, count) == Prepend(done, SampledReads(size, bb, delta, pos, count - i))
    ensures SampledReads(size, bb, delta, 0, count)
         == Prepend(done + [Read(pos, ReadSize(size, bb, pos))], SampledReads(size, bb, delta, pos + ReadSize(size, bb, pos) + delta, count - (i + 1)))
  {
    var rest := SampledReads(size, bb, delta, pos + ReadSize(size, bb, pos) + delta, count - i - 1);
    SampledStep(size, bb, delta, pos, count - i);
    PrependAssoc(done, Read(pos, ReadSize(size, bb, pos)), rest);
  }

  /** A move before the start of the file makes the whole sampled plan fail. */
  lemma SampledFailsAt(size: nat, bb: nat, delta: int, count: int, i: int, done: seq<Read>, pos: nat)
    requires 0 <= i < count && ReadSize(size, bb, pos) > 0 && pos + ReadSize(size, bb, pos) + delta < 0
    requires SampledReads(size, bb, delta, 0, count) == Prepend(done, SampledReads(size, bb, delta, pos, count - i))
    ensures SampledReads(size, bb, delta, 0, count) == Err(IllegalArgument)
  {
  }

  /** Appending one read appends its slice to the fed bytes. */
  lemma {:induction false} FeedSnoc(data: Bytes, rs: seq<Read>, x: Read)
    ensures Feed(data, rs + [x]) == Feed(data, rs) + Slice(data, x)
    decreases |rs|
  {
    if |rs| == 0 {
      assert rs + [x] == [x];
    } else {
      assert (rs + [x])[1..] == rs[1..] + [x];
      assert (rs + [x])[0] == rs[0];
      FeedSnoc(data, rs[1..], x);
    }
  }

  /** One turn of the full-mode loop. */
  lemma FullStep(size: nat, bb: nat, pos: nat)
    requires ReadSize(size, bb, pos) > 0
    ensures FullReads(size, bb, pos) == [Read(pos, ReadSize(size, bb, pos))] + FullReads(size, bb, pos + ReadSize(size, bb, pos))
  {
  }

  lemma ConsAssoc(a: seq<Read>, x: Read, b: seq<Read>)
    ensures a + ([x] + b) == (a + [x]) + b
  {
  }

  /** One turn of the sampled-mode loop that reads and then moves to a valid position. */
  lemma SampledStep(size: nat, bb: nat, delta: int, pos: nat, remaining: nat)
    requires remaining > 0 && ReadSize(size, bb, pos) > 0 && pos + ReadSize(size, bb, pos) + delta >= 0
    ensures SampledReads(size, bb, delta, pos, remaining)
         == Prepend([Read(pos, ReadSize(size, bb, pos))], SampledReads(size, bb, delta, pos + ReadSize(size, bb, pos) + delta, remaining - 1))
  {
  }

  lemma PrependNothing(r: Result<seq<Read>>)
    ensures Prepend([], r) == r
  {
    match r
    case Ok(tail) => assert [] + tail == tail;
    case Err(_) =>
  }

  lemma PrependAssoc(a: seq<Read>, x: Read, r: Result<seq<Read>>)
    ensures Prepend(a, Prepend([x], r)) == Prepend(a + [x], r)
  {
    match r
    case Ok(tail) => assert a + ([x] + tail) == (a + [x]) + tail;
    case Err(_) =>
  }

  // ---------------------------------------------------------------------------
  // Full mode

  /** Full mode with a non-empty buffer feeds exactly the rest of the file, in order. */
  lemma {:induction false} FullFeedIsRestOfFile(data: Bytes, bb: nat, pos: nat)
    requires bb > 0 && pos <= |data|
    ensures Feed(data, FullReads(|data|, bb, pos)) == data[pos..]
    decreases |data| - pos
  {
    var n := ReadSize(|data|, bb, pos);
    if n <= 0 {
      assert pos == |data|;
    } else {
      var rs := FullReads(|data|, bb, pos);
      assert rs == [Read(pos, n)] + FullReads(|data|, bb, pos + n);
      assert rs[1..] == FullReads(|data|, bb, pos + n);
      FullFeedIsRestOfFile(data, bb, pos + n);
      assert data[pos..] == data[pos..pos + n] + data[pos + n..];
    }
  }

  /** A full-mode digest is the digest of the whole file, whatever the (positive)
      buffer size, which is why the engine keys all full digests of a path alike. */
  lemma FullDigestIsWholeFile(algorithm: DigestFn, path: string, data: Bytes, chunkSize: int)
    requires chunkSize > 0
    ensures ChunkDigest(algorithm, RegularFile(path, data), chunkSize, -1) == Ok(algorithm(data))
  {
    FullFeedIsRestOfFile(data, 1024 * chunkSize, 0);
    assert data[0..] == data;
  }

  /** With a chunk size of 0 the buffer has no room: every read returns 0, the
      loop stops at once, and the digest is that of no bytes, in either mode. */
  lemma ZeroChunkSizeDigestsNothing(algorithm: DigestFn, path: string, data: Bytes, chunkCount: int)
    requires chunkCount >= -1
    ensures ChunkDigest(algorithm, RegularFile(path, data), 0, chunkCount) == Ok(algorithm([]))
  {
    if chunkCount >= 0 {
      assert ReadSize(|data|, 0, 0) == 0;
      assert SampledReads(|data|, 0, Gap(|data|, 0, chunkCount + 2), 0, chunkCount + 2) == Ok([]);
    }
  }

  // ---------------------------------------------------------------------------
  // Sampled mode

  /** Where the read after `rs` starts, when the first read was at `pos`. */
  function NextPosition(pos: nat, delta: int, rs: seq<Read>): int {
    if |rs| == 0 then pos else rs[|rs| - 1].offset + rs[|rs| - 1].length + delta
  }

  /** The shape of a sampled read plan: at most `remaining` reads, the first at
      `pos`; each read takes as many bytes as the buffer and the file allow (so
      it is a contiguous slice of the file) and the next read starts `delta`
      bytes after it ends; reading stops early only at a read returning 0 or -1. */
  lemma {:induction false} SampledShape(size: nat, bb: nat, delta: int, pos: nat, remaining: nat)
    requires SampledReads(size, bb, delta, pos, remaining).Ok?
    ensures var rs := SampledReads(size, bb, delta, pos, remaining).value;
      && |rs| <= remaining
      && (|rs| > 0 ==> rs[0].offset == pos)
      && (forall k :: 0 <= k < |rs| ==> 0 < rs[k].length == ReadSize(size, bb, rs[k].offset))
      && Within(rs, size)
      && (forall k :: 0 <= k < |rs| - 1 ==> rs[k + 1].offset == rs[k].offset + rs[k].length + delta)
      && (|rs| < remaining ==> NextPosition(pos, delta, rs) >= 0 && ReadSize(size, bb, NextPosition(pos, delta, rs)) <= 0)
    decreases remaining
  {
    var rs := SampledReads(size, bb, delta, pos, remaining).value;
    if remaining == 0 || ReadSize(size, bb, pos) <= 0 {
      assert rs == [];
    } else {
      var n := ReadSize(size, bb, pos);
      var next := pos + n + delta;
      var tail := SampledReads(size, bb, delta, next, remaining - 1).value;
      assert rs == [Read(pos, n)] + tail;
      SampledShape(size, bb, delta, next, remaining - 1);
      assert forall k :: 1 <= k < |rs| ==> rs[k] == tail[k - 1];
      if |tail| > 0 {
        assert rs[|rs| - 1] == tail[|tail| - 1];
      }
      assert NextPosition(pos, delta, rs) == NextPosition(next, delta, tail);
    }
  }

  /** The plan of a sampled `FileChunkHash` call: at most `chunkCount + 2` reads,
      the first at offset 0, each one `Gap` bytes after the end of the one before. */
  lemma SampledPlanShape(size: nat, chunkSize: nat, chunkCount: nat)
    requires ReadPlan(size, chunkSize, chunkCount).Ok?
    ensures var rs := ReadPlan(size, chunkSize, chunkCount).value;
      var delta := Gap(size, 1024 * chunkSize, chunkCount + 2);
      && |rs| <= chunkCount + 2
      && (|rs| > 0 ==> rs[0].offset == 0)
      && Within(rs, size)
      && (forall k :: 0 <= k < |rs| - 1 ==> rs[k + 1].offset == rs[k].offset + rs[k].length + delta)
  {
    SampledShape(size, 1024 * chunkSize, Gap(size, 1024 * chunkSize, chunkCount + 2), 0, chunkCount + 2);
  }

  lemma MulMonotone(b: int, x: int, y: int)
    requires b >= 0 && x <= y
    ensures b * x <= b * y
  {
    assert b * y - b * x == b * (y - x);
  }

  lemma DivAtLeast(a: int, b: int, c: int)
    requires b > 0 && a >= b * c
    ensures a / b >= c
  {
    var q := a / b;
    assert a == b * q + a % b;
    if q < c {
      MulMonotone(b, q + 1, c);
    }
  }

  lemma DivAtMost(a: int, b: int, c: int)
    requires b > 0 && 0 <= a <= b * c
    ensures a / b <= c
  {
  }

  /** When the file holds at least one buffer, the gap never goes back further than one buffer. */
  lemma GapAtLeastMinusBuffer(size: nat, bb: nat, count: int)
    requires count >= 2 && size >= bb
    ensures Gap(size, bb, count) + bb >= 0
  {
    var x := size - count * bb;
    if x < 0 {
      assert -x <= (count - 1) * bb;
      DivAtMost(-x, count - 1, bb);
    }
  }

  /** Moves of at least minus one buffer never aim before the start of a file that holds a buffer. */
  lemma {:induction false} SampledSucceeds(size: nat, bb: nat, delta: int, pos: nat, remaining: nat)
    requires size >= bb && delta + bb >= 0
    ensures SampledReads(size, bb, delta, pos, remaining).Ok?
    decreases remaining
  {
    if remaining > 0 {
      var n := ReadSize(size, bb, pos);
      if n > 0 {
        assert pos + n + delta >= 0;
        SampledSucceeds(size, bb, delta, pos + n + delta, remaining - 1);
      }
    }
  }

  /** A file that is not empty but smaller than one buffer: the first read
      takes the whole file and the move after it aims before the start. */
  lemma SmallFileFails(size: nat, bb: nat, count: int)
    requires count >= 2 && 0 < size < bb
    ensures SampledReads(size, bb, Gap(size, bb, count), 0, count) == Err(IllegalArgument)
  {
    GapBelowSmallFile(size, bb, count);
    assert ReadSize(size, bb, 0) == size;
  }

  /** For such a file the gap goes back further than the whole file. */
  lemma GapBelowSmallFile(size: nat, bb: nat, count: int)
    requires count >= 2 && 0 < size < bb
    ensures Gap(size, bb, count) <= -(size + 1)
  {
    var x := count * bb - size;
    MulMonotone(count, size + 1, bb);
    assert x - (count - 1) * (size + 1) == count * bb - count * (size + 1) + 1;
    DivAtLeast(x, count - 1, size + 1);
    assert size - count * bb == -x;
  }

  /** A sampled plan fails exactly when the file is non-empty but smaller than one buffer. */
  lemma SampledFailsIff(size: nat, bb: nat, count: int)
    requires count >= 2
    ensures SampledReads(size, bb, Gap(size, bb, count), 0, count).Err? <==> 0 < size < bb
  {
    if 0 < size < bb {
      SmallFileFails(size, bb, count);
    } else if size == 0 {
      assert ReadSize(size, bb, 0) <= 0;
    } else {
      GapAtLeastMinusBuffer(size, bb, count);
      SampledSucceeds(size, bb, Gap(size, bb, count), 0, count);
    }
  }

  /** Every way `FileChunkHash` can fail, with its exception. */
  lemma ChunkDigestFails(algorithm: DigestFn, node: Node, chunkSize: int, chunkCount: int)
    ensures ChunkDigest(algorithm, node, chunkSize, chunkCount).Err? <==>
      || chunkCount < -1
      || chunkSize < 0
      || !node.RegularFile?
      || (chunkCount >= 0 && 0 < |node.data| < 1024 * chunkSize)
    ensures chunkCount >= -1 && chunkSize >= 0 && node.RegularFile? && ChunkDigest(algorithm, node, chunkSize, chunkCount).Err? ==>
      ChunkDigest(algorithm, node, chunkSize, chunkCount).error == IllegalArgument
    ensures chunkCount >= -1 && chunkSize >= 0 && node.Missing? ==> ChunkDigest(algorithm, node, chunkSize, chunkCount) == Err(FileNotFound)
  {
    if chunkCount >= 0 && chunkSize >= 0 && node.RegularFile? {
      SampledFailsIff(|node.data|, 1024 * chunkSize, chunkCount + 2);
    }
  }
}
