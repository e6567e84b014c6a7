/** Striped files whose chunk files may be short, and the reads that turn their holes into zeros. */
module SparseRead {
  import opened FileBytes
  import FileCache

  /** Which stripe target holds position `pos`. */
  function TargetOf(chunkSize: nat, numTargets: nat, pos: nat): (t: nat)
    requires chunkSize > 0 && numTargets > 0
    ensures t < numTargets
  {
    (pos / chunkSize) % numTargets
  }

  /** Quotient and remainder are unique. */
  lemma DivModUnique(c: nat, q1: int, r1: nat, q2: int, r2: nat)
    requires r1 < c && r2 < c && c * q1 + r1 == c * q2 + r2
    ensures q1 == q2 && r1 == r2
  {
    assert c * (q1 - q2) == r2 - r1;
    FileCache.SmallMultiple(c, q1 - q2);
  }

  /** Everything before the stripe set of `pos` is whole rows of chunks. */
  lemma StripeSetStart(chunkSize: nat, numTargets: nat, pos: nat)
    requires chunkSize > 0 && numTargets > 0
    ensures pos - pos % chunkSize - TargetOf(chunkSize, numTargets, pos) * chunkSize
         == numTargets * (chunkSize * (pos / chunkSize / numTargets)) >= 0
  {
    var chunk := pos / chunkSize;
    WholeRows(chunkSize, numTargets, chunk / numTargets, chunk % numTargets);
  }

  lemma WholeRows(c: nat, n: nat, row: nat, t: nat)
    ensures c * (n * row + t) - t * c == n * (c * row) >= 0
  {
    assert c * (n * row + t) == c * (n * row) + c * t;
    assert c * (n * row) == n * (c * row);
  }

  /** Offset of position `pos` in the chunk file of its target, the way the client computes it. */
  function LocalOffset(chunkSize: nat, numTargets: nat, pos: nat): nat
    requires chunkSize > 0 && numTargets > 0
  {
    var posModChunkSize := pos % chunkSize;
    var stripeSetStart := pos - posModChunkSize - TargetOf(chunkSize, numTargets, pos) * chunkSize;
    StripeSetStart(chunkSize, numTargets, pos);
    stripeSetStart / numTargets + posModChunkSize
  }

  /** The computed offset counts the whole chunks the target holds before this one. */
  lemma LocalOffsetMeaning(chunkSize: nat, numTargets: nat, pos: nat)
    requires chunkSize > 0 && numTargets > 0
    ensures LocalOffset(chunkSize, numTargets, pos) == chunkSize * (pos / chunkSize / numTargets) + pos % chunkSize
  {
    var start := pos - pos % chunkSize - TargetOf(chunkSize, numTargets, pos) * chunkSize;
    StripeSetStart(chunkSize, numTargets, pos);
    DivModUnique(numTargets, start / numTargets, start % numTargets, chunkSize * (pos / chunkSize / numTargets), 0);
  }

  /** Positions `pos` to `pos + i` of one chunk lie consecutively in one chunk file. */
  lemma SameChunk(chunkSize: nat, numTargets: nat, pos: nat, i: nat)
    requires chunkSize > 0 && numTargets > 0 && (pos + i) / chunkSize == pos / chunkSize
    ensures TargetOf(chunkSize, numTargets, pos + i) == TargetOf(chunkSize, numTargets, pos)
    ensures LocalOffset(chunkSize, numTargets, pos + i) == LocalOffset(chunkSize, numTargets, pos) + i
  {
    assert (pos + i) % chunkSize == pos % chunkSize + i;
    LocalOffsetMeaning(chunkSize, numTargets, pos);
    LocalOffsetMeaning(chunkSize, numTargets, pos + i);
  }

  /** No two positions of a file share a place in the chunk files. */
  lemma StripingIsInjective(chunkSize: nat, numTargets: nat, p: nat, q: nat)
    requires chunkSize > 0 && numTargets > 0
    ensures TargetOf(chunkSize, numTargets, p) == TargetOf(chunkSize, numTargets, q) ==>
            LocalOffset(chunkSize, numTargets, p) == LocalOffset(chunkSize, numTargets, q) ==> p == q
  {
    if TargetOf(chunkSize, numTargets, p) == TargetOf(chunkSize, numTargets, q)
      && LocalOffset(chunkSize, numTargets, p) == LocalOffset(chunkSize, numTargets, q) {
      LocalOffsetMeaning(chunkSize, numTargets, p);
      LocalOffsetMeaning(chunkSize, numTargets, q);
      DivModUnique(chunkSize, p / chunkSize / numTargets, p % chunkSize, q / chunkSize / numTargets, q % chunkSize);
      DivRecompose(p / chunkSize, q / chunkSize, numTargets);
      DivRecompose(p, q, chunkSize);
    }
  }

  lemma DivRecompose(x: nat, y: nat, c: nat)
    requires c > 0 && x / c == y / c && x % c == y % c
    ensures x == y
  {
    assert x == c * (x / c) + x % c;
  }

  /** Maps a file position to a target and an offset in that target's chunk file. */
  type Layout = nat -> (nat, nat)

  /** Each chunk lies in one piece in one of `numTargets` chunk files. */
  ghost predicate Chunked(layout: Layout, chunkSize: nat, numTargets: nat)
    requires chunkSize > 0
  {
    && (forall p: nat :: layout(p).0 < numTargets)
    && (forall p: nat, q: nat :: p <= q && p / chunkSize == q / chunkSize ==>
                         layout(q).0 == layout(p).0 && layout(q).1 == layout(p).1 + (q - p))
  }

  /** The client's striping. */
  ghost function Raid0(chunkSize: nat, numTargets: nat): Layout
    requires chunkSize > 0 && numTargets > 0
  {
    pos => (TargetOf(chunkSize, numTargets, pos), LocalOffset(chunkSize, numTargets, pos))
  }

  lemma Raid0Pair(chunkSize: nat, numTargets: nat, p: nat, q: nat)
    requires chunkSize > 0 && numTargets > 0 && p <= q && p / chunkSize == q / chunkSize
    ensures Raid0(chunkSize, numTargets)(q) ==
            (Raid0(chunkSize, numTargets)(p).0, Raid0(chunkSize, numTargets)(p).1 + (q - p))
  {
    SameChunk(chunkSize, numTargets, p, q - p);
  }

  lemma Raid0IsChunked(chunkSize: nat, numTargets: nat)
    requires chunkSize > 0 && numTargets > 0
    ensures Chunked(Raid0(chunkSize, numTargets), chunkSize, numTargets)
  {
    forall p: nat, q: nat | p <= q && p / chunkSize == q / chunkSize
      ensures Raid0(chunkSize, numTargets)(q) ==
              (Raid0(chunkSize, numTargets)(p).0, Raid0(chunkSize, numTargets)(p).1 + (q - p))
    {
      Raid0Pair(chunkSize, numTargets, p, q);
    }
  }

  /** The chunk files of one file. */
  datatype Striped = Striped(chunkSize: nat, chunkFiles: seq<Bytes>, layout: Layout) {
    ghost predicate Valid() { chunkSize > 0 && Chunked(layout, chunkSize, |chunkFiles|) }

    ghost function ByteAt(pos: nat): Byte
      requires Valid()
    {
      var (target, o) := layout(pos);
      if o < |chunkFiles[target]| then chunkFiles[target][o] else 0
    }

    /** `n` bytes of the file from `off` on; bytes that no chunk file holds are zero. */
    ghost function Range(off: nat, n: nat): Bytes
      requires Valid()
    {
      seq(n, i requires 0 <= i < n => ByteAt(off + i))
    }
  }

  function Zeros(n: nat): Bytes { seq(n, _ => 0) }

  /** One target's answer to a read that stays inside one chunk: what is missing is a hole. */
  method ReadChunk(s: Striped, size: nat, offset: nat) returns (out: Bytes)
    requires s.Valid()
    requires forall q: nat :: offset <= q < offset + size ==> q / s.chunkSize == offset / s.chunkSize
    ensures |out| <= size && out + Zeros(size - |out|) == s.Range(offset, size)
  {
    var (target, o) := s.layout(offset);
    out := ReadAt(s.chunkFiles[target], o, size);
    ghost var all, want := out + Zeros(size - |out|), s.Range(offset, size);
    forall i | 0 <= i < size
      ensures all[i] == want[i]
    {
      assert offset / s.chunkSize == (offset + i) / s.chunkSize;
      assert s.layout(offset + i) == (target, o + i);
      assert want[i] == s.ByteAt(offset + i);
    }
  }

  /** Every position up to the end of the chunk is in the chunk. */
  lemma UpToChunkEnd(chunkSize: nat, pos: nat)
    requires chunkSize > 0
    ensures forall q: nat :: pos <= q <= FileCache.ChunkEnd(chunkSize, pos) ==> q / chunkSize == pos / chunkSize
  {
    forall q: nat | pos <= q <= FileCache.ChunkEnd(chunkSize, pos)
      ensures q / chunkSize == pos / chunkSize
    {
      DivModUnique(chunkSize, q / chunkSize, q % chunkSize, pos / chunkSize, pos % chunkSize + (q - pos));
    }
  }

  lemma RangeSplit(s: Striped, off: nat, m: nat, n: nat)
    requires s.Valid()
    ensures s.Range(off, m + n) == s.Range(off, m) + s.Range(off + m, n)
  {
  }

  /** The file's bytes up to its size, which is what reads should see. */
  ghost function Content(s: Striped, size: nat): Bytes
    requires s.Valid()
  {
    s.Range(0, size)
  }

  lemma RangeRead(s: Striped, fileSize: nat, offset: nat, size: nat)
    requires s.Valid() && offset < fileSize
    ensures ReadAt(Content(s, fileSize), offset, size) == s.Range(offset, Min(size, fileSize - offset))
  {
  }

  /** How many chunks a range touches. */
  function Chunks(chunkSize: nat, offset: nat, size: nat): int
    requires chunkSize > 0
  {
    if size == 0 then 0 else (offset + size - 1) / chunkSize - offset / chunkSize + 1
  }

  /** The first error among the first `n` remote reads, 0 for none. */
  function FirstError(errors: seq<nat>, n: int): nat {
    if n <= 0 || errors == [] then 0
    else if errors[0] != 0 then errors[0]
    else FirstError(errors[1..], n - 1)
  }

  /** After `k` reads without an error the first error is among the rest. */
  lemma {:induction false} NoneSoFar(errors: seq<nat>, n: int, k: nat)
    requires k <= n && forall i :: 0 <= i < k && i < |errors| ==> errors[i] == 0
    ensures FirstError(errors, n) == if k < |errors| then FirstError(errors[k..], n - k) else 0
    decreases k
  {
    if k > 0 && errors != [] {
      forall i | 0 <= i < k - 1 && i < |errors[1..]| ensures errors[1..][i] == 0 {
        assert errors[1..][i] == errors[i + 1];
      }
      NoneSoFar(errors[1..], n - 1, k - 1);
      assert k < |errors| ==> errors[1..][k - 1..] == errors[k..];
    }
  }

  /**
   * Read chunk by chunk and zero-fill whatever a target does not hold. `errors[k]` is the error code
   * of the k-th remote read, 0 for none.
   */
  method ReadOrClear(s: Striped, size: nat, offset: nat, errors: seq<nat>) returns (err: nat, out: Bytes)
    requires s.Valid()
    ensures err == 0 ==> out == s.Range(offset, size)
    ensures err == FirstError(errors, Chunks(s.chunkSize, offset, size))
  {
    out := [];
    var left, pos, calls := size, offset, 0;
    ghost var chunks := Chunks(s.chunkSize, offset, size);
    while left > 0
      invariant 0 <= left <= size && pos == offset + (size - left)
      invariant out == s.Range(offset, size - left)
      invariant left > 0 ==> pos / s.chunkSize == offset / s.chunkSize + calls
      invariant left == 0 ==> calls == chunks
      invariant forall i :: 0 <= i < calls && i < |errors| ==> errors[i] == 0
      decreases left
    {
      ReadsToCome(s.chunkSize, pos, left);
      assert chunks == calls + Chunks(s.chunkSize, pos, left);
      var currentChunkSize := FileCache.ChunkEnd(s.chunkSize, pos) - pos + 1;
      var currentReadSize := Min(currentChunkSize, left);
      if calls < |errors| && errors[calls] != 0 {
        NoneSoFar(errors, chunks, calls);
        return errors[calls], out;
      }
      calls := calls + 1;
      UpToChunkEnd(s.chunkSize, pos);
      var got := ReadChunk(s, currentReadSize, pos);
      RangeSplit(s, offset, size - left, currentReadSize);
      out := out + (got + Zeros(currentReadSize - |got|));
      pos := pos + currentReadSize;
      left := left - currentReadSize;
    }
    NoneSoFar(errors, chunks, calls);
    return 0, out;
  }

  /** A range touches one chunk, and more if it reaches behind the end of the first. */
  lemma ReadsToCome(chunkSize: nat, pos: nat, left: nat)
    requires chunkSize > 0 && left > 0
    ensures Chunks(chunkSize, pos, left) >= 1
    ensures pos + left - 1 <= FileCache.ChunkEnd(chunkSize, pos) ==> Chunks(chunkSize, pos, left) == 1
  {
    FileCache.DivMonotone(chunkSize, pos, pos + left - 1);
    UpToChunkEnd(chunkSize, pos);
  }

  /** What the slow path tells: an error of one of its reads, or the bytes up to the end of the file. */
  function SparseCount(chunkSize: nat, size: nat, offset: nat, fileSize: nat, errors: seq<nat>): int
    requires chunkSize > 0
  {
    if fileSize <= offset then 0
    else
      var n := Min(size, fileSize - offset);
      var err := FirstError(errors, Chunks(chunkSize, offset, n));
      if err != 0 then 0 - err else n
  }

  /** The slow path for sparse files: `fileSize` is the size after asking the servers again. */
  method ReadSparse(s: Striped, size: nat, offset: nat, fileSize: nat, errors: seq<nat>) returns (res: int, out: Bytes)
    requires s.Valid()
    ensures res >= 0 ==> |out| == res && out == ReadAt(Content(s, fileSize), offset, size)
    ensures res == SparseCount(s.chunkSize, size, offset, fileSize, errors)
  {
    if fileSize <= offset {
      return 0, [];
    }
    var n := Min(size, fileSize - offset);
    var err, bytes := ReadOrClear(s, n, offset, errors);
    if err != 0 {
      return 0 - err as int, [];
    }
    RangeRead(s, fileSize, offset, size);
    return n, bytes;
  }

  /**
   * A user's read: first the buffered read, whose result `cached` is the start of what was asked
   * for, then the slow path if that was short and the client knows the file to be longer.
   * The whole range arrives exactly when the buffered read already had it or `knownSize` says so.
   */
  method ReadCommon(s: Striped, size: nat, offset: nat, cached: (int, Bytes), knownSize: nat, fileSize: nat, errors: seq<nat>)
    returns (res: int, out: Bytes)
    requires s.Valid() && ReadResult(Content(s, fileSize), offset, size, cached.0, cached.1)
    ensures res == if cached.0 < 0 || cached.0 == size || knownSize <= offset + cached.0 then cached.0
                   else
                     var more := SparseCount(s.chunkSize, size - cached.0, offset + cached.0, fileSize, errors);
                     if more < 0 then more else cached.0 + more
    ensures ReadResult(Content(s, fileSize), offset, size, res, out)
    ensures res >= 0 ==>
              (out == ReadAt(Content(s, fileSize), offset, size) <==>
               || cached.1 == ReadAt(Content(s, fileSize), offset, size)
               || knownSize > offset + cached.0)
  {
    res, out := cached.0, cached.1;
    if res < 0 {
      return;
    }
    ghost var f := Content(s, fileSize);
    if res < size && knownSize > offset + res {
      var sparseRes, rest := ReadSparse(s, size - res, offset + res, fileSize, errors);
      if sparseRes < 0 {
        return sparseRes, [];
      }
      assert out == ReadAt(f, offset, res);
      ReadJoin(f, offset, out, size - res, rest);
      res, out := res + sparseRes, out + rest;
    }
  }

  /**
   * A user's read as a whole, buffer included, of a file that `s` stores in stripes. Short answers of the
   * servers, as over holes, never make it wrong, and once the client's idea of the size is not behind,
   * they never make it short. An error of a flush before it, or of its own read, is reported.
   */
  method ReadUser(c: FileCache.InodeCache, s: Striped, size: nat, offset: nat, info: FileCache.FileInfo,
                  fastPath: bool, parallel: bool, userOk: bool, knownSize: nat, fileSize: nat, errors: seq<nat>)
    returns (res: int, out: Bytes)
    requires c.Valid() && !c.ZeroFlush() && s.Valid() && Content(s, fileSize) == c.Logical()
    modifies c, c.store, c.server, c.Owned(), info`cacheHits
    ensures c.Valid() && c.Owned() == old(c.Owned())
    ensures ReadResult(old(c.Logical()), offset, size, res, out)
    ensures res >= 0 && knownSize >= Min(offset + size, fileSize) ==>
              out == ReadAt(old(c.Logical()), offset, size)
    ensures old(c.bufType == FileCache.WRITE && c.server.NextWrite().Fail?) ==> res == 0 - old(c.server.NextWrite()).code
    ensures old(c.bufType == FileCache.NONE && c.server.NextRead().Fail?) ==> res == 0 - old(c.server.NextRead()).code
  {
    ghost var f := c.Logical();
    assert c.server.writeAnswers != [] ==> c.server.NextWrite() in c.server.writeAnswers;
    assert c.server.readAnswers != [] ==> c.server.NextRead() in c.server.readAnswers;
    var count, bytes := c.ReadCached(size, offset, info, fastPath, parallel, userOk);
    res, out := ReadCommon(s, size, offset, (count, bytes), knownSize, fileSize, errors);
    if count >= 0 && knownSize <= offset + count {
      ReadPrefix(f, offset, count, size);
    }
  }
}
