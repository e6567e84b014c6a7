/**
 * The buffered file cache: at most one buffer per inode, holding either read-ahead data or writes
 * that have not reached the servers yet.
 */
module FileCache {
  import opened FileBytes
  import opened Remote

  /** Reads at offset 0 that are smaller than this read ahead only this much. */
  const SLOWSTART_READLEN: nat := 65536

  const CACHE_HITS_THRESHOLD := 5
  const CACHE_MISS_THRESHOLD := -5

  const SUCCESS := 0
  const NOSPACE := 14
  const ADDRESSFAULT := 21

  datatype BufferType = NONE | READ | WRITE

  /** Last offset of the stripe chunk that contains `pos`. */
  function ChunkEnd(chunkSize: nat, pos: nat): (e: nat)
    requires chunkSize > 0
    ensures pos <= e && e / chunkSize == pos / chunkSize && (e + 1) / chunkSize == pos / chunkSize + 1
  {
    var start := pos - pos % chunkSize;
    ChunkBounds(chunkSize, pos, start);
    start + chunkSize - 1
  }

  lemma ChunkBounds(chunkSize: nat, pos: nat, start: int)
    requires chunkSize > 0 && start == pos - pos % chunkSize
    ensures 0 <= start <= pos < start + chunkSize
    ensures (start + chunkSize - 1) / chunkSize == pos / chunkSize
    ensures (start + chunkSize) / chunkSize == pos / chunkSize + 1
  {
    var q := pos / chunkSize;
    assert start == chunkSize * q;
    DivUnique(chunkSize, q, chunkSize - 1);
    NextMultiple(chunkSize, q);
    DivUnique(chunkSize, q + 1, 0);
  }

  lemma NextMultiple(c: nat, q: nat)
    ensures c * q + c == c * (q + 1)
  {
  }

  lemma DivUnique(c: nat, q: nat, r: nat)
    requires c > 0 && r < c
    ensures (c * q + r) / c == q
  {
    var x := c * q + r;
    SmallMultiple(c, q - x / c);
  }

  lemma SmallMultiple(c: int, t: int)
    requires -c < c * t < c
    ensures t == 0
  {
  }

  /** How many bytes starting at `offset` one buffer may hold without leaving its chunk. */
  function RoomAt(chunkSize: nat, bufSize: nat, offset: nat): nat
    requires chunkSize > 0
  {
    Min(ChunkEnd(chunkSize, offset) - offset + 1, bufSize)
  }

  /** `n` bytes at `offset` have room exactly when they fit into a buffer and all lie in one chunk. */
  lemma RoomExactly(chunkSize: nat, bufSize: nat, offset: nat, n: nat)
    requires chunkSize > 0
    ensures n <= RoomAt(chunkSize, bufSize, offset) <==>
            n <= bufSize && forall k :: offset <= k < offset + n ==> k / chunkSize == offset / chunkSize
  {
    var e := ChunkEnd(chunkSize, offset);
    forall k | offset <= k <= e ensures k / chunkSize == offset / chunkSize {
      DivMonotone(chunkSize, offset, k);
      DivMonotone(chunkSize, k, e);
    }
    assert (e + 1) / chunkSize != offset / chunkSize;
  }

  lemma DivMonotone(c: nat, a: nat, b: nat)
    requires c > 0 && a <= b
    ensures a / c <= b / c
  {
    var d := a / c - b / c;
    assert c * d == c * (a / c) - c * (b / c) < c;
    AtLeastOnce(c, d);
  }

  lemma AtLeastOnce(c: nat, t: int)
    ensures t > 0 ==> c * t >= c
  {
  }

  /** How many bytes a read of `size` at `offset` asks the servers for when it fills a buffer. */
  function ReadAheadLen(chunkSize: nat, bufSize: nat, offset: nat, size: nat): nat
    requires chunkSize > 0
  {
    if offset == 0 && size < SLOWSTART_READLEN then SLOWSTART_READLEN else RoomAt(chunkSize, bufSize, offset)
  }

  /**
   * The slow start replaces the room by a constant, so read-ahead stays inside the buffer and the
   * chunk for every cacheable read exactly when both are at least that long.
   */
  lemma ReadAheadFitsExactly(chunkSize: nat, bufSize: nat)
    requires chunkSize > 0 && bufSize > 0
    ensures (forall offset: nat, size: nat :: size < RoomAt(chunkSize, bufSize, offset) ==>
               ReadAheadLen(chunkSize, bufSize, offset, size) <= RoomAt(chunkSize, bufSize, offset))
       <==> SLOWSTART_READLEN <= chunkSize && SLOWSTART_READLEN <= bufSize
  {
    assert ChunkEnd(chunkSize, 0) == chunkSize - 1;
    assert RoomAt(chunkSize, bufSize, 0) == Min(chunkSize, bufSize);
    assert 0 < RoomAt(chunkSize, bufSize, 0);
    assert ReadAheadLen(chunkSize, bufSize, 0, 0) == SLOWSTART_READLEN;
  }

  /**
   * Apart from the slow start, read-ahead takes all it can: it fills a whole buffer or ends with the
   * chunk. It always asks for more than the read wants.
   */
  lemma ReadAheadExactly(chunkSize: nat, bufSize: nat, offset: nat, size: nat)
    requires SLOWSTART_READLEN <= chunkSize && SLOWSTART_READLEN <= bufSize
    requires size < RoomAt(chunkSize, bufSize, offset)
    ensures var n := ReadAheadLen(chunkSize, bufSize, offset, size);
            && size < n <= bufSize
            && (forall k :: offset <= k < offset + n ==> k / chunkSize == offset / chunkSize)
            && (if offset == 0 && size < 65536 then n == 65536
                else n == bufSize || (offset + n) / chunkSize != offset / chunkSize)
  {
    var n := ReadAheadLen(chunkSize, bufSize, offset, size);
    RoomExactly(chunkSize, bufSize, offset, n);
    assert ChunkEnd(chunkSize, 0) == chunkSize - 1;
  }

  /** The pool of equally sized buffers that all inodes share. */
  class BufferStore {
    const bufSize: nat
    var free: seq<array<Byte>>

    ghost predicate Valid() reads this {
      && (forall i :: 0 <= i < |free| ==> free[i].Length == bufSize)
      && (forall i, j :: 0 <= i < j < |free| ==> free[i] != free[j])
    }

    ghost function Buffers(): set<object> reads this { set b | b in free :: b as object }

    constructor (bufSize: nat)
      ensures Valid() && free == [] && this.bufSize == bufSize
    {
      this.bufSize, free := bufSize, [];
    }

    /** A buffer if one is available right now. */
    method InstantBuf() returns (b: array?<Byte>)
      requires Valid()
      modifies this
      ensures Valid()
      ensures old(free) == [] ==> b == null && free == []
      ensures old(free) != [] ==> b == old(free)[|old(free)| - 1] && free == old(free)[..|old(free)| - 1]
      ensures b != null ==> b.Length == bufSize && b !in free && {b as object} + Buffers() == old(Buffers())
    {
      if free == [] {
        b := null;
      } else {
        b := free[|free| - 1];
        free := free[..|free| - 1];
        assert old(free) == free + [b];
        assert forall x :: x in old(free) <==> x in free || x == b;
      }
    }

    method AddBuf(b: array<Byte>)
      requires Valid() && b.Length == bufSize && b !in free
      modifies this
      ensures Valid() && free == old(free) + [b]
      ensures Buffers() == old(Buffers()) + {b as object}
    {
      free := free + [b];
      assert forall x :: x in free <==> x in old(free) || x == b;
    }
  }

  /** The hit counter moves by one, up to 5 and down to -5. */
  function MoreHits(hits: int): (h: int)
    ensures hits <= 5 ==> h <= 5 && h == Min(hits + 1, 5)
  {
    if hits < CACHE_HITS_THRESHOLD then hits + 1 else hits
  }

  function FewerHits(hits: int): (h: int)
    ensures hits >= -5 ==> h >= -5 && h == Max(hits - 1, -5)
  {
    if hits > CACHE_MISS_THRESHOLD then hits - 1 else hits
  }

  /** Per-open-file state that decides whether caching is worth while. */
  class FileInfo {
    var cacheHits: int
    var allowCaching: bool
    var lastReadOffset: nat
    var lastWriteOffset: nat

    constructor (cacheHits: int, allowCaching: bool, lastReadOffset: nat, lastWriteOffset: nat)
      ensures this.cacheHits == cacheHits && this.allowCaching == allowCaching
      ensures this.lastReadOffset == lastReadOffset && this.lastWriteOffset == lastWriteOffset
    {
      this.cacheHits, this.allowCaching := cacheHits, allowCaching;
      this.lastReadOffset, this.lastWriteOffset := lastReadOffset, lastWriteOffset;
    }

    method IncCacheHits()
      modifies this`cacheHits
      ensures cacheHits == MoreHits(old(cacheHits))
    {
      if cacheHits < CACHE_HITS_THRESHOLD { cacheHits := cacheHits + 1; }
    }

    method DecCacheHits()
      modifies this`cacheHits
      ensures cacheHits == FewerHits(old(cacheHits))
    {
      if cacheHits > CACHE_MISS_THRESHOLD { cacheHits := cacheHits - 1; }
    }
  }

  /** What an uncached write does to a file; offset -1 appends. */
  function Written(f: Bytes, offset: int, d: Bytes): Bytes
    requires offset >= -1
  {
    if offset == -1 then f + d else Overlay(f, offset, d)
  }

  lemma WrittenChain(f: Bytes, offset: int, a: Bytes, next: int, b: Bytes)
    requires offset >= -1 && next == if offset == -1 then -1 else offset + |a|
    ensures Written(Written(f, offset, a), next, b) == Written(f, offset, a + b)
  {
    if offset == -1 {
      assert f + (a + b) == (f + a) + b;
    } else {
      OverlayChain(f, offset, a, b);
    }
  }

  /** Where in file `f` a write to `offset` starts. */
  function StartOf(f: Bytes, offset: int): nat
    requires offset >= -1
  {
    if offset == -1 then |f| else offset
  }

  /** What a completely done write leaves can be read back. */
  lemma WrittenHolds(f: Bytes, offset: int, d: Bytes)
    requires offset >= -1
    ensures Holds(Written(f, offset, d), StartOf(f, offset), d, |d|)
  {
    OverlayAtEnd(f, d);
    OverlayHolds(f, StartOf(f, offset), d);
  }

  /** The code that a flush with answer `a` reports for a write buffer of `n` bytes. */
  function FlushCode(a: Answer, n: nat): int {
    if a.Result(n) == n then SUCCESS else if a.Result(n) > 0 then NOSPACE else -a.Result(n)
  }

  /** Error codes pass through a flush; a part that was stored counts as no space, and nothing stored as success. */
  lemma FlushCodeExactly(a: Answer, n: nat)
    ensures a.Full? ==> FlushCode(a, n) == 0
    ensures a.Fail? && a.code > 0 ==> FlushCode(a, n) == a.code
    ensures a.Short? ==> FlushCode(a, n) == if 0 < a.count < n then 14 else 0
  {
  }

  /** The count told for a write with no buffer in the way: of a new buffer, or of a remote write. */
  ghost predicate FreshCount(size: nat, a: Answer, mayCache: bool, userOk: bool, res: int) {
    res == a.Result(size) || (mayCache && res == if userOk then size else -ADDRESSFAULT)
  }

  /** The count told for a remote call that was to do `n` bytes; the caller's memory may fail once it is done. */
  ghost predicate Told(a: Answer, n: nat, userOk: bool, res: int) {
    res == a.Result(n) || (!userOk && !a.Fail? && res == -ADDRESSFAULT)
  }

  /**
   * The count of a read from a file of `len` bytes once it has everything up to the end `end` of a read
   * buffer; `a` is the answer for the rest.
   */
  ghost function TailCount(len: nat, end: nat, size: nat, offset: nat, a: Answer, userOk: bool): int
    requires offset <= end
  {
    if !userOk then -ADDRESSFAULT
    else if offset + size <= end then size
    else
      var behind := a.Result(Min(offset + size, Max(len, end)) - end);
      if behind < 0 then behind else end - offset + behind
  }

  /** The count of a read that starts before a read buffer: `a` is for the `n` bytes in front, `b` for the rest. */
  ghost function AcrossCount(len: nat, n: nat, end: nat, size: nat, offset: nat, a: Answer, b: Answer, userOk: bool): int
    requires offset <= end
  {
    if a.Result(n) < n then a.Result(n) else TailCount(len, end, size, offset, b, userOk)
  }

  /** What a longer read brings of a shorter one at the same place is what the shorter one would be told. */
  lemma AheadCount(f: Bytes, offset: nat, size: nat, n: nat, a: Answer)
    requires size <= n && a.Valid()
    ensures var ahead := a.Result(|ReadAt(f, offset, n)|);
            a.Result(|ReadAt(f, offset, size)|) == if ahead <= 0 then ahead else Min(size, ahead)
  {
    assert |ReadAt(f, offset, size)| == Min(size, |ReadAt(f, offset, n)|);
  }

  /** A part of what was read at `at` continues a read at `offset` that ends where the part starts. */
  lemma MiddleJoins(f: Bytes, at: nat, bytes: Bytes, offset: nat, front: Bytes, lo: nat, hi: nat)
    requires bytes == ReadAt(f, at, |bytes|) && lo <= hi <= |bytes|
    requires front == ReadAt(f, offset, |front|) && offset + |front| == at + lo
    ensures front + bytes[lo..hi] == ReadAt(f, offset, |front| + hi - lo)
  {
    ReadWithin(f, at, |bytes|, lo, hi);
    ReadJoin(f, offset, front, hi - lo, bytes[lo..hi]);
  }

  /** Copy `d` into `a` from index `at` on. */
  method CopyInto(a: array<Byte>, at: nat, d: Bytes)
    requires at + |d| <= a.Length
    modifies a
    ensures a[..at + |d|] == old(a[..at]) + d
  {
    forall k | 0 <= k < |d| { a[at + k] := d[k]; }
  }

  /** One inode's cache buffer together with the pool and the servers it works on. */
  class InodeCache {
    const store: BufferStore
    const server: Server
    const chunkSize: nat

    var buf: array?<Byte>
    var bufUsageLen: nat
    var bufUsageMaxLen: nat
    var fileOffset: int
    var bufType: BufferType

    ghost predicate Base() reads this, store, server {
      && store.Valid() && server.Valid()
      && SLOWSTART_READLEN <= chunkSize && SLOWSTART_READLEN <= store.bufSize
      && (buf != null ==> buf.Length == store.bufSize && buf !in store.free)
    }

    /** The used part stays inside the allowed part, the allowed part inside the buffer and one chunk. */
    ghost predicate Bounded() reads this, store
      requires chunkSize > 0
    {
      && bufUsageLen <= bufUsageMaxLen <= store.bufSize
      && (fileOffset >= 0 ==> fileOffset + bufUsageMaxLen <= ChunkEnd(chunkSize, fileOffset) + 1)
    }

    ghost predicate Valid() reads this, store, server, buf {
      && Base()
      && (bufType == NONE <==> buf == null)
      && (bufType == WRITE ==> fileOffset >= -1 && Bounded())
      && (bufType == READ ==>
            && fileOffset >= 0 && bufUsageLen > 0 && Bounded()
            && buf[..bufUsageLen] == ReadAt(server.data, fileOffset, bufUsageLen))
    }

    /** Every buffer that is either free or attached here. */
    ghost function Owned(): set<object> reads this, store {
      store.Buffers() + if buf == null then {} else {buf as object}
    }

    /** The bytes a read of the whole file should see. */
    ghost function Logical(): Bytes reads this, server, buf
      requires bufType == WRITE ==> buf != null && bufUsageLen <= buf.Length && fileOffset >= -1
    {
      if bufType == WRITE then Written(server.data, fileOffset, buf[..bufUsageLen]) else server.data
    }

    /** Repeating a flush is safe: the buffer, if it holds writes, knows where they go. */
    predicate Positioned() reads this { bufType == WRITE ==> fileOffset >= 0 }

    constructor (store: BufferStore, server: Server, chunkSize: nat)
      requires store.Valid() && server.Valid()
      ensures this.store == store && this.server == server && this.chunkSize == chunkSize
      ensures Valid() <==> SLOWSTART_READLEN <= chunkSize && SLOWSTART_READLEN <= store.bufSize
      ensures bufType == NONE && buf == null && Logical() == server.data && Owned() == store.Buffers()
    {
      this.store, this.server, this.chunkSize := store, server, chunkSize;
      buf, bufType := null, NONE;
      bufUsageLen, bufUsageMaxLen, fileOffset := 0, 0, 0;
    }

    /** Give the buffer back to the pool. */
    method DiscardCache()
      requires Base() && buf != null
      modifies this, store
      ensures Valid() && bufType == NONE
      ensures Owned() == old(Owned()) && |store.free| == |old(store.free)| + 1
    {
      store.AddBuf(buf);
      buf := null;
      bufType := NONE;
    }

    /** A flush now would store nothing that counts and yet report success. */
    predicate ZeroFlush() reads this, server {
      bufType == WRITE && bufUsageLen > 0 && server.NextWrite().Zero()
    }

    /** The servers' file after the attached write buffer was sent, whatever arrived of it. */
    ghost function Flushed(): Bytes reads this, server, buf
      requires bufType == WRITE && buf != null && bufUsageLen <= buf.Length && fileOffset >= -1
    {
      Stored(server.data, StartOf(server.data, fileOffset), buf[..bufUsageLen], server.NextWrite())
    }

    /** The attached write buffer is what it was in another state: its place and its bytes. */
    ghost predicate Keeps(b: array?<Byte>, offset: int, bytes: Bytes) reads this, buf {
      bufType == WRITE && buf == b && b != null && fileOffset == offset &&
      bufUsageLen == |bytes| <= b.Length && b[..bufUsageLen] == bytes
    }

    /**
     * Send buffered writes to the servers and drop the buffer. A write buffer survives exactly when
     * the servers did not take all of it and `discardOnError` is off. Success is reported for a
     * complete write and, because a zero is passed on as an error code, for one that stored nothing.
     */
    method FlushCacheUnlocked(discardOnError: bool) returns (err: int)
      requires Valid()
      modifies this, store, server`data, server`writeAnswers
      ensures Valid() && Owned() == old(Owned())
      ensures old(server.WritesComplete()) ==> server.WritesComplete() && err == SUCCESS && bufType == NONE
      ensures old(server.NeverZero()) ==> server.NeverZero()
      ensures old(bufType) != WRITE ==>
                err == SUCCESS && bufType == NONE && server.data == old(server.data) && server.writeAnswers == old(server.writeAnswers)
      ensures old(bufType) == WRITE ==>
                var res := old(server.NextWrite().Result(bufUsageLen));
                && server.data == old(Flushed()) && server.writeAnswers == Later(old(server.writeAnswers))
                && (bufType == NONE <==> discardOnError || res == old(bufUsageLen))
                && err == FlushCode(old(server.NextWrite()), old(bufUsageLen))
      ensures bufType == NONE || (Keeps(old(buf), old(fileOffset), old(if bufType == WRITE then buf[..bufUsageLen] else [])))
      ensures bufType != NONE ==> store.free == old(store.free)
      ensures |store.free| >= |old(store.free)|
      ensures err == SUCCESS && !old(ZeroFlush()) ==> bufType == NONE && server.data == old(Logical())
      ensures old(ZeroFlush()) ==> err == SUCCESS && (bufType == NONE <==> discardOnError)
      ensures old(Positioned()) ==> Positioned()
      ensures (old(Positioned()) || Reach(old(server.NextWrite()), old(bufUsageLen)) == 0) && bufType == WRITE ==>
                Logical() == old(Logical())
    {
      if bufType == NONE {
        return SUCCESS;
      }
      if bufType == READ {
        DiscardCache();
        return SUCCESS;
      }
      ghost var d := buf[..bufUsageLen];
      assert server.writeAnswers != [] ==> server.NextWrite() in server.writeAnswers;
      ghost var off := StartOf(server.data, fileOffset);
      StoredIsPartial(server.data, off, d, server.NextWrite());
      OverlayAtEnd(server.data, d);
      var writeRes := server.Write(buf[..bufUsageLen], fileOffset);
      OverlayAfterPartial(old(server.data), off, d, server.data);
      if writeRes < bufUsageLen {
        if discardOnError {
          DiscardCache();
        }
        if writeRes > 0 {
          return NOSPACE;
        }
        return -writeRes;
      }
      DiscardCache();
      return SUCCESS;
    }

    /** Whether a write of `size` bytes may go into a fresh buffer at all. */
    predicate MayCacheWrite(size: nat, offset: int, info: FileInfo) reads info
      requires chunkSize > 0 && offset >= -1
    {
      && info.allowCaching
      && (offset == -1 || info.cacheHits > 0)
      && size < WriteRoom(offset)
    }

    /** How much a write buffer that starts at `offset` may hold; an append buffer is not tied to a chunk. */
    function WriteRoom(offset: int): nat
      requires chunkSize > 0 && offset >= -1
    {
      if offset == -1 then store.bufSize else RoomAt(chunkSize, store.bufSize, offset)
    }

    /** The room is as large as can be: with one byte more the buffer or the chunk would be left. */
    lemma WriteRoomExactly(offset: int, n: nat)
      requires chunkSize > 0 && offset >= -1
      ensures n <= WriteRoom(offset) <==>
              n <= store.bufSize && (offset >= 0 ==> forall k :: offset <= k < offset + n ==> k / chunkSize == offset / chunkSize)
    {
      if offset >= 0 {
        RoomExactly(chunkSize, store.bufSize, offset, n);
      }
    }

    /**
     * A write may be buffered exactly when the file may be cached, it appends or writes have been
     * sequential, and it leaves room for one more byte in its buffer and its chunk.
     */
    lemma MayCacheWriteExactly(size: nat, offset: int, info: FileInfo)
      requires chunkSize > 0 && offset >= -1
      ensures MayCacheWrite(size, offset, info) <==>
              && info.allowCaching && size < store.bufSize
              && (offset == -1 || (info.cacheHits > 0 && forall k :: offset <= k <= offset + size ==> k / chunkSize == offset / chunkSize))
    {
      if offset >= 0 {
        RoomExactly(chunkSize, store.bufSize, offset, size + 1);
      }
    }

    /** Write to the servers directly. */
    method WriteThrough(data: Bytes, offset: int) returns (res: int)
      requires server.Valid() && offset >= -1
      modifies server`data, server`writeAnswers
      ensures server.Valid() && res == old(server.NextWrite()).Result(|data|) <= |data|
      ensures server.writeAnswers == Later(old(server.writeAnswers))
      ensures res == |data| ==> server.data == Written(old(server.data), offset, data)
      ensures PartiallyWritten(old(server.data), StartOf(old(server.data), offset), data, server.data)
      ensures Holds(server.data, StartOf(old(server.data), offset), data, res)
      ensures old(server.WritesComplete()) ==> server.WritesComplete() && res == |data|
      ensures old(server.NeverZero()) ==> server.NeverZero()
    {
      CountedHolds(server.data, StartOf(server.data, offset), data, server.NextWrite());
      StoredIsPartial(server.data, StartOf(server.data, offset), data, server.NextWrite());
      OverlayAtEnd(server.data, data);
      assert server.writeAnswers != [] ==> server.NextWrite() in server.writeAnswers;
      res := server.Write(data, offset);
    }

    /** Attach a free buffer as write buffer; `userOk` is false when copying from the caller fails. */
    method StartWriteBuffer(data: Bytes, offset: int, maxCacheLen: nat, userOk: bool) returns (res: int)
      requires Base() && offset >= -1 && store.free != [] && |data| <= maxCacheLen <= store.bufSize
      requires offset >= 0 ==> offset + maxCacheLen <= ChunkEnd(chunkSize, offset) + 1
      modifies this, store, store.Buffers()
      ensures Valid() && Owned() == old(store.Buffers())
      ensures res == if userOk then |data| else -21
      ensures !userOk ==> bufType == NONE
      ensures userOk ==> bufType == WRITE && Logical() == Written(server.data, offset, data)
      ensures userOk ==> Keeps(buf, offset, data) && bufUsageMaxLen == maxCacheLen
    {
      buf := store.InstantBuf();
      bufType := WRITE;
      if !userOk {
        DiscardCache();
        return -ADDRESSFAULT;
      }
      CopyInto(buf, 0, data);
      assert buf[..|data|] == data;
      bufUsageLen := |data|;
      bufUsageMaxLen := maxCacheLen;
      fileOffset := offset;
      return |data|;
    }

    /**
     * Write when no buffer is attached: start a write buffer with the data, or write through. After a
     * flush that stored nothing a buffer is still attached: then the last three clauses apply.
     */
    method WriteCacheFlushed(data: Bytes, offset: int, info: FileInfo, userOk: bool) returns (res: int)
      requires Base() && offset >= -1
      modifies this, store, server`data, server`writeAnswers, store.Buffers()
      ensures Base() && res <= |data|
      ensures old(server.WritesComplete()) ==> server.WritesComplete() && (userOk ==> res == |data|)
      ensures old(server.NeverZero()) ==> server.NeverZero()
      ensures old(bufType) == NONE && old(buf) == null ==>
                && Valid() && Owned() == old(Owned()) && (offset >= 0 ==> Positioned())
                && (res == |data| ==> Logical() == Written(old(server.data), offset, data))
                && PartiallyWritten(old(server.data), StartOf(old(server.data), offset), data, Logical())
                && Holds(Logical(), StartOf(old(server.data), offset), data, res)
      ensures !MayCacheWrite(|data|, offset, info) || old(store.free) == [] ==>
                res == old(server.NextWrite()).Result(|data|) && server.writeAnswers == Later(old(server.writeAnswers))
      ensures MayCacheWrite(|data|, offset, info) && old(store.free) != [] ==> res == if userOk then |data| else -ADDRESSFAULT
      ensures !MayCacheWrite(|data|, offset, info) ==>
                && unchanged(this, store)
                && (res == |data| ==> server.data == Written(old(server.data), offset, data))
      ensures MayCacheWrite(|data|, offset, info) && old(store.free) == [] ==>
                && buf == null && bufType == old(bufType)
                && (res == |data| ==> server.data == Written(old(server.data), offset, data))
      ensures MayCacheWrite(|data|, offset, info) && old(store.free) != [] ==>
                && Valid() && Owned() == old(store.Buffers()) && server.data == old(server.data)
                && (userOk ==> res == |data| && bufType == WRITE && server.writeAnswers == old(server.writeAnswers)
                               && bufUsageMaxLen == WriteRoom(offset) && Logical() == Written(server.data, offset, data))
    {
      if !MayCacheWrite(|data|, offset, info) {
        res := WriteThrough(data, offset);
      } else if store.free == [] {
        buf := null;
        res := WriteThrough(data, offset);
      } else {
        ghost var f := server.data;
        OverlayAtEnd(f, data);
        OverlayIsPartial(f, StartOf(f, offset), data);
        WrittenHolds(f, offset, data);
        var maxCacheLen := WriteRoom(offset);
        res := StartWriteBuffer(data, offset, maxCacheLen, userOk);
      }
    }

    /** Count a miss and flush whatever is attached. */
    method FlushMissed(info: FileInfo) returns (err: int)
      requires Valid()
      modifies this, store, server`data, server`writeAnswers, info`cacheHits
      ensures info.cacheHits == FewerHits(old(info.cacheHits))
      ensures Valid() && Owned() == old(Owned()) && (old(Positioned()) ==> Positioned())
      ensures old(server.WritesComplete()) ==> server.WritesComplete() && err == SUCCESS && bufType == NONE
      ensures old(server.NeverZero()) ==> server.NeverZero()
      ensures err == old(if bufType == WRITE then FlushCode(server.NextWrite(), bufUsageLen) else SUCCESS)
      ensures server.writeAnswers == old(if bufType == WRITE then Later(server.writeAnswers) else server.writeAnswers)
      ensures err == SUCCESS && !old(ZeroFlush()) ==> bufType == NONE && server.data == old(Logical())
      ensures old(ZeroFlush()) ==>
                && err == SUCCESS && server.data == old(if bufType == WRITE then Flushed() else [])
                && Keeps(old(buf), old(fileOffset), old(if bufType == WRITE then buf[..bufUsageLen] else []))
                && store.free == old(store.free)
      ensures err != SUCCESS && old(Positioned()) ==> Logical() == old(Logical())
    {
      info.DecCacheHits();
      err := FlushCacheUnlocked(false);
    }

    /**
     * Flush and then write into the emptied cache. If the servers answered the flush with zero bytes, the
     * flush counts as done although its buffer is still attached. The next write buffer then takes its
     * place: the old buffer is lost with all bytes that did not arrive uncounted, or, with no buffer free,
     * the inode is left with a write buffer that is not there. A write too large for a buffer goes to
     * the servers under the older buffered bytes. Without such an answer none of this happens.
     */
    method FlushAndWrite(data: Bytes, offset: int, info: FileInfo, userOk: bool) returns (res: int)
      requires Valid() && offset >= -1
      modifies this, store, server`data, server`writeAnswers, Owned(), info`cacheHits
      ensures info.cacheHits == FewerHits(old(info.cacheHits))
      ensures res <= |data|
      ensures old(server.WritesComplete()) ==> server.WritesComplete() && (userOk ==> res == |data|)
      ensures old(server.NeverZero()) ==> server.NeverZero()
      ensures Valid() && Owned() == old(Owned()) <==> !(old(ZeroFlush()) && MayCacheWrite(|data|, offset, info))
      ensures !old(ZeroFlush()) ==>
                && (res == |data| ==> Logical() == Written(old(Logical()), offset, data))
                && (old(Positioned()) ==>
                      PartiallyWritten(old(Logical()), StartOf(old(Logical()), offset), data, Logical()))
                && (old(Positioned()) && offset >= 0 ==> Positioned())
                && Holds(Logical(), StartOf(old(Logical()), offset), data, res)
      ensures old(bufType == WRITE && FlushCode(server.NextWrite(), bufUsageLen) != SUCCESS) ==>
                res == -FlushCode(old(server.NextWrite()), old(bufUsageLen)) < 0
      ensures old(bufType == WRITE && FlushCode(server.NextWrite(), bufUsageLen) == SUCCESS) ==>
                FreshCount(|data|, Head(Later(old(server.writeAnswers))), MayCacheWrite(|data|, offset, info), userOk, res)
      ensures old(ZeroFlush()) && MayCacheWrite(|data|, offset, info) && old(store.free) != [] ==>
                && Valid() && old(buf) !in Owned() && server.data == old(Flushed())
                && (userOk ==> res == |data| && Logical() == Written(old(Flushed()), offset, data))
      ensures old(ZeroFlush()) && MayCacheWrite(|data|, offset, info) && old(store.free) == [] ==>
                buf == null && bufType == WRITE
      ensures old(ZeroFlush()) && !MayCacheWrite(|data|, offset, info) ==>
                && res == Head(Later(old(server.writeAnswers))).Result(|data|)
                && server.writeAnswers == Later(Later(old(server.writeAnswers)))
                && Keeps(old(buf), old(fileOffset), old(if bufType == WRITE then buf[..bufUsageLen] else []))
                && (res == |data| ==> server.data == Written(old(if bufType == WRITE then Flushed() else []), offset, data))
    {
      ghost var f := Logical();
      OverlayIsPartial(f, StartOf(f, offset), data);
      var flushRes := FlushMissed(info);
      if flushRes != SUCCESS {
        return -flushRes;
      }
      ghost var kept := buf;
      assert kept != null ==> kept as object !in store.Buffers();
      res := WriteCacheFlushed(data, offset, info, userOk);
      assert kept != null ==> kept as object in old(Owned());
    }

    /** Whether a write continues the attached write buffer and fits into what is left of it. */
    predicate Extends(size: nat, offset: int) reads this {
      && bufType == WRITE
      && (offset == -1 <==> fileOffset == -1)
      && (offset != -1 ==> offset == fileOffset + bufUsageLen)
      && size <= bufUsageMaxLen - bufUsageLen
    }

    /** A write fills an append buffer whose flush will be answered with zero bytes, although some arrive. */
    predicate FillsInVain(size: nat, offset: int) reads this, server {
      && Extends(size, offset) && !Extends(size + 1, offset) && !Positioned()
      && server.NextWrite().Zero() && Reach(server.NextWrite(), bufUsageLen + size) > 0
    }

    /** Copy a write that continues the attached buffer behind what it holds. */
    method CopyBehind(data: Bytes, offset: int)
      requires Valid() && offset >= -1 && Extends(|data|, offset)
      modifies this`bufUsageLen, buf
      ensures Valid() && bufUsageLen == old(bufUsageLen) + |data|
      ensures Logical() == Written(old(Logical()), offset, data)
    {
      ghost var was, f := buf[..bufUsageLen], Logical();
      assert f == Written(server.data, fileOffset, was);
      CopyInto(buf, bufUsageLen, data);
      bufUsageLen := bufUsageLen + |data|;
      WrittenChain(server.data, fileOffset, was, offset, data);
    }

    /**
     * Flush a full write buffer. Users see the same file unless an append buffer of which some bytes arrived
     * stays attached.
     */
    method FlushFull() returns (err: int)
      requires Valid() && bufType == WRITE
      modifies this, store, server`data, server`writeAnswers
      ensures Valid() && Owned() == old(Owned()) && (old(Positioned()) ==> Positioned())
      ensures old(server.WritesComplete()) ==> server.WritesComplete() && err == SUCCESS
      ensures old(server.NeverZero()) ==> server.NeverZero()
      ensures err == FlushCode(old(server.NextWrite()), old(bufUsageLen)) && server.writeAnswers == Later(old(server.writeAnswers))
      ensures old(Positioned()) ==> Logical() == old(Logical())
      ensures err == SUCCESS ==>
                (Logical() == old(Logical()) <==>
                 !(old(!Positioned() && server.NextWrite().Zero()) && Reach(old(server.NextWrite()), old(bufUsageLen)) > 0))
    {
      if fileOffset == -1 {
        AppendRetryExact(server.data, buf[..bufUsageLen], server.NextWrite());
      }
      err := FlushCacheUnlocked(false);
    }

    /**
     * Add a write that continues the attached buffer, and flush the buffer once it is full. If that flush
     * is answered with zero bytes, the full buffer stays, which is harmless unless it appends and some of it
     * arrived.
     */
    method ExtendWriteBuffer(data: Bytes, offset: int, info: FileInfo, userOk: bool) returns (res: int)
      requires Valid() && offset >= -1 && Extends(|data|, offset)
      modifies this, store, server`data, server`writeAnswers, buf, info`cacheHits
      ensures info.cacheHits == MoreHits(old(info.cacheHits))
      ensures Valid() && Owned() == old(Owned()) && res <= |data|
      ensures old(server.WritesComplete()) ==> server.WritesComplete() && (userOk ==> res == |data|)
      ensures old(server.NeverZero()) ==> server.NeverZero()
      ensures res == |data| ==> (Logical() == Written(old(Logical()), offset, data) <==> !old(FillsInVain(|data|, offset)))
      ensures old(Positioned()) ==>
                && Positioned()
                && PartiallyWritten(old(Logical()), StartOf(old(Logical()), offset), data, Logical())
      ensures !old(FillsInVain(|data|, offset)) ==> Holds(Logical(), StartOf(old(Logical()), offset), data, res)
      ensures !userOk ==> res == -ADDRESSFAULT && Logical() == old(Logical())
      ensures userOk && |data| == old(bufUsageMaxLen - bufUsageLen) ==>
                var code := FlushCode(old(server.NextWrite()), old(bufUsageMaxLen));
                res == (if code == SUCCESS then |data| else -code) && server.writeAnswers == Later(old(server.writeAnswers))
      ensures userOk && |data| < old(bufUsageMaxLen - bufUsageLen) ==>
                res == |data| && server.data == old(server.data) && server.writeAnswers == old(server.writeAnswers)
    {
      info.IncCacheHits();
      ghost var f := Logical();
      OverlayIsPartial(f, StartOf(f, offset), data);
      WrittenHolds(f, offset, data);
      if !userOk {
        return -ADDRESSFAULT;
      }
      CopyBehind(data, offset);
      if bufUsageLen == bufUsageMaxLen {
        var flushRes := FlushFull();
        if flushRes != SUCCESS {
          return -flushRes;
        }
      }
      return |data|;
    }

    /** The buffer in the way of a write would be flushed in vain. */
    predicate BlockedByZero(size: nat, offset: int) reads this, server {
      ZeroFlush() && !Extends(size, offset)
    }

    /** A buffer begun at the last write would have taken this one. */
    predicate LikelyWriteHit(offset: int, info: FileInfo) reads info {
      offset == -1 || info.lastWriteOffset <= offset < info.lastWriteOffset + store.bufSize
    }

    /** Write with no write buffer attached; a read buffer is dropped. */
    method WriteFresh(data: Bytes, offset: int, info: FileInfo, userOk: bool) returns (res: int)
      requires Valid() && offset >= -1 && bufType != WRITE
      modifies this, store, server`data, server`writeAnswers, Owned(), info`cacheHits
      ensures Valid() && Owned() == old(Owned()) && res <= |data| && (offset >= 0 ==> Positioned())
      ensures old(server.WritesComplete()) ==> server.WritesComplete() && (userOk ==> res == |data|)
      ensures old(server.NeverZero()) ==> server.NeverZero()
      ensures res == |data| ==> Logical() == Written(old(server.data), offset, data)
      ensures PartiallyWritten(old(server.data), StartOf(old(server.data), offset), data, Logical())
      ensures Holds(Logical(), StartOf(old(server.data), offset), data, res)
      ensures FreshCount(|data|, old(server.NextWrite()), MayCacheWrite(|data|, offset, info), userOk, res)
      ensures MayCacheWrite(|data|, offset, info) && old(store.free) != [] && userOk ==>
                && bufType == WRITE && res == |data| && server.writeAnswers == old(server.writeAnswers)
                && bufUsageMaxLen == WriteRoom(offset)
      ensures info.cacheHits == old(if bufType == NONE && LikelyWriteHit(offset, info)
                                    then MoreHits(info.cacheHits) else FewerHits(info.cacheHits))
    {
      if bufType == NONE {
        if offset == -1 || info.lastWriteOffset <= offset <= info.lastWriteOffset + store.bufSize - 1 {
          info.IncCacheHits();
        } else {
          info.DecCacheHits();
        }
      } else {
        info.DecCacheHits();
        DiscardCache();
      }
      res := WriteCacheFlushed(data, offset, info, userOk);
    }

    /** Buffered write; offset -1 appends. */
    method WriteCached(data: Bytes, offset: int, info: FileInfo, userOk: bool) returns (res: int)
      requires Valid() && offset >= -1
      modifies this, store, server`data, server`writeAnswers, Owned(), info`cacheHits
      ensures res <= |data|
      ensures old(server.WritesComplete()) ==> server.WritesComplete() && (userOk ==> res == |data|)
      ensures old(server.NeverZero()) ==> server.NeverZero()
      ensures Valid() && Owned() == old(Owned()) <==>
              !(old(BlockedByZero(|data|, offset)) && MayCacheWrite(|data|, offset, info))
      ensures !old(BlockedByZero(|data|, offset)) && res == |data| ==>
                (Logical() == Written(old(Logical()), offset, data) <==> !old(FillsInVain(|data|, offset)))
      ensures !old(BlockedByZero(|data|, offset)) && old(Positioned()) ==>
                && PartiallyWritten(old(Logical()), StartOf(old(Logical()), offset), data, Logical())
                && (offset >= 0 ==> Positioned())
      ensures old(BlockedByZero(|data|, offset)) && MayCacheWrite(|data|, offset, info) && old(store.free) != [] && userOk ==>
                && res == |data| && server.data == old(Flushed())
                && Valid() && Logical() == Written(old(Flushed()), offset, data)
      ensures old(BlockedByZero(|data|, offset)) && MayCacheWrite(|data|, offset, info) && old(store.free) == [] ==>
                buf == null && bufType == WRITE
      ensures old(BlockedByZero(|data|, offset)) && !MayCacheWrite(|data|, offset, info) ==>
                && Keeps(old(buf), old(fileOffset), old(if bufType == WRITE then buf[..bufUsageLen] else []))
                && (res == |data| ==> server.data == Written(old(if bufType == WRITE then Flushed() else []), offset, data))
      ensures !old(BlockedByZero(|data|, offset)) && !old(FillsInVain(|data|, offset)) ==>
                Holds(Logical(), StartOf(old(Logical()), offset), data, res)
      ensures old(bufType == WRITE && !Extends(|data|, offset) && FlushCode(server.NextWrite(), bufUsageLen) != SUCCESS) ==>
                res == -FlushCode(old(server.NextWrite()), old(bufUsageLen)) < 0
      ensures old(bufType == WRITE && !Extends(|data|, offset) && FlushCode(server.NextWrite(), bufUsageLen) == SUCCESS) ==>
                FreshCount(|data|, Head(Later(old(server.writeAnswers))), MayCacheWrite(|data|, offset, info), userOk, res)
      ensures old(bufType) != WRITE ==>
                FreshCount(|data|, old(server.NextWrite()), MayCacheWrite(|data|, offset, info), userOk, res)
      ensures old(bufType) != WRITE && MayCacheWrite(|data|, offset, info) && old(store.free) != [] && userOk ==>
                bufType == WRITE && server.writeAnswers == old(server.writeAnswers) && bufUsageMaxLen == WriteRoom(offset)
      ensures userOk && old(bufType == WRITE && offset == (if fileOffset == -1 then -1 else fileOffset + bufUsageLen)
                            && |data| == bufUsageMaxLen - bufUsageLen) ==>
                var code := FlushCode(old(server.NextWrite()), old(bufUsageMaxLen));
                res == (if code == SUCCESS then |data| else -code) && server.writeAnswers == Later(old(server.writeAnswers))
      ensures info.cacheHits == old(if Extends(|data|, offset) || (bufType == NONE && LikelyWriteHit(offset, info))
                                    then MoreHits(info.cacheHits) else FewerHits(info.cacheHits))
      ensures old(Extends(|data|, offset)) && !userOk ==> res == -ADDRESSFAULT && Logical() == old(Logical())
      ensures userOk && old(bufType == WRITE && offset == (if fileOffset == -1 then -1 else fileOffset + bufUsageLen)
                            && |data| < bufUsageMaxLen - bufUsageLen) ==>
                res == |data| && server.data == old(server.data) && server.writeAnswers == old(server.writeAnswers)
    {
      if bufType != WRITE {
        res := WriteFresh(data, offset, info, userOk);
      } else if !Extends(|data|, offset) {
        res := FlushAndWrite(data, offset, info, userOk);
      } else {
        res := ExtendWriteBuffer(data, offset, info, userOk);
      }
    }

    /** Read from the servers directly. */
    method ReadDirect(size: nat, offset: nat) returns (res: int, out: Bytes)
      requires server.Valid()
      modifies server`readAnswers
      ensures server.Valid() && ReadResult(server.data, offset, size, res, out)
      ensures res == old(server.NextRead()).Result(|ReadAt(server.data, offset, size)|)
      ensures server.readAnswers == Later(old(server.readAnswers))
      ensures old(server.ReadsComplete()) ==> server.ReadsComplete() && res == |ReadAt(server.data, offset, size)|
    {
      assert server.readAnswers != [] ==> server.NextRead() in server.readAnswers;
      res, out := server.Read(offset, size);
    }

    /** Keep read-ahead bytes in the buffer just taken; drop the buffer again if the caller's memory fails. */
    method KeepReadAhead(bytes: Bytes, offset: nat, maxCacheLen: nat, userOk: bool)
      requires Base() && buf != null && 0 < |bytes| <= maxCacheLen <= RoomAt(chunkSize, store.bufSize, offset)
      requires bytes == ReadAt(server.data, offset, |bytes|)
      modifies this, store, buf
      ensures Valid() && bufType == (if userOk then READ else NONE) && Owned() == old(Owned())
      ensures userOk ==> fileOffset == offset && bufUsageLen == |bytes| && bufUsageMaxLen == maxCacheLen
    {
      CopyInto(buf, 0, bytes);
      if !userOk {
        DiscardCache();
        return;
      }
      assert buf[..|bytes|] == bytes;
      bufType := READ;
      bufUsageLen := |bytes|;
      bufUsageMaxLen := maxCacheLen;
      fileOffset := offset;
    }

    /** Serve a read from what was read ahead into the buffer just taken, and keep or drop that buffer. */
    method ServeAhead(size: nat, offset: nat, maxCacheLen: nat, ahead: int, bytes: Bytes, userOk: bool) returns (res: int, out: Bytes)
      requires Base() && buf != null && size <= maxCacheLen <= RoomAt(chunkSize, store.bufSize, offset)
      requires ahead > 0 ==> |bytes| == ahead && bytes <= ReadAt(server.data, offset, maxCacheLen)
      modifies this, store, buf
      ensures Valid() && Owned() == old(Owned())
      ensures ReadResult(server.data, offset, size, res, out)
      ensures res == if ahead <= 0 then ahead else if userOk then Min(size, ahead) else -ADDRESSFAULT
      ensures if userOk && ahead > 0 then bufType == READ && fileOffset == offset && bufUsageLen == ahead else bufType == NONE
    {
      if ahead <= 0 {
        DiscardCache();
        return ahead, [];
      }
      ReadPrefix(server.data, offset, size, maxCacheLen);
      ReadPrefix(server.data, offset, ahead, maxCacheLen);
      KeepReadAhead(bytes, offset, maxCacheLen, userOk);
      if !userOk {
        return -ADDRESSFAULT, [];
      }
      var numIterCopy := Min(size, ahead);
      return numIterCopy, bytes[..numIterCopy];
    }

    /** Fill a free buffer from `offset` on and serve the read from it. */
    method StartReadBuffer(size: nat, offset: nat, userOk: bool) returns (res: int, out: Bytes)
      requires Base() && store.free != [] && size < RoomAt(chunkSize, store.bufSize, offset)
      modifies this, store, server`readAnswers, store.Buffers()
      ensures Valid() && bufType != WRITE && Owned() == old(store.Buffers())
      ensures ReadResult(server.data, offset, size, res, out)
      ensures Told(old(server.NextRead()), |ReadAt(server.data, offset, size)|, userOk, res)
      ensures server.readAnswers == Later(old(server.readAnswers))
      ensures var ahead := old(server.NextRead()).Result(|ReadAt(server.data, offset, ReadAheadLen(chunkSize, store.bufSize, offset, size))|);
              if userOk && ahead > 0 then bufType == READ && fileOffset == offset && bufUsageLen == ahead else bufType == NONE
      ensures old(server.ReadsComplete()) ==> server.ReadsComplete() && (userOk ==> res == |ReadAt(server.data, offset, size)|)
    {
      assert server.readAnswers != [] ==> server.NextRead() in server.readAnswers;
      buf := store.InstantBuf();
      var maxCacheLen := ReadAheadLen(chunkSize, store.bufSize, offset, size);
      assert size < maxCacheLen <= RoomAt(chunkSize, store.bufSize, offset);
      AheadCount(server.data, offset, size, maxCacheLen, server.NextRead());
      var readRes, bytes := ReadDirect(maxCacheLen, offset);
      res, out := ServeAhead(size, offset, maxCacheLen, readRes, bytes, userOk);
    }

    /** Whether a read of `size` bytes may fill a fresh buffer. `parallel` means several readers. */
    predicate MayCacheRead(size: nat, offset: nat, info: FileInfo, parallel: bool) reads info
      requires chunkSize > 0
    {
      info.allowCaching && info.cacheHits > 0 && !parallel && size < RoomAt(chunkSize, store.bufSize, offset)
    }

    /** A read may fill a buffer exactly when caching pays and the buffer and the chunk hold more than it wants. */
    lemma MayCacheReadExactly(size: nat, offset: nat, info: FileInfo, parallel: bool)
      requires chunkSize > 0
      ensures MayCacheRead(size, offset, info, parallel) <==>
              && info.allowCaching && !parallel && info.cacheHits > 0 && size < store.bufSize
              && forall k :: offset <= k <= offset + size ==> k / chunkSize == offset / chunkSize
    {
      RoomExactly(chunkSize, store.bufSize, offset, size + 1);
    }

    /**
     * Read when no buffer is attached. After a flush that stored nothing a buffer is still attached: then
     * the last three clauses apply.
     */
    method ReadCacheFlushed(size: nat, offset: nat, info: FileInfo, parallel: bool, userOk: bool)
      returns (res: int, out: Bytes)
      requires Base()
      modifies this, store, server`readAnswers, store.Buffers()
      ensures Base()
      ensures old(bufType) == NONE && old(buf) == null ==> Valid() && bufType != WRITE && Owned() == old(Owned())
      ensures ReadResult(server.data, offset, size, res, out)
      ensures Told(old(server.NextRead()), |ReadAt(server.data, offset, size)|, userOk, res)
      ensures server.readAnswers == Later(old(server.readAnswers))
      ensures old(server.ReadsComplete()) ==> server.ReadsComplete() && (userOk ==> res == |ReadAt(server.data, offset, size)|)
      ensures !MayCacheRead(size, offset, info, parallel) ==> unchanged(this, store)
      ensures MayCacheRead(size, offset, info, parallel) && old(store.free) == [] ==> buf == null && bufType == old(bufType)
      ensures MayCacheRead(size, offset, info, parallel) && old(store.free) != [] ==>
                Valid() && bufType != WRITE && Owned() == old(store.Buffers())
    {
      if !info.allowCaching || info.cacheHits <= 0 || parallel {
        res, out := ReadDirect(size, offset);
      } else if size >= RoomAt(chunkSize, store.bufSize, offset) {
        res, out := ReadDirect(size, offset);
      } else if store.free == [] {
        buf := null;
        res, out := ReadDirect(size, offset);
      } else {
        res, out := StartReadBuffer(size, offset, userOk);
      }
    }

    /** Whether the attached read buffer shares a byte with a read of `size` bytes at `offset`. */
    predicate Overlaps(size: nat, offset: nat) reads this {
      !(fileOffset + bufUsageLen - 1 < offset || fileOffset > offset + size - 1)
    }

    /** Byte `k` of the file is one of the `n` bytes at `at`. */
    static predicate InRange(k: int, at: int, n: nat) { at <= k < at + n }

    lemma OverlapsExactly(size: nat, offset: nat)
      requires size > 0 && bufUsageLen > 0
      ensures Overlaps(size, offset) <==> exists k :: InRange(k, offset, size) && InRange(k, fileOffset, bufUsageLen)
    {
      var k := Max(offset, fileOffset);
      assert Overlaps(size, offset) ==> InRange(k, offset, size) && InRange(k, fileOffset, bufUsageLen);
    }

    /** Count a hit and read the part in front of the buffer from the servers; a short answer drops the buffer. */
    method ReadFront(ghost size: nat, offset: nat, info: FileInfo) returns (res: int, out: Bytes)
      requires Valid() && bufType == READ && offset < fileOffset < offset + size
      modifies this, store, server`readAnswers, info`cacheHits
      ensures info.cacheHits == MoreHits(old(info.cacheHits))
      ensures Valid() && Owned() == old(Owned())
      ensures bufType == READ ==>
                && buf == old(buf) && fileOffset == old(fileOffset) && bufUsageLen == old(bufUsageLen)
                && res == fileOffset - offset == |out| && out == ReadAt(server.data, offset, res)
      ensures bufType != READ ==>
                bufType == NONE && ReadResult(server.data, offset, size, res, out)
      ensures server.readAnswers == Later(old(server.readAnswers))
      ensures res == old(server.NextRead()).Result(old(fileOffset) - offset)
      ensures bufType == READ <==> res == old(fileOffset) - offset
      ensures old(server.ReadsComplete()) ==> server.ReadsComplete() && bufType == READ
    {
      info.IncCacheHits();
      ReadPrefix(server.data, offset, fileOffset - offset, size);
      res, out := ReadDirect(fileOffset - offset, offset);
      if res < fileOffset - offset {
        DiscardCache();
      }
    }

    /** The part of a read that the attached buffer holds, joined to the complete part in front of it. */
    method CopyFromBuffer(size: nat, offset: nat, front: Bytes) returns (out: Bytes)
      requires Valid() && bufType == READ && Overlaps(size, offset)
      requires |front| == (if offset < fileOffset then fileOffset - offset else 0)
      requires front == ReadAt(server.data, offset, |front|)
      ensures |out| == Min(fileOffset + bufUsageLen, offset + size) - offset
      ensures out == ReadAt(server.data, offset, |out|)
    {
      var cacheCopyOffset := if offset <= fileOffset then 0 else offset - fileOffset;
      var cacheCopySize := Min(fileOffset + bufUsageLen, offset + size) - (fileOffset + cacheCopyOffset);
      var middle := buf[..bufUsageLen][cacheCopyOffset..cacheCopyOffset + cacheCopySize];
      MiddleJoins(server.data, fileOffset, buf[..bufUsageLen], offset, front, cacheCopyOffset, cacheCopyOffset + cacheCopySize);
      out := front + middle;
    }

    /** The rest of a read behind the attached buffer, whose first part `got` is complete. */
    method ReadRest(size: nat, offset: nat, got: Bytes, info: FileInfo, parallel: bool, userOk: bool)
      returns (res: int, out: Bytes)
      requires Valid() && bufType == READ && |got| < size && got == ReadAt(server.data, offset, |got|)
      modifies this, store, server`readAnswers, Owned()
      ensures Valid() && bufType != WRITE && Owned() == old(Owned())
      ensures ReadResult(server.data, offset, size, res, out)
      ensures userOk ==> res == TailCount(|server.data|, offset + |got|, size, offset, old(server.NextRead()), userOk)
      ensures old(server.ReadsComplete()) ==> server.ReadsComplete() && (userOk ==> res == |ReadAt(server.data, offset, size)|)
    {
      DiscardCache();
      var remainderRes, rest := ReadCacheFlushed(size - |got|, offset + |got|, info, parallel, userOk);
      if remainderRes < 0 {
        return remainderRes, [];
      }
      ReadJoin(server.data, offset, got, size - |got|, rest);
      return |got| + remainderRes, got + rest;
    }

    /** Serve a read that overlaps the attached read buffer once its front is there: middle and rest. */
    method ReadFromBuffer(size: nat, offset: nat, front: Bytes, info: FileInfo, parallel: bool, userOk: bool)
      returns (res: int, out: Bytes)
      requires Valid() && bufType == READ && Overlaps(size, offset)
      requires |front| == (if offset < fileOffset then fileOffset - offset else 0)
      requires front == ReadAt(server.data, offset, |front|)
      modifies this, store, server`readAnswers, Owned()
      ensures Valid() && bufType != WRITE && Owned() == old(Owned())
      ensures ReadResult(server.data, offset, size, res, out)
      ensures res == TailCount(|server.data|, old(fileOffset + bufUsageLen), size, offset, old(server.NextRead()), userOk)
      ensures old(server.ReadsComplete()) ==> server.ReadsComplete() && (userOk ==> res == |ReadAt(server.data, offset, size)|)
      ensures offset + size <= old(fileOffset + bufUsageLen) ==> unchanged(this, store, server)
    {
      if !userOk {
        return -ADDRESSFAULT, [];
      }
      var cacheEnd := fileOffset + bufUsageLen;
      out := CopyFromBuffer(size, offset, front);
      if offset + size > cacheEnd {
        res, out := ReadRest(size, offset, out, info, parallel, userOk);
        return;
      }
      res := size;
    }

    /** Serve a read that starts before the attached read buffer: front from the servers, middle, rest. */
    method ReadAcrossStart(size: nat, offset: nat, info: FileInfo, parallel: bool, userOk: bool)
      returns (res: int, out: Bytes)
      requires Valid() && bufType == READ && Overlaps(size, offset) && offset < fileOffset
      modifies this, store, server`readAnswers, Owned(), info`cacheHits
      ensures info.cacheHits == MoreHits(old(info.cacheHits))
      ensures Valid() && bufType != WRITE && Owned() == old(Owned())
      ensures ReadResult(server.data, offset, size, res, out)
      ensures res == AcrossCount(|server.data|, old(fileOffset) - offset, old(fileOffset + bufUsageLen), size, offset,
                                 old(server.NextRead()), Head(Later(old(server.readAnswers))), userOk)
      ensures old(server.ReadsComplete()) ==> server.ReadsComplete() && (userOk ==> res == |ReadAt(server.data, offset, size)|)
    {
      var front;
      res, front := ReadFront(size, offset, info);
      if bufType != READ {
        return res, front;
      }
      res, out := ReadFromBuffer(size, offset, front, info, parallel, userOk);
    }

    /** Serve a read that starts inside the attached read buffer. */
    method ReadFromInside(size: nat, offset: nat, info: FileInfo, parallel: bool, userOk: bool)
      returns (res: int, out: Bytes)
      requires Valid() && bufType == READ && Overlaps(size, offset) && fileOffset <= offset
      modifies this, store, server`readAnswers, Owned(), info`cacheHits
      ensures info.cacheHits == MoreHits(old(info.cacheHits))
      ensures Valid() && bufType != WRITE && Owned() == old(Owned())
      ensures ReadResult(server.data, offset, size, res, out)
      ensures res == TailCount(|server.data|, old(fileOffset + bufUsageLen), size, offset, old(server.NextRead()), userOk)
      ensures old(server.ReadsComplete()) ==> server.ReadsComplete() && (userOk ==> res == |ReadAt(server.data, offset, size)|)
      ensures offset + size <= old(fileOffset + bufUsageLen) ==> unchanged(this, store, server)
    {
      info.IncCacheHits();
      res, out := ReadFromBuffer(size, offset, [], info, parallel, userOk);
    }

    /**
     * Flush and then read with the emptied cache. If the flush of a write buffer is answered with zero
     * bytes, the read is served from the servers without the buffered bytes, and a read buffer takes
     * the place of the write buffer.
     */
    method FlushAndRead(size: nat, offset: nat, info: FileInfo, parallel: bool, userOk: bool)
      returns (res: int, out: Bytes)
      requires Valid()
      modifies this, store, server, Owned(), info`cacheHits
      ensures info.cacheHits == FewerHits(old(info.cacheHits))
      ensures old(server.Reliable()) ==> server.Reliable() && (userOk ==> res == |ReadAt(old(Logical()), offset, size)|)
      ensures old(server.NeverZero()) ==> server.NeverZero()
      ensures old(bufType == WRITE && FlushCode(server.NextWrite(), bufUsageLen) != SUCCESS) ==>
                res == -FlushCode(old(server.NextWrite()), old(bufUsageLen)) < 0
      ensures old(bufType != WRITE || FlushCode(server.NextWrite(), bufUsageLen) == SUCCESS) ==>
                && Told(old(server.NextRead()), |ReadAt(server.data, offset, size)|, userOk, res)
                && (!old(ZeroFlush()) ==> server.data == old(Logical()))
      ensures Valid() && Owned() == old(Owned()) <==> !(old(ZeroFlush()) && MayCacheRead(size, offset, info, parallel))
      ensures !old(ZeroFlush()) ==>
                && ReadResult(old(Logical()), offset, size, res, out)
                && (old(Positioned()) || res >= 0 ==> Logical() == old(Logical()))
                && (old(Positioned()) ==> Positioned())
      ensures old(ZeroFlush()) ==>
                && server.data == old(if bufType == WRITE then Flushed() else [])
                && ReadResult(server.data, offset, size, res, out)
                && (old(server.ReadsComplete()) && userOk ==> res == |ReadAt(server.data, offset, size)|)
      ensures old(ZeroFlush()) && MayCacheRead(size, offset, info, parallel) && old(store.free) != [] ==>
                Valid() && bufType != WRITE && old(buf) !in Owned()
      ensures old(ZeroFlush()) && MayCacheRead(size, offset, info, parallel) && old(store.free) == [] ==>
                buf == null && bufType == WRITE
    {
      var flushRes := FlushMissed(info);
      if flushRes != SUCCESS {
        return -flushRes, [];
      }
      ghost var kept := buf;
      assert kept != null ==> kept as object !in store.Buffers();
      res, out := ReadCacheFlushed(size, offset, info, parallel, userOk);
      assert kept != null ==> kept as object in old(Owned());
    }

    /** A buffer filled at the last read would have had a byte of this one. */
    predicate LikelyReadHit(size: nat, offset: nat, info: FileInfo) reads info {
      info.lastReadOffset < offset + size && offset < info.lastReadOffset + store.bufSize
    }

    /** Read with no buffer attached. */
    method ReadFresh(size: nat, offset: nat, info: FileInfo, fastPath: bool, parallel: bool, userOk: bool)
      returns (res: int, out: Bytes)
      requires Valid() && bufType == NONE
      modifies this, store, server`readAnswers, Owned(), info`cacheHits
      ensures Valid() && bufType != WRITE && Owned() == old(Owned())
      ensures ReadResult(server.data, offset, size, res, out)
      ensures Told(old(server.NextRead()), |ReadAt(server.data, offset, size)|, userOk, res)
      ensures old(server.ReadsComplete()) ==> server.ReadsComplete() && (userOk ==> res == |ReadAt(server.data, offset, size)|)
      ensures info.cacheHits == old(if fastPath || !info.allowCaching then info.cacheHits
                                    else if LikelyReadHit(size, offset, info)
                                    then MoreHits(info.cacheHits) else FewerHits(info.cacheHits))
    {
      if fastPath || !info.allowCaching {
        res, out := ReadDirect(size, offset);
        return;
      }
      if info.lastReadOffset + store.bufSize - 1 >= offset && info.lastReadOffset <= offset + size - 1 {
        info.IncCacheHits();
      } else {
        info.DecCacheHits();
      }
      res, out := ReadCacheFlushed(size, offset, info, parallel, userOk);
    }

    /**
     * Buffered read. `fastPath` is the unlocked hint that several readers have the file open, `parallel`
     * the same hint read again later. If the flush of a write buffer is answered with zero bytes, the read
     * is served from the servers without the buffered bytes, and a read buffer takes the place of the
     * write buffer.
     */
    method ReadCached(size: nat, offset: nat, info: FileInfo, fastPath: bool, parallel: bool, userOk: bool)
      returns (res: int, out: Bytes)
      requires Valid()
      modifies this, store, server, Owned(), info`cacheHits
      ensures old(server.Reliable()) ==> server.Reliable() && (userOk ==> res == |ReadAt(old(Logical()), offset, size)|)
      ensures old(server.NeverZero()) ==> server.NeverZero()
      ensures old(bufType == WRITE && FlushCode(server.NextWrite(), bufUsageLen) != SUCCESS) ==>
                res == -FlushCode(old(server.NextWrite()), old(bufUsageLen)) < 0
      ensures old(if bufType == READ then !Overlaps(size, offset)
                  else bufType == NONE || FlushCode(server.NextWrite(), bufUsageLen) == SUCCESS) ==>
                Told(old(server.NextRead()), |ReadAt(server.data, offset, size)|, userOk, res)
      ensures old(bufType == READ && Overlaps(size, offset)) && offset >= old(fileOffset) ==>
                res == TailCount(|server.data|, old(fileOffset + bufUsageLen), size, offset, old(server.NextRead()), userOk)
      ensures old(bufType == READ && Overlaps(size, offset)) && offset < old(fileOffset) ==>
                res == AcrossCount(|server.data|, old(fileOffset) - offset, old(fileOffset + bufUsageLen), size, offset,
                                   old(server.NextRead()), Head(Later(old(server.readAnswers))), userOk)
      ensures old(bufType != WRITE || FlushCode(server.NextWrite(), bufUsageLen) == SUCCESS) && !old(ZeroFlush()) ==>
                server.data == old(Logical())
      ensures info.cacheHits == old(if bufType == NONE && (fastPath || !info.allowCaching) then info.cacheHits
                                    else if bufType == READ && Overlaps(size, offset) then MoreHits(info.cacheHits)
                                    else if bufType == NONE && LikelyReadHit(size, offset, info)
                                    then MoreHits(info.cacheHits) else FewerHits(info.cacheHits))
      ensures Valid() && Owned() == old(Owned()) <==> !(old(ZeroFlush()) && MayCacheRead(size, offset, info, parallel))
      ensures !old(ZeroFlush()) ==>
                && ReadResult(old(Logical()), offset, size, res, out)
                && (old(Positioned()) || res >= 0 ==> Logical() == old(Logical()))
                && (old(Positioned()) ==> Positioned())
      ensures old(ZeroFlush()) ==>
                && server.data == old(if bufType == WRITE then Flushed() else [])
                && ReadResult(server.data, offset, size, res, out)
                && (old(server.ReadsComplete()) && userOk ==> res == |ReadAt(server.data, offset, size)|)
      ensures old(ZeroFlush()) && MayCacheRead(size, offset, info, parallel) && old(store.free) != [] ==>
                Valid() && bufType != WRITE && old(buf) !in Owned()
      ensures old(ZeroFlush()) && MayCacheRead(size, offset, info, parallel) && old(store.free) == [] ==>
                buf == null && bufType == WRITE
      ensures old(bufType == READ && fileOffset <= offset && offset + size <= fileOffset + bufUsageLen && size > 0) ==>
                && (userOk ==> res == size) && server.readAnswers == old(server.readAnswers)
                && bufType == READ && buf == old(buf) && fileOffset == old(fileOffset) && bufUsageLen == old(bufUsageLen)
    {
      if bufType == NONE {
        res, out := ReadFresh(size, offset, info, fastPath, parallel, userOk);
      } else if bufType == WRITE || !Overlaps(size, offset) {
        res, out := FlushAndRead(size, offset, info, parallel, userOk);
      } else if offset < fileOffset {
        res, out := ReadAcrossStart(size, offset, info, parallel, userOk);
      } else {
        res, out := ReadFromInside(size, offset, info, parallel, userOk);
      }
    }
  }
}
