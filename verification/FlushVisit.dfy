/** What one visit of the asynchronous flusher does to an inode's buffer. */
module FlushVisit {
  import opened FileBytes
  import opened Remote
  import opened FileCache
  import CacheRuns

  const COMMUNICATION := 3
  const INUSE := 9

  /** What becomes of the inode: its reference is dropped, or it goes back into the store. */
  datatype Visit = Dropped | GivenUp | ReAdded

  /** Whether a failed flush makes the flusher give the buffer up; "in use" is taken for a busy lock. */
  predicate GivesUp(err: int, isOpen: bool) { err != INUSE && (err != COMMUNICATION || !isOpen) }

  predicate ArrivedOnce(a1: Answer, a2: Answer, k: nat) { a1.Arrived(k) || a2.Arrived(k) }

  /**
   * Two attempts leave nothing out: one of them reached the end, or the file was that long before, and every
   * byte arrived in one of them or was there before.
   */
  ghost predicate NothingMissing(f: Bytes, off: nat, d: Bytes, a1: Answer, a2: Answer) {
    && (|f| >= off + |d| || Reach(a1, |d|) == |d| || Reach(a2, |d|) == |d|)
    && forall k: nat :: k < |d| ==> ArrivedOnce(a1, a2, k) || PaddedAt(f, off + k) == d[k]
  }

  lemma StoredAt(f: Bytes, off: nat, d: Bytes, a: Answer, g: Bytes, i: nat)
    requires g == Stored(f, off, d, a)
    ensures PaddedAt(g, i) == if off <= i < off + |d| && a.Arrived(i - off) then d[i - off] else PaddedAt(f, i)
  {
    var r := Reach(a, |d|);
    if off <= i < off + |d| && a.Arrived(i - off) {
      assert i - off < r;
    }
  }

  lemma StoredLength(f: Bytes, off: nat, d: Bytes, a: Answer)
    ensures |f| <= |Stored(f, off, d, a)|
    ensures d != [] ==> (|Stored(f, off, d, a)| >= off + |d| <==> |f| >= off + |d| || Reach(a, |d|) == |d|)
  {
  }

  /** Two files of the same padded bytes and length are the same. */
  lemma SameBytes(g: Bytes, h: Bytes)
    requires |g| == |h| && forall i: nat :: PaddedAt(g, i) == PaddedAt(h, i)
    ensures g == h
  {
    forall i: nat | i < |g| ensures g[i] == h[i] {
      assert PaddedAt(g, i) == PaddedAt(h, i);
    }
  }

  lemma OverlayPadded(f: Bytes, off: nat, d: Bytes, i: nat)
    ensures PaddedAt(Overlay(f, off, d), i) == if off <= i < off + |d| then d[i - off] else PaddedAt(f, i)
  {
  }

  /** The bytes after two attempts. */
  lemma TwiceAt(f: Bytes, off: nat, d: Bytes, a1: Answer, a2: Answer, g: Bytes, h: Bytes, i: nat)
    requires g == Stored(f, off, d, a1) && h == Stored(g, off, d, a2)
    ensures PaddedAt(h, i) == if off <= i < off + |d| && ArrivedOnce(a1, a2, i - off) then d[i - off] else PaddedAt(f, i)
  {
    StoredAt(f, off, d, a1, g, i);
    StoredAt(g, off, d, a2, h, i);
  }

  lemma TwiceLength(f: Bytes, off: nat, d: Bytes, a1: Answer, a2: Answer, h: Bytes)
    requires d != [] && h == Stored(Stored(f, off, d, a1), off, d, a2)
    ensures |h| == |Overlay(f, off, d)| <==> |f| >= off + |d| || Reach(a1, |d|) == |d| || Reach(a2, |d|) == |d|
  {
    var g := Stored(f, off, d, a1);
    StoredLength(f, off, d, a1);
    StoredLength(g, off, d, a2);
    StoredIsPartial(f, off, d, a1);
    StoredIsPartial(g, off, d, a2);
    OverlayAfterPartial(f, off, d, g);
  }

  /** Two attempts store the whole write exactly when they leave nothing out. */
  lemma TwoAttemptsExact(f: Bytes, off: nat, d: Bytes, a1: Answer, a2: Answer, h: Bytes)
    requires d != [] && h == Stored(Stored(f, off, d, a1), off, d, a2)
    ensures h == Overlay(f, off, d) <==> NothingMissing(f, off, d, a1, a2)
  {
    var l := Overlay(f, off, d);
    TwiceLength(f, off, d, a1, a2, h);
    forall i: nat
      ensures PaddedAt(l, i) == if off <= i < off + |d| then d[i - off] else PaddedAt(f, i)
      ensures PaddedAt(h, i) == if off <= i < off + |d| && ArrivedOnce(a1, a2, i - off) then d[i - off] else PaddedAt(f, i)
    {
      OverlayPadded(f, off, d, i);
      TwiceAt(f, off, d, a1, a2, Stored(f, off, d, a1), h, i);
    }
    if h == l {
      forall k: nat | k < |d|
        ensures ArrivedOnce(a1, a2, k) || PaddedAt(f, off + k) == d[k]
      {
        assert PaddedAt(l, off + k) == d[k];
      }
    } else if NothingMissing(f, off, d, a1, a2) {
      forall i: nat ensures PaddedAt(h, i) == PaddedAt(l, i) {
        assert off <= i < off + |d| ==> ArrivedOnce(a1, a2, i - off) || PaddedAt(f, off + (i - off)) == d[i - off];
      }
      SameBytes(h, l);
    }
  }

  /** The final flush: whatever the answer, the buffer is gone. */
  method FlushFinally(c: InodeCache, ghost off: int, ghost d: Bytes)
    requires c.Valid() && c.Keeps(c.buf, off, d)
    modifies c, c.store, c.server
    ensures c.Valid() && c.Owned() == old(c.Owned()) && c.bufType == NONE && c.Logical() == c.server.data
    ensures off >= -1 && c.server.data == Stored(old(c.server.data), StartOf(old(c.server.data), off), d, old(c.server.NextWrite()))
  {
    var _ := c.FlushCacheUnlocked(true);
  }

  /** The place, the bytes and the next two answers of a write buffer. */
  datatype Pending = Pending(off: int, bytes: Bytes, first: Answer, second: Answer)

  ghost function PendingOf(c: InodeCache): Pending
    requires c.Valid() && c.bufType == WRITE
    reads c, c.store, c.server, c.buf
  {
    Pending(c.fileOffset, c.buf[..c.bufUsageLen], c.server.NextWrite(), Head(Later(c.server.writeAnswers)))
  }

  /** The servers' file `g` after both attempts to store a buffer that is then given up. */
  ghost predicate AfterBoth(f: Bytes, p: Pending, g: Bytes) {
    p.off >= -1 &&
    var once := Stored(f, StartOf(f, p.off), p.bytes, p.first);
    g == Stored(once, StartOf(once, p.off), p.bytes, p.second)
  }

  /**
   * One visit to an inode with a write buffer, with its lock free and no user in between. Users see the same
   * file unless the buffer is given up or appends. The buffer is given up after any error but "in use" and a
   * communication error, and after a communication error when the file is not open. Then it is gone, and the
   * servers hold what two attempts left of it.
   */
  method VisitWriteBuffer(c: InodeCache, isOpen: bool) returns (v: Visit)
    requires c.Valid() && c.bufType == WRITE
    modifies c, c.store, c.server
    ensures c.Valid() && c.Owned() == old(c.Owned())
    ensures var err := FlushCode(old(c.server.NextWrite()), old(c.bufUsageLen));
            v == if err == SUCCESS then Dropped else if GivesUp(err, isOpen) then GivenUp else ReAdded
    ensures v != GivenUp && old(c.Positioned()) ==> c.Logical() == old(c.Logical())
    ensures v == Dropped && !old(c.ZeroFlush()) ==> c.bufType == NONE && c.server.data == old(c.Logical())
    ensures old(c.server.NextWrite().Fail? && c.server.NextWrite().code == 3) ==>
              if isOpen then v == ReAdded && c.Keeps(old(c.buf), old(c.fileOffset), old(c.buf[..c.bufUsageLen]))
              else v == GivenUp && c.bufType == NONE
    ensures old(c.server.NextWrite().Fail? && c.server.NextWrite().code == 9) ==>
              v == ReAdded && c.Keeps(old(c.buf), old(c.fileOffset), old(c.buf[..c.bufUsageLen]))
    ensures v == GivenUp ==>
              c.bufType == NONE && c.Logical() == c.server.data && AfterBoth(old(c.server.data), old(PendingOf(c)), c.server.data)
  {
    ghost var p := PendingOf(c);
    var err := c.FlushCacheUnlocked(false);
    if err == SUCCESS {
      return Dropped;
    }
    if err == INUSE {
      return ReAdded;
    }
    if err != COMMUNICATION || !isOpen {
      FlushFinally(c, p.off, p.bytes);
      return GivenUp;
    }
    return ReAdded;
  }

  /**
   * A visit to any inode. With no user in between, users see the same file unless a buffer of positioned writes
   * is given up and something is missing after both attempts, or the buffer appends.
   */
  method VisitInode(c: InodeCache, lockFree: bool, isOpen: bool) returns (v: Visit)
    requires c.Valid()
    modifies c, c.store, c.server
    ensures c.Valid() && c.Owned() == old(c.Owned())
    ensures !lockFree ==> v == ReAdded && c.server.data == old(c.server.data)
    ensures lockFree && old(c.bufType) != WRITE ==> v == Dropped && c.bufType == NONE
    ensures lockFree && old(c.bufType) == WRITE ==>
              var err := FlushCode(old(c.server.NextWrite()), old(c.bufUsageLen));
              v == if err == SUCCESS then Dropped else if GivesUp(err, isOpen) then GivenUp else ReAdded
    ensures old(c.Positioned()) ==>
              (c.Logical() == old(c.Logical()) <==> v != GivenUp || old(LeavesNothingOut(c)))
  {
    if !lockFree {
      return ReAdded;
    }
    if c.bufType != WRITE {
      var _ := c.FlushCacheUnlocked(false);
      return Dropped;
    }
    ghost var f, p := c.server.data, PendingOf(c);
    v := VisitWriteBuffer(c, isOpen);
    if v == GivenUp && p.off >= 0 {
      GivenUpExact(f, p, c.server.data);
    }
  }

  /** Both attempts together would store the whole buffer. */
  ghost predicate LeavesNothingOut(c: InodeCache)
    requires c.Valid()
    reads c, c.store, c.server, c.buf
  {
    c.bufType == WRITE ==>
      var p := PendingOf(c);
      p.off >= 0 && NothingMissing(c.server.data, p.off, p.bytes, p.first, p.second)
  }

  lemma GivenUpExact(f: Bytes, p: Pending, g: Bytes)
    requires AfterBoth(f, p, g) && p.off >= 0
    ensures g == Overlay(f, p.off, p.bytes) <==> NothingMissing(f, p.off, p.bytes, p.first, p.second)
  {
    if p.bytes != [] {
      TwoAttemptsExact(f, p.off, p.bytes, p.first, p.second, g);
    }
  }

  /**
   * A buffer of an open file is given up: the servers have no space for its only byte, twice, and the byte is
   * gone although the file is open and its user could still be told.
   */
  method GivenUpWhileOpen() returns (v: Visit, ghost before: Bytes, ghost after: Bytes)
    ensures v == GivenUp && before == [7] && after == []
  {
    var c, _ := CacheRuns.BufferedByte([Fail(NOSPACE, {}), Fail(NOSPACE, {})]);
    before := c.Logical();
    ghost var none := Fail(NOSPACE, {});
    assert Stored([], 0, [7], none) == [];
    v := VisitWriteBuffer(c, true);
    after := c.Logical();
  }
}
