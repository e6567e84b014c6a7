/** File contents as byte sequences, and what a positioned write does to them. */
module FileBytes {

  newtype Byte = x: int | 0 <= x < 256

  type Bytes = seq<Byte>

  function Min(a: int, b: int): int { if a < b then a else b }

  function Max(a: int, b: int): int { if a < b then b else a }

  /** The file after `d` is written at `off`: a gap before `off` becomes zeros, and writing nothing changes nothing. */
  function Overlay(f: Bytes, off: nat, d: Bytes): Bytes {
    if d == [] then f
    else seq(Max(|f|, off + |d|), i requires 0 <= i < Max(|f|, off + |d|) =>
               if off <= i < off + |d| then d[i - off] else if i < |f| then f[i] else 0)
  }

  /** The bytes a read of `n` bytes at `off` yields; shorter at the end of the file. */
  function ReadAt(f: Bytes, off: nat, n: nat): Bytes {
    f[Min(off, |f|)..Min(off + n, |f|)]
  }

  /**
   * `g` is `f` after a write of `d` at `off` of which any subset of the bytes may have arrived.
   * Every byte of `g` is the new byte, the old byte, or the zero of a hole.
   */
  ghost predicate PartiallyWritten(f: Bytes, off: nat, d: Bytes, g: Bytes) {
    && |f| <= |g| <= |Overlay(f, off, d)|
    && forall i :: 0 <= i < |g| ==>
                     || (off <= i < off + |d| && g[i] == d[i - off])
                     || g[i] == (if i < |f| then f[i] else 0)
  }

  lemma OverlayAtEnd(f: Bytes, d: Bytes)
    ensures Overlay(f, |f|, d) == f + d
  {
  }

  /** Writing `a` and then `b` right behind it is one write of `a + b`. */
  lemma OverlayChain(f: Bytes, off: nat, a: Bytes, b: Bytes)
    ensures Overlay(Overlay(f, off, a), off + |a|, b) == Overlay(f, off, a + b)
  {
    var l, r := Overlay(Overlay(f, off, a), off + |a|, b), Overlay(f, off, a + b);
    if a == [] {
      assert a + b == b;
    } else if b == [] {
      assert a + b == a;
    } else {
      assert |l| == |r|;
      assert forall i :: 0 <= i < |l| ==> l[i] == r[i];
    }
  }

  /** Repeating a write that got through only in part ends where one complete write would have. */
  lemma OverlayAfterPartial(f: Bytes, off: nat, d: Bytes, g: Bytes)
    requires PartiallyWritten(f, off, d, g)
    ensures Overlay(g, off, d) == Overlay(f, off, d)
  {
    var l, r := Overlay(g, off, d), Overlay(f, off, d);
    assert |l| == |r|;
    assert forall i :: 0 <= i < |l| ==> l[i] == r[i];
  }

  /** When a write got through in part, but its first `n` bytes for certain, writing the rest completes it. */
  lemma RestCompletes(f: Bytes, off: nat, d: Bytes, n: nat, g: Bytes, at: nat, rest: Bytes)
    requires n <= |d| && at == off + n && rest == d[n..] && PartiallyWritten(f, off, d, g)
    requires n > 0 ==> at <= |g| && g[off..at] == d[..n]
    ensures Overlay(g, at, rest) == Overlay(f, off, d)
  {
    var l, r := Overlay(g, at, rest), Overlay(f, off, d);
    if d != [] {
      assert |l| == |r|;
      forall i | 0 <= i < |l|
        ensures l[i] == r[i]
      {
        if off <= i < at {
          assert l[i] == g[i] == g[off..at][i - off];
        }
      }
    }
  }

  lemma OverlayIsPartial(f: Bytes, off: nat, d: Bytes)
    ensures PartiallyWritten(f, off, d, Overlay(f, off, d))
    ensures PartiallyWritten(f, off, d, f)
  {
  }

  /** Writes to ranges that share no byte can be exchanged. */
  lemma OverlayCommutes(f: Bytes, o1: nat, d1: Bytes, o2: nat, d2: Bytes)
    requires o1 + |d1| <= o2 || o2 + |d2| <= o1
    ensures Overlay(Overlay(f, o1, d1), o2, d2) == Overlay(Overlay(f, o2, d2), o1, d1)
  {
    var l, r := Overlay(Overlay(f, o1, d1), o2, d2), Overlay(Overlay(f, o2, d2), o1, d1);
    assert |l| == |r|;
    assert forall i :: 0 <= i < |l| ==> l[i] == r[i];
  }

  /** A read can be split anywhere. */
  lemma ReadSplit(f: Bytes, off: nat, m: nat, n: nat)
    ensures ReadAt(f, off, m + n) == ReadAt(f, off, m) + ReadAt(f, off + m, n)
  {
  }

  /** A shorter read at the same place yields a prefix of the longer one. */
  lemma ReadPrefix(f: Bytes, off: nat, m: nat, n: nat)
    requires m <= n
    ensures ReadAt(f, off, m) == ReadAt(f, off, n)[..Min(m, |ReadAt(f, off, n)|)]
  {
    var lo, hi := Min(off, |f|), Min(off + n, |f|);
    var k := Min(m, hi - lo);
    assert f[lo..hi][..k] == f[lo..lo + k];
  }

  /** A read from inside an earlier read's bytes. */
  lemma ReadWithin(f: Bytes, off: nat, n: nat, lo: nat, hi: nat)
    requires lo <= hi <= |ReadAt(f, off, n)|
    ensures ReadAt(f, off + lo, hi - lo) == ReadAt(f, off, n)[lo..hi]
  {
    if lo < hi {
      assert ReadAt(f, off, n) == f[off..Min(off + n, |f|)];
      assert ReadAt(f, off + lo, hi - lo) == f[off + lo..off + hi];
    }
  }

  /** Position `i` reads the same without the write of `d` at `off` as with it. */
  predicate Unaffected(f: Bytes, off: nat, d: Bytes, i: nat) {
    i < |f| && (off <= i < off + |d| ==> f[i] == d[i - off])
  }

  lemma ReadByte(f: Bytes, at: nat, n: nat, i: nat)
    requires at <= i < Min(at + n, |f|)
    ensures i - at < |ReadAt(f, at, n)| && ReadAt(f, at, n)[i - at] == f[i]
  {
  }

  lemma RightReadUnaffected(f: Bytes, off: nat, d: Bytes, at: nat, n: nat, g: Bytes, i: nat)
    requires g == Overlay(f, off, d) && ReadAt(f, at, n) == ReadAt(g, at, n) && at <= i < Min(at + n, |g|)
    ensures Unaffected(f, off, d, i)
  {
    ReadByte(g, at, n, i);
    assert i < |f|;
    ReadByte(f, at, n, i);
  }

  lemma UnaffectedReadRight(f: Bytes, off: nat, d: Bytes, at: nat, n: nat, g: Bytes)
    requires g == Overlay(f, off, d) && at < Min(at + n, |g|)
    requires forall i: nat :: at <= i < Min(at + n, |g|) ==> Unaffected(f, off, d, i)
    ensures ReadAt(f, at, n) == ReadAt(g, at, n)
  {
    var end := Min(at + n, |g|);
    assert Unaffected(f, off, d, end - 1);
    var x, y := f[at..end], g[at..end];
    forall k: nat | k < end - at
      ensures x[k] == y[k]
    {
      assert Unaffected(f, off, d, at + k);
      OverlayByte(f, off, d, at + k);
    }
    assert x == y;
    assert ReadAt(f, at, n) == x && ReadAt(g, at, n) == y;
  }

  lemma OverlayByte(f: Bytes, off: nat, d: Bytes, i: nat)
    requires i < |f|
    ensures i < |Overlay(f, off, d)|
    ensures Overlay(f, off, d)[i] == if off <= i < off + |d| then d[i - off] else f[i]
  {
  }

  /**
   * A read that misses a write of `d` at `off` is right exactly when it stays inside the old file and the
   * bytes of the write in its range were there before.
   */
  lemma MissedWriteExact(f: Bytes, off: nat, d: Bytes, at: nat, n: nat)
    ensures ReadAt(f, at, n) == ReadAt(Overlay(f, off, d), at, n) <==>
            forall i: nat :: at <= i < Min(at + n, |Overlay(f, off, d)|) ==> Unaffected(f, off, d, i)
  {
    var g := Overlay(f, off, d);
    var end := Min(at + n, |g|);
    if ReadAt(f, at, n) == ReadAt(g, at, n) {
      forall i: nat | at <= i < end ensures Unaffected(f, off, d, i) {
        RightReadUnaffected(f, off, d, at, n, g, i);
      }
    } else if at < end && forall i: nat :: at <= i < end ==> Unaffected(f, off, d, i) {
      UnaffectedReadRight(f, off, d, at, n, g);
    }
  }

  /** The byte at `i`, or the zero that a longer file would have there. */
  function PaddedAt(f: Bytes, i: nat): Byte { if i < |f| then f[i] else 0 }

  /** With the second write the file still gets as long, and each byte of `d` outside it was there before. */
  ghost predicate MakesUpFor(f: Bytes, off: nat, d: Bytes, off2: nat, d2: Bytes) {
    && off + |d| <= |Overlay(f, off2, d2)|
    && forall i: nat :: off <= i < off + |d| && !(off2 <= i < off2 + |d2|) ==> PaddedAt(f, i) == d[i - off]
  }

  /** Missing a write does not matter after a later one exactly when that one makes up for it. */
  lemma LostWriteExact(f: Bytes, off: nat, d: Bytes, off2: nat, d2: Bytes)
    requires d != []
    ensures Overlay(f, off2, d2) == Overlay(Overlay(f, off, d), off2, d2) <==> MakesUpFor(f, off, d, off2, d2)
  {
    var l, r := Overlay(f, off2, d2), Overlay(Overlay(f, off, d), off2, d2);
    if l == r {
      forall i: nat | off <= i < off + |d| && !(off2 <= i < off2 + |d2|)
        ensures PaddedAt(f, i) == d[i - off]
      {
        assert r[i] == d[i - off] && l[i] == PaddedAt(f, i);
      }
    } else if MakesUpFor(f, off, d, off2, d2) {
      forall i: nat | i < |l|
        ensures l[i] == r[i]
      {
        assert off <= i < off + |d| ==> off2 <= i < off2 + |d2| || PaddedAt(f, i) == d[i - off];
      }
    }
  }

  /** Two writes that both cover position `i` put the same byte there. */
  predicate AgreeAt(o1: nat, d1: Bytes, o2: nat, d2: Bytes, i: nat) {
    o1 <= i < o1 + |d1| && o2 <= i < o2 + |d2| ==> d1[i - o1] == d2[i - o2]
  }

  /** Two writes can be exchanged exactly when they agree wherever they meet. */
  lemma ExchangeExact(f: Bytes, o1: nat, d1: Bytes, o2: nat, d2: Bytes)
    ensures Overlay(Overlay(f, o2, d2), o1, d1) == Overlay(Overlay(f, o1, d1), o2, d2) <==>
            forall i: nat :: AgreeAt(o1, d1, o2, d2, i)
  {
    var l, r := Overlay(Overlay(f, o2, d2), o1, d1), Overlay(Overlay(f, o1, d1), o2, d2);
    assert |l| == |r|;
    if l == r {
      forall i: nat
        ensures AgreeAt(o1, d1, o2, d2, i)
      {
        if o1 <= i < o1 + |d1| && o2 <= i < o2 + |d2| {
          assert l[i] == d1[i - o1] && r[i] == d2[i - o2];
        }
      }
    } else if forall i: nat :: AgreeAt(o1, d1, o2, d2, i) {
      forall i: nat | i < |l|
        ensures l[i] == r[i]
      {
        assert AgreeAt(o1, d1, o2, d2, i);
      }
    }
  }

  /** The first `n` bytes of `d` are in the file from `start` on. */
  ghost predicate Holds(f: Bytes, start: nat, d: Bytes, n: int) {
    0 <= n <= |d| ==> ReadAt(f, start, n) == d[..n]
  }

  /** A write can be read back. */
  lemma OverlayHolds(f: Bytes, off: nat, d: Bytes)
    ensures Holds(Overlay(f, off, d), off, d, |d|)
  {
    if d != [] {
      assert ReadAt(Overlay(f, off, d), off, |d|) == d;
    }
  }

  /** `out` is what a read of `size` bytes at `offset` may return: the file's bytes, possibly fewer. */
  ghost predicate ReadResult(f: Bytes, offset: nat, size: nat, res: int, out: Bytes) {
    res >= 0 ==> |out| == res && out <= ReadAt(f, offset, size)
  }

  /** A read result behind a complete read of the bytes before it is a read result of both together. */
  lemma ReadJoin(f: Bytes, off: nat, a: Bytes, n: nat, b: Bytes)
    requires a == ReadAt(f, off, |a|) && b <= ReadAt(f, off + |a|, n)
    ensures a + b <= ReadAt(f, off, |a| + n)
    ensures b == ReadAt(f, off + |a|, n) ==> a + b == ReadAt(f, off, |a| + n)
  {
    ReadSplit(f, off, |a|, n);
  }
}
