/** The storage servers as one client sees them: a file, and answers that may be short or errors. */
module Remote {
  import opened FileBytes

  /**
   * How the servers answer one request.
   *  - `Full`: everything asked for was done.
   *  - `Short(count, stray)`: `count` bytes were done and reported. For a write, bytes whose index is
   *    in `stray` also arrived (other stripe targets may have stored theirs) but are not reported.
   *  - `Fail(code, stray)`: an error is reported, and again some bytes of a write may have arrived.
   */
  datatype Answer =
    | Full
    | Short(count: nat, stray: set<nat>)
    | Fail(code: nat, stray: set<nat>)
  {
    predicate Valid() { Fail? ==> code > 0 }

    /** Nothing was done and no error is reported. */
    predicate Zero() { Short? && count == 0 }

    /** What the caller is told when it asked for `n` bytes. */
    function Result(n: nat): int {
      match this
      case Full => n
      case Short(count, _) => Min(count, n)
      case Fail(code, _) => 0 - code
    }

    /** Whether byte `k` of a write arrived. */
    predicate Arrived(k: nat) {
      match this
      case Full => true
      case Short(count, stray) => k < count || k in stray
      case Fail(_, stray) => k in stray
    }
  }

  /**
   * Nothing is taken for granted about a write that goes wrong: whatever set of bytes arrived, the servers may
   * count any beginning of them, or report any error.
   */
  lemma AnythingMayArrive(arrived: set<nat>, count: nat, code: nat, n: nat)
    requires (forall k: nat :: k < count ==> k in arrived) && count <= n
    ensures var a := Short(count, arrived); a.Result(n) == count && forall k: nat :: a.Arrived(k) <==> k in arrived
    ensures var a := Fail(code, arrived); a.Result(n) == 0 - code && forall k: nat :: a.Arrived(k) <==> k in arrived
  {
  }

  /** One past the last byte of an `n`-byte write that arrived. */
  function Reach(a: Answer, n: nat): (r: nat)
    ensures r <= n
    ensures r > 0 ==> a.Arrived(r - 1)
    ensures forall k :: r <= k < n ==> !a.Arrived(k)
  {
    if n == 0 then 0 else if a.Arrived(n - 1) then n else Reach(a, n - 1)
  }

  /** The file after a write of `d` at `off` that was answered with `a`. */
  function Stored(f: Bytes, off: nat, d: Bytes, a: Answer): Bytes {
    var r := Reach(a, |d|);
    if r == 0 then f
    else seq(Max(|f|, off + r), i requires 0 <= i < Max(|f|, off + r) =>
               if off <= i < off + r && a.Arrived(i - off) then d[i - off] else if i < |f| then f[i] else 0)
  }

  lemma StoredIsPartial(f: Bytes, off: nat, d: Bytes, a: Answer)
    ensures PartiallyWritten(f, off, d, Stored(f, off, d, a))
    ensures a.Result(|d|) == |d| ==> Stored(f, off, d, a) == Overlay(f, off, d)
  {
    StoredWithPrefix(f, off, d, 0, a);
    if a.Result(|d|) == |d| {
      StoredWithPrefix(f, off, d, |d|, a);
    }
  }

  /** What arrived for certain is in the file, and the rest of the file is untouched or from the write. */
  lemma StoredWithPrefix(f: Bytes, off: nat, d: Bytes, n: nat, a: Answer)
    requires n <= |d| && forall k :: 0 <= k < n ==> a.Arrived(k)
    ensures var g := Stored(f, off, d, a);
            && PartiallyWritten(f, off, d, g)
            && (n > 0 ==> off + n <= |g|)
            && (forall k :: off <= k < off + n ==> g[k] == d[k - off])
            && (n == |d| ==> g == Overlay(f, off, d))
  {
    var g, r := Stored(f, off, d, a), Reach(a, |d|);
    if n > 0 {
      assert a.Arrived(n - 1) && n <= r;
    }
    if r > 0 {
      assert forall i :: 0 <= i < |g| ==>
          g[i] == if off <= i < off + r && a.Arrived(i - off) then d[i - off] else if i < |f| then f[i] else 0;
    }
  }

  /** What is counted has arrived. */
  lemma CountedHolds(f: Bytes, off: nat, d: Bytes, a: Answer)
    ensures Holds(Stored(f, off, d, a), off, d, a.Result(|d|))
  {
    var n := a.Result(|d|);
    if n >= 0 {
      StoredWithPrefix(f, off, d, n, a);
      var g := Stored(f, off, d, a);
      if n > 0 {
        assert ReadAt(g, off, n) == g[off..off + n] == d[..n];
      }
    }
  }

  /** When the first part of a write has arrived, writing only the rest again completes it. */
  lemma StoredThenRest(f: Bytes, off: nat, d: Bytes, n: nat, a: Answer, at: nat, rest: Bytes)
    requires n <= |d| && at == off + n && rest == d[n..] && forall k :: 0 <= k < n ==> a.Arrived(k)
    ensures Overlay(Stored(f, off, d, a), at, rest) == Overlay(f, off, d)
  {
    StoredWithPrefix(f, off, d, n, a);
    RestCompletes(f, off, d, n, Stored(f, off, d, a), at, rest);
  }

  /**
   * Any number of attempts to write the same bytes at the same offset, whatever the answers, followed
   * by a complete one leave the file that a single complete write leaves.
   */
  function Attempts(f: Bytes, off: nat, d: Bytes, answers: seq<Answer>): Bytes
    decreases |answers|
  {
    if answers == [] then f else Attempts(Stored(f, off, d, answers[0]), off, d, answers[1..])
  }

  lemma {:induction false} RetriesAreIdempotent(f: Bytes, off: nat, d: Bytes, answers: seq<Answer>)
    ensures Overlay(Attempts(f, off, d, answers), off, d) == Overlay(f, off, d)
    decreases |answers|
  {
    if answers != [] {
      var g := Stored(f, off, d, answers[0]);
      StoredIsPartial(f, off, d, answers[0]);
      OverlayAfterPartial(f, off, d, g);
      RetriesAreIdempotent(g, off, d, answers[1..]);
    }
  }

  /**
   * An append is sent to the current end of the file, so repeating one is harmless exactly when the
   * earlier attempt stored nothing at all.
   */
  lemma AppendRetryExact(f: Bytes, d: Bytes, a: Answer)
    ensures Stored(f, |f|, d, a) + d == f + d <==> forall k :: 0 <= k < |d| ==> !a.Arrived(k)
  {
    var g := Stored(f, |f|, d, a);
    if g + d == f + d {
      assert |g| + |d| == |f| + |d|;
    }
  }

  /** The file of one inode on the servers, with the answers they are going to give to writes and reads. */
  class Server {
    var data: Bytes
    var writeAnswers: seq<Answer>
    var readAnswers: seq<Answer>

    ghost predicate Valid() reads this {
      (forall a :: a in writeAnswers ==> a.Valid()) && (forall a :: a in readAnswers ==> a.Valid())
    }

    /** Every request from now on is carried out completely. */
    ghost predicate Reliable() reads this { WritesComplete() && ReadsComplete() }

    ghost predicate WritesComplete() reads this { forall a :: a in writeAnswers ==> a.Full? }

    ghost predicate ReadsComplete() reads this { forall a :: a in readAnswers ==> a.Full? }

    /** No write from now on is answered with "zero bytes done". */
    ghost predicate NeverZero() reads this { forall a :: a in writeAnswers ==> !a.Zero() }

    function NextWrite(): Answer reads this { Head(writeAnswers) }

    function NextRead(): Answer reads this { Head(readAnswers) }

    constructor (data: Bytes, writeAnswers: seq<Answer>, readAnswers: seq<Answer>)
      ensures this.data == data && this.writeAnswers == writeAnswers && this.readAnswers == readAnswers
    {
      this.data, this.writeAnswers, this.readAnswers := data, writeAnswers, readAnswers;
    }

    /** Write at `offset`, or at the end of the file when `offset` is -1. */
    method Write(d: Bytes, offset: int) returns (res: int)
      requires Valid() && offset >= -1
      modifies this`data, this`writeAnswers
      ensures Valid() && writeAnswers == Later(old(writeAnswers))
      ensures res == old(NextWrite()).Result(|d|)
      ensures data == Stored(old(data), if offset == -1 then |old(data)| else offset, d, old(NextWrite()))
    {
      var off := if offset == -1 then |data| else offset;
      res := NextWrite().Result(|d|);
      data := Stored(data, off, d, NextWrite());
      writeAnswers := Later(writeAnswers);
    }

    /** Read up to `n` bytes at `offset`; the result counts the bytes or is a negative error. */
    method Read(offset: nat, n: nat) returns (res: int, out: Bytes)
      requires Valid()
      modifies this`readAnswers
      ensures Valid() && readAnswers == Later(old(readAnswers))
      ensures res == old(NextRead()).Result(|ReadAt(data, offset, n)|)
      ensures out == if res < 0 then [] else ReadAt(data, offset, n)[..res]
    {
      var all := ReadAt(data, offset, n);
      res := NextRead().Result(|all|);
      out := if res < 0 then [] else all[..res];
      readAnswers := Later(readAnswers);
    }
  }

  function Head(answers: seq<Answer>): Answer { if answers == [] then Full else answers[0] }

  function Later(answers: seq<Answer>): seq<Answer> { if answers == [] then [] else answers[1..] }

  /** Answers are given in order, and requests beyond them are carried out. */
  lemma AnswersInOrder(a: Answer, answers: seq<Answer>)
    ensures Head([a] + answers) == a && Later([a] + answers) == answers && Head([]) == Full && Later([]) == []
  {
  }
}
