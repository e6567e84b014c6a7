/** Whole runs of cached operations against a plain file that has no cache. */
module CacheRuns {
  import opened FileBytes
  import opened Remote
  import opened FileCache

  /** `who` selects the open file the call is made through. */
  datatype Op =
    | Write(who: nat, at: int, data: Bytes)
    | Read(who: nat, offset: nat, size: nat, fastPath: bool, parallel: bool)
    | Flush

  /** What the caller of an operation sees: a count and, for reads, bytes. */
  datatype Outcome = Outcome(count: int, bytes: Bytes)

  predicate Valid(op: Op, files: nat) {
    match op
    case Write(who, offset, _) => who < files && offset >= -1
    case Read(who, _, _, _, _) => who < files
    case Flush => true
  }

  /** The plain file after one operation. */
  function Next(f: Bytes, op: Op, files: nat): Bytes
    requires Valid(op, files)
  {
    if op.Write? then Written(f, op.at, op.data) else f
  }

  /** What a plain file answers. */
  function Answer(f: Bytes, op: Op): Outcome {
    match op
    case Write(_, _, data) => Outcome(|data|, [])
    case Read(_, offset, size, _, _) => Outcome(|ReadAt(f, offset, size)|, ReadAt(f, offset, size))
    case Flush => Outcome(SUCCESS, [])
  }

  function Final(f: Bytes, ops: seq<Op>, files: nat): Bytes
    requires forall op :: op in ops ==> Valid(op, files)
  {
    if ops == [] then f
    else
      var last := ops[|ops| - 1];
      assert last in ops;
      Next(Final(f, ops[..|ops| - 1], files), last, files)
  }

  function Answers(f: Bytes, ops: seq<Op>, files: nat): seq<Outcome>
    requires forall op :: op in ops ==> Valid(op, files)
  {
    if ops == [] then []
    else Answers(f, ops[..|ops| - 1], files) + [Answer(Final(f, ops[..|ops| - 1], files), ops[|ops| - 1])]
  }

  /** One cached operation behaves as on the plain file. */
  method Step(c: InodeCache, infos: seq<FileInfo>, op: Op) returns (o: Outcome)
    requires c.Valid() && c.server.Reliable() && Valid(op, |infos|)
    modifies c, c.store, c.server, c.Owned(), infos
    ensures c.Valid() && c.server.Reliable() && c.Owned() == old(c.Owned())
    ensures o == Answer(old(c.Logical()), op)
    ensures c.Logical() == Next(old(c.Logical()), op, |infos|)
    ensures op.Flush? ==> c.server.data == c.Logical()
  {
    match op
    case Write(who, offset, data) =>
      var res := c.WriteCached(data, offset, infos[who], true);
      o := Outcome(res, []);
    case Read(who, offset, size, fastPath, parallel) =>
      var res, out := c.ReadCached(size, offset, infos[who], fastPath, parallel, true);
      o := Outcome(res, out);
    case Flush =>
      var res := c.FlushCacheUnlocked(false);
      o := Outcome(res, []);
  }

  /**
   * Every run of cached reads, writes, appends and flushes through any number of open files gives the
   * answers of a plain file, leaves that file behind the buffer, and loses no buffer.
   */
  method Run(c: InodeCache, infos: seq<FileInfo>, ops: seq<Op>) returns (outcomes: seq<Outcome>)
    requires c.Valid() && c.server.Reliable() && forall op :: op in ops ==> Valid(op, |infos|)
    modifies c, c.store, c.server, c.Owned(), infos
    ensures c.Valid() && c.Owned() == old(c.Owned())
    ensures outcomes == Answers(old(c.Logical()), ops, |infos|)
    ensures c.Logical() == Final(old(c.Logical()), ops, |infos|)
    ensures ops != [] && ops[|ops| - 1].Flush? ==> c.server.data == Final(old(c.Logical()), ops, |infos|)
  {
    ghost var f := c.Logical();
    outcomes := [];
    for i := 0 to |ops|
      invariant c.Valid() && c.server.Reliable() && c.Owned() == old(c.Owned())
      invariant outcomes == Answers(f, ops[..i], |infos|)
      invariant c.Logical() == Final(f, ops[..i], |infos|)
      invariant i > 0 && ops[i - 1].Flush? ==> c.server.data == c.Logical()
    {
      assert ops[..i + 1][..i] == ops[..i] && ops[..i + 1][i] == ops[i];
      var o := Step(c, infos, ops[i]);
      outcomes := outcomes + [o];
    }
    assert ops[..|ops|] == ops;
  }

  /** How a call may go wrong on this side: the user's memory faults, or a flush drops what it cannot store. */
  datatype Fault = Fault(userOk: bool, discardOnError: bool)

  /**
   * The operation does harm because of a flush that the servers answer with zero bytes: a read, or a write
   * that does not continue the buffer, builds on it; a flush that discards drops the buffer; an append buffer
   * of which some bytes arrived stays, to be appended once more.
   */
  predicate Blocked(c: InodeCache, op: Op, fault: Fault) reads c, c.server {
    match op
    case Write(_, at, data) => c.BlockedByZero(|data|, at) || (fault.userOk && c.FillsInVain(|data|, at))
    case Read(_, _, _, _, _) => c.ZeroFlush()
    case Flush =>
      c.ZeroFlush() &&
      (fault.discardOnError || (!c.Positioned() && Reach(c.server.NextWrite(), c.bufUsageLen) > 0))
  }

  /** What is attached: nothing, bytes read ahead up to `end`, or buffered writes with room up to `max` bytes. */
  datatype View = NoBuffer | Ahead(from: nat, end: nat) | Dirty(at: int, len: nat, max: nat)

  /** The read has a byte in common with what was read ahead, or is an empty one in its midst. */
  predicate Meets(from: nat, end: nat, offset: nat, size: nat) { offset < end && from < offset + size }

  ghost function Look(c: InodeCache): View
    requires c.Valid()
    reads c, c.store, c.server, c.buf
  {
    match c.bufType
    case NONE => NoBuffer
    case READ => Ahead(c.fileOffset, c.fileOffset + c.bufUsageLen)
    case WRITE => Dirty(c.fileOffset, c.bufUsageLen, c.bufUsageMaxLen)
  }

  /**
   * The count a read of `size` bytes at `offset` is told. `w` answers the flush of buffered writes, `a` and `b`
   * the reads that follow, and `f` is the servers' file then.
   */
  ghost predicate ReadTold(v: View, w: Answer, a: Answer, b: Answer, f: Bytes, offset: nat, size: nat, userOk: bool, count: int) {
    match v
    case NoBuffer => Told(a, |ReadAt(f, offset, size)|, userOk, count)
    case Dirty(_, len, _) =>
      if FlushCode(w, len) != SUCCESS then count == -FlushCode(w, len)
      else Told(a, |ReadAt(f, offset, size)|, userOk, count)
    case Ahead(from, end) =>
      if !Meets(from, end, offset, size) then Told(a, |ReadAt(f, offset, size)|, userOk, count)
      else if offset < from then count == AcrossCount(|f|, from - offset, end, size, offset, a, b, userOk)
      else count == TailCount(|f|, end, size, offset, a, userOk)
  }

  /** The logical file at some point, what is attached, and the answers the servers are going to give next. */
  datatype Snapshot = Snapshot(file: Bytes, view: View, write: Answer, laterWrite: Answer, read: Answer, laterRead: Answer)
  {
    /** No append is pending. */
    predicate Positioned() { view.Dirty? ==> view.at >= 0 }

    predicate Valid() { write.Valid() && laterWrite.Valid() && read.Valid() && laterRead.Valid() }
  }

  ghost function Now(c: InodeCache): Snapshot
    requires c.Valid()
    reads c, c.store, c.server, c.buf
  {
    Snapshot(c.Logical(), Look(c), c.server.NextWrite(), Head(Later(c.server.writeAnswers)),
             c.server.NextRead(), Head(Later(c.server.readAnswers)))
  }

  lemma NowIsValid(c: InodeCache)
    requires c.Valid()
    ensures Now(c).Valid()
  {
    HeadsAreValid(c.server.writeAnswers);
    HeadsAreValid(c.server.readAnswers);
  }

  lemma HeadsAreValid(answers: seq<Remote.Answer>)
    requires forall a :: a in answers ==> a.Valid()
    ensures Head(answers).Valid() && Head(Later(answers)).Valid()
  {
    assert answers != [] ==> answers[0] in answers;
    assert |answers| > 1 ==> answers[1] in answers;
  }

  /** The count a write of `size` bytes may be told: of a full buffer's flush, of a flush in its way, or its own. */
  ghost predicate WriteTold(x: Snapshot, at: int, size: nat, userOk: bool, count: int) {
    match x.view
    case Dirty(from, len, max) =>
      if at == (if from == -1 then -1 else from + len) && len + size <= max then
        if !userOk then count == -ADDRESSFAULT
        else if len + size < max || FlushCode(x.write, max) == SUCCESS then count == size
        else count == -FlushCode(x.write, max)
      else if FlushCode(x.write, len) != SUCCESS then count == -FlushCode(x.write, len)
      else FreshCount(size, x.laterWrite, true, userOk, count)
    case _ => FreshCount(size, x.write, true, userOk, count)
  }

  /**
   * What an operation may answer, and which file it may leave behind, when servers and user memory can fail.
   * While no buffered append is pending, a write changes at most its own range, a read changes nothing, and a
   * flush changes nothing unless it is to discard and fails.
   */
  ghost predicate Plausible(x: Snapshot, op: Op, fault: Fault, o: Outcome, next: Bytes) {
    match op
    case Write(_, at, data) =>
      && at >= -1 && o.count <= |data| && (o.count == |data| ==> next == Written(x.file, at, data))
      && Holds(next, StartOf(x.file, at), data, o.count) && WriteTold(x, at, |data|, fault.userOk, o.count)
      && (x.Positioned() ==> PartiallyWritten(x.file, StartOf(x.file, at), data, next))
    case Read(_, offset, size, _, _) =>
      && ReadResult(x.file, offset, size, o.count, o.bytes)
      && ReadTold(x.view, x.write, x.read, x.laterRead, x.file, offset, size, fault.userOk, o.count)
      && (x.Positioned() || o.count >= 0 ==> next == x.file)
    case Flush =>
      && o.count == (if x.view.Dirty? then FlushCode(x.write, x.view.len) else SUCCESS)
      && (o.count == SUCCESS || (x.Positioned() && !fault.discardOnError) ==> next == x.file)
  }

  ghost predicate StepFits(x: Snapshot, op: Op, fault: Fault, o: Outcome, y: Snapshot) {
    && x.Valid() && Plausible(x, op, fault, o, y.file)
    && (x.Positioned() && (op.Write? ==> op.at >= 0) ==> y.Positioned())
  }

  /** The servers report an error to a read: to the flush before it, or to one of the requests it makes. */
  predicate ReadFails(x: Snapshot, offset: nat, size: nat) {
    match x.view
    case Ahead(from, end) =>
      if !Meets(from, end, offset, size) then x.read.Fail?
      else if offset < from then
        x.read.Fail? || (x.read.Result(from - offset) == from - offset && end < offset + size && x.laterRead.Fail?)
      else end < offset + size && x.read.Fail?
    case Dirty(_, len, _) => x.write.Fail? || (0 < x.write.Result(len) < len) || x.read.Fail?
    case NoBuffer => x.read.Fail?
  }

  /** A read reports an error exactly when the servers do; never is an error taken for the end of the file. */
  lemma ReadErrorsExactly(x: Snapshot, op: Op, fault: Fault, o: Outcome, y: Snapshot)
    requires StepFits(x, op, fault, o, y) && op.Read? && fault.userOk
    ensures o.count < 0 <==> ReadFails(x, op.offset, op.size)
  {
  }

  /** Fewer bytes than the file has are only ever told when a server answered short. */
  lemma ShortReadsExactly(x: Snapshot, op: Op, fault: Fault, o: Outcome, y: Snapshot)
    requires StepFits(x, op, fault, o, y) && op.Read? && fault.userOk && !x.read.Short? && !x.laterRead.Short?
    requires x.view.Ahead? ==> x.view.end <= |x.file|
    requires !ReadFails(x, op.offset, op.size)
    ensures o.count == |ReadAt(x.file, op.offset, op.size)|
  {
  }

  /** A write whose way the servers fail to clear reports their error, not a count. */
  lemma WriteErrorsAreTold(x: Snapshot, op: Op, fault: Fault, o: Outcome, y: Snapshot)
    requires StepFits(x, op, fault, o, y) && op.Write? && x.view.Dirty? && x.write.Fail?
    requires op.at != (if x.view.at == -1 then -1 else x.view.at + x.view.len) || x.view.len + |op.data| > x.view.max
    ensures o.count == 0 - x.write.code < 0
  {
  }

  /** Whatever a write counts can be read back. */
  lemma CountedIsReadBack(x: Snapshot, op: Op, fault: Fault, o: Outcome, y: Snapshot)
    requires StepFits(x, op, fault, o, y) && op.Write? && o.count >= 0
    ensures ReadAt(y.file, StartOf(x.file, op.at), o.count) == op.data[..o.count]
  {
  }

  /** What was seen of the first operations of a run, point by point. */
  ghost predicate Fits(ops: seq<Op>, faults: seq<Fault>, outcomes: seq<Outcome>, points: seq<Snapshot>) {
    && |outcomes| <= |ops| == |faults| && |points| == |outcomes| + 1
    && forall i :: 0 <= i < |outcomes| ==> StepFits(points[i], ops[i], faults[i], outcomes[i], points[i + 1])
  }

  lemma FitsNext(ops: seq<Op>, faults: seq<Fault>, outcomes: seq<Outcome>, points: seq<Snapshot>, o: Outcome, y: Snapshot)
    requires Fits(ops, faults, outcomes, points) && |outcomes| < |ops|
    requires StepFits(points[|outcomes|], ops[|outcomes|], faults[|outcomes|], o, y)
    ensures Fits(ops, faults, outcomes + [o], points + [y])
  {
  }

  /** Without appends no append is ever pending, so every step is held to its strict form. */
  lemma {:induction false} StaysPositioned(ops: seq<Op>, faults: seq<Fault>, outcomes: seq<Outcome>, points: seq<Snapshot>, i: nat)
    requires Fits(ops, faults, outcomes, points) && points[0].Positioned() && i < |points|
    requires forall op :: op in ops && op.Write? ==> op.at >= 0
    ensures points[i].Positioned()
  {
    if i > 0 {
      StaysPositioned(ops, faults, outcomes, points, i - 1);
      assert StepFits(points[i - 1], ops[i - 1], faults[i - 1], outcomes[i - 1], points[i]);
    }
  }

  method FaultyWrite(c: InodeCache, info: FileInfo, op: Op, fault: Fault) returns (res: int)
    requires c.Valid() && op.Write? && op.at >= -1 && !Blocked(c, op, fault)
    modifies c, c.store, c.server, c.Owned(), info
    ensures c.Valid() && c.Owned() == old(c.Owned())
    ensures old(c.server.NeverZero()) ==> c.server.NeverZero()
    ensures StepFits(old(Now(c)), op, fault, Outcome(res, []), Now(c))
  {
    NowIsValid(c);
    res := c.WriteCached(op.data, op.at, info, fault.userOk);
  }

  /** A read that has to flush buffered writes first. */
  method ReadPastWrites(c: InodeCache, info: FileInfo, op: Op, fault: Fault) returns (res: int, out: Bytes)
    requires c.Valid() && op.Read? && !c.ZeroFlush() && c.bufType == WRITE
    modifies c, c.store, c.server, c.Owned(), info
    ensures c.Valid() && c.Owned() == old(c.Owned())
    ensures old(c.server.NeverZero()) ==> c.server.NeverZero()
    ensures StepFits(old(Now(c)), op, fault, Outcome(res, out), Now(c))
  {
    NowIsValid(c);
    res, out := c.ReadCached(op.size, op.offset, info, op.fastPath, op.parallel, fault.userOk);
  }

  /** A read that starts inside what was read ahead. */
  method ReadInsideAhead(c: InodeCache, info: FileInfo, op: Op, fault: Fault) returns (res: int, out: Bytes)
    requires c.Valid() && op.Read? && c.bufType == READ && c.Overlaps(op.size, op.offset) && c.fileOffset <= op.offset
    modifies c, c.store, c.server, c.Owned(), info
    ensures c.Valid() && c.Owned() == old(c.Owned())
    ensures old(c.server.NeverZero()) ==> c.server.NeverZero()
    ensures StepFits(old(Now(c)), op, fault, Outcome(res, out), Now(c))
  {
    NowIsValid(c);
    res, out := c.ReadCached(op.size, op.offset, info, op.fastPath, op.parallel, fault.userOk);
    assert c.server.data == old(c.Logical());
  }

  /** A read that starts before what was read ahead and reaches into it. */
  method ReadIntoAhead(c: InodeCache, info: FileInfo, op: Op, fault: Fault) returns (res: int, out: Bytes)
    requires c.Valid() && op.Read? && c.bufType == READ && c.Overlaps(op.size, op.offset) && op.offset < c.fileOffset
    modifies c, c.store, c.server, c.Owned(), info
    ensures c.Valid() && c.Owned() == old(c.Owned())
    ensures old(c.server.NeverZero()) ==> c.server.NeverZero()
    ensures StepFits(old(Now(c)), op, fault, Outcome(res, out), Now(c))
  {
    NowIsValid(c);
    res, out := c.ReadCached(op.size, op.offset, info, op.fastPath, op.parallel, fault.userOk);
    assert c.server.data == old(c.Logical());
  }

  /** A read that asks the servers alone. */
  method ReadAnew(c: InodeCache, info: FileInfo, op: Op, fault: Fault) returns (res: int, out: Bytes)
    requires c.Valid() && op.Read? && (c.bufType == READ ==> !c.Overlaps(op.size, op.offset)) && c.bufType != WRITE
    modifies c, c.store, c.server, c.Owned(), info
    ensures c.Valid() && c.Owned() == old(c.Owned())
    ensures old(c.server.NeverZero()) ==> c.server.NeverZero()
    ensures StepFits(old(Now(c)), op, fault, Outcome(res, out), Now(c))
  {
    NowIsValid(c);
    res, out := c.ReadCached(op.size, op.offset, info, op.fastPath, op.parallel, fault.userOk);
    assert c.server.data == old(c.Logical());
  }

  method FaultyRead(c: InodeCache, info: FileInfo, op: Op, fault: Fault) returns (res: int, out: Bytes)
    requires c.Valid() && op.Read? && !Blocked(c, op, fault)
    modifies c, c.store, c.server, c.Owned(), info
    ensures c.Valid() && c.Owned() == old(c.Owned())
    ensures old(c.server.NeverZero()) ==> c.server.NeverZero()
    ensures StepFits(old(Now(c)), op, fault, Outcome(res, out), Now(c))
  {
    if c.bufType == WRITE {
      res, out := ReadPastWrites(c, info, op, fault);
    } else if c.bufType == NONE || !c.Overlaps(op.size, op.offset) {
      res, out := ReadAnew(c, info, op, fault);
    } else if op.offset < c.fileOffset {
      res, out := ReadIntoAhead(c, info, op, fault);
    } else {
      res, out := ReadInsideAhead(c, info, op, fault);
    }
  }

  method FaultyFlush(c: InodeCache, op: Op, fault: Fault) returns (res: int)
    requires c.Valid() && op.Flush? && !Blocked(c, op, fault)
    modifies c, c.store, c.server
    ensures c.Valid() && c.Owned() == old(c.Owned())
    ensures old(c.server.NeverZero()) ==> c.server.NeverZero()
    ensures StepFits(old(Now(c)), op, fault, Outcome(res, []), Now(c))
    ensures res == SUCCESS && !old(c.ZeroFlush()) ==> c.server.data == old(c.Logical())
  {
    NowIsValid(c);
    res := c.FlushCacheUnlocked(fault.discardOnError);
  }

  method FaultyStep(c: InodeCache, infos: seq<FileInfo>, op: Op, fault: Fault) returns (o: Outcome)
    requires c.Valid() && Valid(op, |infos|) && !Blocked(c, op, fault)
    modifies c, c.store, c.server, c.Owned(), infos
    ensures c.Valid() && c.Owned() == old(c.Owned())
    ensures old(c.server.NeverZero()) ==> c.server.NeverZero()
    ensures StepFits(old(Now(c)), op, fault, o, Now(c))
    ensures op.Flush? && o.count == SUCCESS && !old(c.ZeroFlush()) ==> c.server.data == old(c.Logical())
  {
    match op
    case Write(who, _, _) =>
      var res := FaultyWrite(c, infos[who], op, fault);
      o := Outcome(res, []);
    case Read(who, _, _, _, _) =>
      var res, out := FaultyRead(c, infos[who], op, fault);
      o := Outcome(res, out);
    case Flush =>
      var res := FaultyFlush(c, op, fault);
      o := Outcome(res, []);
  }

  /**
   * Whatever fails, up to the first operation that does harm because of a zero answer: every state keeps
   * the buffer within its bounds and all buffers owned, no reported success is untrue, no read is wrong, and
   * while no append is pending nothing but the range of a failed write can change.
   */
  method RunUnderFaults(c: InodeCache, infos: seq<FileInfo>, ops: seq<Op>, faults: seq<Fault>)
    returns (outcomes: seq<Outcome>, ghost points: seq<Snapshot>)
    requires c.Valid() && (forall op :: op in ops ==> Valid(op, |infos|)) && |faults| == |ops|
    modifies c, c.store, c.server, c.Owned(), infos
    ensures c.Valid() && c.Owned() == old(c.Owned())
    ensures Fits(ops, faults, outcomes, points)
    ensures points[0] == old(Now(c)) && points[|outcomes|] == Now(c)
    ensures |outcomes| < |ops| ==> Blocked(c, ops[|outcomes|], faults[|outcomes|])
    ensures old(c.server.NeverZero()) ==> |outcomes| == |ops|
    ensures old(c.Positioned()) && (forall op :: op in ops && op.Write? ==> op.at >= 0) ==>
              forall i :: 0 <= i < |points| ==> points[i].Positioned()
  {
    outcomes, points := [], [Now(c)];
    while |outcomes| < |ops| && !Blocked(c, ops[|outcomes|], faults[|outcomes|])
      invariant c.Valid() && c.Owned() == old(c.Owned())
      invariant old(c.server.NeverZero()) ==> c.server.NeverZero()
      invariant Fits(ops, faults, outcomes, points)
      invariant points[0] == old(Now(c)) && points[|outcomes|] == Now(c)
      decreases |ops| - |outcomes|
    {
      var i := |outcomes|;
      var o := FaultyStep(c, infos, ops[i], faults[i]);
      FitsNext(ops, faults, outcomes, points, o, Now(c));
      outcomes, points := outcomes + [o], points + [Now(c)];
    }
    assert c.server.writeAnswers != [] ==> c.server.NextWrite() in c.server.writeAnswers;
    if old(c.Positioned()) && (forall op :: op in ops && op.Write? ==> op.at >= 0) {
      forall i | 0 <= i < |points| ensures points[i].Positioned() {
        StaysPositioned(ops, faults, outcomes, points, i);
      }
    }
  }

  /**
   * Flush a positioned write buffer again and again, as long as it is attached. However the attempts end,
   * users see the same file; the servers hold what the attempts left of it, and all of it once the buffer
   * is gone.
   */
  method RetryFlush(c: InodeCache, tries: nat, ghost off: nat, ghost d: Bytes) returns (ghost taken: seq<Answer>)
    requires c.Valid() && c.Keeps(c.buf, off, d)
    modifies c, c.store, c.server
    ensures c.Valid() && c.Owned() == old(c.Owned()) && |taken| <= tries
    ensures c.Logical() == old(c.Logical())
    ensures c.server.data == Attempts(old(c.server.data), off, d, taken)
    ensures Overlay(c.server.data, off, d) == Overlay(old(c.server.data), off, d)
    ensures c.bufType == NONE ==> c.server.data == Overlay(old(c.server.data), off, d)
    ensures c.bufType == NONE || |taken| == tries
  {
    if tries == 0 {
      return [];
    }
    ghost var f := c.server.data;
    ghost var a := c.server.NextWrite();
    var _ := FlushOnce(c, c.buf, off, d);
    if c.bufType == NONE {
      taken := [a];
    } else {
      taken := RetryFlush(c, tries - 1, off, d);
      taken := [a] + taken;
    }
    assert taken[0] == a;
    RetriesAreIdempotent(f, off, d, taken);
  }

  method FlushOnce(c: InodeCache, ghost b: array?<Byte>, ghost off: nat, ghost d: Bytes) returns (err: int)
    requires c.Valid() && c.Keeps(b, off, d)
    modifies c, c.store, c.server
    ensures c.Valid() && c.Owned() == old(c.Owned()) && c.Logical() == old(c.Logical())
    ensures c.server.data == Stored(old(c.server.data), off, d, old(c.server.NextWrite()))
    ensures c.bufType == NONE || c.Keeps(b, off, d)
  {
    err := c.FlushCacheUnlocked(false);
  }

  /**
   * A read that builds on a flush answered with zero bytes reports success and is right exactly when every
   * position it covers is in the servers' file already and holds the buffered byte, if there is one.
   */
  method ReadAfterZeroFlush(c: InodeCache, info: FileInfo, size: nat, offset: nat, fastPath: bool, parallel: bool)
    returns (res: int, out: Bytes)
    requires c.Valid() && c.ZeroFlush() && c.Positioned() && c.server.ReadsComplete()
    modifies c, c.store, c.server, c.Owned(), info`cacheHits
    ensures res == |out|
    ensures out == ReadAt(old(c.Logical()), offset, size) <==>
            forall i: nat :: offset <= i < Min(offset + size, old(|c.Logical()|)) ==>
                               Unaffected(old(c.Flushed()), old(c.fileOffset), old(c.buf[..c.bufUsageLen]), i)
  {
    ghost var off, d := c.fileOffset, c.buf[..c.bufUsageLen];
    ghost var f, g := c.server.data, c.Flushed();
    StoredIsPartial(f, off, d, c.server.NextWrite());
    OverlayAfterPartial(f, off, d, g);
    MissedWriteExact(g, off, d, offset, size);
    res, out := c.ReadCached(size, offset, info, fastPath, parallel, true);
  }

  /**
   * A write that builds on a flush answered with zero bytes, with the exact condition for the file to be right
   * when it reports success. Into a new buffer: the write makes up for the buffered bytes that the servers
   * lack. To the servers, below the old buffer: it agrees with the buffered bytes wherever it meets them.
   * With no buffer free for a write that wants one, there is no logical file any more.
   */
  method WriteAfterZeroFlush(c: InodeCache, info: FileInfo, data: Bytes, offset: nat) returns (res: int)
    requires c.Valid() && c.ZeroFlush()
    modifies c, c.store, c.server, c.Owned(), info`cacheHits
    ensures c.MayCacheWrite(|data|, offset, info) && old(c.store.free) != [] ==>
              && res == |data| && c.Valid()
              && (c.Logical() == Written(old(c.Logical()), offset, data) <==>
                  MakesUpFor(old(c.Flushed()), old(StartOf(c.server.data, c.fileOffset)), old(c.buf[..c.bufUsageLen]), offset, data))
    ensures !c.MayCacheWrite(|data|, offset, info) && res == |data| && old(c.Positioned()) ==>
              && c.Valid()
              && (c.Logical() == Written(old(c.Logical()), offset, data) <==>
                  forall i: nat :: AgreeAt(old(c.fileOffset), old(c.buf[..c.bufUsageLen]), offset, data, i))
    ensures c.MayCacheWrite(|data|, offset, info) && old(c.store.free) == [] ==> c.buf == null && c.bufType == WRITE
  {
    ghost var off, d := StartOf(c.server.data, c.fileOffset), c.buf[..c.bufUsageLen];
    ghost var f, g := c.server.data, c.Flushed();
    StoredIsPartial(f, off, d, c.server.NextWrite());
    OverlayAfterPartial(f, off, d, g);
    OverlayAtEnd(f, d);
    LostWriteExact(g, off, d, offset, data);
    ExchangeExact(g, off, d, offset, data);
    res := c.FlushAndWrite(data, offset, info, true);
  }

  /** A client whose only buffer holds one byte of a file that is empty on the servers. */
  method BufferedByte(answers: seq<Answer>) returns (c: InodeCache, info: FileInfo)
    requires forall a :: a in answers ==> a.Valid()
    ensures fresh(c) && fresh(c.store) && fresh(c.server) && fresh(c.Owned()) && fresh(info)
    ensures c.Valid() && c.bufType == WRITE && c.Logical() == [7] && c.server.data == []
    ensures c.bufUsageLen == 1 && c.fileOffset == 0 && c.buf[..1] == [7]
    ensures c.server.writeAnswers == answers && c.server.readAnswers == []
  {
    var store := new BufferStore(SLOWSTART_READLEN);
    var buffer := new Byte[SLOWSTART_READLEN];
    store.AddBuf(buffer);
    var server := new Server([], answers, []);
    c := new InodeCache(store, server, SLOWSTART_READLEN);
    info := new FileInfo(3, true, 0, 0);
    var res := c.StartWriteBuffer([7], 0, SLOWSTART_READLEN, true);
    assert c.Logical() == Overlay([], 0, [7]) == [7];
  }

  /**
   * A read that is wrong because of a zero answer: one byte is buffered, its flush is answered with zero
   * bytes, and the read reports success and finds the file empty.
   */
  method ZeroAnswerMisreads() returns (ghost before: Bytes, res: int, out: Bytes)
    ensures before == [7] && res == 0 && out == [] != ReadAt(before, 0, 1)
  {
    var c, info := BufferedByte([Short(0, {})]);
    before := c.Logical();
    res, out := c.ReadCached(1, 0, info, false, false, true);
  }

  /** A newer byte goes to the servers directly, while the older one is still buffered. */
  method WrittenBelowBuffer() returns (c: InodeCache, written: int)
    ensures fresh(c) && fresh(c.store) && fresh(c.server) && fresh(c.Owned()) && c.Valid() && c.bufType == WRITE
    ensures written == 1 && c.server.data == [9] && c.Logical() == [7] && c.server.writeAnswers == []
  {
    var info;
    c, info := BufferedByte([Short(0, {})]);
    info.allowCaching := false;
    assert c.Flushed() == [];
    written := c.FlushAndWrite([9], 0, info, true);
    assert c.server.data == Overlay([], 0, [9]) == [9];
    assert c.Logical() == Overlay([9], 0, [7]) == [7];
  }

  /**
   * A write that is undone because of a zero answer: one byte is buffered, its flush is answered with zero
   * bytes, and a newer write of the same byte goes to the servers directly. Users still see the older byte,
   * and the next flush stores it over the newer one.
   */
  method ZeroAnswerUndoesWrite() returns (c: InodeCache, written: int, flushed: int)
    ensures fresh(c) && written == 1 && flushed == SUCCESS && c.server.data == [7]
  {
    c, written := WrittenBelowBuffer();
    flushed := c.FlushCacheUnlocked(false);
  }
}
