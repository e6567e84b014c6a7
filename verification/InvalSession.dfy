/**
 * Remote cache invalidation. A reader thread per metadata server keeps a session with it; an inode is
 * stamped with the session number under which its attributes were fetched and counts as valid only
 * while that very session lasts. Odd numbers are live sessions, even numbers are none.
 *
 * Ending a session takes two steps of the thread that does it: it finds `sessionValid` set, and it bumps the
 * counter and clears the flag. `StopReader` and `RequestFailed` do both at once; `SeenValid` and `LateBump`
 * are the two apart, with anything in between. Drawing a number and setting `sessionValid` is one step.
 */
module InvalSession {

  type Meta = nat
  type Group = nat
  type InodeId = nat

  datatype Request = Idle | InFlight(resync: bool)

  /** A reader thread's entry. `pending` counts bumps decided but not yet done. */
  datatype Reader = Reader(sessionCnt: nat, sessionValid: bool, request: Request, stopping: bool, pending: nat)

  datatype Owner = Node(meta: Meta) | Mirrored(group: Group)

  datatype Inode = Inode(owner: Owner, metadataValid: bool, localSessionCnt: nat)

  /** `ended` remembers every session number that was live once and is no longer. */
  datatype State = State(
    globalSessionCnt: nat,
    readers: map<Meta, Reader>,
    primaries: map<Group, Meta>,
    inodes: map<InodeId, Inode>,
    ended: set<nat>)
  {
    /** The server whose session covers an inode: 0 if its mirror group is unknown. */
    function SessionMeta(owner: Owner): Meta {
      match owner
      case Node(m) => m
      case Mirrored(g) => if g in primaries then primaries[g] else 0
    }

    function SessionCnt(m: Meta): nat { if m in readers then readers[m].sessionCnt else 0 }

    predicate IsCacheValid(i: InodeId) {
      && i in inodes && inodes[i].metadataValid
      && var curr := SessionCnt(SessionMeta(inodes[i].owner));
         curr % 2 == 1 && inodes[i].localSessionCnt % 2 == 1 && curr == inodes[i].localSessionCnt
    }

    function WithReader(m: Meta, r: Reader): State { this.(readers := readers[m := r]) }

    /** End the session of reader `m`, if it has one: an odd counter becomes even. */
    function Bump(m: Meta): State
      requires m in readers
    {
      var r := readers[m];
      var bumped := if r.sessionValid then r.(sessionCnt := r.sessionCnt + 1) else r;
      WithReader(m, bumped.(sessionValid := false)).(ended := if r.sessionValid then ended + {r.sessionCnt} else ended)
    }
  }

  function Init(): State { State(0, map[], map[], map[], {}) }

  datatype Step =
    | StartReader(m: Meta)
    | StopReader(m: Meta)
    | SendRequest(m: Meta)
    | RequestFailed(m: Meta, invalidate: bool)
    | RequestDone(m: Meta)
    | ReaderExit(m: Meta)
    | Failover(g: Group, m: Meta)
    | NewInode(i: InodeId, owner: Owner)
    | SetOwner(i: InodeId, owner: Owner)
    | Stamp(i: InodeId, setValid: bool)
    | Invalidate(i: InodeId)
    | SeenValid(m: Meta)  // some thread found sessionValid set and is going to bump
    | LateBump(m: Meta)   // ... and does so now

  predicate Enabled(s: State, step: Step) {
    match step
    case StartReader(m) => m !in s.readers
    case StopReader(m) => m in s.readers
    case SendRequest(m) => m in s.readers && s.readers[m].request.Idle? && !s.readers[m].stopping
    case RequestFailed(m, _) => m in s.readers && s.readers[m].request.InFlight?
    case RequestDone(m) => m in s.readers && s.readers[m].request.InFlight?
    case ReaderExit(m) => m in s.readers && s.readers[m].request.Idle?
    case Failover(_, _) => true
    case NewInode(_, _) => true
    case SetOwner(i, _) => i in s.inodes
    case Stamp(i, _) => i in s.inodes
    case Invalidate(i) => i in s.inodes
    case SeenValid(m) => m in s.readers && s.readers[m].sessionValid
    case LateBump(m) => m in s.readers && s.readers[m].pending > 0
  }

  function Next(s: State, step: Step): State
    requires Enabled(s, step)
  {
    match step
    case StartReader(m) => s.WithReader(m, Reader(0, false, Idle, false, 0))
    case StopReader(m) => var t := s.Bump(m); t.WithReader(m, t.readers[m].(stopping := true))
    case SendRequest(m) => s.WithReader(m, s.readers[m].(request := InFlight(!s.readers[m].sessionValid)))
    case RequestFailed(m, invalidate) =>
      var t := if invalidate then s.Bump(m) else s;
      t.WithReader(m, t.readers[m].(request := Idle))
    case RequestDone(m) =>
      var r := s.readers[m];
      if r.request.resync then
        s.WithReader(m, r.(sessionCnt := s.globalSessionCnt + 1, sessionValid := true, request := Idle))
         .(globalSessionCnt := s.globalSessionCnt + 2)
      else s.WithReader(m, r.(request := Idle))
    case ReaderExit(m) =>
      var r := s.readers[m];
      s.(readers := s.readers - {m}, ended := if r.sessionValid then s.ended + {r.sessionCnt} else s.ended)
    case Failover(g, m) => s.(primaries := s.primaries[g := m])
    case NewInode(i, owner) => s.(inodes := s.inodes[i := Inode(owner, false, 0)])
    case SetOwner(i, owner) => s.(inodes := s.inodes[i := s.inodes[i].(owner := owner)])
    case Stamp(i, setValid) =>
      var ino := s.inodes[i];
      s.(inodes := s.inodes[i := ino.(localSessionCnt := s.SessionCnt(s.SessionMeta(ino.owner)),
                                      metadataValid := ino.metadataValid || setValid)])
    case Invalidate(i) => s.(inodes := s.inodes[i := s.inodes[i].(metadataValid := false)])
    case SeenValid(m) => s.WithReader(m, s.readers[m].(pending := s.readers[m].pending + 1))
    case LateBump(m) =>
      var r := s.readers[m];
      s.WithReader(m, r.(sessionCnt := r.sessionCnt + 1, sessionValid := false, pending := r.pending - 1))
       .(ended := if r.sessionValid then s.ended + {r.sessionCnt} else s.ended)
  }

  /** A reader's counter is odd exactly while its session is valid, and was drawn from the global source. */
  predicate ReaderOk(s: State, m: Meta)
    requires m in s.readers
  {
    var r := s.readers[m];
    && (r.sessionValid <==> r.sessionCnt % 2 == 1)
    && r.sessionCnt <= s.globalSessionCnt
    && (r.sessionValid ==> r.sessionCnt !in s.ended)
    && (r.request == InFlight(true) ==> !r.sessionValid)
  }

  /** No two readers have the same live session. */
  predicate Distinct(s: State, m: Meta, n: Meta)
    requires m in s.readers && n in s.readers
  {
    m != n && s.readers[m].sessionValid && s.readers[n].sessionValid ==> s.readers[m].sessionCnt != s.readers[n].sessionCnt
  }

  ghost predicate Inv(s: State) {
    && s.globalSessionCnt % 2 == 0
    && (forall n :: n in s.ended ==> n < s.globalSessionCnt)
    && (forall m :: m in s.readers ==> ReaderOk(s, m))
    && (forall m, n :: m in s.readers && n in s.readers ==> Distinct(s, m, n))
  }

  /**
   * Replacing one reader's entry keeps the invariant when a live number of it was its own before or is
   * fresh, and when only its own former number is added to the ended ones.
   */
  lemma PutReader(s: State, t: State, m: Meta)
    requires Inv(s) && m in t.readers && t.readers == s.readers[m := t.readers[m]]
    requires s.globalSessionCnt <= t.globalSessionCnt && t.globalSessionCnt % 2 == 0
    requires s.ended <= t.ended && ReaderOk(t, m)
    requires t.ended == s.ended || (m in s.readers && s.readers[m].sessionValid && t.ended == s.ended + {s.readers[m].sessionCnt})
    requires t.readers[m].sessionValid ==>
               || t.readers[m].sessionCnt > s.globalSessionCnt
               || (m in s.readers && s.readers[m].sessionValid && s.readers[m].sessionCnt == t.readers[m].sessionCnt)
    ensures Inv(t)
  {
    assert m in s.readers ==> ReaderOk(s, m);
    forall k | k in t.readers
      ensures ReaderOk(t, k)
    {
      assert k != m ==> ReaderOk(s, k) && (m in s.readers ==> Distinct(s, m, k));
    }
    forall k, n | k in t.readers && n in t.readers
      ensures Distinct(t, k, n)
    {
      assert k != m ==> ReaderOk(s, k) && (m in s.readers ==> Distinct(s, m, k));
      assert n != m ==> ReaderOk(s, n) && (m in s.readers ==> Distinct(s, m, n));
      assert k != m && n != m ==> Distinct(s, k, n);
    }
  }

  /** The bump of a session happens while it is still the session that was found valid. */
  predicate InTime(s: State, step: Step)
    requires Enabled(s, step)
  {
    step.LateBump? ==> s.readers[step.m].sessionValid
  }

  /** Removing a reader's entry ends its session, if it has one, for good. */
  lemma ExitKeepsInv(s: State, m: Meta)
    requires Inv(s) && Enabled(s, ReaderExit(m))
    ensures Inv(Next(s, ReaderExit(m)))
    ensures s.readers[m].sessionValid ==> s.readers[m].sessionCnt in Next(s, ReaderExit(m)).ended
  {
    var t := Next(s, ReaderExit(m));
    assert ReaderOk(s, m);
    forall k | k in t.readers
      ensures ReaderOk(t, k)
    {
      assert ReaderOk(s, k) && Distinct(s, m, k);
    }
    forall k, n | k in t.readers && n in t.readers
      ensures Distinct(t, k, n)
    {
      assert Distinct(s, k, n);
    }
  }

  /** Nothing but the readers, the global source and the ended sessions matters to the invariant. */
  lemma SameReaders(s: State, t: State)
    requires Inv(s) && t.readers == s.readers && t.globalSessionCnt == s.globalSessionCnt && t.ended == s.ended
    ensures Inv(t)
  {
    assert forall m :: m in t.readers ==> ReaderOk(s, m);
    assert forall m, n :: m in t.readers && n in t.readers ==> Distinct(s, m, n);
  }

  /** The number drawn after a resync is odd, and neither an ended nor any reader's session has it. */
  lemma RequestDoneKeepsInv(s: State, m: Meta)
    requires Inv(s) && Enabled(s, RequestDone(m))
    ensures Inv(Next(s, RequestDone(m)))
    ensures s.readers[m].request.resync ==>
              var n := Next(s, RequestDone(m)).readers[m].sessionCnt;
              && Next(s, RequestDone(m)).readers[m].sessionValid && n % 2 == 1
              && n !in s.ended && forall k :: k in s.readers ==> s.readers[k].sessionCnt != n
  {
    assert ReaderOk(s, m);
    PutReader(s, Next(s, RequestDone(m)), m);
  }

  /** A stopped reader has an even counter, and the session it had is ended. */
  lemma StopReaderKeepsInv(s: State, m: Meta)
    requires Inv(s) && Enabled(s, StopReader(m))
    ensures Inv(Next(s, StopReader(m)))
    ensures Next(s, StopReader(m)).readers[m].sessionCnt % 2 == 0
    ensures s.readers[m].sessionCnt % 2 == 1 ==> s.readers[m].sessionCnt in Next(s, StopReader(m)).ended
  {
    assert ReaderOk(s, m);
    PutReader(s, Next(s, StopReader(m)), m);
  }

  /** A failed request that invalidates ends the live session and no other; a second one changes nothing more. */
  lemma RequestFailedKeepsInv(s: State, m: Meta, invalidate: bool)
    requires Inv(s) && Enabled(s, RequestFailed(m, invalidate))
    ensures Inv(Next(s, RequestFailed(m, invalidate)))
    ensures var t := Next(s, RequestFailed(m, invalidate));
            && t.ended == (if invalidate && s.readers[m].sessionCnt % 2 == 1 then s.ended + {s.readers[m].sessionCnt} else s.ended)
            && (invalidate ==> t.readers[m].sessionCnt % 2 == 0)
            && (invalidate && s.readers[m].sessionCnt % 2 == 0 ==> t.readers[m].sessionCnt == s.readers[m].sessionCnt)
  {
    assert ReaderOk(s, m);
    PutReader(s, Next(s, RequestFailed(m, invalidate)), m);
  }

  /** The bump taken apart keeps the invariant exactly when the session found valid still is. */
  lemma LateBumpKeepsInv(s: State, m: Meta)
    requires Inv(s) && Enabled(s, LateBump(m))
    ensures Inv(Next(s, LateBump(m))) <==> s.readers[m].sessionValid
  {
    var t := Next(s, LateBump(m));
    assert ReaderOk(s, m);
    if s.readers[m].sessionValid {
      PutReader(s, t, m);
    } else {
      assert !ReaderOk(t, m);
    }
  }

  /** Every step keeps the invariant exactly when it is not a bump that comes too late. */
  lemma StepKeepsInv(s: State, step: Step)
    requires Inv(s) && Enabled(s, step)
    ensures Inv(Next(s, step)) <==> InTime(s, step)
    ensures s.ended <= Next(s, step).ended
  {
    var t := Next(s, step);
    match step
    case StartReader(m) => PutReader(s, t, m);
    case StopReader(m) => StopReaderKeepsInv(s, m);
    case SendRequest(m) => assert ReaderOk(s, m); PutReader(s, t, m);
    case RequestFailed(m, invalidate) => RequestFailedKeepsInv(s, m, invalidate);
    case RequestDone(m) => RequestDoneKeepsInv(s, m);
    case ReaderExit(m) => ExitKeepsInv(s, m);
    case Failover(_, _) => SameReaders(s, t);
    case NewInode(_, _) => SameReaders(s, t);
    case SetOwner(_, _) => SameReaders(s, t);
    case Stamp(_, _) => SameReaders(s, t);
    case Invalidate(_) => SameReaders(s, t);
    case SeenValid(m) => assert ReaderOk(s, m); PutReader(s, t, m);
    case LateBump(m) => LateBumpKeepsInv(s, m);
  }

  /**
   * Server `m` answers for an inode's attributes: it owns the inode, or it is the primary of the mirror group
   * that does. A group that has no known primary is taken for server 0.
   */
  predicate AnswersFor(s: State, owner: Owner, m: Meta) {
    || owner == Node(m)
    || (owner.Mirrored? && (owner.group, m) in s.primaries.Items)
    || (owner.Mirrored? && owner.group !in s.primaries.Keys && m == 0)
  }

  /** The server that answers for an inode has a live session, and the inode is stamped with its number. */
  ghost predicate StampedBy(s: State, i: InodeId, m: Meta) {
    && i in s.inodes && AnswersFor(s, s.inodes[i].owner, m)
    && m in s.readers && s.readers[m].sessionValid && s.readers[m].sessionCnt == s.inodes[i].localSessionCnt
  }

  /** An inode is judged valid exactly when it is marked so and carries the live session of its server. */
  lemma ValidExactly(s: State, i: InodeId)
    requires Inv(s)
    ensures s.IsCacheValid(i) <==> i in s.inodes && s.inodes[i].metadataValid && exists m :: StampedBy(s, i, m)
  {
    if i in s.inodes {
      var owner := s.inodes[i].owner;
      var n := s.SessionMeta(owner);
      assert AnswersFor(s, owner, n);
      assert n in s.readers ==> ReaderOk(s, n);
      forall m | AnswersFor(s, owner, m) ensures m == n {
      }
      if s.IsCacheValid(i) {
        assert StampedBy(s, i, n);
      }
    }
  }

  /** A stamp that marks an inode valid makes it valid exactly when its server has a live session. */
  lemma StampExactly(s: State, i: InodeId, m: Meta)
    requires Inv(s) && Enabled(s, Stamp(i, true)) && AnswersFor(s, s.inodes[i].owner, m)
    ensures Next(s, Stamp(i, true)).IsCacheValid(i) <==> m in s.readers && s.readers[m].sessionValid
  {
    assert m in s.readers ==> ReaderOk(s, m);
  }

  /** The steps that end the session of server `m`. */
  predicate EndsSession(step: Step, m: Meta) {
    step == StopReader(m) || step == RequestFailed(m, true) || step == ReaderExit(m) || step == LateBump(m)
  }

  /** When the session of its server ends, an inode is not valid any more. */
  lemma EndInvalidates(s: State, step: Step, i: InodeId, m: Meta)
    requires Inv(s) && Enabled(s, step) && InTime(s, step) && EndsSession(step, m)
    requires i in s.inodes && AnswersFor(s, s.inodes[i].owner, m)
    ensures !Next(s, step).IsCacheValid(i)
  {
    assert ReaderOk(s, m);
  }

  /** An inode is judged valid only under a session that has not ended. */
  lemma ValidMeansLive(s: State, i: InodeId)
    requires Inv(s) && s.IsCacheValid(i)
    ensures s.inodes[i].localSessionCnt !in s.ended
  {
    var m := s.SessionMeta(s.inodes[i].owner);
    assert ReaderOk(s, m);
  }

  ghost predicate IsRun(states: seq<State>, steps: seq<Step>) {
    && |states| == |steps| + 1 && states[0] == Init()
    && forall k :: 0 <= k < |steps| ==> Enabled(states[k], steps[k]) && states[k + 1] == Next(states[k], steps[k])
  }

  /** In a run no bump comes too late. */
  ghost predicate Punctual(states: seq<State>, steps: seq<Step>)
    requires IsRun(states, steps)
  {
    forall k :: 0 <= k < |steps| ==> InTime(states[k], steps[k])
  }

  lemma {:induction false} RunKeepsInv(states: seq<State>, steps: seq<Step>, j: nat, k: nat)
    requires IsRun(states, steps) && Punctual(states, steps) && j <= k < |states|
    ensures Inv(states[k]) && states[j].ended <= states[k].ended
    decreases k
  {
    if k > 0 {
      RunKeepsInv(states, steps, if j < k then j else k - 1, k - 1);
      StepKeepsInv(states[k - 1], steps[k - 1]);
    }
  }

  /**
   * Over every run in which no bump comes too late, across restarted readers and failovers: once a session
   * has ended, an inode stamped with its number is never judged valid again. Without the condition this is
   * false, as `LateBumpRevivesSession` shows.
   */
  lemma EndedSessionsStayEnded(states: seq<State>, steps: seq<Step>, j: nat, k: nat, n: nat, i: InodeId)
    requires IsRun(states, steps) && Punctual(states, steps) && j <= k < |states|
    requires n in states[j].ended && i in states[k].inodes && states[k].inodes[i].localSessionCnt == n
    ensures !states[k].IsCacheValid(i)
  {
    RunKeepsInv(states, steps, j, k);
    if states[k].IsCacheValid(i) {
      ValidMeansLive(states[k], i);
    }
  }

  /**
   * Over every run in which no bump comes too late: what was valid under a server's session is never again
   * judged valid with that stamp once the session has ended, whichever server the inode belongs to by then.
   */
  lemma LostSessionInvalidates(states: seq<State>, steps: seq<Step>, j: nat, k: nat, i: InodeId, m: Meta)
    requires IsRun(states, steps) && Punctual(states, steps) && j < k < |states|
    requires states[j].IsCacheValid(i) && AnswersFor(states[j], states[j].inodes[i].owner, m) && EndsSession(steps[j], m)
    requires i in states[k].inodes && states[k].inodes[i].localSessionCnt == states[j].inodes[i].localSessionCnt
    ensures !states[k].IsCacheValid(i)
  {
    RunKeepsInv(states, steps, j, j);
    ValidExactly(states[j], i);
    assert ReaderOk(states[j], m);
    assert states[j].inodes[i].localSessionCnt in states[j + 1].ended;
    EndedSessionsStayEnded(states, steps, j + 1, k, states[j].inodes[i].localSessionCnt, i);
  }

  /** An inode that is marked invalid stays so until a stamp marks it valid. */
  lemma {:induction false} InvalidUntilStamped(states: seq<State>, steps: seq<Step>, j: nat, k: nat, i: InodeId)
    requires IsRun(states, steps) && j < k < |states|
    requires steps[j] == Invalidate(i) || (steps[j].NewInode? && steps[j].i == i)
    requires forall l :: j < l < k ==> steps[l] != Stamp(i, true)
    ensures i in states[k].inodes && !states[k].inodes[i].metadataValid && !states[k].IsCacheValid(i)
  {
    if k > j + 1 {
      InvalidUntilStamped(states, steps, j, k - 1, i);
    }
    assert states[k] == Next(states[k - 1], steps[k - 1]);
  }

  /** No inode carries a number that has not been drawn yet. */
  ghost predicate StampsDrawn(s: State) { forall i :: i in s.inodes ==> s.inodes[i].localSessionCnt <= s.globalSessionCnt }

  lemma StampIsDrawn(s: State, i: InodeId)
    requires Inv(s) && StampsDrawn(s) && Enabled(s, Stamp(i, true))
    ensures s.SessionCnt(s.SessionMeta(s.inodes[i].owner)) <= s.globalSessionCnt
  {
    var m := s.SessionMeta(s.inodes[i].owner);
    assert m in s.readers ==> ReaderOk(s, m);
  }

  lemma {:induction false} RunStampsDrawn(states: seq<State>, steps: seq<Step>, k: nat)
    requires IsRun(states, steps) && Punctual(states, steps) && k < |states|
    ensures StampsDrawn(states[k])
  {
    if k > 0 {
      RunStampsDrawn(states, steps, k - 1);
      RunKeepsInv(states, steps, k - 1, k - 1);
      var s, step := states[k - 1], steps[k - 1];
      assert s.globalSessionCnt <= states[k].globalSessionCnt;
      if step.Stamp? {
        StampIsDrawn(s, step.i);
      }
    }
  }

  /** A session starts with no valid inode: every one has to be fetched again under it. */
  lemma NewSessionValidatesNothing(states: seq<State>, steps: seq<Step>, k: nat, i: InodeId)
    requires IsRun(states, steps) && Punctual(states, steps) && k < |steps| && steps[k].RequestDone?
    ensures states[k + 1].IsCacheValid(i) ==> states[k].IsCacheValid(i)
  {
    RunStampsDrawn(states, steps, k);
  }

  /** A reader that was stopped asks its server nothing more before it is gone. */
  lemma {:induction false} StoppedAsksNothing(states: seq<State>, steps: seq<Step>, j: nat, k: nat, m: Meta)
    requires IsRun(states, steps) && j < k < |states| && steps[j] == StopReader(m)
    requires forall l :: j < l < k ==> steps[l] != ReaderExit(m)
    ensures m in states[k].readers && states[k].readers[m].stopping && !Enabled(states[k], SendRequest(m))
  {
    if k > j + 1 {
      StoppedAsksNothing(states, steps, j, k - 1, m);
    }
    assert states[k] == Next(states[k - 1], steps[k - 1]);
  }

  /** The bumps of reader `m` that were decided but not done, since it was started last. */
  function Undone(steps: seq<Step>, m: Meta): int {
    if steps == [] then 0
    else
      var before, last := Undone(steps[..|steps| - 1], m), steps[|steps| - 1];
      if last == StartReader(m) then 0
      else if last == SeenValid(m) then before + 1
      else if last == LateBump(m) then before - 1
      else before
  }

  /** Every bump is done by a thread that found the session valid before, and by each such thread once. */
  lemma {:induction false} BumpsAreDecided(states: seq<State>, steps: seq<Step>, k: nat, m: Meta)
    requires IsRun(states, steps) && k < |states| && m in states[k].readers
    ensures states[k].readers[m].pending == Undone(steps[..k], m)
    decreases k
  {
    if k > 0 {
      var s, step := states[k - 1], steps[k - 1];
      assert steps[..k][..k - 1] == steps[..k - 1] && states[k] == Next(s, step);
      if m in s.readers {
        BumpsAreDecided(states, steps, k - 1, m);
      } else {
        assert step == StartReader(m);
      }
    }
  }

  /** An inode that changes hands stays valid exactly when it carries the live session of its new server. */
  lemma NewOwnerExactly(s: State, i: InodeId, owner: Owner, m: Meta)
    requires Inv(s) && Enabled(s, SetOwner(i, owner)) && AnswersFor(s, owner, m)
    ensures Next(s, SetOwner(i, owner)).IsCacheValid(i) <==>
            s.inodes[i].metadataValid && m in s.readers && s.readers[m].sessionValid && s.readers[m].sessionCnt == s.inodes[i].localSessionCnt
  {
    assert m in s.readers ==> ReaderOk(s, m);
  }

  /** A stamp taken under a live session is honoured until that session, the owner or the primary changes. */
  lemma ValidityIsKept(s: State, step: Step, i: InodeId)
    requires Inv(s) && s.IsCacheValid(i) && Enabled(s, step)
    ensures var t := Next(s, step);
            t.IsCacheValid(i) <==>
              && step != Invalidate(i) && !(step.NewInode? && step.i == i)
              && t.SessionCnt(t.SessionMeta(t.inodes[i].owner)) == s.SessionCnt(s.SessionMeta(s.inodes[i].owner))
  {
    var m := s.SessionMeta(s.inodes[i].owner);
    assert ReaderOk(s, m);
  }

  ghost predicate Reachable(s: State) {
    exists states, steps :: IsRun(states, steps) && states[|states| - 1] == s
  }

  lemma ReachNext(s: State, step: Step) returns (t: State)
    requires Reachable(s) && Enabled(s, step)
    ensures t == Next(s, step) && Reachable(t)
  {
    t := Next(s, step);
    var states, steps :| IsRun(states, steps) && states[|states| - 1] == s;
    assert IsRun(states + [t], steps + [step]);
  }

  /** A new reader's first request gives it the next odd number. */
  lemma ReachSession(s: State, m: Meta) returns (t: State)
    requires Reachable(s) && m !in s.readers
    ensures Reachable(t)
    ensures t == s.(readers := s.readers[m := Reader(s.globalSessionCnt + 1, true, Idle, false, 0)],
                    globalSessionCnt := s.globalSessionCnt + 2)
  {
    t := ReachNext(s, StartReader(m));
    t := ReachNext(t, SendRequest(m));
    t := ReachNext(t, RequestDone(m));
  }

  /** Servers 1 and 2 have the sessions 1 and 3, and inode 0 of mirror group 0 is stamped with session 3. */
  lemma ReachTwoSessions() returns (s: State)
    ensures Reachable(s)
    ensures 1 in s.readers && s.readers[1] == Reader(1, true, Idle, false, 0)
    ensures 2 in s.readers && s.readers[2] == Reader(3, true, Idle, false, 0)
    ensures s.primaries == map[0 := 2] && s.inodes == map[0 := Inode(Mirrored(0), true, 3)]
  {
    s := Init();
    assert IsRun([s], []);
    s := ReachSession(s, 1);
    s := ReachSession(s, 2);
    s := ReachNext(s, Failover(0, 2));
    s := ReachNext(s, NewInode(0, Mirrored(0)));
    s := ReachNext(s, Stamp(0, true));
  }

  /**
   * If two threads may both see `sessionValid` before either bumps, the counter skips the even number and
   * lands on another server's ended session: after a failover an inode of that session is valid again.
   */
  lemma LateBumpRevivesSession()
    ensures exists s :: Reachable(s) && s.IsCacheValid(0) && s.inodes[0].localSessionCnt in s.ended
  {
    var s := ReachTwoSessions();
    s := ReachNext(s, SeenValid(1));
    s := ReachNext(s, SeenValid(1));
    s := ReachNext(s, LateBump(1));
    s := ReachNext(s, LateBump(1));
    s := ReachNext(s, StopReader(2));
    s := ReachNext(s, Failover(0, 1));
    assert s.IsCacheValid(0) && s.inodes[0].localSessionCnt in s.ended;
  }
}
