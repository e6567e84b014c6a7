/**
 * The asynchronous flusher: a thread that takes inodes out of the reference store one at a time and
 * flushes their cache buffers, while users attach and detach buffers of the same inodes.
 */
module Flusher {

  type Inode = nat

  /** Who holds an inode's cache lock, and which step of a buffer change that holder has yet to do. */
  datatype Lock =
    | Free
    | Held(byFlusher: bool)
    | MustAdd(byFlusher: bool)      // a buffer was attached; the inode still has to be put into the store
    | MustRelease(byFlusher: bool)  // the buffer was given back; the inode still has to leave the store

  /** The flusher's progress with the inode in its hand. */
  datatype Hand =
    | Empty
    | Took(i: Inode)       // about to try the lock
    | Flushing(i: Inode)   // holds the lock of the first attempt
    | ReAdd(i: Inode)      // lock contended, or a communication error on an open file
    | Final(i: Inode)      // other error, or file not open: about to flush once more and discard
    | Discarding(i: Inode) // holds the lock of the final attempt
    | Put(i: Inode)        // about to drop its reference

  /** `refs[i]` counts the references held through the store and the flusher's hand. */
  datatype State = State(
    store: set<Inode>,
    hand: Hand,
    attached: set<Inode>,
    locks: map<Inode, Lock>,
    refs: map<Inode, int>)
  {
    function LockOf(i: Inode): Lock { if i in locks then locks[i] else Free }

    function Refs(i: Inode): int { if i in refs then refs[i] else 0 }

    predicate InHand(i: Inode) { !hand.Empty? && hand.i == i }

    function WithLock(i: Inode, l: Lock): State { this.(locks := locks[i := l]) }

    function AddRef(i: Inode): State { this.(refs := refs[i := Refs(i) + 1]) }

    function DropRef(i: Inode): State { this.(refs := refs[i := Refs(i) - 1]) }
  }

  function Init(): State { State({}, Empty, {}, map[], map[]) }

  /** What a failed flush reports; "in use" is taken for a contended lock. */
  datatype FlushError = InUse | CommError | Other

  datatype Step =
    // a user call on inode i, holding the cache lock throughout
    | UserLock(i: Inode)
    | UserUnlock(i: Inode)
    // any lock holder
    | Attach(i: Inode)
    | AddToStore(i: Inode)
    | Detach(i: Inode)
    | RemoveFromStore(i: Inode)
    // the flusher
    | Take(i: Inode)
    | TryLock(i: Inode)
    | FlushDone(i: Inode)       // the flush reported success
    | FlushFailed(i: Inode, error: FlushError, isOpen: bool)
    | LockFinal(i: Inode)
    | FinalDone(i: Inode)
    | PutBack(i: Inode)
    | DropInode(i: Inode)

  /**
   * When a step can happen. `zeroAnswers` also admits the flush that reports success although the
   * servers stored nothing and the buffer is still attached, and the user who then attaches another.
   */
  predicate Enabled(s: State, step: Step, zeroAnswers: bool) {
    match step
    case UserLock(i) => s.LockOf(i) == Free
    case UserUnlock(i) => s.LockOf(i) == Held(false)
    case Attach(i) => s.LockOf(i) == Held(false) && (i !in s.attached || zeroAnswers)
    case AddToStore(i) => s.LockOf(i) == MustAdd(false)
    case Detach(i) => (s.LockOf(i).Held? || s.LockOf(i).MustAdd?) && i in s.attached
    case RemoveFromStore(i) => s.LockOf(i).MustRelease?
    case Take(i) => s.hand == Empty && i in s.store
    case TryLock(i) => s.hand == Took(i)
    case FlushDone(i) => s.hand == Flushing(i) && s.LockOf(i) == Held(true) && (i !in s.attached || zeroAnswers)
    case FlushFailed(i, _, _) => s.hand == Flushing(i) && s.LockOf(i) == Held(true) && i in s.attached
    case LockFinal(i) => s.hand == Final(i) && s.LockOf(i) == Free
    case FinalDone(i) => s.hand == Discarding(i) && s.LockOf(i) == Held(true) && i !in s.attached
    case PutBack(i) => s.hand == ReAdd(i)
    case DropInode(i) => s.hand == Put(i)
  }

  function Next(s: State, step: Step): State
    requires Enabled(s, step, true)
  {
    match step
    case UserLock(i) => s.WithLock(i, Held(false))
    case UserUnlock(i) => s.WithLock(i, Free)
    case Attach(i) => s.(attached := s.attached + {i}).WithLock(i, MustAdd(false))
    case AddToStore(i) =>
      if i in s.store then s.WithLock(i, Held(false))
      else s.(store := s.store + {i}).AddRef(i).WithLock(i, Held(false))
    case Detach(i) => s.(attached := s.attached - {i}).WithLock(i, MustRelease(s.LockOf(i).byFlusher))
    case RemoveFromStore(i) =>
      if i in s.store then s.(store := s.store - {i}).DropRef(i).WithLock(i, Held(s.LockOf(i).byFlusher))
      else s.WithLock(i, Held(s.LockOf(i).byFlusher))
    case Take(i) => s.(store := s.store - {i}, hand := Took(i))
    case TryLock(i) =>
      if s.LockOf(i) == Free then s.(hand := Flushing(i)).WithLock(i, Held(true))
      else s.(hand := ReAdd(i))
    case FlushDone(i) => s.(hand := Put(i)).WithLock(i, Free)
    case FlushFailed(i, error, isOpen) =>
      s.(hand := if error.Other? || (error.CommError? && !isOpen) then Final(i) else ReAdd(i)).WithLock(i, Free)
    case LockFinal(i) => s.(hand := Discarding(i)).WithLock(i, Held(true))
    case FinalDone(i) => s.(hand := Put(i)).WithLock(i, Free)
    case PutBack(i) =>
      if i in s.store then s.(hand := Empty).DropRef(i)
      else s.(hand := Empty, store := s.store + {i})
    case DropInode(i) => s.(hand := Empty).DropRef(i)
  }

  /** The references held are exactly one for the store and one for the hand. */
  predicate RefExact(s: State, i: Inode) {
    s.Refs(i) == (if i in s.store then 1 else 0) + (if s.InHand(i) then 1 else 0)
  }

  /** The flusher holds the lock it thinks it holds, and no step of a buffer change is left dangling. */
  predicate LockMatches(s: State, i: Inode) {
    && ((s.LockOf(i) != Free && s.LockOf(i).byFlusher) <==> s.hand == Flushing(i) || s.hand == Discarding(i))
    && (s.LockOf(i).MustRelease? ==> i !in s.attached)
    && !(s.LockOf(i).MustAdd? && s.LockOf(i).byFlusher)
  }

  ghost predicate Inv(s: State) {
    forall i: Inode :: RefExact(s, i) && LockMatches(s, i)
  }

  /** A buffer that nobody is about to register will be found again by the flusher. */
  predicate Found(s: State, i: Inode) {
    i in s.attached && !s.LockOf(i).MustAdd? ==> i in s.store || (s.InHand(i) && !s.hand.Put?)
  }

  ghost predicate Findable(s: State) {
    forall i: Inode :: Found(s, i)
  }

  lemma StepKeepsInv(s: State, step: Step)
    requires Inv(s) && Enabled(s, step, true)
    ensures Inv(Next(s, step))
  {
    forall j: Inode
      ensures RefExact(Next(s, step), j) && LockMatches(Next(s, step), j)
    {
      assert RefExact(s, j) && LockMatches(s, j);
    }
  }

  /**
   * A step keeps every buffer findable if and only if it is not a flush that reports success over a
   * buffer it leaves attached to an inode outside the store.
   */
  lemma StepKeepsFindable(s: State, step: Step)
    requires Inv(s) && Findable(s) && Enabled(s, step, true)
    ensures Findable(Next(s, step)) <==> !(step.FlushDone? && step.i in s.attached && step.i !in s.store)
  {
    if step.FlushDone? && step.i in s.attached && step.i !in s.store {
      assert !Found(Next(s, step), step.i);
    } else {
      forall j: Inode
        ensures Found(Next(s, step), j)
      {
        assert Found(s, j) && RefExact(s, j) && LockMatches(s, j);
      }
    }
  }

  /** The steps can be done one after the other, without zero answers, and lead to `t`. */
  ghost predicate Leads(s: State, steps: seq<Step>, t: State)
    decreases |steps|
  {
    if steps == [] then s == t
    else Enabled(s, steps[0], false) && Leads(Next(s, steps[0]), steps[1..], t)
  }

  /** One step more. */
  lemma {:induction false} Go(s: State, steps: seq<Step>, t: State, step: Step) returns (more: seq<Step>, u: State)
    requires Leads(s, steps, t) && Enabled(t, step, false)
    ensures more == steps + [step] && u == Next(t, step) && Leads(s, more, u)
    decreases |steps|
  {
    more, u := steps + [step], Next(t, step);
    if steps == [] {
      assert more == [step];
    } else {
      var rest, _ := Go(Next(s, steps[0]), steps[1..], t, step);
      assert more[1..] == rest;
    }
  }

  /** An inode waits in the store with its buffer attached, nobody holds its lock, and the flusher is idle. */
  predicate Waiting(s: State, i: Inode) {
    i in s.store && i in s.attached && s.LockOf(i) == Free && s.hand == Empty
  }

  /** The flusher gets hold of a waiting inode. */
  lemma ReachFlushing(s: State, i: Inode) returns (steps: seq<Step>, t: State)
    requires Waiting(s, i)
    ensures steps == [Take(i), TryLock(i)] && Leads(s, steps, t)
    ensures t == s.(store := s.store - {i}, hand := Flushing(i), locks := s.locks[i := Held(true)])
  {
    steps, t := [], s;
    steps, t := Go(s, steps, t, Take(i));
    steps, t := Go(s, steps, t, TryLock(i));
  }

  /** Whoever holds the lock gives the buffer back. */
  lemma ReachDetached(s: State, i: Inode, done: seq<Step>, u: State) returns (steps: seq<Step>, t: State)
    requires Leads(s, done, u) && u.LockOf(i).Held? && i in u.attached && i !in u.store
    ensures steps == done + [Detach(i), RemoveFromStore(i)] && Leads(s, steps, t)
    ensures t == u.(attached := u.attached - {i}, locks := t.locks) && t.LockOf(i) == u.LockOf(i)
  {
    steps, t := Go(s, done, u, Detach(i));
    steps, t := Go(s, steps, t, RemoveFromStore(i));
  }

  /** The flusher fails to flush a waiting inode and is about to discard its buffer. */
  lemma ReachDiscarding(s: State, i: Inode, failed: Step) returns (steps: seq<Step>, t: State)
    requires Waiting(s, i) && failed.FlushFailed? && failed.i == i
    requires failed.error != InUse && (failed.error == CommError ==> !failed.isOpen)
    ensures steps == [Take(i), TryLock(i), failed, LockFinal(i)] && Leads(s, steps, t)
    ensures t == s.(store := s.store - {i}, hand := Discarding(i), locks := t.locks) && t.LockOf(i) == Held(true)
  {
    steps, t := ReachFlushing(s, i);
    steps, t := Go(s, steps, t, failed);
    steps, t := Go(s, steps, t, LockFinal(i));
  }

  /** The inode is gone from store and hand, its buffer is gone, and so are the references held for it. */
  predicate Cleared(s: State, i: Inode, t: State) {
    && t.store == s.store - {i} && t.attached == s.attached - {i} && t.hand == Empty
    && t.LockOf(i) == Free && t.Refs(i) == 0
  }

  /** With nobody in between, a successful visit clears the inode. */
  lemma QuietVisitClears(s: State, i: Inode) returns (t: State)
    requires Inv(s) && Waiting(s, i)
    ensures Leads(s, [Take(i), TryLock(i), Detach(i), RemoveFromStore(i), FlushDone(i), DropInode(i)], t)
    ensures Cleared(s, i, t)
  {
    assert RefExact(s, i);
    var steps;
    steps, t := ReachFlushing(s, i);
    steps, t := ReachDetached(s, i, steps, t);
    steps, t := Go(s, steps, t, FlushDone(i));
    steps, t := Go(s, steps, t, DropInode(i));
    assert steps == [Take(i), TryLock(i), Detach(i), RemoveFromStore(i), FlushDone(i), DropInode(i)];
  }

  /** A flush that failed because of the connection, on an open file, or because it is in use puts the inode back. */
  lemma RetriedLater(s: State, i: Inode, error: FlushError, isOpen: bool) returns (t: State)
    requires Inv(s) && Waiting(s, i) && (error == InUse || (error == CommError && isOpen))
    ensures Leads(s, [Take(i), TryLock(i), FlushFailed(i, error, isOpen), PutBack(i)], t)
    ensures t.store == s.store && t.attached == s.attached && Waiting(t, i) && t.Refs(i) == s.Refs(i)
  {
    var steps;
    steps, t := ReachFlushing(s, i);
    steps, t := Go(s, steps, t, FlushFailed(i, error, isOpen));
    steps, t := Go(s, steps, t, PutBack(i));
    assert steps == [Take(i), TryLock(i), FlushFailed(i, error, isOpen), PutBack(i)];
  }

  /** After any other failure, or with the file closed, the buffer is discarded and the inode cleared. */
  lemma GivenUpForGood(s: State, i: Inode, error: FlushError, isOpen: bool) returns (t: State)
    requires Inv(s) && Waiting(s, i) && error != InUse && (error == CommError ==> !isOpen)
    ensures Leads(s, [Take(i), TryLock(i), FlushFailed(i, error, isOpen), LockFinal(i), Detach(i), RemoveFromStore(i),
                      FinalDone(i), DropInode(i)], t)
    ensures Cleared(s, i, t)
  {
    assert RefExact(s, i);
    var steps;
    steps, t := ReachDiscarding(s, i, FlushFailed(i, error, isOpen));
    steps, t := ReachDetached(s, i, steps, t);
    steps, t := Go(s, steps, t, FinalDone(i));
    steps, t := Go(s, steps, t, DropInode(i));
    assert steps == [Take(i), TryLock(i), FlushFailed(i, error, isOpen), LockFinal(i), Detach(i), RemoveFromStore(i),
                     FinalDone(i), DropInode(i)];
  }

  /** An inode that a user works on is put back untouched. */
  lemma BusyIsPutBack(s: State, i: Inode) returns (t: State)
    requires i in s.store && s.hand == Empty && s.LockOf(i) != Free
    ensures Leads(s, [Take(i), TryLock(i), PutBack(i)], t) && t == s
  {
    var steps := [];
    t := s;
    steps, t := Go(s, steps, t, Take(i));
    steps, t := Go(s, steps, t, TryLock(i));
    steps, t := Go(s, steps, t, PutBack(i));
    assert steps == [Take(i), TryLock(i), PutBack(i)];
  }

  /** A user can always attach a buffer to an inode that has none and nobody works on, and it is registered then. */
  lemma UserAttaches(s: State, i: Inode) returns (t: State)
    requires Inv(s) && s.LockOf(i) == Free && i !in s.attached
    ensures Leads(s, [UserLock(i), Attach(i), AddToStore(i), UserUnlock(i)], t)
    ensures t.store == s.store + {i} && t.attached == s.attached + {i} && t.hand == s.hand && t.LockOf(i) == Free
    ensures t.Refs(i) == if s.InHand(i) then 2 else 1
  {
    assert RefExact(s, i);
    var steps := [];
    t := s;
    steps, t := Go(s, steps, t, UserLock(i));
    steps, t := Go(s, steps, t, Attach(i));
    steps, t := Go(s, steps, t, AddToStore(i));
    steps, t := Go(s, steps, t, UserUnlock(i));
    assert steps == [UserLock(i), Attach(i), AddToStore(i), UserUnlock(i)];
  }

  /** A user can always take a free lock, give the buffer back and take the inode out of the store. */
  lemma UserClears(s: State, i: Inode) returns (t: State)
    requires Inv(s) && s.LockOf(i) == Free && i in s.attached && !s.InHand(i)
    ensures Leads(s, [UserLock(i), Detach(i), RemoveFromStore(i), UserUnlock(i)], t)
    ensures t.store == s.store - {i} && t.attached == s.attached - {i} && t.hand == s.hand && t.LockOf(i) == Free && t.Refs(i) == 0
  {
    assert RefExact(s, i);
    var steps := [];
    t := s;
    steps, t := Go(s, steps, t, UserLock(i));
    steps, t := Go(s, steps, t, Detach(i));
    steps, t := Go(s, steps, t, RemoveFromStore(i));
    steps, t := Go(s, steps, t, UserUnlock(i));
    assert steps == [UserLock(i), Detach(i), RemoveFromStore(i), UserUnlock(i)];
  }

  /** A run of the flusher and any users, from an empty system. */
  ghost predicate IsRun(states: seq<State>, steps: seq<Step>, zeroAnswers: bool) {
    && |states| == |steps| + 1 && states[0] == Init()
    && forall k :: 0 <= k < |steps| ==> Enabled(states[k], steps[k], zeroAnswers) && states[k + 1] == Next(states[k], steps[k])
  }

  /**
   * In every state of every run the references held are exactly one per store entry and one for the
   * flusher's hand. If the servers never answer a flush with zero bytes, every attached buffer whose
   * inode is not just being registered is in the store or in the hand.
   */
  lemma {:induction false} RunIsSafe(states: seq<State>, steps: seq<Step>, zeroAnswers: bool, k: nat)
    requires IsRun(states, steps, zeroAnswers) && k < |states|
    ensures Inv(states[k])
    ensures !zeroAnswers ==> Findable(states[k])
    decreases k
  {
    if k > 0 {
      RunIsSafe(states, steps, zeroAnswers, k - 1);
      StepKeepsInv(states[k - 1], steps[k - 1]);
      if !zeroAnswers {
        StepKeepsFindable(states[k - 1], steps[k - 1]);
      }
    }
  }

  /** State `s` ends some run. */
  ghost predicate Reachable(s: State, zeroAnswers: bool) {
    exists states, steps :: IsRun(states, steps, zeroAnswers) && states[|states| - 1] == s
  }

  lemma ReachNext(s: State, step: Step)
    requires Reachable(s, true) && Enabled(s, step, true)
    ensures Reachable(Next(s, step), true)
  {
    var states, steps :| IsRun(states, steps, true) && states[|states| - 1] == s;
    assert IsRun(states + [Next(s, step)], steps + [step], true);
  }

  lemma ReachRegistered() returns (s: State)
    ensures Reachable(s, true)
    ensures s.store == {0} == s.attached && s.hand == Empty && s.Refs(0) == 1 && s.LockOf(0) == Free
  {
    s := Init();
    assert IsRun([s], [], true);
    ReachNext(s, UserLock(0));
    s := Next(s, UserLock(0));
    ReachNext(s, Attach(0));
    s := Next(s, Attach(0));
    ReachNext(s, AddToStore(0));
    s := Next(s, AddToStore(0));
    ReachNext(s, UserUnlock(0));
    s := Next(s, UserUnlock(0));
  }

  /** A buffer is attached although nobody works on its inode or will find it. */
  predicate Stranded(s: State, i: Inode) {
    i in s.attached && s.LockOf(i) == Free && s.Refs(i) == 0 && s.store == {} && s.hand == Empty
  }

  /** One zero answer is enough to leave a buffer attached that no thread will ever flush. */
  lemma ZeroAnswerStrandsBuffer()
    ensures exists s :: Reachable(s, true) && Stranded(s, 0)
  {
    var s := ReachRegistered();
    ReachNext(s, Take(0));
    s := Next(s, Take(0));
    ReachNext(s, TryLock(0));
    s := Next(s, TryLock(0));
    ReachNext(s, FlushDone(0));
    s := Next(s, FlushDone(0));
    ReachNext(s, DropInode(0));
    s := Next(s, DropInode(0));
    assert Stranded(s, 0);
  }
}
