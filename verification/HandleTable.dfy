/**
 * An inode's table of remote file handles: one reference-counted slot per access mode, the stripe pattern
 * they share, and what becomes of a handle whose closing could not be sent. Every method runs under the
 * table's mutex.
 */
module HandleTable {
  import opened Counting
  import opened Options

  /** Slot indices. */
  const READ: nat := 0
  const RW: nat := 1
  const WRITE: nat := 2
  const NUM_SLOTS: nat := 3

  const SUCCESS: nat := 0
  const INTERNAL: nat := 1

  datatype Access = AccessRead | AccessWrite | AccessReadWrite

  function HandleType(access: Access): (t: nat)
    ensures t < NUM_SLOTS
  {
    match access
    case AccessWrite => WRITE
    case AccessReadWrite => RW
    case AccessRead => READ
  }

  /** How the server takes a close. */
  datatype CloseResult = Answered | Communication | Interrupted

  /** How the server takes an open. A bad pattern is noticed after the handle was opened. */
  datatype OpenResult =
    | Opened(newPattern: nat)
    | OpenedBadPattern(close: CloseResult)
    | OpenFailed(code: nat)

  lemma CountAppend(q: seq<nat>, x: nat, h: nat)
    ensures Count(q + [x], h) == Count(q, h) + if x == h then 1 else 0
  {
    CountConcat(q, [x], h);
  }

  lemma CountRemove(q: seq<nat>, k: nat, h: nat)
    requires k < |q|
    ensures Count(q, h) == Count(q[..k] + q[k + 1..], h) + if q[k] == h then 1 else 0
  {
    assert q == (q[..k] + [q[k]]) + q[k + 1..];
    CountConcat(q[..k] + [q[k]], q[k + 1..], h);
    CountAppend(q[..k], q[k], h);
    CountConcat(q[..k], q[k + 1..], h);
  }

  /** A handle opened for `mode` may be used for `access`. */
  predicate Permits(mode: Access, access: Access) { mode == access || mode == AccessReadWrite }

  /** A table and the fate of its handles as a value; `openedFor` has the access each handle was opened for. */
  datatype State = State(
    refCount: seq<nat>, handleID: seq<nat>, pattern: Option<nat>, patternStale: bool,
    numOpened: nat, openedFor: seq<Access>, answered: set<nat>, delayedClose: seq<nat>, lost: set<nat>)
  {
    predicate Shaped() { |refCount| == |handleID| == NUM_SLOTS }

    predicate AnyOpen()
      requires Shaped()
    {
      refCount[READ] > 0 || refCount[RW] > 0 || refCount[WRITE] > 0
    }

    /** In how many slots handle `h` is live. */
    function Live(h: nat): nat
      requires Shaped()
    {
      (if refCount[READ] > 0 && handleID[READ] == h then 1 else 0) +
      (if refCount[RW] > 0 && handleID[RW] == h then 1 else 0) +
      (if refCount[WRITE] > 0 && handleID[WRITE] == h then 1 else 0)
    }

    /** In how many places handle `h` is accounted for. */
    function Places(h: nat): nat
      requires Shaped()
    {
      Live(h) + (if h in answered then 1 else 0) + Count(delayedClose, h) + (if h in lost then 1 else 0)
    }

    predicate Fitting() {
      Shaped() && |openedFor| == numOpened && FitsSlot(READ) && FitsSlot(RW) && FitsSlot(WRITE)
    }

    /** An open slot holds a handle that was opened for the slot's own kind of access. */
    predicate FitsSlot(t: nat)
      requires Shaped() && t < NUM_SLOTS
    {
      refCount[t] > 0 ==> handleID[t] < |openedFor| && HandleType(openedFor[handleID[t]]) == t
    }

    /** Every handle opened so far is in exactly one place, and an open one has a pattern that is not stale. */
    ghost predicate Sound() {
      && Shaped()
      && (patternStale ==> !AnyOpen())
      && (AnyOpen() ==> pattern.Some?)
      && forall h: nat :: Places(h) == if h < numOpened then 1 else 0
    }

    /** One more reference to an open slot. */
    function Referenced(t: nat): State
      requires Shaped() && t < NUM_SLOTS
    {
      this.(refCount := refCount[t := refCount[t] + 1])
    }

    /** A handle that no slot holds was to be closed. */
    function Closed(h: nat, close: CloseResult): State {
      if close.Answered? then this.(answered := answered + {h}) else this.(delayedClose := delayedClose + [h])
    }

    /** A new handle was to be opened. */
    function AfterOpen(access: Access, open: OpenResult): State
      requires Shaped()
    {
      var t := HandleType(access);
      var usable := pattern.Some? && !patternStale;
      var grown := this.(numOpened := numOpened + 1, openedFor := openedFor + [access]);
      if open.OpenFailed? then this
      else if open.OpenedBadPattern? && !usable then grown.Closed(numOpened, open.close)
      else
        grown.(handleID := handleID[t := numOpened], patternStale := false,
               pattern := if usable then pattern else Some(open.newPattern)).Referenced(t)
    }

    /** What the caller of a reference is told. */
    function Told(access: Access, allowRWHandle: bool, preErr: nat, open: OpenResult): nat
      requires Shaped()
    {
      if refCount[HandleType(access)] > 0 || (allowRWHandle && refCount[RW] > 0) then preErr
      else if open.OpenFailed? then open.code
      else if open.OpenedBadPattern? && (pattern.None? || patternStale) then 1
      else 0
    }

    /** The slot whose open handle serves this access, if there is one. */
    function Shared(access: Access, allowRWHandle: bool): (slot: Option<nat>)
      requires Shaped()
      ensures slot.Some? ==> slot.value < NUM_SLOTS && refCount[slot.value] > 0
    {
      if refCount[HandleType(access)] > 0 then Some(HandleType(access))
      else if allowRWHandle && refCount[RW] > 0 then Some(RW)
      else None
    }

    predicate Enabled(e: Event)
      requires Shaped()
    {
      match e
      case Reference(_, _, _, open) => open.OpenFailed? ==> open.code != SUCCESS
      case Release(slot, _) => slot < NUM_SLOTS && refCount[slot] > 0
      case CheckOpen(_) => true
      case Retry(index, _) => index < |delayedClose|
    }

    /** The state after an event; one that cannot happen changes nothing. */
    function After(e: Event): (y: State)
      requires Shaped()
      ensures y.Shaped()
    {
      if !Enabled(e) then this
      else
        match e
        case Reference(access, allowRWHandle, preErr, open) =>
          var slot := Shared(access, allowRWHandle);
          if slot.None? then AfterOpen(access, open)
          else if preErr != SUCCESS then this
          else Referenced(slot.value)
        case Release(slot, close) =>
          var y := this.(refCount := refCount[slot := refCount[slot] - 1]);
          if y.refCount[slot] == 0 then y.Closed(handleID[slot], close) else y
        case CheckOpen(setPatternToStale) =>
          this.(patternStale := patternStale || (setPatternToStale && !AnyOpen()))
        case Retry(index, close) =>
          var y := this.(delayedClose := delayedClose[..index] + delayedClose[index + 1..]);
          match close
          case Communication => this
          case Answered => y.(answered := answered + {delayedClose[index]})
          case Interrupted => y.(lost := lost + {delayedClose[index]})
    }
  }

  datatype Event =
    | Reference(access: Access, allowRWHandle: bool, preErr: nat, open: OpenResult)
    | Release(slot: nat, close: CloseResult)
    | CheckOpen(setPatternToStale: bool)
    | Retry(index: nat, close: CloseResult)

  class Table {
    var refCount: seq<nat>
    var handleID: seq<nat>
    var pattern: Option<nat>
    var patternStale: bool

    /** Handles are numbered as the server opens them. */
    var numOpened: nat
    var openedFor: seq<Access>
    var answered: set<nat>
    var delayedClose: seq<nat>
    /** Handles whose retried close was interrupted: taken off the queue without an answer. */
    var lost: set<nat>

    function Now(): State reads this {
      State(refCount, handleID, pattern, patternStale, numOpened, openedFor, answered, delayedClose, lost)
    }

    predicate AnyOpen() reads this
      requires |refCount| == |handleID| == NUM_SLOTS
    {
      Now().AnyOpen()
    }

    ghost predicate Valid() reads this { Now().Sound() }

    constructor ()
      ensures Valid() && Now().Fitting() && numOpened == 0 && !AnyOpen() && !patternStale
    {
      refCount, handleID := [0, 0, 0], [0, 0, 0];
      pattern, patternStale := None, false;
      numOpened, openedFor, answered, delayedClose, lost := 0, [], {}, [], {};
    }

    /** Account for a handle that is no longer live anywhere: closed, or queued for another attempt. */
    method CloseWithAsyncRetry(h: nat, close: CloseResult)
      requires |refCount| == |handleID| == NUM_SLOTS
      requires forall x: nat :: Now().Places(x) == if x < numOpened && x != h then 1 else 0
      requires h < numOpened
      modifies this`answered, this`delayedClose
      ensures forall x: nat :: Now().Places(x) == if x < numOpened then 1 else 0
      ensures close.Answered? ==> answered == old(answered) + {h} && delayedClose == old(delayedClose)
      ensures !close.Answered? ==> answered == old(answered) && delayedClose == old(delayedClose) + [h]
      ensures Now() == old(Now()).Closed(h, close)
    {
      assert Now().Places(h) == 0;
      if close.Answered? {
        answered := answered + {h};
        forall x: nat ensures Now().Places(x) == if x < numOpened then 1 else 0 {
          assert old(Now()).Places(x) == if x < numOpened && x != h then 1 else 0;
        }
      } else {
        delayedClose := delayedClose + [h];
        forall x: nat ensures Now().Places(x) == if x < numOpened then 1 else 0 {
          assert old(Now()).Places(x) == if x < numOpened && x != h then 1 else 0;
          CountAppend(old(delayedClose), h, x);
        }
      }
    }

    /** Open a new remote handle for slot `t`. */
    method OpenHandle(access: Access, t: nat, open: OpenResult) returns (err: nat)
      requires Valid() && t == HandleType(access) && refCount[t] == 0 && (open.OpenFailed? ==> open.code != SUCCESS)
      modifies this
      ensures Valid() && lost == old(lost)
      ensures old(AnyOpen()) && err == SUCCESS ==> pattern == old(pattern)
      ensures err == SUCCESS <==> open.Opened? || (open.OpenedBadPattern? && old(pattern.Some? && !patternStale))
      ensures err == SUCCESS ==>
                refCount == old(refCount)[t := 1] && handleID == old(handleID)[t := old(numOpened)] && !patternStale
      ensures err != SUCCESS ==> refCount == old(refCount) && pattern == old(pattern) && patternStale == old(patternStale)
      ensures numOpened == if open.OpenFailed? then old(numOpened) else old(numOpened) + 1
      ensures err != SUCCESS ==> err == if open.OpenFailed? then open.code else INTERNAL
      ensures Now() == old(Now()).AfterOpen(access, open)
    {
      if open.OpenFailed? {
        return open.code;
      }
      var ioPattern := if patternStale then None else pattern;
      var h := numOpened;
      assert Now().Places(h) == 0;
      numOpened, openedFor := numOpened + 1, openedFor + [access];
      forall x: nat ensures Now().Places(x) == if x < numOpened && x != h then 1 else 0 {
        assert old(Now()).Places(x) == if x < old(numOpened) then 1 else 0;
      }
      if ioPattern.None? {
        if open.OpenedBadPattern? {
          CloseWithAsyncRetry(h, open.close);
          return INTERNAL;
        }
        ioPattern := Some(open.newPattern);
      }
      Install(t, ioPattern);
      return SUCCESS;
    }

    /** Put the handle opened last into slot `t`, with the pattern it uses. */
    method Install(t: nat, ioPattern: Option<nat>)
      requires Now().Shaped() && t < NUM_SLOTS && refCount[t] == 0 && numOpened > 0 && ioPattern.Some?
      requires forall x: nat :: Now().Places(x) == if x < numOpened - 1 then 1 else 0
      modifies this`handleID, this`pattern, this`patternStale, this`refCount
      ensures Valid()
      ensures Now() == old(Now()).(handleID := old(handleID)[t := numOpened - 1], pattern := ioPattern,
                                   patternStale := false, refCount := old(refCount)[t := 1])
    {
      handleID := handleID[t := numOpened - 1];
      pattern := ioPattern;
      patternStale := false;
      refCount := refCount[t := refCount[t] + 1];
      forall x: nat ensures Now().Places(x) == if x < numOpened then 1 else 0 {
        assert old(Now()).Places(x) == if x < numOpened - 1 then 1 else 0;
      }
    }

    /**
     * Get a reference to a handle, sharing an open one where possible. `preErr` is the result of the
     * truncate and version calls that go with sharing.
     */
    method ReferenceHandle(access: Access, allowRWHandle: bool, preErr: nat, open: OpenResult) returns (err: nat, t: nat)
      requires Valid() && (open.OpenFailed? ==> open.code != SUCCESS)
      modifies this
      ensures Valid() && t < NUM_SLOTS && lost == old(lost)
      ensures old(AnyOpen()) ==> pattern == old(pattern)
      ensures err == SUCCESS ==> refCount == old(refCount)[t := old(refCount[t]) + 1] && !patternStale
      ensures err != SUCCESS ==> refCount == old(refCount)
      ensures t == SlotOf(old(Now()), access, allowRWHandle)
      ensures err == old(Now()).Told(access, allowRWHandle, preErr, open)
      ensures Now() == old(Now()).After(Reference(access, allowRWHandle, preErr, open))
    {
      t := HandleType(access);
      if refCount[t] > 0 {
        if preErr != SUCCESS {
          return preErr, t;
        }
        AddReference(t);
        return SUCCESS, t;
      }
      if allowRWHandle && refCount[RW] > 0 {
        t := RW;
        if preErr != SUCCESS {
          return preErr, t;
        }
        AddReference(t);
        return SUCCESS, t;
      }
      err := OpenHandle(access, t, open);
    }

    method AddReference(t: nat)
      requires Valid() && t < NUM_SLOTS && refCount[t] > 0
      modifies this`refCount
      ensures Valid() && refCount == old(refCount)[t := old(refCount[t]) + 1]
      ensures Now() == old(Now()).Referenced(t)
    {
      refCount := refCount[t := refCount[t] + 1];
      forall h: nat ensures Now().Places(h) == if h < numOpened then 1 else 0 {
        assert old(Now()).Places(h) == if h < numOpened then 1 else 0;
      }
    }

    /** Drop a reference; the last one closes the remote handle. */
    method ReleaseHandle(t: nat, close: CloseResult)
      requires Valid() && t < NUM_SLOTS && refCount[t] > 0
      modifies this
      ensures Valid() && pattern == old(pattern) && patternStale == old(patternStale)
      ensures refCount == old(refCount)[t := old(refCount[t]) - 1] && lost == old(lost) && numOpened == old(numOpened)
      ensures old(refCount[t]) > 1 ==> answered == old(answered) && delayedClose == old(delayedClose)
      ensures old(refCount[t]) == 1 && close.Answered? ==> answered == old(answered) + {old(handleID[t])}
      ensures old(refCount[t]) == 1 && !close.Answered? ==> delayedClose == old(delayedClose) + [old(handleID[t])]
      ensures Now() == old(Now()).After(Release(t, close))
    {
      ghost var h := handleID[t];
      assert Now().Places(h) == if h < numOpened then 1 else 0;
      refCount := refCount[t := refCount[t] - 1];
      forall x: nat ensures Now().Places(x) == if x < numOpened && !(refCount[t] == 0 && x == h) then 1 else 0 {
        assert old(Now()).Places(x) == if x < numOpened then 1 else 0;
      }
      if refCount[t] == 0 {
        CloseWithAsyncRetry(handleID[t], close);
      }
    }

    /** Whether any handle is open; if not, the pattern may be marked for replacement. */
    method GetIsFileOpen(setPatternToStale: bool) returns (open: bool)
      requires Valid()
      modifies this`patternStale
      ensures Valid() && open == AnyOpen()
      ensures patternStale == (old(patternStale) || (setPatternToStale && !open))
      ensures Now() == old(Now()).After(CheckOpen(setPatternToStale))
    {
      open := false;
      var i := 0;
      while i < NUM_SLOTS && !open
        invariant 0 <= i <= NUM_SLOTS
        invariant open ==> AnyOpen()
        invariant !open ==> forall k :: 0 <= k < i ==> refCount[k] == 0
        decreases NUM_SLOTS - i, !open
      {
        if refCount[i] > 0 {
          open := true;
        } else {
          i := i + 1;
        }
      }
      if setPatternToStale && !open {
        patternStale := true;
      }
      assert forall h: nat :: Now().Places(h) == old(Now()).Places(h);
    }

    /** The background retry of one queued close: only a communication error keeps it queued. */
    method RetryClose(k: nat, close: CloseResult)
      requires Valid() && k < |delayedClose|
      modifies this`delayedClose, this`answered, this`lost
      ensures Valid()
      ensures close.Communication? ==> delayedClose == old(delayedClose) && answered == old(answered) && lost == old(lost)
      ensures !close.Communication? ==> delayedClose == old(delayedClose[..k] + delayedClose[k + 1..])
      ensures close.Answered? ==> answered == old(answered) + {old(delayedClose[k])} && lost == old(lost)
      ensures close.Interrupted? ==> lost == old(lost) + {old(delayedClose[k])} && answered == old(answered)
      ensures Now() == old(Now()).After(Retry(k, close))
    {
      if close.Communication? {
        return;
      }
      ghost var q := delayedClose;
      var h := delayedClose[k];
      CountRemove(q, k, h);
      assert Now().Places(h) == if h < numOpened then 1 else 0;
      delayedClose := delayedClose[..k] + delayedClose[k + 1..];
      if close.Answered? {
        answered := answered + {h};
      } else {
        lost := lost + {h};
      }
      forall x: nat ensures Now().Places(x) == if x < numOpened then 1 else 0 {
        assert old(Now()).Places(x) == if x < numOpened then 1 else 0;
        CountRemove(q, k, x);
      }
    }
  }

  /** A retried close is interrupted: its handle is taken off the queue without an answer. */
  predicate Drops(x: State, e: Event) {
    x.Shaped() && x.Enabled(e) && e.Retry? && e.close.Interrupted?
  }

  method Step(t: Table, e: Event)
    requires t.Valid() && t.Now().Enabled(e)
    modifies t
    ensures t.Valid() && t.Now() == old(t.Now()).After(e) && (old(t.Now().Fitting()) ==> t.Now().Fitting())
    ensures old(t.AnyOpen()) ==> t.pattern == old(t.pattern)
    ensures old(t.lost) <= t.lost && (t.lost == old(t.lost) <==> !Drops(old(t.Now()), e))
  {
    if t.Now().Fitting() {
      FittingIsKept(t.Now(), e);
    }
    match e
    case Reference(access, allowRWHandle, preErr, open) =>
      var _, _ := t.ReferenceHandle(access, allowRWHandle, preErr, open);
    case Release(slot, close) => t.ReleaseHandle(slot, close);
    case CheckOpen(setPatternToStale) => var _ := t.GetIsFileOpen(setPatternToStale);
    case Retry(index, close) =>
      ghost var h := t.delayedClose[index];
      CountRemove(t.delayedClose, index, h);
      assert t.Now().Places(h) == 1;
      t.RetryClose(index, close);
      assert close.Interrupted? ==> h in t.lost;
  }

  lemma OpenFits(x: State, access: Access, open: OpenResult)
    requires x.Fitting()
    ensures x.AfterOpen(access, open).Fitting()
  {
    var y := x.AfterOpen(access, open);
    assert open.OpenFailed? || y.openedFor == x.openedFor + [access];
    assert forall h :: 0 <= h < |x.openedFor| ==> y.openedFor[h] == x.openedFor[h];
  }

  /** Every event leaves in each slot a handle that was opened for the slot's own kind of access. */
  lemma FittingIsKept(x: State, e: Event)
    requires x.Fitting()
    ensures x.After(e).Fitting()
  {
    match e
    case Reference(access, _, _, open) => OpenFits(x, access, open);
    case _ =>
  }

  /** The slot of the handle that a reference gets. */
  function SlotOf(x: State, access: Access, allowRWHandle: bool): nat
    requires x.Shaped()
  {
    var slot := x.Shared(access, allowRWHandle);
    if slot.Some? then slot.value else HandleType(access)
  }

  /**
   * A reference that succeeds gets a handle that may be used for the access it asked for: a reference for writing
   * never shares a handle that was opened for reading, nor the other way round.
   */
  lemma ReferencePermits(x: State, access: Access, allowRWHandle: bool, preErr: nat, open: OpenResult)
    requires x.Fitting() && x.Enabled(Reference(access, allowRWHandle, preErr, open))
    requires x.Told(access, allowRWHandle, preErr, open) == SUCCESS
    ensures var y, t := x.After(Reference(access, allowRWHandle, preErr, open)), SlotOf(x, access, allowRWHandle);
            && y.refCount[t] == x.refCount[t] + 1
            && y.handleID[t] < |y.openedFor| && Permits(y.openedFor[y.handleID[t]], access)
            && (x.refCount[t] > 0 ==> y.handleID == x.handleID && y.numOpened == x.numOpened)
  {
  }

  /** What an event does to a sound table. */
  ghost predicate Goes(x: State, e: Event, y: State) {
    && x.Sound() && y.Sound() && y == x.After(e) && (x.Fitting() ==> y.Fitting())
    && (x.AnyOpen() ==> y.pattern == x.pattern)
    && x.lost <= y.lost && (y.lost == x.lost <==> !Drops(x, e))
  }

  /** The states that events lead through, one after the other. */
  ghost predicate IsTrace(points: seq<State>, events: seq<Event>) {
    |points| == |events| + 1 && forall i :: 0 <= i < |events| ==> Goes(points[i], events[i], points[i + 1])
  }

  lemma TraceNext(points: seq<State>, events: seq<Event>, e: Event, y: State)
    requires IsTrace(points, events) && Goes(points[|events|], e, y)
    ensures IsTrace(points + [y], events + [e])
  {
  }

  /** From a new table on, every slot holds a handle of its own kind in every state. */
  lemma {:induction false} TraceFits(points: seq<State>, events: seq<Event>, i: nat)
    requires IsTrace(points, events) && points[0].Fitting() && i < |points|
    ensures points[i].Fitting()
  {
    if i > 0 {
      TraceFits(points, events, i - 1);
      assert Goes(points[i - 1], events[i - 1], points[i]);
    }
  }

  /** Whether some handle is dropped on the way. */
  ghost predicate SomeDropped(points: seq<State>, events: seq<Event>)
    requires IsTrace(points, events)
  {
    exists i :: 0 <= i < |events| && Drops(points[i], events[i])
  }

  lemma {:induction false} LostExactly(points: seq<State>, events: seq<Event>)
    requires IsTrace(points, events)
    ensures points[0].lost <= points[|events|].lost
    ensures points[|events|].lost == points[0].lost <==> !SomeDropped(points, events)
    decreases |events|
  {
    if events != [] {
      var n := |events| - 1;
      var ps, es := points[..n + 1], events[..n];
      assert IsTrace(ps, es);
      LostExactly(ps, es);
      assert Goes(points[n], events[n], points[n + 1]);
      if i :| 0 <= i < |es| && Drops(ps[i], es[i]) {
        assert Drops(points[i], events[i]);
      }
      if i :| 0 <= i < |events| && Drops(points[i], events[i]) {
        assert i < n ==> Drops(ps[i], es[i]);
      }
    }
  }

  /**
   * Over any run no handle is leaked or closed twice: in every state each is open in one slot, answered, queued,
   * or was dropped by an interrupted retry. Some is dropped exactly if an interrupted retry happens, and no
   * event replaces the pattern while a handle is open.
   */
  method Run(t: Table, events: seq<Event>) returns (ghost points: seq<State>)
    requires t.Valid()
    modifies t
    ensures t.Valid() && IsTrace(points, events)
    ensures points[0] == old(t.Now()) && points[|events|] == t.Now()
    ensures t.lost == old(t.lost) <==> !SomeDropped(points, events)
  {
    points := [t.Now()];
    for i := 0 to |events|
      invariant t.Valid() && IsTrace(points, events[..i])
      invariant points[0] == old(t.Now()) && points[i] == t.Now()
    {
      assert events[..i + 1] == events[..i] + [events[i]];
      if t.Now().Enabled(events[i]) {
        Step(t, events[i]);
      }
      TraceNext(points, events[..i], events[i], t.Now());
      points := points + [t.Now()];
    }
    assert events[..|events|] == events;
    LostExactly(points, events);
  }
}
