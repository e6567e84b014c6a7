/**
 * The rule against shrinking a file's size with an outdated answer from the servers, while pages that
 * extended the file are still on their way. Time is the jiffies clock, taken not to wrap around.
 */
module SizeGuard {
  import opened FileBytes

  type Page = nat

  /** What a stat request remembers from before it was sent. */
  datatype Hints =
    | NoHints
    | Hints(fromInode: bool, ignoreIsize: bool, timeBeforeRemoteStat: nat)

  /** A stat request; `answer` is the size the servers returned, -1 before that. */
  datatype Stat = Stat(hints: Hints, answer: int, stale: bool)

  /**
   * `extending` are the pages whose writes raised the size and whose bytes the servers do not have yet;
   * `stale` marks answers given while there was such a page.
   */
  datatype State = State(
    isize: nat,
    serverSize: nat,
    pageWriteFlag: bool,
    noIsizeDecrease: bool,
    writeBackCounter: nat,
    lastTime: nat,
    now: nat,
    dirty: map<Page, nat>,      // dirty pages and the end of what was written to them
    writeback: map<Page, nat>,  // the same for pages being sent
    extending: set<Page>,
    stats: map<nat, Stat>)
  {
    predicate Busy() { writeBackCounter > 0 || dirty != map[] || writeback != map[] }
  }

  function Init(size: nat): State {
    State(size, size, false, false, 0, 0, 0, map[], map[], {}, map[])
  }

  datatype Step =
    | Tick
    | WriteEnd(p: Page, end: nat)
    | BeginWriteBack
    | SendPage(p: Page)
    | PageStored(p: Page)
    | PageRedirtied(p: Page)
    | PageFailed(p: Page)
    | EndWriteBack
    | UnsetNoIsizeDecrease
    | BeginStat(id: nat, hints: HintKind)
    | ServeStat(id: nat, size: nat)
    | ApplyStat(id: nat)

  datatype HintKind = WithoutHints | FromInode | WithoutInode

  predicate Enabled(s: State, step: Step) {
    match step
    case WriteEnd(p, end) => p !in s.writeback && end > 0
    case SendPage(p) => p in s.dirty && p !in s.writeback
    case PageStored(p) => p in s.writeback
    case PageRedirtied(p) => p in s.writeback
    case PageFailed(p) => p in s.writeback
    case EndWriteBack => s.writeBackCounter > 0
    case BeginStat(id, _) => id !in s.stats
    case ServeStat(id, _) => id in s.stats && s.stats[id].answer == -1
    case ApplyStat(id) => id in s.stats && s.stats[id].answer >= 0
    case _ => true
  }

  /** Taking a stat answer over into the inode. */
  function Applied(s: State, stat: Stat): State
    requires stat.answer >= 0
  {
    if s.pageWriteFlag && s.isize > stat.answer then
      if s.noIsizeDecrease then s
      else if s.writeBackCounter > 0 then s
      else if stat.hints.Hints? && stat.hints.ignoreIsize then s
      else if stat.hints.Hints? && s.lastTime >= stat.hints.timeBeforeRemoteStat then s
      else s.(isize := stat.answer)
    else s.(isize := stat.answer)
  }

  function MakeHints(s: State, kind: HintKind): Hints {
    match kind
    case WithoutHints => NoHints
    case FromInode => Hints(true, s.Busy(), s.now)
    case WithoutInode => Hints(false, false, s.now)
  }

  function Next(s: State, step: Step): State
    requires Enabled(s, step)
  {
    match step
    case Tick => s.(now := s.now + 1)
    case WriteEnd(p, end) =>
      var t := s.(dirty := s.dirty[p := Max(end, if p in s.dirty then s.dirty[p] else 0)]);
      if s.isize < end then
        t.(isize := end, pageWriteFlag := true, lastTime := s.now, noIsizeDecrease := true, extending := s.extending + {p})
      else t
    case BeginWriteBack => s.(writeBackCounter := s.writeBackCounter + 1)
    case SendPage(p) => s.(dirty := s.dirty - {p}, writeback := s.writeback[p := s.dirty[p]])
    case PageStored(p) =>
      s.(writeback := s.writeback - {p}, extending := s.extending - {p}, serverSize := Max(s.serverSize, s.writeback[p]))
    case PageRedirtied(p) =>
      s.(writeback := s.writeback - {p}, dirty := s.dirty[p := Max(s.writeback[p], if p in s.dirty then s.dirty[p] else 0)])
    case PageFailed(p) => s.(writeback := s.writeback - {p}, extending := s.extending - {p})
    case EndWriteBack => s.(writeBackCounter := s.writeBackCounter - 1)
    case UnsetNoIsizeDecrease => if s.Busy() then s else s.(noIsizeDecrease := false)
    case BeginStat(id, kind) => s.(stats := s.stats[id := Stat(MakeHints(s, kind), -1, false)])
    case ServeStat(id, size) => s.(stats := s.stats[id := s.stats[id].(answer := size, stale := s.extending != {})])
    case ApplyStat(id) => Applied(s, s.stats[id])
  }

  /**
   * Exactly when taking over an answer lowers the size. Then the size becomes the answer, as it does for every
   * answer that is not lower; otherwise it stays. Nothing else changes.
   */
  lemma AppliedLowersIff(s: State, stat: Stat)
    requires stat.answer >= 0
    ensures stat.answer >= s.isize ==> Applied(s, stat).isize == stat.answer
    ensures stat.answer < s.isize ==> Applied(s, stat).isize == s.isize || Applied(s, stat).isize == stat.answer
    ensures Applied(s, stat).(isize := s.isize) == s
    ensures Applied(s, stat).isize < s.isize <==>
            && stat.answer < s.isize
            && (s.pageWriteFlag ==>
                  && !s.noIsizeDecrease && s.writeBackCounter == 0
                  && (stat.hints.Hints? ==> !stat.hints.ignoreIsize && s.lastTime < stat.hints.timeBeforeRemoteStat))
  {
  }

  /** A stat that is sent, answered and applied with nothing else in between. */
  function StatAtOnce(s: State, id: nat, kind: HintKind, size: nat): State
    requires Enabled(s, BeginStat(id, kind))
  {
    Next(Next(Next(s, BeginStat(id, kind)), ServeStat(id, size)), ApplyStat(id))
  }

  /**
   * With no page dirty or being sent, and once the flag is cleared, a file that another client has cut is seen
   * to be shorter: the answer to the next stat is taken over, if only the clock has moved on since this client's
   * last write that raised the size.
   */
  lemma QuietStatExactly(s: State, id: nat, size: nat)
    requires !s.Busy() && id !in s.stats
    ensures var t := Next(s, UnsetNoIsizeDecrease);
            StatAtOnce(t, id, FromInode, size).isize == size <==> size >= s.isize || !s.pageWriteFlag || s.lastTime < s.now
  {
  }

  /** While a page is dirty or being sent, no stat with hints from the inode lowers the size of a file written here. */
  lemma BusyStatExactly(s: State, id: nat, size: nat)
    requires s.Busy() && id !in s.stats
    ensures StatAtOnce(s, id, FromInode, size).isize == if s.pageWriteFlag && size < s.isize then s.isize else size
  {
  }

  /** Without hints, only the flag and open write-back rounds protect a file written here. */
  lemma UnhintedStatExactly(s: State, id: nat, size: nat)
    requires id !in s.stats
    ensures StatAtOnce(s, id, WithoutHints, size).isize ==
            if size < s.isize && s.pageWriteFlag && (s.noIsizeDecrease || s.writeBackCounter > 0) then s.isize else size
  {
  }

  /**
   * A write to a page that is not being sent raises the size to its end, if that lies behind, and only then
   * arms the protection; the page is dirty up to the furthest end written.
   */
  lemma WriteEndExactly(s: State, p: Page, end: nat)
    requires p !in s.writeback && end > 0
    ensures Enabled(s, WriteEnd(p, end))
    ensures var t := Next(s, WriteEnd(p, end));
            && t.isize == Max(s.isize, end)
            && (end <= s.isize ==> t == s.(dirty := t.dirty))
            && (end > s.isize ==> t.pageWriteFlag && t.noIsizeDecrease && t.lastTime == s.now && p in t.extending)
            && p in t.dirty && t.dirty[p] >= end && (t.dirty[p] == end || (p in s.dirty && t.dirty[p] == s.dirty[p]))
            && t.dirty.Keys == s.dirty.Keys + {p} && forall q :: q in s.dirty && q != p ==> t.dirty[q] == s.dirty[q]
  {
  }

  predicate Unwritten(s: State, p: Page) { p in s.dirty || p in s.writeback }

  /** A page is waiting to be stored from a write to it until it is stored or its write-back fails for good. */
  lemma UnwrittenExactly(s: State, step: Step, p: Page)
    requires Enabled(s, step)
    ensures Unwritten(Next(s, step), p) <==>
            || (step.WriteEnd? && step.p == p)
            || (Unwritten(s, p) && !((step == PageStored(p) || step == PageFailed(p)) && p !in s.dirty))
  {
  }

  /** The flag that forbids shrinking is cleared exactly when no page is dirty or being sent. */
  lemma UnsetExactly(s: State)
    ensures Next(s, UnsetNoIsizeDecrease) ==
            s.(noIsizeDecrease := s.noIsizeDecrease && (s.writeBackCounter > 0 || s.dirty.Keys + s.writeback.Keys != {}))
  {
  }

  /** Hints from the inode cover every page that extended the file and is not stored yet. */
  predicate Covered(s: State, stat: Stat) {
    stat.hints.Hints? && stat.hints.fromInode ==>
      || stat.hints.ignoreIsize
      || s.lastTime >= stat.hints.timeBeforeRemoteStat
      || (s.extending == {} && !stat.stale)
  }

  ghost predicate Inv(s: State) {
    && s.lastTime <= s.now
    && (forall p :: p in s.extending ==> p in s.dirty || p in s.writeback)
    && (s.extending != {} ==> s.noIsizeDecrease && s.pageWriteFlag)
    && (forall id :: id in s.stats ==>
          && Covered(s, s.stats[id]) && (s.stats[id].stale ==> s.pageWriteFlag && s.stats[id].answer >= 0)
          && (s.stats[id].hints.Hints? ==> s.stats[id].hints.timeBeforeRemoteStat <= s.now))
  }

  lemma StepKeepsInv(s: State, step: Step)
    requires Inv(s) && Enabled(s, step)
    ensures Inv(Next(s, step))
  {
    var t := Next(s, step);
    assert s.extending != {} ==> exists p :: p in s.extending;
    forall id | id in t.stats
      ensures Covered(t, t.stats[id])
    {
      assert id in s.stats ==> Covered(s, s.stats[id]);
    }
  }

  /** No answer lowers the size while a page that extended the file is dirty or being sent. */
  lemma NoShrinkWhileExtending(s: State, stat: Stat)
    requires Inv(s) && stat.answer >= 0 && s.extending != {}
    ensures Applied(s, stat).isize >= s.isize
  {
  }

  ghost predicate IsRun(states: seq<State>, steps: seq<Step>, size: nat) {
    && |states| == |steps| + 1 && states[0] == Init(size)
    && forall k :: 0 <= k < |steps| ==> Enabled(states[k], steps[k]) && states[k + 1] == Next(states[k], steps[k])
  }

  lemma {:induction false} RunKeepsInv(states: seq<State>, steps: seq<Step>, size: nat, k: nat)
    requires IsRun(states, steps, size) && k < |states|
    ensures Inv(states[k])
    decreases k
  {
    if k > 0 {
      RunKeepsInv(states, steps, size, k - 1);
      StepKeepsInv(states[k - 1], steps[k - 1]);
    }
  }

  /** As long as this client has not raised the size itself, every answer is taken over. */
  lemma {:induction false} FollowsServersUntilWritten(states: seq<State>, steps: seq<Step>, size: nat, k: nat)
    requires IsRun(states, steps, size) && k < |states| && forall j :: 0 <= j < k ==> !steps[j].WriteEnd?
    ensures !states[k].pageWriteFlag && !states[k].noIsizeDecrease
    ensures k > 0 && steps[k - 1].ApplyStat? ==> states[k].isize == states[k - 1].stats[steps[k - 1].id].answer
    decreases k
  {
    if k > 0 {
      FollowsServersUntilWritten(states, steps, size, k - 1);
      assert states[k] == Next(states[k - 1], steps[k - 1]);
    }
  }

  /** The write-back rounds that a sequence of steps leaves open. */
  function OpenRounds(steps: seq<Step>): int {
    if steps == [] then 0
    else
      var last := steps[|steps| - 1];
      OpenRounds(steps[..|steps| - 1]) + if last.BeginWriteBack? then 1 else if last.EndWriteBack? then -1 else 0
  }

  /** The counter is the number of open rounds: overlapping rounds are told apart. */
  lemma {:induction false} CounterCountsRounds(states: seq<State>, steps: seq<Step>, size: nat, k: nat)
    requires IsRun(states, steps, size) && k < |states|
    ensures states[k].writeBackCounter == OpenRounds(steps[..k])
    decreases k
  {
    if k > 0 {
      CounterCountsRounds(states, steps, size, k - 1);
      assert steps[..k][..k - 1] == steps[..k - 1];
      assert states[k] == Next(states[k - 1], steps[k - 1]);
    }
  }

  /** No answer lowers the size of a file written here while a write-back round is open. */
  lemma NoShrinkDuringWriteBack(states: seq<State>, steps: seq<Step>, size: nat, k: nat)
    requires IsRun(states, steps, size) && k < |steps| && steps[k].ApplyStat?
    requires OpenRounds(steps[..k]) > 0 && states[k].pageWriteFlag
    ensures states[k + 1].isize >= states[k].isize
  {
    CounterCountsRounds(states, steps, size, k);
  }

  /**
   * In every run an answer does not lower the size when it is applied while a page that extended the file
   * is dirty or being sent, nor when it was given while there was such a page and its hints came from the
   * inode, however late it is applied.
   */
  lemma StaleAnswersNeverShrink(states: seq<State>, steps: seq<Step>, size: nat, k: nat, id: nat)
    requires IsRun(states, steps, size) && k < |steps| && steps[k] == ApplyStat(id)
    requires var stat := states[k].stats[id];
             states[k].extending != {} || (stat.stale && stat.hints.Hints? && stat.hints.fromInode)
    ensures states[k + 1].isize >= states[k].isize
  {
    RunKeepsInv(states, steps, size, k);
    assert Covered(states[k], states[k].stats[id]);
  }

  /** One client, no lost page, every stat with hints from the inode and answered with the servers' size. */
  predicate Alone(s: State, step: Step) {
    && !step.PageFailed?
    && (step.BeginStat? ==> step.hints == FromInode)
    && (step.ServeStat? ==> step.size == s.serverSize)
  }

  /** The end of what was written to a page that is dirty or being sent. */
  function EndOf(s: State, p: Page): nat {
    if p in s.writeback then s.writeback[p] else if p in s.dirty then s.dirty[p] else 0
  }

  /** An answer is the current size or will be ignored. */
  predicate Fresh(s: State, stat: Stat) {
    && stat.hints.Hints? && stat.hints.fromInode && stat.answer <= s.isize
    && (stat.answer >= 0 && stat.answer != s.isize ==>
          s.pageWriteFlag && (stat.hints.ignoreIsize || s.lastTime >= stat.hints.timeBeforeRemoteStat))
  }

  /** The page whose write set the current size is on its way, unless the servers have that size. */
  ghost predicate SizeOnItsWay(s: State) {
    s.serverSize == s.isize || exists p :: p in s.extending && EndOf(s, p) == s.isize
  }

  ghost predicate AloneInv(s: State) {
    && Inv(s) && s.serverSize <= s.isize && SizeOnItsWay(s)
    && (forall p :: p in s.writeback ==> p !in s.dirty)
    && (forall p :: EndOf(s, p) <= s.isize)
    && (forall id :: id in s.stats ==> Fresh(s, s.stats[id]))
  }

  lemma AloneStepSize(s: State, step: Step)
    requires AloneInv(s) && Enabled(s, step) && Alone(s, step)
    ensures var t := Next(s, step);
            && t.isize >= s.isize && t.serverSize <= t.isize && SizeOnItsWay(t)
            && (forall p :: p in t.writeback ==> p !in t.dirty)
            && (forall p :: EndOf(t, p) <= t.isize)
  {
    var t := Next(s, step);
    assert step.ApplyStat? ==> Fresh(s, s.stats[step.id]);
    forall p
      ensures EndOf(t, p) <= t.isize
    {
      assert EndOf(s, p) <= s.isize;
    }
    if step.WriteEnd? && s.isize < step.end {
      assert EndOf(s, step.p) <= s.isize;
      assert step.p in t.extending && EndOf(t, step.p) == t.isize;
    } else if step.PageStored? && EndOf(s, step.p) == s.isize {
      assert t.serverSize == t.isize;
    } else if s.serverSize != s.isize {
      var p :| p in s.extending && EndOf(s, p) == s.isize;
      assert !(step.PageStored? && step.p == p) ==> p in t.extending && EndOf(t, p) == t.isize;
    }
  }

  lemma AloneStep(s: State, step: Step)
    requires AloneInv(s) && Enabled(s, step) && Alone(s, step)
    ensures AloneInv(Next(s, step)) && Next(s, step).isize >= s.isize
  {
    var t := Next(s, step);
    StepKeepsInv(s, step);
    AloneStepSize(s, step);
    forall id | id in t.stats
      ensures Fresh(t, t.stats[id])
    {
      assert id in s.stats ==> Fresh(s, s.stats[id]) && Covered(s, s.stats[id]);
    }
  }

  /** With one client and no lost page the size never shrinks, whenever stats are sent, answered and applied. */
  lemma {:induction false} AloneNeverShrinks(states: seq<State>, steps: seq<Step>, size: nat, k: nat)
    requires IsRun(states, steps, size) && k < |states|
    requires forall j :: 0 <= j < |steps| ==> Alone(states[j], steps[j])
    ensures AloneInv(states[k])
    ensures k > 0 ==> states[k].isize >= states[k - 1].isize
    decreases k
  {
    if k > 0 {
      AloneNeverShrinks(states, steps, size, k - 1);
      AloneStep(states[k - 1], steps[k - 1]);
    }
  }

  ghost predicate Reachable(s: State, size: nat) {
    exists states, steps :: IsRun(states, steps, size) && states[|states| - 1] == s
  }

  lemma ReachNext(s: State, step: Step, size: nat) returns (t: State)
    requires Reachable(s, size) && Enabled(s, step)
    ensures t == Next(s, step) && Reachable(t, size)
  {
    t := Next(s, step);
    var states, steps :| IsRun(states, steps, size) && states[|states| - 1] == s;
    assert IsRun(states + [t], steps + [step], size);
  }

  /** A stat sent without looking at the inode, answered before the data arrives, applied after. */
  lemma ReachLookupAnswer() returns (s: State)
    ensures Reachable(s, 0) && s.isize == 10 && s.now == 1 && s.lastTime == 0 && s.pageWriteFlag && s.extending == {0}
    ensures s.dirty == map[0 := 10] && s.writeback == map[] && s.writeBackCounter == 0 && s.serverSize == 0
    ensures 7 in s.stats && s.stats[7] == Stat(Hints(false, false, 1), 0, true)
  {
    s := Init(0);
    assert IsRun([s], [], 0);
    s := ReachNext(s, WriteEnd(0, 10), 0);
    s := ReachNext(s, Tick, 0);
    s := ReachNext(s, BeginStat(7, WithoutInode), 0);
    s := ReachNext(s, ServeStat(7, 0), 0);
  }

  /** Applying this answer, which has hints, cuts a file that the servers have completely. */
  predicate CutsStoredFile(s: State, id: nat) {
    && Enabled(s, ApplyStat(id)) && s.stats[id].hints.Hints?
    && Next(s, ApplyStat(id)).isize < s.isize == s.serverSize
  }

  /**
   * Hints made without the inode, as lookups make them, do not protect the size: once the page is stored
   * and the flag is cleared, the old answer cuts the file although the servers already have all of it.
   */
  lemma LookupHintsDoNotProtect()
    ensures exists s :: Reachable(s, 0) && CutsStoredFile(s, 7)
  {
    var s := ReachLookupAnswer();
    s := ReachNext(s, SendPage(0), 0);
    s := ReachNext(s, PageStored(0), 0);
    s := ReachNext(s, UnsetNoIsizeDecrease, 0);
    assert CutsStoredFile(s, 7);
  }
}
