/**
 * The registry of invalidation reader threads: the list of active entries, the list of stopped ones that
 * still have to be joined, and the joining of all of them at shutdown. Each method is one stretch of code
 * under the registry's mutex; what other threads do in between is an `Event`.
 */
module ThreadRegistry {
  import opened Counting

  /** A reader thread's entry; `id` tells apart successive entries of one server. */
  datatype Entry = Entry(id: nat, metaID: nat)

  datatype Event =
    | TryStart(metaID: nat, fallback: bool, startOk: bool)
    | ThreadExits(k: nat)  // the k-th active thread reaches its end
    | Shutdown

  function Ids(es: seq<Entry>): seq<nat> { seq(|es|, i requires 0 <= i < |es| => es[i].id) }

  lemma CountIds(a: seq<Entry>, b: seq<Entry>, id: nat)
    ensures Count(Ids(a + b), id) == Count(Ids(a), id) + Count(Ids(b), id)
  {
    assert Ids(a + b) == Ids(a) + Ids(b);
    CountConcat(Ids(a), Ids(b), id);
  }

  function Without(es: seq<Entry>, k: nat): seq<Entry>
    requires k < |es|
  {
    es[..k] + es[k + 1..]
  }

  /** Moving an entry to the end of another list changes no total. */
  lemma CountMove(from: seq<Entry>, k: nat, to: seq<Entry>, id: nat)
    requires k < |from|
    ensures Count(Ids(Without(from, k)), id) + Count(Ids(to + [from[k]]), id) == Count(Ids(from), id) + Count(Ids(to), id)
  {
    var e := [from[k]];
    assert from == from[..k] + (e + from[k + 1..]);
    CountIds(from[..k], e + from[k + 1..], id);
    CountIds(e, from[k + 1..], id);
    CountIds(from[..k], from[k + 1..], id);
    CountIds(to, e, id);
  }

  /** In how many places the entry with this id is. */
  function Copies(active: seq<Entry>, stopped: seq<Entry>, freed: seq<Entry>, id: nat): nat {
    Count(Ids(active), id) + Count(Ids(stopped), id) + Count(Ids(freed), id)
  }

  /** Each of the `n` entries registered so far is active, stopped or freed: in exactly one of these, once. */
  ghost predicate Conserved(active: seq<Entry>, stopped: seq<Entry>, freed: seq<Entry>, n: nat) {
    forall id: nat :: Copies(active, stopped, freed, id) == if id < n then 1 else 0
  }

  lemma RegisterConserves(active: seq<Entry>, stopped: seq<Entry>, freed: seq<Entry>, n: nat, e: Entry)
    requires Conserved(active, stopped, freed, n) && e.id == n
    ensures Conserved([e] + active, stopped, freed, n + 1)
  {
    forall id: nat
      ensures Copies([e] + active, stopped, freed, id) == if id < n + 1 then 1 else 0
    {
      assert Copies(active, stopped, freed, id) == if id < n then 1 else 0;
      CountIds([e], active, id);
      assert Ids([e]) == [n];
    }
  }

  lemma StopConserves(active: seq<Entry>, stopped: seq<Entry>, freed: seq<Entry>, n: nat, k: nat)
    requires Conserved(active, stopped, freed, n) && k < |active|
    ensures Conserved(Without(active, k), stopped + [active[k]], freed, n)
  {
    forall id: nat
      ensures Copies(Without(active, k), stopped + [active[k]], freed, id) == if id < n then 1 else 0
    {
      assert Copies(active, stopped, freed, id) == if id < n then 1 else 0;
      CountMove(active, k, stopped, id);
    }
  }

  lemma FreeConserves(active: seq<Entry>, stopped: seq<Entry>, freed: seq<Entry>, n: nat)
    requires Conserved(active, stopped, freed, n) && stopped != []
    ensures Conserved(active, stopped[1..], freed + [stopped[0]], n)
  {
    assert Without(stopped, 0) == stopped[1..];
    forall id: nat
      ensures Copies(active, stopped[1..], freed + [stopped[0]], id) == if id < n then 1 else 0
    {
      assert Copies(active, stopped, freed, id) == if id < n then 1 else 0;
      CountMove(stopped, 0, freed, id);
    }
  }

  /** The registry's lists as a value. */
  datatype Lists = Lists(active: seq<Entry>, stopped: seq<Entry>, nextId: nat, shuttingDown: bool) {
    predicate Has(metaID: nat) { exists k :: 0 <= k < |active| && active[k].metaID == metaID }

    /** What one event does. */
    function After(e: Event): Lists {
      match e
      case TryStart(metaID, fallback, startOk) =>
        if Has(metaID) || shuttingDown || fallback || !startOk then this
        else this.(active := [Entry(nextId, metaID)] + active, nextId := nextId + 1)
      case ThreadExits(k) =>
        if k < |active| then this.(active := Without(active, k), stopped := stopped + [active[k]]) else this
      case Shutdown => this.(shuttingDown := true)
    }

    function AfterAll(window: seq<Event>): Lists
      decreases |window|
    {
      if window == [] then this else AfterAll(window[..|window| - 1]).After(window[|window| - 1])
    }

    /** The first stopped entry is joined while the events of a window happen. */
    function Joined(window: seq<Event>): Lists
      requires stopped != []
    {
      this.(stopped := stopped[1..]).AfterAll(window)
    }

    /** Whether waiting for all threads comes to an end within these windows. */
    predicate Ends(windows: seq<seq<Event>>)
      decreases |windows|, |stopped|
    {
      if stopped != [] then
        if windows == [] then Joined([]).Ends([]) else Joined(windows[0]).Ends(windows[1..])
      else if windows == [] then active == []
      else
        var later, rest := AfterAll(windows[0]), windows[1..];
        if later.active == [] then true
        else if rest == [] then false
        else later.AfterAll(rest[0]).Ends(rest[1..])
    }
  }

  /** A window in which the first active thread, if there is any, ends. */
  const ONE_EXIT: seq<Event> := [ThreadExits(0)]

  lemma OneExit(l: Lists)
    ensures l.AfterAll(ONE_EXIT) == l.After(ThreadExits(0))
    ensures l.active != [] ==> |l.AfterAll(ONE_EXIT).active| == |l.active| - 1
    ensures l.active == [] ==> l.AfterAll(ONE_EXIT) == l
  {
    assert ONE_EXIT[..0] == [];
    assert l.AfterAll([]) == l;
  }

  /** If a thread ends in each window and there are enough windows for all threads, the waiting ends. */
  lemma {:induction false} ExitsEndTheWait(l: Lists, windows: seq<seq<Event>>)
    requires |windows| >= |l.active| && forall i :: 0 <= i < |windows| ==> windows[i] == ONE_EXIT
    ensures l.Ends(windows)
    decreases |windows|, |l.stopped|
  {
    var m := l.(stopped := if l.stopped == [] then [] else l.stopped[1..]);
    OneExit(m);
    if l.stopped != [] {
      if windows == [] {
        ExitsEndTheWait(l.Joined([]), []);
      } else {
        ExitsEndTheWait(l.Joined(windows[0]), windows[1..]);
      }
    } else if windows != [] {
      var later, rest := l.AfterAll(windows[0]), windows[1..];
      if later.active != [] && rest != [] {
        OneExit(later);
        ExitsEndTheWait(later.AfterAll(rest[0]), rest[1..]);
      }
    }
  }

  class Registry {
    var metaThreads: seq<Entry>
    var stoppedThreads: seq<Entry>
    var numMetas: nat
    var shuttingDown: bool

    /** The entry taken off the stopped list whose thread is being joined right now, if any. */
    var joining: seq<Entry>

    /** Ids given out so far, and the entries freed so far. */
    var nextId: nat
    var freed: seq<Entry>

    ghost predicate Valid() reads this {
      && numMetas == |metaThreads|
      && (forall i, j :: 0 <= i < j < |metaThreads| ==> metaThreads[i].metaID != metaThreads[j].metaID)
      && Conserved(metaThreads, joining + stoppedThreads, freed, nextId)
    }

    function Now(): Lists reads this { Lists(metaThreads, stoppedThreads, nextId, shuttingDown) }

    constructor ()
      ensures Valid() && metaThreads == [] && stoppedThreads == [] && joining == [] && !shuttingDown && freed == []
    {
      metaThreads, stoppedThreads, numMetas, shuttingDown := [], [], 0, false;
      joining, nextId, freed := [], 0, [];
    }

    /** The active entry for a server, if there is one. */
    predicate Active(metaID: nat) reads this {
      exists k :: 0 <= k < |metaThreads| && metaThreads[k].metaID == metaID
    }

    /** Register a new thread, unless one is active, the registry shuts down or the thread cannot start. */
    method StartMetaThread(metaID: nat, fallback: bool, startOk: bool)
      requires Valid()
      modifies this`metaThreads, this`numMetas, this`nextId
      ensures Valid()
      ensures old(Active(metaID)) || shuttingDown || fallback || !startOk ==>
                metaThreads == old(metaThreads) && nextId == old(nextId)
      ensures !(old(Active(metaID)) || shuttingDown || fallback || !startOk) ==>
                metaThreads == [Entry(old(nextId), metaID)] + old(metaThreads) && nextId == old(nextId) + 1
    {
      if Active(metaID) || shuttingDown || fallback {
        return;
      }
      var e := Entry(nextId, metaID);
      ghost var was := metaThreads;
      metaThreads := [e] + metaThreads;
      numMetas := numMetas + 1;
      if !startOk {
        metaThreads := metaThreads[1..];
        if numMetas > 0 {
          numMetas := numMetas - 1;
        }
        assert metaThreads == was;
        return;
      }
      RegisterConserves(was, joining + stoppedThreads, freed, nextId, e);
      nextId := nextId + 1;
    }

    /** The k-th active thread ends: its entry moves to the stopped list. */
    method ThreadEnd(k: nat)
      requires Valid() && k < |metaThreads|
      modifies this`metaThreads, this`stoppedThreads, this`numMetas
      ensures Valid()
      ensures metaThreads == Without(old(metaThreads), k)
      ensures stoppedThreads == old(stoppedThreads) + [old(metaThreads[k])]
    {
      var e := metaThreads[k];
      StopConserves(metaThreads, joining + stoppedThreads, freed, nextId, k);
      metaThreads := Without(metaThreads, k);
      assert joining + (stoppedThreads + [e]) == (joining + stoppedThreads) + [e];
      stoppedThreads := stoppedThreads + [e];
      if numMetas > 0 {
        numMetas := numMetas - 1;
      }
    }

    method StopInvalReader()
      requires Valid()
      modifies this`shuttingDown
      ensures Valid() && shuttingDown
    {
      shuttingDown := true;
    }

    /** Something another thread does while the mutex is free. */
    method Interfere(e: Event)
      requires Valid()
      modifies this`metaThreads, this`stoppedThreads, this`numMetas, this`nextId, this`shuttingDown
      ensures Valid() && (old(shuttingDown) ==> shuttingDown)
      ensures old(shuttingDown) ==> |metaThreads| <= |old(metaThreads)| && nextId == old(nextId)
      ensures Now() == old(Now()).After(e)
    {
      match e
      case TryStart(metaID, fallback, startOk) => StartMetaThread(metaID, fallback, startOk);
      case ThreadExits(k) => if k < |metaThreads| { ThreadEnd(k); }
      case Shutdown => StopInvalReader();
    }

    /** Everything the others do while the mutex is free once. */
    method Unlocked(window: seq<Event>)
      requires Valid()
      modifies this`metaThreads, this`stoppedThreads, this`numMetas, this`nextId, this`shuttingDown
      ensures Valid() && (old(shuttingDown) ==> shuttingDown)
      ensures old(shuttingDown) ==> |metaThreads| <= |old(metaThreads)| && nextId == old(nextId)
      ensures window == [] ==> stoppedThreads == old(stoppedThreads) && metaThreads == old(metaThreads)
      ensures Now() == old(Now()).AfterAll(window)
    {
      for i := 0 to |window|
        invariant Valid() && (old(shuttingDown) ==> shuttingDown)
        invariant old(shuttingDown) ==> |metaThreads| <= |old(metaThreads)| && nextId == old(nextId)
        invariant i == 0 ==> stoppedThreads == old(stoppedThreads) && metaThreads == old(metaThreads)
        invariant Now() == old(Now()).AfterAll(window[..i])
      {
        assert window[..i + 1][..i] == window[..i];
        Interfere(window[i]);
      }
      assert window[..|window|] == window;
    }

    /**
     * Join and free the first stopped thread. Others may act while it is being joined, that is between
     * taking it off the list and freeing it.
     */
    method JoinFirst(window: seq<Event>)
      requires Valid() && joining == [] && stoppedThreads != []
      modifies this
      ensures Valid() && joining == [] && (old(shuttingDown) ==> shuttingDown)
      ensures old(shuttingDown) ==> |metaThreads| <= |old(metaThreads)| && nextId == old(nextId)
      ensures freed == old(freed) + [old(stoppedThreads[0])]
      ensures window == [] ==> stoppedThreads == old(stoppedThreads)[1..]
      ensures Now() == old(Now()).Joined(window)
    {
      var im := stoppedThreads[0];
      assert [im] + stoppedThreads[1..] == [] + stoppedThreads;
      joining, stoppedThreads := [im], stoppedThreads[1..];
      Unlocked(window);
      FreeConserves(metaThreads, joining + stoppedThreads, freed, nextId);
      assert (joining + stoppedThreads)[1..] == [] + stoppedThreads;
      joining, freed := [], freed + [im];
    }

    /** Join stopped threads until none is left. `windows` are the times the mutex is free, one per join. */
    method JoinStopped(windows: seq<seq<Event>>) returns (rest: seq<seq<Event>>)
      requires Valid() && joining == []
      modifies this
      ensures Valid() && joining == [] && stoppedThreads == [] && (old(shuttingDown) ==> shuttingDown)
      ensures old(shuttingDown) ==> |metaThreads| <= |old(metaThreads)| && nextId == old(nextId)
      ensures |rest| <= |windows| && Now().Ends(rest) == old(Now()).Ends(windows)
    {
      rest := windows;
      while stoppedThreads != []
        invariant Now().Ends(rest) == old(Now()).Ends(windows)
        invariant Valid() && joining == [] && |rest| <= |windows| && (old(shuttingDown) ==> shuttingDown)
        invariant old(shuttingDown) ==> |metaThreads| <= |old(metaThreads)| && nextId == old(nextId)
        decreases |rest|, |stoppedThreads|
      {
        if rest == [] {
          JoinFirst([]);
        } else {
          JoinFirst(rest[0]);
          rest := rest[1..];
        }
      }
    }

    /**
     * Wait until all threads are gone. The mutex is free between draining the stopped list and looking at
     * the number of threads, and while waiting; `windows` is what the others do in all these times, and
     * `done` is false if they run out before the last thread has ended. When it returns from a state that
     * was shutting down, both lists are empty and every entry ever registered has been freed exactly once.
     */
    method JoinAll(windows: seq<seq<Event>>) returns (done: bool)
      requires Valid() && joining == []
      modifies this
      ensures Valid()
      ensures done && old(shuttingDown) ==>
                metaThreads == [] && stoppedThreads == [] && joining == [] && Conserved([], [], freed, nextId)
      ensures !done ==> metaThreads != []
      ensures done == old(Now()).Ends(windows)
    {
      var rest := windows;
      done := false;
      while !done
        invariant Valid() && joining == [] && (old(shuttingDown) ==> shuttingDown)
        invariant done && old(shuttingDown) ==> metaThreads == []
        invariant if done then old(Now()).Ends(windows) else Now().Ends(rest) == old(Now()).Ends(windows)
        decreases |rest|, !done
      {
        rest := JoinStopped(rest);
        if rest != [] {
          Unlocked(rest[0]);
          rest := rest[1..];
        }
        if numMetas == 0 {
          done := true;
        } else if rest == [] {
          return false;
        } else {
          Unlocked(rest[0]);
          rest := rest[1..];
        }
      }
      var _ := JoinStopped(rest);
      assert joining + stoppedThreads == [];
    }
  }
}
