/** The counter on which a write-back waits for the batches it submitted. */
module Barrier {

  /** A batch finished, or the submitter started to wait for all `n` of them. */
  datatype Event = Done | Wait

  /** The counter after some events: finished batches count up, waiting subtracts the number submitted. */
  function Count(events: seq<Event>, n: nat): int {
    if events == [] then 0
    else Count(events[..|events| - 1], n) + if events[|events| - 1].Done? then 1 else 0 - n
  }

  /** The `i`-th event brings the counter to zero, which wakes the waiter. */
  predicate Fires(events: seq<Event>, n: nat, i: nat)
    requires i < |events|
  {
    Count(events[..i + 1], n) == 0
  }

  lemma TimesNext(n: nat, k: nat)
    ensures n * (k + 1) == n * k + n
  {
  }

  lemma {:induction false} CountMeaning(events: seq<Event>, n: nat)
    ensures Count(events, n) == multiset(events)[Done] - n * multiset(events)[Wait]
    ensures |events| == multiset(events)[Done] + multiset(events)[Wait]
  {
    if events != [] {
      var front, last := events[..|events| - 1], events[|events| - 1];
      assert events == front + [last];
      assert multiset(events) == multiset(front) + multiset{last};
      CountMeaning(front, n);
      TimesNext(n, multiset(front)[Wait]);
    }
  }

  /**
   * However the `n` completions interleave with the start of the wait, the waiter is woken exactly once,
   * by the last event: not before every submitted batch is done, and not before it waits.
   */
  lemma WakesOnceAtTheEnd(events: seq<Event>, n: nat, i: nat)
    requires n > 0 && multiset(events)[Done] == n && multiset(events)[Wait] == 1 && i < |events|
    ensures Fires(events, n, i) <==> i == |events| - 1
  {
    var front, rest := events[..i + 1], events[i + 1..];
    assert events == front + rest;
    CountMeaning(front, n);
    CountMeaning(rest, n);
    if multiset(front)[Wait] == 0 {
      assert n * 0 == 0;
    } else {
      assert multiset(front)[Wait] == 1 && n * 1 == n;
    }
  }
}
