/** Queues that are retried in the background while other threads keep appending to them. */
module RetryQueue {
  import opened Counting

  datatype RemoteResult = Answered(code: int) | CommError

  /** One remote call of a pass: what others append meanwhile, and how the call ends. */
  datatype Round<T> = Round(appended: seq<T>, result: RemoteResult)

  function Appended<T>(rounds: seq<Round<T>>): seq<T> {
    if rounds == [] then [] else rounds[0].appended + Appended(rounds[1..])
  }

  lemma {:induction false} AppendedPush<T>(rounds: seq<Round<T>>, r: Round<T>)
    ensures Appended(rounds + [r]) == Appended(rounds) + r.appended
  {
    if rounds == [] {
      assert rounds + [r] == [r];
    } else {
      assert (rounds + [r])[1..] == rounds[1..] + [r];
      AppendedPush(rounds[1..], r);
    }
  }

  /** The visited entries that have to be tried again. */
  function Kept<T>(visited: seq<T>, rounds: seq<Round<T>>): (kept: seq<T>)
    requires |visited| == |rounds|
    ensures |kept| <= |visited|
  {
    if visited == [] then []
    else if rounds[0].result == CommError then [visited[0]] + Kept(visited[1..], rounds[1..])
    else Kept(visited[1..], rounds[1..])
  }

  lemma {:induction false} KeptPush<T>(visited: seq<T>, rounds: seq<Round<T>>, e: T, r: Round<T>)
    requires |visited| == |rounds|
    ensures Kept(visited + [e], rounds + [r]) == Kept(visited, rounds) + if r.result == CommError then [e] else []
    decreases |visited|
  {
    if visited == [] {
      assert visited + [e] == [e] && rounds + [r] == [r];
    } else {
      assert (visited + [e])[1..] == visited[1..] + [e];
      assert (rounds + [r])[1..] == rounds[1..] + [r];
      KeptPush(visited[1..], rounds[1..], e, r);
    }
  }

  /**
    * Where a pass over `arrived` entries may end after its calls: entries are taken in order of
    * arrival, late ones included, and only those without a communication error leave the queue.
    */
  ghost predicate PassEnds<T(!new)>(before: seq<T>, rounds: seq<Round<T>>, calls: nat, after: seq<T>) {
    && calls <= |rounds|
    && var arrived := before + Appended(rounds[..calls]);
       && calls <= |arrived|
       && after == Kept(arrived[..calls], rounds[..calls]) + arrived[calls..]
       && (calls == |rounds| || calls == |arrived|)
  }

  class DelayedQueue<T(!new)> {
    var queue: seq<T>

    constructor ()
      ensures queue == []
    {
      queue := [];
    }

    method Add(e: T)
      modifies this
      ensures queue == old(queue) + [e]
    {
      queue := queue + [e];
    }

    /** One pass; the thread is told to terminate when `rounds` are used up. */
    method RetryAll(rounds: seq<Round<T>>) returns (calls: nat)
      modifies this
      ensures PassEnds(old(queue), rounds, calls, queue)
    {
      var i := 0;
      calls := 0;
      ghost var arrived, kept, rest := queue, [], queue;
      Begin(queue, rounds);
      while i < |queue| && calls < |rounds|
        invariant Progress(old(queue), rounds, calls, arrived, kept, rest)
        invariant i == |kept| && queue == kept + rest
        decreases |rounds| - calls
      {
        var r := rounds[calls];
        Advance(old(queue), rounds, calls, arrived, kept, rest);
        i := Visit(i, r, kept, rest);
        kept := if r.result == CommError then kept + [rest[0]] else kept;
        rest := (rest + r.appended)[1..];
        arrived := arrived + r.appended;
        calls := calls + 1;
      }
      Finish(old(queue), rounds, calls, arrived, kept, rest);
    }

    /** The call for the entry at `i`: others append, then it is passed over or taken out. */
    method Visit(i: nat, r: Round<T>, ghost kept: seq<T>, ghost rest: seq<T>) returns (next: nat)
      requires queue == kept + rest && i == |kept| && rest != []
      modifies this
      ensures next == if r.result == CommError then |kept| + 1 else |kept|
      ensures queue == (if r.result == CommError then kept + [rest[0]] else kept) + (rest + r.appended)[1..]
    {
      queue := queue + r.appended;
      if r.result == CommError {
        next := i + 1;
      } else {
        queue := queue[..i] + queue[i + 1..];
        next := i;
      }
    }
  }

  /** In the middle of a pass: the entries arrived so far, those kept and those not yet visited. */
  ghost predicate Progress<T(!new)>(before: seq<T>, rounds: seq<Round<T>>, calls: nat,
                                    arrived: seq<T>, kept: seq<T>, rest: seq<T>)
  {
    && calls <= |rounds| && calls <= |arrived|
    && arrived == before + Appended(rounds[..calls])
    && kept == Kept(arrived[..calls], rounds[..calls])
    && rest == arrived[calls..]
  }

  lemma Begin<T(!new)>(before: seq<T>, rounds: seq<Round<T>>)
    ensures Progress(before, rounds, 0, before, [], before)
  {
    assert before + [] == before;
  }

  lemma Advance<T(!new)>(before: seq<T>, rounds: seq<Round<T>>, calls: nat,
                         arrived: seq<T>, kept: seq<T>, rest: seq<T>)
    requires Progress(before, rounds, calls, arrived, kept, rest) && calls < |rounds| && rest != []
    ensures var r := rounds[calls];
            Progress(before, rounds, calls + 1, arrived + r.appended,
                     if r.result == CommError then kept + [rest[0]] else kept, (rest + r.appended)[1..])
  {
    var r := rounds[calls];
    var more := arrived + r.appended;
    var done, e := arrived[..calls], rest[0];
    assert rounds[..calls + 1] == rounds[..calls] + [r];
    AppendedPush(rounds[..calls], r);
    assert more == before + (Appended(rounds[..calls]) + r.appended);
    assert arrived[calls] == e;
    assert more[..calls + 1] == done + [e];
    KeptPush(done, rounds[..calls], e, r);
    assert kept + [] == kept;
    assert more[calls + 1..] == (rest + r.appended)[1..];
  }

  lemma Finish<T(!new)>(before: seq<T>, rounds: seq<Round<T>>, calls: nat,
                        arrived: seq<T>, kept: seq<T>, rest: seq<T>)
    requires Progress(before, rounds, calls, arrived, kept, rest) && (calls == |rounds| || rest == [])
    ensures PassEnds(before, rounds, calls, kept + rest)
  {
  }

  /** The visited entries whose call was answered. */
  function Done<T>(visited: seq<T>, rounds: seq<Round<T>>): seq<T>
    requires |visited| == |rounds|
  {
    if visited == [] then []
    else if rounds[0].result.Answered? then [visited[0]] + Done(visited[1..], rounds[1..])
    else Done(visited[1..], rounds[1..])
  }

  lemma {:induction false} KeptOrDone<T>(visited: seq<T>, rounds: seq<Round<T>>, x: T)
    requires |visited| == |rounds|
    ensures Count(Kept(visited, rounds), x) + Count(Done(visited, rounds), x) == Count(visited, x)
    decreases |visited|
  {
    if visited != [] {
      KeptOrDone(visited[1..], rounds[1..], x);
      var one: seq<T> := [visited[0]];
      CountConcat(one, Kept(visited[1..], rounds[1..]), x);
      CountConcat(one, Done(visited[1..], rounds[1..]), x);
    }
  }

  /** A pass neither loses nor invents work: every entry is still queued or was answered, once. */
  lemma PassConserves<T(!new)>(before: seq<T>, rounds: seq<Round<T>>, calls: nat, after: seq<T>, x: T)
    requires PassEnds(before, rounds, calls, after)
    ensures var arrived := before + Appended(rounds[..calls]);
            Count(after, x) + Count(Done(arrived[..calls], rounds[..calls]), x) == Count(arrived, x)
  {
    var arrived := before + Appended(rounds[..calls]);
    var kept := Kept(arrived[..calls], rounds[..calls]);
    assert arrived == arrived[..calls] + arrived[calls..];
    CountConcat(kept, arrived[calls..], x);
    CountConcat(arrived[..calls], arrived[calls..], x);
    KeptOrDone(arrived[..calls], rounds[..calls], x);
  }

  lemma {:induction false} AllFail<T>(visited: seq<T>, rounds: seq<Round<T>>)
    requires |visited| == |rounds| && forall i :: 0 <= i < |rounds| ==> rounds[i].result == CommError
    ensures Kept(visited, rounds) == visited
    decreases |visited|
  {
    if visited != [] {
      AllFail(visited[1..], rounds[1..]);
    }
  }

  lemma {:induction false} AllAnswered<T>(visited: seq<T>, rounds: seq<Round<T>>)
    requires |visited| == |rounds| && forall i :: 0 <= i < |rounds| ==> rounds[i].result.Answered?
    ensures Kept(visited, rounds) == []
    decreases |visited|
  {
    if visited != [] {
      AllAnswered(visited[1..], rounds[1..]);
    }
  }

  /** A pass that is not cut short and is answered throughout, whatever the answers, empties the queue. */
  lemma AnsweredPassDrains<T(!new)>(before: seq<T>, rounds: seq<Round<T>>, calls: nat, after: seq<T>)
    requires PassEnds(before, rounds, calls, after) && calls < |rounds|
    requires forall i :: 0 <= i < calls ==> rounds[i].result.Answered?
    ensures after == []
  {
    AllAnswered((before + Appended(rounds[..calls]))[..calls], rounds[..calls]);
  }

  /** With the servers unreachable throughout, a pass changes nothing but adding what was appended. */
  lemma UnreachableKeepsAll<T(!new)>(before: seq<T>, rounds: seq<Round<T>>, calls: nat, after: seq<T>)
    requires PassEnds(before, rounds, calls, after)
    requires forall i :: 0 <= i < calls ==> rounds[i].result == CommError
    ensures after == before + Appended(rounds[..calls])
  {
    var arrived := before + Appended(rounds[..calls]);
    AllFail(arrived[..calls], rounds[..calls]);
    assert arrived == arrived[..calls] + arrived[calls..];
  }
}
