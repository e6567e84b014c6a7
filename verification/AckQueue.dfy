/** The queue of acknowledgements: each is tried at most twice, and a dead node's entries are dropped. */
module AckQueue {

  datatype Ack = Ack(node: nat, id: nat)

  /** One attempt to send: what others append meanwhile, and whether the whole message went out. */
  datatype Attempt = Attempt(appended: seq<Ack>, sent: bool)

  datatype Call =
    | NodeGone
    | Unserializable
    | Tried(first: Attempt, retry: Attempt)

  const MAX_COMM_RETRIES := 1

  function Arrivals(c: Call): seq<Ack> {
    if !c.Tried? then [] else c.first.appended + if c.first.sent then [] else c.retry.appended
  }

  predicate Failed(c: Call) { c.Tried? && !c.first.sent && !c.retry.sent }

  function Without(q: seq<Ack>, n: nat): seq<Ack> {
    if q == [] then []
    else if q[0].node == n then Without(q[1..], n)
    else [q[0]] + Without(q[1..], n)
  }

  /** The queue after a call for its first entry. */
  function AfterCall(q: seq<Ack>, c: Call): seq<Ack>
    requires q != []
  {
    var later := q[1..] + Arrivals(c);
    if Failed(c) then Without(later, q[0].node) else later
  }

  /** The queue after a pass that is told to terminate when `calls` are used up. */
  function AfterPass(q: seq<Ack>, calls: seq<Call>): seq<Ack>
    decreases |calls|
  {
    if q == [] || calls == [] then q else AfterPass(AfterCall(q, calls[0]), calls[1..])
  }

  lemma {:induction false} WithoutPush(q: seq<Ack>, e: Ack, n: nat)
    ensures Without(q + [e], n) == Without(q, n) + if e.node == n then [] else [e]
  {
    if q == [] {
      assert q + [e] == [e];
    } else {
      assert (q + [e])[1..] == q[1..] + [e];
      WithoutPush(q[1..], e, n);
    }
  }

  class Manager {
    var queue: seq<Ack>

    constructor ()
      ensures queue == []
    {
      queue := [];
    }

    method AddAck(e: Ack)
      modifies this
      ensures queue == old(queue) + [e]
    {
      queue := queue + [e];
    }

    /** Remove the entries of a node from position `start` on. */
    method RemoveByNode(n: nat, start: nat)
      requires start <= |queue|
      modifies this
      ensures queue == old(queue)[..start] + Without(old(queue)[start..], n)
    {
      var i := start;
      ghost var all, seen := queue[start..], 0;
      ghost var front := queue[..start];
      while i < |queue|
        invariant start <= i <= |queue| && seen <= |all|
        invariant queue[..i] == front + Without(all[..seen], n)
        invariant queue[i..] == all[seen..]
        decreases |all| - seen
      {
        ghost var e := queue[i];
        assert all[..seen + 1] == all[..seen] + [e];
        WithoutPush(all[..seen], e, n);
        ghost var tail := queue[i + 1..];
        assert tail == all[seen + 1..];
        if queue[i].node == n {
          ghost var done := queue[..i];
          queue := queue[..i] + queue[i + 1..];
          assert queue[..i] == done && queue[i..] == tail;
        } else {
          assert queue[..i + 1] == queue[..i] + [e];
          i := i + 1;
        }
        seen := seen + 1;
      }
      assert all[..seen] == all && queue[..i] == queue;
    }

    /** Send with retries; entries may be appended during each attempt. */
    method SendWithRetries(c: Call) returns (failed: bool)
      requires c.Tried?
      modifies this
      ensures failed == Failed(c)
      ensures queue == old(queue) + Arrivals(c)
    {
      failed := false;
      var retry := 0;
      ghost var came: seq<Ack> := [];
      while retry <= MAX_COMM_RETRIES
        invariant 0 <= retry <= 2
        invariant failed == (retry > 0)
        invariant queue == old(queue) + came
        invariant came == (if retry >= 1 then c.first.appended else []) + if retry == 2 then c.retry.appended else []
        invariant (retry >= 1 ==> !c.first.sent) && (retry == 2 ==> !c.retry.sent)
      {
        var attempt := if retry == 0 then c.first else c.retry;
        queue := queue + attempt.appended;
        came := came + attempt.appended;
        if attempt.sent {
          failed := false;
          break;
        }
        failed := true;
        retry := retry + 1;
      }
    }

    method ProcessQueue(calls: seq<Call>)
      modifies this
      ensures queue == AfterPass(old(queue), calls)
    {
      var used := 0;
      while queue != [] && used < |calls|
        invariant used <= |calls|
        invariant AfterPass(queue, calls[used..]) == AfterPass(old(queue), calls)
        decreases |calls| - used
      {
        assert calls[used..][0] == calls[used] && calls[used..][1..] == calls[used + 1..];
        ProcessFirst(calls[used]);
        used := used + 1;
      }
    }

    method ProcessFirst(c: Call)
      requires queue != []
      modifies this
      ensures queue == AfterCall(old(queue), c)
    {
      var current := queue[0];
      if c.Tried? {
        var failed := SendWithRetries(c);
        assert queue[1..] == old(queue)[1..] + Arrivals(c);
        if failed {
          RemoveByNode(current.node, 1);
        }
      }
      queue := queue[1..];
    }
  }

  // What a pass leaves behind

  function OfNode(q: seq<Ack>, n: nat): seq<Ack> {
    if q == [] then []
    else if q[0].node == n then [q[0]] + OfNode(q[1..], n)
    else OfNode(q[1..], n)
  }

  lemma {:induction false} OfNodeConcat(a: seq<Ack>, b: seq<Ack>, n: nat)
    ensures OfNode(a + b, n) == OfNode(a, n) + OfNode(b, n)
  {
    if a == [] {
      assert a + b == b;
    } else {
      assert (a + b)[1..] == a[1..] + b && (a + b)[0] == a[0];
      OfNodeConcat(a[1..], b, n);
      assert [a[0]] + (OfNode(a[1..], n) + OfNode(b, n)) == ([a[0]] + OfNode(a[1..], n)) + OfNode(b, n);
    }
  }

  lemma {:induction false} OfNodeWithout(q: seq<Ack>, m: nat, n: nat)
    ensures OfNode(Without(q, m), n) == if n == m then [] else OfNode(q, n)
  {
    if q != [] {
      OfNodeWithout(q[1..], m, n);
      if q[0].node != m {
        assert Without(q, m)[0] == q[0] && Without(q, m)[1..] == Without(q[1..], m);
      }
    }
  }

  /** What a call does to the entries of each node. */
  lemma NodeAfterCall(q: seq<Ack>, c: Call, n: nat)
    requires q != []
    ensures OfNode(AfterCall(q, c), n) ==
            if n != q[0].node then OfNode(q + Arrivals(c), n)
            else if Failed(c) then []
            else OfNode(q + Arrivals(c), n)[1..]
  {
    var all, later := q + Arrivals(c), q[1..] + Arrivals(c);
    assert all[0] == q[0] && all[1..] == later;
    if n == q[0].node {
      assert OfNode(all, n)[1..] == OfNode(later, n);
    }
    OfNodeWithout(later, q[0].node, n);
  }

  function Executed(q: seq<Ack>, calls: seq<Call>): seq<Ack>
    decreases |calls|
  {
    if q == [] || calls == [] then [] else Arrivals(calls[0]) + Executed(AfterCall(q, calls[0]), calls[1..])
  }

  function Visits(q: seq<Ack>, calls: seq<Call>, n: nat): nat
    decreases |calls|
  {
    if q == [] || calls == [] then 0
    else (if q[0].node == n then 1 else 0) + Visits(AfterCall(q, calls[0]), calls[1..], n)
  }

  predicate FailsOn(q: seq<Ack>, calls: seq<Call>, n: nat)
    decreases |calls|
  {
    q != [] && calls != [] &&
    ((q[0].node == n && Failed(calls[0])) || FailsOn(AfterCall(q, calls[0]), calls[1..], n))
  }

  /** The `i`-th call is for an entry of node `n`, and its retries fail. */
  predicate FailsAt(q: seq<Ack>, calls: seq<Call>, n: nat, i: nat) {
    i < |calls| && var now := AfterPass(q, calls[..i]); now != [] && now[0].node == n && Failed(calls[i])
  }

  lemma FailsLater(q: seq<Ack>, calls: seq<Call>, n: nat, i: nat)
    requires q != [] && calls != []
    ensures FailsAt(q, calls, n, i + 1) <==> FailsAt(AfterCall(q, calls[0]), calls[1..], n, i)
  {
    if i + 1 < |calls| {
      assert calls[..i + 1][1..] == calls[1..][..i];
    }
  }

  lemma {:induction false} FailsOnExactly(q: seq<Ack>, calls: seq<Call>, n: nat)
    ensures FailsOn(q, calls, n) <==> exists i: nat :: FailsAt(q, calls, n, i)
    decreases |calls|
  {
    if calls != [] {
      assert calls[..0] == [];
      if q == [] {
        forall i: nat ensures !FailsAt(q, calls, n, i) {
        }
      } else {
        var next, rest := AfterCall(q, calls[0]), calls[1..];
        FailsOnExactly(next, rest, n);
        if i: nat :| FailsAt(next, rest, n, i) {
          FailsLater(q, calls, n, i);
        }
        if i: nat :| FailsAt(q, calls, n, i) {
          if i == 0 {
            assert q[0].node == n && Failed(calls[0]);
          } else {
            FailsLater(q, calls, n, i - 1);
            assert FailsAt(next, rest, n, i - 1);
          }
        }
        assert q[0].node == n && Failed(calls[0]) ==> FailsAt(q, calls, n, 0);
      }
    }
  }

  /** A node that never failed loses exactly the entries sent to it, in order of arrival. */
  lemma {:induction false} NodeIsFifo(q: seq<Ack>, calls: seq<Call>, n: nat)
    requires !FailsOn(q, calls, n)
    ensures var arrived := OfNode(q + Executed(q, calls), n);
            && Visits(q, calls, n) <= |arrived|
            && OfNode(AfterPass(q, calls), n) == arrived[Visits(q, calls, n)..]
    decreases |calls|
  {
    if q == [] || calls == [] {
      assert q + [] == q;
    } else {
      var next := AfterCall(q, calls[0]);
      NodeIsFifo(next, calls[1..], n);
      NodeAfterCall(q, calls[0], n);
      ArrivedSplit(q, calls, n);
      var x, y := OfNode(q + Arrivals(calls[0]), n), OfNode(Executed(next, calls[1..]), n);
      if q[0].node == n {
        FirstOfNode(q, Arrivals(calls[0]));
        DropOneMore(x, y, Visits(next, calls[1..], n));
      }
    }
  }

  predicate IsSuffix(s: seq<Ack>, t: seq<Ack>) { |s| <= |t| && t[|t| - |s|..] == s }

  /** In any pass a node is left with its latest arrivals, none missing in between. */
  lemma {:induction false} NodeKeepsLatest(q: seq<Ack>, calls: seq<Call>, n: nat)
    ensures IsSuffix(OfNode(AfterPass(q, calls), n), OfNode(q + Executed(q, calls), n))
    decreases |calls|
  {
    if q == [] || calls == [] {
      assert q + [] == q;
    } else {
      var next := AfterCall(q, calls[0]);
      NodeKeepsLatest(next, calls[1..], n);
      NodeAfterCall(q, calls[0], n);
      ArrivedSplit(q, calls, n);
      if q[0].node == n {
        FirstOfNode(q, Arrivals(calls[0]));
      }
      SuffixOfSuffix(OfNode(AfterPass(q, calls), n), OfNode(next, n),
                     OfNode(q + Arrivals(calls[0]), n), OfNode(Executed(next, calls[1..]), n));
    }
  }

  lemma SuffixOfSuffix(s: seq<Ack>, left: seq<Ack>, x: seq<Ack>, y: seq<Ack>)
    requires IsSuffix(left, x) && IsSuffix(s, left + y)
    ensures IsSuffix(s, x + y)
  {
    assert (x + y)[|x| - |left|..] == left + y;
  }

  /** After its retries failed, a node has no entries but those that arrived later. */
  lemma DeadNodeForgotten(q: seq<Ack>, calls: seq<Call>)
    requires q != [] && calls != [] && Failed(calls[0])
    ensures IsSuffix(OfNode(AfterPass(q, calls), q[0].node),
                     OfNode(Executed(AfterCall(q, calls[0]), calls[1..]), q[0].node))
  {
    var next, n := AfterCall(q, calls[0]), q[0].node;
    var later := Executed(next, calls[1..]);
    NodeKeepsLatest(next, calls[1..], n);
    NodeAfterCall(q, calls[0], n);
    LaterOnly(next, later, n);
  }

  /** If nothing of a node is queued, its entries are those that come. */
  lemma LaterOnly(q: seq<Ack>, later: seq<Ack>, n: nat)
    requires OfNode(q, n) == []
    ensures OfNode(q + later, n) == OfNode(later, n)
  {
    OfNodeConcat(q, later, n);
    assert [] + OfNode(later, n) == OfNode(later, n);
  }

  lemma ArrivedSplit(q: seq<Ack>, calls: seq<Call>, n: nat)
    requires q != [] && calls != []
    ensures var next := AfterCall(q, calls[0]);
            var rest := Executed(next, calls[1..]);
            && OfNode(q + Executed(q, calls), n) == OfNode(q + Arrivals(calls[0]), n) + OfNode(rest, n)
            && OfNode(next + rest, n) == OfNode(next, n) + OfNode(rest, n)
  {
    var next := AfterCall(q, calls[0]);
    var rest := Executed(next, calls[1..]);
    assert q + (Arrivals(calls[0]) + rest) == (q + Arrivals(calls[0])) + rest;
    OfNodeConcat(q + Arrivals(calls[0]), rest, n);
    OfNodeConcat(next, rest, n);
  }

  lemma DropOneMore(x: seq<Ack>, y: seq<Ack>, v: nat)
    requires x != [] && v < |x + y|
    ensures (x[1..] + y)[v..] == (x + y)[1 + v..]
  {
    assert x[1..] + y == (x + y)[1..];
  }

  lemma FirstOfNode(q: seq<Ack>, more: seq<Ack>)
    requires q != []
    ensures OfNode(q + more, q[0].node) != []
  {
    assert (q + more)[0] == q[0];
  }

  ghost predicate IsSubsequence(s: seq<Ack>, t: seq<Ack>)
    decreases |t|
  {
    s == [] || (t != [] && ((s[0] == t[0] && IsSubsequence(s[1..], t[1..])) || IsSubsequence(s, t[1..])))
  }

  lemma {:induction false} SubAppend(s: seq<Ack>, t: seq<Ack>, u: seq<Ack>)
    requires IsSubsequence(s, t)
    ensures IsSubsequence(s + u, t + u)
    decreases |t| + |u|
  {
    if t == [] {
      assert s + u == u && t + u == u;
      if u != [] {
        SubAppend([], [], u[1..]);
        assert [] + u[1..] == u[1..];
      }
    } else {
      assert (t + u)[1..] == t[1..] + u;
      if s != [] && s[0] == t[0] && IsSubsequence(s[1..], t[1..]) {
        assert (s + u)[1..] == s[1..] + u;
        SubAppend(s[1..], t[1..], u);
      } else {
        SubAppend(s, t[1..], u);
      }
    }
  }

  lemma {:induction false} SubDrop(s: seq<Ack>, t: seq<Ack>)
    requires IsSubsequence(s, t) && s != []
    ensures IsSubsequence(s[1..], t)
    decreases |t|
  {
    if !(s[0] == t[0] && IsSubsequence(s[1..], t[1..])) {
      SubDrop(s, t[1..]);
    }
  }

  lemma {:induction false} SubWithout(s: seq<Ack>, t: seq<Ack>, n: nat)
    requires IsSubsequence(s, t)
    ensures IsSubsequence(Without(s, n), t)
    decreases |t|
  {
    if s != [] {
      if s[0] == t[0] && IsSubsequence(s[1..], t[1..]) {
        SubWithout(s[1..], t[1..], n);
        if s[0].node != n {
          assert Without(s, n)[0] == s[0] && Without(s, n)[1..] == Without(s[1..], n);
        }
      } else {
        SubWithout(s, t[1..], n);
      }
    }
  }

  /** Whatever fails, the survivors of a pass stay in order of arrival. */
  lemma {:induction false} PassKeepsOrder(q: seq<Ack>, calls: seq<Call>, all: seq<Ack>)
    requires IsSubsequence(q, all)
    ensures IsSubsequence(AfterPass(q, calls), all + Executed(q, calls))
    decreases |calls|
  {
    if q == [] || calls == [] {
      assert all + [] == all;
    } else {
      var more := Arrivals(calls[0]);
      SubAppend(q, all, more);
      SubDrop(q + more, all + more);
      assert (q + more)[1..] == q[1..] + more;
      SubWithout(q[1..] + more, all + more, q[0].node);
      PassKeepsOrder(AfterCall(q, calls[0]), calls[1..], all + more);
      var rest := Executed(AfterCall(q, calls[0]), calls[1..]);
      assert (all + more) + rest == all + (more + rest);
    }
  }
}
