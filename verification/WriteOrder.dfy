/** Sequences of positioned writes, and when their order does not matter. */
module WriteOrder {
  import opened FileBytes

  datatype Chunk = Chunk(off: nat, data: Bytes)

  predicate Apart(a: Chunk, b: Chunk) {
    a.off + |a.data| <= b.off || b.off + |b.data| <= a.off
  }

  ghost predicate PairwiseApart(ws: seq<Chunk>) {
    forall i, j :: 0 <= i < j < |ws| ==> Apart(ws[i], ws[j])
  }

  /** The file after all writes, first to last. */
  function WriteAll(f: Bytes, ws: seq<Chunk>): Bytes
    decreases |ws|
  {
    if ws == [] then f else WriteAll(Overlay(f, ws[0].off, ws[0].data), ws[1..])
  }

  lemma {:induction false} WriteAllConcat(f: Bytes, a: seq<Chunk>, b: seq<Chunk>)
    ensures WriteAll(f, a + b) == WriteAll(WriteAll(f, a), b)
    decreases |a|
  {
    if a == [] {
      assert a + b == b;
    } else {
      assert (a + b)[1..] == a[1..] + b;
      WriteAllConcat(Overlay(f, a[0].off, a[0].data), a[1..], b);
    }
  }

  /** A write that is apart from all writes before it may go first. */
  lemma {:induction false} MoveToFront(f: Bytes, front: seq<Chunk>, w: Chunk)
    requires forall i :: 0 <= i < |front| ==> Apart(front[i], w)
    ensures WriteAll(f, front + [w]) == WriteAll(f, [w] + front)
    decreases |front|
  {
    if front != [] {
      var g := Overlay(f, front[0].off, front[0].data);
      assert (front + [w])[1..] == front[1..] + [w];
      MoveToFront(g, front[1..], w);
      OverlayCommutes(f, front[0].off, front[0].data, w.off, w.data);
      assert ([w] + front[1..])[1..] == front[1..];
      assert ([w] + front)[1..] == front;
    } else {
      assert front + [w] == [w] + front;
    }
  }

  function Remove(ws: seq<Chunk>, k: nat): seq<Chunk>
    requires k < |ws|
  {
    ws[..k] + ws[k + 1..]
  }

  lemma RemoveMultiset(ws: seq<Chunk>, k: nat)
    requires k < |ws|
    ensures multiset(Remove(ws, k)) == multiset(ws) - multiset{ws[k]}
  {
    assert ws == ws[..k] + ([ws[k]] + ws[k + 1..]);
  }

  lemma RemoveApart(ws: seq<Chunk>, k: nat)
    requires k < |ws| && PairwiseApart(ws)
    ensures PairwiseApart(Remove(ws, k))
  {
  }

  /** Any one write of a pairwise apart sequence may be done first. */
  lemma DoFirst(f: Bytes, ws: seq<Chunk>, k: nat)
    requires PairwiseApart(ws) && k < |ws|
    ensures WriteAll(f, ws) == WriteAll(Overlay(f, ws[k].off, ws[k].data), Remove(ws, k))
  {
    var front, rest := ws[..k], ws[k + 1..];
    assert ws == (front + [ws[k]]) + rest;
    WriteAllConcat(f, front + [ws[k]], rest);
    MoveToFront(f, front, ws[k]);
    assert ([ws[k]] + front)[1..] == front;
    WriteAllConcat(Overlay(f, ws[k].off, ws[k].data), front, rest);
  }

  /** Writes that are pairwise apart give the same file in every order. */
  lemma {:induction false} AnyOrder(f: Bytes, ws: seq<Chunk>, vs: seq<Chunk>)
    requires PairwiseApart(ws) && multiset(ws) == multiset(vs)
    ensures WriteAll(f, ws) == WriteAll(f, vs)
    decreases |ws|
  {
    if ws == [] {
      assert |vs| == |multiset(vs)| == 0;
    } else {
      assert |ws| == |multiset(ws)| == |multiset(vs)| == |vs|;
      assert vs[0] in multiset(vs);
      var k :| 0 <= k < |ws| && ws[k] == vs[0];
      RemoveMultiset(ws, k);
      RemoveApart(ws, k);
      RemoveMultiset(vs, 0);
      assert Remove(vs, 0) == vs[1..];
      DoFirst(f, ws, k);
      assert multiset(Remove(ws, k)) == multiset(vs[1..]);
      AnyOrder(Overlay(f, vs[0].off, vs[0].data), Remove(ws, k), vs[1..]);
    }
  }

  /** Each write starts where the one before it ends. */
  predicate Chained(ws: seq<Chunk>) {
    |ws| <= 1 || (ws[1].off == ws[0].off + |ws[0].data| && Chained(ws[1..]))
  }

  /** The data of all writes, one behind the other. */
  function Joined(ws: seq<Chunk>): Bytes {
    if ws == [] then [] else ws[0].data + Joined(ws[1..])
  }

  /** Chained writes are one write of the joined data. */
  lemma {:induction false} ChainIsOneWrite(f: Bytes, ws: seq<Chunk>)
    requires ws != [] && Chained(ws)
    ensures Overlay(f, ws[0].off, Joined(ws)) == WriteAll(f, ws)
    decreases |ws|
  {
    var w, rest := ws[0], ws[1..];
    if rest == [] {
      assert w.data + [] == w.data;
    } else {
      OverlayChain(f, w.off, w.data, Joined(rest));
      ChainIsOneWrite(Overlay(f, w.off, w.data), rest);
    }
  }

  lemma {:induction false} JoinedConcat(a: seq<Chunk>, b: seq<Chunk>)
    ensures Joined(a + b) == Joined(a) + Joined(b)
    decreases |a|
  {
    if a == [] {
      assert a + b == b;
    } else {
      assert (a + b)[1..] == a[1..] + b;
      JoinedConcat(a[1..], b);
    }
  }

  /** A tail of chained writes starts behind the joined data of what comes before it. */
  lemma {:induction false} ChainTail(ws: seq<Chunk>, m: nat)
    requires m < |ws| && Chained(ws)
    ensures Chained(ws[m..]) && ws[m].off == ws[0].off + |Joined(ws[..m])|
    decreases m
  {
    if m > 0 {
      ChainTail(ws[1..], m - 1);
      assert ws[1..][m - 1..] == ws[m..];
      assert ws[..m][1..] == ws[1..][..m - 1];
    }
  }
}
