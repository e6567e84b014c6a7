/** Batches in flight: completed in any order, each possibly in part, without losing a dirty byte. */
module WriteBackRuns {
  import opened FileBytes
  import opened Remote
  import opened PageRange
  import opened WriteOrder
  import opened WriteBack

  ghost predicate Sendable(bs: seq<Batch>) {
    forall i :: 0 <= i < |bs| ==> AllValid(bs[i]) && Contiguous(bs[i])
  }

  function SentAll(bs: seq<Batch>): (ws: seq<Chunk>)
    requires Sendable(bs)
    ensures |ws| == |bs| && forall i :: 0 <= i < |bs| ==> ws[i] == Sent(bs[i])
  {
    seq(|bs|, i requires 0 <= i < |bs| => Sent(bs[i]))
  }

  /** The file that users see: the servers' file under everything still in flight. */
  ghost function Logical(f: Bytes, bs: seq<Batch>): Bytes
    requires Sendable(bs)
  {
    WriteAll(f, SentAll(bs))
  }

  /** Batches are well formed and no two of them share a byte. */
  ghost predicate InFlight(bs: seq<Batch>) {
    Sendable(bs) && PairwiseApart(SentAll(bs))
  }

  /** The servers answered the write of batch `batch`. */
  datatype Completion = Completion(batch: nat, answer: Answer)

  predicate Possible(c: Completion, n: nat) { c.batch < n && !c.answer.Fail? }

  function FileAfter(f: Bytes, bs: seq<Batch>, c: Completion): Bytes
    requires Possible(c, |bs|) && Sendable(bs)
  {
    var w := Sent(bs[c.batch]);
    Stored(f, w.off, w.data, c.answer)
  }

  function BatchesAfter(bs: seq<Batch>, c: Completion): (after: seq<Batch>)
    requires Possible(c, |bs|) && Sendable(bs)
    ensures |after| == |bs|
  {
    bs[c.batch := Kept(bs[c.batch], c.answer.Result(|Sent(bs[c.batch]).data|))]
  }

  lemma ReplaceApart(ws: seq<Chunk>, k: nat, v: Chunk)
    requires k < |ws| && PairwiseApart(ws)
    requires v == Chunk(0, []) || (ws[k].off <= v.off && v.off + |v.data| == ws[k].off + |ws[k].data|)
    ensures PairwiseApart(ws[k := v])
  {
  }

  /** One completion changes neither what users see nor the form of what is in flight. */
  lemma CompleteOne(f: Bytes, bs: seq<Batch>, c: Completion)
    requires InFlight(bs) && Possible(c, |bs|)
    ensures InFlight(BatchesAfter(bs, c))
    ensures Logical(FileAfter(f, bs, c), BatchesAfter(bs, c)) == Logical(f, bs)
  {
    var k, after := c.batch, BatchesAfter(bs, c);
    var w, kept := Sent(bs[k]), after[k];
    var v := Sent(kept);
    CompletionPreserves(f, bs[k], c.answer, w, kept, v);
    var ws, vs := SentAll(bs), SentAll(after);
    assert vs == ws[k := v];
    ReplaceApart(ws, k, v);
    DoFirst(f, ws, k);
    DoFirst(FileAfter(f, bs, c), vs, k);
    assert Remove(vs, k) == Remove(ws, k);
  }

  ghost function RunFile(f: Bytes, bs: seq<Batch>, cs: seq<Completion>): Bytes
    requires InFlight(bs) && forall c :: c in cs ==> Possible(c, |bs|)
    decreases |cs|
  {
    if cs == [] then f
    else
      CompleteOne(f, bs, cs[0]);
      RunFile(FileAfter(f, bs, cs[0]), BatchesAfter(bs, cs[0]), cs[1..])
  }

  ghost function RunBatches(f: Bytes, bs: seq<Batch>, cs: seq<Completion>): (after: seq<Batch>)
    requires InFlight(bs) && forall c :: c in cs ==> Possible(c, |bs|)
    decreases |cs|
  {
    if cs == [] then bs
    else
      CompleteOne(f, bs, cs[0]);
      RunBatches(FileAfter(f, bs, cs[0]), BatchesAfter(bs, cs[0]), cs[1..])
  }

  /**
   * Over any run of completions without errors, in any order and with any short counts, the users'
   * file stays the same; once nothing is left in flight the servers hold it.
   */
  lemma {:induction false} WriteBackPreservesFile(f: Bytes, bs: seq<Batch>, cs: seq<Completion>)
    requires InFlight(bs) && forall c :: c in cs ==> Possible(c, |bs|)
    ensures InFlight(RunBatches(f, bs, cs))
    ensures Logical(RunFile(f, bs, cs), RunBatches(f, bs, cs)) == Logical(f, bs)
    ensures (forall b :: b in RunBatches(f, bs, cs) ==> b == []) ==> RunFile(f, bs, cs) == Logical(f, bs)
    decreases |cs|
  {
    if cs == [] {
      if forall b :: b in bs ==> b == [] {
        forall i | 0 <= i < |bs| ensures SentAll(bs)[i].data == [] {
          assert bs[i] in bs;
        }
        NothingToWrite(f, SentAll(bs));
      }
    } else {
      CompleteOne(f, bs, cs[0]);
      WriteBackPreservesFile(FileAfter(f, bs, cs[0]), BatchesAfter(bs, cs[0]), cs[1..]);
    }
  }

  lemma {:induction false} NothingToWrite(f: Bytes, ws: seq<Chunk>)
    requires forall i :: 0 <= i < |ws| ==> ws[i].data == []
    ensures WriteAll(f, ws) == f
    decreases |ws|
  {
    if ws != [] {
      NothingToWrite(f, ws[1..]);
    }
  }

  lemma PieceExtent(p: DirtyPage)
    requires p.Valid()
    ensures p.index * PAGE_SIZE <= p.Piece().off
    ensures p.Piece().off + |p.Piece().data| <= p.index * PAGE_SIZE + PAGE_SIZE
  {
  }

  /** A batch's write stays inside its first to last page. */
  lemma SentExtent(b: Batch)
    requires b != [] && AllValid(b) && Contiguous(b)
    ensures b[0].index * PAGE_SIZE <= Sent(b).off
    ensures Sent(b).off + |Sent(b).data| <= b[|b| - 1].index * PAGE_SIZE + PAGE_SIZE
  {
    var n := |b| - 1;
    var front, last := b[..n], [b[n]];
    assert b == front + last;
    SentTail(front, last);
    assert Joined(Pieces(last)) == b[n].Piece().data + Joined([]);
    PieceExtent(b[0]);
    PieceExtent(b[n]);
  }

  predicate Before(a: Batch, b: Batch) {
    a != [] && b != [] && a[|a| - 1].index < b[0].index
  }

  lemma BeforeIsApart(a: Batch, b: Batch)
    requires AllValid(a) && Contiguous(a) && AllValid(b) && Contiguous(b) && Before(a, b)
    ensures Apart(Sent(a), Sent(b))
  {
    SentExtent(a);
    SentExtent(b);
  }

  lemma {:induction false} ContiguousPush(b: Batch, q: DirtyPage)
    requires Contiguous(b) && (b != [] ==> Meets(b[|b| - 1], q))
    ensures Contiguous(b + [q])
    decreases |b|
  {
    if |b| > 1 {
      assert (b + [q])[1..] == b[1..] + [q];
      ContiguousPush(b[1..], q);
    }
  }

  function Flatten(bs: seq<Batch>): Batch {
    if bs == [] then [] else Flatten(bs[..|bs| - 1]) + bs[|bs| - 1]
  }

  lemma FlattenPush(bs: seq<Batch>, b: Batch)
    ensures Flatten(bs + [b]) == Flatten(bs) + b
  {
    assert (bs + [b])[..|bs|] == bs;
  }

  ghost predicate Good(b: Batch, blockSize: nat) {
    0 < |b| <= blockSize && AllValid(b) && Contiguous(b)
  }

  /** Good batches in file order, all of them before page `bound`. */
  ghost predicate Ordered(bs: seq<Batch>, bound: nat, blockSize: nat) {
    && (forall x :: 0 <= x < |bs| ==> Good(bs[x], blockSize) && bs[x][|bs[x]| - 1].index < bound)
    && (forall x, y :: 0 <= x < y < |bs| ==> Before(bs[x], bs[y]))
  }

  lemma OrderedPush(bs: seq<Batch>, b: Batch, bound: nat, blockSize: nat)
    requires Good(b, blockSize) && Ordered(bs, b[0].index, blockSize)
    requires b[0].index <= b[|b| - 1].index < bound
    ensures Ordered(bs + [b], bound, blockSize)
  {
  }

  lemma GoodPush(b: Batch, q: DirtyPage, blockSize: nat)
    requires b == [] || Good(b, blockSize)
    requires |b| < blockSize && q.Valid() && (b != [] ==> Meets(b[|b| - 1], q))
    ensures Good(b + [q], blockSize)
  {
    ContiguousPush(b, q);
  }

  lemma OrderedApart(bs: seq<Batch>, bound: nat, blockSize: nat)
    requires Ordered(bs, bound, blockSize)
    ensures InFlight(bs)
  {
    forall x, y | 0 <= x < y < |bs|
      ensures Apart(Sent(bs[x]), Sent(bs[y]))
    {
      BeforeIsApart(bs[x], bs[y]);
    }
  }

  /** Whether the batch `state` has to be sent before page `next` can be taken. */
  predicate MustFlushBefore(state: Batch, next: DirtyPage, blockSize: nat) {
    if |state| == 0 then false
    else if |state| == blockSize then true
    else if state[|state| - 1].index + 1 != next.index then true
    else First(next.word) != 0 || Last(state[|state| - 1].word) != PAGE_SIZE - 1
  }

  /** What has been submitted and what is being collected while walking the dirty pages. */
  ghost predicate Collecting(batches: seq<Batch>, state: Batch, blockSize: nat) {
    if state == [] then batches == []
    else
      && Good(state, blockSize) && Ordered(batches, state[0].index, blockSize)
      && state[0].index <= state[|state| - 1].index
  }

  /** Batch `b` was begun because `a` was full or because its first page does not continue `a`. */
  predicate BegunAfter(a: Batch, b: Batch, blockSize: nat) {
    a != [] && b != [] && (|a| == blockSize || !Meets(a[|a| - 1], b[0]))
  }

  /** No batch could have taken the page that begins the one after it. */
  ghost predicate Maximal(bs: seq<Batch>, blockSize: nat) {
    forall x, y :: 0 <= x < y < |bs| && y == x + 1 ==> BegunAfter(bs[x], bs[y], blockSize)
  }

  lemma MaximalPush(bs: seq<Batch>, b: Batch, next: Batch, blockSize: nat)
    requires Maximal(bs + [b], blockSize) && BegunAfter(b, next, blockSize)
    ensures Maximal((bs + [b]) + [next], blockSize)
  {
    var cs := bs + [b];
    var ds := cs + [next];
    forall x, y | 0 <= x < y < |ds| && y == x + 1
      ensures BegunAfter(ds[x], ds[y], blockSize)
    {
      assert y < |cs| ==> BegunAfter(cs[x], cs[y], blockSize);
    }
  }

  lemma MaximalGrow(bs: seq<Batch>, b: Batch, more: Batch, blockSize: nat)
    requires Maximal(bs + [b], blockSize) && more != [] && (if b == [] then bs == [] else more[0] == b[0])
    ensures Maximal(bs + [more], blockSize)
  {
    var cs, ds := bs + [b], bs + [more];
    forall x, y | 0 <= x < y < |ds| && y == x + 1
      ensures BegunAfter(ds[x], ds[y], blockSize)
    {
      assert BegunAfter(cs[x], cs[y], blockSize);
    }
  }

  /** Take one more dirty page: submit the current batch first if the page does not continue it. */
  method AddPage(batches: seq<Batch>, state: Batch, next: DirtyPage, blockSize: nat)
    returns (batches': seq<Batch>, state': Batch)
    requires blockSize > 0 && next.Valid() && Collecting(batches, state, blockSize)
    requires state != [] ==> state[|state| - 1].index < next.index
    requires Maximal(batches + [state], blockSize)
    ensures Maximal(batches' + [state'], blockSize)
    ensures Collecting(batches', state', blockSize)
    ensures state' != [] && state'[|state'| - 1] == next
    ensures Flatten(batches') + state' == Flatten(batches) + state + [next]
  {
    if MustFlushBefore(state, next, blockSize) {
      OrderedPush(batches, state, next.index, blockSize);
      FlattenPush(batches, state);
      batches', state' := batches + [state], [next];
      GoodPush([], next, blockSize);
      assert [] + [next] == state';
      MaximalPush(batches, state, [next], blockSize);
    } else {
      GoodPush(state, next, blockSize);
      MaximalGrow(batches, state, state + [next], blockSize);
      batches', state' := batches, state + [next];
      assert Flatten(batches) + (state + [next]) == Flatten(batches) + state + [next];
    }
  }

  lemma EmptyInFlight()
    ensures InFlight([[]])
  {
    assert Sendable([[]]) by { assert AllValid([]) && Contiguous([]); }
  }

  /** The last batch is submitted too, so what is in flight at the end is everything collected. */
  lemma SubmitLast(batches: seq<Batch>, state: Batch, all: seq<Batch>, blockSize: nat)
    requires Collecting(batches, state, blockSize) && all == batches + [state]
    ensures InFlight(all) && Flatten(all) == Flatten(batches) + state
    ensures forall b :: b in all ==> |b| <= blockSize && (state != [] ==> b != [])
  {
    FlattenPush(batches, state);
    if state == [] {
      EmptyInFlight();
      assert all == [[]];
    } else {
      OrderedPush(batches, state, state[|state| - 1].index + 1, blockSize);
      OrderedApart(all, state[|state| - 1].index + 1, blockSize);
    }
  }

  /**
   * Coalesce the dirty pages of a file, given in file order, into batches. Every page goes into exactly
   * one batch, in order; batches respect the block size, can be sent as single writes, and share no byte; and none could have
   * taken the page after it.
   */
  method WritePages(pages: Batch, blockSize: nat) returns (batches: seq<Batch>)
    requires blockSize > 0 && AllValid(pages)
    requires forall i, j :: 0 <= i < j < |pages| ==> pages[i].index < pages[j].index
    ensures Flatten(batches) == pages
    ensures forall b :: b in batches ==> |b| <= blockSize && (pages != [] ==> b != [])
    ensures InFlight(batches) && Maximal(batches, blockSize)
  {
    batches := [];
    var state: Batch := [];
    for i := 0 to |pages|
      invariant Flatten(batches) + state == pages[..i]
      invariant Collecting(batches, state, blockSize) && Maximal(batches + [state], blockSize)
      invariant i > 0 ==> state != [] && state[|state| - 1] == pages[i - 1]
      invariant i == 0 ==> state == []
    {
      assert pages[i] in pages;
      assert pages[..i + 1] == pages[..i] + [pages[i]];
      batches, state := AddPage(batches, state, pages[i], blockSize);
    }
    assert pages[..|pages|] == pages;
    SubmitLast(batches, state, batches + [state], blockSize);
    batches := batches + [state];
  }

  lemma LogicalPush(f: Bytes, front: seq<Batch>, last: Batch, bs: seq<Batch>)
    requires bs == front + [last] && Sendable(front) && AllValid(last) && Contiguous(last)
    ensures Sendable(bs) && Logical(f, bs) == Overlay(Logical(f, front), Sent(last).off, Sent(last).data)
  {
    assert SentAll(bs) == SentAll(front) + [Sent(last)];
    WriteAllConcat(f, SentAll(front), [Sent(last)]);
  }

  /** Sending the batches is writing the pages they were made of. */
  lemma {:induction false} BatchesArePages(f: Bytes, bs: seq<Batch>)
    requires Sendable(bs)
    ensures AllValid(Flatten(bs)) && Logical(f, bs) == WriteAll(f, Pieces(Flatten(bs)))
    decreases |bs|
  {
    if bs != [] {
      var front, last := bs[..|bs| - 1], bs[|bs| - 1];
      BatchesArePages(f, front);
      LogicalPush(f, front, last, bs);
      PiecesConcat(Flatten(front), last);
      WriteAllConcat(f, Pieces(Flatten(front)), Pieces(last));
      SentLandsInPlace(Logical(f, front), last);
    }
  }

  /**
   * From dirty pages to the servers: after any completions without errors of the batches made of some
   * pages, what the servers hold under everything still in flight is the file with those pages written,
   * and once nothing is in flight the servers hold exactly that.
   */
  lemma PagesReachServers(f: Bytes, pages: Batch, batches: seq<Batch>, cs: seq<Completion>)
    requires Flatten(batches) == pages && InFlight(batches) && AllValid(pages)
    requires forall c :: c in cs ==> Possible(c, |batches|)
    ensures InFlight(RunBatches(f, batches, cs))
    ensures Logical(RunFile(f, batches, cs), RunBatches(f, batches, cs)) == WriteAll(f, Pieces(pages))
    ensures (forall b :: b in RunBatches(f, batches, cs) ==> b == []) ==> RunFile(f, batches, cs) == WriteAll(f, Pieces(pages))
  {
    BatchesArePages(f, batches);
    WriteBackPreservesFile(f, batches, cs);
  }

  /**
   * The next round: pages that stayed dirty are collected anew, into any batches that can be in flight together.
   * The servers' file under them is still the file with all pages of the first round written.
   */
  lemma NextRound(f: Bytes, pages: Batch, batches: seq<Batch>, cs: seq<Completion>, again: seq<Batch>)
    requires Flatten(batches) == pages && InFlight(batches) && AllValid(pages)
    requires forall c :: c in cs ==> Possible(c, |batches|)
    requires InFlight(again) && Flatten(again) == Flatten(RunBatches(f, batches, cs))
    ensures Logical(RunFile(f, batches, cs), again) == WriteAll(f, Pieces(pages))
  {
    var g := RunFile(f, batches, cs);
    PagesReachServers(f, pages, batches, cs);
    BatchesArePages(g, RunBatches(f, batches, cs));
    BatchesArePages(g, again);
  }

  /** One round: the batches in flight and the completions they get. */
  datatype Round = Round(batches: seq<Batch>, completions: seq<Completion>)

  /** Rounds of write-back, each made of the pages that the one before left dirty. */
  ghost predicate Follow(f: Bytes, pages: Batch, rounds: seq<Round>)
    decreases |rounds|
  {
    rounds == [] ||
    var r := rounds[0];
    && Flatten(r.batches) == pages && InFlight(r.batches)
    && (forall c :: c in r.completions ==> Possible(c, |r.batches|))
    && Follow(RunFile(f, r.batches, r.completions), Flatten(RunBatches(f, r.batches, r.completions)), rounds[1..])
  }

  /** The servers' file and the dirty pages after some rounds. */
  ghost function AfterRounds(f: Bytes, pages: Batch, rounds: seq<Round>): (Bytes, Batch)
    requires Follow(f, pages, rounds)
    decreases |rounds|
  {
    if rounds == [] then (f, pages)
    else
      var r := rounds[0];
      AfterRounds(RunFile(f, r.batches, r.completions), Flatten(RunBatches(f, r.batches, r.completions)), rounds[1..])
  }

  /**
   * Over any number of rounds without errors, however short the answers and however pages are batched anew,
   * the servers' file under what is still dirty is the file with all pages written, and once no page is dirty
   * the servers hold exactly that.
   */
  lemma {:induction false} RoundsReachServers(f: Bytes, pages: Batch, rounds: seq<Round>)
    requires Follow(f, pages, rounds) && AllValid(pages)
    ensures var (g, left) := AfterRounds(f, pages, rounds);
            AllValid(left) && WriteAll(g, Pieces(left)) == WriteAll(f, Pieces(pages))
    decreases |rounds|
  {
    if rounds != [] {
      var r := rounds[0];
      var g, bs := RunFile(f, r.batches, r.completions), RunBatches(f, r.batches, r.completions);
      PagesReachServers(f, pages, r.batches, r.completions);
      BatchesArePages(g, bs);
      RoundsReachServers(g, Flatten(bs), rounds[1..]);
    }
  }
}
