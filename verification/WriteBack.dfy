/** Write-back of dirty pages: coalescing them into batches, sending a batch, and completing it. */
module WriteBack {
  import opened FileBytes
  import opened Remote
  import opened PageRange
  import opened WriteOrder

  /** A dirty page: its position in the file, its packed dirty range and its contents. */
  datatype DirtyPage = DirtyPage(index: nat, word: nat, data: Bytes) {
    predicate Valid() { |data| == PAGE_SIZE && First(word) <= Last(word) }

    /** The dirty bytes and where they belong. */
    function Piece(): Chunk
      requires Valid()
    {
      Chunk(index * PAGE_SIZE + First(word), data[First(word)..Last(word) + 1])
    }
  }

  type Batch = seq<DirtyPage>

  ghost predicate AllValid(b: Batch) { forall p :: p in b ==> p.Valid() }

  /** Page `q` goes on in the file exactly where page `p` ends. */
  predicate Meets(p: DirtyPage, q: DirtyPage) {
    q.index == p.index + 1 && First(q.word) == 0 && Last(p.word) == PAGE_SIZE - 1
  }

  /** Neighbouring pages of a batch meet without a gap. */
  predicate Contiguous(b: Batch) {
    |b| <= 1 || (Meets(b[0], b[1]) && Contiguous(b[1..]))
  }

  function Pieces(b: Batch): (ws: seq<Chunk>)
    requires AllValid(b)
    ensures |ws| == |b|
    ensures forall i :: 0 <= i < |b| ==> ws[i] == b[i].Piece()
  {
    if b == [] then [] else [b[0].Piece()] + Pieces(b[1..])
  }

  /** A batch as the single write it is sent as. */
  function Sent(b: Batch): Chunk
    requires AllValid(b)
  {
    if b == [] then Chunk(0, []) else Chunk(b[0].Piece().off, Joined(Pieces(b)))
  }

  lemma MeetingPieces(p: DirtyPage, q: DirtyPage)
    requires p.Valid() && q.Valid() && Meets(p, q)
    ensures q.Piece().off == p.Piece().off + |p.Piece().data|
  {
  }

  lemma {:induction false} PiecesChained(b: Batch)
    requires AllValid(b) && Contiguous(b)
    ensures Chained(Pieces(b))
    decreases |b|
  {
    if |b| > 1 {
      PiecesChained(b[1..]);
      assert Pieces(b)[1..] == Pieces(b[1..]);
      MeetingPieces(b[0], b[1]);
    }
  }

  /** Sending a batch as one write puts every byte where its page says. */
  lemma SentLandsInPlace(f: Bytes, b: Batch)
    requires AllValid(b) && Contiguous(b)
    ensures Overlay(f, Sent(b).off, Sent(b).data) == WriteAll(f, Pieces(b))
  {
    if b != [] {
      PiecesChained(b);
      ChainIsOneWrite(f, Pieces(b));
    }
  }

  /** The pages of a batch that stay dirty when the first `written` bytes of it are known to be stored. */
  function Kept(b: Batch, written: int): (kept: Batch)
    requires AllValid(b)
    ensures AllValid(kept)
  {
    if b == [] then []
    else if |b[0].Piece().data| <= written then Kept(b[1..], written - |b[0].Piece().data|)
    else b
  }

  /** The pages' bytes are among the first `written` ones. */
  ghost predicate Counted(done: Batch, written: int) {
    AllValid(done) && (done != [] ==> |Joined(Pieces(done))| <= written)
  }

  lemma CountOneMore(page: DirtyPage, rest: Batch, len: nat, written: int, done: Batch)
    requires page.Valid() && len == |page.Piece().data| <= written && Counted(rest, written - len)
    requires done == [page] + rest
    ensures Counted(done, written)
  {
    assert done[1..] == rest;
    assert Pieces(done)[1..] == Pieces(rest);
  }

  /** The kept pages are a tail of the batch, and everything before the tail is stored. */
  lemma {:induction false} KeptIsTail(b: Batch, written: int) returns (done: Batch)
    requires AllValid(b)
    ensures b == done + Kept(b, written) && Counted(done, written)
    decreases |b|
  {
    done := [];
    if b != [] && |b[0].Piece().data| <= written {
      var len := |b[0].Piece().data|;
      var rest := KeptIsTail(b[1..], written - len);
      done := [b[0]] + rest;
      CountOneMore(b[0], rest, len, written, done);
    }
  }

  lemma {:induction false} PiecesConcat(a: Batch, b: Batch)
    requires AllValid(a) && AllValid(b)
    ensures AllValid(a + b) && Pieces(a + b) == Pieces(a) + Pieces(b)
    decreases |a|
  {
    assert AllValid(a + b);
    if a == [] {
      assert a + b == b;
    } else {
      assert (a + b)[1..] == a[1..] + b;
      PiecesConcat(a[1..], b);
    }
  }

  lemma {:induction false} ContiguousTail(a: Batch, b: Batch)
    requires Contiguous(a + b)
    ensures Contiguous(b)
    decreases |a|
  {
    if a == [] {
      assert a + b == b;
    } else {
      assert (a + b)[1..] == a[1..] + b;
      if |a + b| <= 1 {
        assert b == [];
      } else {
        ContiguousTail(a[1..], b);
      }
    }
  }

  /** A tail of a batch is sent as the corresponding tail of the batch's write. */
  lemma SentTail(done: Batch, kept: Batch)
    requires AllValid(done) && AllValid(kept) && kept != [] && Contiguous(done + kept)
    ensures AllValid(done + kept) && Contiguous(kept)
    ensures Sent(done + kept).data == Joined(Pieces(done)) + Sent(kept).data
    ensures Sent(kept).off == Sent(done + kept).off + |Joined(Pieces(done))|
  {
    var b := done + kept;
    ContiguousTail(done, kept);
    PiecesConcat(done, kept);
    JoinedConcat(Pieces(done), Pieces(kept));
    PiecesChained(b);
    ChainTail(Pieces(b), |done|);
    assert Pieces(b)[..|done|] == Pieces(done);
  }

  /** The tail that was not counted as stored, written again, completes the batch. */
  lemma RewriteTail(f: Bytes, done: Batch, kept: Batch, w: Chunk, v: Chunk, a: Answer)
    requires AllValid(done) && AllValid(kept) && AllValid(done + kept) && kept != [] && Contiguous(done + kept)
    requires w == Sent(done + kept) && v == Sent(kept)
    requires forall k :: 0 <= k < |Joined(Pieces(done))| ==> a.Arrived(k)
    ensures Overlay(Stored(f, w.off, w.data, a), v.off, v.data) == Overlay(f, w.off, w.data)
    ensures w.off <= v.off && v.off + |v.data| == w.off + |w.data|
  {
    SentTail(done, kept);
    StoredThenRest(f, w.off, w.data, |Joined(Pieces(done))|, a, v.off, v.data);
  }

  /**
   * Completing a batch without an error, however short the count, loses no dirty byte: the file under
   * the pages that stay dirty equals the file under the whole batch before.
   */
  lemma CompletionPreserves(f: Bytes, b: Batch, a: Answer, w: Chunk, kept: Batch, v: Chunk)
    requires AllValid(b) && Contiguous(b) && !a.Fail?
    requires w == Sent(b) && kept == Kept(b, a.Result(|w.data|)) && v == Sent(kept)
    ensures Contiguous(kept)
    ensures Overlay(Stored(f, w.off, w.data, a), v.off, v.data) == Overlay(f, w.off, w.data)
    ensures kept != [] ==> w.off <= v.off && v.off + |v.data| == w.off + |w.data|
  {
    var done := KeptIsTail(b, a.Result(|w.data|));
    ContiguousTail(done, kept);
    if kept == [] {
      assert done == b;
      assert a.Result(|w.data|) == |w.data|;
      StoredIsPartial(f, w.off, w.data, a);
    } else {
      RewriteTail(f, done, kept, w, v, a);
    }
  }

  lemma PushPiece(b: Batch, q: DirtyPage)
    requires AllValid(b) && q.Valid()
    ensures AllValid(b + [q]) && Joined(Pieces(b + [q])) == Joined(Pieces(b)) + q.Piece().data
  {
    PiecesConcat(b, [q]);
    assert Pieces([q]) == [q.Piece()];
    JoinedConcat(Pieces(b), [q.Piece()]);
    assert Joined([q.Piece()]) == q.Piece().data + Joined([]);
  }

  ghost predicate Gathered(b: Batch, payload: Bytes) {
    AllValid(b) && payload == Joined(Pieces(b))
  }

  lemma GatherOne(b: Batch, payload: Bytes, page: DirtyPage)
    requires Gathered(b, payload) && page.Valid()
    ensures Gathered(b + [page], payload + page.Piece().data)
  {
    PushPiece(b, page);
  }

  /** Gather the dirty pieces of a batch behind the offset of the first one. */
  method Prepare(b: Batch) returns (offset: nat, payload: Bytes, lengths: seq<nat>)
    requires b != [] && AllValid(b)
    ensures offset == Sent(b).off && payload == Sent(b).data
    ensures |lengths| == |b| && forall i :: 0 <= i < |b| ==> lengths[i] == |b[i].Piece().data| > 0
  {
    assert b[0] in b;
    offset := b[0].Piece().off;
    payload, lengths := [], [];
    ghost var done: Batch := [];
    for i := 0 to |b|
      invariant done == b[..i] && Gathered(done, payload)
      invariant |lengths| == i && forall k :: 0 <= k < i ==> lengths[k] == |b[k].Piece().data| > 0
    {
      var page := b[i];
      assert page in b;
      GatherOne(done, payload, page);
      done := done + [page];
      payload := payload + page.Piece().data;
      lengths := lengths + [|page.Piece().data|];
    }
    assert done == b;
  }

  /** After `i` pages of `size` bytes: those that stay dirty so far, given that there was no error. */
  ghost predicate Walked(b: Batch, i: nat, written: nat, size: nat, kept: Batch)
    requires AllValid(b) && i <= |b|
  {
    if kept == [] then size <= written && Kept(b, written) == Kept(b[i..], written - size)
    else size > written && Kept(b, written) == kept + b[i..]
  }

  lemma WalkOne(b: Batch, i: nat, written: nat, size: nat, kept: Batch, len: nat)
    requires AllValid(b) && i < |b| && Walked(b, i, written, size, kept) && len == |b[i].Piece().data| > 0
    ensures Walked(b, i + 1, written, size + len, if size + len <= written then kept else kept + [b[i]])
  {
    assert b[i..][0] == b[i] && b[i..][1..] == b[i + 1..];
    assert kept + b[i..] == kept + [b[i]] + b[i + 1..];
  }

  /**
   * Walk a batch after the remote write of it returned `written`: pages whose bytes are all counted
   * become clean, after an error the rest is given up with the error recorded, otherwise it stays dirty.
   */
  method Complete(b: Batch, lengths: seq<nat>, written: int) returns (kept: Batch, failed: Batch)
    requires AllValid(b) && |lengths| == |b| && forall i :: 0 <= i < |b| ==> lengths[i] == |b[i].Piece().data| > 0
    ensures written >= 0 ==> kept == Kept(b, written) && failed == []
    ensures written < 0 ==> kept == [] && failed == b
  {
    kept, failed := [], [];
    var size := 0;
    assert b[0..] == b;
    for i := 0 to |b|
      invariant size >= 0
      invariant written < 0 ==> kept == [] && failed == b[..i]
      invariant written >= 0 ==> failed == [] && Walked(b, i, written, size, kept)
    {
      assert b[i] in b;
      if written >= 0 {
        WalkOne(b, i, written, size, kept, lengths[i]);
      }
      size := size + lengths[i];
      if size <= written {
      } else if written < 0 {
        failed := failed + [b[i]];
      } else {
        kept := kept + [b[i]];
      }
    }
    assert b[|b|..] == [] && b[..|b|] == b && kept + [] == kept;
  }

  /** Send one batch and complete its pages. */
  method WritepagesWork(server: Server, b: Batch) returns (kept: Batch, failed: Batch)
    requires server.Valid() && b != [] && AllValid(b) && Contiguous(b)
    modifies server
    ensures server.Valid() && AllValid(kept)
    ensures old(server.NextWrite()).Fail? ==> kept == [] && failed == b
    ensures PartiallyWritten(old(server.data), Sent(b).off, Sent(b).data, server.data)
    ensures !old(server.NextWrite()).Fail? ==>
              && failed == [] && Contiguous(kept)
              && kept == Kept(b, old(server.NextWrite()).Result(|Sent(b).data|))
              && Overlay(server.data, Sent(kept).off, Sent(kept).data) == WriteAll(old(server.data), Pieces(b))
  {
    ghost var f, a, w := server.data, server.NextWrite(), Sent(b);
    assert server.writeAnswers != [] ==> a in server.writeAnswers;
    var offset, payload, lengths := Prepare(b);
    var written := server.Write(payload, offset);
    StoredIsPartial(f, w.off, w.data, a);
    kept, failed := Complete(b, lengths, written);
    if !a.Fail? {
      CompletionPreserves(f, b, a, w, kept, Sent(kept));
      SentLandsInPlace(f, b);
    }
  }

  /**
   * Flush a single page: what becomes of its range follows the servers' answer, and unless that is an
   * error, the servers' file under what stays dirty is the file under the whole range before.
   */
  method FlushPage(server: Server, p: Page, index: nat, data: Bytes) returns (outcome: FlushOutcome)
    requires server.Valid() && p.present && First(p.word) <= Last(p.word) && |data| == PAGE_SIZE
    modifies server, p
    ensures server.Valid() && p.word == old(p.word) && (p.present <==> outcome.Redirtied?)
    ensures var piece, a := DirtyPage(index, p.word, data).Piece(), old(server.NextWrite());
            && outcome == (if a.Fail? then Dropped else if a.Result(|piece.data|) == |piece.data| then Completed else Redirtied)
            && PartiallyWritten(old(server.data), piece.off, piece.data, server.data)
            && (outcome.Completed? ==> server.data == Overlay(old(server.data), piece.off, piece.data))
            && (outcome.Redirtied? ==> Overlay(server.data, piece.off, piece.data) == Overlay(old(server.data), piece.off, piece.data))
  {
    var page := DirtyPage(index, p.word, data);
    ghost var f, piece := server.data, page.Piece();
    SentSingle(page);
    SentLandsInPlace(f, [page]);
    var kept, failed := WritepagesWork(server, [page]);
    OverlayAfterPartial(f, piece.off, piece.data, server.data);
    outcome := if failed != [] then Dropped else if kept != [] then Redirtied else Completed;
    var _ := p.Flush(outcome);
  }

  lemma SentSingle(page: DirtyPage)
    requires page.Valid()
    ensures AllValid([page]) && Contiguous([page]) && Sent([page]) == page.Piece()
  {
    PushPiece([], page);
    assert [] + [page] == [page];
  }
}
