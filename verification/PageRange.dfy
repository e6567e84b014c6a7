/** The dirty byte range of a cached page, packed into the page's private word. */
module PageRange {

  /** Pages of 4 KiB; the two fields of the word are the page offset bits and the bits above them. */
  const PAGE_SIZE: nat := 4096

  function First(word: nat): nat { word % PAGE_SIZE }

  function Last(word: nat): nat { word / PAGE_SIZE % PAGE_SIZE }

  /** Clear the first field and put `first`, cut to the field, in its place. */
  function SetFirst(word: nat, first: nat): nat {
    word - First(word) + first % PAGE_SIZE
  }

  function SetLast(word: nat, last: nat): nat {
    word - Last(word) * PAGE_SIZE + (last % PAGE_SIZE) * PAGE_SIZE
  }

  /** The fields of a word put together from its parts. */
  lemma FieldsOf(high: nat, last: nat, first: nat)
    requires last < PAGE_SIZE && first < PAGE_SIZE
    ensures var word := (high * PAGE_SIZE + last) * PAGE_SIZE + first;
            First(word) == first && Last(word) == last
  {
  }

  lemma PartsOf(word: nat) returns (high: nat)
    ensures word == (high * PAGE_SIZE + Last(word)) * PAGE_SIZE + First(word)
  {
    high := word / PAGE_SIZE / PAGE_SIZE;
  }

  /** Each setter stores its value, cut to the field, and keeps the other field. */
  lemma SettersKeepOtherField(word: nat, v: nat)
    ensures First(SetFirst(word, v)) == v % PAGE_SIZE && Last(SetFirst(word, v)) == Last(word)
    ensures Last(SetLast(word, v)) == v % PAGE_SIZE && First(SetLast(word, v)) == First(word)
  {
    var high := PartsOf(word);
    FieldsOf(high, Last(word), v % PAGE_SIZE);
    FieldsOf(high, v % PAGE_SIZE, First(word));
  }

  predicate CanMerge(word: nat, first: nat, last: nat) {
    || first == Last(word) + 1
    || last + 1 == First(word)
    || First(word) <= first <= Last(word)
    || First(word) <= last <= Last(word)
  }

  function Merge(word: nat, first: nat, last: nat): nat {
    var w := if First(word) > first then SetFirst(word, first) else word;
    if Last(w) < last then SetLast(w, last) else w
  }

  predicate Between(first: int, x: int, last: int) { first <= x <= last }

  function Interval(first: int, last: int): set<int> {
    set x | first <= x <= last && Between(first, x, last)
  }

  /** The bytes a word marks dirty. */
  function Dirty(word: nat): set<int> { Interval(First(word), Last(word)) }

  /** The ranges overlap or touch, so that their union has no gap. */
  predicate Touching(word: nat, first: nat, last: nat) {
    first <= Last(word) + 1 && First(word) <= last + 1
  }

  lemma MergeIsHull(word: nat, first: nat, last: nat)
    requires first <= last < PAGE_SIZE && First(word) <= Last(word)
    ensures First(Merge(word, first, last)) == (if first < First(word) then first else First(word))
    ensures Last(Merge(word, first, last)) == (if Last(word) < last then last else Last(word))
  {
    SettersKeepOtherField(word, first);
    SettersKeepOtherField(SetFirst(word, first), last);
    SettersKeepOtherField(word, last);
  }

  /** Merging marks exactly the bytes of both ranges if and only if they leave no gap. */
  lemma MergeExactIffTouching(word: nat, first: nat, last: nat)
    requires first <= last < PAGE_SIZE && First(word) <= Last(word)
    ensures Dirty(Merge(word, first, last)) == Dirty(word) + Interval(first, last) <==> Touching(word, first, last)
  {
    MergeIsHull(word, first, last);
    var merged, union := Dirty(Merge(word, first, last)), Dirty(word) + Interval(first, last);
    if first > Last(word) + 1 {
      assert Last(word) + 1 in merged && Last(word) + 1 !in union;
    } else if First(word) > last + 1 {
      assert last + 1 in merged && last + 1 !in union;
    }
  }

  /** The merge test accepts exactly the gap-free ranges that do not stick out on both sides. */
  lemma CanMergeExact(word: nat, first: nat, last: nat)
    requires first <= last && First(word) <= Last(word)
    ensures CanMerge(word, first, last) <==> Touching(word, first, last) && !(first < First(word) && Last(word) < last)
  {
  }

  /** What became of a flush of one page. */
  datatype FlushOutcome =
    | HandleError   // no file handle: nothing was sent and the caller gets an error
    | Completed     // all bytes arrived
    | Dropped       // the servers reported an error: the range is given up and the error recorded
    | Redirtied     // a short answer without error, or no dirty page: the page keeps its range
  {
    predicate Clears() { Completed? || Dropped? }
  }

  /** A page of the page cache. */
  class Page {
    var present: bool
    var word: nat

    /** Bytes written since the range was last clean. */
    ghost var written: set<int>

    /** The range is exactly what was written. */
    ghost predicate Exact() reads this {
      && (present ==> First(word) <= Last(word) && written == Dirty(word))
      && (!present ==> written == {})
    }

    constructor ()
      ensures Exact() && !present
    {
      present, word, written := false, 0, {};
    }

    method Flush(outcome: FlushOutcome) returns (ok: bool)
      modifies this
      ensures ok == !outcome.HandleError? && word == old(word)
      ensures outcome.Completed? || outcome.Dropped? ==> !present && written == {}
      ensures outcome.HandleError? || outcome.Redirtied? ==> present == old(present) && written == old(written)
    {
      match outcome
      case HandleError => ok := false;
      case Redirtied => ok := true;
      case Completed => ok, present, written := true, false, {};
      case Dropped => ok, present, written := true, false, {};
    }

    /** Before copying: flush if the new range cannot be merged. */
    method WriteBegin(first: nat, len: nat, outcome: FlushOutcome) returns (ok: bool)
      requires Exact() && len > 0 && first + len <= PAGE_SIZE
      modifies this
      ensures Exact() && word == old(word)
      ensures ok == !(old(NeedsFlush(first, len)) && outcome.HandleError?)
      ensures old(NeedsFlush(first, len)) && outcome.Clears() ==> !present && written == {}
      ensures !(old(NeedsFlush(first, len)) && outcome.Clears()) ==> present == old(present) && written == old(written)
    {
      ok := true;
      if NeedsFlush(first, len) {
        ok := Flush(outcome);
      }
    }

    predicate NeedsFlush(first: nat, len: nat) reads this
      requires len > 0
    {
      present && !CanMerge(word, first, first + len - 1)
    }

    /** After copying `len` bytes: record them. */
    method WriteEnd(first: nat, len: nat)
      requires Exact() && len > 0 && first + len <= PAGE_SIZE
      modifies this
      ensures present && written == old(written) + Interval(first, first + len - 1)
      ensures Exact() <==> !old(present && !Touching(word, first, first + len - 1))
    {
      var last := first + len - 1;
      if present {
        MergeIsHull(word, first, last);
        MergeExactIffTouching(word, first, last);
        word := Merge(word, first, last);
      } else {
        present := true;
        SettersKeepOtherField(0, first);
        SettersKeepOtherField(SetFirst(0, first), last);
        word := SetLast(SetFirst(0, first), last);
      }
      written := written + Interval(first, last);
    }

    /**
     * A whole write to the page. The range stays exactly the bytes written since it was last clean
     * unless a flush answered short left it standing and the new bytes lie apart from it.
     */
    method Write(first: nat, len: nat, outcome: FlushOutcome) returns (ok: bool)
      requires Exact() && len > 0 && first + len <= PAGE_SIZE
      modifies this
      ensures ok == !(old(NeedsFlush(first, len)) && outcome.HandleError?)
      ensures ok ==> (Exact() <==> !(outcome.Redirtied? && old(present && !Touching(word, first, first + len - 1))))
      ensures ok ==>
                && present
                && written == (if old(NeedsFlush(first, len)) && outcome.Clears() then {} else old(written))
                              + Interval(first, first + len - 1)
      ensures !ok ==> Exact() && present && written == old(written) && word == old(word)
    {
      ghost var last := first + len - 1;
      if present { CanMergeExact(word, first, last); }
      ok := WriteBegin(first, len, outcome);
      if ok {
        WriteEnd(first, len);
      }
    }
  }

  /** A write to a page, and how a flush that it needs would end. */
  datatype PageWrite = PageWrite(first: nat, len: nat, outcome: FlushOutcome) {
    predicate Valid() { len > 0 && first + len <= PAGE_SIZE && !outcome.Redirtied? }

    function Last(): int { first + len - 1 }
  }

  /** The new range overlaps or touches the smallest range around `s`, without sticking out on both sides. */
  ghost predicate Joins(s: set<int>, w: PageWrite) {
    && (exists x :: x in s && Between(w.first - 1, x, w.Last() + 1))
    && !((forall x :: x in s ==> Between(w.first + 1, x, w.Last() - 1)))
  }

  /**
   * The bytes of a page written since it was last clean, after some writes to a clean page: each write adds
   * its bytes; one that does not join the earlier ones first flushes them, or fails if no handle can be had.
   */
  ghost function Unflushed(writes: seq<PageWrite>): set<int> {
    if writes == [] then {}
    else
      var before, w := Unflushed(writes[..|writes| - 1]), writes[|writes| - 1];
      if before == {} || Joins(before, w) then before + Interval(w.first, w.Last())
      else if w.outcome.HandleError? then before
      else Interval(w.first, w.Last())
  }

  /** Over an exact range the merge test is the joining of sets of bytes. */
  lemma JoinsIsCanMerge(word: nat, w: PageWrite)
    requires w.Valid() && First(word) <= Last(word)
    ensures Joins(Dirty(word), w) <==> CanMerge(word, w.first, w.Last())
    ensures Dirty(word) != {}
  {
    CanMergeExact(word, w.first, w.Last());
    var a, b, s := First(word), Last(word), Dirty(word);
    assert a in s && b in s;
    if Touching(word, w.first, w.Last()) {
      var x := if w.first - 1 > a then w.first - 1 else a;
      assert x in s && Between(w.first - 1, x, w.Last() + 1);
    }
    if forall x :: x in s ==> Between(w.first + 1, x, w.Last() - 1) {
      assert Between(w.first + 1, a, w.Last() - 1) && Between(w.first + 1, b, w.Last() - 1);
    }
  }

  /**
   * Any run of writes to a clean page, whose flushes all complete, are given up or cannot start, leaves
   * exactly the bytes written since the last flush marked dirty.
   */
  method WriteRun(p: Page, writes: seq<PageWrite>)
    requires p.Exact() && !p.present
    requires forall w :: w in writes ==> w.Valid()
    modifies p
    ensures p.Exact() && p.written == Unflushed(writes)
    ensures p.present <==> Unflushed(writes) != {}
    ensures p.present ==> Dirty(p.word) == Unflushed(writes)
  {
    for i := 0 to |writes|
      invariant p.Exact() && p.written == Unflushed(writes[..i])
      invariant p.present <==> Unflushed(writes[..i]) != {}
    {
      var w := writes[i];
      assert w in writes && writes[..i + 1][..i] == writes[..i];
      if p.present {
        JoinsIsCanMerge(p.word, w);
      }
      assert w.first in Interval(w.first, w.Last());
      var _ := p.Write(w.first, w.len, w.outcome);
    }
    assert writes[..|writes|] == writes;
  }
}
