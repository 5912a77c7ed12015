/** The notification test shared by both ring protocols.

    A side that moves an index from `before` to `after` signals its peer when
    (after - event) < (after - before) in 32-bit arithmetic. */
module EventIndex {
  import opened Word32

  predicate Crosses(before: Word, after: Word, event: Word) {
    Minus(after, event) < Minus(after, before)
  }

  /** The rule as inc/vring.h states it in prose: strictly below before, at or above after,
      with a wrapped after value raised by 2^32. */
  predicate ProseRule(before: Word, after: Word, event: Word) {
    var raised := if after < before then after + TWO32 else after;
    before < event <= raised
  }

  /** The test holds exactly when the event index is one of the indices moved over. */
  lemma CrossesIffMovedOver(before: int, after: int, event: Word)
    requires 0 <= after - before < TWO32
    ensures Crosses(W(before), W(after), event) <==> exists k :: before < k <= after && W(k) == event
  {
    MinusOfCounts(after, before);
    var k := after - Minus(W(after), event);
    assert W(k) == event;
    if Crosses(W(before), W(after), event) {
      assert before < k <= after;
    }
    if j :| before < j <= after && W(j) == event {
      MinusOfCounts(after, j);
    }
  }

  /** Asking for an event one past the index last seen catches every move away from it. */
  lemma NextIndexIsCaught(seen: int, after: int)
    requires 0 <= after - seen < TWO32
    ensures Crosses(W(seen), W(after), W(seen + 1)) <==> seen < after
  {
    CrossesIffMovedOver(seen, after, W(seen + 1));
    if seen < after {
      assert W(seen + 1) == W(seen + 1) && seen < seen + 1 <= after;
    }
  }

  /** A move that ends where the event was asked for, one index short of it, does not cross it. */
  lemma NoSelfCross(before: Word, seen: int)
    ensures !Crosses(before, W(seen), W(seen + 1))
  {
    MinusOfCounts(seen + TWO32, seen + 1);
    WordsEqual(seen + TWO32 - TWO32, seen);
    assert W(seen + TWO32) == W(seen);
  }

  /** The prose and the test part ways exactly when the move wraps and the event lies at or
      below the wrapped index: there the test signals and the prose does not ask for it. */
  lemma ProseMissesWrappedEvents(before: Word, after: Word, event: Word)
    ensures ProseRule(before, after, event) ==> Crosses(before, after, event)
    ensures Crosses(before, after, event) && !ProseRule(before, after, event) <==> event <= after < before
  {
  }
}
