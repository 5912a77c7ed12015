/** Who sleeps, who is woken, and when both sides of a netchannel2 ring are stuck. */
module Nc2Wakeups {
  import opened Word32
  import opened EventIndex
  import opened Nc2Arith
  import opened Nc2Messages
  import opened Nc2Machine
  import opened Nc2Invariant
  import opened Nc2Results

  /** A publication in progress published what it holds; a side is marked notified only once there
      is something for it to see. */
  ghost predicate Signals(s: State) {
    && (s.p.pc.PFlushCheck? ==> s.p.pc.after == s.sh.prod)
    && (s.c.pc.CFinishCheck? ==> s.c.pc.after == s.sh.cons)
    && (s.g.sleep.Asleep? && s.g.consumerNotified ==> s.g.published > s.g.consumed)
    && (s.g.wait.Waiting? && s.g.producerNotified ==> s.g.released > s.g.wait.seen)
  }

  lemma InitSignals(s: State)
    requires Init(s)
    ensures Signals(s)
  {}

  lemma SignalsKept(s: State, a: Action)
    requires Inv(s) && Signals(s) && Enabled(s, a)
    ensures Signals(Step(s, a))
  {
    hide Start, Stream, Off, Encode, BitAnd, Contiguous, Intact, ConsumerOk, ProducerOk, W, Crosses, Refused,
         Need, Space, WouldWrap, PadNeeded, PadMsg, PadHeaderByte, TrueNeed, Cached, Plus, Minus;
    match a {
      case FlushReadEvent =>
        if s.g.sleep.Asleep? { NoSelfCross(s.p.pc.before, Start(s.g.sent, s.g.consumed)); }
      case FinishReadEvent =>
        if s.g.wait.Waiting? { NoSelfCross(s.c.pc.before, Start(s.g.sent, s.g.wait.seen)); }
      case _ =>
    }
  }

  lemma {:induction false} RunKeepsSignals(s: State, run: seq<Action>)
    requires s.r > 0 && Inv(s) && Signals(s) && Runs(s, run)
    ensures Signals(Exec(s, run))
    decreases run
  {
    hide Inv, Step, Enabled, Signals;
    if run == [] {
    } else {
      StepKeeps(s, run[0]);
      SignalsKept(s, run[0]);
      RunKeepsSignals(Step(s, run[0]), run[1..]);
    }
  }

  lemma ReachableSignals(s: State)
    requires Reachable(s)
    ensures Inv(s) && Signals(s)
  {
    hide Inv, Step, Enabled, Init, Signals;
    ReachableInv(s);
    var s0: State, run: seq<Action> :| Init(s0) && s0.r > 0 && Runs(s0, run) && Exec(s0, run) == s;
    InitInv(s0);
    InitSignals(s0);
    RunKeepsSignals(s0, run);
  }

  // ----- the consumer -----

  /** A notification for the sleeping consumer has been sent, or the flush that is between its two
      shared accesses will send one. */
  ghost predicate ConsumerSignalled(s: State) {
    s.g.consumerNotified || (s.p.pc.PFlushCheck? && Crosses(s.p.pc.before, s.p.pc.after, s.sh.prodEvent))
  }

  /** Since a final check returned 0 and the consumer has not looked: it is signalled exactly when
      the published index has moved. */
  lemma SleepingConsumerIsWoken(s: State)
    requires Reachable(s) && s.g.sleep.Asleep?
    ensures ConsumerSignalled(s) <==> s.sh.prod != s.c.localConsPvt
  {
    hide Start, Stream, Off, Encode, BitAnd, Contiguous, ConsumerOk, ProducerOk, Intact, W, Crosses,
         ProducerWakes;
    ReachableSignals(s);
    InWindow(s.g, s.r, s.g.consumed, s.g.published);
    BoundariesEqual(s.g, s.r, s.g.consumed, s.g.published);
    if s.p.pc.PFlushCheck? { NoSelfCross(s.p.pc.before, Start(s.g.sent, s.g.consumed)); }
  }

  /** While the index has not moved, the next flush that moves it returns 1; one that does not
      move it returns 0. */
  lemma NextFlushNotifies(s: State)
    requires Reachable(s) && s.g.sleep.Asleep? && s.sh.prod == s.c.localConsPvt && s.p.pc.PIdle?
    ensures Crosses(s.p.localProd, s.p.localProdPvt, s.sh.prodEvent) <==> s.p.localProdPvt != s.p.localProd
  {
    hide Start, Stream, Off, Encode, BitAnd, Contiguous, ConsumerOk, ProducerOk, Intact, W, Crosses,
         ProducerWakes;
    ReachableInv(s);
    InWindow(s.g, s.r, s.g.consumed, |s.g.sent|);
    NextIndexIsCaught(Start(s.g.sent, s.g.consumed), Start(s.g.sent, |s.g.sent|));
    BoundariesEqual(s.g, s.r, s.g.consumed, |s.g.sent|);
    StartGrows(s.g.sent, s.g.consumed, |s.g.sent|);
  }

  /** A final check that returns 0 leaves the consumer in that position. */
  lemma FinalCheckZero(s: State)
    requires Reachable(s) && s.c.pc.CRecheck? && s.c.pc.prod == s.sh.prod
    ensures s.r > 0
    ensures var t := Step(s, FinalRecheck); t.g.sleep.Asleep? && t.sh.prod == t.c.localConsPvt
  {
    hide Start, Stream, Off, Encode, BitAnd, Contiguous, ProducerOk, Intact, W, ProducerWakes, ConsumerWakes;
    ReachableInv(s);
  }

  // ----- the producer -----

  ghost predicate ProducerSignalled(s: State) {
    s.g.producerNotified || (s.c.pc.CFinishCheck? && Crosses(s.c.pc.before, s.c.pc.after, s.sh.consEvent))
  }

  /** The waiting producer's event is one past where the consumer index stood at its refusal. */
  lemma UnmovedIff(s: State)
    requires Reachable(s) && s.g.wait.Waiting?
    ensures Inv(s) && s.g.wait.seen <= s.g.released
    ensures s.sh.consEvent == Plus(s.sh.cons, 1) <==> s.g.released == s.g.wait.seen
    ensures s.sh.cons == W(Start(s.g.sent, s.g.wait.seen)) <==> s.g.released == s.g.wait.seen
    ensures s.sh.consEvent == W(Start(s.g.sent, s.g.wait.seen) + 1)
    ensures Start(s.g.sent, |s.g.sent|) <= Start(s.g.sent, s.g.wait.seen) + s.r
  {
    hide Start, Stream, Off, Encode, BitAnd, Contiguous, ConsumerOk, ProducerOk, Intact, Crosses, ConsumerWakes,
         TrueNeed, W, Plus;
    ReachableInv(s);
    var lo, hi := Start(s.g.sent, s.g.wait.seen), Start(s.g.sent, s.g.released);
    StartGrows(s.g.sent, s.g.wait.seen, s.g.released);
    StartGrows(s.g.sent, s.g.released, |s.g.sent|);
    BoundariesEqual(s.g, s.r, s.g.wait.seen, s.g.released);
    PlusOfCounts(hi, 1);
    WordsEqual(lo + 1, hi + 1);
    WordsEqual(lo, hi);
  }

  /** Since a space check returned 0 and the producer has not asked again: it is signalled exactly
      when the released index has moved. */
  lemma WaitingProducerIsWoken(s: State)
    requires Reachable(s) && s.g.wait.Waiting?
    ensures ProducerSignalled(s) <==> s.sh.consEvent != Plus(s.sh.cons, 1)
  {
    hide Start, Stream, Off, Encode, BitAnd, Contiguous, ConsumerOk, ProducerOk, Intact, W, Crosses,
         ConsumerWakes, Refused, Plus;
    ReachableSignals(s);
    UnmovedIff(s);
    if s.c.pc.CFinishCheck? { NoSelfCross(s.c.pc.before, Start(s.g.sent, s.g.wait.seen)); }
  }

  /** While the index has not moved, the next finish that moves it returns 1; one that does not
      move it returns 0. */
  lemma NextFinishNotifies(s: State)
    requires Reachable(s) && s.g.wait.Waiting? && s.sh.consEvent == Plus(s.sh.cons, 1) && s.c.pc.CIdle?
    ensures Crosses(s.c.localCons, s.c.localConsPvt, s.sh.consEvent) <==> s.c.localConsPvt != s.c.localCons
  {
    hide Start, Stream, Off, Encode, BitAnd, Contiguous, ConsumerOk, ProducerOk, Intact, W, Crosses,
         ConsumerWakes, ProducerWakes, Plus;
    ReachableInv(s);
    UnmovedIff(s);
    InWindow(s.g, s.r, s.g.released, s.g.consumed);
    NextIndexIsCaught(Start(s.g.sent, s.g.released), Start(s.g.sent, s.g.consumed));
    BoundariesEqual(s.g, s.r, s.g.released, s.g.consumed);
    StartGrows(s.g.sent, s.g.released, s.g.consumed);
  }

  /** A space check that returns 0 leaves the producer in that position. And if the message is at
      most half the ring, some byte it has produced is still unreleased: an empty ring would have
      granted it. */
  lemma RefusalMeansUnreleased(s: State)
    requires Reachable(s) && s.p.pc.PRecheck? && s.p.pc.cons == s.sh.cons
    ensures s.r > 0
    ensures var t := Step(s, RecheckCons);
            t.g.wait == Waiting(s.p.pc.msg, s.g.readAt) && t.sh.consEvent == Plus(t.sh.cons, 1)
    ensures 2 * Size(s.p.pc.msg) <= s.r ==> s.sh.cons != s.p.localProdPvt
  {
    hide Start, Stream, Off, Encode, BitAnd, Contiguous, ConsumerOk, Intact, W, Crosses, ConsumerWakes,
         ProducerWakes, Plus;
    ReachableInv(s);
    var released := Start(s.g.sent, s.g.released);
    StartGrows(s.g.sent, s.g.readAt, s.g.released);
    StartGrows(s.g.sent, s.g.released, |s.g.sent|);
    BoundariesEqual(s.g, s.r, s.g.readAt, s.g.released);
    BoundariesEqual(s.g, s.r, s.g.released, |s.g.sent|);
    PlusOfCounts(released, 1);
  }

  /** The same as long as it waits and the index has not moved. */
  lemma WaitingMeansUnreleased(s: State)
    requires Reachable(s) && s.g.wait.Waiting? && s.sh.consEvent == Plus(s.sh.cons, 1)
    requires 2 * Size(s.g.wait.msg) <= s.r
    ensures s.sh.cons != s.p.localProdPvt
  {
    hide Start, Stream, Off, Encode, BitAnd, Contiguous, ConsumerOk, ProducerOk, Intact, W, Crosses,
         ConsumerWakes, Plus;
    ReachableInv(s);
    UnmovedIff(s);
    StartGrows(s.g.sent, s.g.released, |s.g.sent|);
    BoundariesEqual(s.g, s.r, s.g.released, |s.g.sent|);
  }

  // ----- both stuck -----

  /** Refused or put to sleep, and not signalled. */
  ghost predicate ProducerStuck(s: State) {
    s.g.wait.Waiting? && !ProducerSignalled(s)
  }

  ghost predicate ConsumerStuck(s: State) {
    s.g.sleep.Asleep? && !ConsumerSignalled(s)
  }

  /** A waiting producer and a sleeping consumer are both stuck exactly when the consumer has read
      all that is published and its published index has not moved since the refusal. */
  lemma BothStuckIff(s: State)
    requires Reachable(s) && s.g.wait.Waiting? && s.g.sleep.Asleep?
    ensures ProducerStuck(s) && ConsumerStuck(s)
            <==> s.sh.prod == s.c.localConsPvt && s.sh.consEvent == Plus(s.sh.cons, 1)
  {
    hide Reachable, ProducerSignalled, ConsumerSignalled, Plus;
    SleepingConsumerIsWoken(s);
    WaitingProducerIsWoken(s);
  }

  /** Once the producer has flushed, and with messages of at most half the ring, both are stuck
      exactly when the consumer has read everything and has finished nothing since the refusal;
      and then it holds messages it has read and not finished. So a consumer that finishes what
      it has read before it sleeps is never stuck together with the producer. */
  lemma BothStuckOnceFlushedIff(s: State)
    requires Reachable(s) && s.g.wait.Waiting? && s.g.sleep.Asleep? && s.p.localProd == s.p.localProdPvt
    requires 2 * Size(s.g.wait.msg) <= s.r
    ensures ProducerStuck(s) && ConsumerStuck(s)
            <==> s.p.localProdPvt == s.c.localConsPvt && s.sh.consEvent == Plus(s.sh.cons, 1)
    ensures ProducerStuck(s) && ConsumerStuck(s) ==> s.c.localCons != s.c.localConsPvt
  {
    hide ProducerSignalled, ConsumerSignalled, Plus, Start, Stream, Off, Encode, BitAnd, Contiguous, ConsumerOk,
         ProducerOk, Intact, W, Crosses, ConsumerWakes, ProducerWakes;
    BothStuckIff(s);
    ReachableInv(s);
    if s.sh.consEvent == Plus(s.sh.cons, 1) { WaitingMeansUnreleased(s); }
  }
}
