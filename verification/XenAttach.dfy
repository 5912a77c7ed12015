/** Attaching to the indices of a ring in use (inc/ring.h:153-166): what the rings keep from then
    on, and when a sleeping peer misses its notification for good. */
module XenAttach {
  import opened Memory
  import opened Word32
  import opened EventIndex
  import opened XenMachine
  import opened XenInvariant
  import opened XenResults

  /** The invariant, but for what only holds of a ring both sides have had from the start: what
      they have received so far, and that nobody sleeps unsignalled. */
  ghost predicate Kept(s: State) {
    && RingInv(s)
    && FrontOk(s.f, s.sh.rspEvent, s.g)
    && BackOk(s.b, s.sh.reqEvent, s.g)
    && (s.f.pc.FPushed? ==> s.f.pc.after == s.sh.reqProd)
    && (s.b.pc.BPushed? ==> s.b.pc.after == s.sh.rspProd)
  }

  /** The same state as if both sides had received everything and were awake. */
  ghost function Completed(s: State): State
    requires s.g.rspTaken <= |s.g.rsps| && s.g.reqTaken <= |s.g.reqs|
  {
    s.(f := s.f.(got := s.g.rsps[..s.g.rspTaken]), b := s.b.(accepted := s.g.reqs[..s.g.reqTaken]),
       g := s.g.(frontAsleep := false, backAsleep := false, frontNotified := false, backNotified := false))
  }

  function Erased(s: State): State {
    s.(f := s.f.(got := []), b := s.b.(accepted := []),
       g := s.g.(frontAsleep := false, backAsleep := false, frontNotified := false, backNotified := false))
  }

  lemma CompletedInv(s: State)
    requires Kept(s)
    ensures Inv(Completed(s))
  {
    hide W, Content, IsPow2;
  }

  /** No step looks at what has been received, at who sleeps or at who was notified. */
  lemma SameStep(s: State, a: Action)
    requires Kept(s) && Enabled(s, a)
    ensures Enabled(Completed(s), a) && Erased(Step(s, a)) == Erased(Step(Completed(s), a))
  {
    hide Kept, Step, Enabled, Erased, Completed;
    KeptOrder(s);
    if OfFront(a) { FrontSameStep(s, a); } else { BackSameStep(s, a); }
  }

  lemma FrontSameStep(s: State, a: Action)
    requires Order(s.g, s.nr) && s.nr > 0 && Enabled(s, a) && OfFront(a)
    ensures Enabled(Completed(s), a) && Erased(Step(s, a)) == Erased(Step(Completed(s), a))
  {
    hide UnconsumedRequests, Minus, Plus, SlotOf, Crosses, FreeRequests, Put, Get, Guard;
  }

  lemma BackSameStep(s: State, a: Action)
    requires Order(s.g, s.nr) && s.nr > 0 && Enabled(s, a) && !OfFront(a)
    ensures Enabled(Completed(s), a) && Erased(Step(s, a)) == Erased(Step(Completed(s), a))
  {
    hide UnconsumedRequests, Minus, Plus, SlotOf, Crosses, FreeRequests, Put, Get;
  }

  lemma KeptOrder(s: State)
    requires Kept(s)
    ensures Order(s.g, s.nr) && s.nr > 0
  {}

  lemma KeptOfErased(s: State, t: State)
    requires Inv(t) && Erased(s) == Erased(t)
    ensures Kept(s)
  {
    hide W, Held, DraftHeld, IsPow2;
    assert s.sh == t.sh && s.nr == t.nr;
    assert s.f.(got := []) == t.f.(got := []) && s.b.(accepted := []) == t.b.(accepted := []);
    assert Erased(s).g == Erased(t).g;
  }

  lemma StepKeepsAttached(s: State, a: Action)
    requires Kept(s) && Enabled(s, a)
    ensures Kept(Step(s, a))
  {
    hide Kept, Inv, Step, Enabled, Erased;
    KeptOrder(s);
    CompletedInv(s);
    SameStep(s, a);
    StepKeeps(Completed(s), a);
    KeptOfErased(Step(s, a), Step(Completed(s), a));
  }

  /** Attaching in any state of a run leaves the indices in order and the unread slots intact. */
  lemma AttachKeepsRing(s: State)
    requires Inv(s)
    ensures Kept(FrontAttached(s)) && Kept(BackAttached(s))
  {
    hide W, Off, IsPow2, Delivered, BackWakes, FrontWakes;
  }

  lemma {:induction false} RunKeepsAttached(s: State, run: seq<Action>)
    requires s.nr > 0 && Kept(s) && Runs(s, run)
    ensures Kept(Exec(s, run))
    decreases run
  {
    hide Kept, Step, Enabled;
    if run == [] {
    } else {
      StepKeepsAttached(s, run[0]);
      RunKeepsAttached(Step(s, run[0]), run[1..]);
    }
  }

  // ----- delivery -----

  /** What either side has received, as far as it goes back, is what was sent, from these on. */
  ghost predicate ReceivedFrom(s: State, rsp: nat, req: nat) {
    && rsp <= s.g.rspTaken <= |s.g.rsps| && s.f.got == s.g.rsps[rsp..s.g.rspTaken]
    && req <= s.g.reqTaken <= |s.g.reqs| && s.b.accepted == s.g.reqs[req..s.g.reqTaken]
  }

  lemma ReceivedOneMore(s: State, a: Action, rsp: nat, req: nat)
    requires Kept(s) && Enabled(s, a) && ReceivedFrom(s, rsp, req)
    ensures ReceivedFrom(Step(s, a), rsp, req)
  {
    hide W, Off, BitAnd, IsPow2, Crosses, UnconsumedRequests, FreeRequests, SlotOf, FrontOk, BackOk, Plus, Content;
    if a == TakeRequest {
      NextRequest(s, req);
    } else if a == TakeResponse {
      NextResponse(s, rsp);
    }
  }

  lemma NextRequest(s: State, req: nat)
    requires Kept(s) && Enabled(s, TakeRequest) && req <= s.g.reqTaken
    ensures s.nr > 0 && s.g.reqTaken < |s.g.reqs|
    ensures s.g.reqs[req..s.g.reqTaken] + [Get(s.sh.slots, SlotOf(s.b.reqCons, s.nr), [])]
            == s.g.reqs[req..s.g.reqTaken + 1]
  {
    hide W, Off, BitAnd, IsPow2, SlotOf, FrontOk, DraftHeld;
    SlotOfCount(s.g.reqTaken, s.nr);
    TakeOldest(s.sh.slots, s.g.reqs, s.g.reqTaken, s.nr);
  }

  lemma NextResponse(s: State, rsp: nat)
    requires Kept(s) && Enabled(s, TakeResponse) && rsp <= s.g.rspTaken
    ensures s.nr > 0 && s.g.rspTaken < |s.g.rsps|
    ensures s.g.rsps[rsp..s.g.rspTaken] + [Get(s.sh.slots, SlotOf(s.f.rspCons, s.nr), [])]
            == s.g.rsps[rsp..s.g.rspTaken + 1]
  {
    hide W, Off, BitAnd, IsPow2, SlotOf, BackOk, DraftHeld;
    WordsEqual(s.g.rspTaken, s.g.rspSeen);
    SlotOfCount(s.g.rspTaken, s.nr);
    TakeOldest(s.sh.slots, s.g.rsps, s.g.rspTaken, s.nr);
  }

  lemma {:induction false} ReceivedOverRun(s: State, run: seq<Action>, rsp: nat, req: nat)
    requires s.nr > 0 && Kept(s) && Runs(s, run) && ReceivedFrom(s, rsp, req)
    ensures ReceivedFrom(Exec(s, run), rsp, req)
    decreases run
  {
    hide Kept, Step, Enabled, ReceivedFrom;
    if run == [] {
    } else {
      StepKeepsAttached(s, run[0]);
      ReceivedOneMore(s, run[0], rsp, req);
      ReceivedOverRun(Step(s, run[0]), run[1..], rsp, req);
    }
  }

  /** A new front gets, in order and once each, the responses pushed after those it skipped; and
      the back still gets every request published, before the attach or after it. */
  lemma FrontAttachedIsFifo(s: State, run: seq<Action>)
    requires Inv(s) && Runs(FrontAttached(s), run)
    ensures Kept(Exec(FrontAttached(s), run)) && ReceivedFrom(Exec(FrontAttached(s), run), s.g.rspPub, 0)
  {
    hide Kept, Step, Enabled, Runs;
    AttachKeepsRing(s);
    AttachedReceived(s);
    RunKeepsAttached(FrontAttached(s), run);
    ReceivedOverRun(FrontAttached(s), run, s.g.rspPub, 0);
  }

  /** A new back gets the requests published after those it skipped, and the front every response
      published. */
  lemma BackAttachedIsFifo(s: State, run: seq<Action>)
    requires Inv(s) && Runs(BackAttached(s), run)
    ensures Kept(Exec(BackAttached(s), run)) && ReceivedFrom(Exec(BackAttached(s), run), 0, s.g.reqPub)
  {
    hide Kept, Step, Enabled, Runs;
    AttachKeepsRing(s);
    AttachedReceived(s);
    RunKeepsAttached(BackAttached(s), run);
    ReceivedOverRun(BackAttached(s), run, 0, s.g.reqPub);
  }

  lemma AttachedReceived(s: State)
    requires Inv(s)
    ensures ReceivedFrom(FrontAttached(s), s.g.rspPub, 0) && ReceivedFrom(BackAttached(s), 0, s.g.reqPub)
  {
    hide W, Content, IsPow2;
  }

  // ----- notifications -----

  /** There is something to take, and neither was the sleeping back notified nor will be by the
      push in progress, if any. */
  ghost predicate BackLost(s: State) {
    && s.g.backAsleep && !s.g.backNotified && (s.b.pc.BIdle? || s.b.pc.BPushed?)
    && s.sh.reqProd != s.b.reqCons && s.sh.reqEvent == Plus(s.b.reqCons, 1)
    && !(s.f.pc.FPushed? && Crosses(s.f.pc.before, s.f.pc.after, s.sh.reqEvent))
  }

  ghost predicate FrontLost(s: State) {
    && s.g.frontAsleep && !s.g.frontNotified && (s.f.pc.FIdle? || s.f.pc.FPushed?)
    && s.sh.rspProd != s.f.rspCons && s.sh.rspEvent == Plus(s.f.rspCons, 1)
    && !(s.b.pc.BPushed? && Crosses(s.b.pc.before, s.b.pc.after, s.sh.rspEvent))
  }

  /** A move that starts at or past the event does not cross it. */
  lemma PassedEvent(taken: nat, before: nat, after: nat)
    requires taken < before <= after < taken + TWO32
    ensures !Crosses(W(before), W(after), W(taken + 1))
  {
    CrossesIffMovedOver(before, after, W(taken + 1));
    if k :| before < k <= after && W(k) == W(taken + 1) {
      WordsEqual(k, taken + 1);
    }
  }

  predicate BackLooks(a: Action) {
    a in {ReadReqProd, TakeRequest, FinalReqRead}
  }

  predicate FrontLooks(a: Action) {
    a in {FetchResponses, TakeResponse, FinalRspRead}
  }

  lemma BackStaysLost(s: State, a: Action)
    requires Kept(s) && BackLost(s) && Enabled(s, a) && !BackLooks(a)
    ensures BackLost(Step(s, a))
  {
    hide W, Content, IsPow2, Crosses, UnconsumedRequests, FreeRequests, SlotOf, FrontOk, Plus;
    WordsEqual(s.g.reqPub, s.g.reqTaken);
    if a == PushRequests {
      PassedEvent(s.g.reqTaken, s.g.reqPub, |s.g.reqs|);
      PlusOfCounts(s.g.reqTaken, 1);
      WordsEqual(|s.g.reqs|, s.g.reqTaken);
    }
  }

  lemma FrontStaysLost(s: State, a: Action)
    requires Kept(s) && FrontLost(s) && Enabled(s, a) && !FrontLooks(a)
    ensures FrontLost(Step(s, a))
  {
    hide W, Content, IsPow2, Crosses, UnconsumedRequests, FreeRequests, SlotOf, BackOk, Plus;
    WordsEqual(s.g.rspPub, s.g.rspTaken);
    if a == PushResponses {
      PassedEvent(s.g.rspTaken, s.g.rspPub, |s.g.rsps|);
      PlusOfCounts(s.g.rspTaken, 1);
      WordsEqual(|s.g.rsps|, s.g.rspTaken);
    }
  }

  /** Then no run brings a notification: whatever the front pushes, the back has to look of its
      own accord. */
  lemma {:induction false} BackLostForGood(s: State, run: seq<Action>)
    requires s.nr > 0 && Kept(s) && BackLost(s) && Runs(s, run)
    requires forall i :: 0 <= i < |run| ==> !BackLooks(run[i])
    ensures BackLost(Exec(s, run))
    decreases run
  {
    hide Kept, Step, Enabled, BackLost;
    if run == [] {
    } else {
      StepKeepsAttached(s, run[0]);
      BackStaysLost(s, run[0]);
      BackLostForGood(Step(s, run[0]), run[1..]);
    }
  }

  lemma {:induction false} FrontLostForGood(s: State, run: seq<Action>)
    requires s.nr > 0 && Kept(s) && FrontLost(s) && Runs(s, run)
    requires forall i :: 0 <= i < |run| ==> !FrontLooks(run[i])
    ensures FrontLost(Exec(s, run))
    decreases run
  {
    hide Kept, Step, Enabled, FrontLost;
    if run == [] {
    } else {
      StepKeepsAttached(s, run[0]);
      FrontStaysLost(s, run[0]);
      FrontLostForGood(Step(s, run[0]), run[1..]);
    }
  }

  /** A new front loses the notification a sleeping back waits for exactly when the front before
      it stopped between its push and the read of the event index, and that push was the one to
      notify. Otherwise the back has been notified, or the new front's first push that moves the
      index notifies. */
  lemma FrontAttachLosesIff(s: State)
    requires Reachable(s) && s.g.backAsleep
    ensures Inv(s)
    ensures var t := FrontAttached(s);
            && (BackLost(t) <==> !s.g.backNotified && s.f.pc.FPushed?
                                 && Crosses(s.f.pc.before, s.f.pc.after, s.sh.reqEvent))
            && (!BackLost(t) ==> t.g.backNotified || t.sh.reqProd == t.b.reqCons)
            && (t.sh.reqProd == t.b.reqCons ==>
                  forall q: nat :: s.g.reqPub <= q <= s.g.reqPub + s.nr ==>
                    (Crosses(t.sh.reqProd, W(q), t.sh.reqEvent) <==> q > s.g.reqPub))
  {
    hide Content, Delivered, FrontWakes, FrontOk, BackOk, Crosses, Reachable, W, Plus;
    SleepingBackIsWoken(s);
    ReachableInv(s);
    PlusOfCounts(s.g.reqTaken, 1);
    if s.sh.reqProd == s.b.reqCons {
      WordsEqual(s.g.reqPub, s.g.reqTaken);
      forall q: nat | s.g.reqPub <= q <= s.g.reqPub + s.nr
        ensures Crosses(s.sh.reqProd, W(q), s.sh.reqEvent) <==> q > s.g.reqPub
      {
        NextIndexIsCaught(s.g.reqTaken, q);
      }
    }
  }

  lemma BackAttachLosesIff(s: State)
    requires Reachable(s) && s.g.frontAsleep
    ensures Inv(s)
    ensures var t := BackAttached(s);
            && (FrontLost(t) <==> !s.g.frontNotified && s.b.pc.BPushed?
                                  && Crosses(s.b.pc.before, s.b.pc.after, s.sh.rspEvent))
            && (!FrontLost(t) ==> t.g.frontNotified || t.sh.rspProd == t.f.rspCons)
            && (t.sh.rspProd == t.f.rspCons ==>
                  forall q: nat :: s.g.rspPub <= q <= s.g.rspPub + s.nr ==>
                    (Crosses(t.sh.rspProd, W(q), t.sh.rspEvent) <==> q > s.g.rspPub))
  {
    hide Content, Delivered, BackWakes, FrontOk, BackOk, Crosses, Reachable, W, Plus;
    SleepingFrontIsWoken(s);
    ReachableInv(s);
    PlusOfCounts(s.g.rspTaken, 1);
    if s.sh.rspProd == s.f.rspCons {
      WordsEqual(s.g.rspPub, s.g.rspTaken);
      forall q: nat | s.g.rspPub <= q <= s.g.rspPub + s.nr
        ensures Crosses(s.sh.rspProd, W(q), s.sh.rspEvent) <==> q > s.g.rspPub
      {
        NextIndexIsCaught(s.g.rspTaken, q);
      }
    }
  }

  /** It happens: on a new ring, a front that publishes one request and stops there. */
  lemma FrontAttachLoses(s: State, m: Message)
    requires Init(s)
    ensures s.nr > 0
    ensures var run := [WriteRequest(m), CommitRequest, PushRequests];
            && Runs(s, run) && Exec(s, run).g.reqPub <= |Exec(s, run).g.reqs|
            && BackLost(FrontAttached(Exec(s, run)))
  {
    hide Put, SlotOf;
    var s1 := Step(s, WriteRequest(m));
    var s2 := Step(s1, CommitRequest);
    var s3 := Step(s2, PushRequests);
    RunOfThree(s, WriteRequest(m), CommitRequest, PushRequests);
  }

  lemma RunOfThree(s: State, a: Action, b: Action, c: Action)
    requires s.nr > 0 && Enabled(s, a) && Enabled(Step(s, a), b) && Enabled(Step(Step(s, a), b), c)
    ensures Runs(s, [a, b, c]) && Exec(s, [a, b, c]) == Step(Step(Step(s, a), b), c)
  {
    hide Step, Enabled;
    var run := [a, b, c];
    var s1, s2 := Step(s, a), Step(Step(s, a), b);
    assert run[1..] == [b, c] && [b, c][1..] == [c] && [c][1..] == [];
    assert Runs(Step(s2, c), []) && Exec(Step(s2, c), []) == Step(s2, c);
    assert Runs(s2, [c]) && Exec(s2, [c]) == Step(s2, c);
    assert Runs(s1, [b, c]) && Exec(s1, [b, c]) == Step(s2, c);
  }
}
