/** What is pushed can be taken: runs that deliver, from any reachable state (inc/ring.h:168-287). */
module XenProgress {
  import opened Memory
  import opened Word32
  import opened EventIndex
  import opened XenMachine
  import opened XenInvariant
  import opened XenResults

  function Repeat(a: Action, n: nat): seq<Action> {
    if n == 0 then [] else [a] + Repeat(a, n - 1)
  }

  lemma First(s: State, a: Action, run: seq<Action>)
    requires s.nr > 0 && Enabled(s, a) && Runs(Step(s, a), run)
    ensures Runs(s, [a] + run) && Exec(s, [a] + run) == Exec(Step(s, a), run)
  {
    hide Step, Enabled;
    assert ([a] + run)[1..] == run;
  }

  lemma {:induction false} Then(s: State, run: seq<Action>, more: seq<Action>)
    requires s.nr > 0 && Runs(s, run) && Runs(Exec(s, run), more)
    ensures Runs(s, run + more) && Exec(s, run + more) == Exec(Exec(s, run), more)
    decreases run
  {
    hide Step, Enabled;
    if run == [] {
      assert run + more == more;
    } else {
      assert (run + more)[1..] == run[1..] + more;
      Then(Step(s, run[0]), run[1..], more);
    }
  }

  // ----- taking -----

  /** Up to the index it has read, the front takes response after response, and no more. */
  lemma {:induction false} FrontTakes(s: State, n: nat)
    requires Inv(s) && s.f.pc.FIdle? && n == s.g.rspSeen - s.g.rspTaken
    ensures s.nr > 0 && Runs(s, Repeat(TakeResponse, n))
    ensures var t := Exec(s, Repeat(TakeResponse, n));
            && Inv(t) && t.sh == s.sh && t.b == s.b && t.f.pc.FIdle? && t.f.rspCons == s.f.rspSeen
            && t.f.got == s.g.rsps[..s.g.rspSeen] && !Enabled(t, TakeResponse)
            && t.g.reqs == s.g.reqs && t.g.rsps == s.g.rsps
    decreases n
  {
    hide Inv, Enabled, Step;
    ResponsesLeft(s);
    if n > 0 {
      StepKeeps(s, TakeResponse);
      OneResponse(s);
      FrontTakes(Step(s, TakeResponse), n - 1);
      First(s, TakeResponse, Repeat(TakeResponse, n - 1));
    }
  }

  lemma ResponsesLeft(s: State)
    requires Inv(s) && s.f.pc.FIdle?
    ensures s.nr > 0 && s.g.rspTaken <= s.g.rspSeen <= |s.g.rsps| && s.f.got == s.g.rsps[..s.g.rspTaken]
    ensures Enabled(s, TakeResponse) <==> s.g.rspTaken < s.g.rspSeen
    ensures s.g.rspTaken == s.g.rspSeen ==> s.f.rspCons == s.f.rspSeen
  {
    hide Content, FrontOk, BackOk, BackWakes, FrontWakes, Signals, W;
    WordsEqual(s.g.rspTaken, s.g.rspSeen);
  }

  lemma OneResponse(s: State)
    requires s.nr > 0 && Enabled(s, TakeResponse)
    ensures var t := Step(s, TakeResponse);
            && t.sh == s.sh && t.b == s.b && t.f.pc == s.f.pc && t.f.rspSeen == s.f.rspSeen
            && t.g.reqs == s.g.reqs && t.g.rsps == s.g.rsps && t.g.rspSeen == s.g.rspSeen
            && t.g.rspTaken == s.g.rspTaken + 1
  {}

  /** As many requests as the guard allowed. */
  lemma {:induction false} BackTakes(s: State, n: nat)
    requires Inv(s) && s.b.pc.BIdle? && n == s.b.allowed
    ensures s.nr > 0 && Runs(s, Repeat(TakeRequest, n)) && s.g.reqTaken + n <= |s.g.reqs|
    ensures var t := Exec(s, Repeat(TakeRequest, n));
            && Inv(t) && t.sh == s.sh && t.f == s.f && t.b.pc.BIdle? && t.b.reqCons == W(s.g.reqTaken + n)
            && t.b.accepted == s.g.reqs[..s.g.reqTaken + n] && !Enabled(t, TakeRequest)
            && t.g.reqs == s.g.reqs && t.g.rsps == s.g.rsps && t.g.reqTaken == s.g.reqTaken + n
            && t.b.rspProdPvt == s.b.rspProdPvt
    decreases n
  {
    hide Inv, Enabled, Step, W;
    RequestsLeft(s);
    if n > 0 {
      StepKeeps(s, TakeRequest);
      OneRequest(s);
      BackTakes(Step(s, TakeRequest), n - 1);
      First(s, TakeRequest, Repeat(TakeRequest, n - 1));
    }
  }

  lemma RequestsLeft(s: State)
    requires Inv(s) && s.b.pc.BIdle?
    ensures s.nr > 0 && s.g.reqTaken + s.b.allowed <= |s.g.reqs| && s.b.accepted == s.g.reqs[..s.g.reqTaken]
    ensures s.b.reqCons == W(s.g.reqTaken) && (Enabled(s, TakeRequest) <==> s.b.allowed > 0)
  {
    hide Content, FrontOk, BackWakes, FrontWakes, Signals, W;
  }

  lemma OneRequest(s: State)
    requires s.nr > 0 && Enabled(s, TakeRequest)
    ensures var t := Step(s, TakeRequest);
            && t.sh == s.sh && t.f == s.f && t.b.pc == s.b.pc && t.b.allowed == s.b.allowed - 1
            && t.b.rspProdPvt == s.b.rspProdPvt
            && t.g.reqs == s.g.reqs && t.g.rsps == s.g.rsps && t.g.reqTaken == s.g.reqTaken + 1
  {}

  // ----- looking and taking -----

  /** An idle front that looks can take exactly as many responses as the macro counts, all that
      were pushed, each as it was written; and then it has caught up with the shared index. */
  lemma FrontCatchesUp(s: State)
    requires Inv(s) && s.f.pc.FIdle?
    ensures s.nr > 0 && s.g.rspTaken <= s.g.rspPub <= |s.g.rsps|
    ensures var n := UnconsumedResponses(s.sh.rspProd, s.f.rspCons);
            var run := [FetchResponses] + Repeat(TakeResponse, n);
            && Runs(s, run)
            && var t := Exec(s, run);
               && Inv(t) && t.sh == s.sh && t.b == s.b && t.f.pc.FIdle? && t.f.rspCons == s.sh.rspProd
               && t.f.got == s.f.got + s.g.rsps[s.g.rspTaken..s.g.rspPub] && n == s.g.rspPub - s.g.rspTaken
               && !Enabled(t, TakeResponse)
               && t.g.reqs == s.g.reqs && t.g.rsps == s.g.rsps
  {
    hide Inv, Step, Enabled, W, Exec, Runs, Repeat, Minus;
    var n := UnconsumedResponses(s.sh.rspProd, s.f.rspCons);
    FrontLooks(s);
    StepKeeps(s, FetchResponses);
    FrontTakes(Step(s, FetchResponses), n);
    First(s, FetchResponses, Repeat(TakeResponse, n));
  }

  lemma FrontLooks(s: State)
    requires Inv(s) && s.f.pc.FIdle?
    ensures s.nr > 0 && Enabled(s, FetchResponses) && s.g.rspTaken <= s.g.rspPub <= |s.g.rsps|
    ensures UnconsumedResponses(s.sh.rspProd, s.f.rspCons) == s.g.rspPub - s.g.rspTaken
    ensures s.g.rsps[..s.g.rspPub] == s.f.got + s.g.rsps[s.g.rspTaken..s.g.rspPub]
    ensures var t := Step(s, FetchResponses);
            && t.sh == s.sh && t.b == s.b && t.f.pc.FIdle? && t.f.rspSeen == s.sh.rspProd
            && t.g.reqs == s.g.reqs && t.g.rsps == s.g.rsps
            && t.g.rspSeen == s.g.rspPub && t.g.rspTaken == s.g.rspTaken
  {
    hide Content, FrontOk, BackOk, BackWakes, FrontWakes, Signals, W;
    MinusOfCounts(s.g.rspPub, s.g.rspTaken);
  }

  /** The same for an idle back and requests, through the guard with its two reads. */
  lemma BackCatchesUp(s: State)
    requires Inv(s) && s.b.pc.BIdle?
    ensures s.nr > 0 && s.g.reqTaken <= s.g.reqPub <= |s.g.reqs|
    ensures var n := Minus(s.sh.reqProd, s.b.reqCons);
            var run := [ReadReqProd] + ([ReadReqProdAgain] + Repeat(TakeRequest, n));
            && Runs(s, run)
            && var t := Exec(s, run);
               && Inv(t) && t.sh == s.sh && t.f == s.f && t.b.pc.BIdle? && t.b.reqCons == s.sh.reqProd
               && t.b.accepted == s.b.accepted + s.g.reqs[s.g.reqTaken..s.g.reqPub]
               && n == s.g.reqPub - s.g.reqTaken && !Enabled(t, TakeRequest)
               && t.g.reqs == s.g.reqs && t.g.rsps == s.g.rsps && t.g.reqTaken == s.g.reqPub
               && t.b.rspProdPvt == s.b.rspProdPvt
  {
    hide Inv, Step, Enabled, W, Exec, Runs, Repeat, Minus;
    var n := Minus(s.sh.reqProd, s.b.reqCons);
    BackLooks(s);
    StepKeeps(s, ReadReqProd);
    var s1 := Step(s, ReadReqProd);
    StepKeeps(s1, ReadReqProdAgain);
    BackTakes(Step(s1, ReadReqProdAgain), n);
    First(s1, ReadReqProdAgain, Repeat(TakeRequest, n));
    First(s, ReadReqProd, [ReadReqProdAgain] + Repeat(TakeRequest, n));
  }

  lemma BackLooks(s: State)
    requires Inv(s) && s.b.pc.BIdle?
    ensures s.nr > 0 && Enabled(s, ReadReqProd) && Enabled(Step(s, ReadReqProd), ReadReqProdAgain)
    ensures s.g.reqTaken <= s.g.reqPub <= |s.g.reqs|
    ensures Minus(s.sh.reqProd, s.b.reqCons) == s.g.reqPub - s.g.reqTaken && s.sh.reqProd == W(s.g.reqPub)
    ensures s.g.reqs[..s.g.reqPub] == s.b.accepted + s.g.reqs[s.g.reqTaken..s.g.reqPub]
    ensures var t := Step(Step(s, ReadReqProd), ReadReqProdAgain);
            && t.sh == s.sh && t.f == s.f && t.b.pc.BIdle? && t.b.allowed == s.g.reqPub - s.g.reqTaken
            && t.b.rspProdPvt == s.b.rspProdPvt
            && t.g.reqs == s.g.reqs && t.g.rsps == s.g.rsps && t.g.reqTaken == s.g.reqTaken
  {
    hide Content, FrontOk, BackWakes, FrontWakes, Signals, W, UnconsumedRequests;
    MinusOfCounts(s.g.reqPub, s.g.reqTaken);
    GuardIsUntaken(s.g.reqTaken, s.g.reqPub, s.g.reqPub, |s.g.rsps|, s.nr);
  }

  // ----- there and back -----

  /** Write a request, push it, and have the back look. */
  function RequestRun(m: Message, n: nat): seq<Action> {
    [WriteRequest(m), CommitRequest, PushRequests, ReadReqEvent]
    + ([ReadReqProd] + ([ReadReqProdAgain] + Repeat(TakeRequest, n)))
  }

  function ResponseRun(m: Message, n: nat): seq<Action> {
    [WriteResponse(m), CommitResponse, PushResponses, ReadRspEvent] + ([FetchResponses] + Repeat(TakeResponse, n))
  }

  lemma FourSteps(s: State, a: Action, b: Action, c: Action, d: Action)
    requires s.nr > 0 && Enabled(s, a) && Enabled(Step(s, a), b) && Enabled(Step(Step(s, a), b), c)
    requires Enabled(Step(Step(Step(s, a), b), c), d)
    ensures Runs(s, [a, b, c, d]) && Exec(s, [a, b, c, d]) == Step(Step(Step(Step(s, a), b), c), d)
  {
    hide Step, Enabled;
    var s1, s2, s3 := Step(s, a), Step(Step(s, a), b), Step(Step(Step(s, a), b), c);
    First(s3, d, []);
    First(s2, c, [d]);
    First(s1, b, [c, d]);
    First(s, a, [b, c, d]);
    assert [a] + [b, c, d] == [a, b, c, d] && [b] + [c, d] == [b, c, d] && [c] + [d] == [c, d] && [d] + [] == [d];
  }

  /** A request written, published and not yet looked for. */
  lemma Requested(s: State, m: Message)
    requires Inv(s) && s.f.pc.FIdle? && FreeRequests(s.f.reqProdPvt, s.f.rspCons, s.nr) != 0
    ensures s.nr > 0 && Runs(s, [WriteRequest(m), CommitRequest, PushRequests, ReadReqEvent])
    ensures var t := Exec(s, [WriteRequest(m), CommitRequest, PushRequests, ReadReqEvent]);
            && Inv(t) && t.b == s.b && t.f.pc.FIdle? && t.f.got == s.f.got && t.f.rspCons == s.f.rspCons
            && t.g.reqs == s.g.reqs + [m] && t.g.rsps == s.g.rsps && t.g.reqPub == |t.g.reqs|
            && t.g.reqTaken == s.g.reqTaken && t.sh.rspProd == s.sh.rspProd && t.sh.reqProd == t.f.reqProdPvt
  {
    hide Inv, Plus, Put, SlotOf, Crosses, FreeRequests;
    assert s.nr > 0 by { RingHasEntries(s); }
    StepKeeps(s, WriteRequest(m));
    var s1 := Step(s, WriteRequest(m));
    StepKeeps(s1, CommitRequest);
    var s2 := Step(s1, CommitRequest);
    StepKeeps(s2, PushRequests);
    var s3 := Step(s2, PushRequests);
    StepKeeps(s3, ReadReqEvent);
    FourSteps(s, WriteRequest(m), CommitRequest, PushRequests, ReadReqEvent);
  }

  lemma RingHasEntries(s: State)
    requires Inv(s)
    ensures s.nr > 0
  {}

  lemma Responded(s: State, m: Message)
    requires Inv(s) && s.b.pc.BIdle? && s.b.rspProdPvt != s.b.reqCons
    ensures s.nr > 0 && Runs(s, [WriteResponse(m), CommitResponse, PushResponses, ReadRspEvent])
    ensures var t := Exec(s, [WriteResponse(m), CommitResponse, PushResponses, ReadRspEvent]);
            && Inv(t) && t.f == s.f && t.b.pc.BIdle? && t.b.accepted == s.b.accepted
            && t.g.rsps == s.g.rsps + [m] && t.g.reqs == s.g.reqs && t.g.rspPub == |t.g.rsps|
            && t.sh.rspProd == t.b.rspProdPvt && t.g.rspTaken == s.g.rspTaken
  {
    hide Inv, Plus, Put, SlotOf, Crosses, FreeRequests;
    assert s.nr > 0 by { RingHasEntries(s); }
    StepKeeps(s, WriteResponse(m));
    var s1 := Step(s, WriteResponse(m));
    StepKeeps(s1, CommitResponse);
    var s2 := Step(s1, CommitResponse);
    StepKeeps(s2, PushResponses);
    var s3 := Step(s2, PushResponses);
    StepKeeps(s3, ReadRspEvent);
    FourSteps(s, WriteResponse(m), CommitResponse, PushResponses, ReadRspEvent);
  }

  lemma SliceOut<T>(a: seq<T>, taken: nat, got: seq<T>)
    requires taken <= |a| && got == a[..taken]
    ensures got + a[taken..|a|] == a
  {}

  lemma GotSoFar(s: State)
    requires Inv(s)
    ensures s.g.rspTaken <= |s.g.rsps| && s.f.got == s.g.rsps[..s.g.rspTaken]
    ensures s.g.reqTaken <= |s.g.reqs| && s.b.accepted == s.g.reqs[..s.g.reqTaken]
  {}

  /** A front that has a free entry gets its request through, and those before it; a back that
      has an unanswered request gets its response through. */
  lemma RequestArrives(s: State, m: Message)
    requires Inv(s) && s.f.pc.FIdle? && s.b.pc.BIdle? && FreeRequests(s.f.reqProdPvt, s.f.rspCons, s.nr) != 0
    ensures s.nr > 0
    ensures var run := RequestRun(m, Minus(s.f.reqProdPvt, s.b.reqCons) + 1);
            && Runs(s, run)
            && var t := Exec(s, run);
               && Inv(t) && t.f.pc.FIdle? && t.b.pc.BIdle? && t.b.accepted == s.g.reqs + [m]
               && t.g.reqs == s.g.reqs + [m] && t.g.rsps == s.g.rsps && t.f.got == s.f.got
               && t.b.reqCons == t.sh.reqProd == t.f.reqProdPvt && t.b.rspProdPvt != t.b.reqCons
  {
    hide Inv, Step, Enabled, Minus, FreeRequests, W, Runs, Exec, Repeat;
    Requested(s, m);
    var four := [WriteRequest(m), CommitRequest, PushRequests, ReadReqEvent];
    var s1 := Exec(s, four);
    BackCatchesUp(s1);
    GotSoFar(s1);
    SliceOut(s1.g.reqs, s1.g.reqTaken, s1.b.accepted);
    var n := Minus(s1.sh.reqProd, s1.b.reqCons);
    var tail := [ReadReqProd] + ([ReadReqProdAgain] + Repeat(TakeRequest, n));
    Then(s, four, tail);
    OneMoreUntaken(s);
    Unanswered(Exec(s1, tail));
    assert Exec(s1, tail).g.reqTaken > |s.g.rsps| by { AnsweredIsTaken(s); }
  }

  lemma OneMoreUntaken(s: State)
    requires Inv(s)
    ensures Minus(s.f.reqProdPvt, s.b.reqCons) == |s.g.reqs| - s.g.reqTaken
  {
    hide Content, FrontOk, BackOk, BackWakes, FrontWakes, Signals, W, Minus;
    MinusOfCounts(|s.g.reqs|, s.g.reqTaken);
  }

  lemma AnsweredIsTaken(s: State)
    requires Inv(s)
    ensures |s.g.rsps| <= s.g.reqTaken <= |s.g.reqs|
  {}

  lemma Unanswered(s: State)
    requires Inv(s)
    ensures s.b.rspProdPvt != s.b.reqCons <==> |s.g.rsps| < s.g.reqTaken
  {
    hide Content, FrontOk, BackOk, BackWakes, FrontWakes, Signals, W;
    WordsEqual(|s.g.rsps|, s.g.reqTaken);
  }

  lemma ResponseArrives(s: State, m: Message)
    requires Inv(s) && s.f.pc.FIdle? && s.b.pc.BIdle? && s.b.rspProdPvt != s.b.reqCons
    ensures s.nr > 0
    ensures var run := ResponseRun(m, Minus(s.b.rspProdPvt, s.f.rspCons) + 1);
            && Runs(s, run)
            && var t := Exec(s, run);
               && Inv(t) && t.f.pc.FIdle? && t.b.pc.BIdle? && t.f.got == s.g.rsps + [m]
               && t.b.accepted == s.b.accepted && t.f.rspCons == t.sh.rspProd == t.b.rspProdPvt
  {
    hide Inv, Step, Enabled, Minus, FreeRequests, W, Runs, Exec, Repeat;
    Responded(s, m);
    var four := [WriteResponse(m), CommitResponse, PushResponses, ReadRspEvent];
    var s1 := Exec(s, four);
    FrontCatchesUp(s1);
    GotSoFar(s1);
    SliceOut(s1.g.rsps, s1.g.rspTaken, s1.f.got);
    var tail := [FetchResponses] + Repeat(TakeResponse, UnconsumedResponses(s1.sh.rspProd, s1.f.rspCons));
    Then(s, four, tail);
    UnreadResponses(s);
    UnreadResponses(s1);
  }

  lemma UnreadResponses(s: State)
    requires Inv(s)
    ensures Minus(s.b.rspProdPvt, s.f.rspCons) == |s.g.rsps| - s.g.rspTaken
  {
    hide Content, FrontOk, BackOk, BackWakes, FrontWakes, Signals, W, Minus;
    MinusOfCounts(|s.g.rsps|, s.g.rspTaken);
  }

  // ----- going to sleep -----

  lemma ThreeSteps(s: State, a: Action, b: Action, c: Action)
    requires s.nr > 0 && Enabled(s, a) && Enabled(Step(s, a), b) && Enabled(Step(Step(s, a), b), c)
    ensures Runs(s, [a, b, c]) && Exec(s, [a, b, c]) == Step(Step(Step(s, a), b), c)
  {
    hide Step, Enabled;
    First(Step(Step(s, a), b), c, []);
    First(Step(s, a), b, [c]);
    First(s, a, [b, c]);
    assert [a] + [b, c] == [a, b, c] && [b] + [c] == [b, c] && [c] + [] == [c];
  }

  /** A final check by a front alone: with responses to take it is back at once, awake; with none it
      ends asleep, having asked for the very next one. */
  lemma FrontSleepsIff(s: State)
    requires s.nr > 0 && s.f.pc.FIdle?
    ensures UnconsumedResponses(s.sh.rspProd, s.f.rspCons) != 0 ==>
              var t := Step(s, FinalRspRead); t.f == s.f && t.sh == s.sh && !t.g.frontAsleep
    ensures UnconsumedResponses(s.sh.rspProd, s.f.rspCons) == 0 ==>
              && Runs(s, [FinalRspRead, WriteRspEvent, FinalRspRecheck])
              && var t := Exec(s, [FinalRspRead, WriteRspEvent, FinalRspRecheck]);
                 && t.f == s.f && t.sh == s.sh.(rspEvent := Plus(s.f.rspCons, 1))
                 && t.g.frontAsleep && !t.g.frontNotified
  {
    hide UnconsumedResponses, Plus, Runs, Exec;
    if UnconsumedResponses(s.sh.rspProd, s.f.rspCons) == 0 {
      ThreeSteps(s, FinalRspRead, WriteRspEvent, FinalRspRecheck);
    }
  }

  /** The same for the back, through its guards. */
  lemma BackSleepsIff(s: State)
    requires s.nr > 0 && s.b.pc.BIdle?
    ensures var s2 := Step(Step(s, FinalReqRead), FinalReqReadAgain);
            if Guard(s, s.sh.reqProd) != 0 then
              s2.b == s.b.(allowed := Guard(s, s.sh.reqProd)) && s2.sh == s.sh && !s2.g.backAsleep
            else
              && Runs(s2, [WriteReqEvent, FinalReqRecheck, FinalReqRecheckAgain])
              && var t := Exec(s2, [WriteReqEvent, FinalReqRecheck, FinalReqRecheckAgain]);
                 && t.b == s.b.(allowed := 0) && t.sh == s.sh.(reqEvent := Plus(s.b.reqCons, 1))
                 && t.g.backAsleep && !t.g.backNotified
  {
    hide UnconsumedRequests, Plus, Runs, Exec;
    var s2 := Step(Step(s, FinalReqRead), FinalReqReadAgain);
    if Guard(s, s.sh.reqProd) == 0 {
      ThreeSteps(s2, WriteReqEvent, FinalReqRecheck, FinalReqRecheckAgain);
    }
  }
}
