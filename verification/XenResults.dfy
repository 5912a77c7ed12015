/** What holds of every run of the Xen ring machine, stated on the program's own words. */
module XenResults {
  import opened Memory
  import opened Word32
  import opened EventIndex
  import opened XenMachine
  import opened XenInvariant

  ghost predicate Reachable(s: State) {
    exists s0: State, run: seq<Action> ::
      Init(s0) && s0.nr > 0 && Runs(s0, run) && Exec(s0, run) == s
  }

  lemma StepKeeps(s: State, a: Action)
    requires Inv(s) && Enabled(s, a)
    ensures Inv(Step(s, a))
  {
    hide Inv, Enabled, Step;
    match a
    case WriteRequest(m) => WriteRequestKeeps(s, m);
    case CommitRequest => CommitRequestKeeps(s);
    case PushRequests => PushRequestsKeeps(s);
    case ReadReqEvent => ReadEventKeeps(s, a);
    case FetchResponses => ReadingKeeps(s, a);
    case TakeResponse => TakeResponseKeeps(s);
    case FinalRspRead => ReadingKeeps(s, a);
    case WriteRspEvent => AskingKeeps(s, a);
    case FinalRspRecheck => FinalRspRecheckKeeps(s);
    case ReadReqProd => ReadingKeeps(s, a);
    case ReadReqProdAgain => GuardingKeeps(s, a);
    case TakeRequest => TakeRequestKeeps(s);
    case WriteResponse(m) => WriteResponseKeeps(s, m);
    case CommitResponse => CommitResponseKeeps(s);
    case PushResponses => PushResponsesKeeps(s);
    case ReadRspEvent => ReadEventKeeps(s, a);
    case FinalReqRead => ReadingKeeps(s, a);
    case FinalReqReadAgain => GuardingKeeps(s, a);
    case WriteReqEvent => AskingKeeps(s, a);
    case FinalReqRecheck => ReadingKeeps(s, a);
    case FinalReqRecheckAgain => GuardingKeeps(s, a);
  }

  lemma {:induction false} RunKeeps(s: State, run: seq<Action>)
    requires s.nr > 0 && Inv(s) && Runs(s, run)
    ensures Inv(Exec(s, run))
    decreases run
  {
    hide Inv, Step, Enabled;
    if run == [] {
    } else {
      StepKeeps(s, run[0]);
      RunKeeps(Step(s, run[0]), run[1..]);
    }
  }

  lemma ReachableInv(s: State)
    requires Reachable(s)
    ensures Inv(s)
  {
    hide Inv, Step, Enabled, Init;
    var s0: State, run: seq<Action> :| Init(s0) && s0.nr > 0 && Runs(s0, run) && Exec(s0, run) == s;
    InitInv(s0);
    RunKeeps(s0, run);
  }

  // ----- slot ownership -----

  /** In every reachable state the distances between the six indices, and the free entries the
      front computes, add up to the ring: so rsp_cons <= rsp_prod <= rsp_prod_pvt <= req_cons <=
      req_prod <= req_prod_pvt <= rsp_cons + nr_ents, across any wrap of the words. */
  lemma IndexChain(s: State)
    requires Reachable(s)
    ensures Minus(s.sh.rspProd, s.f.rspCons) + Minus(s.b.rspProdPvt, s.sh.rspProd)
            + Minus(s.b.reqCons, s.b.rspProdPvt) + Minus(s.sh.reqProd, s.b.reqCons)
            + Minus(s.f.reqProdPvt, s.sh.reqProd) + FreeRequests(s.f.reqProdPvt, s.f.rspCons, s.nr) == s.nr
  {
    hide W, Content, Delivered, BackWakes, FrontWakes, FrontOk, BackOk, FreeRequests, Minus;
    ReachableInv(s);
    MinusOfCounts(s.g.rspPub, s.g.rspTaken);
    MinusOfCounts(|s.g.rsps|, s.g.rspPub);
    MinusOfCounts(s.g.reqTaken, |s.g.rsps|);
    MinusOfCounts(s.g.reqPub, s.g.reqTaken);
    MinusOfCounts(|s.g.reqs|, s.g.reqPub);
    FreeIsReal(|s.g.reqs|, s.g.rspTaken, s.nr);
  }

  /** Free, requested, in process and answered slots make up the ring. */
  lemma SlotClassesSum(s: State)
    requires Reachable(s)
    ensures FreeRequests(s.f.reqProdPvt, s.f.rspCons, s.nr) + Minus(s.f.reqProdPvt, s.b.reqCons)
            + Minus(s.b.reqCons, s.b.rspProdPvt) + Minus(s.b.rspProdPvt, s.f.rspCons) == s.nr
  {
    hide W, Content, Delivered, BackWakes, FrontWakes, FrontOk, BackOk, FreeRequests, Minus;
    ReachableInv(s);
    MinusOfCounts(|s.g.rsps|, s.g.rspTaken);
    MinusOfCounts(s.g.reqTaken, |s.g.rsps|);
    MinusOfCounts(|s.g.reqs|, s.g.reqTaken);
    FreeIsReal(|s.g.reqs|, s.g.rspTaken, s.nr);
  }

  /** No step of either side changes a slot holding a request the back has not taken, or a
      response the front has not taken, although they share the slots. */
  lemma UnreadSlotsUntouched(s: State, a: Action, k: nat)
    requires Inv(s) && Enabled(s, a)
    ensures |Step(s, a).sh.slots| == |s.sh.slots| == s.nr > 0
    ensures s.g.reqTaken <= k < |s.g.reqs| ==>
              Step(s, a).sh.slots[Off(k, s.nr)] == s.sh.slots[Off(k, s.nr)] == s.g.reqs[k]
    ensures s.g.rspTaken <= k < |s.g.rsps| ==>
              Step(s, a).sh.slots[Off(k, s.nr)] == s.sh.slots[Off(k, s.nr)] == s.g.rsps[k]
  {
    hide Off, W, BitAnd, Crosses, Held, IsPow2, SlotOf, Put, BackWakes, FrontWakes, FrontOk, BackOk, DraftHeld,
         FreeRequests, UnconsumedRequests, Minus, Plus, Delivered, Get, UnconsumedResponses;
    HeldAt(s, k);
    match a {
      case WriteRequest(m) =>
        FreeIsReal(|s.g.reqs|, s.g.rspTaken, s.nr);
        SlotOfCount(|s.g.reqs|, s.nr);
        if s.g.rspTaken <= k < |s.g.reqs| { PutElsewhere(s.sh.slots, |s.g.reqs|, k, s.nr, m); }
      case WriteResponse(m) =>
        WordsEqual(|s.g.rsps|, s.g.reqTaken);
        SlotOfCount(|s.g.rsps|, s.nr);
        if s.g.reqTaken <= k < |s.g.reqs| { PutElsewhere(s.sh.slots, k, |s.g.rsps|, s.nr, m); }
        if s.g.rspTaken <= k < |s.g.rsps| { PutElsewhere(s.sh.slots, |s.g.rsps|, k, s.nr, m); }
      case _ =>
    }
  }

  /** Requests in process lie where the back end may still look at them: the front never writes
      their slots, and the back only the one its next response goes to. */
  lemma InProcessSlotsUntouched(s: State, a: Action, k: nat)
    requires Inv(s) && Enabled(s, a) && |s.g.rsps| <= k < |s.g.reqs|
    ensures |Step(s, a).sh.slots| == |s.sh.slots| == s.nr > 0
    ensures Step(s, a).sh.slots[Off(k, s.nr)] == s.sh.slots[Off(k, s.nr)]
            || (a.WriteResponse? && k == |s.g.rsps|)
  {
    hide Off, W, BitAnd, Crosses, Held, IsPow2, SlotOf, Put, BackWakes, FrontWakes, FrontOk, BackOk, DraftHeld,
         FreeRequests, UnconsumedRequests, Minus, Plus, Delivered, Get, UnconsumedResponses, Signals;
    HeldAt(s, k);
    match a {
      case WriteRequest(m) =>
        FreeIsReal(|s.g.reqs|, s.g.rspTaken, s.nr);
        SlotOfCount(|s.g.reqs|, s.nr);
        PutElsewhere(s.sh.slots, |s.g.reqs|, k, s.nr, m);
      case WriteResponse(m) =>
        WordsEqual(|s.g.rsps|, s.g.reqTaken);
        SlotOfCount(|s.g.rsps|, s.nr);
        if k > |s.g.rsps| { PutElsewhere(s.sh.slots, k, |s.g.rsps|, s.nr, m); }
      case _ =>
    }
  }

  lemma HeldAt(s: State, k: nat)
    requires Inv(s)
    ensures |s.sh.slots| == s.nr > 0
    ensures s.g.reqTaken <= k < |s.g.reqs| ==> s.sh.slots[Off(k, s.nr)] == s.g.reqs[k]
    ensures s.g.rspTaken <= k < |s.g.rsps| ==> s.sh.slots[Off(k, s.nr)] == s.g.rsps[k]
  {
    hide Off, W, BitAnd, BackWakes, FrontWakes, FrontOk, BackOk, DraftHeld, Delivered;
  }

  // ----- requests and responses arrive once each, in order -----

  /** The requests a run commits, each as last written before its commit. */
  function Requests(s: State, run: seq<Action>): seq<Message>
    requires s.nr > 0 && Runs(s, run)
    decreases run
  {
    if run == [] then []
    else (if run[0] == CommitRequest then [s.f.draft.message] else []) + Requests(Step(s, run[0]), run[1..])
  }

  function Responses(s: State, run: seq<Action>): seq<Message>
    requires s.nr > 0 && Runs(s, run)
    decreases run
  {
    if run == [] then []
    else (if run[0] == CommitResponse then [s.b.draft.message] else []) + Responses(Step(s, run[0]), run[1..])
  }

  lemma StepLogsRequests(s: State, a: Action)
    requires s.nr > 0 && Enabled(s, a)
    ensures Step(s, a).g.reqs == s.g.reqs + if a == CommitRequest then [s.f.draft.message] else []
  {
    hide UnconsumedRequests, Minus, Plus, Put, Get, SlotOf, Crosses, FreeRequests, Guard;
  }

  lemma StepLogsResponses(s: State, a: Action)
    requires s.nr > 0 && Enabled(s, a)
    ensures Step(s, a).g.rsps == s.g.rsps + if a == CommitResponse then [s.b.draft.message] else []
  {
    hide UnconsumedRequests, Minus, Plus, Put, Get, SlotOf, Crosses, FreeRequests, Guard;
  }

  lemma {:induction false} LogsAreCommits(s: State, run: seq<Action>)
    requires s.nr > 0 && Runs(s, run)
    ensures Exec(s, run).g.reqs == s.g.reqs + Requests(s, run)
    ensures Exec(s, run).g.rsps == s.g.rsps + Responses(s, run)
    decreases run
  {
    hide Step, Enabled;
    if run == [] {
    } else {
      StepLogsRequests(s, run[0]);
      StepLogsResponses(s, run[0]);
      LogsAreCommits(Step(s, run[0]), run[1..]);
    }
  }

  /** Over every interleaving, the back accepts a prefix of the requests committed and the front
      gets a prefix of the responses committed; all of them once the indices meet. */
  lemma BothDirectionsAreFifo(s0: State, run: seq<Action>)
    requires Init(s0) && s0.nr > 0 && Runs(s0, run)
    ensures var s := Exec(s0, run);
            && s.b.accepted <= Requests(s0, run) && s.f.got <= Responses(s0, run)
            && (s.b.reqCons == s.f.reqProdPvt ==> s.b.accepted == Requests(s0, run))
            && (s.f.rspCons == s.b.rspProdPvt ==> s.f.got == Responses(s0, run))
  {
    hide Step, Enabled, Content, BackWakes, FrontWakes, FrontOk, BackOk, W;
    InitInv(s0);
    RunKeeps(s0, run);
    LogsAreCommits(s0, run);
    var s := Exec(s0, run);
    WordsEqual(s.g.reqTaken, |s.g.reqs|);
    WordsEqual(s.g.rspTaken, |s.g.rsps|);
    assert s.g.reqs[..|s.g.reqs|] == s.g.reqs && s.g.rsps[..|s.g.rsps|] == s.g.rsps;
  }

  // ----- the back end's guard -----

  /** For a well-behaved front the guard is req_prod - req_cons: the room never binds. */
  lemma GuardIsDifference(s: State)
    requires Reachable(s)
    ensures UnconsumedRequests(s.sh.reqProd, s.sh.reqProd, s.b.reqCons, s.b.rspProdPvt, s.nr)
            == Minus(s.sh.reqProd, s.b.reqCons)
  {
    hide W, Content, Delivered, BackWakes, FrontWakes, FrontOk, BackOk, UnconsumedRequests, Minus;
    ReachableInv(s);
    GuardIsUntaken(s.g.reqTaken, s.g.reqPub, s.g.reqPub, |s.g.rsps|, s.nr);
    MinusOfCounts(s.g.reqPub, s.g.reqTaken);
  }

  /** A back end on its own, facing a front that may write anything: each guard reads req_prod
      twice, and the two values may have nothing to do with each other. It takes what a guard
      allowed and answers what it took. */
  datatype BackMove = Check(first: Word, second: Word) | Take | Answer

  datatype Alone = Alone(taken: nat, answered: nat, allowed: nat)

  predicate MayMove(b: Alone, m: BackMove) {
    match m
    case Check(_, _) => true
    case Take => b.allowed > 0
    case Answer => b.answered < b.taken
  }

  function Move(b: Alone, nr: Word, m: BackMove): Alone
    requires MayMove(b, m)
  {
    match m
    case Check(x, y) => b.(allowed := UnconsumedRequests(x, y, W(b.taken), W(b.answered), nr))
    case Take => b.(taken := b.taken + 1, allowed := b.allowed - 1)
    case Answer => b.(answered := b.answered + 1)
  }

  predicate Moves(b: Alone, nr: Word, moves: seq<BackMove>)
    decreases moves
  {
    moves == [] || (MayMove(b, moves[0]) && Moves(Move(b, nr, moves[0]), nr, moves[1..]))
  }

  function AfterMoves(b: Alone, nr: Word, moves: seq<BackMove>): Alone
    requires Moves(b, nr, moves)
    decreases moves
  {
    if moves == [] then b else AfterMoves(Move(b, nr, moves[0]), nr, moves[1..])
  }

  /** Every request taken, or allowed to be taken, has an entry for its response. */
  predicate WithinRoom(b: Alone, nr: Word) {
    b.answered <= b.taken && b.taken + b.allowed <= b.answered + nr
  }

  predicate AlwaysWithinRoom(b: Alone, nr: Word, moves: seq<BackMove>)
    requires Moves(b, nr, moves)
    decreases moves
  {
    WithinRoom(b, nr) && (moves == [] || AlwaysWithinRoom(Move(b, nr, moves[0]), nr, moves[1..]))
  }

  /** Of the two values a guard reads, the first already reaches the room or the second does not
      pass it. */
  predicate FitsRoom(b: Alone, nr: Word, m: BackMove) {
    m.Check? ==>
      || Minus(m.first, W(b.taken)) >= nr - (b.taken - b.answered)
      || Minus(m.second, W(b.taken)) <= nr - (b.taken - b.answered)
  }

  predicate ReadsFit(b: Alone, nr: Word, moves: seq<BackMove>)
    requires Moves(b, nr, moves)
    decreases moves
  {
    moves == [] || (FitsRoom(b, nr, moves[0]) && ReadsFit(Move(b, nr, moves[0]), nr, moves[1..]))
  }

  lemma CheckedRoom(b: Alone, nr: Word, m: BackMove)
    requires nr <= 0x8000_0000 && WithinRoom(b, nr) && MayMove(b, m)
    ensures WithinRoom(Move(b, nr, m), nr) <==> FitsRoom(b, nr, m)
  {
    MinusOfCounts(b.taken, b.answered);
  }

  /** The back end stays within the room for responses throughout a run exactly when every guard
      of the run reads fitting values. */
  lemma {:induction false} BackWithinRoomIff(b: Alone, nr: Word, moves: seq<BackMove>)
    requires nr <= 0x8000_0000 && WithinRoom(b, nr) && Moves(b, nr, moves)
    ensures AlwaysWithinRoom(b, nr, moves) <==> ReadsFit(b, nr, moves)
    decreases moves
  {
    hide Move, MayMove, FitsRoom, WithinRoom;
    if moves == [] {
    } else {
      CheckedRoom(b, nr, moves[0]);
      if FitsRoom(b, nr, moves[0]) {
        BackWithinRoomIff(Move(b, nr, moves[0]), nr, moves[1..]);
      } else {
        NotWithinNow(Move(b, nr, moves[0]), nr, moves[1..]);
      }
    }
  }

  lemma NotWithinNow(b: Alone, nr: Word, moves: seq<BackMove>)
    requires Moves(b, nr, moves) && !WithinRoom(b, nr)
    ensures !AlwaysWithinRoom(b, nr, moves)
  {}

  /** With one read per guard, as in the form with a statement expression, every run stays within
      the room whatever values req_prod takes. */
  lemma {:induction false} BackNeverOverruns(b: Alone, nr: Word, moves: seq<BackMove>)
    requires nr <= 0x8000_0000 && WithinRoom(b, nr) && Moves(b, nr, moves)
    requires forall i :: 0 <= i < |moves| && moves[i].Check? ==> moves[i].first == moves[i].second
    ensures AlwaysWithinRoom(b, nr, moves) && WithinRoom(AfterMoves(b, nr, moves), nr)
    decreases moves
  {
    hide Move, MayMove, WithinRoom;
    if moves == [] {
    } else {
      CheckedRoom(b, nr, moves[0]);
      BackNeverOverruns(Move(b, nr, moves[0]), nr, moves[1..]);
    }
  }

  lemma {:induction false} TakesAddUp(b: Alone, nr: Word, n: nat)
    requires n <= b.allowed
    ensures var takes := seq(n, _ => Take);
            Moves(b, nr, takes) && AfterMoves(b, nr, takes) == b.(taken := b.taken + n, allowed := b.allowed - n)
    decreases n
  {
    if n == 0 {
    } else {
      TakesAddUp(Move(b, nr, Take), nr, n - 1);
      assert seq(n, _ => Take)[1..] == seq(n - 1, _ => Take);
    }
  }

  /** With two reads it need not: of eight entries, reads of 0 and then 100 allow 100 requests, and
      taking nine of them leaves more unanswered than there are entries. */
  lemma TwoReadsOverrun()
    ensures var b, moves := Alone(0, 0, 0), [Check(0, 100)] + seq(9, _ => Take);
            && WithinRoom(b, 8) && Moves(b, 8, moves) && !ReadsFit(b, 8, moves)
            && AfterMoves(b, 8, moves) == Alone(9, 0, 91)
  {
    var b, moves := Alone(0, 0, 0), [Check(0, 100)] + seq(9, _ => Take);
    assert Move(b, 8, moves[0]) == Alone(0, 0, 100);
    assert moves[1..] == seq(9, _ => Take);
    TakesAddUp(Alone(0, 0, 100), 8, 9);
  }

  /** The loop termination test holds for the next request exactly when every entry is in
      process; then there is no request to take. */
  lemma OverflowMeansNoneUntaken(s: State)
    requires Reachable(s)
    ensures RequestConsOverflow(s.b.reqCons, s.b.rspProdPvt, s.nr)
            <==> Minus(s.b.reqCons, s.b.rspProdPvt) == s.nr
    ensures RequestConsOverflow(s.b.reqCons, s.b.rspProdPvt, s.nr) ==> s.sh.reqProd == s.b.reqCons
  {
    hide W, Content, Delivered, BackWakes, FrontWakes, FrontOk, BackOk, Minus;
    ReachableInv(s);
    MinusOfCounts(s.g.reqTaken, |s.g.rsps|);
  }

  // ----- no lost wakeups -----

  /** Since a final check found no requests and the back has not looked: the index it would see
      differs from its own exactly when a notification has been sent, or the push that moved the
      index, still between its two shared accesses, will send one. */
  lemma SleepingBackIsWoken(s: State)
    requires Reachable(s) && s.g.backAsleep
    ensures s.sh.reqProd != s.b.reqCons
            <==> || s.g.backNotified
                 || (s.f.pc.FPushed? && Crosses(s.f.pc.before, s.f.pc.after, s.sh.reqEvent))
  {
    hide W, Content, Delivered, FrontWakes, FrontOk, BackOk, Crosses;
    ReachableInv(s);
    WordsEqual(s.g.reqPub, s.g.reqTaken);
    if s.f.pc.FPushed? { NoSelfCross(s.f.pc.before, s.g.reqTaken); }
  }

  lemma SleepingFrontIsWoken(s: State)
    requires Reachable(s) && s.g.frontAsleep
    ensures s.sh.rspProd != s.f.rspCons
            <==> || s.g.frontNotified
                 || (s.b.pc.BPushed? && Crosses(s.b.pc.before, s.b.pc.after, s.sh.rspEvent))
  {
    hide W, Content, Delivered, BackWakes, FrontOk, BackOk, Crosses;
    ReachableInv(s);
    WordsEqual(s.g.rspPub, s.g.rspTaken);
    if s.b.pc.BPushed? { NoSelfCross(s.b.pc.before, s.g.rspTaken); }
  }

  /** While the index has not moved since the check, the next push that moves it, however large
      the batch, reports that it must notify; one that does not move it, that it need not. */
  lemma NextPushNotifies(s: State)
    requires Reachable(s)
    ensures s.g.backAsleep && s.sh.reqProd == s.b.reqCons && s.f.pc.FIdle? ==>
              (Crosses(s.sh.reqProd, s.f.reqProdPvt, s.sh.reqEvent) <==> s.f.reqProdPvt != s.sh.reqProd)
    ensures s.g.frontAsleep && s.sh.rspProd == s.f.rspCons && s.b.pc.BIdle? ==>
              (Crosses(s.sh.rspProd, s.b.rspProdPvt, s.sh.rspEvent) <==> s.b.rspProdPvt != s.sh.rspProd)
  {
    hide W, Content, Delivered, FrontOk, BackOk, Crosses, Signals;
    ReachableInv(s);
    NextIndexIsCaught(s.g.reqTaken, |s.g.reqs|);
    WordsEqual(|s.g.reqs|, s.g.reqTaken);
    NextIndexIsCaught(s.g.rspTaken, |s.g.rsps|);
    WordsEqual(|s.g.rsps|, s.g.rspTaken);
  }

  /** A final check that reports no work leaves its side in that position. */
  lemma NoWorkMeansUnmoved(s: State)
    requires Reachable(s)
    ensures s.b.pc.BRecheckGuard? && Guard(s, s.b.pc.first) == 0 ==>
              var t := Step(s, FinalReqRecheckAgain); t.g.backAsleep && t.sh.reqProd == t.b.reqCons
    ensures s.f.pc.FRecheck? && UnconsumedResponses(s.sh.rspProd, s.f.rspCons) == 0 ==>
              var t := Step(s, FinalRspRecheck); t.g.frontAsleep && t.sh.rspProd == t.f.rspCons
  {
    hide W, Content, Delivered, FrontOk, Crosses, Signals, Guard, Minus;
    ReachableInv(s);
    MinusOfCounts(s.g.rspPub, s.g.rspTaken);
    if s.b.pc.BRecheckGuard? { GuardOfState(s); }
  }
}
