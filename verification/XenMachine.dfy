/** A Xen shared ring as a two-party state machine (inc/ring.h).

    Requests and responses share the slots of one array. Every access to shared memory is one
    step; front and back interleave freely. A slot may be written any number of times before the
    private index moves past it, so a message need not be written in one piece. `Ghost` counts
    messages, for the proofs; no step looks at it. */
module XenMachine {
  import opened Memory
  import opened Word32
  import opened EventIndex
  import opened XenSizing

  type Message = seq<Byte>

  // ----- the macros that only compute -----

  /** RING_FREE_REQUESTS */
  function FreeRequests(reqProdPvt: Word, rspCons: Word, nr: Word): Word {
    Minus(nr, Minus(reqProdPvt, rspCons))
  }

  /** RING_HAS_UNCONSUMED_REQUESTS, in the form without statement expressions, which reads the
      shared index twice when the first value is below the room for responses. */
  function UnconsumedRequests(first: Word, second: Word, reqCons: Word, rspProdPvt: Word, nr: Word): Word {
    var room := Minus(nr, Minus(reqCons, rspProdPvt));
    if Minus(first, reqCons) < room then Minus(second, reqCons) else room
  }

  /** RING_HAS_UNCONSUMED_RESPONSES */
  function UnconsumedResponses(rspProd: Word, rspCons: Word): Word {
    Minus(rspProd, rspCons)
  }

  /** RING_REQUEST_CONS_OVERFLOW */
  predicate RequestConsOverflow(cons: Word, rspProdPvt: Word, nr: Word) {
    Minus(cons, rspProdPvt) >= nr
  }

  // ----- the machine -----

  datatype Shared = Shared(reqProd: Word, reqEvent: Word, rspProd: Word, rspEvent: Word, slots: seq<Message>)

  /** What a side has written into its next slot and not yet moved past. */
  datatype Draft = NoDraft | Draft(message: Message)

  datatype FrontPc =
    | FIdle
    | FPushed(before: Word, after: Word)   // published; about to read the event index
    | FArm                                 // final check saw no work: about to ask for an event
    | FRecheck                             // about to read the producer index again

  datatype Front = Front(reqProdPvt: Word, rspCons: Word, rspSeen: Word, pc: FrontPc, draft: Draft,
                         got: seq<Message>)

  datatype BackPc =
    | BIdle
    | BGuard(first: Word)                  // between the two reads of the guard
    | BPushed(before: Word, after: Word)
    | BFinal(first: Word)
    | BArm
    | BRecheck
    | BRecheckGuard(first: Word)

  /** `allowed` is how many requests the last guard said may be taken. */
  datatype Back = Back(rspProdPvt: Word, reqCons: Word, allowed: nat, pc: BackPc, draft: Draft,
                       accepted: seq<Message>)

  /** Every request and response committed; how many of them are published and taken; whether
      the last final check of a side found nothing and it has not looked since; whether it has
      been notified since then. `firstSeen` is what the guard's first read stood for. */
  datatype Ghost = Ghost(reqs: seq<Message>, rsps: seq<Message>, reqPub: nat, reqTaken: nat, rspPub: nat,
                         rspSeen: nat, rspTaken: nat, firstSeen: nat, frontAsleep: bool, backAsleep: bool,
                         frontNotified: bool, backNotified: bool)

  datatype State = State(nr: Word, sh: Shared, f: Front, b: Back, g: Ghost)

  datatype Action =
    | WriteRequest(message: Message) | CommitRequest | PushRequests | ReadReqEvent
    | FetchResponses | TakeResponse | FinalRspRead | WriteRspEvent | FinalRspRecheck
    | ReadReqProd | ReadReqProdAgain | TakeRequest
    | WriteResponse(message: Message) | CommitResponse | PushResponses | ReadRspEvent
    | FinalReqRead | FinalReqReadAgain | WriteReqEvent | FinalReqRecheck | FinalReqRecheckAgain

  /** The front writes only into a ring that is not full, and takes a response only up to the
      index it has read; the back takes what its guard allowed, and answers what it has taken. */
  predicate Enabled(s: State, a: Action) {
    match a
    case WriteRequest(m) => s.f.pc.FIdle? && FreeRequests(s.f.reqProdPvt, s.f.rspCons, s.nr) != 0
    case CommitRequest => s.f.pc.FIdle? && s.f.draft.Draft?
    case PushRequests => s.f.pc.FIdle?
    case ReadReqEvent => s.f.pc.FPushed?
    case FetchResponses => s.f.pc.FIdle?
    case TakeResponse => s.f.pc.FIdle? && s.f.rspCons != s.f.rspSeen
    case FinalRspRead => s.f.pc.FIdle?
    case WriteRspEvent => s.f.pc.FArm?
    case FinalRspRecheck => s.f.pc.FRecheck?
    case ReadReqProd => s.b.pc.BIdle?
    case ReadReqProdAgain => s.b.pc.BGuard?
    case TakeRequest => s.b.pc.BIdle? && s.b.allowed > 0
    case WriteResponse(m) => s.b.pc.BIdle? && s.b.rspProdPvt != s.b.reqCons
    case CommitResponse => s.b.pc.BIdle? && s.b.draft.Draft?
    case PushResponses => s.b.pc.BIdle?
    case ReadRspEvent => s.b.pc.BPushed?
    case FinalReqRead => s.b.pc.BIdle?
    case FinalReqReadAgain => s.b.pc.BFinal?
    case WriteReqEvent => s.b.pc.BArm?
    case FinalReqRecheck => s.b.pc.BRecheck?
    case FinalReqRecheckAgain => s.b.pc.BRecheckGuard?
  }

  function Guard(s: State, first: Word): Word {
    UnconsumedRequests(first, s.sh.reqProd, s.b.reqCons, s.b.rspProdPvt, s.nr)
  }

  function Step(s: State, a: Action): (s': State)
    requires s.nr > 0 && Enabled(s, a)
    ensures s'.nr == s.nr
  {
    match a
    case WriteRequest(m) =>
      s.(sh := s.sh.(slots := Put(s.sh.slots, SlotOf(s.f.reqProdPvt, s.nr), m)), f := s.f.(draft := Draft(m)))
    case CommitRequest =>
      s.(f := s.f.(reqProdPvt := Plus(s.f.reqProdPvt, 1), draft := NoDraft),
         g := s.g.(reqs := s.g.reqs + [s.f.draft.message]))
    case PushRequests =>
      s.(sh := s.sh.(reqProd := s.f.reqProdPvt),
         f := s.f.(pc := FPushed(s.sh.reqProd, s.f.reqProdPvt)),
         g := s.g.(reqPub := |s.g.reqs|))
    case ReadReqEvent =>
      var notify := Crosses(s.f.pc.before, s.f.pc.after, s.sh.reqEvent);
      s.(f := s.f.(pc := FIdle), g := s.g.(backNotified := s.g.backNotified || notify))
    case FetchResponses =>
      s.(f := s.f.(rspSeen := s.sh.rspProd), g := s.g.(rspSeen := s.g.rspPub, frontAsleep := false))
    case TakeResponse =>
      s.(f := s.f.(rspCons := Plus(s.f.rspCons, 1),
                   got := s.f.got + [Get(s.sh.slots, SlotOf(s.f.rspCons, s.nr), [])]),
         g := s.g.(rspTaken := s.g.rspTaken + 1, frontAsleep := false))
    case FinalRspRead =>
      if UnconsumedResponses(s.sh.rspProd, s.f.rspCons) != 0 then s.(g := s.g.(frontAsleep := false))
      else s.(f := s.f.(pc := FArm), g := s.g.(frontAsleep := false))
    case WriteRspEvent =>
      s.(sh := s.sh.(rspEvent := Plus(s.f.rspCons, 1)), f := s.f.(pc := FRecheck))
    case FinalRspRecheck =>
      if UnconsumedResponses(s.sh.rspProd, s.f.rspCons) != 0 then s.(f := s.f.(pc := FIdle))
      else s.(f := s.f.(pc := FIdle), g := s.g.(frontAsleep := true, frontNotified := false))
    case ReadReqProd =>
      s.(b := s.b.(pc := BGuard(s.sh.reqProd)), g := s.g.(firstSeen := s.g.reqPub, backAsleep := false))
    case ReadReqProdAgain =>
      s.(b := s.b.(pc := BIdle, allowed := Guard(s, s.b.pc.first)))
    case TakeRequest =>
      s.(b := s.b.(reqCons := Plus(s.b.reqCons, 1), allowed := s.b.allowed - 1,
                   accepted := s.b.accepted + [Get(s.sh.slots, SlotOf(s.b.reqCons, s.nr), [])]),
         g := s.g.(reqTaken := s.g.reqTaken + 1, backAsleep := false))
    case WriteResponse(m) =>
      s.(sh := s.sh.(slots := Put(s.sh.slots, SlotOf(s.b.rspProdPvt, s.nr), m)), b := s.b.(draft := Draft(m)))
    case CommitResponse =>
      s.(b := s.b.(rspProdPvt := Plus(s.b.rspProdPvt, 1), draft := NoDraft),
         g := s.g.(rsps := s.g.rsps + [s.b.draft.message]))
    case PushResponses =>
      s.(sh := s.sh.(rspProd := s.b.rspProdPvt),
         b := s.b.(pc := BPushed(s.sh.rspProd, s.b.rspProdPvt)),
         g := s.g.(rspPub := |s.g.rsps|))
    case ReadRspEvent =>
      var notify := Crosses(s.b.pc.before, s.b.pc.after, s.sh.rspEvent);
      s.(b := s.b.(pc := BIdle), g := s.g.(frontNotified := s.g.frontNotified || notify))
    case FinalReqRead =>
      s.(b := s.b.(pc := BFinal(s.sh.reqProd)), g := s.g.(firstSeen := s.g.reqPub, backAsleep := false))
    case FinalReqReadAgain =>
      var work := Guard(s, s.b.pc.first);
      s.(b := s.b.(pc := if work != 0 then BIdle else BArm, allowed := work))
    case WriteReqEvent =>
      s.(sh := s.sh.(reqEvent := Plus(s.b.reqCons, 1)), b := s.b.(pc := BRecheck))
    case FinalReqRecheck =>
      s.(b := s.b.(pc := BRecheckGuard(s.sh.reqProd)), g := s.g.(firstSeen := s.g.reqPub))
    case FinalReqRecheckAgain =>
      var work := Guard(s, s.b.pc.first);
      var s' := s.(b := s.b.(pc := BIdle, allowed := work));
      if work != 0 then s' else s'.(g := s.g.(backAsleep := true, backNotified := false))
  }

  /** SHARED_RING_INIT, FRONT_RING_INIT and BACK_RING_INIT. Both event indices are 1, as after a
      final check that found nothing. */
  ghost predicate Init(s: State) {
    && RingEntries(s.nr) && |s.sh.slots| == s.nr
    && s.sh == Shared(0, 1, 0, 1, s.sh.slots)
    && s.f == Front(0, 0, 0, FIdle, NoDraft, [])
    && s.b == Back(0, 0, 0, BIdle, NoDraft, [])
    && s.g == Ghost([], [], 0, 0, 0, 0, 0, 0, true, true, false, false)
  }

  /** FRONT_RING_ATTACH: unpublished requests and unread responses are given up. */
  function FrontAttached(s: State): State
    requires s.g.reqPub <= |s.g.reqs|
  {
    s.(f := Front(s.sh.reqProd, s.sh.rspProd, s.sh.rspProd, FIdle, NoDraft, []),
       g := s.g.(reqs := s.g.reqs[..s.g.reqPub], rspTaken := s.g.rspPub, rspSeen := s.g.rspPub))
  }

  /** BACK_RING_ATTACH: unpublished responses are given up and published requests skipped. */
  function BackAttached(s: State): State
    requires s.g.rspPub <= |s.g.rsps|
  {
    s.(b := Back(s.sh.rspProd, s.sh.reqProd, 0, BIdle, NoDraft, []),
       g := s.g.(rsps := s.g.rsps[..s.g.rspPub], reqTaken := s.g.reqPub))
  }

  predicate Runs(s: State, run: seq<Action>)
    requires s.nr > 0
    decreases run
  {
    run == [] || (Enabled(s, run[0]) && Runs(Step(s, run[0]), run[1..]))
  }

  function Exec(s: State, run: seq<Action>): (s': State)
    requires s.nr > 0 && Runs(s, run)
    decreases run
    ensures s'.nr == s.nr
  {
    if run == [] then s else Exec(Step(s, run[0]), run[1..])
  }

  // ----- what the other side may do meanwhile -----

  predicate OfFront(a: Action) {
    a.WriteRequest? || a in {CommitRequest, PushRequests, ReadReqEvent, FetchResponses, TakeResponse, FinalRspRead,
                             WriteRspEvent, FinalRspRecheck}
  }

  ghost predicate BackMeanwhile(s: State, t: State) {
    s.nr > 0 && exists run: seq<Action> ::
      (forall i :: 0 <= i < |run| ==> !OfFront(run[i])) && Runs(s, run) && Exec(s, run) == t
  }

  ghost predicate FrontMeanwhile(s: State, t: State) {
    s.nr > 0 && exists run: seq<Action> ::
      (forall i :: 0 <= i < |run| ==> OfFront(run[i])) && Runs(s, run) && Exec(s, run) == t
  }

  lemma BackStepKeepsFront(s: State, a: Action)
    requires s.nr > 0 && Enabled(s, a) && !OfFront(a)
    ensures var t := Step(s, a); t.f == s.f && t.sh.reqProd == s.sh.reqProd && t.sh.rspEvent == s.sh.rspEvent
  {
    hide UnconsumedRequests, Minus, Plus, Put, Get, SlotOf, Crosses, FreeRequests, Guard;
  }

  lemma {:induction false} BackRunKeepsFront(s: State, run: seq<Action>)
    requires s.nr > 0 && Runs(s, run) && forall i :: 0 <= i < |run| ==> !OfFront(run[i])
    ensures var t := Exec(s, run); t.f == s.f && t.sh.reqProd == s.sh.reqProd && t.sh.rspEvent == s.sh.rspEvent
    decreases run
  {
    hide Step, Enabled;
    if run == [] {
    } else {
      BackStepKeepsFront(s, run[0]);
      BackRunKeepsFront(Step(s, run[0]), run[1..]);
    }
  }

  /** The front's words and its program counter are its own. */
  lemma BackKeepsFront(s: State, t: State)
    requires BackMeanwhile(s, t)
    ensures t.nr == s.nr && t.f == s.f && t.sh.reqProd == s.sh.reqProd && t.sh.rspEvent == s.sh.rspEvent
  {
    var run: seq<Action> :|
      (forall i :: 0 <= i < |run| ==> !OfFront(run[i])) && Runs(s, run) && Exec(s, run) == t;
    BackRunKeepsFront(s, run);
  }

  lemma FrontStepKeepsBack(s: State, a: Action)
    requires s.nr > 0 && Enabled(s, a) && OfFront(a)
    ensures var t := Step(s, a); t.b == s.b && t.sh.rspProd == s.sh.rspProd && t.sh.reqEvent == s.sh.reqEvent
  {
    hide UnconsumedRequests, Minus, Plus, Put, Get, SlotOf, Crosses, FreeRequests, Guard;
  }

  lemma {:induction false} FrontRunKeepsBack(s: State, run: seq<Action>)
    requires s.nr > 0 && Runs(s, run) && forall i :: 0 <= i < |run| ==> OfFront(run[i])
    ensures var t := Exec(s, run); t.b == s.b && t.sh.rspProd == s.sh.rspProd && t.sh.reqEvent == s.sh.reqEvent
    decreases run
  {
    hide Step, Enabled;
    if run == [] {
    } else {
      FrontStepKeepsBack(s, run[0]);
      FrontRunKeepsBack(Step(s, run[0]), run[1..]);
    }
  }

  lemma FrontKeepsBack(s: State, t: State)
    requires FrontMeanwhile(s, t)
    ensures t.nr == s.nr && t.b == s.b && t.sh.rspProd == s.sh.rspProd && t.sh.reqEvent == s.sh.reqEvent
  {
    var run: seq<Action> :|
      (forall i :: 0 <= i < |run| ==> OfFront(run[i])) && Runs(s, run) && Exec(s, run) == t;
    FrontRunKeepsBack(s, run);
  }
}
