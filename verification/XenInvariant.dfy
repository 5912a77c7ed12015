/** What every step of the Xen ring machine keeps. */
module XenInvariant {
  import opened Memory
  import opened Word32
  import opened EventIndex
  import opened XenSizing
  import opened XenMachine

  /** The six indices in order, and never more than one ring from the oldest to the newest. */
  ghost predicate Order(g: Ghost, nr: nat) {
    && g.rspTaken <= g.rspSeen <= g.rspPub <= |g.rsps|
    && |g.rsps| <= g.reqTaken <= g.reqPub <= |g.reqs| <= g.rspTaken + nr
  }

  /** The words of the program are the counts they stand for, modulo 2^32. */
  ghost predicate Words(sh: Shared, f: Front, b: Back, g: Ghost) {
    && sh.reqProd == W(g.reqPub) && f.reqProdPvt == W(|g.reqs|) && b.reqCons == W(g.reqTaken)
    && sh.rspProd == W(g.rspPub) && b.rspProdPvt == W(|g.rsps|) && f.rspCons == W(g.rspTaken)
    && f.rspSeen == W(g.rspSeen)
  }

  /** Counts from..|log| of a log still lie in their slots. */
  ghost predicate Held(slots: seq<Message>, log: seq<Message>, from: nat, nr: nat)
    requires nr > 0
  {
    |slots| == nr && forall k :: from <= k < |log| ==> slots[Off(k, nr)] == log[k]
  }

  /** A message being written fits in the ring's free part and lies in its slot. */
  ghost predicate DraftHeld(slots: seq<Message>, draft: Draft, at: nat, limit: nat, nr: nat)
    requires nr > 0
  {
    draft.Draft? ==> at < limit && |slots| == nr && slots[Off(at, nr)] == draft.message
  }

  ghost predicate Content(slots: seq<Message>, reqs: seq<Message>, reqTaken: nat, rsps: seq<Message>,
                          rspTaken: nat, front: Draft, back: Draft, nr: nat)
    requires nr > 0
  {
    && Held(slots, reqs, reqTaken, nr)
    && Held(slots, rsps, rspTaken, nr)
    && DraftHeld(slots, front, |reqs|, rspTaken + nr, nr)
    && DraftHeld(slots, back, |rsps|, reqTaken, nr)
  }

  ghost predicate Delivered(f: Front, b: Back, g: Ghost)
    requires g.rspTaken <= |g.rsps| && g.reqTaken <= |g.reqs|
  {
    f.got == g.rsps[..g.rspTaken] && b.accepted == g.reqs[..g.reqTaken]
  }

  ghost predicate FrontOk(f: Front, rspEvent: Word, g: Ghost) {
    f.pc.FRecheck? ==> rspEvent == W(g.rspTaken + 1)
  }

  ghost predicate BackOk(b: Back, reqEvent: Word, g: Ghost) {
    && g.reqTaken + b.allowed <= g.reqPub
    && (b.pc.BRecheck? || b.pc.BRecheckGuard? ==> reqEvent == W(g.reqTaken + 1))
    && (b.pc.BGuard? || b.pc.BFinal? || b.pc.BRecheckGuard? ==>
          b.pc.first == W(g.firstSeen) && g.reqTaken <= g.firstSeen <= g.reqPub)
  }

  /** A sleeping back end with requests to take has been notified, or is about to be. */
  ghost predicate BackWakes(s: State) {
    s.g.backAsleep ==>
      && s.sh.reqEvent == W(s.g.reqTaken + 1)
      && (s.b.pc.BIdle? || s.b.pc.BPushed?)
      && (s.g.reqPub > s.g.reqTaken ==>
            || s.g.backNotified
            || (s.f.pc.FPushed? && Crosses(s.f.pc.before, s.f.pc.after, s.sh.reqEvent)))
  }

  ghost predicate FrontWakes(s: State) {
    s.g.frontAsleep ==>
      && s.sh.rspEvent == W(s.g.rspTaken + 1)
      && (s.f.pc.FIdle? || s.f.pc.FPushed?)
      && (s.g.rspPub > s.g.rspTaken ==>
            || s.g.frontNotified
            || (s.b.pc.BPushed? && Crosses(s.b.pc.before, s.b.pc.after, s.sh.rspEvent)))
  }

  /** A push in progress published what it holds; a side is marked notified only once there is
      something for it to see. */
  ghost predicate Signals(s: State) {
    && (s.f.pc.FPushed? ==> s.f.pc.after == s.sh.reqProd)
    && (s.b.pc.BPushed? ==> s.b.pc.after == s.sh.rspProd)
    && (s.g.backAsleep && s.g.backNotified ==> s.g.reqPub > s.g.reqTaken)
    && (s.g.frontAsleep && s.g.frontNotified ==> s.g.rspPub > s.g.rspTaken)
  }

  /** The part that concerns indices and slots. */
  ghost predicate RingInv(s: State) {
    && RingEntries(s.nr)
    && Order(s.g, s.nr)
    && Words(s.sh, s.f, s.b, s.g)
    && Content(s.sh.slots, s.g.reqs, s.g.reqTaken, s.g.rsps, s.g.rspTaken, s.f.draft, s.b.draft, s.nr)
  }

  ghost predicate Inv(s: State) {
    && RingInv(s)
    && Delivered(s.f, s.b, s.g)
    && FrontOk(s.f, s.sh.rspEvent, s.g)
    && BackOk(s.b, s.sh.reqEvent, s.g)
    && BackWakes(s)
    && FrontWakes(s)
    && Signals(s)
  }

  lemma InitInv(s: State)
    requires Init(s)
    ensures Inv(s)
  {}

  /** Two entries of one window have different slots, also where their words wrap. */
  lemma SlotsInWindowDiffer(a: nat, b: nat, nr: nat)
    requires RingEntries(nr) && a < b < a + nr
    ensures SlotOf(W(a), nr) != SlotOf(W(b), nr)
  {
    SlotOfCount(a, nr);
    SlotOfCount(b, nr);
    OffsDiffer(a, b, nr);
  }

  // ----- the guard -----

  /** On counts: the guard is exactly the requests not yet taken, whichever of them the first
      of its two reads already saw. */
  lemma GuardIsUntaken(taken: nat, first: nat, published: nat, answered: nat, nr: nat)
    requires nr <= 0x8000_0000 && answered <= taken <= first <= published <= answered + nr
    ensures UnconsumedRequests(W(first), W(published), W(taken), W(answered), nr) == published - taken
  {
    MinusOfCounts(taken, answered);
    MinusOfCounts(first, taken);
    MinusOfCounts(published, taken);
  }

  lemma FreeIsReal(top: nat, taken: nat, nr: nat)
    requires taken <= top <= taken + nr && nr <= 0x8000_0000
    ensures FreeRequests(W(top), W(taken), nr) == nr - (top - taken)
  {
    MinusOfCounts(top, taken);
  }

  // ----- content -----

  /** A write to a slot at or past every held count, less than one ring on, leaves them alone. */
  lemma PutPastKeepsHeld(slots: seq<Message>, log: seq<Message>, from: nat, nr: nat, at: nat, m: Message)
    requires nr > 0 && Held(slots, log, from, nr) && |log| <= at < from + nr
    ensures Held(Put(slots, Off(at, nr), m), log, from, nr)
  {
    forall k | from <= k < |log| ensures Off(k, nr) != Off(at, nr) {
      OffsDiffer(k, at, nr);
    }
  }

  lemma PutBeforeKeepsHeld(slots: seq<Message>, log: seq<Message>, from: nat, nr: nat, at: nat, m: Message)
    requires nr > 0 && Held(slots, log, from, nr) && at < from && |log| <= at + nr
    ensures Held(Put(slots, Off(at, nr), m), log, from, nr)
  {
    forall k | from <= k < |log| ensures Off(k, nr) != Off(at, nr) {
      OffsDiffer(at, k, nr);
    }
  }

  lemma CommitHolds(slots: seq<Message>, log: seq<Message>, from: nat, nr: nat, m: Message)
    requires nr > 0 && Held(slots, log, from, nr) && slots[Off(|log|, nr)] == m
    ensures Held(slots, log + [m], from, nr)
  {}

  lemma WriteRequestKeeps(s: State, m: Message)
    requires Inv(s) && Enabled(s, WriteRequest(m))
    ensures Inv(Step(s, WriteRequest(m)))
  {
    hide Off, W, BitAnd, Crosses, Put, Held, IsPow2, FreeRequests, SlotOf;
    var g, slots := s.g, s.sh.slots;
    FreeIsReal(|g.reqs|, g.rspTaken, s.nr);
    SlotOfCount(|g.reqs|, s.nr);
    PutPastKeepsHeld(slots, g.reqs, g.reqTaken, s.nr, |g.reqs|, m);
    PutPastKeepsHeld(slots, g.rsps, g.rspTaken, s.nr, |g.reqs|, m);
    PutHolds(slots, |g.reqs|, s.nr, m);
    if s.b.draft.Draft? {
      PutElsewhere(slots, |g.reqs|, |g.rsps|, s.nr, m);
    }
  }

  lemma PutHolds(slots: seq<Message>, at: nat, nr: nat, m: Message)
    requires nr == |slots| > 0
    ensures Put(slots, Off(at, nr), m)[Off(at, nr)] == m
  {}

  lemma PutElsewhere(slots: seq<Message>, at: nat, other: nat, nr: nat, m: Message)
    requires nr == |slots| > 0 && other < at < other + nr
    ensures Put(slots, Off(at, nr), m)[Off(other, nr)] == slots[Off(other, nr)]
    ensures Put(slots, Off(other, nr), m)[Off(at, nr)] == slots[Off(at, nr)]
  {
    OffsDiffer(other, at, nr);
  }

  lemma WriteResponseKeeps(s: State, m: Message)
    requires Inv(s) && Enabled(s, WriteResponse(m))
    ensures Inv(Step(s, WriteResponse(m)))
  {
    hide Off, W, BitAnd, Crosses, Put, Held, IsPow2, SlotOf;
    var g, slots := s.g, s.sh.slots;
    WordsEqual(|g.rsps|, g.reqTaken);
    SlotOfCount(|g.rsps|, s.nr);
    PutBeforeKeepsHeld(slots, g.reqs, g.reqTaken, s.nr, |g.rsps|, m);
    PutPastKeepsHeld(slots, g.rsps, g.rspTaken, s.nr, |g.rsps|, m);
    PutHolds(slots, |g.rsps|, s.nr, m);
    if s.f.draft.Draft? {
      PutElsewhere(slots, |g.reqs|, |g.rsps|, s.nr, m);
    }
  }

  lemma CommitRequestKeeps(s: State)
    requires Inv(s) && Enabled(s, CommitRequest)
    ensures Inv(Step(s, CommitRequest))
  {
    hide Off, W, BitAnd, Crosses, Held, IsPow2, Plus;
    CommitHolds(s.sh.slots, s.g.reqs, s.g.reqTaken, s.nr, s.f.draft.message);
    PlusOfCounts(|s.g.reqs|, 1);
  }

  lemma CommitResponseKeeps(s: State)
    requires Inv(s) && Enabled(s, CommitResponse)
    ensures Inv(Step(s, CommitResponse))
  {
    hide Off, W, BitAnd, Crosses, Held, IsPow2, Plus;
    CommitHolds(s.sh.slots, s.g.rsps, s.g.rspTaken, s.nr, s.b.draft.message);
    PlusOfCounts(|s.g.rsps|, 1);
  }

  /** The oldest held count is read from its slot, and may then be given up. */
  lemma TakeOldest(slots: seq<Message>, log: seq<Message>, from: nat, nr: nat)
    requires nr > 0 && Held(slots, log, from, nr) && from < |log|
    ensures Get(slots, Off(from, nr), []) == log[from] && Held(slots, log, from + 1, nr)
    ensures log[..from] + [log[from]] == log[..from + 1]
  {}

  lemma TakeRequestKeeps(s: State)
    requires Inv(s) && Enabled(s, TakeRequest)
    ensures Inv(Step(s, TakeRequest))
  {
    hide Off, W, BitAnd, Crosses, Held, IsPow2, Plus, Get, SlotOf;
    SlotOfCount(s.g.reqTaken, s.nr);
    TakeOldest(s.sh.slots, s.g.reqs, s.g.reqTaken, s.nr);
    PlusOfCounts(s.g.reqTaken, 1);
  }

  lemma TakeResponseKeeps(s: State)
    requires Inv(s) && Enabled(s, TakeResponse)
    ensures Inv(Step(s, TakeResponse))
  {
    hide Off, W, BitAnd, Crosses, Held, IsPow2, Plus, Get, SlotOf;
    WordsEqual(s.g.rspTaken, s.g.rspSeen);
    SlotOfCount(s.g.rspTaken, s.nr);
    TakeOldest(s.sh.slots, s.g.rsps, s.g.rspTaken, s.nr);
    PlusOfCounts(s.g.rspTaken, 1);
  }

  // ----- publishing and checking -----

  lemma PushRequestsKeeps(s: State)
    requires Inv(s) && Enabled(s, PushRequests)
    ensures Inv(Step(s, PushRequests))
  {
    hide Content, W, BitAnd, Crosses, IsPow2;
    if s.g.backAsleep && s.g.reqPub == s.g.reqTaken {
      NextIndexIsCaught(s.g.reqTaken, |s.g.reqs|);
    }
  }

  lemma PushResponsesKeeps(s: State)
    requires Inv(s) && Enabled(s, PushResponses)
    ensures Inv(Step(s, PushResponses))
  {
    hide Content, W, BitAnd, Crosses, IsPow2;
    if s.g.frontAsleep && s.g.rspPub == s.g.rspTaken {
      NextIndexIsCaught(s.g.rspTaken, |s.g.rsps|);
    }
  }

  lemma GuardOfState(s: State)
    requires Inv(s) && (s.b.pc.BGuard? || s.b.pc.BFinal? || s.b.pc.BRecheckGuard?)
    ensures Guard(s, s.b.pc.first) == s.g.reqPub - s.g.reqTaken
  {
    hide Content, W, BitAnd, Crosses, IsPow2, UnconsumedRequests, BackWakes, FrontWakes;
    GuardIsUntaken(s.g.reqTaken, s.g.firstSeen, s.g.reqPub, |s.g.rsps|, s.nr);
  }

  lemma ReadEventKeeps(s: State, a: Action)
    requires Inv(s) && Enabled(s, a) && a in {ReadReqEvent, ReadRspEvent}
    ensures Inv(Step(s, a))
  {
    hide Content, W, BitAnd, Crosses, IsPow2, Minus;
    if a == ReadReqEvent && s.g.backAsleep {
      NoSelfCross(s.f.pc.before, s.g.reqTaken);
    } else if a == ReadRspEvent && s.g.frontAsleep {
      NoSelfCross(s.b.pc.before, s.g.rspTaken);
    }
  }

  lemma ReadingKeeps(s: State, a: Action)
    requires Inv(s) && Enabled(s, a)
    requires a in {FetchResponses, FinalRspRead, ReadReqProd, FinalReqRead, FinalReqRecheck}
    ensures Inv(Step(s, a))
  {
    hide Content, W, BitAnd, Crosses, IsPow2, Minus;
  }

  lemma AskingKeeps(s: State, a: Action)
    requires Inv(s) && Enabled(s, a) && a in {WriteRspEvent, WriteReqEvent}
    ensures Inv(Step(s, a))
  {
    hide Content, W, BitAnd, Crosses, IsPow2, Plus;
    PlusOfCounts(s.g.rspTaken, 1);
    PlusOfCounts(s.g.reqTaken, 1);
  }

  lemma FinalRspRecheckKeeps(s: State)
    requires Inv(s) && Enabled(s, FinalRspRecheck)
    ensures Inv(Step(s, FinalRspRecheck))
  {
    hide Content, W, BitAnd, Crosses, IsPow2, Minus;
    MinusOfCounts(s.g.rspPub, s.g.rspTaken);
  }

  lemma GuardingKeeps(s: State, a: Action)
    requires Inv(s) && Enabled(s, a)
    requires a in {ReadReqProdAgain, FinalReqReadAgain, FinalReqRecheckAgain}
    ensures Inv(Step(s, a))
  {
    hide Content, W, BitAnd, Crosses, IsPow2, Guard;
    GuardOfState(s);
  }
}
