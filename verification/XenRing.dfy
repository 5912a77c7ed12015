/** The macros of inc/ring.h that assign ring fields, as methods of the two halves of a ring.

    Each method is tied to XenMachine: called where its half stands as in a machine state, it
    leaves its half as its machine steps do, whatever the other side does between two of its
    accesses to shared memory. A word the other side owns is volatile: each read of one is a
    parameter, the value that read returned. The ghost states say when. */
module XenRing {
  import opened Word32
  import opened EventIndex
  import opened XenSizing
  import opened XenMachine
  import opened XenInvariant

  /** The shared page. */
  class SharedRing {
    var reqProd: Word
    var reqEvent: Word
    var rspProd: Word
    var rspEvent: Word
    const slots: array<Message>

    /** SHARED_RING_INIT on an area of `size` bytes with entries of `entry` bytes. */
    constructor (size: nat, entry: nat)
      requires SRING_HEADER <= size < TWO32 && entry > 0
      ensures fresh(slots) && slots.Length == RingSize(size, entry)
      ensures Words() == Shared(0, 1, 0, 1, slots[..])
    {
      reqProd, rspProd, reqEvent, rspEvent := 0, 0, 1, 1;
      slots := new Message[RingSize(size, entry)](i => []);
    }

    ghost function Words(): Shared
      reads this, slots
    {
      Shared(reqProd, reqEvent, rspProd, rspEvent, slots[..])
    }
  }

  class FrontRing {
    const sring: SharedRing
    const nrEnts: Word
    var reqProdPvt: Word
    var rspCons: Word

    /** The front stands as in this machine state, in what it owns. */
    ghost predicate At(s: State)
      reads this, sring
    {
      && s.nr == nrEnts == sring.slots.Length && RingEntries(nrEnts)
      && s.f.reqProdPvt == reqProdPvt && s.f.rspCons == rspCons
      && s.sh.reqProd == sring.reqProd && s.sh.rspEvent == sring.rspEvent
    }

    /** FRONT_RING_INIT */
    constructor Init(sring: SharedRing, ghost s: State)
      requires XenMachine.Init(s) && s.nr == sring.slots.Length && s.sh == sring.Words()
      ensures this.sring == sring && At(s) && FreeRequests(reqProdPvt, rspCons, nrEnts) == nrEnts
    {
      this.sring, nrEnts, reqProdPvt, rspCons := sring, sring.slots.Length, 0, 0;
    }

    /** FRONT_RING_ATTACH, to the ring of a state in which an earlier front was at work. */
    constructor Attach(sring: SharedRing, ghost s: State)
      requires Inv(s) && s.nr == sring.slots.Length && s.sh == sring.Words()
      ensures this.sring == sring && At(FrontAttached(s))
    {
      this.sring, nrEnts := sring, sring.slots.Length;
      reqProdPvt, rspCons := sring.reqProd, sring.rspProd;
    }

    /** RING_GET_REQUEST or RING_GET_RESPONSE: the entry in the shared page is the count's. */
    method EntryOf(index: Word, ghost k: nat) returns (i: nat)
      requires RingEntries(nrEnts) && sring.slots.Length == nrEnts && index == W(k)
      ensures i < sring.slots.Length && i == Off(k, nrEnts)
    {
      SlotOfCount(k, nrEnts);
      return SlotOf(index, nrEnts);
    }

    /** RING_PUSH_REQUESTS_AND_CHECK_NOTIFY: PushRequests in state s, and in a later state t
        ReadReqEvent. */
    method PushRequestsAndCheckNotify(reqEvent: Word, ghost s: State, ghost t: State) returns (notify: bool)
      requires At(s) && Enabled(s, PushRequests) && BackMeanwhile(Step(s, PushRequests), t)
      requires reqEvent == t.sh.reqEvent
      modifies sring`reqProd
      ensures Enabled(t, ReadReqEvent) && At(Step(t, ReadReqEvent)) && Step(t, ReadReqEvent).f.pc.FIdle?
      ensures notify <==> Crosses(old(sring.reqProd), reqProdPvt, reqEvent)
      ensures Step(t, ReadReqEvent).g.backNotified == (t.g.backNotified || notify)
    {
      BackKeepsFront(Step(s, PushRequests), t);
      var before := sring.reqProd;
      var after := reqProdPvt;
      sring.reqProd := after;
      notify := Minus(after, reqEvent) < Minus(after, before);
    }

    /** RING_FINAL_CHECK_FOR_RESPONSES: FinalRspRead in state s; if that saw no work, WriteRspEvent
        in a later state t and FinalRspRecheck in a later state u. */
    method FinalCheckForResponses(first: Word, second: Word, ghost s: State, ghost t: State, ghost u: State)
      returns (work: Word)
      requires At(s) && Enabled(s, FinalRspRead) && first == s.sh.rspProd
      requires first == rspCons ==>
                 && BackMeanwhile(Step(s, FinalRspRead), t) && t.nr > 0 && Enabled(t, WriteRspEvent)
                 && BackMeanwhile(Step(t, WriteRspEvent), u) && second == u.sh.rspProd
      modifies sring`rspEvent
      ensures first != rspCons ==>
                work == Minus(first, rspCons) > 0 && At(Step(s, FinalRspRead)) && Step(s, FinalRspRead).f.pc.FIdle?
      ensures first == rspCons ==>
                && u.nr > 0 && Enabled(u, FinalRspRecheck) && work == Minus(second, rspCons)
                && At(Step(u, FinalRspRecheck)) && Step(u, FinalRspRecheck).f.pc.FIdle?
                && (work == 0 ==> Step(u, FinalRspRecheck).g.frontAsleep)
    {
      work := UnconsumedResponses(first, rspCons);
      if work != 0 {
        return;
      }
      BackKeepsFront(Step(s, FinalRspRead), t);
      BackKeepsFront(Step(t, WriteRspEvent), u);
      sring.rspEvent := Plus(rspCons, 1);
      work := UnconsumedResponses(second, rspCons);
    }
  }

  class BackRing {
    const sring: SharedRing
    const nrEnts: Word
    var rspProdPvt: Word
    var reqCons: Word

    /** The back stands as in this machine state, in what it owns. */
    ghost predicate At(s: State)
      reads this, sring
    {
      && s.nr == nrEnts == sring.slots.Length && RingEntries(nrEnts)
      && s.b.rspProdPvt == rspProdPvt && s.b.reqCons == reqCons
      && s.sh.rspProd == sring.rspProd && s.sh.reqEvent == sring.reqEvent
    }

    /** BACK_RING_INIT */
    constructor Init(sring: SharedRing, ghost s: State)
      requires XenMachine.Init(s) && s.nr == sring.slots.Length && s.sh == sring.Words()
      ensures this.sring == sring && At(s)
      ensures forall x: Word, y: Word | x <= nrEnts && y <= nrEnts ::
                UnconsumedRequests(x, y, reqCons, rspProdPvt, nrEnts) == if x < nrEnts then y else nrEnts
    {
      this.sring, nrEnts, rspProdPvt, reqCons := sring, sring.slots.Length, 0, 0;
    }

    /** BACK_RING_ATTACH */
    constructor Attach(sring: SharedRing, ghost s: State)
      requires Inv(s) && s.nr == sring.slots.Length && s.sh == sring.Words()
      ensures this.sring == sring && At(BackAttached(s))
    {
      this.sring, nrEnts := sring, sring.slots.Length;
      rspProdPvt, reqCons := sring.rspProd, sring.reqProd;
    }

    /** RING_PUSH_RESPONSES_AND_CHECK_NOTIFY */
    method PushResponsesAndCheckNotify(rspEvent: Word, ghost s: State, ghost t: State) returns (notify: bool)
      requires At(s) && Enabled(s, PushResponses) && FrontMeanwhile(Step(s, PushResponses), t)
      requires rspEvent == t.sh.rspEvent
      modifies sring`rspProd
      ensures Enabled(t, ReadRspEvent) && At(Step(t, ReadRspEvent)) && Step(t, ReadRspEvent).b.pc.BIdle?
      ensures notify <==> Crosses(old(sring.rspProd), rspProdPvt, rspEvent)
      ensures Step(t, ReadRspEvent).g.frontNotified == (t.g.frontNotified || notify)
    {
      FrontKeepsBack(Step(s, PushResponses), t);
      var before := sring.rspProd;
      var after := rspProdPvt;
      sring.rspProd := after;
      notify := Minus(after, rspEvent) < Minus(after, before);
    }

    /** RING_HAS_UNCONSUMED_REQUESTS: what its two reads in states s and t come to is what the
        back may take. */
    method HasUnconsumedRequests(first: Word, second: Word, ghost s: State, ghost t: State) returns (work: Word)
      requires At(s) && Enabled(s, ReadReqProd) && FrontMeanwhile(Step(s, ReadReqProd), t)
      requires first == s.sh.reqProd && second == t.sh.reqProd
      ensures Enabled(t, ReadReqProdAgain) && At(Step(t, ReadReqProdAgain))
      ensures Step(t, ReadReqProdAgain).b.allowed == work
      ensures Inv(t) ==> work == Minus(second, reqCons)
    {
      FrontKeepsBack(Step(s, ReadReqProd), t);
      work := UnconsumedRequests(first, second, reqCons, rspProdPvt, nrEnts);
      if Inv(t) { GuardOfState(t); MinusOfCounts(t.g.reqPub, t.g.reqTaken); }
    }

    /** The first guard of RING_FINAL_CHECK_FOR_REQUESTS and, if it saw no work, the event word:
        FinalReqRead in s, FinalReqReadAgain in t, WriteReqEvent in u. */
    method AskForRequests(first: Word, second: Word, ghost s: State, ghost t: State, ghost u: State)
      returns (work: Word)
      requires At(s) && Enabled(s, FinalReqRead) && FrontMeanwhile(Step(s, FinalReqRead), t)
      requires Enabled(t, FinalReqReadAgain) && t.nr > 0 && FrontMeanwhile(Step(t, FinalReqReadAgain), u)
      requires first == s.sh.reqProd && second == t.sh.reqProd
      modifies sring`reqEvent
      ensures work == Step(t, FinalReqReadAgain).b.allowed
      ensures if work != 0 then At(Step(t, FinalReqReadAgain)) && Step(t, FinalReqReadAgain).b.pc.BIdle?
              else u.nr > 0 && Enabled(u, WriteReqEvent) && At(Step(u, WriteReqEvent))
    {
      FrontKeepsBack(Step(s, FinalReqRead), t);
      FrontKeepsBack(Step(t, FinalReqReadAgain), u);
      work := UnconsumedRequests(first, second, reqCons, rspProdPvt, nrEnts);
      if work != 0 {
        return;
      }
      sring.reqEvent := Plus(reqCons, 1);
    }

    /** The second guard: FinalReqRecheck in s, FinalReqRecheckAgain in t. */
    method RecheckForRequests(first: Word, second: Word, ghost s: State, ghost t: State) returns (work: Word)
      requires At(s) && Enabled(s, FinalReqRecheck) && FrontMeanwhile(Step(s, FinalReqRecheck), t)
      requires first == s.sh.reqProd && second == t.sh.reqProd
      ensures t.nr > 0 && Enabled(t, FinalReqRecheckAgain) && At(Step(t, FinalReqRecheckAgain))
      ensures Step(t, FinalReqRecheckAgain).b.allowed == work && Step(t, FinalReqRecheckAgain).b.pc.BIdle?
      ensures work == 0 ==> Step(t, FinalReqRecheckAgain).g.backAsleep
    {
      FrontKeepsBack(Step(s, FinalReqRecheck), t);
      work := UnconsumedRequests(first, second, reqCons, rspProdPvt, nrEnts);
    }

    /** RING_FINAL_CHECK_FOR_REQUESTS. reads1 and reads2 are what its guards read, in states
        s[0], s[1] and, if the first guard saw no work, s[3], s[4]; the event word is written
        in s[2]. */
    method FinalCheckForRequests(reads1: (Word, Word), reads2: (Word, Word), ghost s: seq<State>) returns (work: Word)
      requires |s| == 5 && At(s[0]) && Enabled(s[0], FinalReqRead) && FrontMeanwhile(Step(s[0], FinalReqRead), s[1])
      requires s[1].nr > 0 && Enabled(s[1], FinalReqReadAgain)
               && FrontMeanwhile(Step(s[1], FinalReqReadAgain), s[2])
      requires reads1 == (s[0].sh.reqProd, s[1].sh.reqProd)
      requires Step(s[1], FinalReqReadAgain).b.allowed == 0 ==>
                 && s[2].nr > 0 && Enabled(s[2], WriteReqEvent) && FrontMeanwhile(Step(s[2], WriteReqEvent), s[3])
                 && s[3].nr > 0 && Enabled(s[3], FinalReqRecheck) && FrontMeanwhile(Step(s[3], FinalReqRecheck), s[4])
                 && reads2 == (s[3].sh.reqProd, s[4].sh.reqProd)
      modifies sring`reqEvent
      ensures if Step(s[1], FinalReqReadAgain).b.allowed != 0 then
                work == Step(s[1], FinalReqReadAgain).b.allowed && At(Step(s[1], FinalReqReadAgain))
              else
                && s[4].nr > 0 && Enabled(s[4], FinalReqRecheckAgain) && At(Step(s[4], FinalReqRecheckAgain))
                && work == Step(s[4], FinalReqRecheckAgain).b.allowed
                && (work == 0 ==> Step(s[4], FinalReqRecheckAgain).g.backAsleep)
    {
      hide Step, Enabled;
      work := AskForRequests(reads1.0, reads1.1, s[0], s[1], s[2]);
      if work != 0 {
        return;
      }
      FrontKeepsBack(Step(s[2], WriteReqEvent), s[3]);
      work := RecheckForRequests(reads2.0, reads2.1, s[3], s[4]);
    }
  }
}
