/** The ring-pair operations of inc/vring.h as methods on one endpoint's private state.

    Shared words owned by the peer are volatile: each read of one is a parameter, the value that
    read returned. Each method is also tied to Nc2Machine: called where its endpoint stands as in
    a machine state, it leaves its endpoint as the machine's steps do, whatever the other side does
    between two of its accesses to shared memory. The ghost states say when those accesses are. */
module Nc2RingPair {
  import opened Memory
  import opened Word32
  import opened EventIndex
  import opened Nc2Arith
  import opened Nc2Messages
  import opened Nc2Machine

  /** The first bytes of a pad's header, put in memory one by one. */
  function PadHeader(mem: seq<Byte>, slot: nat, n: nat, bytes: nat): (m: seq<Byte>)
    ensures |m| == |mem|
  {
    if bytes == 0 then mem
    else Put<Byte>(PadHeader(mem, slot, n, bytes - 1), slot + (bytes - 1), PadHeaderByte(n, bytes - 1))
  }

  lemma PadHeaderIs(mem: seq<Byte>, slot: nat, n: nat)
    requires slot + 4 <= |mem| && n < TWO16
    ensures PadHeader(mem, slot, n, 4)
            == mem[slot := PAD][slot + 1 := 0][slot + 2 := n % 256][slot + 3 := n / 256]
  {
    assert PadHeader(mem, slot, n, 1) == mem[slot := PAD];
    assert PadHeader(mem, slot, n, 2) == mem[slot := PAD][slot + 1 := 0];
    assert PadHeader(mem, slot, n, 3) == mem[slot := PAD][slot + 1 := 0][slot + 2 := n % 256];
  }

  // ----- the steps of the machine a call is made of -----

  /** nc2_flush_ring: s before it, t at its read of the event word. */
  ghost predicate FlushSteps(remoteProdEvent: Word, s: State, t: State) {
    && s.r > 0 && Enabled(s, FlushPublish) && ConsumerMeanwhile(Step(s, FlushPublish), t)
    && remoteProdEvent == t.sh.prodEvent
  }

  ghost predicate FinishSteps(remoteConsEvent: Word, s: State, t: State) {
    && s.r > 0 && Enabled(s, FinishPublish) && ProducerMeanwhile(Step(s, FinishPublish), t)
    && remoteConsEvent == t.sh.consEvent
  }

  /** nc2_final_check_for_messages, of a consumer that has read all up to `prod`: s before it, and
      if that shows nothing new, t at the write of the event word and u at the second read. */
  ghost predicate FinalSteps(prod: Word, firstRead: Word, secondRead: Word, s: State, t: State, u: State) {
    && s.r > 0 && Enabled(s, FinalReadProd) && prod == s.c.localConsPvt && firstRead == s.sh.prod
    && (prod == firstRead ==>
          && ProducerMeanwhile(Step(s, FinalReadProd), t) && t.r > 0 && Enabled(t, WriteProdEvent)
          && ProducerMeanwhile(Step(t, WriteProdEvent), u) && secondRead == u.sh.prod)
  }

  /** __nc2_avoid_ring_wrap: s[0] before it; if it pads, s[1], .., s[4] before the header's bytes
      and s[5] before it moves past the pad. */
  ghost predicate PadSteps(n: nat, s: seq<State>) {
    && |s| == 6 && s[0].r > 0 && Enabled(s[0], AvoidWrap) && Size(s[0].p.pc.msg) == n
    && (WouldWrap(s[0].p.localProdPvt, n, s[0].r) ==>
          && ConsumerMeanwhile(Step(s[0], AvoidWrap), s[1])
          && forall i :: 1 <= i <= 4 ==>
               s[i].r > 0 && Enabled(s[i], PadByte) && ConsumerMeanwhile(Step(s[i], PadByte), s[i + 1]))
  }

  /** The states of one round of the space check: at the first read of the consumer index, at the
      write of the event word, and at the second read. */
  datatype Round = Round(read: State, arm: State, recheck: State)

  /** nc2_can_send_payload_bytes: s before it, and its rounds as far as it gets; consAt(i) is
      what its i-th read of the index gives. */
  ghost predicate SpaceSteps(n: nat, consAt: nat -> Word, msg: Msg, s: State, rounds: nat -> Round) {
    && s.r > 0 && Enabled(s, Send(msg)) && Size(msg) == n
    && ConsumerMeanwhile(Step(s, Send(msg)), rounds(0).read)
    && forall k: nat :: RoundSteps(rounds(k), rounds(k + 1).read, consAt(2 * k), consAt(2 * k + 1))
  }

  ghost predicate RoundSteps(round: Round, next: State, first: Word, second: Word) {
    && (round.read.r > 0 && Enabled(round.read, ReadCons) ==>
          first == round.read.sh.cons && ConsumerMeanwhile(Step(round.read, ReadCons), round.arm))
    && (round.arm.r > 0 && Enabled(round.arm, WriteConsEvent) ==>
          ConsumerMeanwhile(Step(round.arm, WriteConsEvent), round.recheck))
    && (round.recheck.r > 0 && Enabled(round.recheck, RecheckCons) ==>
          second == round.recheck.sh.cons && ConsumerMeanwhile(Step(round.recheck, RecheckCons), next))
  }

  /** The state in which a space check ends: granted from the cache, granted or refused in
      round k. */
  ghost function EndOfCheck(msg: Msg, s: State, rounds: nat -> Round, looked: bool, ok: bool, k: nat): State {
    if !looked then (if s.r > 0 && Enabled(s, Send(msg)) then Step(s, Send(msg)) else s)
    else if ok then
      (if rounds(k).read.r > 0 && Enabled(rounds(k).read, ReadCons) then Step(rounds(k).read, ReadCons) else s)
    else if rounds(k).recheck.r > 0 && Enabled(rounds(k).recheck, RecheckCons) then
      Step(rounds(k).recheck, RecheckCons)
    else s
  }

  /** What the check does to the producer's part before its first look. */
  lemma CheckBegins(n: nat, consAt: nat -> Word, msg: Msg, s: State, rounds: nat -> Round)
    requires SpaceSteps(n, consAt, msg, s, rounds)
    ensures if s.p.available > 2 * n then
              forall k: nat :: var t := EndOfCheck(msg, s, rounds, false, true, k);
                               t == s.(p := s.p.(pc := PGranted(msg)), g := t.g)
            else
              SameProducer(s.(p := s.p.(pc := PReadCons(msg, Need(s.p.localProdPvt, n, s.r)))), rounds(0).read)
  {
    hide ConsumerMeanwhile, RoundSteps, Need;
    ConsumerKeepsProducer(Step(s, Send(msg)), rounds(0).read);
  }

  /** What one round does to it. */
  lemma RoundDone(n: nat, consAt: nat -> Word, msg: Msg, s: State, rounds: nat -> Round, k: nat, need: nat)
    requires SpaceSteps(n, consAt, msg, s, rounds)
    requires rounds(k).read.r > 0 && rounds(k).read.p.pc == PReadCons(msg, need)
    ensures var read, recheck, first := rounds(k).read, rounds(k).recheck, consAt(2 * k);
            var space := Space(read.p.localProdPvt, first, read.r);
            var asked := read.(p := read.p.(pc := PRecheck(msg, need, first)),
                               sh := read.sh.(consEvent := Plus(first, 1)));
            if space >= need then
              var t := EndOfCheck(msg, s, rounds, true, true, k);
              SameProducer(read.(p := read.p.(available := space, pc := PGranted(msg))), t)
            else if first == consAt(2 * k + 1) then
              var t := EndOfCheck(msg, s, rounds, true, false, k);
              SameProducer(asked.(p := read.p.(pc := PIdle)), t) && t.g.wait.Waiting?
            else SameProducer(asked.(p := read.p), rounds(k + 1).read)
  {
    hide Space, Plus, ConsumerMeanwhile;
    var round := rounds(k);
    assert RoundSteps(round, rounds(k + 1).read, consAt(2 * k), consAt(2 * k + 1));
    if Space(round.read.p.localProdPvt, consAt(2 * k), round.read.r) < need {
      ConsumerKeepsProducer(Step(round.read, ReadCons), round.arm);
      ConsumerKeepsProducer(Step(round.arm, WriteConsEvent), round.recheck);
      if consAt(2 * k) != consAt(2 * k + 1) {
        ConsumerKeepsProducer(Step(round.recheck, RecheckCons), rounds(k + 1).read);
      }
    }
  }

  /** The header's bytes, one step each. */
  lemma {:induction false} PadBytesWritten(n: nat, s: seq<State>, k: nat)
    requires PadSteps(n, s) && WouldWrap(s[0].p.localProdPvt, n, s[0].r) && 1 <= k <= 5
    ensures s[k].r == s[0].r && s[k].p == s[0].p.(pc := PPadding(s[0].p.pc.msg, k - 1))
    ensures s[k].sh.prod == s[0].sh.prod && s[k].sh.consEvent == s[0].sh.consEvent
    ensures s[k].sh.mem == PadHeader(s[0].sh.mem, SlotOf(s[0].p.localProdPvt, s[0].r),
                                     PadNeeded(s[0].p.localProdPvt, s[0].r), k - 1)
  {
    hide SlotOf, PadNeeded, PadHeaderByte, Put, ConsumerMeanwhile;
    if k == 1 {
      ConsumerKeepsProducer(Step(s[0], AvoidWrap), s[1]);
    } else {
      PadBytesWritten(n, s, k - 1);
      ConsumerKeepsProducer(Step(s[k - 1], PadByte), s[k]);
    }
  }

  /** The fields this endpoint owns in shared memory. */
  class LocalEndpoint {
    var prod: Word
    var prodEvent: Word
    var cons: Word
    var consEvent: Word

    constructor ()
      ensures prod == prodEvent == cons == consEvent == 0
    {
      prod, prodEvent, cons, consEvent := 0, 0, 0, 0;
    }
  }

  /** A pad goes exactly up to the end of the ring. */
  lemma PadReachesEnd(pvt: Word, n: nat, r: Word)
    requires RingBytes(r) && n < TWO16 && pvt % 8 == 0 && WouldWrap(pvt, n, r)
    ensures var pad := PadNeeded(pvt, r);
            SlotOf(pvt, r) + pad == r && pad <= n && pad % 8 == 0 && SlotOf(Plus(pvt, pad), r) == 0
  {
    hide BitAnd, WouldWrap, PadNeeded, SlotOf, Pow2, Off;
    assert W(pvt) == pvt;
    PadAtMostMessage(pvt, n, r);
    SlotOfCount(pvt, r);
    RingAligned(r);
    OffAligned(pvt, r);
    OffAtEnd(pvt, r);
    SlotOfCount(pvt + (r - Off(pvt, r)), r);
    PlusOfCounts(pvt, r - Off(pvt, r));
  }

  class RingPair {
    const endpoint: LocalEndpoint
    const producerPayload: array<Byte>
    var localProd: Word
    var localProdPvt: Word
    var localCons: Word
    var localConsPvt: Word
    var available: Word

    ghost predicate Valid()
      reads this
    {
      RingBytes(producerPayload.Length) && localProdPvt % 8 == 0
    }

    function RingSize(): Word
      requires Valid()
      reads this
    {
      producerPayload.Length
    }

    constructor (endpoint: LocalEndpoint, payload: array<Byte>)
      requires RingBytes(payload.Length)
      ensures Valid() && this.endpoint == endpoint && producerPayload == payload
      ensures localProd == localProdPvt == localCons == localConsPvt == available == 0
    {
      this.endpoint, producerPayload := endpoint, payload;
      localProd, localProdPvt, localCons, localConsPvt, available := 0, 0, 0, 0, 0;
    }

    /** The producer's part is as in this machine state. */
    ghost predicate ProducerAt(s: State)
      reads this, endpoint, producerPayload
    {
      && s.r == producerPayload.Length > 0 && s.sh.mem == producerPayload[..]
      && s.p.localProd == localProd && s.p.localProdPvt == localProdPvt && s.p.available == available
      && s.sh.prod == endpoint.prod && s.sh.consEvent == endpoint.consEvent
    }

    ghost predicate ConsumerAt(s: State)
      reads this, endpoint
    {
      && s.r > 0 && s.c.localCons == localCons && s.c.localConsPvt == localConsPvt
      && s.sh.cons == endpoint.cons && s.sh.prodEvent == endpoint.prodEvent
    }

    /** Write a pad header at the production index and move past the pad. */
    method SendPad(n: nat)
      requires Valid() && n < TWO16 && n % 8 == 0
      modifies this`localProdPvt, this`available, producerPayload
      ensures Valid()
      ensures producerPayload[..]
              == PadHeader(old(producerPayload[..]), SlotOf(old(localProdPvt), RingSize()), n, 4)
      ensures localProdPvt == Plus(old(localProdPvt), n)
      ensures available == Minus(old(available), n)
    {
      hide BitAnd, Pow2, PadHeader;
      var slot := SlotOf(localProdPvt, RingSize());
      HeaderFits(localProdPvt, RingSize());
      PadHeaderIs(producerPayload[..], slot, n);
      producerPayload[slot] := PAD;
      producerPayload[slot + 1] := 0;
      producerPayload[slot + 2] := n % 256;
      producerPayload[slot + 3] := n / 256;
      localProdPvt := Plus(localProdPvt, n);
      available := Minus(available, n);
    }

    /** Before a message of n bytes: if it would reach the ring's end, pad up to that end. */
    method AvoidRingWrap(n: nat, ghost s: seq<State>)
      requires Valid() && n < TWO16
      modifies this`localProdPvt, this`available, producerPayload
      ensures Valid()
      ensures !WouldWrap(old(localProdPvt), n, RingSize()) ==>
                && localProdPvt == old(localProdPvt) && available == old(available)
                && producerPayload[..] == old(producerPayload[..])
      ensures WouldWrap(old(localProdPvt), n, RingSize()) ==>
                var slot, pad := SlotOf(old(localProdPvt), RingSize()), PadNeeded(old(localProdPvt), RingSize());
                && slot + pad == RingSize() && pad <= n && SlotOf(localProdPvt, RingSize()) == 0
                && localProdPvt == Plus(old(localProdPvt), pad)
                && available == Minus(old(available), pad)
                && producerPayload[..] == PadHeader(old(producerPayload[..]), slot, pad, 4)
      ensures PadSteps(n, s) && old(ProducerAt(s[0])) ==>
                if WouldWrap(old(localProdPvt), n, RingSize()) then
                  s[5].r > 0 && Enabled(s[5], PadCommit) && ProducerAt(Step(s[5], PadCommit))
                else ProducerAt(Step(s[0], AvoidWrap))
    {
      hide BitAnd, PadHeader, WouldWrap, PadNeeded, SlotOf, Pow2, Off, ConsumerMeanwhile;
      if !WouldWrap(localProdPvt, n, RingSize()) {
        return;
      }
      if PadSteps(n, s) && ProducerAt(s[0]) { PadBytesWritten(n, s, 5); }
      PadReachesEnd(localProdPvt, n, RingSize());
      SendPad(PadNeeded(localProdPvt, RingSize()));
    }

    /** Publish the production index; prodEvent is what the peer's event word read as then. */
    method FlushRing(remoteProdEvent: Word, ghost s: State, ghost t: State) returns (notify: bool)
      modifies this`localProd, endpoint`prod
      ensures endpoint.prod == localProd == localProdPvt
      ensures notify == Crosses(old(localProd), localProdPvt, remoteProdEvent)
      ensures remoteProdEvent == Plus(old(localProd), 1) ==> (notify <==> localProd != old(localProd))
      ensures FlushSteps(remoteProdEvent, s, t) && old(ProducerAt(s)) ==>
                && t.r > 0 && Enabled(t, FlushReadEvent) && ProducerAt(Step(t, FlushReadEvent))
                && Step(t, FlushReadEvent).g.consumerNotified == (t.g.consumerNotified || notify)
    {
      hide ConsumerMeanwhile;
      if FlushSteps(remoteProdEvent, s, t) { ConsumerKeepsProducer(Step(s, FlushPublish), t); }
      var newProd := localProdPvt;
      var oldProd := localProd;
      endpoint.prod := newProd;
      localProd := newProd;
      if Minus(newProd, remoteProdEvent) < Minus(newProd, oldProd) {
        return true;
      } else {
        return false;
      }
    }

    method FinishMessages(remoteConsEvent: Word, ghost s: State, ghost t: State) returns (notify: bool)
      modifies this`localCons, endpoint`cons
      ensures endpoint.cons == localCons == localConsPvt
      ensures notify == Crosses(old(localCons), localConsPvt, remoteConsEvent)
      ensures remoteConsEvent == Plus(old(localCons), 1) ==> (notify <==> localCons != old(localCons))
      ensures FinishSteps(remoteConsEvent, s, t) && old(ConsumerAt(s)) ==>
                && t.r > 0 && Enabled(t, FinishReadEvent) && ConsumerAt(Step(t, FinishReadEvent))
                && Step(t, FinishReadEvent).g.producerNotified == (t.g.producerNotified || notify)
    {
      hide ProducerMeanwhile;
      if FinishSteps(remoteConsEvent, s, t) { ProducerKeepsConsumer(Step(s, FinishPublish), t); }
      var oldCons := localCons;
      var newCons := localConsPvt;
      endpoint.cons := newCons;
      localCons := newCons;
      if Minus(newCons, remoteConsEvent) < Minus(newCons, oldCons) {
        return true;
      } else {
        return false;
      }
    }

    /** The two parameters after prod are what the peer's index read as, before and after the
        event word was written. */
    method FinalCheckForMessages(prod: Word, firstRead: Word, secondRead: Word,
                                 ghost s: State, ghost t: State, ghost u: State) returns (more: bool)
      modifies endpoint`prodEvent
      ensures more == (prod != firstRead || prod != secondRead)
      ensures endpoint.prodEvent == if prod == firstRead then Plus(prod, 1) else old(endpoint.prodEvent)
      ensures FinalSteps(prod, firstRead, secondRead, s, t, u) && old(ConsumerAt(s)) ==>
                if prod != firstRead then ConsumerAt(Step(s, FinalReadProd))
                else
                  && u.r > 0 && Enabled(u, FinalRecheck) && ConsumerAt(Step(u, FinalRecheck))
                  && Step(u, FinalRecheck).g.sleep == if more then u.g.sleep else Asleep(u.g.consumed)
    {
      hide ProducerMeanwhile, Plus;
      if FinalSteps(prod, firstRead, secondRead, s, t, u) && prod == firstRead {
        ProducerKeepsConsumer(Step(s, FinalReadProd), t);
        ProducerKeepsConsumer(Step(t, WriteProdEvent), u);
      }
      if prod != firstRead {
        return true;
      }
      endpoint.prodEvent := Plus(prod, 1);
      if prod != secondRead {
        return true;
      } else {
        return false;
      }
    }

    /** The space check. consAt(i) is what the peer's index reads as when it is read for the i-th
        time, whatever that is; the check returns if one of its rounds settles it. It then tells
        in which round. */
    method CanSendPayloadBytes(n: nat, consAt: nat -> Word, ghost msg: Msg, ghost s: State, ghost rounds: nat -> Round)
      returns (ok: bool, ghost looked: bool, ghost k: nat)
      requires Valid() && n < TWO16
      requires available > 2 * n || exists i: nat :: Settles(localProdPvt, n, RingSize(), consAt, i)
      modifies this`available, endpoint`consEvent
      ensures Valid() && (looked <==> old(available) <= 2 * n)
      ensures !looked ==> ok && available == old(available) && endpoint.consEvent == old(endpoint.consEvent)
      ensures looked ==>
                && Settles(localProdPvt, n, RingSize(), consAt, k)
                && forall i: nat :: i < k ==> !Settles(localProdPvt, n, RingSize(), consAt, i)
      ensures looked ==>
                (ok <==> Space(localProdPvt, consAt(2 * k), RingSize()) >= Need(localProdPvt, n, RingSize()))
      ensures available == if looked && ok then Space(localProdPvt, consAt(2 * k), RingSize()) else old(available)
      ensures looked && !ok ==> endpoint.consEvent == Plus(consAt(2 * k), 1)
      ensures looked && ok ==>
                endpoint.consEvent == if k == 0 then old(endpoint.consEvent) else Plus(consAt(2 * k - 2), 1)
      ensures SpaceSteps(n, consAt, msg, s, rounds) && old(ProducerAt(s)) ==>
                var t := EndOfCheck(msg, s, rounds, looked, ok, k);
                ProducerAt(t) && t.p.pc == (if ok then PGranted(msg) else PIdle) && (!ok ==> t.g.wait.Waiting?)
    {
      hide Off, BitAnd, Pow2, WouldWrap, PadNeeded, Space, Minus, W, Plus, SpaceSteps, EndOfCheck;
      ghost var tied := SpaceSteps(n, consAt, msg, s, rounds) && ProducerAt(s);
      if tied { CheckBegins(n, consAt, msg, s, rounds); }
      if available > 2 * n {
        return true, false, 0;
      }
      var need := n;
      if WouldWrap(localProdPvt, n, RingSize()) {
        need := (n + PadNeeded(localProdPvt, RingSize())) % TWO16;
      }
      ghost var last: nat :| Settles(localProdPvt, n, RingSize(), consAt, last);
      k := 0;
      var looks := 0;
      while true
        invariant looks == 2 * k && k <= last && need == Need(localProdPvt, n, RingSize())
        invariant forall i: nat :: i < k ==> !Settles(localProdPvt, n, RingSize(), consAt, i)
        invariant available == old(available)
        invariant tied ==> ProducerAt(rounds(k).read) && rounds(k).read.p.pc == PReadCons(msg, need)
        invariant endpoint.consEvent == if k == 0 then old(endpoint.consEvent) else Plus(consAt(2 * k - 2), 1)
        decreases last - k
      {
        if tied { RoundDone(n, consAt, msg, s, rounds, k, need); }
        var cons := consAt(looks);
        var space := Space(localProdPvt, cons, RingSize());
        if space >= need {
          available := space;
          return true, true, k;
        }
        endpoint.consEvent := Plus(cons, 1);
        if cons == consAt(looks + 1) {
          return false, true, k;
        }
        looks := looks + 2;
        k := k + 1;
      }
    }
  }

  /** Round i of the space check returns: it finds enough space, or the index still where it was
      after the event word was written. */
  ghost predicate Settles(pvt: Word, n: nat, r: Word, consAt: nat -> Word, i: nat)
    requires r > 0
  {
    Space(pvt, consAt(2 * i), r) >= Need(pvt, n, r) || consAt(2 * i + 1) == consAt(2 * i)
  }

  /** A peer that only advances its index, and never past what was published, settles the check
      within one round per byte published and not released when it began, and one more. */
  lemma WellBehavedPeerSettles(pvt: Word, n: nat, r: Word, countAt: nat -> nat, published: nat)
    returns (i: nat)
    requires r > 0 && published < countAt(0) + TWO32
    requires forall j: nat, k: nat :: j <= k ==> countAt(j) <= countAt(k) <= published
    ensures i <= published - countAt(0) && Settles(pvt, n, r, k => W(countAt(k)), i)
  {
    hide Settles;
    i := 0;
    while !Settles(pvt, n, r, k => W(countAt(k)), i)
      invariant countAt(0) + i <= countAt(2 * i) <= published
      decreases published - i
    {
      UnsettledMoves(pvt, n, r, countAt, i);
      assert countAt(2 * i + 1) <= countAt(2 * (i + 1)) <= published;
      i := i + 1;
    }
  }

  lemma UnsettledMoves(pvt: Word, n: nat, r: Word, countAt: nat -> nat, i: nat)
    requires r > 0 && !Settles(pvt, n, r, k => W(countAt(k)), i) && countAt(2 * i) <= countAt(2 * i + 1)
    ensures countAt(2 * i) < countAt(2 * i + 1)
  {
    hide Space, Need;
  }

  /** Eight-byte alignment leaves room for a header before the ring's end. */
  lemma HeaderFits(pvt: Word, r: nat)
    requires RingBytes(r) && pvt % 8 == 0
    ensures SlotOf(pvt, r) + 8 <= r
  {
    hide BitAnd, Pow2, Off;
    assert W(pvt) == pvt;
    SlotOfCount(pvt, r);
    RingAligned(r);
    OffAligned(pvt, r);
  }
}
