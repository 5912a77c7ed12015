/** What every step of the netchannel2 machine keeps. */
module Nc2Invariant {
  import opened Word32
  import opened EventIndex
  import opened Nc2Arith
  import opened Nc2Messages
  import opened Nc2Machine

  /** The indices in order, and never more than one ring between release and production. */
  ghost predicate Indices(g: Ghost, r: nat) {
    && AllWellSized(g.sent)
    && g.readAt <= g.released <= g.consumed <= g.fetched <= g.published <= |g.sent|
    && Start(g.sent, |g.sent|) <= Start(g.sent, g.released) + r
  }

  /** The words of the program are the counts they stand for, modulo 2^32. */
  ghost predicate Words(sh: Shared, p: Producer, c: Consumer, g: Ghost)
    requires AllWellSized(g.sent)
    requires g.released <= g.consumed <= g.fetched <= g.published <= |g.sent|
  {
    && sh.prod == p.localProd == W(Start(g.sent, g.published))
    && p.localProdPvt == W(Start(g.sent, |g.sent|))
    && sh.cons == c.localCons == W(Start(g.sent, g.released))
    && c.localConsPvt == W(Start(g.sent, g.consumed))
    && c.prodSeen == W(Start(g.sent, g.fetched))
  }

  /** No message straddles the end of the ring. */
  ghost predicate Contiguous(sent: seq<Msg>, r: nat)
    requires AllWellSized(sent) && r > 0
  {
    forall k :: 0 <= k < |sent| ==> Off(Start(sent, k), r) + Size(sent[k]) <= r
  }

  /** Every byte sent and not yet released still lies in the ring. */
  ghost predicate Intact(mem: seq<Byte>, sent: seq<Msg>, released: nat, r: nat)
    requires AllWellSized(sent) && released <= |sent| && r > 0
  {
    && |mem| == r
    && forall i :: Start(sent, released) <= i < |Stream(sent)| ==> mem[Off(i, r)] == Stream(sent)[i]
  }

  /** The cached free space never exceeds the real free space. */
  ghost predicate Cached(available: Word, g: Ghost, r: nat)
    requires Indices(g, r)
  {
    available + Start(g.sent, |g.sent|) <= Start(g.sent, g.released) + r
  }

  ghost predicate Wanting(msg: Msg, need: nat, top: nat, r: nat)
    requires r > 0
  {
    Sendable(msg) && need == TrueNeed(top, Size(msg), r)
  }

  /** A look at the consumer index, standing at `cons`, showed too little space. */
  ghost predicate Refused(msg: Msg, top: nat, cons: nat, r: nat)
    requires r > 0
  {
    Sendable(msg) && cons + r < top + TrueNeed(top, Size(msg), r) && cons <= top <= cons + r
  }

  /** The first bytes of a pad's header are in place. */
  ghost predicate PadBegun(mem: seq<Byte>, slot: nat, n: nat, done: nat) {
    slot + done <= |mem| && forall t :: 0 <= t < done ==> mem[slot + t] == PadHeaderByte(n, t)
  }

  ghost predicate ProducerOk(p: Producer, consEvent: Word, mem: seq<Byte>, top: nat, cons: nat, r: nat)
    requires r > 0
  {
    match p.pc
    case PIdle => true
    case PReadCons(msg, need) => Wanting(msg, need, top, r)
    case PArm(msg, need, seen) =>
      Wanting(msg, need, top, r) && seen == W(cons) && Refused(msg, top, cons, r)
    case PRecheck(msg, need, seen) =>
      && Wanting(msg, need, top, r) && seen == W(cons) && Refused(msg, top, cons, r)
      && consEvent == W(cons + 1)
    case PGranted(msg) => Sendable(msg) && TrueNeed(top, Size(msg), r) <= p.available
    case PPadding(msg, done) =>
      && Sendable(msg) && TrueNeed(top, Size(msg), r) <= p.available && Off(top, r) + Size(msg) >= r
      && done <= 4 && |mem| == r && PadBegun(mem, Off(top, r), r - Off(top, r), done)
    case PWriting(msg, done) =>
      && Sendable(msg) && done <= Size(msg) <= p.available && Off(top, r) + Size(msg) <= r
      && |mem| == r && forall t :: 0 <= t < done ==> mem[Off(top, r) + t] == Encode(msg)[t]
    case PFlushCheck(before, after) => true
  }

  ghost predicate ConsumerOk(c: Consumer, prodEvent: Word, sent: seq<Msg>, consumed: nat, fetched: nat)
    requires AllWellSized(sent) && consumed <= fetched <= |sent|
  {
    && c.delivered == ClientView(sent[..consumed])
    && match c.pc
       case CIdle => true
       case CReading(acc) =>
         && consumed < fetched && |acc| <= Size(sent[consumed])
         && acc == Encode(sent[consumed])[..|acc|]
       case CFinishCheck(before, after) => true
       case CArm(prod) => prod == W(Start(sent, consumed))
       case CRecheck(prod) =>
         prod == W(Start(sent, consumed)) && prodEvent == W(Start(sent, consumed) + 1)
  }

  function Top(g: Ghost): nat
    requires AllWellSized(g.sent)
  {
    Start(g.sent, |g.sent|)
  }

  /** A sleeping consumer with something to read has been notified, or is about to be. */
  ghost predicate ConsumerWakes(s: State)
    requires Indices(s.g, s.r)
  {
    s.g.sleep.Asleep? ==>
      && s.g.sleep.seen == s.g.consumed
      && s.sh.prodEvent == W(Start(s.g.sent, s.g.consumed) + 1)
      && (s.c.pc.CIdle? || s.c.pc.CFinishCheck?)
      && (s.g.published > s.g.consumed ==>
            || s.g.consumerNotified
            || (s.p.pc.PFlushCheck? && Crosses(s.p.pc.before, s.p.pc.after, s.sh.prodEvent)))
  }

  /** A waiting producer whose peer has released something has been notified, or is about to be. */
  ghost predicate ProducerWakes(s: State)
    requires s.r > 0 && Indices(s.g, s.r)
  {
    s.g.wait.Waiting? ==>
      && s.g.wait.seen <= s.g.released
      && Refused(s.g.wait.msg, Top(s.g), Start(s.g.sent, s.g.wait.seen), s.r)
      && s.sh.consEvent == W(Start(s.g.sent, s.g.wait.seen) + 1)
      && (s.p.pc.PIdle? || s.p.pc.PFlushCheck?)
      && (s.g.released > s.g.wait.seen ==>
            || s.g.producerNotified
            || (s.c.pc.CFinishCheck? && Crosses(s.c.pc.before, s.c.pc.after, s.sh.consEvent)))
  }

  ghost predicate Inv(s: State) {
    && Shape(s)
    && Indices(s.g, s.r)
    && Words(s.sh, s.p, s.c, s.g)
    && Contiguous(s.g.sent, s.r)
    && Intact(s.sh.mem, s.g.sent, s.g.released, s.r)
    && Cached(s.p.available, s.g, s.r)
    && ProducerOk(s.p, s.sh.consEvent, s.sh.mem, Top(s.g), Start(s.g.sent, s.g.readAt), s.r)
    && ConsumerOk(s.c, s.sh.prodEvent, s.g.sent, s.g.consumed, s.g.fetched)
    && ConsumerWakes(s)
    && ProducerWakes(s)
  }

  lemma InitInv(s: State)
    requires Init(s)
    ensures Inv(s)
  {
    assert s.g.sent[..0] == [];
  }

  /** Two message boundaries inside one ring have equal words exactly when they are the same. */
  lemma BoundariesEqual(g: Ghost, r: nat, j: nat, k: nat)
    requires RingBytes(r) && Indices(g, r) && j <= k <= |g.sent|
    requires Start(g.sent, k) <= Start(g.sent, j) + r
    ensures 0 <= Start(g.sent, k) - Start(g.sent, j) <= r
    ensures W(Start(g.sent, j)) == W(Start(g.sent, k)) <==> j == k
  {
    StartGrows(g.sent, j, k);
    WordsEqual(Start(g.sent, j), Start(g.sent, k));
  }

  /** Every boundary from release to production is within one ring. */
  lemma InWindow(g: Ghost, r: nat, j: nat, k: nat)
    requires Indices(g, r) && g.released <= j <= k <= |g.sent|
    ensures Start(g.sent, j) <= Start(g.sent, k) <= Start(g.sent, j) + r
  {
    StartGrows(g.sent, g.released, j);
    StartGrows(g.sent, j, k);
    StartGrows(g.sent, k, |g.sent|);
  }

  // ----- steps of the producer -----

  lemma SendKeeps(s: State, msg: Msg)
    requires Inv(s) && Enabled(s, Send(msg))
    ensures Inv(Step(s, Send(msg)))
  {
    hide Start, Stream, Off, Encode, BitAnd, Contiguous, Intact;
    NeedExactIff(Start(s.g.sent, |s.g.sent|), Size(msg), s.r);
  }

  /** The space computed from words is the real free space past the production index. */
  lemma SpaceIsReal(top: nat, cons: nat, r: nat)
    requires cons <= top <= cons + r && r <= 0x8000_0000
    ensures Space(W(top), W(cons), r) == r - (top - cons)
  {
    MinusOfCounts(top, cons);
  }

  lemma ReadConsKeeps(s: State)
    requires Inv(s) && Enabled(s, ReadCons)
    ensures Inv(Step(s, ReadCons))
  {
    hide Start, Stream, Off, Encode, BitAnd, Contiguous, Intact, ConsumerOk, Minus, W;
    InWindow(s.g, s.r, s.g.released, |s.g.sent|);
    SpaceIsReal(Start(s.g.sent, |s.g.sent|), Start(s.g.sent, s.g.released), s.r);
  }

  lemma WriteConsEventKeeps(s: State)
    requires Inv(s) && Enabled(s, WriteConsEvent)
    ensures Inv(Step(s, WriteConsEvent))
  {
    hide Start, Stream, Off, Encode, BitAnd, Contiguous, Intact, ConsumerOk, Refused, Wanting, TrueNeed, W, Plus;
    PlusOfCounts(Start(s.g.sent, s.g.readAt), 1);
  }

  lemma RecheckConsKeeps(s: State)
    requires Inv(s) && Enabled(s, RecheckCons)
    ensures Inv(Step(s, RecheckCons))
  {
    hide Start, Stream, Off, Encode, BitAnd, Contiguous, Intact, ConsumerOk, TrueNeed, W, Plus;
    StartGrows(s.g.sent, s.g.released, |s.g.sent|);
    BoundariesEqual(s.g, s.r, s.g.readAt, s.g.released);
  }

  lemma FlushPublishKeeps(s: State)
    requires Inv(s) && Enabled(s, FlushPublish)
    ensures Inv(Step(s, FlushPublish))
  {
    hide Start, Stream, Off, Encode, BitAnd, Contiguous, Intact, ConsumerOk, Refused, TrueNeed, W, Crosses;
    var g := s.g;
    if g.sleep.Asleep? && |g.sent| > g.consumed {
      InWindow(g, s.r, g.consumed, |g.sent|);
      StartGrows(g.sent, g.consumed, |g.sent|);
      if g.published == g.consumed {
        NextIndexIsCaught(Start(g.sent, g.consumed), Start(g.sent, |g.sent|));
      }
    }
  }

  lemma FlushReadEventKeeps(s: State)
    requires Inv(s) && Enabled(s, FlushReadEvent)
    ensures Inv(Step(s, FlushReadEvent))
  {
    hide Start, Stream, Off, Encode, BitAnd, Contiguous, Intact, ConsumerOk, Refused, TrueNeed, W, Crosses;
  }

  // ----- steps of the consumer -----

  lemma FetchProdKeeps(s: State)
    requires Inv(s) && Enabled(s, FetchProd)
    ensures Inv(Step(s, FetchProd))
  {
    hide Start, Stream, Off, Encode, BitAnd, Contiguous, Intact, ProducerOk, Refused, TrueNeed, W, Crosses;
  }

  lemma StartReadKeeps(s: State)
    requires Inv(s) && Enabled(s, StartRead)
    ensures Inv(Step(s, StartRead))
  {
    hide Start, Stream, Off, BitAnd, Contiguous, Intact, ProducerOk, Refused, TrueNeed, W, Crosses;
  }

  lemma FinishPublishKeeps(s: State)
    requires Inv(s) && Enabled(s, FinishPublish)
    ensures Inv(Step(s, FinishPublish))
  {
    hide Start, Off, Encode, BitAnd, Contiguous, ProducerOk, TrueNeed, W, Crosses, Stream;
    var g := s.g;
    StartGrows(g.sent, g.released, g.consumed);
    if g.wait.Waiting? && g.consumed > g.wait.seen && g.released == g.wait.seen {
      InWindow(g, s.r, g.released, g.consumed);
      StartGrows(g.sent, g.wait.seen, g.consumed);
      NextIndexIsCaught(Start(g.sent, g.wait.seen), Start(g.sent, g.consumed));
    }
  }

  lemma FinishReadEventKeeps(s: State)
    requires Inv(s) && Enabled(s, FinishReadEvent)
    ensures Inv(Step(s, FinishReadEvent))
  {
    hide Start, Stream, Off, Encode, BitAnd, Contiguous, Intact, ProducerOk, Refused, TrueNeed, W, Crosses;
  }

  lemma FinalReadProdKeeps(s: State)
    requires Inv(s) && Enabled(s, FinalReadProd)
    ensures Inv(Step(s, FinalReadProd))
  {
    hide Start, Stream, Off, Encode, BitAnd, Contiguous, Intact, ProducerOk, Refused, TrueNeed, W, Crosses;
  }

  lemma WriteProdEventKeeps(s: State)
    requires Inv(s) && Enabled(s, WriteProdEvent)
    ensures Inv(Step(s, WriteProdEvent))
  {
    hide Start, Stream, Off, Encode, BitAnd, Contiguous, Intact, Refused, TrueNeed, W, Plus, Crosses;
    PlusOfCounts(Start(s.g.sent, s.g.consumed), 1);
  }

  lemma FinalRecheckKeeps(s: State)
    requires Inv(s) && Enabled(s, FinalRecheck)
    ensures Inv(Step(s, FinalRecheck))
  {
    hide Start, Stream, Off, Encode, BitAnd, Contiguous, Intact, ProducerOk, Refused, TrueNeed, W, Plus, Crosses;
    InWindow(s.g, s.r, s.g.consumed, s.g.published);
    BoundariesEqual(s.g, s.r, s.g.consumed, s.g.published);
  }
}
