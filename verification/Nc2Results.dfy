/** What holds of every run of the netchannel2 machine, stated on the program's own words. */
module Nc2Results {
  import opened Word32
  import opened EventIndex
  import opened Nc2Arith
  import opened Nc2Messages
  import opened Nc2Machine
  import opened Nc2Invariant
  import opened Nc2Proof

  ghost predicate Reachable(s: State) {
    exists s0: State, run: seq<Action> ::
      Init(s0) && s0.r > 0 && Runs(s0, run) && Exec(s0, run) == s
  }

  lemma StepKeeps(s: State, a: Action)
    requires Inv(s) && Enabled(s, a)
    ensures Inv(Step(s, a))
  {
    hide Inv, Enabled, Step;
    match a
    case Send(msg) => SendKeeps(s, msg);
    case ReadCons => ReadConsKeeps(s);
    case WriteConsEvent => WriteConsEventKeeps(s);
    case RecheckCons => RecheckConsKeeps(s);
    case AvoidWrap => AvoidWrapKeeps(s);
    case PadByte => PadByteKeeps(s);
    case PadCommit => PadCommitKeeps(s);
    case WriteByte => WriteByteKeeps(s);
    case Commit => CommitKeeps(s);
    case FlushPublish => FlushPublishKeeps(s);
    case FlushReadEvent => FlushReadEventKeeps(s);
    case FetchProd => FetchProdKeeps(s);
    case StartRead => StartReadKeeps(s);
    case ReadByte => ReadByteKeeps(s);
    case Advance => AdvanceKeeps(s);
    case FinishPublish => FinishPublishKeeps(s);
    case FinishReadEvent => FinishReadEventKeeps(s);
    case FinalReadProd => FinalReadProdKeeps(s);
    case WriteProdEvent => WriteProdEventKeeps(s);
    case FinalRecheck => FinalRecheckKeeps(s);
  }

  lemma {:induction false} RunKeeps(s: State, run: seq<Action>)
    requires s.r > 0 && Inv(s) && Runs(s, run)
    ensures Inv(Exec(s, run))
    decreases run
  {
    hide Inv, Step, Enabled;
    if run == [] {
    } else {
      StepKeeps(s, run[0]);
      RunKeeps(Step(s, run[0]), run[1..]);
    }
  }

  lemma ReachableInv(s: State)
    requires Reachable(s)
    ensures Inv(s)
  {
    hide Inv, Step, Enabled, Init;
    var s0: State, run: seq<Action> :| Init(s0) && s0.r > 0 && Runs(s0, run) && Exec(s0, run) == s;
    InitInv(s0);
    RunKeeps(s0, run);
  }

  // ----- messages arrive once each, whole and in order -----

  /** The messages whose sending a run completes. */
  function Sends(s: State, run: seq<Action>): seq<Msg>
    requires s.r > 0 && Runs(s, run)
    decreases run
  {
    if run == [] then []
    else (if run[0] == Commit then [s.p.pc.msg] else []) + Sends(Step(s, run[0]), run[1..])
  }

  lemma CommitIsOnlySend(s: State, a: Action)
    requires Inv(s) && Enabled(s, a)
    ensures ClientView(Step(s, a).g.sent)
            == ClientView(s.g.sent) + if a == Commit then [s.p.pc.msg] else []
  {
    hide Start, Stream, BitAnd, Contiguous, Intact, Off, Encode, ConsumerOk, Crosses, W, Refused,
         ConsumerWakes, ProducerWakes, WouldWrap, PadNeeded, PadHeaderByte, ClientView, Need, Space;
    if a == Commit {
      ClientViewSnoc(s.g.sent, s.p.pc.msg);
    } else if a == PadCommit {
      var slot := SlotOf(s.p.localProdPvt, s.r);
      ClientViewSnoc(s.g.sent, PadMsg(s.sh.mem, slot, PadNeeded(s.p.localProdPvt, s.r)));
    }
  }

  lemma {:induction false} SendsAreLogged(s: State, run: seq<Action>)
    requires s.r > 0 && Inv(s) && Runs(s, run)
    ensures ClientView(Exec(s, run).g.sent) == ClientView(s.g.sent) + Sends(s, run)
    decreases run
  {
    hide Inv, Step, Enabled, ClientView;
    if run == [] {
    } else {
      var s' := Step(s, run[0]);
      StepKeeps(s, run[0]);
      CommitIsOnlySend(s, run[0]);
      SendsAreLogged(s', run[1..]);
    }
  }

  /** Over every interleaving, what the consumer has been given is a prefix of what was sent. */
  lemma DeliveredIsPrefixOfSent(s0: State, run: seq<Action>)
    requires Init(s0) && s0.r > 0 && Runs(s0, run)
    ensures Exec(s0, run).c.delivered <= Sends(s0, run)
  {
    hide Step, Enabled, Contiguous, Intact, ProducerOk, ConsumerWakes, ProducerWakes, Words;
    InitInv(s0);
    RunKeeps(s0, run);
    SendsAreLogged(s0, run);
    var s := Exec(s0, run);
    ClientViewPrefix(s.g.sent, s.g.consumed);
  }

  /** Once the consumer's index has caught up with the producer's, everything has arrived. */
  lemma CaughtUpMeansAllDelivered(s0: State, run: seq<Action>)
    requires Init(s0) && s0.r > 0 && Runs(s0, run)
    requires Exec(s0, run).c.localConsPvt == Exec(s0, run).p.localProdPvt
    ensures Exec(s0, run).c.delivered == Sends(s0, run)
  {
    hide Step, Enabled, Contiguous, Intact, ProducerOk, ConsumerWakes, ProducerWakes, Start, ClientView, W;
    InitInv(s0);
    RunKeeps(s0, run);
    SendsAreLogged(s0, run);
    var s := Exec(s0, run);
    InWindow(s.g, s.r, s.g.consumed, |s.g.sent|);
    BoundariesEqual(s.g, s.r, s.g.consumed, |s.g.sent|);
    assert s.g.sent[..|s.g.sent|] == s.g.sent;
    assert ClientView(s0.g.sent) == [] by { ViewOfNothing(); }
  }

  lemma ViewOfNothing()
    ensures ClientView([]) == []
  {}

  /** What a step may do to the log and the released count: add at most one message, or release. */
  lemma StepExtendsLog(s: State, a: Action)
    requires Inv(s) && Enabled(s, a)
    ensures var s' := Step(s, a);
            && (s'.g.sent == s.g.sent || (|s'.g.sent| == |s.g.sent| + 1
                                          && s'.g.sent == s.g.sent + [s'.g.sent[|s.g.sent|]]))
            && (s'.g.released == s.g.released || s'.sh.mem == s.sh.mem)
  {
    hide Start, Stream, BitAnd, Contiguous, Intact, Off, Encode, ConsumerOk, Crosses, W, Refused,
         ConsumerWakes, ProducerWakes, WouldWrap, PadNeeded, PadMsg, Need, Space, TrueNeed;
  }

  lemma StreamExtends(sent: seq<Msg>, sent': seq<Msg>, i: nat)
    requires AllWellSized(sent) && AllWellSized(sent') && i < |Stream(sent)|
    requires sent' == sent || (|sent'| == |sent| + 1 && sent' == sent + [sent'[|sent|]])
    ensures |Stream(sent)| <= |Stream(sent')| && Stream(sent')[i] == Stream(sent)[i]
    ensures forall k :: 0 <= k <= |sent| ==> Start(sent', k) == Start(sent, k)
  {
    hide Stream, Start;
    if sent' != sent {
      StreamOfSnoc(sent, sent'[|sent|]);
      StartsAfterAppend(sent, sent'[|sent|]);
    }
  }

  /** No step changes a byte that was sent and not yet released: count i of the stream is at the
      same place, with the same value, before and after. */
  lemma UnreleasedBytesUntouched(s: State, a: Action, i: nat)
    requires Inv(s) && Enabled(s, a)
    requires Start(s.g.sent, s.g.released) <= i < Top(s.g)
    ensures |Stream(s.g.sent)| == Top(s.g) && |Step(s, a).sh.mem| == |s.sh.mem| == s.r
    ensures Step(s, a).sh.mem[Off(i, s.r)] == s.sh.mem[Off(i, s.r)] == Stream(s.g.sent)[i]
  {
    hide Start, Stream, Off, Encode, BitAnd, Contiguous, ConsumerOk, ProducerOk, ConsumerWakes,
         ProducerWakes, Words, Cached, Step, Enabled;
    var s' := Step(s, a);
    StepKeeps(s, a);
    StepExtendsLog(s, a);
    StreamLength(s.g.sent);
    StreamExtends(s.g.sent, s'.g.sent, i);
  }

  // ----- the space check -----

  /** The cached count is at most the free space computed from the shared consumer index, so a
      check answered from the cache alone grants only space that is there. */
  lemma CacheIsUnderEstimate(s: State)
    requires Reachable(s)
    ensures s.r > 0 && s.p.available <= Space(s.p.localProdPvt, s.sh.cons, s.r) <= s.r
  {
    hide Start, Stream, Off, Encode, BitAnd, Contiguous, ConsumerOk, ProducerOk, Intact, W, Minus, Space,
         ConsumerWakes, ProducerWakes;
    ReachableInv(s);
    InWindow(s.g, s.r, s.g.released, |s.g.sent|);
    SpaceIsReal(Top(s.g), Start(s.g.sent, s.g.released), s.r);
  }

  /** After a check has returned 1, the cache covers the pad and the message; so neither
      subtraction underflows, and when writing starts the message fits before the ring's end. */
  lemma GrantCoversPadAndMessage(s: State)
    requires Reachable(s)
    ensures s.r > 0
    ensures s.p.pc.PGranted? ==>
              Need(s.p.localProdPvt, Size(s.p.pc.msg), s.r) <= s.p.available
    ensures s.p.pc.PGranted? && WouldWrap(s.p.localProdPvt, Size(s.p.pc.msg), s.r) ==>
              PadNeeded(s.p.localProdPvt, s.r) + Size(s.p.pc.msg) <= s.p.available
    ensures s.p.pc.PWriting? ==>
              && Size(s.p.pc.msg) <= s.p.available
              && SlotOf(s.p.localProdPvt, s.r) + Size(s.p.pc.msg) <= s.r
  {
    hide Start, Stream, Off, Encode, BitAnd, Contiguous, ConsumerOk, Intact, W, Minus, Need, WouldWrap,
         PadNeeded, SlotOf, ConsumerWakes, ProducerWakes, Refused;
    ReachableInv(s);
    var top := Top(s.g);
    SlotOfCount(top, s.r);
    if s.p.pc.PGranted? {
      NeedExactIff(top, Size(s.p.pc.msg), s.r);
      WouldWrapIff(top, Size(s.p.pc.msg), s.r);
      if WouldWrap(s.p.localProdPvt, Size(s.p.pc.msg), s.r) {
        PadAtMostMessage(top, Size(s.p.pc.msg), s.r);
      }
    }
  }

  /** __nc2_contained_in_cons_ring, on offsets from the start of the consumer's payload. */
  predicate ContainedInConsRing(offset: int, size: nat, r: nat) {
    !(offset < 0 || size > r || offset + size > r)
  }

  /** The consumer's containment test accepts every message it starts to read. */
  lemma EveryMessageIsContained(s: State)
    requires Reachable(s) && s.c.pc.CReading? && |s.c.pc.acc| >= 4
    ensures s.r > 0 && ContainedInConsRing(SlotOf(s.c.localConsPvt, s.r), SizeField(s.c.pc.acc), s.r)
  {
    hide Start, Stream, Off, BitAnd, ProducerOk, Intact, W, SlotOf, ConsumerWakes, ProducerWakes;
    ReachableInv(s);
    DecodeEncode(s.g.sent[s.g.consumed], |s.c.pc.acc|);
    SlotOfCount(Start(s.g.sent, s.g.consumed), s.r);
  }

  /** Retries of the space check's loop in a run. */
  function Retries(s: State, run: seq<Action>): nat
    requires s.r > 0 && Runs(s, run)
    decreases run
  {
    if run == [] then 0
    else
      (if run[0] == RecheckCons && s.p.pc.cons != s.sh.cons then 1 else 0)
      + Retries(Step(s, run[0]), run[1..])
  }

  /** Published messages the check has not yet seen released. */
  ghost function Unseen(s: State): int {
    s.g.published - s.g.readAt - if s.p.pc.PReadCons? && s.g.released > s.g.readAt then 1 else 0
  }

  lemma StepLowersUnseen(s: State, a: Action)
    requires Inv(s) && Enabled(s, a) && !a.Send? && !a.FlushPublish?
    ensures 0 <= Unseen(Step(s, a)) <= Unseen(s)
    ensures a == RecheckCons && s.p.pc.cons != s.sh.cons ==> Unseen(Step(s, a)) < Unseen(s)
  {
    hide Start, Stream, Off, Encode, BitAnd, Contiguous, ConsumerOk, Intact, W, Minus, Need, WouldWrap,
         PadNeeded, SlotOf, ConsumerWakes, ProducerWakes, Refused, TrueNeed, PadMsg;
  }

  /** The loop of one space check goes round at most once per message that was published and
      unreleased when it began: each round needs the peer to have released something. */
  lemma {:induction false} RetriesAreBounded(s: State, run: seq<Action>)
    requires s.r > 0 && Inv(s) && Runs(s, run)
    requires forall i :: 0 <= i < |run| ==> !run[i].Send? && !run[i].FlushPublish?
    ensures Retries(s, run) <= Unseen(s)
    decreases run
  {
    hide Inv, Step, Enabled, Unseen;
    if run == [] {
      UnseenIsNatural(s);
    } else {
      StepKeeps(s, run[0]);
      StepLowersUnseen(s, run[0]);
      RetriesAreBounded(Step(s, run[0]), run[1..]);
    }
  }

  lemma UnseenIsNatural(s: State)
    requires Inv(s)
    ensures Unseen(s) >= 0
  {
    hide Start, Stream, Off, Encode, BitAnd, Contiguous, ConsumerOk, Intact, W, ConsumerWakes,
         ProducerWakes, ProducerOk;
  }

  lemma CheckTerminates(s: State, msg: Msg, run: seq<Action>)
    requires Reachable(s) && s.r > 0 && Enabled(s, Send(msg)) && Runs(Step(s, Send(msg)), run)
    requires forall i :: 0 <= i < |run| ==> !run[i].Send? && !run[i].FlushPublish?
    ensures Retries(Step(s, Send(msg)), run) <= s.g.published - s.g.released
    ensures 8 * (s.g.published - s.g.released) <= Minus(s.sh.prod, s.sh.cons)
  {
    hide Start, Stream, Off, Encode, BitAnd, Contiguous, ConsumerOk, ProducerOk, Intact, W, ConsumerWakes,
         ProducerWakes, Need;
    ReachableInv(s);
    StepKeeps(s, Send(msg));
    RetriesAreBounded(Step(s, Send(msg)), run);
    EightBytesEach(s.g.sent, s.g.released, s.g.published);
    InWindow(s.g, s.r, s.g.released, s.g.published);
    MinusOfCounts(Start(s.g.sent, s.g.published), Start(s.g.sent, s.g.released));
  }

  lemma {:induction false} EightBytesEach(sent: seq<Msg>, j: nat, k: nat)
    requires AllWellSized(sent) && j <= k <= |sent|
    ensures Start(sent, j) + 8 * (k - j) <= Start(sent, k)
  {
    if j == k {
    } else {
      EightBytesEach(sent, j, k - 1);
      assert WellSized(sent[k - 1]);
    }
  }
}
