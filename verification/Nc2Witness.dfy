/** A run in which both sides of a netchannel2 ring are stuck although the producer has flushed:
    the consumer went to sleep without finishing what it had read. */
module Nc2Witness {
  import opened Word32
  import opened EventIndex
  import opened Nc2Arith
  import opened Nc2Messages
  import opened Nc2Machine
  import opened Nc2Invariant
  import opened Nc2Results
  import opened Nc2Wakeups
  import opened Nc2Progress

  lemma ReachableStep(s: State, a: Action)
    requires Reachable(s) && Enabled(s, a) && s.r > 0
    ensures Reachable(Step(s, a))
  {
    hide Step, Enabled, Init, Reachable;
    assert Runs(Step(s, a), []);
    assert [a][1..] == [];
    assert Runs(s, [a]) && Exec(s, [a]) == Step(s, a);
    ReachableOn(s, Step(s, a));
  }

  lemma ReachableOn(s: State, t: State)
    requires Reachable(s) && Leads(s, t)
    ensures Reachable(t)
  {
    hide Step, Enabled, Init;
    var s0: State, run: seq<Action> :| Init(s0) && s0.r > 0 && Runs(s0, run) && Exec(s0, run) == s;
    var more: seq<Action> :| Runs(s, more) && Exec(s, more) == t;
    RunsJoin(s0, run, more);
    assert Exec(s0, run + more) == t;
  }

  const EIGHT: Msg := Msg(1, 0, [0, 0, 0, 0])

  lemma Start0() returns (s: State)
    ensures Reachable(s) && Init(s) && s.r == 16 && s.p.available == 0
  {
    assert Pow2(4) == 16;
    s := State(16, Shared(0, 0, 0, 0, seq(16, i => 0)), Producer(0, 0, 0, PIdle),
               Consumer(0, 0, 0, CIdle, []), Ghost([], 0, 0, 0, 0, 0, Awake, Alert, false, false));
    assert Runs(s, []) && Exec(s, []) == s;
  }

  /** One message of eight bytes is written into a ring of sixteen. */
  lemma SendOne() returns (s: State)
    ensures Reachable(s) && s.r == 16 && s.p == Producer(0, 8, 8, PIdle)
    ensures s.c == Consumer(0, 0, 0, CIdle, []) && s.sh.prod == 0 && s.sh.cons == 0
    ensures s.g == Ghost([EIGHT], 0, 0, 0, 0, 0, Awake, Alert, false, false)
  {
    hide Reachable, SlotOf, WouldWrap, PadNeeded, Need, Encode, Leads, ProducerMeanwhile;
    s := Start0();
    NeedExactIff(0, 8, 16);
    WouldWrapIff(0, 8, 16);
    ReachableStep(s, Send(EIGHT));
    s := Step(s, Send(EIGHT));
    ReachableStep(s, ReadCons);
    s := Step(s, ReadCons);
    ReachableStep(s, AvoidWrap);
    s := Step(s, AvoidWrap);
    var written := WriteAll(s);
    MeanwhileLeads(s, written);
    ReachableOn(s, written);
    s := written;
    ReachableStep(s, Commit);
    s := Step(s, Commit);
  }

  /** A second one is refused, and the first is flushed. */
  lemma RefuseSecond() returns (s: State)
    ensures Reachable(s) && s.r == 16 && s.p == Producer(8, 8, 8, PIdle)
    ensures s.c == Consumer(0, 0, 0, CIdle, []) && s.sh.prod == 8 && s.sh.cons == 0
    ensures s.g == Ghost([EIGHT], 0, 0, 0, 1, 0, Waiting(EIGHT, 0), Alert, false, s.g.consumerNotified)
  {
    hide Reachable, SlotOf, WouldWrap, PadNeeded, Need, Encode, Crosses;
    s := SendOne();
    assert Pow2(4) == 16;
    NeedExactIff(8, 8, 16);
    ReachableStep(s, Send(EIGHT));
    s := Step(s, Send(EIGHT));
    ReachableStep(s, ReadCons);
    s := Step(s, ReadCons);
    ReachableStep(s, WriteConsEvent);
    s := Step(s, WriteConsEvent);
    ReachableStep(s, RecheckCons);
    s := Step(s, RecheckCons);
    ReachableStep(s, FlushPublish);
    s := Step(s, FlushPublish);
    ReachableStep(s, FlushReadEvent);
    s := Step(s, FlushReadEvent);
  }

  /** The condition of BothStuckOnceFlushedIff can be met: here everything is flushed,
      the message is half the ring, and neither side will ever be notified. */
  lemma BothStuckThoughFlushed() returns (s: State)
    ensures Reachable(s) && ProducerStuck(s) && ConsumerStuck(s) && 2 * Size(s.g.wait.msg) <= s.r
    ensures s.p.localProd == s.p.localProdPvt && s.c.localCons != s.c.localConsPvt
  {
    hide Reachable, SlotOf, WouldWrap, PadNeeded, Need, Encode, Crosses, Inv, Leads, ConsumerMeanwhile;
    s := RefuseSecond();
    ReachableStep(s, FetchProd);
    s := Step(s, FetchProd);
    ReachableStep(s, StartRead);
    s := Step(s, StartRead);
    ReachableInv(s);
    var read := ReadAll(s);
    MeanwhileLeads(s, read);
    ReachableOn(s, read);
    s := read;
    DecodeEncode(EIGHT, 8);
    assert Encode(EIGHT)[..8] == Encode(EIGHT);
    ReachableStep(s, Advance);
    s := Step(s, Advance);
    ReachableStep(s, FinalReadProd);
    s := Step(s, FinalReadProd);
    ReachableStep(s, WriteProdEvent);
    s := Step(s, WriteProdEvent);
    ReachableStep(s, FinalRecheck);
    s := Step(s, FinalRecheck);
  }
}
