/** What is sent arrives: runs that deliver, from any reachable state of a netchannel2 ring
    (inc/vring.h:188-415). */
module Nc2Progress {
  import opened Memory
  import opened Word32
  import opened EventIndex
  import opened Nc2Arith
  import opened Nc2Messages
  import opened Nc2Machine
  import opened Nc2Invariant
  import opened Nc2Results

  lemma ConsumerStays(s: State)
    requires s.r > 0
    ensures ConsumerMeanwhile(s, s)
  {
    assert Runs(s, []) && Exec(s, []) == s;
  }

  lemma ProducerStays(s: State)
    requires s.r > 0
    ensures ProducerMeanwhile(s, s)
  {
    assert Runs(s, []) && Exec(s, []) == s;
  }

  lemma ConsumerGoes(s: State, a: Action, t: State)
    requires s.r > 0 && Enabled(s, a) && !OfProducer(a) && ConsumerMeanwhile(Step(s, a), t)
    ensures ConsumerMeanwhile(s, t)
  {
    hide Step, Enabled;
    var run: seq<Action> :|
      (forall i :: 0 <= i < |run| ==> !OfProducer(run[i])) && Runs(Step(s, a), run) && Exec(Step(s, a), run) == t;
    assert ([a] + run)[1..] == run;
    assert Runs(s, [a] + run) && Exec(s, [a] + run) == t;
  }

  lemma ProducerGoes(s: State, a: Action, t: State)
    requires s.r > 0 && Enabled(s, a) && OfProducer(a) && ProducerMeanwhile(Step(s, a), t)
    ensures ProducerMeanwhile(s, t)
  {
    hide Step, Enabled;
    var run: seq<Action> :|
      (forall i :: 0 <= i < |run| ==> OfProducer(run[i])) && Runs(Step(s, a), run) && Exec(Step(s, a), run) == t;
    assert ([a] + run)[1..] == run;
    assert Runs(s, [a] + run) && Exec(s, [a] + run) == t;
  }

  // ----- reading -----

  /** Reading a message to its end. */
  lemma {:induction false} ReadAll(s: State) returns (t: State)
    requires Inv(s) && s.c.pc.CReading?
    ensures s.g.consumed < s.g.fetched <= |s.g.sent| && WellSized(s.g.sent[s.g.consumed])
    ensures ConsumerMeanwhile(s, t)
    ensures t == s.(c := s.c.(pc := CReading(Encode(s.g.sent[s.g.consumed]))))
    decreases if Inv(s) && s.g.consumed < |s.g.sent| then Size(s.g.sent[s.g.consumed]) - |s.c.pc.acc| else 0
  {
    hide Stream, BitAnd, Contiguous, Intact, Off, ProducerOk, ConsumerWakes, ProducerWakes, ConsumerMeanwhile,
         ClientView, Words, Cached, SlotOf, W, Encode;
    var acc, m := s.c.pc.acc, s.g.sent[s.g.consumed];
    if |acc| == Size(m) {
      t := s;
      ConsumerStays(s);
    } else {
      if |acc| >= 4 { DecodeEncode(m, |acc|); }
      StepKeeps(s, ReadByte);
      t := ReadAll(Step(s, ReadByte));
      ConsumerGoes(s, ReadByte, t);
    }
  }

  /** What reading leaves alone. */
  ghost predicate OnlyConsumed(s: State, t: State) {
    t.r == s.r && t.sh == s.sh && t.p == s.p && t.g.sent == s.g.sent && t.g.published == s.g.published
  }

  lemma ConsumerJoins(s: State, t: State, u: State)
    requires ConsumerMeanwhile(s, t) && ConsumerMeanwhile(t, u)
    ensures ConsumerMeanwhile(s, u)
  {
    hide Step, Enabled;
    var a: seq<Action> :| (forall i :: 0 <= i < |a| ==> !OfProducer(a[i])) && Runs(s, a) && Exec(s, a) == t;
    var b: seq<Action> :| (forall i :: 0 <= i < |b| ==> !OfProducer(b[i])) && Runs(t, b) && Exec(t, b) == u;
    RunsJoin(s, a, b);
    assert Exec(s, a + b) == u;
  }

  lemma {:induction false} RunsJoin(s: State, a: seq<Action>, b: seq<Action>)
    requires s.r > 0 && Runs(s, a) && Runs(Exec(s, a), b)
    ensures Runs(s, a + b) && Exec(s, a + b) == Exec(Exec(s, a), b)
    decreases a
  {
    hide Step, Enabled;
    if a == [] {
      assert a + b == b;
    } else {
      assert (a + b)[1..] == a[1..] + b;
      RunsJoin(Step(s, a[0]), a[1..], b);
    }
  }

  /** One message read, from the fetched ones. */
  lemma ReadOne(s: State) returns (t: State)
    requires Inv(s) && s.c.pc.CIdle? && s.g.consumed < s.g.fetched
    ensures ConsumerMeanwhile(s, t) && OnlyConsumed(s, t) && Inv(t) && t.c.pc.CIdle?
    ensures t.c.prodSeen == s.c.prodSeen && t.g.fetched == s.g.fetched && t.g.consumed == s.g.consumed + 1
  {
    hide Inv, ConsumerMeanwhile, Encode, Plus, Decode, SlotOf;
    Unread(s);
    StepKeeps(s, StartRead);
    var s1 := Step(s, StartRead);
    var s2 := ReadAll(s1);
    var m := s.g.sent[s.g.consumed];
    DecodeEncode(m, Size(m));
    assert Encode(m)[..Size(m)] == Encode(m);
    ConsumerRunKeeps(s1, s2);
    StepKeeps(s2, Advance);
    t := Step(s2, Advance);
    ConsumerStays(t);
    ConsumerGoes(s2, Advance, t);
    ConsumerJoins(s1, s2, t);
    ConsumerGoes(s, StartRead, t);
  }

  lemma ConsumerRunKeeps(s: State, t: State)
    requires Inv(s) && ConsumerMeanwhile(s, t)
    ensures Inv(t)
  {
    hide Inv, Step, Enabled;
    var run: seq<Action> :| (forall i :: 0 <= i < |run| ==> !OfProducer(run[i])) && Runs(s, run) && Exec(s, run) == t;
    RunKeeps(s, run);
  }

  lemma Unread(s: State)
    requires Inv(s) && s.c.pc.CIdle?
    ensures s.r > 0 && s.g.consumed <= s.g.fetched <= |s.g.sent|
    ensures Enabled(s, StartRead) <==> s.g.consumed < s.g.fetched
    ensures s.g.consumed == s.g.fetched ==> s.c.localConsPvt == s.c.prodSeen
    ensures s.c.delivered == ClientView(s.g.sent[..s.g.consumed])
  {
    hide Start, Stream, Contiguous, Intact, ProducerOk, ConsumerWakes, ProducerWakes, W, ClientView;
    InWindow(s.g, s.r, s.g.consumed, s.g.fetched);
    BoundariesEqual(s.g, s.r, s.g.consumed, s.g.fetched);
  }

  lemma {:induction false} ReadFetched(s: State) returns (t: State)
    requires Inv(s) && s.c.pc.CIdle?
    ensures ConsumerMeanwhile(s, t) && OnlyConsumed(s, t) && Inv(t) && t.c.pc.CIdle?
    ensures t.c.localConsPvt == s.c.prodSeen && s.g.fetched <= |s.g.sent|
    ensures t.c.delivered == ClientView(s.g.sent[..s.g.fetched])
    decreases s.g.fetched - s.g.consumed
  {
    hide Inv, ConsumerMeanwhile, Enabled;
    Unread(s);
    if s.g.consumed == s.g.fetched {
      t := s;
      ConsumerStays(s);
    } else {
      var s1 := ReadOne(s);
      t := ReadFetched(s1);
      ConsumerJoins(s, s1, t);
    }
  }

  /** An idle consumer can read, by itself, every message published: it then stands at the shared
      index, and all that is not padding has been delivered. */
  lemma ConsumerCatchesUp(s: State) returns (t: State)
    requires Inv(s) && s.c.pc.CIdle?
    ensures ConsumerMeanwhile(s, t) && OnlyConsumed(s, t) && Inv(t) && t.c.pc.CIdle?
    ensures t.c.localConsPvt == s.sh.prod && s.g.published <= |s.g.sent|
    ensures t.c.delivered == ClientView(s.g.sent[..s.g.published])
  {
    hide Inv, ConsumerMeanwhile;
    Unread(s);
    StepKeeps(s, FetchProd);
    t := ReadFetched(Step(s, FetchProd));
    ConsumerGoes(s, FetchProd, t);
  }

  // ----- writing -----

  lemma ProducerJoins(s: State, t: State, u: State)
    requires ProducerMeanwhile(s, t) && ProducerMeanwhile(t, u)
    ensures ProducerMeanwhile(s, u)
  {
    hide Step, Enabled;
    var a: seq<Action> :| (forall i :: 0 <= i < |a| ==> OfProducer(a[i])) && Runs(s, a) && Exec(s, a) == t;
    var b: seq<Action> :| (forall i :: 0 <= i < |b| ==> OfProducer(b[i])) && Runs(t, b) && Exec(t, b) == u;
    RunsJoin(s, a, b);
    assert Exec(s, a + b) == u;
  }

  /** From the grant to the end of the message: only the ring's bytes change. */
  lemma {:induction false} WriteAll(s: State) returns (t: State)
    requires s.r > 0 && s.p.pc.PWriting? && s.p.pc.done <= Size(s.p.pc.msg) < 0x1_0000
    ensures ProducerMeanwhile(s, t)
    ensures t == s.(sh := s.sh.(mem := t.sh.mem), p := s.p.(pc := PWriting(s.p.pc.msg, Size(s.p.pc.msg))))
    decreases Size(s.p.pc.msg) - s.p.pc.done
  {
    hide Encode, Put, SlotOf, ProducerMeanwhile;
    if s.p.pc.done == Size(s.p.pc.msg) {
      t := s;
      ProducerStays(s);
    } else {
      t := WriteAll(Step(s, WriteByte));
      ProducerGoes(s, WriteByte, t);
    }
  }

  /** The header of a pad likewise. */
  lemma {:induction false} PadAll(s: State) returns (t: State)
    requires s.r > 0 && s.p.pc.PPadding? && s.p.pc.done <= 4
    ensures ProducerMeanwhile(s, t)
    ensures t == s.(sh := s.sh.(mem := t.sh.mem), p := s.p.(pc := PPadding(s.p.pc.msg, 4)))
    decreases 4 - s.p.pc.done
  {
    hide PadHeaderByte, Put, SlotOf, PadNeeded, ProducerMeanwhile;
    if s.p.pc.done == 4 {
      t := s;
      ProducerStays(s);
    } else {
      t := PadAll(Step(s, PadByte));
      ProducerGoes(s, PadByte, t);
    }
  }

  /** What sending leaves alone, and the message it adds for the client. */
  ghost predicate Sent(s: State, t: State, more: seq<Msg>) {
    && t.r == s.r && t.c == s.c && t.sh.cons == s.sh.cons && t.g.consumed == s.g.consumed
    && ClientView(t.g.sent) == ClientView(s.g.sent) + more
  }

  lemma ProducerRunKeeps(s: State, t: State)
    requires Inv(s) && ProducerMeanwhile(s, t)
    ensures Inv(t)
  {
    hide Inv, Step, Enabled;
    var run: seq<Action> :| (forall i :: 0 <= i < |run| ==> OfProducer(run[i])) && Runs(s, run) && Exec(s, run) == t;
    RunKeeps(s, run);
  }

  /** The space check grants. */
  lemma Granted(s: State, msg: Msg) returns (t: State)
    requires Inv(s) && s.p.pc.PIdle? && Sendable(msg) && s.r > 0
    requires Space(s.p.localProdPvt, s.sh.cons, s.r) >= Need(s.p.localProdPvt, Size(msg), s.r)
    ensures ProducerMeanwhile(s, t) && t.p.pc == PGranted(msg) && Sent(s, t, []) && t.r > 0
  {
    hide Inv, Need, Space, ClientView, ProducerMeanwhile;
    var s1 := Step(s, Send(msg));
    if s.p.available > 2 * Size(msg) {
      t := s1;
    } else {
      t := Step(s1, ReadCons);
      ProducerStays(t);
      ProducerGoes(s1, ReadCons, t);
    }
    ProducerStays(s1);
    ProducerGoes(s, Send(msg), t);
  }

  /** The pad, if one is needed. */
  lemma Placed(s: State) returns (t: State)
    requires Inv(s) && s.p.pc.PGranted?
    ensures ProducerMeanwhile(s, t) && t.p.pc == PWriting(s.p.pc.msg, 0) && Sent(s, t, []) && t.r > 0
  {
    hide Inv, ProducerMeanwhile, ClientView, WouldWrap, PadNeeded, PadMsg, SlotOf, Plus, Minus, PadHeaderByte;
    assert s.r > 0 by { RingHasBytes(s); }
    var s1 := Step(s, AvoidWrap);
    if s1.p.pc.PWriting? {
      t := s1;
      ProducerStays(t);
    } else {
      StepKeeps(s, AvoidWrap);
      var s2 := PadAll(s1);
      ProducerRunKeeps(s1, s2);
      CommitIsOnlySend(s2, PadCommit);
      t := Step(s2, PadCommit);
      ProducerStays(t);
      ProducerGoes(s2, PadCommit, t);
      ProducerJoins(s1, s2, t);
    }
    ProducerGoes(s, AvoidWrap, t);
  }

  lemma RingHasBytes(s: State)
    requires Inv(s)
    ensures s.r > 0 && AllWellSized(s.g.sent)
    ensures s.p.pc.PWriting? ==> Size(s.p.pc.msg) < 0x1_0000 && s.p.pc.done <= Size(s.p.pc.msg)
  {
    hide W, Start, Stream, Contiguous, Intact, ConsumerOk, ConsumerWakes, ProducerWakes;
  }

  /** An idle producer with space for a message and its pad can send and publish it by itself. */
  lemma ProducerSends(s: State, msg: Msg) returns (t: State)
    requires Inv(s) && s.p.pc.PIdle? && Sendable(msg) && s.r > 0
    requires Space(s.p.localProdPvt, s.sh.cons, s.r) >= Need(s.p.localProdPvt, Size(msg), s.r)
    ensures ProducerMeanwhile(s, t) && Inv(t) && t.p.pc.PIdle? && Sent(s, t, [msg])
    ensures t.sh.prod == t.p.localProdPvt && t.g.published == |t.g.sent|
  {
    hide Inv, ProducerMeanwhile, ClientView, Need, Space, Crosses, Plus, Encode;
    var s1 := Granted(s, msg);
    ProducerRunKeeps(s, s1);
    var s2 := Placed(s1);
    ProducerRunKeeps(s1, s2);
    RingHasBytes(s2);
    var s3 := WriteAll(s2);
    ProducerRunKeeps(s2, s3);
    CommitIsOnlySend(s3, Commit);
    StepKeeps(s3, Commit);
    var s4 := Step(s3, Commit);
    StepKeeps(s4, FlushPublish);
    var s5 := Step(s4, FlushPublish);
    StepKeeps(s5, FlushReadEvent);
    t := Step(s5, FlushReadEvent);
    ProducerStays(t);
    ProducerGoes(s5, FlushReadEvent, t);
    ProducerGoes(s4, FlushPublish, t);
    ProducerGoes(s3, Commit, t);
    ProducerJoins(s2, s3, t);
    ProducerJoins(s1, s2, t);
    ProducerJoins(s, s1, t);
  }

  // ----- refusal and sleep -----

  lemma ThreeSteps(s: State, a: Action, b: Action, c: Action)
    requires s.r > 0 && Enabled(s, a) && Enabled(Step(s, a), b) && Enabled(Step(Step(s, a), b), c)
    ensures Runs(s, [a, b, c]) && Exec(s, [a, b, c]) == Step(Step(Step(s, a), b), c)
  {
    hide Step, Enabled;
    var s1, s2, s3 := Step(s, a), Step(Step(s, a), b), Step(Step(Step(s, a), b), c);
    assert [a, b, c][1..] == [b, c] && [b, c][1..] == [c] && [c][1..] == [];
    assert Runs(s3, []) && Exec(s3, []) == s3;
    assert Runs(s2, [c]) && Exec(s2, [c]) == s3;
    assert Runs(s1, [b, c]) && Exec(s1, [b, c]) == s3;
  }

  /** A space check by a producer alone is refused exactly if neither the cache nor the space left
      covers it; it then waits, having asked for the very next release. */
  lemma RefusedIff(s: State, msg: Msg)
    requires s.r > 0 && s.p.pc.PIdle? && Sendable(msg)
    ensures var need := Need(s.p.localProdPvt, Size(msg), s.r);
            var s1 := Step(s, Send(msg));
            if s.p.available > 2 * Size(msg) then s1.p == s.p.(pc := PGranted(msg)) && s1.sh == s.sh
            else if Space(s.p.localProdPvt, s.sh.cons, s.r) >= need then
              s1.p.pc.PReadCons?
              && var t := Step(s1, ReadCons);
                 t.p == s.p.(available := Space(s.p.localProdPvt, s.sh.cons, s.r), pc := PGranted(msg)) && t.sh == s.sh
            else
              && Runs(s1, [ReadCons, WriteConsEvent, RecheckCons])
              && var t := Exec(s1, [ReadCons, WriteConsEvent, RecheckCons]);
                 && t.p == s.p && t.sh == s.sh.(consEvent := Plus(s.sh.cons, 1))
                 && t.g.wait == Waiting(msg, s.g.released) && !t.g.producerNotified
  {
    hide Need, Space, Plus, Runs, Exec;
    var s1 := Step(s, Send(msg));
    if s.p.available <= 2 * Size(msg)
       && Space(s.p.localProdPvt, s.sh.cons, s.r) < Need(s.p.localProdPvt, Size(msg), s.r) {
      ThreeSteps(s1, ReadCons, WriteConsEvent, RecheckCons);
    }
  }

  /** A final check by a consumer alone that has read what it fetched: with more published it is
      back at once, awake; with nothing it ends asleep, having asked for the very next flush. */
  lemma SleepsIff(s: State)
    requires s.r > 0 && s.c.pc.CIdle? && s.c.localConsPvt == s.c.prodSeen
    ensures s.c.localConsPvt != s.sh.prod ==>
              var t := Step(s, FinalReadProd); t.c == s.c && t.sh == s.sh && t.g.sleep.Alert?
    ensures s.c.localConsPvt == s.sh.prod ==>
              && Runs(s, [FinalReadProd, WriteProdEvent, FinalRecheck])
              && var t := Exec(s, [FinalReadProd, WriteProdEvent, FinalRecheck]);
                 && t.c == s.c && t.sh == s.sh.(prodEvent := Plus(s.sh.prod, 1))
                 && t.g.sleep == Asleep(s.g.consumed) && !t.g.consumerNotified
  {
    hide Step, Enabled, Plus, Runs, Exec;
    FinalRead(s);
    if s.c.localConsPvt == s.sh.prod {
      var s1 := Step(s, FinalReadProd);
      EventWritten(s1);
      FinalReadAgain(Step(s1, WriteProdEvent));
      ThreeSteps(s, FinalReadProd, WriteProdEvent, FinalRecheck);
    }
  }

  lemma FinalRead(s: State)
    requires s.r > 0 && s.c.pc.CIdle? && s.c.localConsPvt == s.c.prodSeen
    ensures Enabled(s, FinalReadProd)
    ensures Step(s, FinalReadProd)
            == s.(c := if s.c.localConsPvt == s.sh.prod then s.c.(pc := CArm(s.sh.prod)) else s.c,
                  g := s.g.(sleep := Alert))
  {}

  lemma EventWritten(s: State)
    requires s.r > 0 && s.c.pc.CArm?
    ensures Enabled(s, WriteProdEvent)
    ensures Step(s, WriteProdEvent)
            == s.(sh := s.sh.(prodEvent := Plus(s.c.pc.prod, 1)), c := s.c.(pc := CRecheck(s.c.pc.prod)))
  {}

  lemma FinalReadAgain(s: State)
    requires s.r > 0 && s.c.pc.CRecheck? && s.c.pc.prod == s.sh.prod
    ensures Enabled(s, FinalRecheck)
    ensures Step(s, FinalRecheck)
            == s.(c := s.c.(pc := CIdle), g := s.g.(sleep := Asleep(s.g.consumed), consumerNotified := false))
  {}

  // ----- from one end to the other -----

  ghost predicate Leads(s: State, t: State) {
    s.r > 0 && exists run: seq<Action> :: Runs(s, run) && Exec(s, run) == t
  }

  lemma MeanwhileLeads(s: State, t: State)
    ensures ConsumerMeanwhile(s, t) || ProducerMeanwhile(s, t) ==> Leads(s, t)
  {
    hide Step, Enabled;
  }

  lemma LeadsOn(s: State, t: State, u: State)
    requires Leads(s, t) && Leads(t, u)
    ensures Leads(s, u)
  {
    hide Step, Enabled;
    var a: seq<Action> :| Runs(s, a) && Exec(s, a) == t;
    var b: seq<Action> :| Runs(t, b) && Exec(t, b) == u;
    RunsJoin(s, a, b);
    assert Exec(s, a + b) == u;
  }

  /** A flush, and a finish. */
  lemma Flushed(s: State) returns (t: State)
    requires Inv(s) && s.p.pc.PIdle?
    ensures ProducerMeanwhile(s, t) && Inv(t) && t.p.pc.PIdle? && t.c == s.c && t.g.sent == s.g.sent
    ensures t.g.published == |t.g.sent| && t.r == s.r
  {
    hide Inv, ProducerMeanwhile, Crosses;
    RingHasBytes(s);
    StepKeeps(s, FlushPublish);
    var s1 := Step(s, FlushPublish);
    StepKeeps(s1, FlushReadEvent);
    t := Step(s1, FlushReadEvent);
    ProducerStays(t);
    ProducerGoes(s1, FlushReadEvent, t);
    ProducerGoes(s, FlushPublish, t);
  }

  lemma Finished(s: State) returns (t: State)
    requires Inv(s) && s.c.pc.CIdle?
    ensures ConsumerMeanwhile(s, t) && Inv(t) && t.c.pc.CIdle? && t.p == s.p && t.g.sent == s.g.sent
    ensures t.sh.cons == s.c.localConsPvt && t.g.published == s.g.published && t.r == s.r
  {
    hide Inv, ConsumerMeanwhile, Crosses;
    RingHasBytes(s);
    StepKeeps(s, FinishPublish);
    var s1 := Step(s, FinishPublish);
    StepKeeps(s1, FinishReadEvent);
    t := Step(s1, FinishReadEvent);
    ConsumerStays(t);
    ConsumerGoes(s1, FinishReadEvent, t);
    ConsumerGoes(s, FinishPublish, t);
  }

  lemma AllPublished(s: State)
    requires Inv(s) && s.g.published == |s.g.sent|
    ensures s.sh.prod == s.p.localProdPvt && s.g.sent[..s.g.published] == s.g.sent && RingBytes(s.r)
    ensures W(s.p.localProdPvt) == s.p.localProdPvt
  {
    hide Start, Stream, Contiguous, Intact, ConsumerOk, ProducerOk, ConsumerWakes, ProducerWakes, IsPow2;
  }

  /** From every state in which neither side is in the middle of a call, and for every message of at
      most half the ring, some run delivers all that was sent so far and then the message. */
  lemma MessageArrives(s: State, msg: Msg) returns (t: State)
    requires Inv(s) && s.p.pc.PIdle? && s.c.pc.CIdle? && Sendable(msg) && 2 * Size(msg) <= s.r
    ensures Leads(s, t) && Inv(t) && t.p.pc.PIdle? && t.c.pc.CIdle?
    ensures t.c.delivered == ClientView(s.g.sent) + [msg] && t.c.localConsPvt == t.p.localProdPvt
  {
    hide Inv, ConsumerMeanwhile, ProducerMeanwhile, Leads, ClientView, Space, Need, RingBytes, W;
    var s1 := Flushed(s);
    AllPublished(s1);
    var s2 := ConsumerCatchesUp(s1);
    var s3 := Finished(s2);
    AllPublished(s3);
    HalfFits(s3.p.localProdPvt, Size(msg), s3.r);
    var s4 := ProducerSends(s3, msg);
    AllPublished(s4);
    t := ConsumerCatchesUp(s4);
    MeanwhileLeads(s, s1);
    MeanwhileLeads(s1, s2);
    MeanwhileLeads(s2, s3);
    MeanwhileLeads(s3, s4);
    MeanwhileLeads(s4, t);
    LeadsOn(s3, s4, t);
    LeadsOn(s2, s3, t);
    LeadsOn(s1, s2, t);
    LeadsOn(s, s1, t);
  }

  lemma HalfFits(p: Word, n: nat, r: Word)
    requires RingBytes(r) && n < 0x8000 && 2 * n <= r && W(p) == p
    ensures Space(p, p, r) >= Need(p, n, r)
  {
    hide Space, Need, IsPow2;
    EmptyRingGrantsIff(p, n, r);
  }
}
