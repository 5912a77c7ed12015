/** One direction of a netchannel2 ring pair as a two-party state machine.

    Every read or write of shared memory is one step; the two parties interleave freely.
    The program state holds only 32-bit words. `Ghost` records, for the proofs, which messages
    were sent and how far each index has got, counted in messages; no step looks at it. */
module Nc2Machine {
  import opened Memory
  import opened Word32
  import opened EventIndex
  import opened Nc2Arith
  import opened Nc2Messages

  /** The shared words of one direction and the ring's bytes. */
  datatype Shared = Shared(prod: Word, prodEvent: Word, cons: Word, consEvent: Word, mem: seq<Byte>)

  datatype ProducerPc =
    | PIdle
    | PReadCons(msg: Msg, need: nat)               // top of the retry loop of the space check
    | PArm(msg: Msg, need: nat, cons: Word)        // too little space: about to ask for an event
    | PRecheck(msg: Msg, need: nat, cons: Word)    // about to read the consumer index again
    | PGranted(msg: Msg)                           // the space check returned 1
    | PPadding(msg: Msg, done: nat)                // writing the header of a pad
    | PWriting(msg: Msg, done: nat)                // the pad, if any, is in place
    | PFlushCheck(before: Word, after: Word)       // published; about to read the event index

  datatype Producer = Producer(localProd: Word, localProdPvt: Word, available: Word, pc: ProducerPc)

  datatype ConsumerPc =
    | CIdle
    | CReading(acc: seq<Byte>)
    | CFinishCheck(before: Word, after: Word)
    | CArm(prod: Word)
    | CRecheck(prod: Word)

  datatype Consumer = Consumer(localCons: Word, localConsPvt: Word, prodSeen: Word,
                               pc: ConsumerPc, delivered: seq<Msg>)

  /** A space check that returned 0: for which message, and the released messages it saw. */
  datatype Wait = Awake | Waiting(msg: Msg, seen: nat)

  /** A final check that returned 0, and the messages consumed when it did. */
  datatype Sleep = Alert | Asleep(seen: nat)

  /** sent: every message, pads included.  released <= consumed <= fetched <= published count
      messages; readAt is `released` when the space check began or last read the consumer index. */
  datatype Ghost = Ghost(sent: seq<Msg>, released: nat, consumed: nat, fetched: nat, published: nat,
                         readAt: nat, wait: Wait, sleep: Sleep,
                         producerNotified: bool, consumerNotified: bool)

  datatype State = State(r: Word, sh: Shared, p: Producer, c: Consumer, g: Ghost)

  datatype Action =
    | Send(msg: Msg) | ReadCons | WriteConsEvent | RecheckCons | AvoidWrap | PadByte | PadCommit
    | WriteByte | Commit
    | FlushPublish | FlushReadEvent
    | FetchProd | StartRead | ReadByte | Advance | FinishPublish | FinishReadEvent
    | FinalReadProd | WriteProdEvent | FinalRecheck

  ghost predicate Shape(s: State) {
    RingBytes(s.r) && |s.sh.mem| == s.r
  }

  /** A message the client may send: well sized, and not one of the ring's own pads. */
  predicate Sendable(m: Msg) {
    WellSized(m) && m.kind != PAD
  }

  predicate Enabled(s: State, a: Action) {
    match a
    case Send(msg) => s.p.pc.PIdle? && Sendable(msg)
    case ReadCons => s.p.pc.PReadCons?
    case WriteConsEvent => s.p.pc.PArm?
    case RecheckCons => s.p.pc.PRecheck?
    case AvoidWrap => s.p.pc.PGranted?
    case PadByte => s.p.pc.PPadding? && s.p.pc.done < 4
    case PadCommit => s.p.pc.PPadding? && s.p.pc.done == 4
    case WriteByte => s.p.pc.PWriting? && s.p.pc.done < Size(s.p.pc.msg) < 0x1_0000
    case Commit => s.p.pc.PWriting? && s.p.pc.done == Size(s.p.pc.msg)
    case FlushPublish => s.p.pc.PIdle?
    case FlushReadEvent => s.p.pc.PFlushCheck?
    case FetchProd => s.c.pc.CIdle?
    case StartRead => s.c.pc.CIdle? && s.c.localConsPvt != s.c.prodSeen
    case ReadByte =>
      s.c.pc.CReading? && (|s.c.pc.acc| < 4 || |s.c.pc.acc| < SizeField(s.c.pc.acc))
    case Advance =>
      s.c.pc.CReading? && |s.c.pc.acc| >= 4 && |s.c.pc.acc| >= SizeField(s.c.pc.acc)
    case FinishPublish => s.c.pc.CIdle?
    case FinishReadEvent => s.c.pc.CFinishCheck?
    case FinalReadProd => s.c.pc.CIdle? && s.c.localConsPvt == s.c.prodSeen
    case WriteProdEvent => s.c.pc.CArm?
    case FinalRecheck => s.c.pc.CRecheck?
  }

  /** The bytes of a pad's header: type, flags, size. */
  function PadHeaderByte(n: nat, k: nat): Byte {
    if k == 0 then PAD else if k == 1 then 0 else if k == 2 then n % 256 else n / 256 % 256
  }

  /** __nc2_send_pad writes three header fields; the rest of the pad keeps the bytes lying there. */
  function PadMsg(mem: seq<Byte>, slot: nat, n: nat): Msg {
    Msg(PAD, 0, if 4 <= n && slot + n <= |mem| then mem[slot + 4..slot + n] else [])
  }

  function Step(s: State, a: Action): (s': State)
    requires s.r > 0 && Enabled(s, a)
    ensures s'.r == s.r
  {
    match a
    case Send(msg) => StepSend(s, msg)
    case ReadCons => StepReadCons(s)
    case WriteConsEvent =>
      s.(sh := s.sh.(consEvent := Plus(s.p.pc.cons, 1)),
         p := s.p.(pc := PRecheck(s.p.pc.msg, s.p.pc.need, s.p.pc.cons)))
    case RecheckCons => StepRecheckCons(s)
    case AvoidWrap => StepAvoidWrap(s)
    case PadByte => StepPadByte(s)
    case PadCommit => StepPadCommit(s)
    case WriteByte => StepWriteByte(s)
    case Commit => StepCommit(s)
    case FlushPublish =>
      s.(sh := s.sh.(prod := s.p.localProdPvt),
         p := s.p.(localProd := s.p.localProdPvt, pc := PFlushCheck(s.p.localProd, s.p.localProdPvt)),
         g := s.g.(published := |s.g.sent|))
    case FlushReadEvent =>
      var notify := Crosses(s.p.pc.before, s.p.pc.after, s.sh.prodEvent);
      s.(p := s.p.(pc := PIdle), g := s.g.(consumerNotified := s.g.consumerNotified || notify))
    case FetchProd =>
      s.(c := s.c.(prodSeen := s.sh.prod), g := s.g.(fetched := s.g.published, sleep := Alert))
    case StartRead =>
      s.(c := s.c.(pc := CReading([])), g := s.g.(sleep := Alert))
    case ReadByte => StepReadByte(s)
    case Advance => StepAdvance(s)
    case FinishPublish =>
      s.(sh := s.sh.(cons := s.c.localConsPvt),
         c := s.c.(localCons := s.c.localConsPvt, pc := CFinishCheck(s.c.localCons, s.c.localConsPvt)),
         g := s.g.(released := s.g.consumed))
    case FinishReadEvent =>
      var notify := Crosses(s.c.pc.before, s.c.pc.after, s.sh.consEvent);
      s.(c := s.c.(pc := CIdle), g := s.g.(producerNotified := s.g.producerNotified || notify))
    case FinalReadProd =>
      if s.c.localConsPvt != s.sh.prod then s.(g := s.g.(sleep := Alert))
      else s.(c := s.c.(pc := CArm(s.c.localConsPvt)), g := s.g.(sleep := Alert))
    case WriteProdEvent =>
      s.(sh := s.sh.(prodEvent := Plus(s.c.pc.prod, 1)), c := s.c.(pc := CRecheck(s.c.pc.prod)))
    case FinalRecheck =>
      if s.c.pc.prod != s.sh.prod then s.(c := s.c.(pc := CIdle))
      else s.(c := s.c.(pc := CIdle), g := s.g.(sleep := Asleep(s.g.consumed), consumerNotified := false))
  }

  /** The part of nc2_can_send_payload_bytes before its first shared read. */
  function StepSend(s: State, msg: Msg): State
    requires s.r > 0
  {
    if s.p.available > 2 * Size(msg) then
      s.(p := s.p.(pc := PGranted(msg)), g := s.g.(wait := Awake, readAt := s.g.released))
    else
      s.(p := s.p.(pc := PReadCons(msg, Need(s.p.localProdPvt, Size(msg), s.r))),
         g := s.g.(wait := Awake, readAt := s.g.released))
  }

  function StepReadCons(s: State): State
    requires s.r > 0 && s.p.pc.PReadCons?
  {
    var cons := s.sh.cons;
    var space := Space(s.p.localProdPvt, cons, s.r);
    var g' := s.g.(readAt := s.g.released);
    if space >= s.p.pc.need then
      s.(p := s.p.(available := space, pc := PGranted(s.p.pc.msg)), g := g')
    else
      s.(p := s.p.(pc := PArm(s.p.pc.msg, s.p.pc.need, cons)), g := g')
  }

  function StepRecheckCons(s: State): State
    requires s.p.pc.PRecheck?
  {
    if s.p.pc.cons != s.sh.cons then
      s.(p := s.p.(pc := PReadCons(s.p.pc.msg, s.p.pc.need)))
    else
      s.(p := s.p.(pc := PIdle),
         g := s.g.(wait := Waiting(s.p.pc.msg, s.g.readAt), producerNotified := false))
  }

  /** __nc2_avoid_ring_wrap, before the client writes its message. */
  function StepAvoidWrap(s: State): State
    requires s.r > 0 && s.p.pc.PGranted?
  {
    var msg := s.p.pc.msg;
    s.(p := s.p.(pc := if WouldWrap(s.p.localProdPvt, Size(msg), s.r) then PPadding(msg, 0) else PWriting(msg, 0)))
  }

  function StepPadByte(s: State): State
    requires s.r > 0 && s.p.pc.PPadding?
  {
    var msg, k := s.p.pc.msg, s.p.pc.done;
    var b := PadHeaderByte(PadNeeded(s.p.localProdPvt, s.r), k);
    s.(sh := s.sh.(mem := Put<Byte>(s.sh.mem, SlotOf(s.p.localProdPvt, s.r) + k, b)),
       p := s.p.(pc := PPadding(msg, k + 1)))
  }

  function StepPadCommit(s: State): State
    requires s.r > 0 && s.p.pc.PPadding?
  {
    var pvt, pad := s.p.localProdPvt, PadNeeded(s.p.localProdPvt, s.r);
    s.(p := s.p.(localProdPvt := Plus(pvt, pad), available := Minus(s.p.available, pad),
                 pc := PWriting(s.p.pc.msg, 0)),
       g := s.g.(sent := s.g.sent + [PadMsg(s.sh.mem, SlotOf(pvt, s.r), pad)]))
  }

  function StepWriteByte(s: State): State
    requires s.r > 0 && s.p.pc.PWriting? && s.p.pc.done < Size(s.p.pc.msg) < 0x1_0000
  {
    var msg, k := s.p.pc.msg, s.p.pc.done;
    s.(sh := s.sh.(mem := Put<Byte>(s.sh.mem, SlotOf(s.p.localProdPvt, s.r) + k, Encode(msg)[k])),
       p := s.p.(pc := PWriting(msg, k + 1)))
  }

  function StepCommit(s: State): State
    requires s.p.pc.PWriting?
  {
    var msg := s.p.pc.msg;
    s.(p := s.p.(localProdPvt := Plus(s.p.localProdPvt, Size(msg)),
                 available := (s.p.available - Size(msg)) % TWO32, pc := PIdle),
       g := s.g.(sent := s.g.sent + [msg]))
  }

  function StepReadByte(s: State): State
    requires s.r > 0 && s.c.pc.CReading?
  {
    var acc := s.c.pc.acc;
    var b := Get(s.sh.mem, SlotOf(s.c.localConsPvt, s.r) + |acc|, 0);
    s.(c := s.c.(pc := CReading(acc + [b])))
  }

  /** The whole message has been read: hand it over unless it is a pad, and move past it. */
  function StepAdvance(s: State): State
    requires s.c.pc.CReading? && |s.c.pc.acc| >= 4
  {
    var acc := s.c.pc.acc;
    s.(c := s.c.(localConsPvt := Plus(s.c.localConsPvt, SizeField(acc)), pc := CIdle,
                 delivered := if acc[0] == PAD then s.c.delivered
                              else s.c.delivered + [Decode(acc)]),
       g := s.g.(consumed := s.g.consumed + 1))
  }

  /** An empty ring: all indices zero, nothing in flight, event words arbitrary. */
  ghost predicate Init(s: State) {
    && Shape(s) && s.sh.prod == 0 && s.sh.cons == 0
    && s.p.localProd == 0 && s.p.localProdPvt == 0 && s.p.available <= s.r && s.p.pc == PIdle
    && s.c == Consumer(0, 0, 0, CIdle, [])
    && s.g == Ghost([], 0, 0, 0, 0, 0, Awake, Alert, false, false)
  }

  predicate Runs(s: State, run: seq<Action>)
    requires s.r > 0
    decreases run
  {
    run == [] || (Enabled(s, run[0]) && Runs(Step(s, run[0]), run[1..]))
  }

  function Exec(s: State, run: seq<Action>): (s': State)
    requires s.r > 0 && Runs(s, run)
    decreases run
    ensures s'.r == s.r
  {
    if run == [] then s else Exec(Step(s, run[0]), run[1..])
  }

  // ----- what the other side may do meanwhile -----

  predicate OfProducer(a: Action) {
    a.Send? || a in {ReadCons, WriteConsEvent, RecheckCons, AvoidWrap, PadByte, PadCommit, WriteByte, Commit,
                     FlushPublish, FlushReadEvent}
  }

  ghost predicate ConsumerMeanwhile(s: State, t: State) {
    s.r > 0 && exists run: seq<Action> ::
      (forall i :: 0 <= i < |run| ==> !OfProducer(run[i])) && Runs(s, run) && Exec(s, run) == t
  }

  ghost predicate ProducerMeanwhile(s: State, t: State) {
    s.r > 0 && exists run: seq<Action> ::
      (forall i :: 0 <= i < |run| ==> OfProducer(run[i])) && Runs(s, run) && Exec(s, run) == t
  }

  /** The producer's part of two states is the same: its words, and the bytes only it writes. */
  predicate SameProducer(s: State, t: State) {
    t.r == s.r && t.p == s.p && t.sh.prod == s.sh.prod && t.sh.consEvent == s.sh.consEvent && t.sh.mem == s.sh.mem
  }

  predicate SameConsumer(s: State, t: State) {
    t.r == s.r && t.c == s.c && t.sh.cons == s.sh.cons && t.sh.prodEvent == s.sh.prodEvent
  }

  lemma ConsumerStepKeepsProducer(s: State, a: Action)
    requires s.r > 0 && Enabled(s, a) && !OfProducer(a)
    ensures SameProducer(s, Step(s, a))
  {
    hide Plus, Get, SlotOf, Crosses, SizeField, Decode;
  }

  lemma {:induction false} ConsumerRunKeepsProducer(s: State, run: seq<Action>)
    requires s.r > 0 && Runs(s, run) && forall i :: 0 <= i < |run| ==> !OfProducer(run[i])
    ensures SameProducer(s, Exec(s, run))
    decreases run
  {
    hide Step, Enabled;
    if run == [] {
    } else {
      ConsumerStepKeepsProducer(s, run[0]);
      ConsumerRunKeepsProducer(Step(s, run[0]), run[1..]);
    }
  }

  lemma ConsumerKeepsProducer(s: State, t: State)
    requires ConsumerMeanwhile(s, t)
    ensures SameProducer(s, t)
  {
    var run: seq<Action> :|
      (forall i :: 0 <= i < |run| ==> !OfProducer(run[i])) && Runs(s, run) && Exec(s, run) == t;
    ConsumerRunKeepsProducer(s, run);
  }

  lemma ProducerStepKeepsConsumer(s: State, a: Action)
    requires s.r > 0 && Enabled(s, a) && OfProducer(a)
    ensures SameConsumer(s, Step(s, a))
  {
    hide Plus, Minus, Put, SlotOf, Crosses, Need, Space, WouldWrap, PadNeeded, PadMsg, PadHeaderByte, Encode;
  }

  lemma {:induction false} ProducerRunKeepsConsumer(s: State, run: seq<Action>)
    requires s.r > 0 && Runs(s, run) && forall i :: 0 <= i < |run| ==> OfProducer(run[i])
    ensures SameConsumer(s, Exec(s, run))
    decreases run
  {
    hide Step, Enabled;
    if run == [] {
    } else {
      ProducerStepKeepsConsumer(s, run[0]);
      ProducerRunKeepsConsumer(Step(s, run[0]), run[1..]);
    }
  }

  lemma ProducerKeepsConsumer(s: State, t: State)
    requires ProducerMeanwhile(s, t)
    ensures SameConsumer(s, t)
  {
    var run: seq<Action> :|
      (forall i :: 0 <= i < |run| ==> OfProducer(run[i])) && Runs(s, run) && Exec(s, run) == t;
    ProducerRunKeepsConsumer(s, run);
  }
}
