/** The content steps of the netchannel2 machine, and the results over every run. */
module Nc2Proof {
  import opened Memory
  import opened Word32
  import opened EventIndex
  import opened Nc2Arith
  import opened Nc2Messages
  import opened Nc2Machine
  import opened Nc2Invariant

  /** Appending a message moves no earlier boundary. */
  lemma StartsAfterAppend(sent: seq<Msg>, m: Msg)
    requires AllWellSized(sent) && WellSized(m)
    ensures AllWellSized(sent + [m])
    ensures forall k :: 0 <= k <= |sent| ==> Start(sent + [m], k) == Start(sent, k)
    ensures Start(sent + [m], |sent| + 1) == Start(sent, |sent|) + Size(m)
  {
    forall k | 0 <= k <= |sent| ensures Start(sent + [m], k) == Start(sent, k) {
      StartOfPrefix(sent, sent + [m], k);
    }
  }

  /** A message whose bytes lie contiguously past the production index joins the stream. */
  lemma AppendKeepsContent(mem: seq<Byte>, sent: seq<Msg>, m: Msg, released: nat, r: nat)
    requires r > 0 && AllWellSized(sent) && WellSized(m) && released <= |sent|
    requires Contiguous(sent, r) && Intact(mem, sent, released, r)
    requires Off(Start(sent, |sent|), r) + Size(m) <= r
    requires forall t :: 0 <= t < Size(m) ==> mem[Off(Start(sent, |sent|), r) + t] == Encode(m)[t]
    ensures AllWellSized(sent + [m])
    ensures Contiguous(sent + [m], r) && Intact(mem, sent + [m], released, r)
  {
    hide Start, Stream, Off, Encode;
    var sent' := sent + [m];
    var top := Start(sent, |sent|);
    StartsAfterAppend(sent, m);
    StreamLength(sent);
    StreamOfSnoc(sent, m);
    assert forall k :: 0 <= k < |sent| ==> Start(sent', k) == Start(sent, k) && sent'[k] == sent[k];
    forall i | Start(sent', released) <= i < |Stream(sent')|
      ensures mem[Off(i, r)] == Stream(sent')[i]
    {
      if i >= top {
        OffOfSum(top, i - top, r);
      }
    }
  }

  /** A write past the production index, inside the free space, touches no unreleased byte. */
  lemma WriteKeepsIntact(mem: seq<Byte>, sent: seq<Msg>, released: nat, r: nat, k: nat, b: Byte)
    requires r > 0 && AllWellSized(sent) && released <= |sent| && Intact(mem, sent, released, r)
    requires Off(Start(sent, |sent|), r) + k < r
    requires Start(sent, |sent|) + k < Start(sent, released) + r
    ensures Intact(Put<Byte>(mem, Off(Start(sent, |sent|), r) + k, b), sent, released, r)
  {
    hide BitAnd, Encode;
    var top := Start(sent, |sent|);
    StreamLength(sent);
    OffOfSum(top, k, r);
    forall i | Start(sent, released) <= i < |Stream(sent)| ensures Off(i, r) != Off(top + k, r) {
      OffsDiffer(i, top + k, r);
    }
  }

  lemma WriteByteKeeps(s: State)
    requires Inv(s) && Enabled(s, WriteByte)
    ensures Inv(Step(s, WriteByte))
  {
    hide Start, Stream, BitAnd, Contiguous, ConsumerOk, Refused, Off, Encode, TrueNeed;
    SlotOfCount(Top(s.g), s.r);
    var m := s.p.pc.msg;
    WriteKeepsIntact(s.sh.mem, s.g.sent, s.g.released, s.r, s.p.pc.done, Encode(m)[s.p.pc.done]);
  }

  lemma PadBytes(mem: seq<Byte>, slot: nat, n: nat)
    requires 4 <= n < 0x1_0000 && slot + n <= |mem|
    requires PadBegun(mem, slot, n, 4)
    ensures Size(PadMsg(mem, slot, n)) == n
    ensures forall t :: 0 <= t < n ==> mem[slot + t] == Encode(PadMsg(mem, slot, n))[t]
  {
    assert PadHeaderByte(n, 0) == mem[slot + 0] && PadHeaderByte(n, 1) == mem[slot + 1];
    assert PadHeaderByte(n, 2) == mem[slot + 2] && PadHeaderByte(n, 3) == mem[slot + 3];
    var body := mem[slot + 4..slot + n];
    assert forall i :: 0 <= i < n - 4 ==> body[i] == mem[slot + 4 + i];
  }

  lemma AvoidWrapKeeps(s: State)
    requires Inv(s) && Enabled(s, AvoidWrap)
    ensures Inv(Step(s, AvoidWrap))
  {
    hide Start, Stream, BitAnd, Contiguous, Intact, ConsumerOk, Refused, Off, Encode, WouldWrap;
    MemSize(s);
    WouldWrapIff(Top(s.g), Size(s.p.pc.msg), s.r);
  }

  /** The pad: at least a header long, up to the ring's end, and within the free space. */
  lemma PadFits(s: State)
    requires Inv(s) && s.p.pc.PPadding?
    ensures var top := Top(s.g); var pad := s.r - Off(top, s.r);
            && 8 <= pad <= Size(s.p.pc.msg) < 0x8000 && pad % 8 == 0 && pad == PadNeeded(s.p.localProdPvt, s.r)
            && SlotOf(s.p.localProdPvt, s.r) == Off(top, s.r)
            && top + pad <= Start(s.g.sent, s.g.released) + s.r
            && Size(s.p.pc.msg) + pad <= s.p.available
  {
    hide Start, Stream, BitAnd, Contiguous, Intact, Off, Encode, WouldWrap, PadNeeded, ConsumerOk, SlotOf, Crosses,
         Refused, ConsumerWakes, ProducerWakes, W;
    var top := Top(s.g);
    RingAligned(s.r);
    StartAligned(s.g.sent, |s.g.sent|);
    OffAligned(top, s.r);
    SlotOfCount(top, s.r);
    WouldWrapIff(top, Size(s.p.pc.msg), s.r);
    PadAtMostMessage(top, Size(s.p.pc.msg), s.r);
  }

  lemma PadByteKeeps(s: State)
    requires Inv(s) && Enabled(s, PadByte)
    ensures Inv(Step(s, PadByte))
  {
    hide Start, Stream, BitAnd, Contiguous, ConsumerOk, Refused, Off, Encode, TrueNeed, SlotOf, PadNeeded, WouldWrap,
         Intact, PadHeaderByte;
    PadFits(s);
    MemSize(s);
    var top := Top(s.g);
    WriteKeepsIntact(s.sh.mem, s.g.sent, s.g.released, s.r, s.p.pc.done,
                     PadHeaderByte(s.r - Off(top, s.r), s.p.pc.done));
  }

  lemma PadCommitKeeps(s: State)
    requires Inv(s) && Enabled(s, PadCommit)
    ensures Inv(Step(s, PadCommit))
  {
    hide Start, Stream, BitAnd, Contiguous, Intact, Off, Encode, PadMsg, WouldWrap, PadNeeded, PadHeaderByte,
         ConsumerOk, SlotOf, Crosses, W, Refused, ConsumerWakes, Need, Space, TrueNeed;
    PadFits(s);
    var top, pad := Top(s.g), PadNeeded(s.p.localProdPvt, s.r);
    var p := PadMsg(s.sh.mem, Off(top, s.r), pad);
    OffAtEnd(top, s.r);
    PlusOfCounts(top, pad);
    MemSize(s);
    PadIntact(s.sh.mem, s.g.sent, s.g.released, s.r, pad);
    StartGrows(s.g.sent, s.g.released, |s.g.sent|);
    AppendKeepsIndices(s, p, Step(s, PadCommit));
  }

  /** Appending a message to what was sent disturbs neither side's bookkeeping. */
  lemma AppendKeepsIndices(s: State, m: Msg, s': State)
    requires Inv(s) && WellSized(m) && Size(m) <= s.p.available
    requires s.p.pc.PPadding? || s.p.pc.PWriting?
    requires s'.g == s.g.(sent := s.g.sent + [m]) && s'.c == s.c && s'.r == s.r
    requires s'.sh == s.sh.(mem := s'.sh.mem) && s'.p.localProd == s.p.localProd
    requires s'.p.localProdPvt == Plus(s.p.localProdPvt, Size(m))
    requires s'.p.available == Minus(s.p.available, Size(m))
    ensures Indices(s'.g, s'.r) && Words(s'.sh, s'.p, s'.c, s'.g) && Cached(s'.p.available, s'.g, s'.r)
    ensures ConsumerOk(s'.c, s'.sh.prodEvent, s'.g.sent, s'.g.consumed, s'.g.fetched)
    ensures s'.p.pc.PWriting? || s'.p.pc.PIdle? ==> ConsumerWakes(s') && ProducerWakes(s')
    ensures Top(s'.g) == Top(s.g) + Size(m)
  {
    hide Start, Stream, BitAnd, Contiguous, Intact, Encode, Crosses, W, Refused, ProducerOk, ConsumerOk;
    StartsAfterAppend(s.g.sent, m);
    PlusOfCounts(Top(s.g), Size(m));
    ConsumerKeepsOnAppend(s.c, s.sh.prodEvent, s.g.sent, m, s.g.consumed, s.g.fetched);
  }

  lemma PadIntact(mem: seq<Byte>, sent: seq<Msg>, released: nat, r: nat, pad: nat)
    requires r > 0 && AllWellSized(sent) && released <= |sent|
    requires Contiguous(sent, r) && Intact(mem, sent, released, r) && |mem| == r
    requires 8 <= pad < 0x8000 && pad % 8 == 0 && Off(Start(sent, |sent|), r) + pad == r
    requires PadBegun(mem, Off(Start(sent, |sent|), r), pad, 4)
    ensures var p := PadMsg(mem, Off(Start(sent, |sent|), r), pad);
            && WellSized(p) && Size(p) == pad && p.kind == PAD
            && Contiguous(sent + [p], r) && Intact(mem, sent + [p], released, r)
  {
    hide Start, Stream, Off, Encode, PadHeaderByte, Contiguous, Intact;
    var slot := Off(Start(sent, |sent|), r);
    PadBytes(mem, slot, pad);
    AppendKeepsContent(mem, sent, PadMsg(mem, slot, pad), released, r);
  }

  lemma MemSize(s: State)
    requires Inv(s)
    ensures |s.sh.mem| == s.r
  {}

  lemma ConsumerKeepsOnAppend(c: Consumer, prodEvent: Word, sent: seq<Msg>, m: Msg,
                              consumed: nat, fetched: nat)
    requires AllWellSized(sent) && WellSized(m) && consumed <= fetched <= |sent|
    requires ConsumerOk(c, prodEvent, sent, consumed, fetched)
    ensures ConsumerOk(c, prodEvent, sent + [m], consumed, fetched)
  {
    hide Start, Encode, ClientView;
    StartsAfterAppend(sent, m);
    assert (sent + [m])[..consumed] == sent[..consumed];
  }

  lemma CommitKeeps(s: State)
    requires Inv(s) && Enabled(s, Commit)
    ensures Inv(Step(s, Commit))
  {
    hide Start, Stream, BitAnd, Contiguous, Intact, Off, Encode, ConsumerOk, Crosses, W, Refused,
         ConsumerWakes;
    AppendKeepsContent(s.sh.mem, s.g.sent, s.p.pc.msg, s.g.released, s.r);
    AppendKeepsIndices(s, s.p.pc.msg, Step(s, Commit));
  }

  /** Byte k of the message at the consumer's index is where the consumer looks for it. */
  lemma MessageByte(mem: seq<Byte>, sent: seq<Msg>, released: nat, consumed: nat, r: nat, k: nat)
    requires r > 0 && AllWellSized(sent) && released <= consumed < |sent| && k < Size(sent[consumed])
    requires Contiguous(sent, r) && Intact(mem, sent, released, r)
    ensures Off(Start(sent, consumed), r) + k < r
    ensures mem[Off(Start(sent, consumed), r) + k] == Encode(sent[consumed])[k]
  {
    hide Start, Stream, Off, Encode;
    var lo := Start(sent, consumed);
    MessageInStream(sent, consumed);
    StartGrows(sent, released, consumed);
    OffOfSum(lo, k, r);
    assert Stream(sent)[lo..lo + Size(sent[consumed])][k] == Stream(sent)[lo + k];
  }

  lemma ReadByteKeeps(s: State)
    requires Inv(s) && Enabled(s, ReadByte)
    ensures Inv(Step(s, ReadByte))
  {
    hide Start, Stream, BitAnd, Contiguous, Intact, Off, Encode, ProducerOk, Refused, ClientView;
    var m, acc := s.g.sent[s.g.consumed], s.c.pc.acc;
    var lo := Start(s.g.sent, s.g.consumed);
    if |acc| >= 4 { DecodeEncode(m, |acc|); }
    SlotOfCount(lo, s.r);
    MemSize(s);
    MessageByte(s.sh.mem, s.g.sent, s.g.released, s.g.consumed, s.r, |acc|);
    assert Encode(m)[..|acc|] + [Encode(m)[|acc|]] == Encode(m)[..|acc| + 1];
  }

  lemma AdvanceKeeps(s: State)
    requires Inv(s) && Enabled(s, Advance)
    ensures Inv(Step(s, Advance))
  {
    hide Start, Stream, BitAnd, Contiguous, Intact, Off, ProducerOk, Refused, ClientView;
    var sent, n, acc := s.g.sent, s.g.consumed, s.c.pc.acc;
    DecodeEncode(sent[n], |acc|);
    assert acc == Encode(sent[n]);
    assert sent[..n + 1] == sent[..n] + [sent[n]];
    ClientViewSnoc(sent[..n], sent[n]);
    StartStep(sent, n);
    PlusOfCounts(Start(sent, n), Size(sent[n]));
  }

  lemma StartStep(sent: seq<Msg>, k: nat)
    requires AllWellSized(sent) && k < |sent|
    ensures Start(sent, k + 1) == Start(sent, k) + Size(sent[k])
  {}
}
