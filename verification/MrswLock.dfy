/** The multi-reader single-writer spin lock of inc/scsiboot.h (lines 270-351), for any number of
    threads. Each access to the lock word is one step; threads interleave freely. A failed
    XM_ASSERT halts the machine, as a bug check does. */
module MrswLock {
  import opened Word32

  const WRITER_HELD: Word := 0x8000_0000

  /** HIGH_LEVEL of the Windows kernel on x86, and on x64. */
  function HighLevel(bits: nat): nat {
    if bits == 64 then 15 else 31
  }

  /** Where a thread is. A `seen` is the value it read before its compare-exchange. */
  datatype Pc =
    | Idle
    | ReadSpin | ReadCas(seen: Word)       // acquire_mrsw_read
    | TrySpin | TryCas(seen: Word)         // try_acquire_mrsw_read
    | Reading
    | CheckNoWriter | Decrement            // release_mrsw_read, past its first assertion
    | WriteWait | WriteSpin | WriteCas     // acquire_mrsw_write
    | Writing
    | CheckHeld(t: Word)                   // release_mrsw_write, past its compare-exchange

  /** irql is the level the thread runs at, saved the level its caller keeps for the release,
      home the level it had when the machine started. */
  datatype Thread = Thread(pc: Pc, irql: nat, saved: nat, home: nat)

  /** bits is the width of a pointer. */
  datatype State = State(lock: Word, threads: seq<Thread>, bits: nat, halted: bool)

  /** Go continues the call a thread is in. */
  datatype Op = AcquireRead | TryRead | AcquireWrite | Release | Go

  predicate WriterBit(lock: Word) {
    lock >= WRITER_HELD
  }

  /** (ULONG_PTR)(LONG)w: the signed 32-bit value widened to a pointer. */
  function FromLong(w: Word, bits: nat): nat {
    if bits == 64 && w >= 0x8000_0000 then w + 0xffff_ffff_0000_0000 else w
  }

  /** XM_ASSERT3U(t, ==, XM_MRSW_WRITER_HELD): t is a LONG, the constant is unsigned. */
  predicate HeldAssertion(t: Word, bits: nat) {
    FromLong(t, bits) == WRITER_HELD
  }

  predicate Enabled(s: State, i: nat, op: Op) {
    && !s.halted && i < |s.threads|
    && match op
       case AcquireRead => s.threads[i].pc.Idle?
       case TryRead => s.threads[i].pc.Idle?
       case AcquireWrite => s.threads[i].pc.Idle?
       case Release => s.threads[i].pc.Reading? || s.threads[i].pc.Writing?
       case Go => !s.threads[i].pc.Idle? && !s.threads[i].pc.Reading? && !s.threads[i].pc.Writing?
  }

  function Raised(t: Thread, pc: Pc, bits: nat): Thread {
    t.(irql := HighLevel(bits), saved := t.irql, pc := pc)
  }

  function Lowered(t: Thread): Thread {
    t.(irql := t.saved, pc := Idle)
  }

  /** What one step makes of the lock word and the thread; false for a failed assertion. */
  function Act(lock: Word, t: Thread, op: Op, bits: nat): (Word, Thread, bool) {
    match op
    case AcquireRead => (lock, Raised(t, ReadSpin, bits), true)
    case TryRead => (lock, Raised(t, TrySpin, bits), true)
    case AcquireWrite => (lock, t.(pc := WriteWait), true)
    case Release =>
      if t.pc.Reading? then (lock, t.(pc := CheckNoWriter), lock != 0)
      else (if lock == WRITER_HELD then 0 else lock, t.(pc := CheckHeld(lock)), true)
    case Go =>
      match t.pc
      case ReadSpin => (lock, if WriterBit(lock) then t else t.(pc := ReadCas(lock)), true)
      case ReadCas(seen) =>
        if lock == seen then (Plus(seen, 1), t.(pc := Reading), true) else (lock, t.(pc := ReadSpin), true)
      case TrySpin => (lock, if WriterBit(lock) then Lowered(t) else t.(pc := TryCas(lock)), true)
      case TryCas(seen) =>
        if lock == seen then (Plus(seen, 1), t.(pc := Reading), true) else (lock, t.(pc := TrySpin), true)
      case CheckNoWriter => (lock, t.(pc := Decrement), !WriterBit(lock))
      case Decrement => (Minus(lock, 1), Lowered(t), true)
      case WriteWait => (lock, if lock != 0 then t else Raised(t, WriteSpin, bits), true)
      case WriteSpin => (lock, if lock != 0 then t else t.(pc := WriteCas), true)
      case WriteCas => if lock == 0 then (WRITER_HELD, t.(pc := Writing), true) else (lock, t.(pc := WriteSpin), true)
      case CheckHeld(held) => (lock, Lowered(t), HeldAssertion(held, bits))
      case _ => (lock, t, true)
  }

  function Step(s: State, i: nat, op: Op): (s': State)
    requires Enabled(s, i, op)
    ensures |s'.threads| == |s.threads| && s'.bits == s.bits
  {
    var (lock, t, ok) := Act(s.lock, s.threads[i], op, s.bits);
    if ok then s.(lock := lock, threads := s.threads[i := t]) else s.(halted := true)
  }

  ghost predicate Init(s: State) {
    && s.lock == 0 && !s.halted
    && forall i :: 0 <= i < |s.threads| ==>
         s.threads[i].pc.Idle? && s.threads[i].irql == s.threads[i].home <= HighLevel(s.bits)
  }

  predicate Runs(s: State, run: seq<(nat, Op)>)
    decreases run
  {
    run == [] || (Enabled(s, run[0].0, run[0].1) && Runs(Step(s, run[0].0, run[0].1), run[1..]))
  }

  function Exec(s: State, run: seq<(nat, Op)>): (s': State)
    requires Runs(s, run)
    decreases run
    ensures |s'.threads| == |s.threads| && s'.bits == s.bits
  {
    if run == [] then s else Exec(Step(s, run[0].0, run[0].1), run[1..])
  }

  ghost predicate Reachable(s: State) {
    exists s0: State, run: seq<(nat, Op)> :: Init(s0) && Runs(s0, run) && Exec(s0, run) == s
  }

  // ----- who holds the lock -----

  predicate HoldsRead(t: Thread) {
    t.pc.Reading? || t.pc.CheckNoWriter? || t.pc.Decrement?
  }

  predicate HoldsWrite(t: Thread) {
    t.pc.Writing?
  }

  function Readers(threads: seq<Thread>): (n: nat)
    ensures n <= |threads|
  {
    if threads == [] then 0 else (if HoldsRead(threads[0]) then 1 else 0) + Readers(threads[1..])
  }

  function Writers(threads: seq<Thread>): (n: nat)
    ensures n <= |threads|
  {
    if threads == [] then 0 else (if HoldsWrite(threads[0]) then 1 else 0) + Writers(threads[1..])
  }

  lemma {:induction false} ReadersAfter(threads: seq<Thread>, i: nat, t: Thread)
    requires i < |threads|
    ensures Readers(threads[i := t]) + (if HoldsRead(threads[i]) then 1 else 0)
            == Readers(threads) + (if HoldsRead(t) then 1 else 0)
  {
    hide HoldsRead;
    if i == 0 {
      assert threads[i := t][1..] == threads[1..];
    } else {
      ReadersAfter(threads[1..], i - 1, t);
      assert threads[i := t][1..] == threads[1..][i - 1 := t];
    }
  }

  lemma {:induction false} WritersAfter(threads: seq<Thread>, i: nat, t: Thread)
    requires i < |threads|
    ensures Writers(threads[i := t]) + (if HoldsWrite(threads[i]) then 1 else 0)
            == Writers(threads) + (if HoldsWrite(t) then 1 else 0)
  {
    hide HoldsWrite;
    if i == 0 {
      assert threads[i := t][1..] == threads[1..];
    } else {
      WritersAfter(threads[1..], i - 1, t);
      assert threads[i := t][1..] == threads[1..][i - 1 := t];
    }
  }

  lemma {:induction false} HolderCounts(threads: seq<Thread>, i: nat)
    requires i < |threads|
    ensures HoldsRead(threads[i]) ==> Readers(threads) >= 1
    ensures HoldsWrite(threads[i]) ==> Writers(threads) >= 1
    ensures !HoldsRead(threads[i]) ==> Readers(threads) < |threads|
  {
    hide HoldsRead, HoldsWrite;
    if i == 0 {
    } else {
      HolderCounts(threads[1..], i - 1);
    }
  }

  /** The word is the writer bit alone, with one writer and no reader, or it is the number of
      readers, with no writer. */
  predicate Exclusive(lock: Word, readers: nat, writers: nat) {
    || (writers == 1 && readers == 0 && lock == WRITER_HELD)
    || (writers == 0 && lock == readers < WRITER_HELD)
  }

  predicate ThreadOk(t: Thread, bits: nat) {
    && (t.pc.Idle? || t.pc.WriteWait? ==> t.irql == t.home)
    && (!t.pc.Idle? && !t.pc.WriteWait? ==> t.irql == HighLevel(bits) && t.saved == t.home)
    && (t.pc.ReadCas? || t.pc.TryCas? ==> !WriterBit(t.pc.seen))
    && (t.pc.CheckHeld? ==> t.pc.t == WRITER_HELD)
  }

  ghost predicate Inv(s: State) {
    && |s.threads| < WRITER_HELD
    && Exclusive(s.lock, Readers(s.threads), Writers(s.threads))
    && (forall i :: 0 <= i < |s.threads| ==> ThreadOk(s.threads[i], s.bits))
    && (s.halted ==> s.bits == 64)
  }

  /** One thread's step, on the counts. */
  lemma ActKeeps(lock: Word, t: Thread, op: Op, bits: nat, readers: nat, writers: nat)
    requires Exclusive(lock, readers, writers) && ThreadOk(t, bits) && readers < WRITER_HELD
    requires Enabled(State(lock, [t], bits, false), 0, op)
    requires HoldsRead(t) ==> readers >= 1
    requires HoldsWrite(t) ==> writers >= 1
    requires !HoldsRead(t) ==> readers + 1 < WRITER_HELD
    ensures var (lock', t', ok) := Act(lock, t, op, bits);
            && ThreadOk(t', bits) && t'.home == t.home
            && Exclusive(lock', readers - (if HoldsRead(t) then 1 else 0) + (if HoldsRead(t') then 1 else 0),
                         writers - (if HoldsWrite(t) then 1 else 0) + (if HoldsWrite(t') then 1 else 0))
            && (!ok ==> t.pc.CheckHeld? && bits == 64)
  {}

  lemma StepKeeps(s: State, i: nat, op: Op)
    requires Inv(s) && Enabled(s, i, op)
    ensures Inv(Step(s, i, op))
  {
    hide Act, Exclusive, ThreadOk, HoldsRead, HoldsWrite, Readers, Writers;
    var t := s.threads[i];
    var (lock, t', ok) := Act(s.lock, t, op, s.bits);
    HolderCounts(s.threads, i);
    ReadersAfter(s.threads, i, t');
    WritersAfter(s.threads, i, t');
    ActKeeps(s.lock, t, op, s.bits, Readers(s.threads), Writers(s.threads));
  }

  lemma {:induction false} IdleHoldNothing(threads: seq<Thread>)
    requires forall i :: 0 <= i < |threads| ==> threads[i].pc.Idle?
    ensures Readers(threads) == 0 && Writers(threads) == 0
  {
    if threads == [] {
    } else {
      IdleHoldNothing(threads[1..]);
    }
  }

  lemma {:induction false} RunKeeps(s: State, run: seq<(nat, Op)>)
    requires Inv(s) && Runs(s, run)
    ensures Inv(Exec(s, run))
    decreases run
  {
    hide Inv, Step, Enabled;
    if run == [] {
    } else {
      StepKeeps(s, run[0].0, run[0].1);
      RunKeeps(Step(s, run[0].0, run[0].1), run[1..]);
    }
  }

  lemma ReachableInv(s: State)
    requires Reachable(s) && |s.threads| < WRITER_HELD
    ensures Inv(s)
  {
    hide Step, Enabled, Readers, Writers;
    var s0: State, run: seq<(nat, Op)> :| Init(s0) && Runs(s0, run) && Exec(s0, run) == s;
    IdleHoldNothing(s0.threads);
    RunKeeps(s0, run);
  }

  // ----- results -----

  /** Below 2^31 threads: no reader beside a writer, no two writers, and the word tells which. */
  lemma MutualExclusion(s: State, i: nat, j: nat)
    requires Reachable(s) && |s.threads| < WRITER_HELD && i < j < |s.threads|
    ensures Exclusive(s.lock, Readers(s.threads), Writers(s.threads))
    ensures !(HoldsWrite(s.threads[i]) && (HoldsWrite(s.threads[j]) || HoldsRead(s.threads[j])))
    ensures !(HoldsWrite(s.threads[j]) && HoldsRead(s.threads[i]))
  {
    hide Readers, Writers, HoldsRead, HoldsWrite, ThreadOk;
    ReachableInv(s);
    HolderCounts(s.threads, i);
    HolderCounts(s.threads, j);
    if HoldsWrite(s.threads[i]) && HoldsWrite(s.threads[j]) {
      TwoWriters(s.threads, i, j);
    }
  }

  lemma {:induction false} TwoWriters(threads: seq<Thread>, i: nat, j: nat)
    requires i < j < |threads| && HoldsWrite(threads[i]) && HoldsWrite(threads[j])
    ensures Writers(threads) >= 2
  {
    hide HoldsWrite;
    if i == 0 { HolderCounts(threads[1..], j - 1); } else { TwoWriters(threads[1..], i - 1, j - 1); }
  }

  /** A thread between calls runs at the level it started with; inside a call past the raise, or
      holding the lock, it runs at the highest level with its own level saved. */
  lemma LevelRestored(s: State, i: nat)
    requires Reachable(s) && |s.threads| < WRITER_HELD && i < |s.threads|
    ensures s.threads[i].pc.Idle? ==> s.threads[i].irql == s.threads[i].home
    ensures HoldsRead(s.threads[i]) || HoldsWrite(s.threads[i]) ==>
              s.threads[i].irql == HighLevel(s.bits) && s.threads[i].saved == s.threads[i].home
  {
    hide Readers, Writers;
    ReachableInv(s);
    assert ThreadOk(s.threads[i], s.bits);
  }

  lemma {:induction false} RunMore(s: State, run: seq<(nat, Op)>, i: nat, op: Op)
    requires Runs(s, run) && Enabled(Exec(s, run), i, op)
    ensures Runs(s, run + [(i, op)]) && Exec(s, run + [(i, op)]) == Step(Exec(s, run), i, op)
    decreases run
  {
    hide Step, Enabled;
    if run == [] {
      assert [] + [(i, op)] == [(i, op)];
    } else {
      RunMore(Step(s, run[0].0, run[0].1), run[1..], i, op);
      assert (run + [(i, op)])[1..] == run[1..] + [(i, op)];
    }
  }

  lemma ReachMore(s: State, i: nat, op: Op)
    requires Reachable(s) && Enabled(s, i, op)
    ensures Reachable(Step(s, i, op))
  {
    hide Init, Step, Enabled;
    var s0: State, run: seq<(nat, Op)> :| Init(s0) && Runs(s0, run) && Exec(s0, run) == s;
    RunMore(s0, run, i, op);
  }

  function Start(n: nat, bits: nat): State {
    State(0, seq(n, _ => Thread(Idle, 0, 0, 0)), bits, false)
  }

  lemma StartIsReachable(n: nat, bits: nat)
    ensures Reachable(Start(n, bits))
  {
    var s := Start(n, bits);
    assert Init(s) && Runs(s, []) && Exec(s, []) == s;
  }

  /** k of n threads have taken the lock for reading, and the rest have done nothing. */
  function Crowd(n: nat, k: nat, bits: nat): State
    requires k <= n && k <= WRITER_HELD
  {
    State(k, seq(n, i => if i < k then Thread(Reading, HighLevel(bits), 0, 0) else Thread(Idle, 0, 0, 0)), bits, false)
  }

  lemma {:induction false} CrowdIsReachable(n: nat, k: nat, bits: nat)
    requires k <= n && k <= WRITER_HELD
    ensures Reachable(Crowd(n, k, bits)) && Readers(Crowd(n, k, bits).threads) == k
    decreases k
  {
    hide Reachable, Readers;
    var s := Crowd(n, k, bits);
    if k == 0 {
      StartIsReachable(n, bits);
      assert s == Start(n, bits);
      IdleHoldNothing(s.threads);
    } else {
      CrowdIsReachable(n, k - 1, bits);
      var s0 := Crowd(n, k - 1, bits);
      ReachMore(s0, k - 1, AcquireRead);
      var s1 := Step(s0, k - 1, AcquireRead);
      ReachMore(s1, k - 1, Go);
      var s2 := Step(s1, k - 1, Go);
      ReachMore(s2, k - 1, Go);
      var s3 := Step(s2, k - 1, Go);
      ReadersAfter(s0.threads, k - 1, s3.threads[k - 1]);
      assert s3.threads == s0.threads[k - 1 := s3.threads[k - 1]];
      assert s3.threads == s.threads;
      assert s3 == s;
    }
  }

  /** The word tells readers and writers apart in every reachable state exactly when there are
      fewer than 2^31 threads: 2^31 readers look like a writer. */
  lemma ExclusiveIff(n: nat, bits: nat)
    ensures (forall s: State | Reachable(s) && |s.threads| == n && s.bits == bits ::
               Exclusive(s.lock, Readers(s.threads), Writers(s.threads)))
            <==> n < WRITER_HELD
  {
    hide Reachable, Readers, Writers;
    if n < WRITER_HELD {
      forall s: State | Reachable(s) && |s.threads| == n && s.bits == bits
        ensures Exclusive(s.lock, Readers(s.threads), Writers(s.threads))
      {
        ReachableInv(s);
      }
    } else {
      var s := Crowd(n, WRITER_HELD, bits);
      CrowdIsReachable(n, WRITER_HELD, bits);
      assert !Exclusive(s.lock, Readers(s.threads), Writers(s.threads));
    }
  }

  /** One thread takes the lock for writing and releases it, on 64-bit pointers: the assertion
      compares a sign-extended value with the unsigned constant and fails. */
  lemma WriterReleaseHalts(n: nat)
    requires n >= 1
    ensures exists s: State :: Reachable(s) && |s.threads| == n && s.bits == 64 && s.halted
  {
    hide Reachable;
    var s := Start(n, 64);
    StartIsReachable(n, 64);
    ReachMore(s, 0, AcquireWrite);
    var s1 := Step(s, 0, AcquireWrite);
    ReachMore(s1, 0, Go);
    var s2 := Step(s1, 0, Go);
    ReachMore(s2, 0, Go);
    var s3 := Step(s2, 0, Go);
    ReachMore(s3, 0, Go);
    var s4 := Step(s3, 0, Go);
    assert s4.threads[0].pc == Writing && s4.lock == WRITER_HELD;
    ReachMore(s4, 0, Release);
    var s5 := Step(s4, 0, Release);
    ReachMore(s5, 0, Go);
    assert Step(s5, 0, Go).halted;
  }

  /** Below 2^31 threads, the assertions of both release functions hold in every run exactly
      where a pointer has 32 bits (or nobody runs). */
  lemma AssertionsHoldIff(n: nat, bits: nat)
    requires n < WRITER_HELD && bits in {32, 64}
    ensures (forall s: State | Reachable(s) && |s.threads| == n && s.bits == bits :: !s.halted)
            <==> bits == 32 || n == 0
  {
    hide Reachable, Readers, Writers;
    forall s: State | Reachable(s) && |s.threads| == n && s.bits == bits
      ensures s.halted ==> bits == 64 && n > 0
    {
      ReachableInv(s);
      if n == 0 { NobodyHalts(s); }
    }
    if bits == 64 && n > 0 {
      WriterReleaseHalts(n);
    }
  }

  lemma NobodyHalts(s: State)
    requires Reachable(s) && |s.threads| == 0
    ensures !s.halted
  {
    var s0: State, run: seq<(nat, Op)> :| Init(s0) && Runs(s0, run) && Exec(s0, run) == s;
    assert run == [];
  }
}
