/** What each call on the lock of inc/scsiboot.h comes to: with one thread moving, and at the step
    that decides it under any interleaving. */
module MrswCalls {
  import opened Word32
  import opened MrswLock

  /** The calls of one thread alone: an operation, and k steps on. */
  function Alone(i: nat, op: Op, k: nat): seq<(nat, Op)> {
    if k == 0 then [(i, op)] else Alone(i, op, k - 1) + [(i, Go)]
  }

  lemma {:induction false} AloneMore(s: State, i: nat, op: Op, k: nat)
    requires k > 0
    ensures Runs(s, Alone(i, op, k)) <==> Runs(s, Alone(i, op, k - 1)) && Enabled(Exec(s, Alone(i, op, k - 1)), i, Go)
    ensures Runs(s, Alone(i, op, k)) ==>
              Exec(s, Alone(i, op, k)) == Step(Exec(s, Alone(i, op, k - 1)), i, Go)
  {
    hide Step, Enabled;
    RunsSnoc(s, Alone(i, op, k - 1), i, Go);
  }

  lemma {:induction false} RunsSnoc(s: State, run: seq<(nat, Op)>, i: nat, op: Op)
    ensures Runs(s, run + [(i, op)]) <==> Runs(s, run) && Enabled(Exec(s, run), i, op)
    ensures Runs(s, run + [(i, op)]) ==> Exec(s, run + [(i, op)]) == Step(Exec(s, run), i, op)
    decreases run
  {
    hide Step, Enabled;
    var more := run + [(i, op)];
    if run == [] {
      assert more == [(i, op)] && more[1..] == [];
    } else {
      assert more[1..] == run[1..] + [(i, op)];
      if Enabled(s, run[0].0, run[0].1) { RunsSnoc(Step(s, run[0].0, run[0].1), run[1..], i, op); }
    }
  }

  lemma AloneOnce(s: State, i: nat, op: Op)
    ensures Runs(s, Alone(i, op, 0)) <==> Enabled(s, i, op)
    ensures Enabled(s, i, op) ==> Exec(s, Alone(i, op, 0)) == Step(s, i, op)
  {
    hide Step, Enabled;
    assert [(i, op)][1..] == [];
    if Enabled(s, i, op) { assert Runs(Step(s, i, op), []); }
  }

  /** Every other thread is as it was. */
  predicate OnlyThread(s: State, t: State, i: nat) {
    && i < |s.threads| == |t.threads| && t.bits == s.bits
    && t.threads == s.threads[i := t.threads[i]]
  }

  predicate NoWriter(s: State) {
    Writers(s.threads) == 0
  }

  predicate NoHolder(s: State) {
    Writers(s.threads) == 0 && Readers(s.threads) == 0
  }

  /** What the lock word says. */
  lemma WordSays(s: State)
    requires Reachable(s) && |s.threads| < WRITER_HELD
    ensures WriterBit(s.lock) <==> !NoWriter(s)
    ensures s.lock == 0 <==> NoHolder(s)
    ensures NoWriter(s) ==> s.lock == Readers(s.threads) && s.lock + 1 < TWO32
    ensures Inv(s)
  {
    hide Readers, Writers;
    ReachableInv(s);
  }

  lemma OneMoreReader(s: State, t: State, i: nat)
    requires OnlyThread(s, t, i) && !HoldsRead(s.threads[i]) && HoldsRead(t.threads[i])
    ensures Readers(t.threads) == Readers(s.threads) + 1
  {
    ReadersAfter(s.threads, i, t.threads[i]);
  }

  // ----- trying to read -----

  /** A thread that tries, alone, comes to hold the lock for reading exactly when no thread holds it
      for writing. Otherwise it is back at its own level and nothing has changed. Either way it
      takes no more steps than these. */
  lemma TryAloneIff(s: State, i: nat)
    requires Reachable(s) && |s.threads| < WRITER_HELD && !s.halted && i < |s.threads| && s.threads[i].pc.Idle?
    ensures var k := if NoWriter(s) then 2 else 1;
            && Runs(s, Alone(i, TryRead, k)) && !Runs(s, Alone(i, TryRead, k + 1))
            && var t := Exec(s, Alone(i, TryRead, k));
               && OnlyThread(s, t, i) && !t.halted
               && (if NoWriter(s) then
                     t.threads[i].pc == Reading && t.lock == s.lock + 1
                     && Readers(t.threads) == Readers(s.threads) + 1
                   else t.threads[i].pc == Idle && t.threads[i].irql == t.threads[i].home && t.lock == s.lock)
  {
    hide Reachable, Readers, Writers;
    WordSays(s);
    var s1 := Step(s, i, TryRead);
    AloneOnce(s, i, TryRead);
    AloneMore(s, i, TryRead, 1);
    AloneMore(s, i, TryRead, 2);
    var s2 := Step(s1, i, Go);
    if NoWriter(s) {
      AloneMore(s, i, TryRead, 3);
      OneMoreReader(s, Step(s2, i, Go), i);
    }
  }

  /** Under any interleaving: a try gives up only by its own look at the word, and exactly when a
      thread holds the lock for writing at that moment. */
  lemma TryFailsIff(s: State, i: nat, j: nat, op: Op)
    requires Reachable(s) && |s.threads| < WRITER_HELD && Enabled(s, j, op) && i < |s.threads|
    requires s.threads[i].pc.TrySpin? || s.threads[i].pc.TryCas?
    ensures Step(s, j, op).threads[i].pc.Idle?
            <==> j == i && op == Go && s.threads[i].pc.TrySpin? && !NoWriter(s)
  {
    hide Reachable, Readers, Writers;
    WordSays(s);
  }

  // ----- acquiring -----

  /** An acquirer for reading, alone, comes to hold the lock exactly when no thread holds it for
      writing; else it spins for ever. */
  lemma ReadAloneIff(s: State, i: nat, k: nat)
    requires Reachable(s) && |s.threads| < WRITER_HELD && !s.halted && i < |s.threads| && s.threads[i].pc.Idle?
    ensures NoWriter(s) ==>
              && Runs(s, Alone(i, AcquireRead, 2)) && !Runs(s, Alone(i, AcquireRead, 3))
              && var t := Exec(s, Alone(i, AcquireRead, 2));
                 && OnlyThread(s, t, i) && !t.halted && t.threads[i].pc == Reading && t.lock == s.lock + 1
                 && Readers(t.threads) == Readers(s.threads) + 1
    ensures !NoWriter(s) ==>
              && Runs(s, Alone(i, AcquireRead, k))
              && var t := Exec(s, Alone(i, AcquireRead, k));
                 OnlyThread(s, t, i) && t.threads[i].pc == ReadSpin && t.lock == s.lock
  {
    hide Reachable, Readers, Writers;
    WordSays(s);
    AloneOnce(s, i, AcquireRead);
    if NoWriter(s) {
      var s1 := Step(s, i, AcquireRead);
      AloneMore(s, i, AcquireRead, 1);
      AloneMore(s, i, AcquireRead, 2);
      AloneMore(s, i, AcquireRead, 3);
      OneMoreReader(s, Step(Step(s1, i, Go), i, Go), i);
    } else {
      StaysPut(s, i, AcquireRead, k);
    }
  }

  /** A writer, alone, comes to hold the lock exactly when no thread holds it at all. */
  lemma WriteAloneIff(s: State, i: nat, k: nat)
    requires Reachable(s) && |s.threads| < WRITER_HELD && !s.halted && i < |s.threads| && s.threads[i].pc.Idle?
    ensures NoHolder(s) ==>
              && Runs(s, Alone(i, AcquireWrite, 3)) && !Runs(s, Alone(i, AcquireWrite, 4))
              && var t := Exec(s, Alone(i, AcquireWrite, 3));
                 OnlyThread(s, t, i) && !t.halted && t.threads[i].pc == Writing && t.lock == WRITER_HELD
    ensures !NoHolder(s) ==>
              && Runs(s, Alone(i, AcquireWrite, k))
              && var t := Exec(s, Alone(i, AcquireWrite, k));
                 OnlyThread(s, t, i) && t.threads[i].pc == WriteWait && t.lock == s.lock
  {
    hide Reachable, Readers, Writers;
    WordSays(s);
    AloneOnce(s, i, AcquireWrite);
    if NoHolder(s) {
      AloneMore(s, i, AcquireWrite, 1);
      AloneMore(s, i, AcquireWrite, 2);
      AloneMore(s, i, AcquireWrite, 3);
      AloneMore(s, i, AcquireWrite, 4);
    } else {
      StaysPut(s, i, AcquireWrite, k);
    }
  }

  lemma {:induction false} StaysPut(s: State, i: nat, op: Op, k: nat)
    requires !s.halted && i < |s.threads| && s.threads[i].pc.Idle?
    requires (op == AcquireRead && WriterBit(s.lock)) || (op == AcquireWrite && s.lock != 0)
    ensures Runs(s, Alone(i, op, k)) && Exec(s, Alone(i, op, k)) == Step(s, i, op)
  {
    AloneOnce(s, i, op);
    if k == 0 {
    } else {
      StaysPut(s, i, op, k - 1);
      AloneMore(s, i, op, k);
      var t := Step(s, i, op);
      assert Step(t, i, Go).threads == t.threads;
    }
  }

  /** Under any interleaving: a thread comes to hold the lock only by its compare-exchange, for
      reading exactly when the word is what it saw, and then no writer holds it; for writing
      exactly when no thread holds it. */
  lemma GrantedIff(s: State, i: nat, j: nat, op: Op)
    requires Reachable(s) && |s.threads| < WRITER_HELD && Enabled(s, j, op) && i < |s.threads|
    requires !HoldsRead(s.threads[i]) && !HoldsWrite(s.threads[i])
    ensures var t, pc := Step(s, j, op).threads[i], s.threads[i].pc;
            && (HoldsRead(t) <==>
                  j == i && op == Go && (pc.ReadCas? || pc.TryCas?) && pc.seen == s.lock)
            && (HoldsRead(t) ==> NoWriter(s))
            && (HoldsWrite(t) <==> j == i && op == Go && pc.WriteCas? && NoHolder(s))
  {
    hide Reachable, Readers, Writers;
    WordSays(s);
  }

  /** A compare-exchange that fails changes nothing, and the thread looks at the word again. */
  lemma FailedExchangeLooksAgain(s: State, i: nat)
    requires Enabled(s, i, Go)
    ensures var t, t' := s.threads[i], Step(s, i, Go);
            && (t.pc.ReadCas? && t.pc.seen != s.lock ==>
                  t' == s.(threads := s.threads[i := t.(pc := ReadSpin)]))
            && (t.pc.TryCas? && t.pc.seen != s.lock ==> t' == s.(threads := s.threads[i := t.(pc := TrySpin)]))
            && (t.pc.WriteCas? && s.lock != 0 ==> t' == s.(threads := s.threads[i := t.(pc := WriteSpin)]))
  {}

  /** A step halts the machine exactly at one of the three assertions: a reader's release of a word
      that is zero or names a writer, and a writer's of a word that does not compare equal. */
  lemma HaltsIff(s: State, i: nat, op: Op)
    requires Enabled(s, i, op)
    ensures var pc := s.threads[i].pc;
            Step(s, i, op).halted
            <==> || (op == Release && pc.Reading? && s.lock == 0)
                 || (op == Go && pc.CheckNoWriter? && s.lock >= 0x8000_0000)
                 || (op == Go && pc.CheckHeld? && (pc.t != 0x8000_0000 || s.bits == 64))
  {}

  // ----- releasing -----

  /** A reader that releases, alone: one reader less, and the thread at its own level. */
  lemma ReaderReleases(s: State, i: nat)
    requires Reachable(s) && |s.threads| < WRITER_HELD && !s.halted && i < |s.threads| && s.threads[i].pc.Reading?
    ensures Runs(s, Alone(i, Release, 2)) && s.lock > 0
    ensures var t := Exec(s, Alone(i, Release, 2));
            && OnlyThread(s, t, i) && !t.halted && t.threads[i].pc == Idle && t.threads[i].irql == t.threads[i].home
            && t.lock == s.lock - 1 && Readers(t.threads) == Readers(s.threads) - 1
  {
    hide Reachable, Readers, Writers;
    WordSays(s);
    HolderCounts(s.threads, i);
    AloneOnce(s, i, Release);
    AloneMore(s, i, Release, 1);
    AloneMore(s, i, Release, 2);
    var t := Step(Step(Step(s, i, Release), i, Go), i, Go);
    ReadersAfter(s.threads, i, t.threads[i]);
  }

  /** A writer that releases, alone, frees the lock; where pointers have 64 bits the assertion
      after that fails. */
  lemma WriterReleases(s: State, i: nat)
    requires Reachable(s) && |s.threads| < WRITER_HELD && !s.halted && i < |s.threads| && s.threads[i].pc.Writing?
    ensures Runs(s, Alone(i, Release, 1))
    ensures var t := Exec(s, Alone(i, Release, 1));
            && t.lock == 0 && (t.halted <==> s.bits == 64)
            && (!t.halted ==>
                  OnlyThread(s, t, i) && t.threads[i].pc == Idle && t.threads[i].irql == t.threads[i].home
                  && NoHolder(t))
  {
    hide Reachable, Readers, Writers;
    WordSays(s);
    HolderCounts(s.threads, i);
    AloneOnce(s, i, Release);
    AloneMore(s, i, Release, 1);
    var t := Step(Step(s, i, Release), i, Go);
    if !t.halted {
      ReadersAfter(s.threads, i, t.threads[i]);
      WritersAfter(s.threads, i, t.threads[i]);
    }
  }
}
