/** What each operation of the fast lock (phlib/fastlock.c) does when nobody comes in between, in the
    fields of the word; and what a thread may have become of at all when it leaves an operation. */
module FastLockTurns {
  import opened FastLock
  import opened FastLockLiveness

  // -------------------------------------------------------------- no interference

  /** Thread `t` has `k` turns in a row; when it is back to idle it starts nothing else. */
  function Alone(s: State, t: nat, c: Choice, k: nat): (s': State)
    requires t < |s.threads|
    ensures |s'.threads| == |s.threads|
    decreases k
  {
    if k == 0 then s
    else if k == 1 then Next(s, t, c)
    else Finish(Alone(s, t, c, k - 1), Event(t, c))
  }

  lemma NoTurn(s: State, t: nat, c: Choice)
    requires t < |s.threads|
    ensures Alone(s, t, c, 0) == s
  {
  }

  lemma OneTurn(s: State, t: nat, c: Choice, k: nat, s1: State, s2: State)
    requires t < |s.threads| && Alone(s, t, c, k) == s1 && |s1.threads| == |s.threads|
    requires (s1.threads[t] != Idle || k == 0) && Next(s1, t, c) == s2
    ensures Alone(s, t, c, k + 1) == s2
  {
  }

  lemma Rests(s: State, t: nat, c: Choice, k: nat, s1: State)
    requires t < |s.threads| && Alone(s, t, c, k) == s1 && |s1.threads| == |s.threads|
    requires s1.threads[t] == Idle && k > 0
    ensures Alone(s, t, c, k + 1) == s1
  {
  }

  /** A compare-exchange whose copy is current stores the new fields. */
  lemma Stores(s: State, t: nat, c: Choice)
    requires Inv(s) && t < |s.threads| <= MAX_THREADS && AtCas(s.threads[t]) && s.threads[t].v == s.value
    ensures var f, pc := Decode(s.value), s.threads[t];
      && Standing(f, pc) && CopyAgrees(f, pc) && Fit(Won(f, pc))
      && var v := Encode(Won(f, pc));
         && 0 <= v < WORD && Decode(v) == Won(f, pc) && Next(s, t, c) == Goto(s, t, WonPC(pc)).(value := v)
  {
    var f, pc := Decode(s.value), s.threads[t];
    hide Inv, Standing, CopyAgrees, Balanced, QueuesWatched, Desired, Won, WonPC, Encode, Decode, Local;
    ExchangeWins(s, t);
    DecodeEncode(Won(f, pc));
  }

  /** Thread `t` is at `pc`, the fields of the word are `f`, and the semaphores have so many
      permits; no other thread has moved. */
  predicate Becomes(s: State, s': State, t: nat, pc: PC, f: Fields, exPermits: nat, shPermits: nat)
    requires t < |s.threads|
  {
    && s'.threads == s.threads[t := pc] && Decode(s'.value) == f
    && s'.exPermits == exPermits && s'.shPermits == shPermits
  }

  /** Nobody owns the lock, and it is not being handed over. */
  predicate Free(f: Fields) { f.owned == 0 && f.waking == 0 }

  /** A shared owner may join: nobody owns the lock exclusively, waits to, or is being woken to. */
  predicate Shareable(f: Fields) {
    f.waking == 0 && f.exclusiveWaiters == 0 && (f.owned == 0 || f.owners > 0)
  }

  // ------------------------------------------------------------- the two tries

  /** A try that is not disturbed takes the lock exactly if the lock is free, and otherwise changes
      nothing. */
  lemma TryExclusiveAlone(s: State, t: nat, c: Choice)
    requires Inv(s) && t < |s.threads| <= MAX_THREADS && s.threads[t] == Idle && c.op == TryExclusive
    ensures var f, s' := Decode(s.value), Alone(s, t, c, 3);
      if Free(f) then Becomes(s, s', t, HoldEx, f.(owned := 1), s.exPermits, s.shPermits)
      else s' == s
  {
    var f := Decode(s.value);
    hide Inv, Alone, Owned, Waking, SharedOwners, SharedWaiters, ExclusiveWaiters;
    var s1 := Goto(s, t, TryExRead);
    NoTurn(s, t, c);
    OneTurn(s, t, c, 0, s, s1);
    StepKeepsInv(s, t, c);
    if Free(f) {
      Takes(s, t, c, 1, s1, TryExOwn(s.value));
    } else {
      OneTurn(s, t, c, 1, s1, Goto(s1, t, Idle));
      Rests(s, t, c, 2, Goto(s1, t, Idle));
      assert s.threads[t := TryExRead][t := Idle] == s.threads;
    }
  }

  /** A turn at a compare-exchange whose copy is current. */
  lemma Wins(s: State, t: nat, c: Choice, k: nat, s2: State)
    requires Inv(s2) && t < |s.threads| == |s2.threads| <= MAX_THREADS && Alone(s, t, c, k) == s2
    requires AtCas(s2.threads[t]) && s2.threads[t].v == s2.value
    ensures var f, pc := Decode(s2.value), s2.threads[t];
      && Standing(f, pc) && CopyAgrees(f, pc) && Fit(Won(f, pc)) && Inv(Alone(s, t, c, k + 1))
      && var v := Encode(Won(f, pc));
         && 0 <= v < WORD && Decode(v) == Won(f, pc)
         && Alone(s, t, c, k + 1) == Goto(s2, t, WonPC(pc)).(value := v)
  {
    hide Inv, Alone, Next, Standing, CopyAgrees, Won, WonPC, Encode, Decode, Fit, AtCas;
    StepKeepsInv(s2, t, c);
    Stores(s2, t, c);
    CasIsBusy(s2.threads[t]);
    OneTurn(s, t, c, k, s2, Next(s2, t, c));
  }

  /** A turn that reads the word, and the one that exchanges it. */
  lemma Takes(s: State, t: nat, c: Choice, k: nat, s1: State, pc: PC)
    requires Inv(s1) && t < |s.threads| == |s1.threads| <= MAX_THREADS && Alone(s, t, c, k) == s1
    requires (s1.threads[t] != Idle || k == 0) && AtCas(pc) && pc.v == s1.value && Next(s1, t, c) == Goto(s1, t, pc)
    ensures var f := Decode(s1.value);
      && Standing(f, pc) && CopyAgrees(f, pc) && Fit(Won(f, pc)) && Inv(Alone(s, t, c, k + 2))
      && var v := Encode(Won(f, pc));
         && 0 <= v < WORD && Decode(v) == Won(f, pc)
         && Alone(s, t, c, k + 2) == Goto(s1, t, WonPC(pc)).(value := v)
  {
    hide Inv, Alone, Next, Standing, CopyAgrees, Won, WonPC, Encode, Decode, Fit, AtCas;
    var s2 := Goto(s1, t, pc);
    OneTurn(s, t, c, k, s1, s2);
    StepKeepsInv(s1, t, c);
    Wins(s, t, c, k + 1, s2);
    assert s1.threads[t := pc][t := WonPC(pc)] == s1.threads[t := WonPC(pc)];
  }

  lemma CasIsBusy(pc: PC)
    requires AtCas(pc)
    ensures pc != Idle
  {
  }

  lemma TrySharedAlone(s: State, t: nat, c: Choice)
    requires Inv(s) && t < |s.threads| <= MAX_THREADS && s.threads[t] == Idle && c.op == TryShared
    ensures var f, s' := Decode(s.value), Alone(s, t, c, 3);
      if Shareable(f) then
        Becomes(s, s', t, HoldSh, f.(owned := 1, owners := f.owners + 1), s.exPermits, s.shPermits)
      else s' == s
  {
    var f := Decode(s.value);
    hide Inv, Alone, Owned, Waking, SharedOwners, SharedWaiters, ExclusiveWaiters;
    var s1 := Goto(s, t, TryShRead);
    NoTurn(s, t, c);
    OneTurn(s, t, c, 0, s, s1);
    StepKeepsInv(s, t, c);
    if Shareable(f) {
      Takes(s, t, c, 1, s1, if f.owned == 0 then TryShFirst(s.value) else TryShJoin(s.value));
    } else {
      OneTurn(s, t, c, 1, s1, Goto(s1, t, Idle));
      Rests(s, t, c, 2, Goto(s1, t, Idle));
      assert s.threads[t := TryShRead][t := Idle] == s.threads;
    }
  }

  // --------------------------------------------------------- the two acquires

  /** An acquire takes a free lock in three turns; of another one it reads the word again while it
      spins, and then becomes one more waiter: with four turns, or with five if it had to create the
      semaphore. */
  lemma AcquireExclusiveAlone(s: State, t: nat, c: Choice)
    requires Inv(s) && t < |s.threads| <= MAX_THREADS && s.threads[t] == Idle && c.op == AcquireExclusive
    ensures var f := Decode(s.value);
      if Free(f) then Becomes(s, Alone(s, t, c, 3), t, HoldEx, f.(owned := 1), s.exPermits, s.shPermits)
      else if c.spinning then Alone(s, t, c, 2) == Goto(s, t, AcqExRead)
      else
        var s' := Alone(s, t, c, if s.exEvent != 0 then 4 else 5);
        Becomes(s, s', t, AcqExBlocked, f.(exclusiveWaiters := f.exclusiveWaiters + 1), s.exPermits, s.shPermits)
        && s'.exEvent != 0
  {
    var f := Decode(s.value);
    hide Inv, Alone, Owned, Waking, SharedOwners, SharedWaiters, ExclusiveWaiters;
    var s1 := Goto(s, t, AcqExRead);
    NoTurn(s, t, c);
    OneTurn(s, t, c, 0, s, s1);
    StepKeepsInv(s, t, c);
    if Free(f) {
      Takes(s, t, c, 1, s1, AcqExOwn(s.value));
    } else if c.spinning {
      OneTurn(s, t, c, 1, s1, s1);
    } else {
      var s2 := Goto(s1, t, AcqExEnsure(s.value));
      OneTurn(s, t, c, 1, s1, s2);
      StepKeepsInv(s1, t, c);
      QueuesExclusive(s, t, c, s2);
    }
  }

  lemma QueuesExclusive(s: State, t: nat, c: Choice, s2: State)
    requires Inv(s2) && t < |s.threads| == |s2.threads| <= MAX_THREADS && Alone(s, t, c, 2) == s2
    requires s2.threads[t] == AcqExEnsure(s2.value)
    ensures var f, s' := Decode(s2.value), Alone(s, t, c, if s2.exEvent != 0 then 4 else 5);
      Becomes(s2, s', t, AcqExBlocked, f.(exclusiveWaiters := f.exclusiveWaiters + 1), s2.exPermits, s2.shPermits)
      && s'.exEvent != 0
  {
    hide Inv, Alone, Owned, Waking, SharedOwners, SharedWaiters, ExclusiveWaiters;
    var v := s2.value;
    StepKeepsInv(s2, t, c);
    if s2.exEvent != 0 {
      var s3 := Goto(s2, t, AcqExQueue(v));
      OneTurn(s, t, c, 2, s2, s3);
      Wins(s, t, c, 3, s3);
    } else {
      var s3 := Goto(s2, t, AcqExPublish(v, s2.nextHandle)).(nextHandle := s2.nextHandle + 1);
      OneTurn(s, t, c, 2, s2, s3);
      var s4 := Goto(s3, t, AcqExQueue(v)).(exEvent := s2.nextHandle);
      OneTurn(s, t, c, 3, s3, s4);
      StepKeepsInv(s3, t, c);
      HandleSet(s2);
      Wins(s, t, c, 4, s4);
    }
  }

  lemma HandleSet(s: State)
    requires Inv(s)
    ensures s.nextHandle != 0
  {
    hide Sum, Owned, Waking, SharedOwners, SharedWaiters, ExclusiveWaiters;
  }

  lemma AcquireSharedAlone(s: State, t: nat, c: Choice)
    requires Inv(s) && t < |s.threads| <= MAX_THREADS && s.threads[t] == Idle && c.op == AcquireShared
    ensures var f := Decode(s.value);
      if Shareable(f) then
        Becomes(s, Alone(s, t, c, 3), t, HoldSh, f.(owned := 1, owners := f.owners + 1), s.exPermits, s.shPermits)
      else if c.spinning then Alone(s, t, c, 2) == Goto(s, t, AcqShRead)
      else
        var s' := Alone(s, t, c, if s.shEvent != 0 then 4 else 5);
        Becomes(s, s', t, AcqShBlocked, f.(sharedWaiters := f.sharedWaiters + 1), s.exPermits, s.shPermits)
        && s'.shEvent != 0
  {
    var f := Decode(s.value);
    OwnersOwn(s);
    hide Inv, Alone, Owned, Waking, SharedOwners, SharedWaiters, ExclusiveWaiters, Becomes;
    var s1 := Goto(s, t, AcqShRead);
    NoTurn(s, t, c);
    OneTurn(s, t, c, 0, s, s1);
    StepKeepsInv(s, t, c);
    if Shareable(f) {
      SharesAlone(s, t, c, s1);
    } else if c.spinning {
      OneTurn(s, t, c, 1, s1, s1);
    } else {
      WaitsAlone(s, t, c, s1);
    }
  }

  lemma WaitsAlone(s: State, t: nat, c: Choice, s1: State)
    requires Inv(s1) && t < |s.threads| <= MAX_THREADS && s1 == Goto(s, t, AcqShRead) && Alone(s, t, c, 1) == s1
    requires !Shareable(Decode(s.value)) && !c.spinning && (Owned(s.value) == 0 ==> SharedOwners(s.value) == 0)
    ensures var f, s' := Decode(s.value), Alone(s, t, c, if s.shEvent != 0 then 4 else 5);
      Becomes(s, s', t, AcqShBlocked, f.(sharedWaiters := f.sharedWaiters + 1), s.exPermits, s.shPermits)
      && s'.shEvent != 0
  {
    hide Inv, Alone, Owned, Waking, SharedOwners, SharedWaiters, ExclusiveWaiters, Becomes;
    var f, s2 := Decode(s.value), Goto(s1, t, AcqShEnsure(s.value));
    OneTurn(s, t, c, 1, s1, s2);
    StepKeepsInv(s1, t, c);
    QueuesShared(s, t, c, s2);
    var s' := Alone(s, t, c, if s.shEvent != 0 then 4 else 5);
    BecomesSame(s, s2, s', t, AcqShBlocked, f.(sharedWaiters := f.sharedWaiters + 1));
  }

  lemma BecomesSame(s: State, s2: State, s': State, t: nat, pc: PC, f: Fields)
    requires t < |s.threads| && |s2.threads| == |s.threads| && s2.threads[t := pc] == s.threads[t := pc]
    requires s2.exPermits == s.exPermits && s2.shPermits == s.shPermits
    requires Becomes(s2, s', t, pc, f, s2.exPermits, s2.shPermits)
    ensures Becomes(s, s', t, pc, f, s.exPermits, s.shPermits)
  {
  }

  lemma SharesAlone(s: State, t: nat, c: Choice, s1: State)
    requires Inv(s1) && t < |s.threads| <= MAX_THREADS && s1 == Goto(s, t, AcqShRead) && Alone(s, t, c, 1) == s1
    requires Shareable(Decode(s.value)) && (Owned(s.value) == 0 ==> SharedOwners(s.value) == 0)
    ensures var f := Decode(s.value);
      Becomes(s, Alone(s, t, c, 3), t, HoldSh, f.(owned := 1, owners := f.owners + 1), s.exPermits, s.shPermits)
  {
    hide Inv, Alone, Owned, Waking, SharedOwners, SharedWaiters, ExclusiveWaiters;
    Takes(s, t, c, 1, s1, if Decode(s.value).owned == 0 then AcqShFirst(s.value) else AcqShJoin(s.value));
  }

  lemma OwnersOwn(s: State)
    requires Inv(s)
    ensures Owned(s.value) == 0 ==> SharedOwners(s.value) == 0
  {
    hide Sum, Owned, Waking, SharedOwners, SharedWaiters, ExclusiveWaiters;
  }

  lemma QueuesShared(s: State, t: nat, c: Choice, s2: State)
    requires Inv(s2) && t < |s.threads| == |s2.threads| <= MAX_THREADS && Alone(s, t, c, 2) == s2
    requires s2.threads[t] == AcqShEnsure(s2.value)
    ensures var f, s' := Decode(s2.value), Alone(s, t, c, if s2.shEvent != 0 then 4 else 5);
      Becomes(s2, s', t, AcqShBlocked, f.(sharedWaiters := f.sharedWaiters + 1), s2.exPermits, s2.shPermits)
      && s'.shEvent != 0
  {
    hide Inv, Alone, Owned, Waking, SharedOwners, SharedWaiters, ExclusiveWaiters;
    var v := s2.value;
    StepKeepsInv(s2, t, c);
    if s2.shEvent != 0 {
      var s3 := Goto(s2, t, AcqShQueue(v));
      OneTurn(s, t, c, 2, s2, s3);
      Wins(s, t, c, 3, s3);
    } else {
      var s3 := Goto(s2, t, AcqShPublish(v, s2.nextHandle)).(nextHandle := s2.nextHandle + 1);
      OneTurn(s, t, c, 2, s2, s3);
      var s4 := Goto(s3, t, AcqShQueue(v)).(shEvent := s2.nextHandle);
      OneTurn(s, t, c, 3, s3, s4);
      StepKeepsInv(s3, t, c);
      HandleSet(s2);
      Wins(s, t, c, 4, s4);
    }
  }

  /** A thread whose permit is there becomes the owner that the waking bit stood for. */
  lemma WokenAlone(s: State, t: nat, c: Choice)
    requires Inv(s) && t < |s.threads| <= MAX_THREADS && s.threads[t] == AcqExBlocked && s.exPermits > 0
    ensures Becomes(s, Alone(s, t, c, 3), t, HoldEx, Decode(s.value).(owned := 1, waking := 0), s.exPermits - 1,
                    s.shPermits)
  {
    hide Inv, Alone, Owned, Waking, SharedOwners, SharedWaiters, ExclusiveWaiters;
    var s1 := Goto(s, t, AcqExWokenRead).(exPermits := s.exPermits - 1);
    NoTurn(s, t, c);
    OneTurn(s, t, c, 0, s, s1);
    StepKeepsInv(s, t, c);
    Takes(s, t, c, 1, s1, AcqExWokenCas(s.value));
  }

  // --------------------------------------------------------- the two releases

  /** An exclusive release hands the lock to one exclusive waiter, or frees it and wakes all the
      shared ones. */
  lemma ReleaseExclusiveAlone(s: State, t: nat, c: Choice)
    requires Inv(s) && t < |s.threads| <= MAX_THREADS && s.threads[t] == HoldEx
    ensures var f, s' := Decode(s.value), Alone(s, t, c, 4);
      if f.exclusiveWaiters > 0 then
        Becomes(s, s', t, Idle, f.(owned := 0, waking := 1, exclusiveWaiters := f.exclusiveWaiters - 1),
                s.exPermits + 1, s.shPermits)
      else
        Becomes(s, s', t, Idle, f.(owned := 0, sharedWaiters := 0), s.exPermits, s.shPermits + f.sharedWaiters)
  {
    var f := Decode(s.value);
    hide Inv, Alone, Owned, Waking, SharedOwners, SharedWaiters, ExclusiveWaiters;
    var s1 := Goto(s, t, RelExRead);
    NoTurn(s, t, c);
    OneTurn(s, t, c, 0, s, s1);
    StepKeepsInv(s, t, c);
    Takes(s, t, c, 1, s1, if f.exclusiveWaiters > 0 then RelExHandOff(s.value) else RelExPlain(s.value));
    Ends(s, t, c, Alone(s, t, c, 3));
  }

  /** A shared release leaves the lock to the other owners, or, as the last one, hands it to an
      exclusive waiter or frees it. */
  lemma ReleaseSharedAlone(s: State, t: nat, c: Choice)
    requires Inv(s) && t < |s.threads| <= MAX_THREADS && s.threads[t] == HoldSh
    ensures var f, s' := Decode(s.value), Alone(s, t, c, 4);
      if f.owners > 1 then Becomes(s, s', t, Idle, f.(owners := f.owners - 1), s.exPermits, s.shPermits)
      else if f.exclusiveWaiters > 0 then
        Becomes(s, s', t, Idle, f.(owned := 0, waking := 1, owners := 0, exclusiveWaiters := f.exclusiveWaiters - 1),
                s.exPermits + 1, s.shPermits)
      else Becomes(s, s', t, Idle, f.(owned := 0, owners := 0), s.exPermits, s.shPermits)
  {
    var f := Decode(s.value);
    hide Inv, Alone, Owned, Waking, SharedOwners, SharedWaiters, ExclusiveWaiters;
    var s1 := Goto(s, t, RelShRead);
    NoTurn(s, t, c);
    OneTurn(s, t, c, 0, s, s1);
    StepKeepsInv(s, t, c);
    Takes(s, t, c, 1, s1, if f.owners > 1 then RelShLeave(s.value)
                          else if f.exclusiveWaiters > 0 then RelShHandOff(s.value) else RelShLast(s.value));
    Ends(s, t, c, Alone(s, t, c, 3));
  }

  /** The permits are posted, if any are owed. */
  lemma Ends(s: State, t: nat, c: Choice, s3: State)
    requires t < |s.threads| == |s3.threads| && s3 == Alone(s, t, c, 3)
    requires var pc := s3.threads[t]; pc == Idle || pc.SignalEx? || pc.RelExSignalShared?
    ensures var pc := s3.threads[t];
      Alone(s, t, c, 4) == Goto(s3, t, Idle).(exPermits := s3.exPermits + Weight(pc, ExSignals),
                                              shPermits := s3.shPermits + Weight(pc, ShSignals))
  {
    hide Alone;
    var pc := s3.threads[t];
    if pc == Idle {
      Rests(s, t, c, 3, s3);
      assert s3.threads[t := Idle] == s3.threads;
    } else {
      OneTurn(s, t, c, 3, s3, Next(s3, t, c));
    }
  }

  // ------------------------------------------------- how an operation may end

  /** What a thread is about. */
  datatype Phase = Resting | WantsExclusive | WantsShared | TriesExclusive | TriesShared | OwnsExclusive | OwnsShared
                 | Wakes

  function PhaseOf(pc: PC): Phase {
    if pc.Idle? then Resting
    else if pc.TryExRead? || pc.TryExOwn? then TriesExclusive
    else if pc.TryShRead? || pc.TryShFirst? || pc.TryShJoin? then TriesShared
    else if Weight(pc, ExHolders) == 1 then OwnsExclusive
    else if Weight(pc, ShHolders) == 1 then OwnsShared
    else if pc.SignalEx? || pc.RelExSignalShared? then Wakes
    else if pc.AcqExRead? || pc.AcqExOwn? || pc.AcqExEnsure? || pc.AcqExPublish? || pc.AcqExQueue? || pc.AcqExBlocked?
            || Weight(pc, Woken) == 1 then WantsExclusive
    else WantsShared
  }

  function Begun(op: Operation): Phase {
    match op
    case AcquireExclusive => WantsExclusive
    case AcquireShared => WantsShared
    case TryExclusive => TriesExclusive
    case TryShared => TriesShared
  }

  /** Where a thread may go with one step, on a word with the fields `f`.  An acquire does not end
      before its thread owns the lock, and a release only then begins; a try gives up only if the
      lock was not to be had when it was read, or if the word was changed in between. */
  predicate Goes(pc: PC, c: Choice, value: Word, after: Phase) {
    var f, current := Decode(value), AtCas(pc) && pc.v == value;
    match PhaseOf(pc)
    case Resting => after == Begun(c.op)
    case WantsExclusive => after == WantsExclusive || (after == OwnsExclusive && current)
    case WantsShared => after == WantsShared || (after == OwnsShared && current)
    case TriesExclusive =>
      (after == Resting && (if AtCas(pc) then pc.v != value else !Free(f)))
      || (after == TriesExclusive && !AtCas(pc)) || (after == OwnsExclusive && current)
    case TriesShared =>
      (after == Resting && (if AtCas(pc) then pc.v != value else !Shareable(f)))
      || (after == TriesShared && !AtCas(pc)) || (after == OwnsShared && current)
    case OwnsExclusive => after == OwnsExclusive || ((after == Resting || after == Wakes) && current)
    case OwnsShared => after == OwnsShared || ((after == Resting || after == Wakes) && current)
    case Wakes => after == Resting
  }

  lemma NothingGivenUp(s: State, t: nat, c: Choice)
    requires Inv(s) && t < |s.threads|
    ensures Goes(s.threads[t], c, s.value, PhaseOf(Next(s, t, c).threads[t]))
    ensures forall u :: 0 <= u < |s.threads| && u != t ==> Next(s, t, c).threads[u] == s.threads[u]
  {
    OwnersOwn(s);
    hide Inv, Desired, Goes, PhaseOf, Look, WonPC, LostPC, Owned, Waking, SharedOwners, SharedWaiters, ExclusiveWaiters;
    var pc := s.threads[t];
    if AtCas(pc) {
      CasGoes(pc, c, s.value);
    } else if AtSemaphore(pc) || AtEvent(pc) {
      OtherGoes(s, t, c);
    } else {
      LookGoes(pc, c, s.value);
    }
  }

  lemma CasGoes(pc: PC, c: Choice, value: Word)
    requires AtCas(pc)
    ensures Goes(pc, c, value, PhaseOf(if pc.v == value then WonPC(pc) else LostPC(pc)))
  {
    hide Decode, SharedWaiters;
  }

  lemma OtherGoes(s: State, t: nat, c: Choice)
    requires t < |s.threads| && (AtSemaphore(s.threads[t]) || AtEvent(s.threads[t]))
    ensures Goes(s.threads[t], c, s.value, PhaseOf(Next(s, t, c).threads[t]))
  {
    hide Decode;
  }

  lemma LookGoes(pc: PC, c: Choice, value: Word)
    requires !AtCas(pc) && !AtSemaphore(pc) && !AtEvent(pc) && (Owned(value) == 0 ==> SharedOwners(value) == 0)
    ensures Goes(pc, c, value, PhaseOf(Look(pc, value, c)))
  {
    hide Owned, Waking, SharedOwners, SharedWaiters, ExclusiveWaiters;
  }
}
