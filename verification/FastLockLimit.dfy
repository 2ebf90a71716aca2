/** The bound of 1023 threads on the lock of phlib/fastlock.c is exact: with one thread more,
    the owners field of the word can carry into its neighbour. */
module FastLockLimit {
  import opened FastLock

  ghost predicate ThreadsBelow(n: nat, schedule: seq<Event>) { forall e <- schedule :: e.thread < n }

  /** Thread `t` acquires in shared mode, with nobody in between. */
  function Acquire(t: nat): Event { Event(t, Choice(AcquireShared, false)) }

  /** The first `k` threads acquire one after the other. */
  ghost function Crowd(k: nat): seq<Event> {
    if k == 0 then [] else Crowd(k - 1) + [Acquire(k - 1), Acquire(k - 1), Acquire(k - 1)]
  }

  /** `k` threads hold the lock in shared mode; the others have not begun. */
  ghost function Holding(n: nat, k: nat): seq<PC> { seq(n, i => if i < k then HoldSh else Idle) }

  function CrowdWord(k: nat): int { if k == 0 then 0 else OWNED + k * SHARED_OWNERS_INC }

  lemma RunOne(n: nat, schedule: seq<Event>, e: Event)
    requires ThreadsBelow(n, schedule) && e.thread < n
    ensures ThreadsBelow(n, schedule + [e]) && Run(n, schedule + [e]) == Next(Run(n, schedule), e.thread, e.choice)
  {
    hide Next;
    assert (schedule + [e])[..|schedule|] == schedule;
  }

  lemma CrowdFields(k: nat)
    requires k <= MAX_THREADS
    ensures var v := CrowdWord(k);
      && 0 <= v < WORD && Owned(v) == (if k == 0 then 0 else 1) && SharedOwners(v) == k && Waking(v) == 0
      && ExclusiveWaiters(v) == 0
  {
    var f := Fields(if k == 0 then 0 else 1, 0, k, 0, 0);
    DecodeEncode(f);
    assert Encode(f) == CrowdWord(k);
  }

  /** One more thread reads the word, and its compare-exchange succeeds. */
  lemma OneJoins(n: nat, k: nat, s: State)
    requires k < n && k <= MAX_THREADS && s.value == CrowdWord(k) && s.threads == Holding(n, k)
    ensures var s3 := Thrice(s, Acquire(k)); s3.value == CrowdWord(k + 1) && s3.threads == Holding(n, k + 1)
  {
    var c := Acquire(k).choice;
    CrowdFields(k);
    hide Owned, Waking, SharedOwners, SharedWaiters, ExclusiveWaiters;
    assert s.threads[k] == Idle;
    var s1 := Next(s, k, c);
    assert s1 == Goto(s, k, AcqShRead);
    var s2 := Next(s1, k, c);
    var cas := if k == 0 then AcqShFirst(s.value) else AcqShJoin(s.value);
    assert s2 == Goto(s1, k, cas);
    var s3 := Next(s2, k, c);
    assert Desired(cas) == CrowdWord(k + 1) && 0 <= CrowdWord(k + 1) < WORD;
    assert s3.value == CrowdWord(k + 1);
    assert s3.threads == Holding(n, k)[k := AcqShRead][k := cas][k := HoldSh];
    assert s3.threads == Holding(n, k + 1);
  }

  lemma {:induction false} CrowdHolds(n: nat, k: nat)
    requires k <= n && k <= MAX_THREADS + 1
    ensures ThreadsBelow(n, Crowd(k))
    ensures Run(n, Crowd(k)).value == CrowdWord(k) && Run(n, Crowd(k)).threads == Holding(n, k)
  {
    hide Run, Holding, CrowdWord, Crowd, ThreadsBelow;
    if k == 0 {
      CrowdBegins(n);
    } else {
      CrowdHolds(n, k - 1);
      CrowdStep(n, k - 1);
    }
  }

  lemma CrowdBegins(n: nat)
    ensures ThreadsBelow(n, Crowd(0))
    ensures Run(n, Crowd(0)).value == CrowdWord(0) && Run(n, Crowd(0)).threads == Holding(n, 0)
  {
    assert Crowd(0) == [] && Run(n, []) == Init(n);
  }

  lemma CrowdStep(n: nat, k: nat)
    requires k < n && k <= MAX_THREADS && ThreadsBelow(n, Crowd(k))
    requires Run(n, Crowd(k)).value == CrowdWord(k) && Run(n, Crowd(k)).threads == Holding(n, k)
    ensures ThreadsBelow(n, Crowd(k + 1))
    ensures Run(n, Crowd(k + 1)).value == CrowdWord(k + 1) && Run(n, Crowd(k + 1)).threads == Holding(n, k + 1)
  {
    assert Crowd(k + 1) == Crowd(k) + [Acquire(k), Acquire(k), Acquire(k)];
    hide Run, Next, Holding, CrowdWord, Crowd, Thrice, ThreadsBelow;
    OneJoins(n, k, Run(n, Crowd(k)));
    RunThree(n, Crowd(k), Acquire(k));
  }

  /** The same thread moves three times. */
  ghost function Thrice(s: State, e: Event): State
    requires e.thread < |s.threads|
  {
    var s1 := Next(s, e.thread, e.choice);
    assert |s1.threads| == |s.threads|;
    var s2 := Next(s1, e.thread, e.choice);
    assert |s2.threads| == |s.threads|;
    Next(s2, e.thread, e.choice)
  }

  lemma RunThree(n: nat, schedule: seq<Event>, e: Event)
    requires ThreadsBelow(n, schedule) && e.thread < n
    ensures ThreadsBelow(n, schedule + [e, e, e]) && Run(n, schedule + [e, e, e]) == Thrice(Run(n, schedule), e)
  {
    hide Run, Next;
    RunOne(n, schedule, e);
    RunOne(n, schedule + [e], e);
    RunOne(n, schedule + [e] + [e], e);
    assert schedule + [e, e, e] == schedule + [e] + [e] + [e];
  }

  lemma {:induction false} CrowdCount(n: nat, k: nat, i: nat)
    requires k <= n && i <= n
    ensures Sum(Holding(n, k)[i..], ShHolders) == if i < k then k - i else 0
    decreases n - i
  {
    if i < n {
      CrowdCount(n, k, i + 1);
      assert Holding(n, k)[i..][1..] == Holding(n, k)[i + 1..];
    }
  }

  /** When 1024 threads have acquired in shared mode, the owners field reads 0, and the carry
      reads as one waiter. */
  lemma OneThreadTooMany(n: nat)
    requires n > MAX_THREADS
    ensures var schedule := Crowd(MAX_THREADS + 1);
      ThreadsBelow(n, schedule) &&
      var s := Run(n, schedule);
      && Sum(s.threads, ShHolders) == 1024 && SharedOwners(s.value) == 0 && SharedWaiters(s.value) == 1
      && Sum(s.threads, ShBlocked) == 0
  {
    var k := MAX_THREADS + 1;
    CrowdHolds(n, k);
    CrowdCount(n, k, 0);
    assert Holding(n, k)[0..] == Holding(n, k);
    SumZero(Holding(n, k), ShBlocked);
    CarryFields();
  }

  lemma CarryFields()
    ensures 0 <= CrowdWord(1024) < WORD && SharedOwners(CrowdWord(1024)) == 0 && SharedWaiters(CrowdWord(1024)) == 1
  {
    assert CrowdWord(1024) == 0x1001;
    assert 0x1001 / SHARED_OWNERS_INC == 0x400;
  }

  /** The owners field counts the shared owners in every run exactly if there are at most 1023
      threads. */
  lemma BoundIsExact(n: nat)
    ensures (forall schedule | ThreadsBelow(n, schedule) ::
      SharedOwners(Run(n, schedule).value) == Sum(Run(n, schedule).threads, ShHolders))
            <==> n <= MAX_THREADS
  {
    hide Run, Sum, SharedOwners, Owned, Waking;
    if n <= MAX_THREADS {
      forall schedule | ThreadsBelow(n, schedule)
        ensures SharedOwners(Run(n, schedule).value) == Sum(Run(n, schedule).threads, ShHolders)
      {
        WordTellsOwners(n, schedule);
      }
    } else {
      OneThreadTooMany(n);
    }
  }
}
