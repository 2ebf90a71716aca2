/** The fast lock of phlib/fastlock.c lets every crowd go: once no thread starts another
    operation and every thread is scheduled again and again, all of them finish. */
module FastLockLiveness {
  import opened FastLock
  import FastLockLimit
  import Words

  // ------------------------------------------------------------- the schedule

  /** An event of a finished crowd: idle threads stay idle, the others move as ever. */
  function Finish(s: State, e: Event): (s': State)
    ensures |s'.threads| == |s.threads|
  {
    if e.thread < |s.threads| && s.threads[e.thread] != Idle then Next(s, e.thread, e.choice) else s
  }

  /** The next `k` events of an endless schedule. */
  ghost function After(s: State, schedule: nat -> Event, from: nat, k: nat): (s': State)
    ensures |s'.threads| == |s.threads|
    decreases k
  {
    if k == 0 then s else After(Finish(s, schedule(from)), schedule, from + 1, k - 1)
  }

  /** Thread `t` has its turn at `i` or later, with its spin count used up. */
  ghost predicate TurnComes(schedule: nat -> Event, t: nat, i: nat) {
    exists j: nat :: i <= j && schedule(j).thread == t && !schedule(j).choice.spinning
  }

  /** Every thread is scheduled again and again, and none spins for ever. */
  ghost predicate Fair(schedule: nat -> Event, n: nat) {
    forall t: nat, i: nat | t < n :: TurnComes(schedule, t, i)
  }

  predicate AllIdle(s: State) { forall pc <- s.threads :: pc == Idle }

  // ----------------------------------------------------------------- the rank

  /** What is left to do: the exclusive operations, the shared ones, and, while the word stays
      as it is, the steps of each thread up to its next change of the word. */
  datatype Gauge = Exclusive | Shared | Steps(value: Word)

  function Left(pc: PC, g: Gauge): nat {
    match g
    case Exclusive =>
      if pc.AcqExRead? || pc.AcqExOwn? || pc.AcqExEnsure? || pc.AcqExPublish? || pc.AcqExQueue? then 3
      else if pc.AcqExBlocked? || pc.AcqExWokenRead? || pc.AcqExWokenCas? || pc.TryExRead? || pc.TryExOwn? then 2
      else if pc.HoldEx? || pc.RelExRead? || pc.RelExHandOff? || pc.RelExPlain? then 1
      else 0
    case Shared =>
      if pc.AcqShRead? || pc.AcqShFirst? || pc.AcqShJoin? || pc.AcqShEnsure? || pc.AcqShPublish?
        || pc.AcqShQueue? then 3
      else if pc.AcqShBlocked? || pc.TryShRead? || pc.TryShFirst? || pc.TryShJoin? then 2
      else if pc.HoldSh? || pc.RelShRead? || pc.RelShLeave? || pc.RelShHandOff? || pc.RelShLast? then 1
      else 0
    case Steps(value) => StepsLeft(pc, value)
  }

  /** A thread whose copy of the word is old has to read it again first. */
  function StepsLeft(pc: PC, value: Word): nat {
    if AtCas(pc) then if pc.v == value then 3 else 7
    else if pc.AcqExEnsure? || pc.AcqShEnsure? then if pc.v == value then 5 else 9
    else if pc.AcqExPublish? || pc.AcqShPublish? then if pc.v == value then 4 else 8
    else if pc.SignalEx? || pc.RelExSignalShared? then 1
    else if pc.HoldEx? || pc.HoldSh? || pc.AcqExBlocked? then 7
    else if pc.AcqShBlocked? || pc.Idle? then 0
    else 6
  }

  function Total(ts: seq<PC>, g: Gauge): nat {
    if ts == [] then 0 else Left(ts[0], g) + Total(ts[1..], g)
  }

  lemma {:induction false} TotalUpdate(ts: seq<PC>, t: nat, pc: PC, g: Gauge)
    requires t < |ts|
    ensures Total(ts[t := pc], g) == Total(ts, g) - Left(ts[t], g) + Left(pc, g)
  {
    if t == 0 {
      assert ts[0 := pc][1..] == ts[1..];
    } else {
      assert ts[t := pc][1..] == ts[1..][t - 1 := pc];
      TotalUpdate(ts[1..], t - 1, pc, g);
    }
  }

  /** Permits for shared threads, posted or owed. */
  function Permits(s: State): nat { s.shPermits + Sum(s.threads, ShSignals) }

  /** The lexicographic order of the rank. */
  predicate Lower(s': State, s: State) {
    var a', a := Total(s'.threads, Exclusive), Total(s.threads, Exclusive);
    var b', b := Permits(s'), Permits(s);
    var c', c := Total(s'.threads, Shared), Total(s.threads, Shared);
    var d', d := Total(s'.threads, Steps(s'.value)), Total(s.threads, Steps(s.value));
    a' < a || (a' == a && (b' < b || (b' == b && (c' < c || (c' == c && d' < d)))))
  }

  /** The same order on what one thread contributes. */
  predicate LowerAt(pc': PC, pc: PC, permits: int, quiet: bool, value: Word) {
    var a', a := Left(pc', Exclusive), Left(pc, Exclusive);
    var b := Weight(pc', ShSignals) - Weight(pc, ShSignals) + permits;
    var c', c := Left(pc', Shared), Left(pc, Shared);
    a' < a || (a' == a && (b < 0 || (b == 0 && (c' < c
    || (c' == c && quiet && StepsLeft(pc', value) < StepsLeft(pc, value))))))
  }

  lemma LowerByOne(s: State, t: nat, pc: PC, s': State)
    requires t < |s.threads| && s'.threads == s.threads[t := pc]
    requires LowerAt(pc, s.threads[t], s'.shPermits - s.shPermits, s'.value == s.value, s.value)
    ensures Lower(s', s)
  {
    hide Sum, Weight, StepsLeft, Total;
    SumUpdate(s.threads, t, pc, ShSignals);
    TotalUpdate(s.threads, t, pc, Exclusive);
    TotalUpdate(s.threads, t, pc, Shared);
    TotalUpdate(s.threads, t, pc, Steps(s.value));
  }

  // --------------------------------------------------------------- one step

  /** A thread that can move: it is neither idle nor waiting for a permit that is not there. */
  predicate Enabled(s: State, t: nat)
    requires t < |s.threads|
  {
    var pc := s.threads[t];
    pc != Idle && !(pc.AcqExBlocked? && s.exPermits == 0) && !(pc.AcqShBlocked? && s.shPermits == 0)
  }

  lemma LookDescends(pc: PC, value: Word, c: Choice)
    requires !AtCas(pc) && !AtSemaphore(pc) && !AtEvent(pc) && pc != Idle
    ensures LowerAt(Look(pc, value, c), pc, 0, true, value) || (c.spinning && Look(pc, value, c) == pc)
  {
    hide Owned, Waking, SharedOwners, SharedWaiters, ExclusiveWaiters;
  }

  lemma ExchangeDescends(pc: PC, value: Word)
    requires AtCas(pc)
    ensures LowerAt(WonPC(pc), pc, 0, false, value)
    ensures pc.v != value ==> LowerAt(LostPC(pc), pc, 0, true, value)
  {
    hide Owned, Waking, SharedOwners, SharedWaiters, ExclusiveWaiters;
  }

  /** A permit taken or given, or nothing at all. */
  lemma SemaphoreDescends(s: State, t: nat)
    requires t < |s.threads| && AtSemaphore(s.threads[t])
    ensures var s' := Semaphore(s, t); if Enabled(s, t) then Lower(s', s) else s' == s
  {
    hide Sum, Total, Lower;
    var s' := Semaphore(s, t);
    if Enabled(s, t) {
      assert s'.threads == s.threads[t := s'.threads[t]];
      LowerByOne(s, t, s'.threads[t], s');
    }
  }

  lemma EventDescends(s: State, t: nat)
    requires t < |s.threads| && AtEvent(s.threads[t])
    ensures Lower(EnsureEvent(s, t), s)
  {
    hide Sum, Total, Lower;
    var s' := EnsureEvent(s, t);
    LowerByOne(s, t, s'.threads[t], s');
  }

  lemma ExchangeLowers(s: State, t: nat)
    requires t < |s.threads| && AtCas(s.threads[t])
    ensures Lower(Exchange(s, t), s)
  {
    hide Sum, Total, Lower, Left, Weight, StepsLeft, WonPC, LostPC, Desired, Wrap, AtCas;
    var s' := Exchange(s, t);
    ExchangeDescends(s.threads[t], s.value);
    LowerByOne(s, t, s'.threads[t], s');
  }

  /** Every step that changes anything lowers the rank, and a thread that can move and does not
      spin changes something. */
  lemma StepDescends(s: State, t: nat, c: Choice)
    requires t < |s.threads| && s.threads[t] != Idle
    ensures var s' := Next(s, t, c); Lower(s', s) || (s' == s && (c.spinning || !Enabled(s, t)))
  {
    hide Lower, LowerAt, Look, Exchange, Semaphore, EnsureEvent;
    var pc := s.threads[t];
    if AtCas(pc) {
      ExchangeLowers(s, t);
    } else if AtSemaphore(pc) {
      SemaphoreDescends(s, t);
    } else if AtEvent(pc) {
      EventDescends(s, t);
    } else {
      LookDescends(pc, s.value, c);
      var pc' := Look(pc, s.value, c);
      if pc' == pc {
        assert s.threads[t := pc] == s.threads;
        NothingLower(pc, s.value);
      } else {
        LowerByOne(s, t, pc', Next(s, t, c));
      }
    }
  }

  lemma NothingLower(pc: PC, value: Word)
    ensures !LowerAt(pc, pc, 0, true, value)
  {
  }

  // ----------------------------------------------------------- nobody is stuck

  /** While a thread is not idle, some thread can move. */
  lemma SomebodyEnabled(s: State, t: nat) returns (u: nat)
    requires Inv(s) && t < |s.threads| && s.threads[t] != Idle
    ensures u < |s.threads| && Enabled(s, u)
  {
    hide Inv;
    if Enabled(s, t) { u := t; } else { u := SomebodyObliged(s, t); }
  }

  // ---------------------------------------------------------------- the theorem

  lemma FinishKeepsInv(s: State, e: Event)
    requires Inv(s) && |s.threads| <= MAX_THREADS
    ensures Inv(Finish(s, e)) && (Finish(s, e) == s || Lower(Finish(s, e), s))
  {
    hide Inv, Next, Lower;
    if e.thread < |s.threads| && s.threads[e.thread] != Idle {
      StepKeepsInv(s, e.thread, e.choice);
      StepDescends(s, e.thread, e.choice);
    }
  }

  /** From any state that satisfies the invariant, a finished crowd gets to rest. */
  lemma {:induction false} Rests(s: State, schedule: nat -> Event, from: nat) returns (k: nat)
    requires Inv(s) && |s.threads| <= MAX_THREADS && Fair(schedule, |s.threads|)
    ensures AllIdle(After(s, schedule, from, k))
    decreases Total(s.threads, Exclusive), Permits(s), Total(s.threads, Shared), Total(s.threads, Steps(s.value)), 1, 0
  {
    hide Inv, Total, Permits, Sum;
    if AllIdle(s) {
      k := 0;
    } else {
      var t :| 0 <= t < |s.threads| && s.threads[t] != Idle;
      var u := SomebodyEnabled(s, t);
      assert TurnComes(schedule, u, from);
      var j: nat :| from <= j && schedule(j).thread == u && !schedule(j).choice.spinning;
      k := RestsFrom(s, schedule, from, j);
    }
  }

  /** The same, if the thread that has its turn at `j` can move now. */
  lemma {:induction false} RestsFrom(s: State, schedule: nat -> Event, from: nat, j: nat) returns (k: nat)
    requires Inv(s) && |s.threads| <= MAX_THREADS && Fair(schedule, |s.threads|)
    requires from <= j && schedule(j).thread < |s.threads| && Enabled(s, schedule(j).thread)
      && !schedule(j).choice.spinning
    ensures AllIdle(After(s, schedule, from, k))
    decreases Total(s.threads, Exclusive), Permits(s), Total(s.threads, Shared), Total(s.threads, Steps(s.value)),
      0, j - from
  {
    hide Inv, Total, Permits, Sum, Next;
    var e := schedule(from);
    var s' := Finish(s, e);
    FinishKeepsInv(s, e);
    if Lower(s', s) {
      k := Rests(s', schedule, from + 1);
    } else {
      if j == from { StepDescends(s, e.thread, e.choice); }
      k := RestsFrom(s', schedule, from + 1, j);
    }
    k := k + 1;
  }

  /** After any run of at most 1023 threads, if no thread starts another operation and the
      schedule is fair, every operation is completed: each blocked thread is woken and gets
      the lock, each owner releases it, and the lock is as new. */
  lemma EverybodyFinishes(n: nat, run: seq<Event>, schedule: nat -> Event) returns (k: nat)
    requires WithinLimit(n, run) && Fair(schedule, n)
    ensures var s := After(Run(n, run), schedule, 0, k);
      AllIdle(s) && s.value == 0 && s.exPermits == 0 && s.shPermits == 0
  {
    hide Inv, Next;
    RunKeepsInv(n, run);
    k := Rests(Run(n, run), schedule, 0);
    AfterKeepsInv(Run(n, run), schedule, 0, k);
    RestIsZero(After(Run(n, run), schedule, 0, k));
  }

  lemma {:induction false} AfterKeepsInv(s: State, schedule: nat -> Event, from: nat, k: nat)
    requires Inv(s) && |s.threads| <= MAX_THREADS
    ensures Inv(After(s, schedule, from, k))
    decreases k
  {
    hide Inv, Next;
    if k > 0 {
      FinishKeepsInv(s, schedule(from));
      AfterKeepsInv(Finish(s, schedule(from)), schedule, from + 1, k - 1);
    }
  }

  /** Such schedules exist: the threads in turn. */
  lemma InTurnIsFair(n: nat)
    requires n > 0
    ensures Fair((i: nat) => Event(i % n, Choice(AcquireShared, false)), n)
  {
    var schedule := (i: nat) => Event(i % n, Choice(AcquireShared, false));
    forall t: nat, i: nat | t < n ensures TurnComes(schedule, t, i) {
      Multiple(i, n, t);
      var j := i * n + t;
      assert i <= j && schedule(j).thread == t && !schedule(j).choice.spinning;
    }
  }

  lemma {:induction false} Multiple(i: nat, n: nat, t: nat)
    requires t < n
    ensures i <= i * n + t && (i * n + t) % n == t
  {
    if i > 0 {
      Multiple(i - 1, n, t);
      assert i * n + t == (i - 1) * n + t + n;
      OnceMore((i - 1) * n + t, n);
    }
  }

  lemma OnceMore(x: nat, n: nat)
    requires n > 0
    ensures (x + n) % n == x % n
  {
    Words.Remainder(x + n, n, x / n + 1, x % n);
  }

  // ------------------------------------------------------- a crowd that goes on

  /** Threads 0 and 1 want the lock exclusively for ever, and thread 2 wants to share it. */
  function Turn(t: nat): Event { Event(t, Choice(if t == 2 then AcquireShared else AcquireExclusive, false)) }

  function Turns(t: nat, k: nat): seq<Event> { if k == 0 then [] else Turns(t, k - 1) + [Turn(t)] }

  /** Thread `t` moves `k` times. */
  function Moved(s: State, t: nat, k: nat): (s': State)
    requires t < |s.threads|
    ensures |s'.threads| == |s.threads|
    decreases k
  {
    if k == 0 then s else Next(Moved(s, t, k - 1), t, Turn(t).choice)
  }

  ghost predicate Reaches(schedule: seq<Event>, s: State) { WithinLimit(3, schedule) && Run(3, schedule) == s }

  lemma {:induction false} ReachesMoved(schedule: seq<Event>, s: State, t: nat, k: nat)
    requires t < 3 == |s.threads| && Reaches(schedule, s)
    ensures Reaches(schedule + Turns(t, k), Moved(s, t, k))
  {
    hide Run, Next;
    if k == 0 {
      assert schedule + Turns(t, k) == schedule;
    } else {
      ReachesMoved(schedule, s, t, k - 1);
      FastLockLimit.RunOne(3, schedule + Turns(t, k - 1), Turn(t));
      assert schedule + Turns(t, k) == schedule + Turns(t, k - 1) + [Turn(t)];
    }
  }

  /** The owner `a` hands the lock to the other one, `b`, and queues again; `b` takes it. */
  function Round(schedule: seq<Event>, a: nat, b: nat): seq<Event> {
    schedule + Turns(a, 4) + Turns(a, 4) + Turns(b, 3) + Turns(2, 1)
  }

  /** Thread `a` owns the lock, the other of 0 and 1 is queued, and so is thread 2. */
  function Contest(a: nat): State {
    Among(0x40_1001, 0, a, HoldEx, AcqExBlocked)
  }

  function HandedOver(a: nat): State { Among(0x1002, 1, a, Idle, AcqExBlocked) }

  function BothQueued(a: nat): State { Among(0x40_1002, 1, a, AcqExBlocked, AcqExBlocked) }

  function Among(value: Word, permits: nat, a: nat, pcA: PC, pcB: PC): State {
    State(value, 2, 1, permits, 0, 3, if a == 0 then [pcA, pcB, AcqShBlocked] else [pcB, pcA, AcqShBlocked])
  }

  lemma ContestWords()
    ensures Decode(0) == Fields(0, 0, 0, 0, 0) && Decode(1) == Fields(1, 0, 0, 0, 0)
    ensures Decode(0x1001) == Fields(1, 0, 0, 1, 0) && Decode(0x1002) == Fields(0, 1, 0, 1, 0)
    ensures Decode(0x40_1001) == Fields(1, 0, 0, 1, 1) && Decode(0x40_1002) == Fields(0, 1, 0, 1, 1)
  {
    hide Owned, Waking, SharedOwners, SharedWaiters, ExclusiveWaiters;
    DecodeEncode(Fields(0, 0, 0, 0, 0));
    DecodeEncode(Fields(1, 0, 0, 0, 0));
    DecodeEncode(Fields(1, 0, 0, 1, 0));
    DecodeEncode(Fields(0, 1, 0, 1, 0));
    DecodeEncode(Fields(1, 0, 0, 1, 1));
    DecodeEncode(Fields(0, 1, 0, 1, 1));
  }

  lemma NoMove(s: State, t: nat)
    requires t < |s.threads|
    ensures Moved(s, t, 0) == s
  {
  }

  lemma OneMore(s: State, t: nat, k: nat, s1: State, s2: State)
    requires t < |s.threads| && Moved(s, t, k) == s1 && Next(s1, t, Turn(t).choice) == s2
    ensures Moved(s, t, k + 1) == s2
  {
  }

  lemma HandsOff(a: nat)
    requires a < 2
    ensures Moved(Contest(a), a, 4) == HandedOver(a)
  {
    ContestWords();
    hide Owned, Waking, SharedOwners, SharedWaiters, ExclusiveWaiters, Moved;
    var s0 := Contest(a);
    var s1 := Among(0x40_1001, 0, a, RelExRead, AcqExBlocked);
    var s2 := Among(0x40_1001, 0, a, RelExHandOff(0x40_1001), AcqExBlocked);
    var s3 := Among(0x1002, 0, a, SignalEx, AcqExBlocked);
    var s4 := HandedOver(a);
    NoMove(s0, a);
    OneMore(s0, a, 0, s0, s1);
    OneMore(s0, a, 1, s1, s2);
    OneMore(s0, a, 2, s2, s3);
    OneMore(s0, a, 3, s3, s4);
  }

  lemma QueuesAgain(a: nat)
    requires a < 2
    ensures Moved(HandedOver(a), a, 4) == BothQueued(a)
  {
    ContestWords();
    hide Owned, Waking, SharedOwners, SharedWaiters, ExclusiveWaiters, Moved;
    var s0 := HandedOver(a);
    var s1 := Among(0x1002, 1, a, AcqExRead, AcqExBlocked);
    var s2 := Among(0x1002, 1, a, AcqExEnsure(0x1002), AcqExBlocked);
    var s3 := Among(0x1002, 1, a, AcqExQueue(0x1002), AcqExBlocked);
    var s4 := BothQueued(a);
    NoMove(s0, a);
    OneMore(s0, a, 0, s0, s1);
    OneMore(s0, a, 1, s1, s2);
    OneMore(s0, a, 2, s2, s3);
    OneMore(s0, a, 3, s3, s4);
  }

  lemma TakesOver(b: nat)
    requires b < 2
    ensures Moved(BothQueued(b), b, 3) == Contest(b)
  {
    ContestWords();
    hide Owned, Waking, SharedOwners, SharedWaiters, ExclusiveWaiters, Moved;
    var s0 := BothQueued(b);
    var s1 := Among(0x40_1002, 0, b, AcqExWokenRead, AcqExBlocked);
    var s2 := Among(0x40_1002, 0, b, AcqExWokenCas(0x40_1002), AcqExBlocked);
    var s3 := Contest(b);
    NoMove(s0, b);
    OneMore(s0, b, 0, s0, s1);
    OneMore(s0, b, 1, s1, s2);
    OneMore(s0, b, 2, s2, s3);
  }

  lemma StillWaits(b: nat)
    requires b < 2
    ensures Moved(Contest(b), 2, 1) == Contest(b)
  {
    NoMove(Contest(b), 2);
    OneMore(Contest(b), 2, 0, Contest(b), Contest(b));
  }

  /** A round gives the lock to the other thread and leaves thread 2 where it is. */
  lemma OneRound(schedule: seq<Event>, a: nat)
    requires a < 2 && Reaches(schedule, Contest(a))
    ensures Reaches(Round(schedule, a, 1 - a), Contest(1 - a))
  {
    var b := 1 - a;
    assert |Contest(a).threads| == |Contest(b).threads| == 3;
    hide Reaches, Run, Next, Turns, Moved, Contest, Turn;
    var s1 := schedule + Turns(a, 4);
    var s2 := s1 + Turns(a, 4);
    var s3 := s2 + Turns(b, 3);
    HandsOff(a);
    ReachesMoved(schedule, Contest(a), a, 4);
    QueuesAgain(a);
    ReachesMoved(s1, HandedOver(a), a, 4);
    TakesOver(b);
    assert BothQueued(a) == BothQueued(b);
    ReachesMoved(s2, BothQueued(b), b, 3);
    StillWaits(b);
    ReachesMoved(s3, Contest(b), 2, 1);
  }

  /** Thread 0 acquires, thread 2 and thread 1 queue. */
  function Opening(): seq<Event> { [] + Turns(0, 3) + Turns(2, 5) + Turns(1, 5) }

  function Rounds(k: nat): seq<Event> {
    if k == 0 then Opening() else Round(Rounds(k - 1), (k - 1) % 2, k % 2)
  }

  lemma Opens()
    ensures Reaches(Opening(), Contest(0))
  {
    assert Reaches([], Init(3)) && |Init(3).threads| == 3;
    hide Reaches, Run, Next, Turns, Moved, Contest, Turn, Init;
    Acquires();
    ReachesMoved([], Init(3), 0, 3);
    SharedQueues();
    ReachesMoved([] + Turns(0, 3), OneOwner(), 2, 5);
    ExclusiveQueues();
    ReachesMoved([] + Turns(0, 3) + Turns(2, 5), OneWaiter(), 1, 5);
  }

  function OneOwner(): State { State(1, 0, 0, 0, 0, 1, [HoldEx, Idle, Idle]) }

  function OneWaiter(): State { State(0x1001, 0, 1, 0, 0, 2, [HoldEx, Idle, AcqShBlocked]) }

  lemma Acquires()
    ensures Moved(Init(3), 0, 3) == OneOwner()
  {
    ContestWords();
    hide Owned, Waking, SharedOwners, SharedWaiters, ExclusiveWaiters, Moved;
    var s0 := Init(3);
    var s1 := State(0, 0, 0, 0, 0, 1, [AcqExRead, Idle, Idle]);
    var s2 := State(0, 0, 0, 0, 0, 1, [AcqExOwn(0), Idle, Idle]);
    var s3 := OneOwner();
    NoMove(s0, 0);
    OneMore(s0, 0, 0, s0, s1);
    OneMore(s0, 0, 1, s1, s2);
    OneMore(s0, 0, 2, s2, s3);
  }

  lemma SharedQueues()
    ensures Moved(OneOwner(), 2, 5)
         == OneWaiter()
  {
    ContestWords();
    hide Owned, Waking, SharedOwners, SharedWaiters, ExclusiveWaiters, Moved;
    var s0 := OneOwner();
    var s1 := State(1, 0, 0, 0, 0, 1, [HoldEx, Idle, AcqShRead]);
    var s2 := State(1, 0, 0, 0, 0, 1, [HoldEx, Idle, AcqShEnsure(1)]);
    var s3 := State(1, 0, 0, 0, 0, 2, [HoldEx, Idle, AcqShPublish(1, 1)]);
    var s4 := State(1, 0, 1, 0, 0, 2, [HoldEx, Idle, AcqShQueue(1)]);
    var s5 := OneWaiter();
    NoMove(s0, 2);
    OneMore(s0, 2, 0, s0, s1);
    OneMore(s0, 2, 1, s1, s2);
    OneMore(s0, 2, 2, s2, s3);
    OneMore(s0, 2, 3, s3, s4);
    OneMore(s0, 2, 4, s4, s5);
  }

  lemma ExclusiveQueues()
    ensures Moved(OneWaiter(), 1, 5) == Contest(0)
  {
    ContestWords();
    hide Owned, Waking, SharedOwners, SharedWaiters, ExclusiveWaiters, Moved;
    var s0 := OneWaiter();
    var s1 := State(0x1001, 0, 1, 0, 0, 2, [HoldEx, AcqExRead, AcqShBlocked]);
    var s2 := State(0x1001, 0, 1, 0, 0, 2, [HoldEx, AcqExEnsure(0x1001), AcqShBlocked]);
    var s3 := State(0x1001, 0, 1, 0, 0, 3, [HoldEx, AcqExPublish(0x1001, 2), AcqShBlocked]);
    var s4 := State(0x1001, 2, 1, 0, 0, 3, [HoldEx, AcqExQueue(0x1001), AcqShBlocked]);
    var s5 := Contest(0);
    NoMove(s0, 1);
    OneMore(s0, 1, 0, s0, s1);
    OneMore(s0, 1, 1, s1, s2);
    OneMore(s0, 1, 2, s2, s3);
    OneMore(s0, 1, 3, s3, s4);
    OneMore(s0, 1, 4, s4, s5);
  }

  /** Without an end to the arrivals a thread may wait for ever: however often all three have
      had their turns, the lock has gone from 0 to 1 and back, and thread 2 is still blocked. */
  lemma SharedStarves(k: nat)
    ensures WithinLimit(3, Rounds(k)) && Run(3, Rounds(k)) == Contest(k % 2)
    ensures Contest(k % 2).threads[2].AcqShBlocked? && Contest(k % 2).threads[k % 2].HoldEx?
  {
    hide Run, Rounds, Contest;
    Alternates(k);
    OwnerAndWaiter(k % 2);
  }

  lemma OwnerAndWaiter(a: nat)
    requires a < 2
    ensures |Contest(a).threads| == 3 && Contest(a).threads[2].AcqShBlocked? && Contest(a).threads[a].HoldEx?
  {
  }

  lemma {:induction false} Alternates(k: nat)
    ensures Reaches(Rounds(k), Contest(k % 2))
  {
    hide Reaches, Opening, Round;
    if k == 0 {
      Opens();
    } else {
      Alternates(k - 1);
      OneRound(Rounds(k - 1), (k - 1) % 2);
    }
  }
}
