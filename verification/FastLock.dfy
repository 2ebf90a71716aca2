/** The fast reader/writer lock of phlib/fastlock.c as a transition system.

    One 32-bit word packs an owned bit, a hand-off ("waking") bit and three
    10-bit counters.  Every read of the word, every compare-exchange, every
    wait on a semaphore and every release of a semaphore is a step of its own,
    so any interleaving of up to 1023 threads is a run of this system. */
module FastLock {

  // ---------------------------------------------------------------- the word

  const OWNED := 0x1
  const EXCLUSIVE_WAKING := 0x2
  const SHARED_OWNERS_INC := 0x4
  const SHARED_WAITERS_INC := 0x1000
  const EXCLUSIVE_WAITERS_INC := 0x40_0000
  const FIELD := 0x400            // one more than the 10-bit mask 0x3ff
  const WORD := 0x1_0000_0000
  const MAX_THREADS := 1023

  type Word = v: int | 0 <= v < WORD

  function Owned(v: Word): nat { v % 2 }
  function Waking(v: Word): nat { v / 2 % 2 }
  function SharedOwners(v: Word): nat { v / SHARED_OWNERS_INC % FIELD }
  function SharedWaiters(v: Word): nat { v / SHARED_WAITERS_INC % FIELD }
  function ExclusiveWaiters(v: Word): nat { v / EXCLUSIVE_WAITERS_INC % FIELD }

  /** `value & PH_LOCK_EXCLUSIVE_MASK` is non-zero. */
  predicate ExclusiveMask(v: Word) { Waking(v) != 0 || ExclusiveWaiters(v) != 0 }

  /** ULONG arithmetic wraps. */
  function Wrap(x: int): Word { x % WORD }

  /** `value & ~(PH_LOCK_OWNED | (SHARED_WAITERS_MASK << SHARED_WAITERS_SHIFT))` */
  function ClearOwnedAndSharedWaiters(v: Word): Word {
    v - Owned(v) - SharedWaiters(v) * SHARED_WAITERS_INC
  }

  /** The five fields of a word. */
  datatype Fields = Fields(owned: nat, waking: nat, owners: nat, sharedWaiters: nat, exclusiveWaiters: nat)

  function Decode(v: Word): Fields {
    Fields(Owned(v), Waking(v), SharedOwners(v), SharedWaiters(v), ExclusiveWaiters(v))
  }

  function Encode(f: Fields): int {
    f.owned + f.waking * EXCLUSIVE_WAKING + f.owners * SHARED_OWNERS_INC
    + f.sharedWaiters * SHARED_WAITERS_INC + f.exclusiveWaiters * EXCLUSIVE_WAITERS_INC
  }

  predicate Fit(f: Fields) {
    f.owned <= 1 && f.waking <= 1 && f.owners < FIELD && f.sharedWaiters < FIELD && f.exclusiveWaiters < FIELD
  }

  /** The word is exactly its five fields: nothing else fits in 32 bits. */
  lemma EncodeDecode(v: Word)
    ensures Fit(Decode(v)) && Encode(Decode(v)) == v
  {
    assert v / EXCLUSIVE_WAITERS_INC < FIELD;
    assert v / 2 / 2 == v / 4;
    assert v / 4 / FIELD == v / SHARED_WAITERS_INC;
    assert v / SHARED_WAITERS_INC / FIELD == v / EXCLUSIVE_WAITERS_INC;
  }

  /** Field values that fit are read back unchanged, so none carries into its neighbour. */
  lemma DecodeEncode(f: Fields)
    requires Fit(f)
    ensures 0 <= Encode(f) < WORD && Decode(Encode(f)) == f && Wrap(Encode(f)) == Encode(f)
  {
    var v: Word := Encode(f);
    assert v / 2 == f.waking + 2 * f.owners + 0x800 * f.sharedWaiters + 0x20_0000 * f.exclusiveWaiters;
    assert v / SHARED_OWNERS_INC == f.owners + FIELD * f.sharedWaiters + 0x10_0000 * f.exclusiveWaiters;
    assert v / SHARED_WAITERS_INC == f.sharedWaiters + FIELD * f.exclusiveWaiters;
    assert v / EXCLUSIVE_WAITERS_INC == f.exclusiveWaiters;
  }

  // ------------------------------------------------------------- the threads

  /** Where a thread stands.  `v` is its local copy of the word, taken by the last read;
      `h` is a semaphore it created but has not published; `n` counts permits it owes. */
  datatype PC =
    | Idle
    // PhfAcquireFastLockExclusive
    | AcqExRead
    | AcqExOwn(v: Word)
    | AcqExEnsure(v: Word)
    | AcqExPublish(v: Word, h: nat)
    | AcqExQueue(v: Word)
    | AcqExBlocked
    | AcqExWokenRead
    | AcqExWokenCas(v: Word)
    | HoldEx
    // PhfAcquireFastLockShared
    | AcqShRead
    | AcqShFirst(v: Word)
    | AcqShJoin(v: Word)
    | AcqShEnsure(v: Word)
    | AcqShPublish(v: Word, h: nat)
    | AcqShQueue(v: Word)
    | AcqShBlocked
    | HoldSh
    // PhfReleaseFastLockExclusive
    | RelExRead
    | RelExHandOff(v: Word)
    | RelExPlain(v: Word)
    | RelExSignalShared(n: nat)
    // PhfReleaseFastLockShared
    | RelShRead
    | RelShLeave(v: Word)
    | RelShHandOff(v: Word)
    | RelShLast(v: Word)
    // the NtReleaseSemaphore(ExclusiveWakeEvent, 1) both releases may end with
    | SignalEx
    // PhfTryAcquireFastLockExclusive, PhfTryAcquireFastLockShared
    | TryExRead
    | TryExOwn(v: Word)
    | TryShRead
    | TryShFirst(v: Word)
    | TryShJoin(v: Word)

  /** A lock in use: its word, the two event fields (0 is NULL) with the permits of the
      published semaphores, the next unused handle, and one program counter per thread. */
  datatype State = State(value: Word, exEvent: nat, shEvent: nat, exPermits: nat, shPermits: nat,
                         nextHandle: nat, threads: seq<PC>)

  datatype Operation = AcquireExclusive | AcquireShared | TryExclusive | TryShared

  /** What the program text leaves open at a step: the operation an idle thread starts,
      and whether the spin count is already used up. */
  datatype Choice = Choice(op: Operation, spinning: bool)

  function Init(n: nat): State {
    State(0, 0, 0, 0, 0, 1, seq(n, _ => Idle))
  }

  function Goto(s: State, t: nat, pc: PC): State
    requires t < |s.threads|
  {
    s.(threads := s.threads[t := pc])
  }

  /** Program counters at a compare-exchange on the word. */
  predicate AtCas(pc: PC) {
    pc.AcqExOwn? || pc.AcqExQueue? || pc.AcqExWokenCas? || pc.AcqShFirst? || pc.AcqShJoin? || pc.AcqShQueue?
    || pc.RelExHandOff? || pc.RelExPlain? || pc.RelShLeave? || pc.RelShHandOff? || pc.RelShLast?
    || pc.TryExOwn? || pc.TryShFirst? || pc.TryShJoin?
  }

  /** The word a compare-exchange wants to store. */
  function Desired(pc: PC): int
    requires AtCas(pc)
  {
    var v := pc.v;
    match pc
    case AcqExOwn(_) => v + OWNED
    case TryExOwn(_) => v + OWNED
    case AcqExQueue(_) => v + EXCLUSIVE_WAITERS_INC
    case AcqExWokenCas(_) => v + OWNED - EXCLUSIVE_WAKING
    case AcqShFirst(_) => v + OWNED + SHARED_OWNERS_INC
    case TryShFirst(_) => v + OWNED + SHARED_OWNERS_INC
    case AcqShJoin(_) => v + SHARED_OWNERS_INC
    case TryShJoin(_) => v + SHARED_OWNERS_INC
    case AcqShQueue(_) => v + SHARED_WAITERS_INC
    case RelExHandOff(_) => v - OWNED + EXCLUSIVE_WAKING - EXCLUSIVE_WAITERS_INC
    case RelExPlain(_) => ClearOwnedAndSharedWaiters(v)
    case RelShLeave(_) => v - SHARED_OWNERS_INC
    case RelShHandOff(_) => v - OWNED + EXCLUSIVE_WAKING - SHARED_OWNERS_INC - EXCLUSIVE_WAITERS_INC
    case RelShLast(_) => v - OWNED - SHARED_OWNERS_INC
  }

  /** Where a thread goes when its compare-exchange succeeds. */
  function WonPC(pc: PC): PC
    requires AtCas(pc)
  {
    match pc
    case AcqExOwn(_) => HoldEx
    case TryExOwn(_) => HoldEx
    case AcqExQueue(_) => AcqExBlocked
    case AcqExWokenCas(_) => HoldEx
    case AcqShFirst(_) => HoldSh
    case TryShFirst(_) => HoldSh
    case AcqShJoin(_) => HoldSh
    case TryShJoin(_) => HoldSh
    case AcqShQueue(_) => AcqShBlocked
    case RelExHandOff(_) => SignalEx
    case RelExPlain(v) => if SharedWaiters(v) != 0 then RelExSignalShared(SharedWaiters(v)) else Idle
    case RelShLeave(_) => Idle
    case RelShHandOff(_) => SignalEx
    case RelShLast(_) => Idle
  }

  /** Where it goes when somebody else changed the word: back to the read, or out of a try. */
  function LostPC(pc: PC): PC
    requires AtCas(pc)
  {
    match pc
    case AcqExOwn(_) => AcqExRead
    case AcqExQueue(_) => AcqExRead
    case AcqExWokenCas(_) => AcqExWokenRead
    case AcqShFirst(_) => AcqShRead
    case AcqShJoin(_) => AcqShRead
    case AcqShQueue(_) => AcqShRead
    case RelExHandOff(_) => RelExRead
    case RelExPlain(_) => RelExRead
    case RelShLeave(_) => RelShRead
    case RelShHandOff(_) => RelShRead
    case RelShLast(_) => RelShRead
    case _ => Idle
  }

  /** _InterlockedCompareExchange. */
  function Exchange(s: State, t: nat): State
    requires t < |s.threads| && AtCas(s.threads[t])
  {
    var pc := s.threads[t];
    if s.value == pc.v then s.(value := Wrap(Desired(pc)), threads := s.threads[t := WonPC(pc)])
    else Goto(s, t, LostPC(pc))
  }

  /** The steps that only look at the word (or at nothing). */
  function Look(pc: PC, value: Word, c: Choice): PC {
    match pc
    case Idle => Start(c.op)
    case AcqExRead => AfterAcqExRead(value, c)
    case AcqExWokenRead => AcqExWokenCas(value)
    case HoldEx => RelExRead
    case AcqShRead => AfterAcqShRead(value, c)
    case HoldSh => RelShRead
    case RelExRead => if ExclusiveWaiters(value) != 0 then RelExHandOff(value) else RelExPlain(value)
    case RelShRead => AfterRelShRead(value)
    case TryExRead => if Owned(value) != 0 || Waking(value) != 0 then Idle else TryExOwn(value)
    case TryShRead => AfterTryShRead(value)
    case _ => pc
  }

  predicate AtSemaphore(pc: PC) {
    pc.AcqExBlocked? || pc.AcqShBlocked? || pc.SignalEx? || pc.RelExSignalShared?
  }

  /** NtWaitForSingleObject, which stutters while there is no permit, and NtReleaseSemaphore. */
  function Semaphore(s: State, t: nat): State
    requires t < |s.threads| && AtSemaphore(s.threads[t])
  {
    match s.threads[t]
    case AcqExBlocked =>
      if s.exPermits > 0 then Goto(s, t, AcqExWokenRead).(exPermits := s.exPermits - 1) else s
    case AcqShBlocked =>
      if s.shPermits > 0 then Goto(s, t, AcqShRead).(shPermits := s.shPermits - 1) else s
    case SignalEx => Goto(s, t, Idle).(exPermits := s.exPermits + 1)
    case RelExSignalShared(n) => Goto(s, t, Idle).(shPermits := s.shPermits + n)
  }

  predicate AtEvent(pc: PC) {
    pc.AcqExEnsure? || pc.AcqExPublish? || pc.AcqShEnsure? || pc.AcqShPublish?
  }

  /** PhpEnsureEventCreated: test the handle, create a semaphore, publish it or close it. */
  function EnsureEvent(s: State, t: nat): State
    requires t < |s.threads| && AtEvent(s.threads[t])
  {
    match s.threads[t]
    case AcqExEnsure(v) =>
      if s.exEvent != 0 then Goto(s, t, AcqExQueue(v))
      else Goto(s, t, AcqExPublish(v, s.nextHandle)).(nextHandle := s.nextHandle + 1)
    case AcqExPublish(v, h) =>
      Goto(s, t, AcqExQueue(v)).(exEvent := if s.exEvent == 0 then h else s.exEvent)
    case AcqShEnsure(v) =>
      if s.shEvent != 0 then Goto(s, t, AcqShQueue(v))
      else Goto(s, t, AcqShPublish(v, s.nextHandle)).(nextHandle := s.nextHandle + 1)
    case AcqShPublish(v, h) =>
      Goto(s, t, AcqShQueue(v)).(shEvent := if s.shEvent == 0 then h else s.shEvent)
  }

  /** One step of thread `t`. */
  function Next(s: State, t: nat, c: Choice): State
    requires t < |s.threads|
  {
    var pc := s.threads[t];
    if AtCas(pc) then Exchange(s, t)
    else if AtSemaphore(pc) then Semaphore(s, t)
    else if AtEvent(pc) then EnsureEvent(s, t)
    else Goto(s, t, Look(pc, s.value, c))
  }

  function Start(op: Operation): PC {
    match op
    case AcquireExclusive => AcqExRead
    case AcquireShared => AcqShRead
    case TryExclusive => TryExRead
    case TryShared => TryShRead
  }

  function AfterAcqExRead(v: Word, c: Choice): PC {
    if Owned(v) == 0 && Waking(v) == 0 then AcqExOwn(v)
    else if c.spinning then AcqExRead
    else AcqExEnsure(v)
  }

  function AfterAcqShRead(v: Word, c: Choice): PC {
    if Owned(v) == 0 && SharedOwners(v) == 0 && !ExclusiveMask(v) then AcqShFirst(v)
    else if Owned(v) != 0 && SharedOwners(v) > 0 && !ExclusiveMask(v) then AcqShJoin(v)
    else if c.spinning then AcqShRead
    else AcqShEnsure(v)
  }

  function AfterRelShRead(v: Word): PC {
    if SharedOwners(v) > 1 then RelShLeave(v)
    else if ExclusiveWaiters(v) != 0 then RelShHandOff(v)
    else RelShLast(v)
  }

  function AfterTryShRead(v: Word): PC {
    if ExclusiveMask(v) then Idle
    else if Owned(v) == 0 then TryShFirst(v)
    else if SharedOwners(v) != 0 then TryShJoin(v)
    else Idle
  }

  /** A run: any thread may be scheduled at any step. */
  datatype Event = Event(thread: nat, choice: Choice)

  ghost function Run(n: nat, schedule: seq<Event>): (s: State)
    requires forall e <- schedule :: e.thread < n
    ensures |s.threads| == n
    decreases |schedule|
  {
    if schedule == [] then Init(n)
    else
      var last := schedule[|schedule| - 1];
      Next(Run(n, schedule[..|schedule| - 1]), last.thread, last.choice)
  }

  // -------------------------------------------------------- counting threads

  /** What is counted about the threads. */
  datatype Meter = ExHolders | ShHolders | ExBlocked | ShBlocked | ExSignals | ShSignals | Woken

  function Weight(pc: PC, m: Meter): nat {
    match m
    case ExHolders => if pc.HoldEx? || pc.RelExRead? || pc.RelExHandOff? || pc.RelExPlain? then 1 else 0
    case ShHolders => if pc.HoldSh? || pc.RelShRead? || pc.RelShLeave? || pc.RelShHandOff? || pc.RelShLast? then 1
                      else 0
    case ExBlocked => if pc.AcqExBlocked? then 1 else 0
    case ShBlocked => if pc.AcqShBlocked? then 1 else 0
    case ExSignals => if pc.SignalEx? then 1 else 0
    case ShSignals => if pc.RelExSignalShared? then pc.n else 0
    case Woken => if pc.AcqExWokenRead? || pc.AcqExWokenCas? then 1 else 0
  }

  function Sum(ts: seq<PC>, m: Meter): nat {
    if ts == [] then 0 else Weight(ts[0], m) + Sum(ts[1..], m)
  }

  lemma {:induction false} SumUpdate(ts: seq<PC>, t: nat, pc: PC, m: Meter)
    requires t < |ts|
    ensures Sum(ts[t := pc], m) == Sum(ts, m) - Weight(ts[t], m) + Weight(pc, m)
  {
    if t == 0 {
      assert ts[0 := pc][1..] == ts[1..];
    } else {
      assert ts[t := pc][1..] == ts[1..][t - 1 := pc];
      SumUpdate(ts[1..], t - 1, pc, m);
    }
  }

  /** A thread not counted leaves room below the number of threads. */
  lemma {:induction false} SumBound(ts: seq<PC>, m: Meter)
    requires m != ShSignals
    ensures Sum(ts, m) <= |ts|
  {
    if ts != [] { SumBound(ts[1..], m); }
  }

  lemma {:induction false} SumMember(ts: seq<PC>, t: nat, m: Meter)
    requires t < |ts|
    ensures Sum(ts, m) >= Weight(ts[t], m)
  {
    if t > 0 { SumMember(ts[1..], t - 1, m); }
  }

  lemma {:induction false} SumPair(ts: seq<PC>, t: nat, u: nat, m: Meter)
    requires t < u < |ts|
    ensures Sum(ts, m) >= Weight(ts[t], m) + Weight(ts[u], m)
  {
    if t > 0 { SumPair(ts[1..], t - 1, u - 1, m); } else { SumMember(ts[1..], u - 1, m); }
  }

  lemma {:induction false} SumZero(ts: seq<PC>, m: Meter)
    requires forall pc <- ts :: Weight(pc, m) == 0
    ensures Sum(ts, m) == 0
  {
    if ts != [] { SumZero(ts[1..], m); }
  }

  lemma {:induction false} SumWitness(ts: seq<PC>, m: Meter) returns (t: nat)
    requires Sum(ts, m) > 0
    ensures t < |ts| && Weight(ts[t], m) > 0
  {
    if Weight(ts[0], m) > 0 { t := 0; } else { t := SumWitness(ts[1..], m); t := t + 1; }
  }

  // ----------------------------------------------------------- the invariant

  /** What a thread's program counter remembers about its copy of the word and the events. */
  predicate Local(pc: PC, exEvent: nat, shEvent: nat) {
    match pc
    case AcqExOwn(v) => Owned(v) == 0 && Waking(v) == 0
    case AcqExEnsure(v) => Owned(v) != 0 || Waking(v) != 0
    case AcqExPublish(v, h) => (Owned(v) != 0 || Waking(v) != 0) && h != 0
    case AcqExQueue(v) => (Owned(v) != 0 || Waking(v) != 0) && exEvent != 0
    case AcqShFirst(v) => Owned(v) == 0 && SharedOwners(v) == 0 && !ExclusiveMask(v)
    case AcqShJoin(v) => Owned(v) != 0 && SharedOwners(v) > 0 && !ExclusiveMask(v)
    case AcqShEnsure(v) => SharedMustWait(v)
    case AcqShPublish(v, h) => SharedMustWait(v) && h != 0
    case AcqShQueue(v) => SharedMustWait(v) && shEvent != 0
    case RelExHandOff(v) => ExclusiveWaiters(v) != 0
    case RelExPlain(v) => ExclusiveWaiters(v) == 0
    case RelShLeave(v) => SharedOwners(v) > 1
    case RelShHandOff(v) => SharedOwners(v) <= 1 && ExclusiveWaiters(v) != 0
    case RelShLast(v) => SharedOwners(v) <= 1 && ExclusiveWaiters(v) == 0
    case SignalEx => exEvent != 0
    case RelExSignalShared(_) => shEvent != 0
    case AcqExBlocked => exEvent != 0
    case AcqShBlocked => shEvent != 0
    case TryExOwn(v) => Owned(v) == 0 && Waking(v) == 0
    case TryShFirst(v) => Owned(v) == 0 && !ExclusiveMask(v)
    case TryShJoin(v) => Owned(v) != 0 && SharedOwners(v) != 0 && !ExclusiveMask(v)
    case _ => true
  }

  predicate SharedMustWait(v: Word) { MustWait(Decode(v)) }

  /** Neither branch of the shared acquire that takes the lock applies. */
  predicate MustWait(f: Fields) {
    var exclusive := f.waking != 0 || f.exclusiveWaiters != 0;
    !(f.owned == 0 && f.owners == 0 && !exclusive) && !(f.owned != 0 && f.owners > 0 && !exclusive)
  }

  /** The word agrees with the threads that own the lock. */
  predicate OwnersAgree(f: Fields, ts: seq<PC>) {
    && f.owners == Sum(ts, ShHolders)
    && f.owned == Sum(ts, ExHolders) + (if f.owners > 0 then 1 else 0)
    && f.owned + f.waking <= 1
  }

  /** Every blocked thread is still queued in the word, or its permit is owed or posted. */
  predicate WaitersAgree(f: Fields, ts: seq<PC>, exPermits: nat, shPermits: nat) {
    && Sum(ts, ExBlocked) == f.exclusiveWaiters + Sum(ts, ExSignals) + exPermits
    && Sum(ts, ShBlocked) == f.sharedWaiters + Sum(ts, ShSignals) + shPermits
    && f.waking == Sum(ts, ExSignals) + exPermits + Sum(ts, Woken)
  }

  /** Somebody will look at the queues again. */
  predicate QueuesWatched(f: Fields) {
    && (f.exclusiveWaiters > 0 ==> f.owned + f.waking == 1)
    && (f.sharedWaiters > 0 ==> (f.owned == 1 && f.owners == 0) || f.waking == 1 || f.exclusiveWaiters > 0)
  }

  predicate EventsCreated(f: Fields, s: State) {
    && (f.exclusiveWaiters > 0 ==> s.exEvent != 0)
    && (f.sharedWaiters > 0 ==> s.shEvent != 0)
    && s.nextHandle > 0
    && forall t :: 0 <= t < |s.threads| ==> Local(s.threads[t], s.exEvent, s.shEvent)
  }

  predicate InvWith(f: Fields, s: State) {
    && OwnersAgree(f, s.threads)
    && WaitersAgree(f, s.threads, s.exPermits, s.shPermits)
    && QueuesWatched(f)
    && EventsCreated(f, s)
  }

  predicate Inv(s: State) { InvWith(Decode(s.value), s) }

  // ------------------------------------------------- the invariant is kept

  lemma InitInv(n: nat)
    ensures Inv(Init(n))
  {
    var ts := Init(n).threads;
    SumZero(ts, ExHolders); SumZero(ts, ShHolders); SumZero(ts, ExBlocked); SumZero(ts, ShBlocked);
    SumZero(ts, ExSignals); SumZero(ts, ShSignals); SumZero(ts, Woken);
  }

  lemma Recount(ts: seq<PC>, t: nat, pc: PC)
    requires t < |ts|
    ensures forall m {:trigger Sum(ts[t := pc], m)} ::
      Sum(ts[t := pc], m) == Sum(ts, m) - Weight(ts[t], m) + Weight(pc, m)
    ensures forall m {:trigger Sum(ts, m)} :: Sum(ts, m) >= Weight(ts[t], m)
    ensures forall m {:trigger Sum(ts, m)} :: m != ShSignals && Weight(ts[t], m) == 0 ==> Sum(ts, m) < |ts|
  {
    forall m ensures Sum(ts[t := pc], m) == Sum(ts, m) - Weight(ts[t], m) + Weight(pc, m) {
      SumUpdate(ts, t, pc, m);
    }
    forall m ensures Sum(ts, m) >= Weight(ts[t], m) { SumMember(ts, t, m); }
    forall m | m != ShSignals && Weight(ts[t], m) == 0 ensures Sum(ts, m) < |ts| {
      Room(ts, t, m);
    }
  }

  lemma {:induction false} Room(ts: seq<PC>, t: nat, m: Meter)
    requires t < |ts| && m != ShSignals && Weight(ts[t], m) == 0
    ensures Sum(ts, m) < |ts|
  {
    if t == 0 { SumBound(ts[1..], m); } else { Room(ts[1..], t - 1, m); }
  }

  /** Moving a thread to a place with the same weights, the word unchanged. */
  lemma MoveKeepsInv(s: State, t: nat, pc: PC, s': State)
    requires Inv(s) && t < |s.threads|
    requires s'.value == s.value && s'.threads == s.threads[t := pc]
    requires s'.exPermits == s.exPermits && s'.shPermits == s.shPermits && s'.nextHandle >= s.nextHandle
    requires s.exEvent != 0 ==> s'.exEvent == s.exEvent
    requires s.shEvent != 0 ==> s'.shEvent == s.shEvent
    requires forall m :: Weight(s.threads[t], m) == Weight(pc, m)
    requires Local(pc, s'.exEvent, s'.shEvent)
    ensures Inv(s')
  {
    Recount(s.threads, t, pc);
    EventsKeptLocal(s, t, pc, s');
  }

  lemma EventsKeptLocal(s: State, t: nat, pc: PC, s': State)
    requires forall i :: 0 <= i < |s.threads| ==> Local(s.threads[i], s.exEvent, s.shEvent)
    requires t < |s.threads| && s'.threads == s.threads[t := pc]
    requires s.exEvent != 0 ==> s'.exEvent == s.exEvent
    requires s.shEvent != 0 ==> s'.shEvent == s.shEvent
    requires Local(pc, s'.exEvent, s'.shEvent)
    ensures forall i :: 0 <= i < |s'.threads| ==> Local(s'.threads[i], s'.exEvent, s'.shEvent)
  {
    forall i | 0 <= i < |s'.threads| ensures Local(s'.threads[i], s'.exEvent, s'.shEvent) {
      if i != t { assert Local(s.threads[i], s.exEvent, s.shEvent); }
    }
  }

  /** The word's fields change exactly as the thread's own contribution does. */
  predicate Balanced(f: Fields, pc: PC, f': Fields, pc': PC) {
    && f'.owners - f.owners == Weight(pc', ShHolders) - Weight(pc, ShHolders)
    && f'.exclusiveWaiters - f.exclusiveWaiters
       == Weight(pc', ExBlocked) - Weight(pc, ExBlocked) - Weight(pc', ExSignals) + Weight(pc, ExSignals)
    && f'.sharedWaiters - f.sharedWaiters
       == Weight(pc', ShBlocked) - Weight(pc, ShBlocked) - Weight(pc', ShSignals) + Weight(pc, ShSignals)
    && f'.waking - f.waking
       == Weight(pc', ExSignals) - Weight(pc, ExSignals) + Weight(pc', Woken) - Weight(pc, Woken)
    && (f'.owned - if f'.owners > 0 then 1 else 0) - (f.owned - if f.owners > 0 then 1 else 0)
       == Weight(pc', ExHolders) - Weight(pc, ExHolders)
  }

  lemma BalancedFits(f: Fields, ts: seq<PC>, t: nat, f': Fields, pc': PC, exPermits: nat, shPermits: nat)
    requires t < |ts| && OwnersAgree(f, ts) && WaitersAgree(f, ts, exPermits, shPermits)
    requires Balanced(f, ts[t], f', pc') && f'.owned + f'.waking <= 1
    ensures OwnersAgree(f', ts[t := pc']) && WaitersAgree(f', ts[t := pc'], exPermits, shPermits)
  {
    Recount(ts, t, pc');
  }

  /** Replacing the word by one with the fields `f'`. */
  lemma WordKeepsInv(s: State, f: Fields, t: nat, f': Fields, pc': PC)
    requires InvWith(f, s) && t < |s.threads| && Fit(f')
    requires Local(pc', s.exEvent, s.shEvent)
    requires Balanced(f, s.threads[t], f', pc') && f'.owned + f'.waking <= 1 && QueuesWatched(f')
    requires f'.exclusiveWaiters > 0 ==> s.exEvent != 0
    requires f'.sharedWaiters > 0 ==> s.shEvent != 0
    ensures Good(f', Stored(s, t, Encode(f'), pc'))
  {
    hide Sum, Weight;
    var s' := Stored(s, t, Encode(f'), pc');
    BalancedFits(f, s.threads, t, f', pc', s.exPermits, s.shPermits);
    EventsKeptLocal(s, t, pc', s');
  }

  function Stored(s: State, t: nat, desired: int, won: PC): State
    requires t < |s.threads|
  {
    s.(value := Wrap(desired), threads := s.threads[t := won])
  }

  /** The invariant with the word already split into its fields. */
  predicate Good(f: Fields, s: State) {
    InvWith(f, s) && Fit(f) && s.value == Encode(f)
  }

  lemma GoodIsInv(f: Fields, s: State)
    requires Good(f, s)
    ensures Inv(s)
  {
    DecodeEncode(f);
  }

  /** What a correct word tells a thread that owns the lock, was woken, or may join. */
  predicate Standing(f: Fields, pc: PC) {
    && (Weight(pc, ExHolders) == 1 ==> f.owned == 1 && f.owners == 0 && f.waking == 0)
    && (Weight(pc, ShHolders) == 1 ==> f.owned == 1 && f.owners > 0 && f.waking == 0)
    && (Weight(pc, Woken) == 1 ==> f.waking == 1 && f.owned == 0)
    && (Weight(pc, ShHolders) == 0 ==> f.owners < MAX_THREADS)
    && (Weight(pc, ExBlocked) == 0 ==> f.exclusiveWaiters < MAX_THREADS)
    && (Weight(pc, ShBlocked) == 0 ==> f.sharedWaiters < MAX_THREADS)
    && f.owned + f.waking <= 1
    && (f.owners > 0 ==> f.owned == 1)
    && QueuesWatched(f)
  }

  lemma InvStanding(f: Fields, ts: seq<PC>, t: nat, exPermits: nat, shPermits: nat)
    requires t < |ts| <= MAX_THREADS && OwnersAgree(f, ts) && WaitersAgree(f, ts, exPermits, shPermits)
      && QueuesWatched(f)
    ensures Standing(f, ts[t])
  {
    Recount(ts, t, ts[t]);
  }

  /** What the thread read from its copy of the word, when the copy is still current. */
  predicate CopyAgrees(f: Fields, pc: PC) {
    match pc
    case AcqExOwn(_) => f.owned == 0 && f.waking == 0
    case TryExOwn(_) => f.owned == 0 && f.waking == 0
    case AcqExQueue(_) => f.owned != 0 || f.waking != 0
    case AcqShFirst(_) => f.owned == 0 && f.waking == 0 && f.exclusiveWaiters == 0
    case TryShFirst(_) => f.owned == 0 && f.waking == 0 && f.exclusiveWaiters == 0
    case AcqShJoin(_) => f.owned != 0 && f.owners > 0 && f.waking == 0 && f.exclusiveWaiters == 0
    case TryShJoin(_) => f.owned != 0 && f.owners > 0 && f.waking == 0 && f.exclusiveWaiters == 0
    case AcqShQueue(_) => MustWait(f)
    case RelExHandOff(_) => f.exclusiveWaiters != 0
    case RelExPlain(_) => f.exclusiveWaiters == 0
    case RelShLeave(_) => f.owners > 1
    case RelShHandOff(_) => f.owners <= 1 && f.exclusiveWaiters != 0
    case RelShLast(_) => f.owners <= 1 && f.exclusiveWaiters == 0
    case _ => true
  }

  /** The fields a winning compare-exchange stores. */
  function Won(f: Fields, pc: PC): (f': Fields)
    requires AtCas(pc) && Standing(f, pc) && CopyAgrees(f, pc)
  {
    match pc
    case AcqExOwn(_) => f.(owned := 1)
    case TryExOwn(_) => f.(owned := 1)
    case AcqExQueue(_) => f.(exclusiveWaiters := f.exclusiveWaiters + 1)
    case AcqExWokenCas(_) => f.(owned := 1, waking := 0)
    case AcqShFirst(_) => f.(owned := 1, owners := 1)
    case TryShFirst(_) => f.(owned := 1, owners := 1)
    case AcqShJoin(_) => f.(owners := f.owners + 1)
    case TryShJoin(_) => f.(owners := f.owners + 1)
    case AcqShQueue(_) => f.(sharedWaiters := f.sharedWaiters + 1)
    case RelExHandOff(_) => f.(owned := 0, waking := 1, exclusiveWaiters := f.exclusiveWaiters - 1)
    case RelExPlain(_) => f.(owned := 0, sharedWaiters := 0)
    case RelShLeave(_) => f.(owners := f.owners - 1)
    case RelShHandOff(_) => f.(owned := 0, waking := 1, owners := 0, exclusiveWaiters := f.exclusiveWaiters - 1)
    case RelShLast(_) => f.(owned := 0, owners := 0)
  }

  /** The word stored is the one with the new fields: adding and subtracting the field
      increments never carries or borrows. */
  lemma ExchangeStores(f: Fields, pc: PC)
    requires AtCas(pc) && f == Decode(pc.v) && pc.v == Encode(f)
    requires Standing(f, pc) && CopyAgrees(f, pc)
    ensures Desired(pc) == Encode(Won(f, pc))
  {
    hide Owned, Waking, SharedOwners, SharedWaiters, ExclusiveWaiters;
  }

  predicate Releases(pc: PC) {
    pc.RelExHandOff? || pc.RelExPlain? || pc.RelShLeave? || pc.RelShHandOff? || pc.RelShLast?
  }

  predicate Fits(f: Fields, pc: PC, f': Fields)
    requires AtCas(pc)
  {
    Fit(f') && Balanced(f, pc, f', WonPC(pc)) && f'.owned + f'.waking <= 1 && QueuesWatched(f')
  }

  lemma ReleaseBalances(f: Fields, pc: PC)
    requires Releases(pc) && Fit(f) && f.sharedWaiters == SharedWaiters(pc.v)
    requires Standing(f, pc) && CopyAgrees(f, pc)
    ensures Fits(f, pc, Won(f, pc))
  {
    hide SharedWaiters;
  }

  lemma QueueBalances(f: Fields, pc: PC)
    requires (pc.AcqExQueue? || pc.AcqShQueue?) && Fit(f)
    requires Standing(f, pc) && CopyAgrees(f, pc)
    ensures Fits(f, pc, Won(f, pc))
  {
  }

  lemma TakeBalances(f: Fields, pc: PC)
    requires AtCas(pc) && !Releases(pc) && !pc.AcqExQueue? && !pc.AcqShQueue? && Fit(f)
    requires Standing(f, pc) && CopyAgrees(f, pc)
    ensures Fits(f, pc, Won(f, pc))
  {
  }

  /** A compare-exchange whose copy is current stores fields that fit. */
  lemma ExchangeWins(s: State, t: nat)
    requires Inv(s) && t < |s.threads| <= MAX_THREADS && AtCas(s.threads[t]) && s.threads[t].v == s.value
    ensures var f, pc := Decode(s.value), s.threads[t];
      && Standing(f, pc) && CopyAgrees(f, pc) && Fits(f, pc, Won(f, pc)) && Desired(pc) == Encode(Won(f, pc))
      && Local(WonPC(pc), s.exEvent, s.shEvent)
  {
    var f, pc := Decode(s.value), s.threads[t];
    EncodeDecode(s.value);
    InvStanding(f, s.threads, t, s.exPermits, s.shPermits);
    assert Local(pc, s.exEvent, s.shEvent);
    CopyIsLocal(f, pc, s.exEvent, s.shEvent);
    if Releases(pc) {
      ReleaseBalances(f, pc);
    } else if pc.AcqExQueue? || pc.AcqShQueue? {
      QueueBalances(f, pc);
    } else {
      TakeBalances(f, pc);
    }
    ExchangeStores(f, pc);
  }

  lemma ExchangeKeepsInv(s: State, t: nat)
    requires Inv(s) && t < |s.threads| <= MAX_THREADS && AtCas(s.threads[t]) && s.threads[t].v == s.value
    ensures Inv(Exchange(s, t))
  {
    var f, pc := Decode(s.value), s.threads[t];
    ExchangeWins(s, t);
    assert Local(pc, s.exEvent, s.shEvent);
    WordKeepsInv(s, f, t, Won(f, pc), WonPC(pc));
    GoodIsInv(Won(f, pc), Exchange(s, t));
  }

  lemma CopyIsLocal(f: Fields, pc: PC, exEvent: nat, shEvent: nat)
    requires AtCas(pc) && f == Decode(pc.v) && Local(pc, exEvent, shEvent)
    requires f.sharedWaiters > 0 ==> shEvent != 0
    requires f.exclusiveWaiters > 0 ==> exEvent != 0
    ensures CopyAgrees(f, pc) && Local(WonPC(pc), exEvent, shEvent)
  {
    hide Owned, Waking, SharedOwners, SharedWaiters, ExclusiveWaiters;
  }

  /** A woken thread takes a permit; a permit that was owed becomes a posted one. */
  lemma SemaphoreKeepsInv(f: Fields, s: State, t: nat)
    requires InvWith(f, s) && t < |s.threads| && AtSemaphore(s.threads[t])
    ensures InvWith(f, Semaphore(s, t))
  {
    hide Sum, Owned, Waking, SharedOwners, SharedWaiters, ExclusiveWaiters;
    var s' := Semaphore(s, t);
    Recount(s.threads, t, s'.threads[t]);
    EventsKeptLocal(s, t, s'.threads[t], s');
  }

  lemma EnsureEventKeepsInv(s: State, t: nat)
    requires Inv(s) && t < |s.threads| && AtEvent(s.threads[t])
    ensures Inv(EnsureEvent(s, t))
  {
    hide Sum, Owned, Waking, SharedOwners, SharedWaiters, ExclusiveWaiters;
    var s' := EnsureEvent(s, t);
    assert Local(s.threads[t], s.exEvent, s.shEvent);
    MoveKeepsInv(s, t, s'.threads[t], s');
  }

  lemma LookIsQuiet(pc: PC, value: Word, c: Choice, exEvent: nat, shEvent: nat)
    requires !AtCas(pc) && !AtSemaphore(pc) && !AtEvent(pc)
    ensures Local(Look(pc, value, c), exEvent, shEvent)
    ensures forall m :: Weight(Look(pc, value, c), m) == Weight(pc, m)
  {
    hide Owned, Waking, SharedOwners, SharedWaiters, ExclusiveWaiters;
  }

  lemma LostIsQuiet(pc: PC, exEvent: nat, shEvent: nat)
    requires AtCas(pc)
    ensures Local(LostPC(pc), exEvent, shEvent)
    ensures forall m :: Weight(LostPC(pc), m) == Weight(pc, m)
  {
  }

  lemma StepKeepsInv(s: State, t: nat, c: Choice)
    requires Inv(s) && t < |s.threads| <= MAX_THREADS
    ensures Inv(Next(s, t, c))
  {
    var pc := s.threads[t];
    if AtCas(pc) {
      if pc.v == s.value {
        ExchangeKeepsInv(s, t);
      } else {
        LostIsQuiet(pc, s.exEvent, s.shEvent);
        MoveKeepsInv(s, t, LostPC(pc), Exchange(s, t));
      }
    } else if AtSemaphore(pc) {
      SemaphoreKeepsInv(Decode(s.value), s, t);
    } else if AtEvent(pc) {
      EnsureEventKeepsInv(s, t);
    } else {
      LookIsQuiet(pc, s.value, c, s.exEvent, s.shEvent);
      MoveKeepsInv(s, t, Look(pc, s.value, c), Next(s, t, c));
    }
  }

  lemma {:induction false} RunKeepsInv(n: nat, schedule: seq<Event>)
    requires n <= MAX_THREADS && forall e <- schedule :: e.thread < n
    ensures Inv(Run(n, schedule))
    decreases |schedule|
  {
    if schedule == [] {
      InitInv(n);
    } else {
      var last := schedule[|schedule| - 1];
      RunKeepsInv(n, schedule[..|schedule| - 1]);
      StepKeepsInv(Run(n, schedule[..|schedule| - 1]), last.thread, last.choice);
    }
  }

  // ------------------------------------------------------------ the theorems

  /** A run of at most 1023 threads. */
  ghost predicate WithinLimit(n: nat, schedule: seq<Event>) {
    n <= MAX_THREADS && forall e <- schedule :: e.thread < n
  }

  /** An exclusive owner is alone. */
  lemma MutualExclusion(n: nat, schedule: seq<Event>, t: nat, u: nat)
    requires WithinLimit(n, schedule) && t < n && u < n && t != u
    requires Weight(Run(n, schedule).threads[t], ExHolders) == 1
    ensures Weight(Run(n, schedule).threads[u], ExHolders) == 0
    ensures Weight(Run(n, schedule).threads[u], ShHolders) == 0
  {
    hide Owned, Waking, SharedOwners, SharedWaiters, ExclusiveWaiters;
    var s := Run(n, schedule);
    RunKeepsInv(n, schedule);
    SumPair(s.threads, if t < u then t else u, if t < u then u else t, ExHolders);
    SumMember(s.threads, t, ExHolders);
    SumMember(s.threads, u, ShHolders);
    EncodeDecode(s.value);
  }

  /** The word tells exactly who owns the lock. */
  lemma WordTellsOwners(n: nat, schedule: seq<Event>)
    requires WithinLimit(n, schedule)
    ensures var s := Run(n, schedule); var ex, sh := Sum(s.threads, ExHolders), Sum(s.threads, ShHolders);
      && (Owned(s.value) == 1 && SharedOwners(s.value) == 0 <==> ex == 1)
      && (Owned(s.value) == 1 && SharedOwners(s.value) > 0 <==> sh > 0)
      && (Owned(s.value) == 0 <==> ex == 0 && sh == 0)
      && SharedOwners(s.value) == sh
      && (sh > 0 ==> ex == 0)
      && !(Owned(s.value) == 1 && Waking(s.value) == 1)
  {
    hide Sum, Owned, Waking, SharedOwners, SharedWaiters, ExclusiveWaiters;
    RunKeepsInv(n, schedule);
    EncodeDecode(Run(n, schedule).value);
  }

  /** No wake-up is lost: every blocked thread is in the word's queue or its permit is
      posted or owed, and the waking bit stands for exactly one hand-off in flight. */
  lemma NoWakeupLost(n: nat, schedule: seq<Event>)
    requires WithinLimit(n, schedule)
    ensures var s := Run(n, schedule); var ts := s.threads;
      && Sum(ts, ExBlocked) == ExclusiveWaiters(s.value) + Sum(ts, ExSignals) + s.exPermits
      && Sum(ts, ShBlocked) == SharedWaiters(s.value) + Sum(ts, ShSignals) + s.shPermits
      && Waking(s.value) == Sum(ts, ExSignals) + s.exPermits + Sum(ts, Woken) <= 1
  {
    hide Sum, Owned, Waking, SharedOwners, SharedWaiters, ExclusiveWaiters;
    RunKeepsInv(n, schedule);
    EncodeDecode(Run(n, schedule).value);
  }

  /** A thread that must move before the queues can be forgotten: an owner, a thread that
      owes a permit, a woken thread, or a blocked one whose permit is there. */
  predicate Obliged(s: State, u: nat)
    requires u < |s.threads|
  {
    var pc := s.threads[u];
    || Weight(pc, ExHolders) > 0 || Weight(pc, ShHolders) > 0 || Weight(pc, ExSignals) > 0 || Weight(pc, ShSignals) > 0
    || Weight(pc, Woken) > 0 || (pc.AcqExBlocked? && s.exPermits > 0) || (pc.AcqShBlocked? && s.shPermits > 0)
  }

  /** Nobody waits for ever behind idle threads: while a thread is blocked, somebody is obliged to act. */
  lemma NobodyStranded(n: nat, schedule: seq<Event>, t: nat) returns (u: nat)
    requires WithinLimit(n, schedule) && t < n
    requires Run(n, schedule).threads[t].AcqExBlocked? || Run(n, schedule).threads[t].AcqShBlocked?
    ensures u < n && Obliged(Run(n, schedule), u)
  {
    hide Run, Inv, Obliged;
    RunKeepsInv(n, schedule);
    u := SomebodyObliged(Run(n, schedule), t);
  }

  lemma SomebodyObliged(s: State, t: nat) returns (u: nat)
    requires Inv(s) && t < |s.threads|
    requires s.threads[t].AcqExBlocked? || s.threads[t].AcqShBlocked?
    ensures u < |s.threads| && Obliged(s, u)
  {
    hide Sum, Owned, Waking, SharedOwners, SharedWaiters, ExclusiveWaiters;
    var ts := s.threads;
    SumMember(ts, t, ExBlocked);
    SumMember(ts, t, ShBlocked);
    if Obliged(s, t) { u := t; }
    else if Sum(ts, ExHolders) > 0 { u := SumWitness(ts, ExHolders); }
    else if Sum(ts, ShHolders) > 0 { u := SumWitness(ts, ShHolders); }
    else if Sum(ts, ExSignals) > 0 { u := SumWitness(ts, ExSignals); }
    else if Sum(ts, ShSignals) > 0 { u := SumWitness(ts, ShSignals); }
    else if Sum(ts, Woken) > 0 { u := SumWitness(ts, Woken); }
    else { u := SumWitness(ts, ExBlocked); }
  }

  /** Shared waiters always have somebody ahead of them, so the last shared releaser that
      sees no exclusive waiter has nobody to wake. */
  lemma LastSharedReleaserWakesNobody(n: nat, schedule: seq<Event>, t: nat)
    requires WithinLimit(n, schedule) && t < n
    ensures var s := Run(n, schedule);
      SharedWaiters(s.value) > 0 ==>
        Sum(s.threads, ExHolders) == 1 || ExclusiveWaiters(s.value) > 0 || Waking(s.value) == 1
    ensures var s := Run(n, schedule);
      s.threads[t].RelShLast? && s.threads[t].v == s.value ==> SharedWaiters(s.value) == 0
  {
    hide Sum, Owned, Waking, SharedOwners, SharedWaiters, ExclusiveWaiters;
    var s := Run(n, schedule);
    RunKeepsInv(n, schedule);
    EncodeDecode(s.value);
    InvStanding(Decode(s.value), s.threads, t, s.exPermits, s.shPermits);
    assert Local(s.threads[t], s.exEvent, s.shEvent);
  }

  /** When every thread is idle the lock is as new. */
  lemma IdleMeansZero(n: nat, schedule: seq<Event>)
    requires WithinLimit(n, schedule)
    requires forall pc <- Run(n, schedule).threads :: pc == Idle
    ensures var s := Run(n, schedule); s.value == 0 && s.exPermits == 0 && s.shPermits == 0
  {
    hide Run, Inv;
    RunKeepsInv(n, schedule);
    RestIsZero(Run(n, schedule));
  }

  lemma RestIsZero(s: State)
    requires Inv(s) && forall pc <- s.threads :: pc == Idle
    ensures s.value == 0 && s.exPermits == 0 && s.shPermits == 0
  {
    hide Sum, Owned, Waking, SharedOwners, SharedWaiters, ExclusiveWaiters;
    var ts := s.threads;
    EncodeDecode(s.value);
    SumZero(ts, ExHolders); SumZero(ts, ShHolders); SumZero(ts, ExBlocked); SumZero(ts, ShBlocked);
    SumZero(ts, ExSignals); SumZero(ts, ShSignals); SumZero(ts, Woken);
  }

  /** While a hand-off is in flight only the woken thread can become an owner. */
  lemma HandOffIsExclusive(n: nat, schedule: seq<Event>, e: Event)
    requires WithinLimit(n, schedule + [e])
    requires Waking(Run(n, schedule).value) == 1
    ensures var s, s' := Run(n, schedule), Run(n, schedule + [e]);
      var pc, pc' := s.threads[e.thread], s'.threads[e.thread];
      OwnerWeight(pc') > OwnerWeight(pc)
      ==> Weight(pc, Woken) == 1 && pc' == HoldEx
  {
    hide Sum, Owned, Waking, SharedOwners, SharedWaiters, ExclusiveWaiters;
    forall e' <- schedule ensures e'.thread < n { assert e' in schedule + [e]; }
    assert e in schedule + [e];
    assert (schedule + [e])[..|schedule|] == schedule;
    RunKeepsInv(n, schedule);
    OnlyWokenBecomesOwner(Run(n, schedule), e.thread, e.choice);
  }

  lemma OnlyWokenBecomesOwner(s: State, t: nat, c: Choice)
    requires Inv(s) && t < |s.threads| && Waking(s.value) == 1
    ensures var pc, pc' := s.threads[t], Next(s, t, c).threads[t];
      OwnerWeight(pc') > OwnerWeight(pc) ==> Weight(pc, Woken) == 1 && pc' == HoldEx
  {
    hide Sum, Owned, Waking, SharedOwners, SharedWaiters, ExclusiveWaiters;
    var pc := s.threads[t];
    assert Local(pc, s.exEvent, s.shEvent);
    if AtCas(pc) {
      LostIsQuiet(pc, s.exEvent, s.shEvent);
      if pc.v == s.value { CasBecomesOwner(pc, s.exEvent, s.shEvent); }
    } else if !AtSemaphore(pc) && !AtEvent(pc) {
      LookIsQuiet(pc, s.value, c, s.exEvent, s.shEvent);
    }
  }

  function OwnerWeight(pc: PC): nat { Weight(pc, ExHolders) + Weight(pc, ShHolders) }

  lemma CasBecomesOwner(pc: PC, exEvent: nat, shEvent: nat)
    requires AtCas(pc) && Local(pc, exEvent, shEvent) && Waking(pc.v) == 1
    ensures OwnerWeight(WonPC(pc)) > OwnerWeight(pc) ==> pc.AcqExWokenCas?
  {
    hide Owned, Waking, SharedOwners, SharedWaiters, ExclusiveWaiters;
  }

  /** A thread waits on, and a thread releases, only a published semaphore, and a
      published semaphore is never replaced. */
  lemma EventsComeFirst(n: nat, schedule: seq<Event>, t: nat, c: Choice)
    requires WithinLimit(n, schedule) && t < n
    ensures var s := Run(n, schedule); var s' := Next(s, t, c);
      && (s.threads[t].AcqExBlocked? || s.threads[t].SignalEx? ==> s.exEvent != 0)
      && (s.threads[t].AcqShBlocked? || s.threads[t].RelExSignalShared? ==> s.shEvent != 0)
      && (s.exEvent != 0 ==> s'.exEvent == s.exEvent)
      && (s.shEvent != 0 ==> s'.shEvent == s.shEvent)
  {
    hide Run, Inv, Next;
    RunKeepsInv(n, schedule);
    EventsFirst(Run(n, schedule), t, c);
  }

  lemma EventsFirst(s: State, t: nat, c: Choice)
    requires Inv(s) && t < |s.threads|
    ensures var s' := Next(s, t, c);
      && (s.threads[t].AcqExBlocked? || s.threads[t].SignalEx? ==> s.exEvent != 0)
      && (s.threads[t].AcqShBlocked? || s.threads[t].RelExSignalShared? ==> s.shEvent != 0)
      && (s.exEvent != 0 ==> s'.exEvent == s.exEvent)
      && (s.shEvent != 0 ==> s'.shEvent == s.shEvent)
  {
    hide Sum, Owned, Waking, SharedOwners, SharedWaiters, ExclusiveWaiters, OwnersAgree, WaitersAgree, Look, Desired;
    assert Local(s.threads[t], s.exEvent, s.shEvent);
  }
}
