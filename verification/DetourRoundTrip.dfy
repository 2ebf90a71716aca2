/** Whole transactions (LoaderWatch.Inject/detours.cpp, for x64): begin, attach each function and
    commit, then begin, detach each of them and commit. */
module DetourRoundTrip {
  import opened Words
  import opened X64Jumps
  import opened DetourPrologue
  import opened DetourSlots
  import opened DetourOperations
  import opened DetourTransactions
  import Regions = DetourRegions
  import opened DetourAllocator

  /** The arguments of an attach, and what its surroundings do. */
  datatype Request = Request(ppPointer: int, pDetour: Addr, copy: Copier, filler: nat -> nat, newRegion: nat,
                             noMemory: bool, protect: int)

  /** Which of the requests is detached, and what its surroundings do. */
  datatype Removal = Removal(index: nat, noMemory: bool, protect: int)

  function TargetOf(q: Request, skip: Addr -> Addr, pointers: Pointers): Addr
    requires q.ppPointer in pointers
  {
    skip(pointers[q.ppPointer])
  }

  /** Nothing fails: there is memory, a new region near enough, enough code, and the pages can be
      made writable. */
  ghost predicate Granted(q: Request, skip: Addr -> Addr, pointers: Pointers, code: Bytes)
    requires q.ppPointer in pointers
  {
    && !q.noMemory && q.protect == NoError && Cut(q.copy, q.filler) >= SizeOfJmp
    && q.newRegion != 0 && q.newRegion + 3 * Regions.SlotSize < TwoTo64
    && Nearby(code, TargetOf(q, skip, pointers), q.newRegion + 3 * Regions.SlotSize)
  }

  ghost predicate AllGranted(reqs: seq<Request>, skip: Addr -> Addr, pointers: Pointers, code: Bytes) {
    forall j :: 0 <= j < |reqs| ==> reqs[j].ppPointer in pointers && Granted(reqs[j], skip, pointers, code)
  }

  /** A function and a detour that are not the same, outside of trampoline memory. */
  ghost predicate Sensible(q: Request, skip: Addr -> Addr, pointers: Pointers, regions: set<nat>) {
    && q.ppPointer != 0 && q.ppPointer in pointers && pointers[q.ppPointer] != 0 && q.pDetour != 0
    && (forall at: nat :: q.filler(at) <= 11) && CodeEnd(q.copy) >= 0
    && var pbTarget := TargetOf(q, skip, pointers);
       && pbTarget != 0 && pbTarget + 30 < TwoTo64 && skip(q.pDetour) != pbTarget
       && forall r :: r in regions ==> Outside(pbTarget, r)
  }

  /** The requests are for different pointers and for targets that do not overlap. */
  ghost predicate Different(q: Request, q': Request, skip: Addr -> Addr, pointers: Pointers)
    requires q.ppPointer in pointers && q'.ppPointer in pointers
  {
    var a, a' := TargetOf(q, skip, pointers), TargetOf(q', skip, pointers);
    q.ppPointer != q'.ppPointer && (a + Cut(q.copy, q.filler) <= a' || a' + Cut(q'.copy, q'.filler) <= a)
  }

  /** What a search for free memory may find. */
  ghost predicate FreshRegions(reqs: seq<Request>, regions: seq<nat>) {
    && (forall j :: 0 <= j < |reqs| && reqs[j].newRegion != 0 ==>
         Regions.IsBase(reqs[j].newRegion) && reqs[j].newRegion !in regions
           && reqs[j].newRegion + Regions.RegionSize < TwoTo64)
    && (forall i, j :: 0 <= i < j < |reqs| && reqs[j].newRegion != 0 ==> reqs[i].newRegion != reqs[j].newRegion)
  }

  ghost function AllRegions(reqs: seq<Request>, regions: seq<nat>): set<nat> {
    (set r | r in regions) + (set j | 0 <= j < |reqs| && reqs[j].newRegion != 0 :: reqs[j].newRegion)
  }

  ghost predicate Requests(reqs: seq<Request>, skip: Addr -> Addr, pointers: Pointers, regions: seq<nat>) {
    && FreshRegions(reqs, regions)
    && (forall j :: 0 <= j < |reqs| ==> Sensible(reqs[j], skip, pointers, AllRegions(reqs, regions)))
    && (forall i, j :: 0 <= i < j < |reqs| ==> Different(reqs[i], reqs[j], skip, pointers))
  }

  /** The queue has its newest operation first. */
  function Queued(ops: seq<Operation>, j: nat): Operation
    requires j < |ops|
  {
    ops[|ops| - 1 - j]
  }

  /** The operation that stands for a request, with its trampoline filled in. */
  ghost predicate Done(q: Request, o: Operation, skip: Addr -> Addr, pointers: Pointers, tramps: Trampolines,
                       slots: Bytes, code: Bytes)
    requires q.ppPointer in pointers
  {
    && o == Operation(false, q.ppPointer, TargetOf(q, skip, pointers), o.pTrampoline, Cut(q.copy, q.filler))
    && o.pTrampoline in tramps && Prepared(slots, o.pTrampoline, q.copy, q.filler, code, o.pbTarget, skip(q.pDetour))
    && (Saved(o, tramps, code) <==> Intact(q, skip, pointers, code))
  }

  /** What a caller can see beforehand: the jump back will not reach the saved bytes. */
  predicate Intact(q: Request, skip: Addr -> Addr, pointers: Pointers, code: Bytes)
    requires q.ppPointer in pointers
  {
    Undamaged(CodeEnd(q.copy), BytesOf(code, TargetOf(q, skip, pointers), Cut(q.copy, q.filler)))
  }

  /** The first requests are queued, in order. */
  ghost predicate AllDone(reqs: seq<Request>, n: nat, ops: seq<Operation>, skip: Addr -> Addr, pointers: Pointers,
                          tramps: Trampolines, slots: Bytes, code: Bytes)
  {
    && |ops| == n <= |reqs|
    && forall j :: 0 <= j < n ==>
         reqs[j].ppPointer in pointers && Done(reqs[j], Queued(ops, j), skip, pointers, tramps, slots, code)
  }

  lemma OneMoreDone(reqs: seq<Request>, k: nat, ops: seq<Operation>, ops': seq<Operation>, skip: Addr -> Addr,
                    pointers: Pointers, tramps: Trampolines, tramps': Trampolines, slots: Bytes, slots': Bytes,
                    code: Bytes, live: set<nat>, live': set<nat>)
    requires k < |reqs| && AllDone(reqs, k, ops, skip, pointers, tramps, slots, code) && tramps.Keys <= live
    requires forall j :: 0 <= j <= k ==> CodeEnd(reqs[j].copy) >= 0 && Cut(reqs[j].copy, reqs[j].filler) <= 30
    requires var q := reqs[k];
      && q.ppPointer in pointers
      && Attached(q.ppPointer, TargetOf(q, skip, pointers), skip(q.pDetour), q.copy, q.filler, code, ops, ops', live,
                  live', tramps, tramps', slots, slots')
      && Apart(live', ops'[0].pTrampoline)
    ensures AllDone(reqs, k + 1, ops', skip, pointers, tramps', slots', code)
  {
    hide Prepared, View, Undamaged, CodeEnd, Cut, BytesOf, WritesAround, Within;
    var o := ops'[0];
    forall j | 0 <= j < k + 1
      ensures reqs[j].ppPointer in pointers && Done(reqs[j], Queued(ops', j), skip, pointers, tramps', slots', code)
    {
      if j < k {
        var q, o' := reqs[j], Queued(ops, j);
        assert Queued(ops', j) == o' && Done(q, o', skip, pointers, tramps, slots, code);
        assert o'.pTrampoline in live && o'.pTrampoline != o.pTrampoline;
        AroundElsewhere(slots, slots', live', o.pTrampoline, o'.pTrampoline, CodeEnd(reqs[k].copy)) by {
          CopiesFit(reqs[k].copy);
        }
        PreparedFrame(slots, slots', o'.pTrampoline, q.copy, q.filler, code, o'.pbTarget, skip(q.pDetour));
      } else {
        assert Queued(ops', j) == o;
      }
    }
  }

  lemma AroundElsewhere(m: Bytes, m': Bytes, live: set<nat>, t: nat, u: nat, c: int)
    requires WritesAround(m, m', t, c) && 0 <= c <= 31 && Apart(live, t) && u in live && u != t
    ensures SameBytes(m, m', u, u + OffsetCodeIn)
  {
    assert u + Regions.SlotSize <= t || t + Regions.SlotSize <= u;
  }

  /** Attaches each of the requests, until one fails. */
  method AttachEach(d: Detours, me: int, reqs: seq<Request>, skip: Addr -> Addr) returns (ok: bool)
    requires d.Valid() && me != 0 && d.pendingThreadId == me && d.pendingError == NoError && d.operations == []
    requires Requests(reqs, skip, d.pointers, d.regions.regions)
    modifies d`filled, d`pendingError, d`pendingPointer, d`operations, d.regions, d.slots
    ensures d.Valid() && forall r :: r in d.regions.regions ==> r in AllRegions(reqs, old(d.regions.regions))
    ensures ok ==> d.pendingError == NoError
    ensures ok ==> AllDone(reqs, |reqs|, d.operations, skip, d.pointers, d.Views(), d.slots.bytes, d.code.bytes)
    ensures AllGranted(reqs, skip, d.pointers, d.code.bytes) ==> ok
  {
    hide Detours.Valid, Attached, Done, Cut, CodeEnd, TrampolinesIn, Outside, Regions.IsBase, Allocator.Valid, Apart;
    assert forall j :: 0 <= j < |reqs| ==> CodeEnd(reqs[j].copy) >= 0;
    for k := 0 to |reqs|
      invariant d.Valid() && d.pendingError == NoError
      invariant forall r :: r in d.regions.regions ==>
        r in old(d.regions.regions) || exists j :: 0 <= j < k && reqs[j].newRegion == r != 0
      invariant AllDone(reqs, k, d.operations, skip, d.pointers, d.Views(), d.slots.bytes, d.code.bytes)
    {
      var q := reqs[k];
      assert Sensible(q, skip, d.pointers, AllRegions(reqs, old(d.regions.regions)));
      ghost var ops, tramps, slots, live := d.operations, d.Views(), d.slots.bytes, d.regions.live;
      KeysLive(d);
      var error := d.Attach(me, q.ppPointer, q.pDetour, skip, q.copy, q.filler, q.newRegion, q.noMemory, q.protect);
      if error != NoError {
        return false;
      }
      NewestApart(d, d.operations[0].pTrampoline);
      forall j | 0 <= j <= k ensures Cut(reqs[j].copy, reqs[j].filler) <= 30 { CutFits(reqs[j].copy, reqs[j].filler); }
      OneMoreDone(reqs, k, ops, d.operations, skip, d.pointers, tramps, d.Views(), slots, d.slots.bytes, d.code.bytes,
                  live, d.regions.live);
    }
    return true;
  }

  lemma CutFits(copy: Copier, filler: nat -> nat)
    requires forall at: nat :: filler(at) <= 11
    ensures Cut(copy, filler) < SizeOfJmp + 15
  {
    PrologueIsCopied(copy);
    CodeSize(copy, Prologue(copy));
    var bs := Prologue(copy);
    PaddingFits(filler, bs[|bs| - 1].target);
  }

  lemma {:induction false} PaddingFits(filler: nat -> nat, cbTarget: nat)
    requires (forall at: nat :: filler(at) <= 11) && cbTarget < SizeOfJmp + 15
    ensures WithFiller(filler, cbTarget) < SizeOfJmp + 15
    decreases if cbTarget < SizeOfJmp then SizeOfJmp - cbTarget else 0
  {
    if cbTarget < SizeOfJmp && filler(cbTarget) != 0 { PaddingFits(filler, cbTarget + filler(cbTarget)); }
  }

  lemma NewestApart(d: Detours, t: nat)
    requires d.Valid() && t in d.regions.live
    ensures Apart(d.regions.live, t)
  {
    hide Allocator.Valid, Consistent, Apart;
    d.LiveApart(t);
  }

  lemma KeysLive(d: Detours)
    requires d.Valid()
    ensures d.Views().Keys == d.filled <= d.regions.live && d.slots != d.code
  {
    d.OnlyLive();
  }

  // ------------------------------------------------------------------------ attaching

  /** A function whose attach was committed: it begins with a jump to its trampoline's rbCodeIn,
      which leads through pbDetour to the detour; the pointer leads to the trampoline, whose code
      is the moved one and a jump through pbRemain to the rest of the function. */
  ghost predicate Hooked(q: Request, o: Operation, skip: Addr -> Addr, pointers: Pointers, code: Bytes, d: Detours)
    requires q.ppPointer in pointers
    reads d, d.regions, d.code, d.slots
  {
    var t := o.pTrampoline;
    && o == Operation(false, q.ppPointer, TargetOf(q, skip, pointers), t, Cut(q.copy, q.filler))
    && JumpAt(d.code.bytes, o.pbTarget) == Always(Wrap(t + OffsetCodeIn), 5)
    && (forall b :: o.pbTarget + 5 <= b < o.pbTarget + o.cbTarget ==> Byte(d.code.bytes, b) == 0xcc)
    && JumpIn(d.slots.bytes, t) && PointerAt(d.slots.bytes, t + OffsetDetour) == skip(q.pDetour)
    && q.ppPointer in d.pointers && d.pointers[q.ppPointer] == t
    && Prepared(d.slots.bytes, t, q.copy, q.filler, code, o.pbTarget, skip(q.pDetour))
    && t in d.regions.pbRemain && d.regions.pbRemain[t] == o.pbTarget + o.cbTarget
  }

  ghost predicate AllHooked(reqs: seq<Request>, attach: seq<Operation>, skip: Addr -> Addr, pointers: Pointers,
                            code: Bytes, d: Detours)
    reads d, d.regions, d.code, d.slots
  {
    && |attach| == |reqs|
    && forall j :: 0 <= j < |reqs| ==>
         reqs[j].ppPointer in pointers && Hooked(reqs[j], Queued(attach, j), skip, pointers, code, d)
  }

  /** What a commit of these attaches leaves, with what a detach will look at. */
  ghost predicate Committed(reqs: seq<Request>, attach: seq<Operation>, tramps: Trampolines, skip: Addr -> Addr,
                            m0: Bytes, p0: Pointers, m1: Bytes, p1: Pointers, tramps1: Trampolines,
                            pbRemain1: map<nat, nat>)
  {
    && |attach| == |reqs| && AllIndependent(attach) && DistinctTrampolines(attach) && SizesFit(attach, tramps)
    && Effect(attach, tramps, m0, p0, m1, p1)
    && (forall j :: 0 <= j < |reqs| ==> Request0(reqs[j], Queued(attach, j), tramps, skip, m0, p0))
    && (forall o :: o in attach ==> Detachable(o, tramps, p1, tramps1, pbRemain1))
  }

  ghost predicate Request0(q: Request, o: Operation, tramps: Trampolines, skip: Addr -> Addr, m0: Bytes, p0: Pointers) {
    && q.ppPointer in p0 && o.pTrampoline in tramps
    && o == Operation(false, q.ppPointer, TargetOf(q, skip, p0), o.pTrampoline, Cut(q.copy, q.filler))
    && (Saved(o, tramps, m0) <==> Intact(q, skip, p0, m0))
  }

  /** Following the pointer gives the trampoline, whose fields give the operation back. */
  ghost predicate Detachable(o: Operation, tramps: Trampolines, p1: Pointers, tramps1: Trampolines,
                             pbRemain1: map<nat, nat>) {
    && !o.isRemove && o.ppbPointer in p1 && p1[o.ppbPointer] == o.pTrampoline
    && o.pTrampoline in tramps && o.pTrampoline in tramps1 && tramps1[o.pTrampoline] == tramps[o.pTrampoline]
    && tramps1[o.pTrampoline].cbRestore == o.cbTarget
    && o.pTrampoline in pbRemain1 && pbRemain1[o.pTrampoline] == o.pbTarget + o.cbTarget
  }

  /** What is known of the queue before a commit. */
  ghost predicate Pending(ops: seq<Operation>, tramps: Trampolines, live: set<nat>, pbRemain: map<nat, nat>) {
    && SizesFit(ops, tramps) && DistinctTrampolines(ops)
    && forall o :: o in ops ==>
         && o.pTrampoline in live && o.pTrampoline in tramps && tramps[o.pTrampoline].cbRestore == o.cbTarget
         && o.pTrampoline in pbRemain && pbRemain[o.pTrampoline] == o.pbTarget + o.cbTarget
  }

  lemma QueueIsPending(ops: seq<Operation>, tramps: Trampolines, live: set<nat>, pbRemain: map<nat, nat>,
                       base: set<nat>, pointers: Pointers)
    requires Consistent({}, ops, tramps, live, pbRemain, base, pointers)
    ensures Pending(ops, tramps, live, pbRemain) && live == base + Taken(ops) && base !! Taken(ops)
  {
    CanApply(ops, tramps, live, pbRemain, base, pointers);
    hide Filled, Marked, Taken, Removed, Reachable;
    assert live - {} == live;
  }

  lemma IsPending(d: Detours)
    requires d.Valid()
    ensures Pending(d.operations, d.Views(), d.regions.live, d.regions.pbRemain)
    ensures d.regions.live == d.base + Taken(d.operations) && d.base !! Taken(d.operations)
  {
    hide Consistent, Allocator.Valid;
    QueueIsPending(d.operations, d.Views(), d.regions.live, d.regions.pbRemain, d.base, d.pointers);
  }

  lemma QueuedIsIn(ops: seq<Operation>)
    ensures forall o :: o in ops <==> exists j :: 0 <= j < |ops| && Queued(ops, j) == o
  {
    forall o | o in ops ensures exists j :: 0 <= j < |ops| && Queued(ops, j) == o {
      var i :| 0 <= i < |ops| && ops[i] == o;
      assert Queued(ops, |ops| - 1 - i) == o;
    }
  }

  lemma DoneIndependent(reqs: seq<Request>, ops: seq<Operation>, skip: Addr -> Addr, pointers: Pointers,
                        tramps: Trampolines, slots: Bytes, code: Bytes, regions: seq<nat>)
    requires Requests(reqs, skip, pointers, regions) && AllDone(reqs, |reqs|, ops, skip, pointers, tramps, slots, code)
    ensures AllIndependent(ops)
    ensures forall o :: o in ops ==> !o.isRemove
    ensures forall j :: 0 <= j < |reqs| ==> Request0(reqs[j], Queued(ops, j), tramps, skip, code, pointers)
  {
    hide Cut, Saved, Intact, Prepared, Sensible, FreshRegions;
    forall j | 0 <= j < |reqs| ensures Request0(reqs[j], Queued(ops, j), tramps, skip, code, pointers) {
      assert Done(reqs[j], Queued(ops, j), skip, pointers, tramps, slots, code);
    }
    QueuedIsIn(ops);
    forall i, i' | 0 <= i < i' < |ops| ensures Independent(ops[i], ops[i']) {
      var j, j' := |ops| - 1 - i, |ops| - 1 - i';
      assert ops[i] == Queued(ops, j) && ops[i'] == Queued(ops, j');
      assert Different(reqs[j'], reqs[j], skip, pointers);
    }
  }

  /** Begins a transaction, suspends threads that are at `eips`, attaches each of the requests and
      commits; the threads are then resumed at `resumed`, the last one first. */
  method Hook(d: Detours, me: int, reqs: seq<Request>, skip: Addr -> Addr, writable: int, eips: seq<nat>)
    returns (ok: bool, resumed: seq<nat>, ghost attach: seq<Operation>, ghost tramps: Trampolines)
    requires d.Valid() && me != 0 && d.pendingThreadId == 0
    requires Requests(reqs, skip, d.pointers, d.regions.regions)
    modifies d, d.regions, d.code, d.slots
    ensures d.Valid() && forall r :: r in d.regions.regions ==> r in AllRegions(reqs, old(d.regions.regions))
    ensures ok ==> d.pendingThreadId == 0
    ensures writable == NoError && AllGranted(reqs, skip, old(d.pointers), old(d.code.bytes)) ==> ok
    ensures ok ==> AllHooked(reqs, attach, skip, old(d.pointers), old(d.code.bytes), d)
    ensures ok ==>
      Committed(reqs, attach, tramps, skip, old(d.code.bytes), old(d.pointers), d.code.bytes, d.pointers, d.Views(),
                d.regions.pbRemain)
    ensures ok ==> d.regions.live == old(d.regions.live) + Taken(attach) && old(d.regions.live) !! Taken(attach)
    ensures ok ==> |resumed| == |eips|
    ensures ok ==> forall i :: 0 <= i < |eips| ==> Followed(reqs, attach, eips[i], resumed[|eips| - 1 - i])
  {
    hide Detours.Valid, AllDone, Requests, Effect, Pending, TrampolinesIn, Allocator.Valid, KeptSlots, KeptTrampolines;
    hide Taken, Removed;
    hide AllHooked, Committed, Request0, CodeEnd, Cut, AllIndependent, JumpIn;
    ok, resumed, attach, tramps := false, [], [], map[];
    KeysLive(d);
    var error := d.TransactionBegin(me, writable);
    if error != NoError { return; }
    ghost var m0, p0 := d.code.bytes, d.pointers;
    Suspend(d, eips);
    var all := AttachEach(d, me, reqs, skip);
    if !all { return; }
    attach, tramps := d.operations, d.Views();
    ghost var slots, pbRemain, live := d.slots.bytes, d.regions.pbRemain, d.regions.live;
    IsPending(d);
    DoneIndependent(reqs, attach, skip, p0, tramps, slots, m0, old(d.regions.regions));
    NothingRemoved(attach);
    OpsInRegions(d, reqs, old(d.regions.regions));
    AllFollow(reqs, attach, skip, p0, tramps, slots, m0, old(d.regions.regions));
    RequestsFit(reqs, skip, p0, old(d.regions.regions));
    assert live - {} == live;
    error, resumed := d.TransactionCommit(me);
    if error != NoError { return; }
    AttachedForGood(reqs, attach, skip, m0, p0, tramps, slots, pbRemain, live, d);
    ok := true;
  }

  /** Suspends the threads at `eips`. */
  method Suspend(d: Detours, eips: seq<nat>)
    requires d.Valid() && d.pendingError == NoError && d.threads == []
    modifies d`threads, d`pendingError, d`pendingPointer
    ensures d.Valid() && d.pendingError == NoError && |d.threads| == |eips|
    ensures forall i :: 0 <= i < |eips| ==> d.threads[|eips| - 1 - i] == eips[i]
  {
    hide Detours.Valid;
    for n := 0 to |eips|
      invariant d.Valid() && d.pendingError == NoError && |d.threads| == n
      invariant forall i :: 0 <= i < n ==> d.threads[n - 1 - i] == eips[i]
    {
      var error := d.UpdateThread(false, eips[n], false, NoError);
    }
  }

  /** A thread at the end of a moved instruction goes to the end of its copy, exactly if that does not
      report -3 and does not end before the trampoline; one in none of the overwritten bytes stays. */
  ghost predicate Followed(reqs: seq<Request>, attach: seq<Operation>, eip: nat, eip': nat) {
    && |attach| == |reqs|
    && (forall j, k ::
         0 <= j < |reqs| && 0 <= k < |Prologue(reqs[j].copy)| && At(reqs[j], Queued(attach, j), k, eip) ==>
         (eip' == CopyPlace(reqs[j], Queued(attach, j), k) <==> Sound(reqs[j].copy, k)))
    && ((forall o :: o in attach ==> eip < o.pbTarget || eip >= o.pbTarget + o.cbTarget) ==> eip' == eip)
  }

  /** The thread is at the end of the `k`th instruction. */
  predicate At(q: Request, o: Operation, k: nat, eip: nat)
    requires k < |Prologue(q.copy)|
  {
    eip == o.pbTarget + Prologue(q.copy)[k].target && Prologue(q.copy)[k].target < Cut(q.copy, q.filler)
  }

  /** Where its copy ends. */
  ghost function CopyPlace(q: Request, o: Operation, k: nat): int
    requires k < |Prologue(q.copy)|
  {
    o.pTrampoline + CopyEnd(q.copy, Prologue(q.copy), k)
  }

  ghost predicate Sound(copy: Copier, k: nat)
    requires k < |Prologue(copy)|
  {
    InstructionAt(copy, Prologue(copy), k).extra >= 0 && Prologue(copy)[k].trampoline >= 0
  }

  lemma AllFollow(reqs: seq<Request>, ops: seq<Operation>, skip: Addr -> Addr, pointers: Pointers, tramps: Trampolines,
                  slots: Bytes, code: Bytes, regions: seq<nat>)
    requires Requests(reqs, skip, pointers, regions) && AllDone(reqs, |reqs|, ops, skip, pointers, tramps, slots, code)
    requires SlotsInRegions(ops, tramps, slots, reqs, regions) && SizesFit(ops, tramps)
    requires forall o :: o in ops ==> !o.isRemove && tramps[o.pTrampoline].cbRestore == o.cbTarget
    ensures forall eip: nat :: Followed(reqs, ops, eip, MovedByAll(ops, tramps, eip))
  {
    hide Requests, AllDone, SlotsInRegions, CopyEnd, Cut, Prologue, MovedByAll, View;
    LengthOf(reqs, ops, skip, pointers, tramps, slots, code);
    forall eip: nat ensures Followed(reqs, ops, eip, MovedByAll(ops, tramps, eip)) {
      forall j, k | 0 <= j < |reqs| && 0 <= k < |Prologue(reqs[j].copy)| && At(reqs[j], Queued(ops, j), k, eip)
        ensures MovedByAll(ops, tramps, eip) == CopyPlace(reqs[j], Queued(ops, j), k) <==> Sound(reqs[j].copy, k)
      {
        ThreadFollows(reqs, ops, skip, pointers, tramps, slots, code, regions, j, k);
      }
      if forall o :: o in ops ==> eip < o.pbTarget || eip >= o.pbTarget + o.cbTarget {
        UntouchedStays(ops, tramps, eip);
      }
    }
  }

  /** The trampolines are what their slots hold, in one of the regions. */
  ghost predicate SlotsInRegions(ops: seq<Operation>, tramps: Trampolines, slots: Bytes, reqs: seq<Request>,
                                 regions: seq<nat>) {
    forall o :: o in ops ==>
      o.pTrampoline in tramps && tramps[o.pTrampoline] == View(slots, o.pTrampoline)
        && InRegions(o.pTrampoline, reqs, regions)
  }

  lemma OpsInRegions(d: Detours, reqs: seq<Request>, regions0: seq<nat>)
    requires d.Valid() && forall r :: r in d.regions.regions ==> r in AllRegions(reqs, regions0)
    ensures SlotsInRegions(d.operations, d.Views(), d.slots.bytes, reqs, regions0) && SizesFit(d.operations, d.Views())
    ensures forall o :: o in d.operations ==>
      o.pTrampoline in d.Views() && d.Views()[o.pTrampoline].cbRestore == o.cbTarget
  {
    hide Allocator.Valid, Consistent, AllRegions, Regions.RegionOf;
    IsPending(d);
    forall o | o in d.operations
      ensures o.pTrampoline in d.Views() && d.Views()[o.pTrampoline] == View(d.slots.bytes, o.pTrampoline)
      ensures InRegions(o.pTrampoline, reqs, regions0)
    {
      d.regions.LiveInRegion(o.pTrampoline);
      InSlot(o.pTrampoline);
    }
  }

  lemma InSlot(t: nat)
    requires t + Regions.SlotSize <= Regions.RegionOf(t) + Regions.RegionSize
    ensures Regions.RegionOf(t + 31) == Regions.RegionOf(t)
  {
  }

  lemma NothingRemoved(ops: seq<Operation>)
    requires forall o :: o in ops ==> !o.isRemove
    ensures Removed(ops) == {} && !exists o :: o in ops && o.isRemove
  {
  }

  lemma AttachedForGood(reqs: seq<Request>, attach: seq<Operation>, skip: Addr -> Addr, m0: Bytes, p0: Pointers,
                        tramps: Trampolines, slots: Bytes, pbRemain: map<nat, nat>, live: set<nat>, d: Detours)
    requires AllDone(reqs, |reqs|, attach, skip, p0, tramps, slots, m0) && Pending(attach, tramps, live, pbRemain)
      && AllIndependent(attach)
    requires forall j :: 0 <= j < |reqs| ==> CodeEnd(reqs[j].copy) >= 0 && Cut(reqs[j].copy, reqs[j].filler) <= 30
    requires forall j :: 0 <= j < |reqs| ==> Request0(reqs[j], Queued(attach, j), tramps, skip, m0, p0)
    requires forall o :: o in attach ==> !o.isRemove
    requires Effect(attach, tramps, m0, p0, d.code.bytes, d.pointers) && d.regions.live == live
    requires KeptSlots(slots, d.slots.bytes, live, OffsetCodeIn)
      && KeptTrampolines(tramps, d.Views(), pbRemain, d.regions.pbRemain, live)
    requires forall o :: o in attach ==> JumpIn(d.slots.bytes, o.pTrampoline)
    ensures AllHooked(reqs, attach, skip, p0, m0, d)
    ensures Committed(reqs, attach, tramps, skip, m0, p0, d.code.bytes, d.pointers, d.Views(), d.regions.pbRemain)
  {
    hide Saved, Intact, Prepared, JumpIn, JumpAt, Cut, CodeEnd, AllIndependent, DistinctTrampolines, View;
    hide TrampolinesIn, Wrap;
    forall o | o in attach ensures Detachable(o, tramps, d.pointers, d.Views(), d.regions.pbRemain) {
      assert Applied(o, tramps, d.code.bytes, d.pointers);
    }
    hide Effect, KeptTrampolines, SizesFit, Applied;
    forall j | 0 <= j < |reqs| ensures reqs[j].ppPointer in p0 && Hooked(reqs[j], Queued(attach, j), skip, p0, m0, d) {
      var q, o := reqs[j], Queued(attach, j);
      assert o in attach && Done(q, o, skip, p0, tramps, slots, m0);
      assert SameBytes(slots, d.slots.bytes, o.pTrampoline, o.pTrampoline + OffsetCodeIn);
      assert Applied(o, tramps, d.code.bytes, d.pointers) by {
        EffectOne(attach, o, tramps, m0, p0, d.code.bytes, d.pointers);
      }
      HookedOne(q, o, skip, p0, m0, tramps, slots, d);
    }
  }

  lemma EffectOne(ops: seq<Operation>, o: Operation, tramps: Trampolines, m: Bytes, p: Pointers, m': Bytes,
                  p': Pointers)
    requires (forall x :: x in ops ==> x.pTrampoline in tramps) && Effect(ops, tramps, m, p, m', p')
      && AllIndependent(ops) && o in ops
    ensures Applied(o, tramps, m', p')
  {
    hide Applied, AllIndependent;
  }

  lemma HookedOne(q: Request, o: Operation, skip: Addr -> Addr, p0: Pointers, m0: Bytes, tramps: Trampolines,
                  slots: Bytes, d: Detours)
    requires q.ppPointer in p0 && Done(q, o, skip, p0, tramps, slots, m0) && CodeEnd(q.copy) >= 0
      && Cut(q.copy, q.filler) <= 30
    requires Applied(o, tramps, d.code.bytes, d.pointers)
      && SameBytes(slots, d.slots.bytes, o.pTrampoline, o.pTrampoline + OffsetCodeIn)
    requires JumpIn(d.slots.bytes, o.pTrampoline) && Detachable(o, tramps, d.pointers, d.Views(), d.regions.pbRemain)
    ensures Hooked(q, o, skip, p0, m0, d)
  {
    hide Saved, Intact, Prepared, JumpIn, JumpAt, Cut, CodeEnd, View, TrampolinesIn, Wrap, SameBytes, PointerAt;
    hide BytesAt;
    PreparedFrame(slots, d.slots.bytes, o.pTrampoline, q.copy, q.filler, m0, o.pbTarget, skip(q.pDetour));
    SizeOf(d.slots.bytes, o.pTrampoline, q.copy, q.filler, m0, o.pbTarget, skip(q.pDetour));
  }

  lemma RequestsFit(reqs: seq<Request>, skip: Addr -> Addr, pointers: Pointers, regions: seq<nat>)
    requires Requests(reqs, skip, pointers, regions)
    ensures forall j :: 0 <= j < |reqs| ==> CodeEnd(reqs[j].copy) >= 0 && Cut(reqs[j].copy, reqs[j].filler) <= 30
  {
    hide Cut, CodeEnd, Outside, FreshRegions;
    forall j | 0 <= j < |reqs| ensures CodeEnd(reqs[j].copy) >= 0 && Cut(reqs[j].copy, reqs[j].filler) <= 30 {
      assert Sensible(reqs[j], skip, pointers, AllRegions(reqs, regions));
      CutFits(reqs[j].copy, reqs[j].filler);
    }
  }

  /** A thread that was suspended at the end of a moved instruction of one of the targets is resumed
      at the end of its copy, exactly if the instruction does not report -3 and does not end before
      the trampoline: no other of the attaches looks at it, neither before nor after. */
  lemma ThreadFollows(reqs: seq<Request>, ops: seq<Operation>, skip: Addr -> Addr, pointers: Pointers,
                      tramps: Trampolines, slots: Bytes, code: Bytes, regions: seq<nat>, j: nat, k: nat)
    requires Requests(reqs, skip, pointers, regions)
    requires AllDone(reqs, |reqs|, ops, skip, pointers, tramps, slots, code) && j < |reqs|
    requires SlotsInRegions(ops, tramps, slots, reqs, regions)
    requires k < |Prologue(reqs[j].copy)|
    requires Prologue(reqs[j].copy)[k].target < Cut(reqs[j].copy, reqs[j].filler)
    ensures var q, o := reqs[j], Queued(ops, j);
      var bs := Prologue(q.copy);
      MovedByAll(ops, tramps, o.pbTarget + bs[k].target) == o.pTrampoline + CopyEnd(q.copy, bs, k) <==>
        InstructionAt(q.copy, bs, k).extra >= 0 && bs[k].trampoline >= 0
  {
    hide Prepared, View, Saved, Intact, CodeEnd, Requests, InRegions, Cut, Prologue, Touches, MovedBy, CopyEnd;
    hide Undamaged;
    var q, o := reqs[j], Queued(ops, j);
    var bs := Prologue(q.copy);
    var eip := o.pbTarget + bs[k].target;
    assert o in ops && Done(q, o, skip, pointers, tramps, slots, code);
    SizeOf(slots, o.pTrampoline, q.copy, q.filler, code, o.pbTarget, skip(q.pDetour));
    var eip' := MovedBy(o, tramps, eip);
    MovedIntoSlot(q, o, tramps, k);
    assert o.pbTarget <= eip < o.pbTarget + Cut(q.copy, q.filler);
    AllElsewhere(reqs, ops, skip, pointers, tramps, slots, code, regions, j, eip, eip');
    MovedOnce(ops, tramps, eip, |ops| - 1 - j);
  }

  lemma AllElsewhere(reqs: seq<Request>, ops: seq<Operation>, skip: Addr -> Addr, pointers: Pointers,
                     tramps: Trampolines, slots: Bytes, code: Bytes, regions: seq<nat>, j: nat, eip: nat, eip': nat)
    requires Requests(reqs, skip, pointers, regions) && j < |reqs|
    requires AllDone(reqs, |reqs|, ops, skip, pointers, tramps, slots, code)
    requires SlotsInRegions(ops, tramps, slots, reqs, regions)
    requires Queued(ops, j).pbTarget <= eip < Queued(ops, j).pbTarget + Cut(reqs[j].copy, reqs[j].filler)
    requires Queued(ops, j).pTrampoline <= eip' <= Queued(ops, j).pTrampoline + 31
    ensures forall m :: 0 <= m < |ops| && m != |ops| - 1 - j ==>
      ops[m].pTrampoline in tramps && !Touches(ops[m], tramps, eip) && !Touches(ops[m], tramps, eip')
  {
    hide Requests, AllDone, Done, InRegions, View, Cut, Touches;
    assert |ops| == |reqs| by { LengthOf(reqs, ops, skip, pointers, tramps, slots, code); }
    forall m | 0 <= m < |ops| && m != |ops| - 1 - j
      ensures ops[m].pTrampoline in tramps && !Touches(ops[m], tramps, eip) && !Touches(ops[m], tramps, eip')
    {
      assert ops[m] == Queued(ops, |ops| - 1 - m);
      Elsewhere(reqs, ops, skip, pointers, tramps, slots, code, regions, |ops| - 1 - m, j, eip, eip');
    }
  }

  lemma LengthOf(reqs: seq<Request>, ops: seq<Operation>, skip: Addr -> Addr, pointers: Pointers, tramps: Trampolines,
                 slots: Bytes, code: Bytes)
    requires AllDone(reqs, |reqs|, ops, skip, pointers, tramps, slots, code)
    ensures |ops| == |reqs|
  {
  }

  /** The slot of a trampoline is in one of the regions. */
  ghost predicate InRegions(t: nat, reqs: seq<Request>, regions: seq<nat>) {
    Regions.RegionOf(t) in AllRegions(reqs, regions) && Regions.RegionOf(t + 31) == Regions.RegionOf(t)
  }

  lemma {:induction false} PaddingGrows(filler: nat -> nat, cbTarget: nat)
    ensures cbTarget <= WithFiller(filler, cbTarget)
      && (cbTarget >= SizeOfJmp ==> WithFiller(filler, cbTarget) == cbTarget)
    decreases if cbTarget < SizeOfJmp then SizeOfJmp - cbTarget else 0
  {
    if cbTarget < SizeOfJmp && filler(cbTarget) != 0 { PaddingGrows(filler, cbTarget + filler(cbTarget)); }
  }

  lemma MovedIntoSlot(q: Request, o: Operation, tramps: Trampolines, k: nat)
    requires o.pTrampoline in tramps && !o.isRemove && k < |Prologue(q.copy)|
    requires var v := tramps[o.pTrampoline];
      v.cbRestore == Cut(q.copy, q.filler) && Aligned(v.rAlign, Prologue(q.copy))
        && Prologue(q.copy)[k].target < v.cbRestore
    ensures var bs := Prologue(q.copy);
      var eip' := MovedBy(o, tramps, o.pbTarget + bs[k].target);
      && o.pTrampoline <= eip' <= o.pTrampoline + 31
      && (eip' == o.pTrampoline + CopyEnd(q.copy, bs, k) <==>
           InstructionAt(q.copy, bs, k).extra >= 0 && bs[k].trampoline >= 0)
  {
    var bs, v := Prologue(q.copy), tramps[o.pTrampoline];
    PrologueIsCopied(q.copy);
    PaddingGrows(q.filler, bs[|bs| - 1].target);
    assert bs[|bs| - 1].target <= v.cbRestore
      && (bs[|bs| - 1].target >= SizeOfJmp ==> v.cbRestore == bs[|bs| - 1].target);
    hide Boundaries, Complete, Short, Aligned, Rest, WithFiller, CopyEnd, AttachedEip, Next, Possible, Cut, Prologue,
      InstructionAt;
    AttachedThread(q.copy, bs, v.rAlign, k, o.pbTarget, v.cbRestore, o.pTrampoline, 0);
  }

  lemma Elsewhere(reqs: seq<Request>, ops: seq<Operation>, skip: Addr -> Addr, pointers: Pointers, tramps: Trampolines,
                  slots: Bytes, code: Bytes, regions: seq<nat>, i: nat, j: nat, eip: nat, eip': nat)
    requires Requests(reqs, skip, pointers, regions) && i < |reqs| && j < |reqs| && i != j
    requires AllDone(reqs, |reqs|, ops, skip, pointers, tramps, slots, code)
    requires SlotsInRegions(ops, tramps, slots, reqs, regions)
    requires Queued(ops, j).pbTarget <= eip < Queued(ops, j).pbTarget + Cut(reqs[j].copy, reqs[j].filler)
    requires Queued(ops, j).pTrampoline <= eip' <= Queued(ops, j).pTrampoline + 31
    ensures Queued(ops, i).pTrampoline in tramps
    ensures !Touches(Queued(ops, i), tramps, eip) && !Touches(Queued(ops, i), tramps, eip')
  {
    hide Prepared, View, Saved, Intact, CodeEnd, AllRegions, FreshRegions, Cut, Regions.RegionOf;
    var q, o, o' := reqs[i], Queued(ops, i), Queued(ops, j);
    assert o in ops && Done(q, o, skip, pointers, tramps, slots, code);
    assert o' in ops && Done(reqs[j], o', skip, pointers, tramps, slots, code);
    SizeOf(slots, o.pTrampoline, q.copy, q.filler, code, o.pbTarget, skip(q.pDetour));
    assert Sensible(q, skip, pointers, AllRegions(reqs, regions));
    CutFits(q.copy, q.filler);
    if i < j { assert Different(reqs[i], reqs[j], skip, pointers); } else {
      assert Different(reqs[j], reqs[i], skip, pointers);
    }
    assert Outside(o.pbTarget, Regions.RegionOf(o'.pTrampoline));
    assert Regions.RegionOf(eip') == Regions.RegionOf(o'.pTrampoline) by { SameRegion(o'.pTrampoline, eip'); }
  }

  lemma SameRegion(t: nat, x: nat)
    requires Regions.RegionOf(t + 31) == Regions.RegionOf(t) && t <= x <= t + 31
    ensures Regions.RegionOf(x) == Regions.RegionOf(t)
  {
  }

  // ------------------------------------------------------------------------ detaching

  /** Each request is detached once, in some order. */
  ghost predicate Covers(order: seq<Removal>, n: nat) {
    && (forall i :: 0 <= i < |order| ==> order[i].index < n)
    && (forall i, i' :: 0 <= i < i' < |order| ==> order[i].index != order[i'].index)
    && (forall j :: 0 <= j < n ==> Listed(order, j))
  }

  ghost predicate Listed(order: seq<Removal>, j: nat) { exists i :: 0 <= i < |order| && order[i].index == j }

  /** The first removals are queued, in order. */
  ghost predicate AllUndone(order: seq<Removal>, k: nat, ops: seq<Operation>, attach: seq<Operation>) {
    && |ops| == k <= |order|
    && forall i :: 0 <= i < k ==> order[i].index < |attach| && Queued(ops, i) == Undo(Queued(attach, order[i].index))
  }

  lemma OneMoreUndone(order: seq<Removal>, k: nat, ops: seq<Operation>, ops': seq<Operation>, attach: seq<Operation>,
                      n: nat)
    requires AllUndone(order, k, ops, attach) && k < |order| && Covers(order, n) && n == |attach|
      && DistinctTrampolines(attach)
    requires ops' != [] && ops'[1..] == ops && ops'[0] == Undo(Queued(attach, order[k].index))
    ensures AllUndone(order, k + 1, ops', attach) && OtherTrampolines(ops, ops'[0])
  {
    forall i | 0 <= i < k + 1
      ensures order[i].index < |attach| && Queued(ops', i) == Undo(Queued(attach, order[i].index))
    {
      if i < k { assert Queued(ops', i) == Queued(ops, i); } else { assert Queued(ops', i) == ops'[0]; }
    }
    forall p | p in ops ensures p.pTrampoline != ops'[0].pTrampoline {
      var m :| 0 <= m < |ops| && ops[m] == p;
      var i := |ops| - 1 - m;
      assert Queued(ops, i) == p && order[i].index != order[k].index;
    }
  }

  lemma UndoneOne(o: Operation, attached: Operation, skip: Addr -> Addr, pDetour: Addr, tramps: Trampolines,
                  p1: Pointers, tramps1: Trampolines, pbRemain1: map<nat, nat>)
    requires Detachable(attached, tramps, p1, tramps1, pbRemain1)
      && skip(p1[attached.ppbPointer]) == p1[attached.ppbPointer]
    requires Removes(o, attached.ppbPointer, skip(p1[attached.ppbPointer]), pDetour, tramps1, pbRemain1)
    ensures o == Undo(attached)
  {
  }

  lemma PointerOf(o: Operation, tramps: Trampolines, p1: Pointers, tramps1: Trampolines, pbRemain1: map<nat, nat>)
    requires Detachable(o, tramps, p1, tramps1, pbRemain1)
    ensures p1[o.ppbPointer] == o.pTrampoline
  {
  }

  /** Nothing fails. */
  predicate AllAllowed(order: seq<Removal>) {
    forall i :: 0 <= i < |order| ==> !order[i].noMemory && order[i].protect == NoError
  }

  /** The trampolines have the detours of the requests. */
  predicate AllDetours(reqs: seq<Request>, attach: seq<Operation>, skip: Addr -> Addr, tramps: Trampolines) {
    |attach| == |reqs|
      && forall j :: 0 <= j < |reqs| ==> DetourIs(tramps, Queued(attach, j).pTrampoline, skip(reqs[j].pDetour))
  }

  /** DetourCodeFromPointer gives the same detours both times. */
  predicate SameDetours(reqs: seq<Request>, skip: Addr -> Addr, skip2: Addr -> Addr) {
    forall j :: 0 <= j < |reqs| ==> skip2(reqs[j].pDetour) == skip(reqs[j].pDetour)
  }

  /** Detaches them, until one fails. */
  method DetachEach(d: Detours, me: int, reqs: seq<Request>, order: seq<Removal>, skip: Addr -> Addr,
                    ghost attach: seq<Operation>, ghost tramps: Trampolines)
    returns (ok: bool)
    requires d.Valid() && me != 0 && d.pendingThreadId == me && d.pendingError == NoError && d.operations == []
    requires |attach| == |reqs| && Covers(order, |reqs|) && DistinctTrampolines(attach)
    requires forall j :: 0 <= j < |reqs| ==>
      reqs[j].ppPointer == Queued(attach, j).ppbPointer && reqs[j].ppPointer != 0 && reqs[j].pDetour != 0
    requires forall o :: o in attach ==> Detachable(o, tramps, d.pointers, d.Views(), d.regions.pbRemain)
    requires forall o :: o in attach ==>
      o.ppbPointer in d.pointers && skip(d.pointers[o.ppbPointer]) == d.pointers[o.ppbPointer] != 0
    modifies d`pendingError, d`pendingPointer, d`operations
    ensures d.Valid() && (ok ==> d.pendingError == NoError && AllUndone(order, |order|, d.operations, attach))
    ensures AllAllowed(order) && AllDetours(reqs, attach, skip, d.Views()) ==> ok
  {
    hide Detours.Valid, TrampolinesIn, DistinctTrampolines, Detachable, Undo, OtherTrampolines;
    for k := 0 to |order|
      invariant d.Valid() && d.pendingError == NoError && AllUndone(order, k, d.operations, attach)
    {
      ghost var ops, o := d.operations, Queued(attach, order[k].index);
      var q := reqs[order[k].index];
      assert o in attach && Detachable(o, tramps, d.pointers, d.Views(), d.regions.pbRemain);
      PointerOf(o, tramps, d.pointers, d.Views(), d.regions.pbRemain);
      d.DetourRead(skip(d.pointers[q.ppPointer]), skip(q.pDetour));
      var error := d.Detach(me, q.ppPointer, q.pDetour, skip, order[k].noMemory, order[k].protect);
      if error != NoError { return false; }
      UndoneOne(d.operations[0], o, skip, skip(q.pDetour), tramps, d.pointers, d.Views(), d.regions.pbRemain);
      OneMoreUndone(order, k, ops, d.operations, attach, |reqs|);
    }
    return true;
  }

  lemma UndoneAll(order: seq<Removal>, ops: seq<Operation>, attach: seq<Operation>)
    requires AllUndone(order, |order|, ops, attach) && Covers(order, |attach|) && AllIndependent(attach)
      && DistinctTrampolines(attach)
    ensures AllIndependent(ops)
    ensures forall o :: o in attach ==> Undo(o) in ops
    ensures forall d :: d in ops ==> d.isRemove && exists o :: o in attach && d == Undo(o)
  {
    hide Independent, DistinctTrampolines;
    UndoneIndependent(order, ops, attach);
    hide AllIndependent;
    QueuedIsIn(ops);
    QueuedIsIn(attach);
    forall o | o in attach ensures Undo(o) in ops {
      var j :| 0 <= j < |attach| && Queued(attach, j) == o;
      assert Listed(order, j);
      var i :| 0 <= i < |order| && order[i].index == j;
      assert Queued(ops, i) == Undo(o);
    }
    forall d | d in ops ensures d.isRemove && exists o :: o in attach && d == Undo(o) {
      var i :| 0 <= i < |ops| && Queued(ops, i) == d;
      assert Queued(attach, order[i].index) in attach;
    }
  }

  lemma UndoneIndependent(order: seq<Removal>, ops: seq<Operation>, attach: seq<Operation>)
    requires AllUndone(order, |order|, ops, attach) && Covers(order, |attach|) && AllIndependent(attach)
    ensures AllIndependent(ops)
  {
    hide Independent, Listed;
    forall k, k' | 0 <= k < k' < |ops| ensures Independent(ops[k], ops[k']) {
      var i, i' := |ops| - 1 - k, |ops| - 1 - k';
      assert ops[k] == Queued(ops, i) && ops[k'] == Queued(ops, i');
      IndependentPair(attach, |attach| - 1 - order[i].index, |attach| - 1 - order[i'].index);
    }
  }

  lemma IndependentPair(ops: seq<Operation>, i: nat, j: nat)
    requires AllIndependent(ops) && i < |ops| && j < |ops| && i != j
    ensures Independent(Undo(ops[i]), Undo(ops[j]))
  {
    if i < j { assert Independent(ops[i], ops[j]); } else { assert Independent(ops[j], ops[i]); }
  }

  // ------------------------------------------------------------------- there and back

  /** Begins, attaches each of the requests and commits; begins again, detaches them in any order
      and commits.  If no call fails, every byte is restored exactly if no jump back has reached
      the saved bytes, which can be told from the requests; every pointer is left at the function
      that it led to, and the trampolines that are in use are those from before.  `skip2` is
      DetourCodeFromPointer in between, which does not skip anything in a trampoline. */
  method RoundTrip(d: Detours, me: int, reqs: seq<Request>, order: seq<Removal>, skip: Addr -> Addr,
                   skip2: Addr -> Addr, writable: int, writable2: int)
    returns (ok: bool)
    requires d.Valid() && me != 0 && d.pendingThreadId == 0
    requires Requests(reqs, skip, d.pointers, d.regions.regions) && Covers(order, |reqs|)
    requires forall t: Addr :: Regions.RegionOf(t) in AllRegions(reqs, d.regions.regions) ==> skip2(t) == t
    modifies d, d.regions, d.code, d.slots
    ensures d.Valid()
    ensures (writable == writable2 == NoError && AllGranted(reqs, skip, old(d.pointers), old(d.code.bytes))
             && AllAllowed(order) && SameDetours(reqs, skip, skip2)) ==> ok
    ensures ok ==>
      (SameCode(old(d.code.bytes), d.code.bytes) <==> AllIntact(reqs, skip, old(d.pointers), old(d.code.bytes)))
    ensures ok ==> PointersBack(reqs, skip, old(d.pointers), d.pointers)
    ensures ok ==> d.regions.live == old(d.regions.live) && d.pendingThreadId == 0
  {
    hide Detours.Valid, Requests, Effect, TrampolinesIn, Allocator.Valid, KeptSlots, KeptTrampolines, Taken, Removed;
    hide AllHooked, Committed, AllUndone, Covers, AllRegions, Regions.RegionOf, SameCode;
    ghost var m0, p0 := d.code.bytes, d.pointers;
    ghost var attach, tramps;
    var resumed;
    ok, resumed, attach, tramps := Hook(d, me, reqs, skip, writable, []);
    if !ok { return; }
    ghost var m1, p1, tramps1, pbRemain1 := d.code.bytes, d.pointers, d.Views(), d.regions.pbRemain;
    CanDetach(d, reqs, attach, tramps, skip, skip2, m0, p0, m1, old(d.regions.regions));
    var error := d.TransactionBegin(me, writable2);
    if error != NoError { return false; }
    ok := DetachEach(d, me, reqs, order, skip2, attach, tramps);
    if !ok { return; }
    ghost var detach := d.operations;
    KeysLive(d);
    error, resumed := d.TransactionCommit(me);
    if error != NoError { return false; }
    Back(reqs, order, attach, detach, tramps, skip, m0, p0, m1, p1, tramps1, pbRemain1, d.code.bytes, d.pointers);
    RemovedIsTaken(order, attach, detach);
  }

  lemma CanDetach(d: Detours, reqs: seq<Request>, attach: seq<Operation>, tramps: Trampolines, skip: Addr -> Addr,
                  skip2: Addr -> Addr, m0: Bytes, p0: Pointers, m1: Bytes, regions0: seq<nat>)
    requires d.Valid() && Requests(reqs, skip, p0, regions0)
    requires Committed(reqs, attach, tramps, skip, m0, p0, m1, d.pointers, d.Views(), d.regions.pbRemain)
    requires AllHooked(reqs, attach, skip, p0, m0, d)
    requires forall r :: r in d.regions.regions ==> r in AllRegions(reqs, regions0)
    requires forall t: Addr :: Regions.RegionOf(t) in AllRegions(reqs, regions0) ==> skip2(t) == t
    ensures |attach| == |reqs| && DistinctTrampolines(attach)
    ensures forall j :: 0 <= j < |reqs| ==>
      reqs[j].ppPointer == Queued(attach, j).ppbPointer && reqs[j].ppPointer != 0 && reqs[j].pDetour != 0
    ensures forall o :: o in attach ==> Detachable(o, tramps, d.pointers, d.Views(), d.regions.pbRemain)
    ensures forall o :: o in attach ==>
      o.ppbPointer in d.pointers && skip2(d.pointers[o.ppbPointer]) == d.pointers[o.ppbPointer] != 0
    ensures SameDetours(reqs, skip, skip2) ==> AllDetours(reqs, attach, skip2, d.Views())
  {
    hide Effect, AllIndependent, DistinctTrampolines, SizesFit, FreshRegions, Regions.RegionOf, AllRegions, Cut, Saved;
    hide Intact;
    hide Consistent, TrampolinesIn, Prepared, JumpIn, JumpAt, PointerAt, Wrap;
    forall j | 0 <= j < |reqs|
      ensures reqs[j].ppPointer == Queued(attach, j).ppbPointer && reqs[j].ppPointer != 0 && reqs[j].pDetour != 0
    {
      assert Request0(reqs[j], Queued(attach, j), tramps, skip, m0, p0)
        && Sensible(reqs[j], skip, p0, AllRegions(reqs, regions0));
    }
    KeysLive(d);
    forall j | 0 <= j < |reqs| ensures DetourIs(d.Views(), Queued(attach, j).pTrampoline, skip(reqs[j].pDetour)) {
      var q, o := reqs[j], Queued(attach, j);
      assert o in attach && Hooked(q, o, skip, p0, m0, d);
      DetourOfView(q, o, skip, m0, d);
    }
    forall o | o in attach
      ensures o.ppbPointer in d.pointers && skip2(d.pointers[o.ppbPointer]) == d.pointers[o.ppbPointer] != 0
    {
      assert Detachable(o, tramps, d.pointers, d.Views(), d.regions.pbRemain);
      d.regions.LiveInRegion(o.pTrampoline);
    }
  }

  lemma DetourOfView(q: Request, o: Operation, skip: Addr -> Addr, m0: Bytes, d: Detours)
    requires Prepared(d.slots.bytes, o.pTrampoline, q.copy, q.filler, m0, o.pbTarget, skip(q.pDetour))
      && o.pTrampoline in d.Views()
    ensures DetourIs(d.Views(), o.pTrampoline, skip(q.pDetour))
  {
    SizeOf(d.slots.bytes, o.pTrampoline, q.copy, q.filler, m0, o.pbTarget, skip(q.pDetour));
    hide Prepared, View;
  }

  /** The value of both transactions together. */
  lemma Back(reqs: seq<Request>, order: seq<Removal>, attach: seq<Operation>, detach: seq<Operation>,
             tramps: Trampolines, skip: Addr -> Addr, m0: Bytes, p0: Pointers, m1: Bytes, p1: Pointers,
             tramps1: Trampolines, pbRemain1: map<nat, nat>, m2: Bytes, p2: Pointers)
    requires Committed(reqs, attach, tramps, skip, m0, p0, m1, p1, tramps1, pbRemain1)
    requires AllUndone(order, |order|, detach, attach) && Covers(order, |reqs|)
    requires (forall o :: o in detach ==> o.pTrampoline in tramps1) && Effect(detach, tramps1, m1, p1, m2, p2)
    ensures SameCode(m0, m2) <==> AllIntact(reqs, skip, p0, m0)
    ensures PointersBack(reqs, skip, p0, p2)
  {
    hide Effect, AllIndependent, DistinctTrampolines, Covers, AllUndone, Saved, Intact, SameCode, Cut;
    UndoneAll(order, detach, attach);
    QueuedIsIn(attach);
    forall o | o in attach
      ensures o.ppbPointer in p0 && o.pbTarget == skip(p0[o.ppbPointer])
        && Detachable(o, tramps, p1, tramps1, pbRemain1)
    {
      var j :| 0 <= j < |attach| && Queued(attach, j) == o;
      assert Request0(reqs[j], o, tramps, skip, m0, p0);
    }
    EffectSame(detach, tramps1, tramps, m1, p1, m2, p2);
    AttachThenDetach(attach, detach, tramps, skip, m0, p0, m1, p1, m2, p2);
    forall j | 0 <= j < |reqs|
      ensures Request0(reqs[j], Queued(attach, j), tramps, skip, m0, p0) && Queued(attach, j) in attach
    {
    }
    forall p | p in p0 && (forall j :: 0 <= j < |reqs| ==> reqs[j].ppPointer != p) ensures p2[p] == p0[p] {
      forall o | o in attach ensures o.ppbPointer != p {
        var j :| 0 <= j < |attach| && Queued(attach, j) == o;
        assert reqs[j].ppPointer != p;
      }
    }
    assert AllIntact(reqs, skip, p0, m0) <==> forall o :: o in attach ==> Saved(o, tramps, m0) by {
      SavedIntact(reqs, attach, tramps, skip, m0, p0);
    }
  }

  lemma SavedIntact(reqs: seq<Request>, attach: seq<Operation>, tramps: Trampolines, skip: Addr -> Addr, m0: Bytes,
                    p0: Pointers)
    requires |attach| == |reqs|
      && forall j :: 0 <= j < |reqs| ==> Request0(reqs[j], Queued(attach, j), tramps, skip, m0, p0)
    requires forall o :: o in attach ==> o.pTrampoline in tramps
    ensures AllIntact(reqs, skip, p0, m0) <==> forall o :: o in attach ==> Saved(o, tramps, m0)
  {
    hide Saved, Intact, Cut;
    QueuedIsIn(attach);
    if AllIntact(reqs, skip, p0, m0) {
      forall o | o in attach ensures Saved(o, tramps, m0) {
        var j :| 0 <= j < |attach| && Queued(attach, j) == o;
        assert Request0(reqs[j], o, tramps, skip, m0, p0) && Intact(reqs[j], skip, p0, m0);
      }
    }
    if forall o :: o in attach ==> Saved(o, tramps, m0) {
      forall j | 0 <= j < |reqs| ensures reqs[j].ppPointer in p0 && Intact(reqs[j], skip, p0, m0) {
        assert Request0(reqs[j], Queued(attach, j), tramps, skip, m0, p0) && Queued(attach, j) in attach;
      }
    }
  }

  lemma RemovedIsTaken(order: seq<Removal>, attach: seq<Operation>, detach: seq<Operation>)
    requires AllUndone(order, |order|, detach, attach) && Covers(order, |attach|)
    requires forall o :: o in attach ==> !o.isRemove
    ensures Removed(detach) == Taken(attach)
  {
    QueuedIsIn(detach);
    QueuedIsIn(attach);
    forall o | o in attach ensures Undo(o) in detach {
      var j :| 0 <= j < |attach| && Queued(attach, j) == o;
      assert Listed(order, j);
      var i :| 0 <= i < |order| && order[i].index == j;
      assert Queued(detach, i) == Undo(o);
    }
    forall t ensures t in Removed(detach) <==> t in Taken(attach) {
      if o :| o in attach && !o.isRemove && o.pTrampoline == t { assert Undo(o) in detach; }
      if o :| o in detach && o.isRemove && o.pTrampoline == t {
        var i :| 0 <= i < |detach| && Queued(detach, i) == o;
        assert Queued(attach, order[i].index) in attach;
      }
    }
  }

  predicate AllIntact(reqs: seq<Request>, skip: Addr -> Addr, pointers: Pointers, code: Bytes) {
    forall j :: 0 <= j < |reqs| ==> reqs[j].ppPointer in pointers && Intact(reqs[j], skip, pointers, code)
  }

  ghost predicate PointersBack(reqs: seq<Request>, skip: Addr -> Addr, p0: Pointers, p2: Pointers) {
    && p2.Keys == p0.Keys
    && (forall p :: p in p0 && (forall j :: 0 <= j < |reqs| ==> reqs[j].ppPointer != p) ==> p2[p] == p0[p])
    && (forall j :: 0 <= j < |reqs| ==> var p := reqs[j].ppPointer; p in p0 && p2[p] == skip(p0[p]))
  }
}
