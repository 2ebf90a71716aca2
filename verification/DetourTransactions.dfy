/** Transactions of attaches and detaches (LoaderWatch.Inject/detours.cpp, for x64). */
module DetourTransactions {
  import opened Words
  import opened X64Jumps
  import opened DetourPrologue
  import opened DetourSlots
  import opened DetourOperations
  import Regions = DetourRegions
  import opened DetourAllocator

  const NoError := 0
  const ErrorInvalidHandle := 6
  const ErrorNotEnoughMemory := 8
  const ErrorInvalidBlock := 9
  const ErrorInvalidParameter := 87
  const ErrorInvalidOperation := 4317

  class Detours {
    const regions: Allocator
    const code: Code
    /** The memory of the trampolines, but for their pbRemain, which is in `regions`. */
    const slots: Code
    var pointers: Pointers
    /** The trampolines that are filled in; a detach reads zeros elsewhere. */
    var filled: set<nat>
    var pendingThreadId: int
    var pendingError: int
    var pendingPointer: int
    var operations: seq<Operation>
    /** Where the threads are that were suspended for the transaction. */
    var threads: seq<nat>
    var ignoreTooSmall: bool
    var retainRegions: bool
    /** The trampolines that were in use when the transaction began. */
    ghost var base: set<nat>

    function Views(): Trampolines
      reads this`filled, slots`bytes
    {
      TrampolinesIn(slots.bytes, filled)
    }

    ghost predicate Valid()
      reads this, regions, slots
    {
      Holding({})
    }

    /** The state while the trampolines `taken` are in use but not queued yet. */
    ghost predicate Holding(taken: set<nat>)
      reads this, regions, slots
    {
      && slots != code && regions.Valid() && (forall r :: r in regions.regions ==> r + Regions.RegionSize < TwoTo64)
      && Consistent(taken, operations, Views(), regions.live, regions.pbRemain, base, pointers)
      && (pendingThreadId == 0 ==> operations == [])
    }

    constructor (code: Code, pointers: Pointers)
      ensures Valid() && this.code == code && fresh(regions) && fresh(slots) && this.pointers == pointers
      ensures pendingThreadId == 0 && regions.live == {}
    {
      regions := new Allocator();
      slots := new Code(map[]);
      this.code, this.pointers := code, pointers;
      filled, pendingThreadId, pendingError, pendingPointer := {}, 0, 0, 0;
      operations, threads, ignoreTooSmall, retainRegions, base := [], [], false, false, {};
    }

    /** DetourTransactionBegin on the thread `me`; `writable` is the result of making the
        trampoline pages writable. */
    method TransactionBegin(me: int, writable: int) returns (error: int)
      requires Valid() && me != 0
      modifies this`pendingThreadId, this`pendingError, this`pendingPointer, this`operations, this`threads, this`base
      ensures Valid()
      ensures if old(pendingThreadId) != 0 then
                error == ErrorInvalidOperation && unchanged(this)
              else
                && error == writable == pendingError && pendingThreadId == me && operations == [] && pendingPointer == 0
                && threads == [] && base == regions.live
    {
      hide Consistent, Core, Allocator.Valid, TrampolinesIn;
      if pendingThreadId != 0 {
        return ErrorInvalidOperation;
      }
      CoreOf({}, operations, Views(), regions.live, regions.pbRemain, base, pointers);
      NothingQueued(Views(), regions.live, regions.pbRemain, base, pointers);
      pendingThreadId := me;
      operations := [];
      threads := [];
      pendingPointer := 0;
      pendingError := writable;
      base := regions.live;
      return pendingError;
    }

    /** DetourUpdateThread, for a thread that is at `eip` when it is suspended, or for the calling one,
        which is not; `suspend` is the result of suspending it. */
    method UpdateThread(own: bool, eip: nat, noMemory: bool, suspend: int) returns (error: int)
      requires Valid()
      modifies this`threads, this`pendingError, this`pendingPointer
      ensures Valid()
      ensures error == if old(pendingError) != NoError then old(pendingError) else if own then NoError
                       else if noMemory then ErrorNotEnoughMemory else suspend
      ensures threads == if error == NoError && !own then [eip] + old(threads) else old(threads)
      ensures pendingError == error
      ensures pendingPointer == if old(pendingError) == NoError && error != NoError then 0 else old(pendingPointer)
    {
      hide Consistent, Allocator.Valid, View;
      if pendingError != NoError { return pendingError; }
      if own { return NoError; }
      error := if noMemory then ErrorNotEnoughMemory else suspend;
      if error != NoError {
        pendingError, pendingPointer := error, 0;
        return;
      }
      threads := [eip] + threads;
    }

    /** DetourAttachEx.  `skip` is DetourCodeFromPointer, `copy` and `filler` describe the target's
        instructions and padding, `newRegion` is what a search for free memory finds, `noMemory`
        tells whether `new` fails, and `protect` is the result of making the target writable.
        Where the moved code ends before the start of the trampoline, the jump back is written
        further on than the trampoline, over another one perhaps. */
    method Attach(me: int, ppPointer: int, pDetour: Addr, skip: Addr -> Addr, copy: Copier, filler: nat -> nat,
                  newRegion: nat, noMemory: bool, protect: int)
      returns (error: int)
      requires Valid() && me != 0 && (ppPointer != 0 ==> ppPointer in pointers) && (forall at: nat :: filler(at) <= 11)
      requires newRegion == 0
        || (Regions.IsBase(newRegion) && newRegion !in regions.regions && newRegion + Regions.RegionSize < TwoTo64)
      // functions are not in trampoline memory
      requires ppPointer != 0 && pointers[ppPointer] != 0 ==> NotInRegions(skip(pointers[ppPointer]), newRegion)
      modifies this`filled, this`pendingError, this`pendingPointer, this`operations, regions, slots
      ensures CodeEnd(copy) >= 0 || Cut(copy, filler) < SizeOfJmp ==> Valid()
      // refused at once
      ensures pDetour == 0 ==> error == ErrorInvalidParameter
      ensures pDetour != 0 && pendingThreadId != me ==> error == ErrorInvalidOperation
      ensures pDetour != 0 && pendingThreadId == me && old(pendingError) != NoError ==> error == old(pendingError)
      ensures pDetour == 0 || pendingThreadId != me || old(pendingError) != NoError || ppPointer == 0 ==>
        error != NoError && unchanged(this) && unchanged(regions) && unchanged(slots)
      ensures regions.regions == old(regions.regions)
        || (newRegion != 0 && regions.regions == [newRegion] + old(regions.regions))
      // otherwise the first thing that fails
      ensures pDetour != 0 && pendingThreadId == me && old(pendingError) == NoError && ppPointer != 0 ==>
        error == if pointers[ppPointer] == 0 then ErrorInvalidHandle
                 else if skip(pDetour) == skip(pointers[ppPointer]) then NoError
                 else if noMemory || !old(HasRoom(skip(pointers[ppPointer]), newRegion)) then ErrorNotEnoughMemory
                 else if Cut(copy, filler) < SizeOfJmp then ErrorInvalidBlock else protect
      // and either it is queued, or nothing is taken and the failure is remembered
      ensures pDetour != 0 && pendingThreadId == me && old(pendingError) == NoError && ppPointer != 0 ==>
        if Queues(error, pDetour, ppPointer, skip) then
          && pendingError == NoError && pendingPointer == old(pendingPointer)
          && operations != [] && operations[0].pTrampoline in regions.live
          && Attached(ppPointer, skip(pointers[ppPointer]), skip(pDetour), copy, filler, code.bytes,
               old(operations), operations, old(regions.live), regions.live, old(Views()), Views(),
               old(slots.bytes), slots.bytes)
        else
          && operations == old(operations) && filled == old(filled) && regions.live == old(regions.live)
          && pendingPointer == ppPointer
          && (CodeEnd(copy) >= 0 || Cut(copy, filler) < SizeOfJmp ==> Views() == old(Views()))
          && pendingError == if Cut(copy, filler) < SizeOfJmp && error == ErrorInvalidBlock
               && ignoreTooSmall then NoError
                             else error
    {
      hide Consistent, Allocator.Valid, FindJmpBounds, Regions.RegionOf, Regions.IsBase, Inserts, WritesAround, View;
      hide HasRoom, Nearby, Cut, CodeEnd;
      if pDetour == 0 { return ErrorInvalidParameter; }
      if pendingThreadId != me { return ErrorInvalidOperation; }
      if pendingError != NoError { return pendingError; }
      if ppPointer == 0 { return ErrorInvalidHandle; }
      if pointers[ppPointer] == 0 {
        error := ErrorInvalidHandle;
        pendingError := error;
        pendingPointer := ppPointer;
        return;
      }
      var pbTarget, detour := skip(pointers[ppPointer]), skip(pDetour);
      if detour == pbTarget {
        // `goto fail`, or `goto stop`, with no error so far
        pendingPointer := ppPointer;
        return NoError;
      }
      if noMemory {
        error := ErrorNotEnoughMemory;
        pendingError, pendingPointer := error, ppPointer;
        return;
      }
      OnlyLive();
      var pTrampoline := AllocFor(pbTarget, newRegion);
      assert pTrampoline != 0 ==>
        Regions.RegionOf(pTrampoline) in regions.regions && Regions.RegionOf(pTrampoline) != 0 by {
        if pTrampoline != 0 { InTheList(pTrampoline); }
      }
      if pTrampoline == 0 {
        error := ErrorNotEnoughMemory;
        pendingError, pendingPointer := error, ppPointer;
        return;
      }
      ghost var m := slots.bytes;
      error := Prepare(pTrampoline, ppPointer, pbTarget, detour, copy, filler, protect);
      WritesMore(old(slots.bytes), m, slots.bytes, pTrampoline, CodeEnd(copy));
    }

    /** A free list starts near enough to the target, or that of a new region will: it is the third
        slot's. */
    ghost predicate HasRoom(pbTarget: Addr, newRegion: nat)
      reads regions, code
    {
      || (exists r :: r in regions.regions && r in regions.pFree && 0 < regions.pFree[r] < TwoTo64
                      && Nearby(code.bytes, pbTarget, regions.pFree[r]))
      || (newRegion != 0 && newRegion + 3 * Regions.SlotSize < TwoTo64
          && Nearby(code.bytes, pbTarget, newRegion + 3 * Regions.SlotSize))
    }

    lemma RoomExactly(pbTarget: Addr, newRegion: nat)
      requires newRegion == 0 || newRegion + Regions.RegionSize < TwoTo64
      ensures var bounds := FindJmpBounds(code.bytes, pbTarget);
        HasRoom(pbTarget, newRegion) <==> regions.Room(bounds.0, bounds.1, newRegion)
    {
      var bounds := FindJmpBounds(code.bytes, pbTarget);
      hide FindJmpBounds, Nearby;
      forall t: Addr ensures bounds.0 <= t <= bounds.1 <==> Nearby(code.bytes, pbTarget, t) {
        BoundsExactly(code.bytes, pbTarget, t);
      }
    }

    /** An attach that returns success has queued its operation, unless the detour is the target
        itself: then it silently does nothing. */
    predicate Queues(error: int, pDetour: Addr, ppPointer: int, skip: Addr -> Addr)
      requires ppPointer in pointers
      reads this`pointers
    {
      error == NoError && skip(pDetour) != skip(pointers[ppPointer])
    }

    lemma OnlyLive()
      requires Valid()
      ensures forall t :: t in filled ==> t in regions.live
    {
      hide Allocator.Valid, Ready, Filled, DistinctTrampolines, Taken, Removed, Marked;
      assert Views().Keys == filled;
    }

    lemma InTheList(t: nat)
      requires Holding({t})
      ensures t in regions.live && Regions.RegionOf(t) in regions.regions && Regions.RegionOf(t) != 0
    {
      hide Allocator.Valid, Regions.RegionOf;
      TakenIsLive(t, operations, Views(), regions.live, regions.pbRemain, base, pointers);
      regions.LiveInRegion(t);
      regions.AllRegions();
    }

    /** The trampolines that are filled in are beside `t`. */
    lemma AllBeside(t: nat, taken: set<nat>, ops: seq<Operation>, base0: set<nat>)
      requires regions.Valid() && Core(taken, ops, Views(), regions.live, regions.pbRemain, base0, pointers)
      requires t in regions.live && taken <= {t}
      ensures forall u :: u in filled && u != t ==> Beside(slots.bytes, t, u)
      ensures t !in taken && t in filled ==> Byte(slots.bytes, t + OffsetRestore) <= 30
    {
      hide Allocator.Valid;
      RestoreFits(taken, ops, Views(), regions.live, regions.pbRemain, base0, pointers);
      hide Core;
      forall u | u in filled && u != t ensures Beside(slots.bytes, t, u) {
        assert u in Views();
        regions.LiveDisjoint(t, u);
      }
      assert t in filled ==> t in Views();
    }

    lemma LiveApart(t: nat)
      requires regions.Valid() && t in regions.live
      ensures Apart(regions.live, t)
    {
      hide Allocator.Valid;
      forall u | u in regions.live && u != t ensures u + Regions.SlotSize <= t || t + Regions.SlotSize <= u {
        regions.LiveDisjoint(t, u);
      }
    }

    /** detour_alloc_trampoline, within the bounds of the target. */
    method AllocFor(pbTarget: Addr, newRegion: nat) returns (pTrampoline: nat)
      requires Valid()
      requires newRegion == 0
        || (Regions.IsBase(newRegion) && newRegion !in regions.regions && newRegion + Regions.RegionSize < TwoTo64)
      modifies regions, slots
      ensures pTrampoline == 0 ==> Valid() && regions.live == old(regions.live) && unchanged(slots)
      ensures pTrampoline != 0 ==>
        && Holding({pTrampoline}) && pTrampoline !in old(regions.live)
        && regions.live == old(regions.live) + {pTrampoline}
        && pTrampoline + 0x200 < TwoTo64 && Within(code.bytes, pbTarget, pTrampoline)
        && forall b :: pTrampoline <= b < pTrampoline + Regions.SlotSize ==> Byte(slots.bytes, b) == 0xcc
      ensures pTrampoline != 0 <==> old(HasRoom(pbTarget, newRegion))
      ensures Views() == old(Views()) && pTrampoline !in filled
      ensures forall b :: b < pTrampoline || b >= pTrampoline + Regions.SlotSize ==>
        Byte(slots.bytes, b) == Byte(old(slots.bytes), b)
      ensures regions.regions == old(regions.regions)
        || (newRegion != 0 && regions.regions == [newRegion] + old(regions.regions))
    {
      hide Consistent, FindJmpBounds, Allocator.Valid, Regions.IsBase, View, Core;
      OnlyLive();
      var bounds := FindJmpBounds(code.bytes, pbTarget);
      RoomExactly(pbTarget, newRegion);
      hide HasRoom;
      pTrampoline := regions.AllocTrampoline(bounds.0, bounds.1, newRegion);
      regions.AllRegions();
      assert regions.regions != old(regions.regions) ==> newRegion in regions.regions;
      if pTrampoline == 0 {
        SameLive(operations, Views(), regions.live, old(regions.pbRemain), base, pointers, regions.pbRemain);
        assert 0 !in filled by { forall t | t in filled ensures t != 0 { regions.LiveInRegion(t); } }
      } else {
        regions.LiveInRegion(pTrampoline);
        BoundsBelow(code.bytes, pbTarget, pTrampoline);
        TakeOne(pTrampoline, operations, Views(), old(regions.live), old(regions.pbRemain), base, pointers,
                regions.pbRemain);
        HeldBeside(pTrampoline, {pTrampoline});
        ghost var m := slots.bytes;
        slots.Memset(pTrampoline, Regions.SlotSize, 0xcc);
        OthersKept(m, slots.bytes, filled, pTrampoline);
        assert filled - {pTrampoline} == filled && old(Views()) - {pTrampoline} == old(Views());
      }
    }

    lemma HeldBeside(t: nat, taken: set<nat>)
      requires Holding(taken) && taken <= {t} && t in regions.live
      ensures forall u :: u in filled && u != t ==> Beside(slots.bytes, t, u)
    {
      hide Consistent, Allocator.Valid, View, Core;
      CoreOf(taken, operations, Views(), regions.live, regions.pbRemain, base, pointers);
      AllBeside(t, taken, operations, base);
    }

    /** Frees a trampoline that is not queued; the memory is zeroed.  The other trampolines are
        right afterwards if they were `sound` before. */
    method Release(pTrampoline: nat, ghost sound: bool)
      requires regions.Valid() && pTrampoline in regions.live && (sound ==> Holding({pTrampoline}))
      modifies this`filled, regions, slots
      ensures sound ==> Valid() && Views() == old(Views()) - {pTrampoline}
      ensures regions.live == old(regions.live) - {pTrampoline} && regions.regions == old(regions.regions)
      ensures filled == old(filled) - {pTrampoline} && Zeroed(slots.bytes, pTrampoline)
      ensures forall b :: b < pTrampoline || b >= pTrampoline + Regions.SlotSize ==>
        Byte(slots.bytes, b) == Byte(old(slots.bytes), b)
    {
      hide Consistent, Allocator.Valid, View;
      ghost var m, live, views := slots.bytes, regions.live, Views();
      if sound { HeldBeside(pTrampoline, {pTrampoline}); }
      slots.Memset(pTrampoline, Regions.SlotSize, 0);
      if sound { OthersKept(m, slots.bytes, filled, pTrampoline); }
      regions.FreeTrampoline(pTrampoline);
      if sound {
        DropOne(pTrampoline, operations, views, live, old(regions.pbRemain), base, pointers,
                regions.pbRemain[pTrampoline]);
      }
      filled := filled - {pTrampoline};
    }

    /** The part of DetourAttachEx that fills the trampoline in. */
    method Prepare(pTrampoline: nat, ppPointer: int, pbTarget: Addr, detour: Addr, copy: Copier, filler: nat -> nat,
                   protect: int)
      returns (error: int)
      requires Holding({pTrampoline}) && pTrampoline !in filled
      requires pTrampoline + 0x200 < TwoTo64 && Within(code.bytes, pbTarget, pTrampoline)
      requires pendingError == NoError && pendingThreadId != 0 && ppPointer in pointers
        && (forall at: nat :: filler(at) <= 11)
      requires pbTarget != 0 && pbTarget + 30 < TwoTo64
      requires Outside(pbTarget, Regions.RegionOf(pTrampoline))
      modifies this`filled, this`pendingError, this`pendingPointer, this`operations, regions, slots
      ensures error == if Cut(copy, filler) < SizeOfJmp then ErrorInvalidBlock else protect
      ensures CodeEnd(copy) >= 0 || Cut(copy, filler) < SizeOfJmp ==> Valid()
      ensures WritesAround(old(slots.bytes), slots.bytes, pTrampoline, CodeEnd(copy))
        && regions.regions == old(regions.regions)
      ensures error == NoError ==>
        var o := Operation(false, ppPointer, pbTarget, pTrampoline, Cut(copy, filler));
        && operations == [o] + old(operations) && pendingError == NoError && pendingPointer == old(pendingPointer)
        && Inserts(o, ppPointer, pbTarget, pTrampoline, copy, filler, detour, Views(), slots.bytes, code.bytes)
        && regions.live == old(regions.live) && filled == old(filled) + {pTrampoline}
        && (CodeEnd(copy) >= 0 ==>
              SameBytes(old(slots.bytes), slots.bytes, pTrampoline + OffsetCodeIn, pTrampoline + Regions.SlotSize))
        && (CodeEnd(copy) >= 0 ==> Views() == old(Views())[pTrampoline := View(slots.bytes, pTrampoline)])
      ensures error != NoError ==>
        && operations == old(operations) && filled == old(filled) && regions.live == old(regions.live) - {pTrampoline}
        && (CodeEnd(copy) >= 0 || Cut(copy, filler) < SizeOfJmp ==> Views() == old(Views()))
             && pendingPointer == ppPointer
        && pendingError == if Cut(copy, filler) < SizeOfJmp && ignoreTooSmall then NoError else error
    {
      hide Consistent, Allocator.Valid, Boundaries, Aligned, Complete, InOrder, CopiesAt, View, Prepared, Saved;
      hide Undamaged, Outside, WithFiller, Rest;
      hide Regions.RegionOf, FindJmpBounds, Fits, Ready, Reachable;
      ghost var m, views := slots.bytes, Views();
      InTheList(pTrampoline);
      HeldBeside(pTrampoline, {pTrampoline});
      assert filled - {pTrampoline} == filled && views - {pTrampoline} == views;
      CopiesFit(copy);
      ghost var bs;
      var cbTarget, cbCode;
      cbTarget, cbCode, bs := CopyPrologue(copy, filler, slots, pTrampoline);
      OthersKept(m, slots.bytes, filled, pTrampoline);
      if cbTarget < SizeOfJmp {
        error := ErrorInvalidBlock;
        Release(pTrampoline, true);
        if !ignoreTooSmall { pendingError := error; }
        pendingPointer := ppPointer;
        return;
      }
      FillTrampoline(pTrampoline, pbTarget, detour, copy, filler, cbTarget, cbCode);
      var o := Operation(false, ppPointer, pbTarget, pTrampoline, cbTarget);
      SavedExactly(o, Views(), slots.bytes, code.bytes, copy, filler, detour);
      if cbCode >= 0 { CanQueue(o); }
      error := QueueAttach(o, protect, cbCode >= 0);
    }

    /** The end of DetourAttachEx: the target is made writable, and the operation is queued. */
    method QueueAttach(o: Operation, protect: int, ghost sound: bool) returns (error: int)
      requires regions.Valid() && o.pTrampoline in regions.live && pendingThreadId != 0
      requires sound ==>
        Holding({o.pTrampoline})
          && Consistent({}, [o] + operations, Views(), regions.live, regions.pbRemain, base, pointers)
      modifies this`filled, this`pendingError, this`pendingPointer, this`operations, regions, slots
      ensures error == protect && (sound ==> Valid()) && regions.regions == old(regions.regions)
      ensures error == NoError ==>
        operations == [o] + old(operations) && regions.live == old(regions.live)
          && unchanged(slots, this`filled, this`pendingError, this`pendingPointer)
      ensures error != NoError ==>
        && operations == old(operations) && pendingError == error && pendingPointer == o.ppbPointer
        && filled == old(filled) - {o.pTrampoline} && regions.live == old(regions.live) - {o.pTrampoline}
        && (sound ==> Views() == old(Views()) - {o.pTrampoline})
      ensures forall b :: b < o.pTrampoline || b >= o.pTrampoline + Regions.SlotSize ==>
        Byte(slots.bytes, b) == Byte(old(slots.bytes), b)
    {
      hide Consistent, Allocator.Valid, View;
      if protect != NoError {
        error := protect;
        Release(o.pTrampoline, sound);
        pendingError := error;
        pendingPointer := o.ppbPointer;
        return;
      }
      operations := [o] + operations;
      return NoError;
    }

    /** Fills in the fields of a trampoline whose code has been copied, and the jump back. */
    method FillTrampoline(pTrampoline: nat, pbTarget: Addr, detour: Addr, copy: Copier, filler: nat -> nat,
                          cbTarget: nat, cbCode: int)
      requires Holding({pTrampoline}) && pTrampoline in regions.live && pTrampoline + 0x200 < TwoTo64
      requires forall u :: u in filled && u != pTrampoline ==> Beside(slots.bytes, pTrampoline, u)
      requires cbTarget == Cut(copy, filler) && 5 <= cbTarget < 20 && cbCode == CodeEnd(copy) && -3 <= cbCode <= 31
      requires Aligned(RAlign(slots.bytes, pTrampoline), Prologue(copy))
      requires InOrder(copy, Prologue(copy)) ==> CopiesAt(slots.bytes, pTrampoline, copy, Prologue(copy))
      modifies this`filled, regions, slots
      ensures regions.Valid() && regions.live == old(regions.live) && regions.regions == old(regions.regions)
      ensures pTrampoline in regions.pbRemain && regions.pbRemain[pTrampoline] == pbTarget + cbTarget
      ensures filled == old(filled) + {pTrampoline} && WritesAround(old(slots.bytes), slots.bytes, pTrampoline, cbCode)
      ensures Prepared(slots.bytes, pTrampoline, copy, filler, code.bytes, pbTarget, detour)
      ensures View(slots.bytes, pTrampoline).cbRestore == |View(slots.bytes, pTrampoline).rbRestore| == cbTarget
      ensures cbCode >= 0 ==>
        SameBytes(old(slots.bytes), slots.bytes, pTrampoline + OffsetCodeIn, pTrampoline + Regions.SlotSize)
      ensures cbCode >= 0 ==>
        Holding({pTrampoline}) && Views() == old(Views())[pTrampoline := View(slots.bytes, pTrampoline)]
    {
      hide Consistent, Allocator.Valid, Boundaries, Aligned, Complete, InOrder, CopiesAt, View, Prepared, JumpBack;
      hide RAlign, SameBytes, TrampolinesIn, Beside, WritesAround;
      ghost var m, views := slots.bytes, Views();
      FillPrepared(slots, pTrampoline, code, pbTarget, cbTarget, cbCode, detour, copy, filler);
      if cbCode >= 0 {
        OthersKept(m, slots.bytes, filled, pTrampoline);
        FillOne(pTrampoline, operations, views, regions.live, regions.pbRemain, base, pointers, pbTarget + cbTarget,
                View(slots.bytes, pTrampoline));
      }
      regions.SetRemain(pTrampoline, pbTarget + cbTarget);
      filled := filled + {pTrampoline};
    }

    lemma CanQueue(o: Operation)
      requires Holding({o.pTrampoline}) && !o.isRemove && pendingThreadId != 0
      requires o.pTrampoline in Views() && o.pTrampoline in regions.pbRemain && o.ppbPointer in pointers
      requires o.pTrampoline + Regions.SlotSize < TwoTo64 && Within(code.bytes, o.pbTarget, o.pTrampoline)
      requires var t := Views()[o.pTrampoline]; 5 <= t.cbRestore == |t.rbRestore| == o.cbTarget <= 30
      requires o.pbTarget != 0 && o.pbTarget + 30 < TwoTo64 && Outside(o.pbTarget, Regions.RegionOf(o.pTrampoline))
      requires regions.pbRemain[o.pTrampoline] == o.pbTarget + o.cbTarget
      ensures Consistent({}, [o] + operations, Views(), regions.live, regions.pbRemain, base, pointers)
    {
      hide Consistent, Allocator.Valid, Fits, FindJmpBounds, Regions.RegionOf;
      TakenIsLive(o.pTrampoline, operations, Views(), regions.live, regions.pbRemain, base, pointers);
      PatchJumpsFit(code.bytes, o.pbTarget, o.pTrampoline, 0);
      Enqueue(o, operations, Views(), regions.live, regions.pbRemain, base, pointers);
    }

    /** No code at the target is trampoline memory. */
    ghost predicate NotInRegions(pbTarget: Addr, newRegion: nat)
      reads regions
    {
      && pbTarget != 0 && pbTarget + 30 < TwoTo64
      && (newRegion != 0 ==> Outside(pbTarget, newRegion)) && forall r :: r in regions.regions ==> Outside(pbTarget, r)
    }

    lemma FilledIn(t: nat)
      requires Valid()
      ensures t in filled ==>
        && t in Views() && t in regions.live && t in regions.pbRemain && t + Regions.SlotSize < TwoTo64
        && 5 <= Views()[t].cbRestore == |Views()[t].rbRestore| <= 30
        && Views()[t].cbRestore <= regions.pbRemain[t] < TwoTo64
    {
      hide Allocator.Valid, Ready, Reachable, DistinctTrampolines, Taken, Removed, Marked;
      assert regions.live - {} == regions.live;
      assert Views().Keys == filled;
    }

    method QueueRemove(o: Operation)
      requires Valid() && o.isRemove && pendingThreadId != 0 && o.ppbPointer in pointers
      requires o.pTrampoline in filled && o.cbTarget == Views()[o.pTrampoline].cbRestore
      requires o.pTrampoline in regions.pbRemain && o.pbTarget + o.cbTarget == regions.pbRemain[o.pTrampoline]
      modifies this`operations
      ensures operations == [o] + old(operations)
      ensures Valid() <==> OtherTrampolines(old(operations), o)
    {
      hide Allocator.Valid, Consistent;
      FilledIn(o.pTrampoline);
      if OtherTrampolines(operations, o) {
        NotTaken(o.pTrampoline, operations, Views(), regions.live, regions.pbRemain, base, pointers);
        EnqueueRemove(o, operations, Views(), regions.live, regions.pbRemain, base, pointers);
      } else {
        QueuedTwice(o, operations, Views(), regions.live, regions.pbRemain, base, pointers);
      }
      operations := [o] + operations;
    }

    /** A trampoline that is filled in, with these bytes for its pbDetour. */
    predicate HasDetour(t: nat, pbDetour: Addr)
      reads this`filled, slots`bytes
    {
      t in filled && LeBytes(8, pbDetour) == BytesOf(slots.bytes, t + OffsetDetour, 8)
    }

    lemma DetourRead(t: nat, pbDetour: Addr)
      ensures HasDetour(t, pbDetour) <==> DetourIs(Views(), t, pbDetour)
    {
      hide PointerAt, RAlign, BytesOf;
      PointerBytes(slots.bytes, t + OffsetDetour, pbDetour);
    }

    /** DetourDetach.  A trampoline that is not in use has been zeroed.  A trampoline may be queued
        once only: a commit would free it as often as it is queued. */
    method Detach(me: int, ppPointer: int, pDetour: Addr, skip: Addr -> Addr, noMemory: bool, protect: int)
      returns (error: int)
      requires Valid() && me != 0 && (ppPointer != 0 ==> ppPointer in pointers)
      modifies this`pendingError, this`pendingPointer, this`operations
      ensures Valid() <==>
        operations == old(operations) || (operations != [] && OtherTrampolines(old(operations), operations[0]))
      ensures pendingThreadId != me ==> error == ErrorInvalidOperation
      ensures pendingThreadId == me && old(pendingError) != NoError ==> error == old(pendingError)
      ensures pendingThreadId != me || old(pendingError) != NoError || pDetour == 0 || ppPointer == 0 ==>
        error != NoError && unchanged(this)
      ensures pendingThreadId == me && old(pendingError) == NoError && pDetour != 0 && ppPointer != 0 ==>
        error == if pointers[ppPointer] == 0 then ErrorInvalidHandle
                 else if noMemory then ErrorNotEnoughMemory
                 else if !HasDetour(skip(pointers[ppPointer]), skip(pDetour)) then ErrorInvalidBlock else protect
      ensures pendingThreadId == me && old(pendingError) == NoError && pDetour != 0 && ppPointer != 0 ==>
        if error == NoError then
          && operations != [] && operations[1..] == old(operations) && pendingError == NoError
          && Removes(operations[0], ppPointer, skip(pointers[ppPointer]), skip(pDetour), Views(), regions.pbRemain)
          && pendingPointer == old(pendingPointer)
        else
          && operations == old(operations) && pendingPointer == ppPointer
          && pendingError == if ignoreTooSmall && error == ErrorInvalidBlock
                                && !HasDetour(skip(pointers[ppPointer]), skip(pDetour)) then NoError
                             else error
    {
      hide Consistent, Allocator.Valid, View;
      if pendingThreadId != me { return ErrorInvalidOperation; }
      if pendingError != NoError { return pendingError; }
      if pDetour == 0 { return ErrorInvalidParameter; }
      if ppPointer == 0 { return ErrorInvalidHandle; }
      if pointers[ppPointer] == 0 {
        error := ErrorInvalidHandle;
        pendingError, pendingPointer := error, ppPointer;
        return;
      }
      if noMemory {
        error := ErrorNotEnoughMemory;
        pendingError, pendingPointer := error, ppPointer;
        return;
      }
      var pTrampoline, detour := skip(pointers[ppPointer]), skip(pDetour);
      FilledIn(pTrampoline);
      DetourRead(pTrampoline, detour);
      var cbTarget := if pTrampoline in filled then Views()[pTrampoline].cbRestore else 0;
      if cbTarget == 0 || cbTarget > 30 || Views()[pTrampoline].pbDetour != detour {
        error := ErrorInvalidBlock;
        if !ignoreTooSmall { pendingError := error; }
        pendingPointer := ppPointer;
        return;
      }
      var pbTarget := regions.pbRemain[pTrampoline] - cbTarget;
      if protect != NoError {
        error := protect;
        pendingError, pendingPointer := error, ppPointer;
        return;
      }
      QueueRemove(Operation(true, ppPointer, pbTarget, pTrampoline, cbTarget));
      return NoError;
    }

    // ------------------------------------------------------------- abort and commit

    /** DetourTransactionAbort: nothing was written to code, and what was taken is free again. */
    method TransactionAbort(me: int) returns (error: int, resumed: seq<nat>)
      requires Valid() && me != 0
      modifies this`filled, this`operations, this`threads, this`pendingThreadId, regions, slots
      ensures Valid()
      ensures resumed == if error == NoError then old(threads) else []
      ensures if old(pendingThreadId) != me then
                error == ErrorInvalidOperation && unchanged(this) && unchanged(regions) && unchanged(slots)
              else
                && error == NoError && pendingThreadId == 0 && operations == [] && threads == [] && regions.live == base
                && KeptSlots(old(slots.bytes), slots.bytes, regions.live, Regions.SlotSize)
                && KeptTrampolines(old(Views()), Views(), old(regions.pbRemain), regions.pbRemain, regions.live)
                && AllZeroed(slots.bytes, old(regions.live) - regions.live)
    {
      hide Consistent, Core, Allocator.Valid, View, KeptSlots, KeptTrampolines, AllZeroed;
      if pendingThreadId != me { return ErrorInvalidOperation, []; }
      var o := operations;
      NoneZeroed(slots.bytes, regions.live - regions.live);
      Beginning(o);
      while o != []
        invariant threads == old(threads)
        invariant regions.Valid() && regions.regions == old(regions.regions) && regions.live <= old(regions.live)
        invariant Core({}, o, Views(), regions.live, regions.pbRemain, base, pointers)
        invariant KeptSlots(old(slots.bytes), slots.bytes, regions.live, Regions.SlotSize)
        invariant KeptTrampolines(old(Views()), Views(), old(regions.pbRemain), regions.pbRemain, regions.live)
        invariant AllZeroed(slots.bytes, old(regions.live) - regions.live)
      {
        var t, rest := o[0].pTrampoline, o[1..];
        assert o == [o[0]] + rest;
        if o[0].isRemove {
          DequeueRemove(o[0], rest, Views(), regions.live, regions.pbRemain, base, pointers);
        } else {
          DequeueAttach(o[0], rest, Views(), regions.live, regions.pbRemain, base, pointers);
          ghost var m, live, views, pbRemain := slots.bytes, regions.live, Views(), regions.pbRemain;
          FreeDequeued(t, rest, base);
          assert old(regions.live) - regions.live == (old(regions.live) - live) + {t};
          KeptTwice(old(slots.bytes), m, slots.bytes, live, regions.live, Regions.SlotSize);
          KeptThrough(old(Views()), views, Views(), old(regions.pbRemain), pbRemain, regions.pbRemain, live,
                      regions.live);
        }
        o := rest;
      }
      NothingQueued(Views(), regions.live, regions.pbRemain, base, pointers);
      operations := [];
      resumed, threads := threads, [];
      pendingThreadId := 0;
      error := NoError;
    }

    lemma Beginning(o: seq<Operation>)
      requires Valid() && o == operations
      ensures Core({}, o, Views(), regions.live, regions.pbRemain, base, pointers)
      ensures KeptSlots(slots.bytes, slots.bytes, regions.live, Regions.SlotSize)
      ensures KeptTrampolines(Views(), Views(), regions.pbRemain, regions.pbRemain, regions.live)
    {
      hide Allocator.Valid, Consistent, Core, View;
      CoreOf({}, o, Views(), regions.live, regions.pbRemain, base, pointers);
      LiveFilled(o, Views(), regions.live, regions.pbRemain, base, pointers);
    }

    /** Frees a trampoline whose operation was taken out of the queue. */
    method FreeDequeued(t: nat, ghost rest: seq<Operation>, ghost base0: set<nat>)
      requires regions.Valid() && t in regions.live
      requires Core({t}, rest, Views(), regions.live, regions.pbRemain, base0, pointers)
      modifies this`filled, regions, slots
      ensures regions.Valid() && regions.regions == old(regions.regions) && regions.live == old(regions.live) - {t}
      ensures Core({}, rest, Views(), regions.live, regions.pbRemain, base0, pointers)
      ensures KeptSlots(old(slots.bytes), slots.bytes, regions.live, Regions.SlotSize)
      ensures KeptTrampolines(old(Views()), Views(), old(regions.pbRemain), regions.pbRemain, regions.live)
      ensures forall freed :: AllZeroed(old(slots.bytes), freed) ==> AllZeroed(slots.bytes, freed + {t})
    {
      hide Core, Allocator.Valid, View;
      ghost var m, live, views, pbRemain := slots.bytes, regions.live, Views(), regions.pbRemain;
      AllBeside(t, {t}, rest, base0);
      LiveApart(t);
      LiveFilledBut(t, rest, views, live, pbRemain, base0, pointers);
      slots.Memset(t, Regions.SlotSize, 0);
      OthersKept(m, slots.bytes, filled, t);
      OthersSame(m, slots.bytes, live, t);
      regions.FreeTrampoline(t);
      KeptOthers(t, regions.pbRemain[t], views, pbRemain, live);
      forall freed | AllZeroed(m, freed) ensures AllZeroed(slots.bytes, freed + {t}) {
        ZeroedMore(m, slots.bytes, freed, t);
      }
      DropCore(t, rest, views, live, pbRemain, base0, pointers, regions.pbRemain[t]);
      filled := filled - {t};
    }

    /** Writes the jump to `pbJmpVal`, and breaks up to pbRemain. */
    method Redirect(pbTarget: Addr, pbJmpVal: Addr, pbRemain: Addr)
      requires pbTarget + 5 <= pbRemain && Fits(Delta(pbJmpVal, Wrap(pbTarget + 5)), 4)
      modifies code
      ensures JumpAt(code.bytes, pbTarget) == Always(pbJmpVal, 5)
      ensures forall b :: Byte(code.bytes, b) == if b < pbTarget || b >= pbRemain then Byte(old(code.bytes), b)
                                                 else if b < pbTarget + 5 then Byte(PatchBytes(pbTarget, pbJmpVal), b)
                                                 else 0xcc
    {
      hide Wrap, Delta, Fits, Rel, PatchBytes, JumpAt;
      var pbCode := code.GenJmpImmediate(pbTarget, pbJmpVal);
      ghost var m := code.bytes;
      pbCode := code.GenBrk(pbCode, pbRemain);
      JumpFrame(m, code.bytes, pbTarget);
    }

    /** Carries one operation out. */
    method Apply(o: Operation)
      requires Ready(o, Views(), regions.live, regions.pbRemain, pointers) && (!o.isRemove ==> Reachable(o))
        && slots != code
      modifies code, slots, this`pointers
      ensures o.pTrampoline in filled && Applied(o, old(Views()), code.bytes, pointers)
      ensures forall b :: Byte(code.bytes, b) == if Writes(o, b) then Written(o, old(Views()), b)
                                                 else Byte(old(code.bytes), b)
      ensures pointers.Keys == old(pointers.Keys) && o.ppbPointer in pointers && pointers[o.ppbPointer] == Pointed(o)
        && forall p :: p in pointers && p != o.ppbPointer ==> pointers[p] == old(pointers)[p]
      ensures o.isRemove ==> unchanged(slots)
      ensures !o.isRemove ==> JumpIn(slots.bytes, o.pTrampoline)
      ensures var t := o.pTrampoline + OffsetCodeIn;
        forall b :: b < t || b >= t + 6 ==> Byte(slots.bytes, b) == Byte(old(slots.bytes), b)
    {
      hide Wrap, Delta, Fits, Rel, PatchBytes, JumpAt, Applied, Written, TrampolinesIn;
      var t := o.pTrampoline;
      ghost var views, m := Views(), code.bytes;
      ViewOf(slots.bytes, filled, t);
      hide View;
      if o.isRemove {
        code.CopyMemory(o.pbTarget, View(slots.bytes, t).rbRestore);
        pointers := pointers[o.ppbPointer := o.pbTarget];
        NowRestored(o, views, m, code.bytes, pointers);
      } else {
        CodeInReaches(t);
        var pbCode := slots.GenJmpIndirect(t + OffsetCodeIn, t + OffsetDetour);
        Redirect(o.pbTarget, Wrap(t + OffsetCodeIn), regions.pbRemain[t]);
        pointers := pointers[o.ppbPointer := t];
        NowRedirected(o, views, m, code.bytes, pointers);
      }
    }

    /** DetourTransactionCommitEx: all of the operations, or none of them.  The transaction's
        effect is on the bytes [pbTarget, pbRemain), on the pointers of its operations, and on
        rbCodeIn of the attached trampolines; suspended threads are moved along and resumed; the
        trampolines of removed detours are free again, and then unused regions go back. */
    method TransactionCommit(me: int) returns (error: int, resumed: seq<nat>)
      requires Valid() && me != 0
      modifies this, regions, code, slots
      ensures Valid()
      ensures old(pendingThreadId) != me ==>
        error == ErrorInvalidOperation && unchanged(this) && unchanged(regions) && unchanged(code) && unchanged(slots)
      ensures old(pendingThreadId) == me ==>
        error == old(pendingError) && pendingThreadId == 0 && operations == [] && threads == []
      ensures old(pendingThreadId) == me ==>
        && KeptSlots(old(slots.bytes), slots.bytes, regions.live, OffsetCodeIn)
        && KeptTrampolines(old(Views()), Views(), old(regions.pbRemain), regions.pbRemain, regions.live)
        && AllZeroed(slots.bytes, old(regions.live) - regions.live)
      ensures old(pendingThreadId) == me && error != NoError ==>
        unchanged(code) && pointers == old(pointers) && regions.live == old(base) && resumed == old(threads)
      ensures old(pendingThreadId) == me && error == NoError ==>
        && (forall o :: o in old(operations) ==> o.pTrampoline in old(Views()))
        && |resumed| == |old(threads)|
        && (forall i :: 0 <= i < |resumed| ==>
              resumed[i] == MovedByAll(old(operations), old(Views()), old(threads)[i]))
        && Effect(old(operations), old(Views()), old(code.bytes), old(pointers), code.bytes, pointers)
        && (forall o :: o in old(operations) && !o.isRemove ==> JumpIn(slots.bytes, o.pTrampoline))
        && regions.live == old(regions.live) - Removed(old(operations))
        && regions.regions == if !retainRegions && exists o :: o in old(operations) && o.isRemove
                              then UsedOnly(old(regions.regions), regions.live) else old(regions.regions)
    {
      hide Consistent, Core, Effect, Allocator.Valid, Removed, View, KeptSlots, KeptTrampolines, JumpIn;
      if pendingThreadId != me { return ErrorInvalidOperation, []; }
      if pendingError != NoError {
        error := pendingError;
        var aborted;
        aborted, resumed := TransactionAbort(me);
        KeptLess(old(slots.bytes), slots.bytes, regions.live);
        return;
      }
      ghost var ops, m, views, pbRemain, live := operations, slots.bytes, Views(), regions.pbRemain, regions.live;
      Beginning(ops);
      AttachedStay(ops, views, live, pbRemain, base, pointers);
      ApplyAll();
      MoveThreads();
      ghost var m1 := slots.bytes;
      var freed := FreeRemoved();
      KeptLess(m1, slots.bytes, regions.live);
      KeptTwice(m, m1, slots.bytes, live, regions.live, OffsetCodeIn);
      JumpsKept(ops, m1, slots.bytes, regions.live);
      ghost var views1, pbRemain1 := Views(), regions.pbRemain;
      if freed && !retainRegions {
        FreeRegions();
        KeptFields(views, views1, pbRemain, pbRemain1, regions.pbRemain, regions.live);
      }
      resumed, threads := threads, [];
      pendingThreadId := 0;
      error := pendingError;
    }

    /** Moves each of the suspended threads along with the operations. */
    method MoveThreads()
      requires forall o :: o in operations ==> o.pTrampoline in Views()
      modifies this`threads
      ensures |threads| == |old(threads)|
      ensures forall i :: 0 <= i < |threads| ==> threads[i] == MovedByAll(operations, Views(), old(threads)[i])
    {
      hide View, MovedBy;
      for i := 0 to |threads|
        invariant |threads| == |old(threads)|
        invariant forall j :: 0 <= j < i ==> threads[j] == MovedByAll(operations, Views(), old(threads)[j])
        invariant forall j :: i <= j < |threads| ==> threads[j] == old(threads)[j]
      {
        var eip := threads[i];
        for k := 0 to |operations|
          invariant eip == MovedByAll(operations[..k], Views(), old(threads)[i])
        {
          assert operations[..k + 1][..k] == operations[..k] && operations[..k + 1][k] == operations[k];
          eip := MovedBy(operations[k], Views(), eip);
        }
        assert operations[..|operations|] == operations;
        threads := threads[i := eip];
      }
    }

    /** The last loop of the commit; the queue is empty afterwards. */
    method FreeRemoved() returns (freed: bool)
      requires Holding0() && pendingThreadId != 0
      modifies this`filled, this`operations, this`base, regions, slots
      ensures Valid() && operations == [] && regions.regions == old(regions.regions)
      ensures regions.live == old(regions.live) - Removed(old(operations))
      ensures freed <==> exists o :: o in old(operations) && o.isRemove
      ensures KeptSlots(old(slots.bytes), slots.bytes, regions.live, Regions.SlotSize)
      ensures KeptTrampolines(old(Views()), Views(), old(regions.pbRemain), regions.pbRemain, regions.live)
      ensures AllZeroed(slots.bytes, old(regions.live) - regions.live)
    {
      hide Core, Allocator.Valid, Consistent, View, KeptSlots, KeptTrampolines, AllZeroed;
      var o := operations;
      NoneZeroed(slots.bytes, regions.live - regions.live);
      freed := false;
      ghost var base0 := base;
      Start0(o);
      while o != []
        invariant regions.Valid() && regions.regions == old(regions.regions) && regions.live <= old(regions.live)
        invariant Core({}, o, Views(), regions.live, regions.pbRemain, base0, pointers)
        invariant regions.live - Removed(o) == old(regions.live) - Removed(old(operations))
        invariant (exists p :: p in old(operations) && p.isRemove) <==> freed || exists p :: p in o && p.isRemove
        invariant KeptSlots(old(slots.bytes), slots.bytes, regions.live, Regions.SlotSize)
        invariant KeptTrampolines(old(Views()), Views(), old(regions.pbRemain), regions.pbRemain, regions.live)
        invariant AllZeroed(slots.bytes, old(regions.live) - regions.live)
      {
        var t, rest := o[0].pTrampoline, o[1..];
        assert o == [o[0]] + rest;
        RemovedStep(o[0], rest);
        assert forall p :: p in o <==> p == o[0] || p in rest;
        if o[0].isRemove {
          DequeueRemove(o[0], rest, Views(), regions.live, regions.pbRemain, base0, pointers);
          base0 := base0 - {t};
          ghost var m, live, views, pbRemain := slots.bytes, regions.live, Views(), regions.pbRemain;
          FreeDequeued(t, rest, base0);
          assert old(regions.live) - regions.live == (old(regions.live) - live) + {t};
          KeptTwice(old(slots.bytes), m, slots.bytes, live, regions.live, Regions.SlotSize);
          KeptThrough(old(Views()), views, Views(), old(regions.pbRemain), pbRemain, regions.pbRemain, live,
                      regions.live);
          freed := true;
        } else {
          DequeueAttach(o[0], rest, Views(), regions.live, regions.pbRemain, base0, pointers);
          base0 := base0 + {t};
        }
        o := rest;
      }
      NothingQueued(Views(), regions.live, regions.pbRemain, base0, pointers);
      base := base0;
      operations := [];
    }

    lemma NoneZeroed(m: Bytes, freed: set<nat>)
      requires freed == {}
      ensures AllZeroed(m, freed)
    {
    }

    lemma Start0(o: seq<Operation>)
      requires Holding0() && o == operations
      ensures KeptSlots(slots.bytes, slots.bytes, regions.live, Regions.SlotSize)
      ensures KeptTrampolines(Views(), Views(), regions.pbRemain, regions.pbRemain, regions.live)
    {
      hide Allocator.Valid, Core, View;
      LiveFilled(o, Views(), regions.live, regions.pbRemain, base, pointers);
    }

    /** Between the two loops of a commit the operations are carried out, but still queued. */
    ghost predicate Holding0()
      reads this, regions, slots
    {
      && slots != code && regions.Valid() && (forall r :: r in regions.regions ==> r + Regions.RegionSize < TwoTo64)
      && Core({}, operations, Views(), regions.live, regions.pbRemain, base, pointers)
    }

    method FreeRegions()
      requires Valid() && operations == []
      modifies regions
      ensures Valid() && regions.live == old(regions.live)
      ensures regions.regions == UsedOnly(old(regions.regions), regions.live)
      ensures forall t :: t in regions.live ==>
        t in regions.pbRemain && t in old(regions.pbRemain) && regions.pbRemain[t] == old(regions.pbRemain)[t]
    {
      hide Consistent, Allocator.Valid, UsedOnly, View;
      ghost var pbRemain := regions.pbRemain;
      assert Marked(pbRemain, regions.live) by { LiveMarked(Views(), regions.live, pbRemain, base, pointers); }
      UsedOnlySubset(regions.regions, regions.live);
      LiveInMap(Views(), regions.live, pbRemain, base, pointers);
      regions.FreeUnusedRegions();
      SameLive(operations, Views(), regions.live, pbRemain, base, pointers, regions.pbRemain);
    }

    /** Inserts or removes each of the detours. */
    method ApplyAll()
      requires Valid()
      modifies code, slots, this`pointers
      ensures Holding0() && Views() == old(Views())
      ensures forall o :: o in operations ==> o.pTrampoline in Views()
      ensures Effect(operations, Views(), old(code.bytes), old(pointers), code.bytes, pointers)
      ensures forall o :: o in operations && !o.isRemove ==> JumpIn(slots.bytes, o.pTrampoline)
      ensures KeptSlots(old(slots.bytes), slots.bytes, regions.live, OffsetCodeIn)
    {
      hide Effect, Ready, Reachable, Allocator.Valid, Core, Consistent, View, JumpIn, KeptSlots;
      ghost var m0, p0, views, s0 := code.bytes, pointers, Views(), slots.bytes;
      CanApply(operations, views, regions.live, regions.pbRemain, base, pointers);
      CoreOf({}, operations, views, regions.live, regions.pbRemain, base, pointers);
      assert operations[..0] == [];
      NoEffect(views, code.bytes, pointers);
      KeptSelf(s0, regions.live);
      for k := 0 to |operations|
        invariant Effect(operations[..k], views, m0, p0, code.bytes, pointers) && pointers.Keys == p0.Keys
          && Views() == views
        invariant KeptSlots(s0, slots.bytes, regions.live, OffsetCodeIn)
        invariant forall j :: 0 <= j < k && !operations[j].isRemove ==> JumpIn(slots.bytes, operations[j].pTrampoline)
      {
        var o := operations[k];
        ghost var m, p, s := code.bytes, pointers, slots.bytes;
        ReadyKeys(o, views, regions.live, regions.pbRemain, p0, pointers);
        ReadyLive(o, views, regions.live, regions.pbRemain, pointers);
        CorePointers(operations, views, regions.live, regions.pbRemain, base, p0, pointers);
        AllBeside(o.pTrampoline, {}, operations, base);
        LiveApart(o.pTrampoline);
        QueuedApart(operations, k, views, regions.live, regions.pbRemain, base, p0);
        Apply(o);
        CodeInKept(s, slots.bytes, filled, o.pTrampoline);
        CodeInSame(s, slots.bytes, regions.live, o.pTrampoline);
        KeptTwice(s0, s, slots.bytes, regions.live, regions.live, OffsetCodeIn);
        assert operations[..k + 1] == operations[..k] + [o];
        assert SizesFit(operations[..k + 1], views) by { assert SizesFit(operations, views); }
        OneMoreEffect(operations[..k], o, views, m0, p0, m, p, code.bytes, pointers);
      }
      assert operations[..|operations|] == operations;
      CorePointers(operations, views, regions.live, regions.pbRemain, base, p0, pointers);
    }
  }
}
