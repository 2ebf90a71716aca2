/** The operations that a transaction queues, what they do to code and pointers, and what holds of
    the queue and the trampolines (LoaderWatch.Inject/detours.cpp, for x64). */
module DetourOperations {
  import opened Words
  import opened X64Jumps
  import opened DetourPrologue
  import opened DetourSlots
  import Regions = DetourRegions
  import opened DetourAllocator

  /** A DetourOperation; the caller's pointer variable is known by a number that is not 0. */
  datatype Operation = Operation(isRemove: bool, ppbPointer: int, pbTarget: Addr, pTrampoline: nat, cbTarget: nat)

  type Pointers = map<int, Addr>

  /** The bytes [pbTarget, pbRemain) that an operation may write. */
  predicate Writes(o: Operation, b: int) { o.pbTarget <= b < o.pbTarget + o.cbTarget }

  /** Two operations on different targets, through different pointers. */
  predicate Independent(o: Operation, o': Operation) {
    o.ppbPointer != o'.ppbPointer && (o.pbTarget + o.cbTarget <= o'.pbTarget || o'.pbTarget + o'.cbTarget <= o.pbTarget)
  }

  ghost predicate AllIndependent(ops: seq<Operation>) {
    forall i, j :: 0 <= i < j < |ops| ==> Independent(ops[i], ops[j])
  }

  /** What an operation is for: an attached target jumps to the trampoline's rbCodeIn, filled up
      with break instructions; a detached one has its old bytes back. */
  ghost predicate Applied(o: Operation, tramps: Trampolines, m: Bytes, pointers: Pointers)
    requires o.pTrampoline in tramps
  {
    && o.ppbPointer in pointers
    && if o.isRemove then
         BytesAt(m, o.pbTarget, tramps[o.pTrampoline].rbRestore) && pointers[o.ppbPointer] == o.pbTarget
       else && JumpAt(m, o.pbTarget) == Always(Wrap(o.pTrampoline + OffsetCodeIn), 5)
            && (forall b :: o.pbTarget + 5 <= b < o.pbTarget + o.cbTarget ==> Byte(m, b) == 0xcc)
            && pointers[o.ppbPointer] == o.pTrampoline
  }

  /** The byte that an operation writes. */
  function Written(o: Operation, tramps: Trampolines, b: int): byte
    requires o.pTrampoline in tramps
  {
    if o.isRemove then
      var s, k := tramps[o.pTrampoline].rbRestore, b - o.pbTarget;
      if 0 <= k < |s| then s[k] else 0
    else if b < o.pbTarget + 5 then Byte(PatchBytes(o.pbTarget, Wrap(o.pTrampoline + OffsetCodeIn)), b)
    else 0xcc
  }

  /** Where an operation lets its pointer lead. */
  function Pointed(o: Operation): int { if o.isRemove then o.pbTarget else o.pTrampoline }

  lemma NowRestored(o: Operation, tramps: Trampolines, m: Bytes, m': Bytes, pointers: Pointers)
    requires o.isRemove && o.pTrampoline in tramps && o.ppbPointer in pointers && pointers[o.ppbPointer] == o.pbTarget
    requires var s := tramps[o.pTrampoline].rbRestore;
      && |s| == o.cbTarget && BytesAt(m', o.pbTarget, s)
      && forall b :: b < o.pbTarget || b >= o.pbTarget + |s| ==> Byte(m', b) == Byte(m, b)
    ensures Applied(o, tramps, m', pointers)
    ensures forall b :: Byte(m', b) == if Writes(o, b) then Written(o, tramps, b) else Byte(m, b)
  {
    var s := tramps[o.pTrampoline].rbRestore;
    forall b ensures Byte(m', b) == if Writes(o, b) then Written(o, tramps, b) else Byte(m, b) {
      if Writes(o, b) { assert Byte(m', o.pbTarget + (b - o.pbTarget)) == s[b - o.pbTarget]; }
    }
  }

  lemma NowRedirected(o: Operation, tramps: Trampolines, m: Bytes, m': Bytes, pointers: Pointers)
    requires !o.isRemove && o.pTrampoline in tramps && o.ppbPointer in pointers
      && pointers[o.ppbPointer] == o.pTrampoline
    requires var to := Wrap(o.pTrampoline + OffsetCodeIn);
      && JumpAt(m', o.pbTarget) == Always(to, 5)
      && forall b :: Byte(m', b) == if b < o.pbTarget || b >= o.pbTarget + o.cbTarget then Byte(m, b)
                                    else if b < o.pbTarget + 5 then Byte(PatchBytes(o.pbTarget, to), b) else 0xcc
    ensures Applied(o, tramps, m', pointers)
    ensures forall b :: Byte(m', b) == if Writes(o, b) then Written(o, tramps, b) else Byte(m, b)
  {
    hide Wrap, PatchBytes, JumpAt;
  }

  /** Of the operations that write a byte, or set a pointer, `k` is the last one of the list. */
  ghost predicate LastToWrite(ops: seq<Operation>, k: nat, b: int)
    requires k < |ops|
  {
    Writes(ops[k], b) && forall j :: k < j < |ops| ==> !Writes(ops[j], b)
  }

  ghost predicate LastToSet(ops: seq<Operation>, k: nat)
    requires k < |ops|
  {
    forall j :: k < j < |ops| ==> ops[j].ppbPointer != ops[k].ppbPointer
  }

  /** The effect of a list of operations on code and pointers: the last one to write a byte, and the
      last one to set a pointer, prevail.  Independent ones all have what they are for. */
  ghost predicate Effect(ops: seq<Operation>, tramps: Trampolines, m: Bytes, pointers: Pointers, m': Bytes,
                         pointers': Pointers)
    requires forall o :: o in ops ==> o.pTrampoline in tramps
  {
    && (forall b :: (forall o :: o in ops ==> !Writes(o, b)) ==> Byte(m', b) == Byte(m, b))
    && pointers'.Keys == pointers.Keys
    && (forall p :: p in pointers && (forall o :: o in ops ==> o.ppbPointer != p) ==> pointers'[p] == pointers[p])
    && (forall k, b :: 0 <= k < |ops| && LastToWrite(ops, k, b) ==> Byte(m', b) == Written(ops[k], tramps, b))
    && (forall k :: 0 <= k < |ops| && LastToSet(ops, k) ==>
         ops[k].ppbPointer in pointers' && pointers'[ops[k].ppbPointer] == Pointed(ops[k]))
    && (AllIndependent(ops) ==> forall o :: o in ops ==> Applied(o, tramps, m', pointers'))
  }

  /** A trampoline that is in use. */
  ghost predicate Filled(t: nat, tramps: Trampolines, pbRemain: map<nat, nat>) {
    && t in tramps && t in pbRemain && t + Regions.SlotSize < TwoTo64
    && 5 <= tramps[t].cbRestore == |tramps[t].rbRestore| <= 30 && tramps[t].cbRestore <= pbRemain[t] < TwoTo64
  }

  /** A queued operation that can be carried out. */
  ghost predicate Ready(o: Operation, tramps: Trampolines, live: set<nat>, pbRemain: map<nat, nat>, pointers: Pointers)
  {
    && o.pTrampoline in live && o.pTrampoline in tramps && o.pTrampoline in pbRemain && o.ppbPointer in pointers
    && o.pTrampoline + Regions.SlotSize < TwoTo64
    && var t := tramps[o.pTrampoline];
       && 5 <= t.cbRestore == |t.rbRestore| == o.cbTarget <= 30
       && pbRemain[o.pTrampoline] == o.pbTarget + o.cbTarget < TwoTo64
  }

  /** The jump of a queued attach will reach the trampoline. */
  ghost predicate Reachable(o: Operation) { Fits(Delta(Wrap(o.pTrampoline + OffsetCodeIn), Wrap(o.pbTarget + 5)), 4) }

  /** The bytes to restore are those that are there. */
  ghost predicate Saved(o: Operation, tramps: Trampolines, m: Bytes)
    requires o.pTrampoline in tramps
  {
    BytesAt(m, o.pbTarget, tramps[o.pTrampoline].rbRestore)
  }

  ghost predicate DistinctTrampolines(ops: seq<Operation>) {
    forall i, j :: 0 <= i < j < |ops| ==> ops[i].pTrampoline != ops[j].pTrampoline
  }

  /** None of the operations is for the trampoline of `o`. */
  ghost predicate OtherTrampolines(ops: seq<Operation>, o: Operation) {
    forall p :: p in ops ==> p.pTrampoline != o.pTrampoline
  }

  /** The trampolines that the transaction itself has taken. */
  ghost function Taken(ops: seq<Operation>): set<nat> { set o | o in ops && !o.isRemove :: o.pTrampoline }
  ghost function Removed(ops: seq<Operation>): set<nat> { set o | o in ops && o.isRemove :: o.pTrampoline }

  /** The queued operations and the trampolines in use, of which `taken` are not queued yet. */
  ghost predicate Core(taken: set<nat>, ops: seq<Operation>, tramps: Trampolines, live: set<nat>,
                       pbRemain: map<nat, nat>, base: set<nat>, pointers: Pointers) {
    && taken <= live && Marked(pbRemain, live - taken)
    && (forall t :: t in live - taken ==> Filled(t, tramps, pbRemain)) && tramps.Keys <= live
    && (forall o :: o in ops ==> Ready(o, tramps, live - taken, pbRemain, pointers))
    && DistinctTrampolines(ops)
    && live - taken == base + Taken(ops) && base !! Taken(ops) && Removed(ops) <= base
  }

  ghost predicate Consistent(taken: set<nat>, ops: seq<Operation>, tramps: Trampolines, live: set<nat>,
                             pbRemain: map<nat, nat>, base: set<nat>, pointers: Pointers) {
    && Core(taken, ops, tramps, live, pbRemain, base, pointers)
    && (forall o :: o in ops && !o.isRemove ==> Reachable(o))
  }

  lemma SameLive(ops: seq<Operation>, tramps: Trampolines, live: set<nat>, pbRemain: map<nat, nat>, base: set<nat>,
                 pointers: Pointers, pbRemain': map<nat, nat>)
    requires Consistent({}, ops, tramps, live, pbRemain, base, pointers)
    requires forall a :: a in live ==> a in pbRemain' && a in pbRemain && pbRemain'[a] == pbRemain[a]
    ensures Consistent({}, ops, tramps, live, pbRemain', base, pointers)
  {
    hide Reachable, DistinctTrampolines, Taken, Removed;
    assert live - {} == live;
    StillMarked(pbRemain, pbRemain', live);
  }

  lemma TakeOne(t: nat, ops: seq<Operation>, tramps: Trampolines, live: set<nat>, pbRemain: map<nat, nat>,
                base: set<nat>, pointers: Pointers, pbRemain': map<nat, nat>)
    requires Consistent({}, ops, tramps, live, pbRemain, base, pointers) && t !in live
    requires forall a :: a in live ==> a in pbRemain' && a in pbRemain && pbRemain'[a] == pbRemain[a]
    ensures Consistent({t}, ops, tramps, live + {t}, pbRemain', base, pointers)
  {
    hide Reachable, DistinctTrampolines, Taken, Removed;
    assert live + {t} - {t} == live - {} == live;
    StillMarked(pbRemain, pbRemain', live);
  }

  lemma DropOne(t: nat, ops: seq<Operation>, tramps: Trampolines, live: set<nat>, pbRemain: map<nat, nat>,
                base: set<nat>, pointers: Pointers, x: nat)
    requires Consistent({t}, ops, tramps, live, pbRemain, base, pointers)
    ensures Consistent({}, ops, tramps - {t}, live - {t}, pbRemain[t := x], base, pointers)
  {
    hide Reachable, DistinctTrampolines, Taken, Removed, BytesAt;
    assert live - {t} - {} == live - {t};
    assert forall a :: a in live - {t} ==> a in pbRemain;
    StillMarked(pbRemain, pbRemain[t := x], live - {t});
  }

  lemma TakenIsLive(t: nat, ops: seq<Operation>, tramps: Trampolines, live: set<nat>, pbRemain: map<nat, nat>,
                    base: set<nat>, pointers: Pointers)
    requires Consistent({t}, ops, tramps, live, pbRemain, base, pointers)
    ensures t in live
  {
    hide Reachable, DistinctTrampolines, Taken, Removed, Marked, Ready;
  }

  lemma FillOne(t: nat, ops: seq<Operation>, tramps: Trampolines, live: set<nat>, pbRemain: map<nat, nat>,
                base: set<nat>, pointers: Pointers, x: nat, tramp: Trampoline)
    requires Consistent({t}, ops, tramps, live, pbRemain, base, pointers)
    ensures Consistent({t}, ops, tramps[t := tramp], live, pbRemain[t := x], base, pointers)
  {
    hide Reachable, DistinctTrampolines, Taken, Removed, BytesAt;
    assert forall a :: a in live - {t} ==> a in pbRemain;
    StillMarked(pbRemain, pbRemain[t := x], live - {t});
  }

  lemma Enqueue(o: Operation, ops: seq<Operation>, tramps: Trampolines, live: set<nat>, pbRemain: map<nat, nat>,
                base: set<nat>, pointers: Pointers)
    requires Consistent({o.pTrampoline}, ops, tramps, live, pbRemain, base, pointers) && !o.isRemove
    requires Ready(o, tramps, live, pbRemain, pointers) && Reachable(o)
    requires pbRemain[o.pTrampoline] != 0
      && Regions.RegionOf(pbRemain[o.pTrampoline]) != Regions.RegionOf(o.pTrampoline)
    ensures Consistent({}, [o] + ops, tramps, live, pbRemain, base, pointers)
  {
    hide Reachable, Regions.RegionOf;
    var t, ops' := o.pTrampoline, [o] + ops;
    assert forall p :: p in ops' <==> p == o || p in ops;
    assert Taken(ops') == Taken(ops) + {t} && Removed(ops') == Removed(ops);
    assert live - {} == live == (live - {t}) + {t};
    assert forall p :: p in ops ==> p.pTrampoline != t;
    assert DistinctTrampolines(ops') by {
      forall i, j | 0 <= i < j < |ops'| ensures ops'[i].pTrampoline != ops'[j].pTrampoline {
        assert ops'[j] == ops[j - 1] && ops[j - 1] in ops;
        if i > 0 { assert ops'[i] == ops[i - 1]; }
      }
    }
  }

  /** The first operation of the queue is carried out, or given up: its trampoline is in use
      for good if it was attached, and it is in hand if it is to be freed. */
  lemma DequeueAttach(o: Operation, ops: seq<Operation>, tramps: Trampolines, live: set<nat>, pbRemain: map<nat, nat>,
                      base: set<nat>, pointers: Pointers)
    requires Core({}, [o] + ops, tramps, live, pbRemain, base, pointers) && !o.isRemove
    ensures Core({}, ops, tramps, live, pbRemain, base + {o.pTrampoline}, pointers)
    ensures Core({o.pTrampoline}, ops, tramps, live, pbRemain, base, pointers) && o.pTrampoline in live
  {
    DequeueSets(o, ops);
    hide DistinctTrampolines, Taken, Removed, Filled;
    RestReady(o, ops, tramps, live, pbRemain, pointers);
    hide Ready;
    assert live - {} == live;
    assert Marked(pbRemain, live - {o.pTrampoline});
  }

  lemma DequeueRemove(o: Operation, ops: seq<Operation>, tramps: Trampolines, live: set<nat>, pbRemain: map<nat, nat>,
                      base: set<nat>, pointers: Pointers)
    requires Core({}, [o] + ops, tramps, live, pbRemain, base, pointers) && o.isRemove
    ensures Core({}, ops, tramps, live, pbRemain, base, pointers)
    ensures Core({o.pTrampoline}, ops, tramps, live, pbRemain, base - {o.pTrampoline}, pointers)
      && o.pTrampoline in live
  {
    DequeueSets(o, ops);
    hide DistinctTrampolines, Taken, Removed, Filled;
    RestReady(o, ops, tramps, live, pbRemain, pointers);
    hide Ready;
    assert live - {} == live;
    assert Marked(pbRemain, live - {o.pTrampoline});
  }

  lemma RestReady(o: Operation, ops: seq<Operation>, tramps: Trampolines, live: set<nat>, pbRemain: map<nat, nat>,
                  pointers: Pointers)
    requires forall p :: p in [o] + ops ==> Ready(p, tramps, live - {}, pbRemain, pointers)
    requires forall p :: p in ops ==> p.pTrampoline != o.pTrampoline
    ensures o.pTrampoline in live
    ensures forall p :: p in ops ==>
      Ready(p, tramps, live - {}, pbRemain, pointers) && Ready(p, tramps, live - {o.pTrampoline}, pbRemain, pointers)
  {
    assert ([o] + ops)[0] == o;
    assert o in [o] + ops;
    assert forall p :: p in ops ==> p in [o] + ops;
  }

  lemma DequeueSets(o: Operation, ops: seq<Operation>)
    requires DistinctTrampolines([o] + ops)
    ensures DistinctTrampolines(ops) && o.pTrampoline !in Taken(ops) && o.pTrampoline !in Removed(ops)
    ensures forall p :: p in ops ==> p.pTrampoline != o.pTrampoline
    ensures Taken([o] + ops) == Taken(ops) + (if o.isRemove then {} else {o.pTrampoline})
    ensures Removed([o] + ops) == Removed(ops) + (if o.isRemove then {o.pTrampoline} else {})
  {
    var t, ops' := o.pTrampoline, [o] + ops;
    assert ops'[0] == o;
    assert forall p :: p in ops' <==> p == o || p in ops;
    assert forall p :: p in ops ==> p.pTrampoline != t by {
      forall p | p in ops ensures p.pTrampoline != t {
        var k :| 0 <= k < |ops| && ops[k] == p;
        assert ops'[k + 1] == p;
      }
    }
    assert DistinctTrampolines(ops) by {
      forall i, j | 0 <= i < j < |ops| ensures ops[i].pTrampoline != ops[j].pTrampoline {
        assert ops'[i + 1] == ops[i] && ops'[j + 1] == ops[j];
      }
    }
  }

  lemma DropCore(t: nat, ops: seq<Operation>, tramps: Trampolines, live: set<nat>, pbRemain: map<nat, nat>,
                 base: set<nat>, pointers: Pointers, x: nat)
    requires Core({t}, ops, tramps, live, pbRemain, base, pointers)
    ensures Core({}, ops, tramps - {t}, live - {t}, pbRemain[t := x], base, pointers)
  {
    hide DistinctTrampolines, Taken, Removed, BytesAt;
    assert live - {t} - {} == live - {t};
    assert forall a :: a in live - {t} ==> a in pbRemain;
    StillMarked(pbRemain, pbRemain[t := x], live - {t});
  }

  lemma CorePointers(ops: seq<Operation>, tramps: Trampolines, live: set<nat>, pbRemain: map<nat, nat>, base: set<nat>,
                     pointers: Pointers, pointers': Pointers)
    requires Core({}, ops, tramps, live, pbRemain, base, pointers) && pointers'.Keys == pointers.Keys
    ensures Core({}, ops, tramps, live, pbRemain, base, pointers')
  {
    hide DistinctTrampolines, Taken, Removed, BytesAt, Marked;
  }

  lemma NotTaken(t: nat, ops: seq<Operation>, tramps: Trampolines, live: set<nat>, pbRemain: map<nat, nat>,
                 base: set<nat>, pointers: Pointers)
    requires Consistent({}, ops, tramps, live, pbRemain, base, pointers) && t in tramps
      && forall p :: p in ops ==> p.pTrampoline != t
    ensures t in base
  {
    hide Ready, Filled, Reachable, Marked, DistinctTrampolines;
    assert live - {} == live;
  }

  lemma EnqueueRemove(o: Operation, ops: seq<Operation>, tramps: Trampolines, live: set<nat>, pbRemain: map<nat, nat>,
                      base: set<nat>, pointers: Pointers)
    requires Consistent({}, ops, tramps, live, pbRemain, base, pointers) && o.isRemove && o.pTrampoline in base
    requires Ready(o, tramps, live, pbRemain, pointers) && forall p :: p in ops ==> p.pTrampoline != o.pTrampoline
    ensures Consistent({}, [o] + ops, tramps, live, pbRemain, base, pointers)
  {
    hide Reachable, Marked;
    var t, ops' := o.pTrampoline, [o] + ops;
    assert live - {} == live;
    assert forall p :: p in ops' <==> p == o || p in ops;
    assert Taken(ops') == Taken(ops) && Removed(ops') == Removed(ops) + {t};
    assert DistinctTrampolines(ops') by {
      forall i, j | 0 <= i < j < |ops'| ensures ops'[i].pTrampoline != ops'[j].pTrampoline {
        assert ops'[j] == ops[j - 1] && ops[j - 1] in ops;
        if i > 0 { assert ops'[i] == ops[i - 1]; }
      }
    }
  }

  /** The code that an attach may overwrite is not in the region `r`. */
  ghost predicate Outside(pbTarget: Addr, r: nat) {
    forall x: nat :: pbTarget <= x <= pbTarget + 30 ==> Regions.RegionOf(x) != r
  }

  lemma CoreOf(taken: set<nat>, ops: seq<Operation>, tramps: Trampolines, live: set<nat>, pbRemain: map<nat, nat>,
               base: set<nat>, pointers: Pointers)
    requires Consistent(taken, ops, tramps, live, pbRemain, base, pointers)
    ensures Core(taken, ops, tramps, live, pbRemain, base, pointers)
  {
  }

  lemma LiveMarked(tramps: Trampolines, live: set<nat>, pbRemain: map<nat, nat>, base: set<nat>, pointers: Pointers)
    requires Consistent({}, [], tramps, live, pbRemain, base, pointers)
    ensures Marked(pbRemain, live)
  {
    assert live - {} == live;
  }

  lemma LiveInMap(tramps: Trampolines, live: set<nat>, pbRemain: map<nat, nat>, base: set<nat>, pointers: Pointers)
    requires Consistent({}, [], tramps, live, pbRemain, base, pointers)
    ensures forall t :: t in live ==> t in pbRemain
  {
    assert live - {} == live;
  }

  lemma {:induction false} UsedOnlySubset(s: seq<nat>, live: set<nat>)
    ensures forall r :: r in UsedOnly(s, live) ==> r in s
  {
    if s != [] { UsedOnlySubset(s[1..], live); }
  }

  lemma LiveFilled(ops: seq<Operation>, tramps: Trampolines, live: set<nat>, pbRemain: map<nat, nat>, base: set<nat>,
                   pointers: Pointers)
    requires Core({}, ops, tramps, live, pbRemain, base, pointers)
    ensures forall t :: t in live ==> t in tramps && t in pbRemain
  {
    hide Ready, DistinctTrampolines, Marked, Taken, Removed;
    assert live - {} == live;
  }

  lemma LiveFilledBut(t: nat, ops: seq<Operation>, tramps: Trampolines, live: set<nat>, pbRemain: map<nat, nat>,
                      base: set<nat>, pointers: Pointers)
    requires Core({t}, ops, tramps, live, pbRemain, base, pointers)
    ensures forall u :: u in live - {t} ==> u in tramps && u in pbRemain
  {
    hide Ready, DistinctTrampolines, Marked, Taken, Removed;
  }

  lemma RestoreFits(taken: set<nat>, ops: seq<Operation>, tramps: Trampolines, live: set<nat>, pbRemain: map<nat, nat>,
                    base: set<nat>, pointers: Pointers)
    requires Core(taken, ops, tramps, live, pbRemain, base, pointers)
    ensures forall u :: u in tramps ==> u in live && (u !in taken ==> tramps[u].cbRestore <= 30)
  {
    hide Ready, DistinctTrampolines, Marked, Taken, Removed;
    forall u | u in tramps && u !in taken ensures tramps[u].cbRestore <= 30 {
      assert u in live - taken && Filled(u, tramps, pbRemain);
    }
  }

  /** The trampolines of attaches are not among the removed ones. */
  lemma AttachedStay(ops: seq<Operation>, tramps: Trampolines, live: set<nat>, pbRemain: map<nat, nat>, base: set<nat>,
                     pointers: Pointers)
    requires Core({}, ops, tramps, live, pbRemain, base, pointers)
    ensures forall o :: o in ops && !o.isRemove ==> o.pTrampoline in live - Removed(ops)
  {
    hide Ready, Filled, Marked;
    forall o | o in ops && !o.isRemove ensures o.pTrampoline in live - Removed(ops) {
      var t := o.pTrampoline;
      assert t in Taken(ops);
      assert t !in base && t in live;
    }
  }

  /** A trampoline that is queued twice. */
  lemma QueuedTwice(o: Operation, ops: seq<Operation>, tramps: Trampolines, live: set<nat>, pbRemain: map<nat, nat>,
                    base: set<nat>, pointers: Pointers)
    requires !OtherTrampolines(ops, o)
    ensures !Consistent({}, [o] + ops, tramps, live, pbRemain, base, pointers)
  {
    hide Ready, Filled, Marked, Taken, Removed;
    var k :| 0 <= k < |ops| && ops[k].pTrampoline == o.pTrampoline;
    assert ([o] + ops)[0] == o && ([o] + ops)[k + 1] == ops[k];
  }

  lemma ReadyLive(o: Operation, tramps: Trampolines, live: set<nat>, pbRemain: map<nat, nat>, pointers: Pointers)
    requires Ready(o, tramps, live, pbRemain, pointers)
    ensures o.pTrampoline in live && o.pTrampoline in tramps
  {
  }

  lemma QueuedApart(ops: seq<Operation>, k: nat, tramps: Trampolines, live: set<nat>, pbRemain: map<nat, nat>,
                    base: set<nat>, pointers: Pointers)
    requires Core({}, ops, tramps, live, pbRemain, base, pointers) && k < |ops|
    ensures forall j :: 0 <= j < |ops| ==>
      ops[j].pTrampoline in live && (j != k ==> ops[j].pTrampoline != ops[k].pTrampoline)
  {
    hide Filled, Marked, Taken, Removed;
    forall j | 0 <= j < |ops|
      ensures ops[j].pTrampoline in live && (j != k ==> ops[j].pTrampoline != ops[k].pTrampoline)
    {
      assert ops[j] in ops;
    }
  }

  /** Attached trampolines keep their jump to the detour. */
  lemma JumpsKept(ops: seq<Operation>, m: Bytes, m': Bytes, live: set<nat>)
    requires KeptSlots(m, m', live, Regions.SlotSize)
    requires forall o :: o in ops && !o.isRemove ==> o.pTrampoline in live && JumpIn(m, o.pTrampoline)
    ensures forall o :: o in ops && !o.isRemove ==> JumpIn(m', o.pTrampoline)
  {
    hide JumpIn;
    forall o | o in ops && !o.isRemove ensures JumpIn(m', o.pTrampoline) {
      var t := o.pTrampoline;
      assert SameBytes(m, m', t, t + Regions.SlotSize);
      JumpInFrame(m, m', t);
    }
  }

  /** The trampolines of `live` keep their fields and their pbRemain. */
  ghost predicate KeptTrampolines(tramps: Trampolines, tramps': Trampolines, pbRemain: map<nat, nat>,
                                  pbRemain': map<nat, nat>, live: set<nat>) {
    forall t :: t in live ==>
      && t in tramps && t in tramps' && tramps'[t] == tramps[t]
      && t in pbRemain && t in pbRemain' && pbRemain'[t] == pbRemain[t]
  }

  lemma KeptThrough(tramps0: Trampolines, tramps1: Trampolines, tramps2: Trampolines, pbRemain0: map<nat, nat>,
                    pbRemain1: map<nat, nat>, pbRemain2: map<nat, nat>, live: set<nat>, live': set<nat>)
    requires KeptTrampolines(tramps0, tramps1, pbRemain0, pbRemain1, live)
    requires KeptTrampolines(tramps1, tramps2, pbRemain1, pbRemain2, live') && live' <= live
    ensures KeptTrampolines(tramps0, tramps2, pbRemain0, pbRemain2, live')
  {
  }

  lemma KeptFields(tramps: Trampolines, tramps': Trampolines, pbRemain: map<nat, nat>, pbRemain1: map<nat, nat>,
                   pbRemain2: map<nat, nat>, live: set<nat>)
    requires KeptTrampolines(tramps, tramps', pbRemain, pbRemain1, live)
    requires forall t :: t in live ==> t in pbRemain2 && t in pbRemain1 && pbRemain2[t] == pbRemain1[t]
    ensures KeptTrampolines(tramps, tramps', pbRemain, pbRemain2, live)
  {
  }

  lemma KeptOthers(t: nat, x: nat, tramps: Trampolines, pbRemain: map<nat, nat>, live: set<nat>)
    requires forall u :: u in live - {t} ==> u in tramps && u in pbRemain
    ensures KeptTrampolines(tramps, tramps - {t}, pbRemain, pbRemain[t := x], live - {t})
  {
  }

  /** The operation that an attach queues: the target is cut after whole instructions and padding,
      the trampoline is filled in, and the bytes to restore are right exactly if the jump back did
      not reach them. */
  ghost predicate Inserts(o: Operation, ppPointer: int, pbTarget: Addr, t: nat, copy: Copier, filler: nat -> nat,
                          pbDetour: Addr, tramps: Trampolines, slots: Bytes, code: Bytes) {
    && o == Operation(false, ppPointer, pbTarget, t, Cut(copy, filler))
    && t in tramps && tramps[t] == View(slots, t)
    && Prepared(slots, t, copy, filler, code, pbTarget, pbDetour)
    && (Saved(o, tramps, code) <==> Undamaged(CodeEnd(copy), BytesOf(code, pbTarget, o.cbTarget)))
  }

  /** A successful attach: one more operation, with a trampoline that was not in use, is near enough,
      and has nothing but breaks in its rbCodeIn yet.  The other trampolines keep their fields unless
      the moved code ended before the start of its own. */
  ghost predicate Attached(ppPointer: int, pbTarget: Addr, pbDetour: Addr, copy: Copier, filler: nat -> nat,
                           code: Bytes, ops: seq<Operation>, ops': seq<Operation>, live: set<nat>, live': set<nat>,
                           tramps: Trampolines, tramps': Trampolines, slots: Bytes, slots': Bytes) {
    && ops' != [] && ops'[1..] == ops
    && var o, t := ops'[0], ops'[0].pTrampoline;
       && Inserts(o, ppPointer, pbTarget, t, copy, filler, pbDetour, tramps', slots', code)
       && t !in live && live' == live + {t} && t < TwoTo64 && Within(code, pbTarget, t)
       && WritesAround(slots, slots', t, CodeEnd(copy))
       && (CodeEnd(copy) >= 0 ==> forall b :: t + OffsetCodeIn <= b < t + Regions.SlotSize ==> Byte(slots', b) == 0xcc)
       && tramps'.Keys == tramps.Keys + {t} && (CodeEnd(copy) >= 0 ==> tramps' == tramps[t := View(slots', t)])
  }

  predicate DetourIs(tramps: Trampolines, t: nat, pbDetour: Addr) { t in tramps && tramps[t].pbDetour == pbDetour }

  /** The operation that a detach queues, for a trampoline with that detour. */
  ghost predicate Removes(o: Operation, ppPointer: int, t: nat, pbDetour: Addr, tramps: Trampolines,
                          pbRemain: map<nat, nat>) {
    && DetourIs(tramps, t, pbDetour) && t in pbRemain
    && o == Operation(true, ppPointer, o.pbTarget, t, tramps[t].cbRestore) && o.pbTarget + o.cbTarget == pbRemain[t]
  }

  /** What an attach saves is what is there, exactly if the jump back did not reach it. */
  lemma SavedExactly(o: Operation, tramps: Trampolines, slots: Bytes, code: Bytes, copy: Copier, filler: nat -> nat,
                     pbDetour: Addr)
    requires o.pTrampoline in tramps && tramps[o.pTrampoline] == View(slots, o.pTrampoline)
      && o.cbTarget == Cut(copy, filler)
    requires Prepared(slots, o.pTrampoline, copy, filler, code, o.pbTarget, pbDetour)
    ensures Saved(o, tramps, code) <==> Undamaged(CodeEnd(copy), BytesOf(code, o.pbTarget, o.cbTarget))
  {
    hide Undamaged, KeptBytes, BytesOf, CodeEnd, Cut, View, JumpBack, CopiesAt, Boundaries, InOrder, Aligned, Prologue;
    hide BytesAt;
    var was := BytesOf(code, o.pbTarget, o.cbTarget);
    CopiesFit(copy);
    RestoreIntact(CodeEnd(copy), was);
    SameAsRead(code, o.pbTarget, KeptBytes(CodeEnd(copy), was));
  }

  lemma SameAsRead(m: Bytes, a: int, s: seq<byte>)
    ensures BytesAt(m, a, s) <==> s == BytesOf(m, a, |s|)
  {
    var was := BytesOf(m, a, |s|);
    if s != was {
      var k :| 0 <= k < |s| && s[k] != was[k];
      assert Byte(m, a + k) == was[k];
    }
  }

  lemma RemovedStep(o: Operation, ops: seq<Operation>)
    ensures Removed([o] + ops) == Removed(ops) + (if o.isRemove then {o.pTrampoline} else {})
    ensures Removed([]) == {}
  {
    assert forall p :: p in [o] + ops <==> p == o || p in ops;
  }

  lemma NothingQueued(tramps: Trampolines, live: set<nat>, pbRemain: map<nat, nat>, base: set<nat>, pointers: Pointers)
    requires Core({}, [], tramps, live, pbRemain, base, pointers)
    ensures live == base && Consistent({}, [], tramps, live, pbRemain, base, pointers)
  {
    assert live - {} == live;
    assert Taken([]) == {};
  }

  /** The patch jump is still there when only later bytes have changed. */
  lemma JumpFrame(m: Bytes, m': Bytes, a: Addr)
    requires forall b :: a <= b < a + 5 ==> Byte(m', b) == Byte(m, b)
    ensures JumpAt(m, a).Always? && JumpAt(m, a).size == 5 ==> JumpAt(m', a) == JumpAt(m, a)
  {
    LeFrame(m, m', a + 1, 4);
    hide Wrap;
  }

  lemma CanApply(ops: seq<Operation>, tramps: Trampolines, live: set<nat>, pbRemain: map<nat, nat>, base: set<nat>,
                 pointers: Pointers)
    requires Consistent({}, ops, tramps, live, pbRemain, base, pointers)
    ensures forall o :: o in ops ==>
      Ready(o, tramps, live, pbRemain, pointers) && o.pTrampoline in tramps && (!o.isRemove ==> Reachable(o))
    ensures SizesFit(ops, tramps)
  {
    hide DistinctTrampolines, Taken, Removed, BytesAt, Marked, Filled, Reachable;
    assert live - {} == live;
  }

  lemma ReadyKeys(o: Operation, tramps: Trampolines, live: set<nat>, pbRemain: map<nat, nat>, pointers: Pointers,
                  pointers': Pointers)
    requires Ready(o, tramps, live, pbRemain, pointers) && pointers'.Keys == pointers.Keys
    ensures Ready(o, tramps, live, pbRemain, pointers')
  {
  }

  lemma NoEffect(tramps: Trampolines, m: Bytes, pointers: Pointers)
    ensures Effect([], tramps, m, pointers, m, pointers)
  {
    forall b ensures Byte(m, b) == Byte(m, b) {}
  }

  /** What one operation did stays when an independent one is carried out. */
  lemma AppliedFrame(o: Operation, o': Operation, tramps: Trampolines, m: Bytes, p: Pointers, m': Bytes, p': Pointers)
    requires o.pTrampoline in tramps && Applied(o, tramps, m, p) && Independent(o, o')
    requires o.cbTarget == |tramps[o.pTrampoline].rbRestore| && o.cbTarget >= 5
    requires forall b :: !Writes(o', b) ==> Byte(m', b) == Byte(m, b)
    requires p'.Keys == p.Keys && forall x :: x in p && x != o'.ppbPointer ==> p'[x] == p[x]
    ensures Applied(o, tramps, m', p')
  {
    hide JumpAt, Wrap;
    assert forall b :: o.pbTarget <= b < o.pbTarget + o.cbTarget ==> !Writes(o', b);
    JumpFrame(m, m', o.pbTarget);
  }

  ghost predicate SizesFit(ops: seq<Operation>, tramps: Trampolines) {
    forall o :: o in ops ==> o.pTrampoline in tramps && 5 <= o.cbTarget == |tramps[o.pTrampoline].rbRestore|
  }

  lemma OneMoreEffect(ops: seq<Operation>, o: Operation, tramps: Trampolines, m0: Bytes, p0: Pointers, m: Bytes,
                      p: Pointers, m': Bytes, p': Pointers)
    requires SizesFit(ops + [o], tramps)
    requires (forall x :: x in ops ==> x.pTrampoline in tramps) && Effect(ops, tramps, m0, p0, m, p)
    requires o.pTrampoline in tramps && Applied(o, tramps, m', p')
    requires forall b :: Byte(m', b) == if Writes(o, b) then Written(o, tramps, b) else Byte(m, b)
    requires p'.Keys == p.Keys && o.ppbPointer in p' && p'[o.ppbPointer] == Pointed(o)
    requires forall x :: x in p && x != o.ppbPointer ==> p'[x] == p[x]
    ensures Effect(ops + [o], tramps, m0, p0, m', p')
  {
    var ops' := ops + [o];
    assert forall x :: x in ops' <==> x in ops || x == o;
    hide Applied, Writes, Written;
    forall k, b | 0 <= k < |ops'| && LastToWrite(ops', k, b) ensures Byte(m', b) == Written(ops'[k], tramps, b) {
      if k < |ops| {
        assert !Writes(ops'[|ops|], b) && Writes(ops[k], b);
        forall j | k < j < |ops| ensures !Writes(ops[j], b) { assert !Writes(ops'[j], b); }
        assert LastToWrite(ops, k, b);
      }
    }
    forall k | 0 <= k < |ops'| && LastToSet(ops', k)
      ensures ops'[k].ppbPointer in p' && p'[ops'[k].ppbPointer] == Pointed(ops'[k])
    {
      if k < |ops| {
        assert ops'[|ops|].ppbPointer != ops'[k].ppbPointer;
        forall j | k < j < |ops| ensures ops[j].ppbPointer != ops[k].ppbPointer { assert ops'[j] == ops[j]; }
        assert LastToSet(ops, k);
      }
    }
    if AllIndependent(ops') {
      assert AllIndependent(ops) by {
        forall i, j | 0 <= i < j < |ops| ensures Independent(ops[i], ops[j]) {
          assert ops'[i] == ops[i] && ops'[j] == ops[j];
        }
      }
      forall x | x in ops ensures Applied(x, tramps, m', p') {
        var i :| 0 <= i < |ops| && ops[i] == x;
        assert Independent(ops'[i], ops'[|ops|]);
        AppliedFrame(x, o, tramps, m, p, m', p');
      }
    }
  }

  // ---------------------------------------------------------------- suspended threads

  /** The threads that an operation looks at: those in the overwritten bytes, or in the first eight
      bytes of the trampoline. */
  predicate Touches(o: Operation, tramps: Trampolines, eip: nat)
    requires o.pTrampoline in tramps
  {
    if o.isRemove then o.pTrampoline <= eip < o.pTrampoline + 8
    else o.pbTarget <= eip < o.pbTarget + tramps[o.pTrampoline].cbRestore
  }

  /** Where one operation leaves a thread. */
  function MovedBy(o: Operation, tramps: Trampolines, eip: nat): nat
    requires o.pTrampoline in tramps
  {
    var t := tramps[o.pTrampoline];
    if o.isRemove then DetachedEip(eip, o.pbTarget, o.pTrampoline, t.rAlign)
    else AttachedEip(eip, o.pbTarget, t.cbRestore, o.pTrampoline, t.rAlign)
  }

  /** And all of them, one after the other. */
  function MovedByAll(ops: seq<Operation>, tramps: Trampolines, eip: nat): nat
    requires forall o :: o in ops ==> o.pTrampoline in tramps
  {
    if ops == [] then eip else MovedBy(ops[|ops| - 1], tramps, MovedByAll(ops[..|ops| - 1], tramps, eip))
  }

  /** A thread that none of the operations looks at stays. */
  lemma {:induction false} UntouchedStays(ops: seq<Operation>, tramps: Trampolines, eip: nat)
    requires forall o :: o in ops ==> o.pTrampoline in tramps && !Touches(o, tramps, eip)
    ensures MovedByAll(ops, tramps, eip) == eip
  {
    if ops != [] {
      var n := |ops| - 1;
      UntouchedStays(ops[..n], tramps, eip);
      assert ops[n] in ops;
    }
  }

  /** A thread that only one of them looks at, and that no later one looks at where it has been
      moved to, is where that one leaves it. */
  lemma {:induction false} MovedOnce(ops: seq<Operation>, tramps: Trampolines, eip: nat, k: nat)
    requires k < |ops| && forall o :: o in ops ==> o.pTrampoline in tramps
    requires forall j :: 0 <= j < k ==> !Touches(ops[j], tramps, eip)
    requires forall j :: k < j < |ops| ==> !Touches(ops[j], tramps, MovedBy(ops[k], tramps, eip))
    ensures MovedByAll(ops, tramps, eip) == MovedBy(ops[k], tramps, eip)
    decreases |ops|
  {
    var n := |ops| - 1;
    hide MovedBy;
    if k == n {
      forall o | o in ops[..n] ensures !Touches(o, tramps, eip) {}
      UntouchedStays(ops[..n], tramps, eip);
    } else {
      MovedOnce(ops[..n], tramps, eip, k);
      UntouchedIsLeft(ops[n], tramps, MovedBy(ops[k], tramps, eip));
    }
  }

  lemma UntouchedIsLeft(o: Operation, tramps: Trampolines, eip: nat)
    requires o.pTrampoline in tramps && !Touches(o, tramps, eip)
    ensures MovedBy(o, tramps, eip) == eip
  {
  }

  /** Among detaches, a thread at a boundary in the first eight bytes of a trampoline goes back to
      that boundary of its target exactly if the offset fits and no earlier entry has its place. */
  lemma ThreadReturns(ops: seq<Operation>, tramps: Trampolines, k: nat, copy: Copier, bs: seq<Boundary>, i: nat)
    requires k < |ops| && forall o :: o in ops ==> o.isRemove && o.pTrampoline in tramps
    requires Boundaries(copy, bs) && Short(bs) && Aligned(tramps[ops[k].pTrampoline].rAlign, bs)
    requires i < |bs| && 0 <= bs[i].trampoline < 8
    requires forall j :: 0 <= j < |ops| && j != k ==>
      ops[j].pTrampoline + 8 <= ops[k].pTrampoline || ops[k].pTrampoline + 8 <= ops[j].pTrampoline
    requires forall j :: 0 <= j < |ops| ==>
      ops[j].pTrampoline + 8 <= ops[k].pbTarget || ops[k].pbTarget + 8 <= ops[j].pTrampoline
    ensures MovedByAll(ops, tramps, ops[k].pTrampoline + bs[i].trampoline) == ops[k].pbTarget + bs[i].target <==>
      bs[i].target < 8 && forall j :: 0 <= j < i ==> bs[j].trampoline % 32 != bs[i].trampoline
  {
    hide Boundaries, Short, DetachedEip;
    var o := ops[k];
    var rAlign, eip := tramps[o.pTrampoline].rAlign, o.pTrampoline + bs[i].trampoline;
    DetachedThread(rAlign, o.pbTarget, o.pTrampoline, eip);
    MovedOnce(ops, tramps, eip, k);
    DetachedBoundary(copy, bs, rAlign, i, o.pbTarget, o.pTrampoline);
  }

  /** An effect says something of the trampolines of its operations only. */
  lemma EffectSame(ops: seq<Operation>, tramps: Trampolines, tramps': Trampolines, m: Bytes, p: Pointers, m': Bytes,
                   p': Pointers)
    requires forall o :: o in ops ==>
      o.pTrampoline in tramps && o.pTrampoline in tramps' && tramps'[o.pTrampoline] == tramps[o.pTrampoline]
    requires Effect(ops, tramps, m, p, m', p')
    ensures Effect(ops, tramps', m, p, m', p')
  {
    hide JumpAt, BytesAt, AllIndependent, Wrap, LastToWrite, LastToSet, Written;
    forall k, b | 0 <= k < |ops| && LastToWrite(ops, k, b) ensures Byte(m', b) == Written(ops[k], tramps', b) {
      assert ops[k] in ops;
      SameWritten(ops[k], tramps, tramps', b);
    }
    if AllIndependent(ops) {
      forall o | o in ops ensures Applied(o, tramps', m', p') { assert Applied(o, tramps, m', p'); }
    }
  }

  lemma SameWritten(o: Operation, tramps: Trampolines, tramps': Trampolines, b: int)
    requires o.pTrampoline in tramps && o.pTrampoline in tramps' && tramps'[o.pTrampoline] == tramps[o.pTrampoline]
    ensures Written(o, tramps', b) == Written(o, tramps, b)
  {
  }

  // ---------------------------------------------------------------- the round trip

  /** The detach that undoes an attach. */
  function Undo(o: Operation): Operation { Operation(true, o.ppbPointer, o.pbTarget, o.pTrampoline, o.cbTarget) }

  /** The last operation to write a byte. */
  lemma {:induction false} LastWriter(ops: seq<Operation>, o: Operation, b: int) returns (k: nat)
    requires o in ops && Writes(o, b)
    ensures k < |ops| && LastToWrite(ops, k, b)
  {
    var n := |ops| - 1;
    if Writes(ops[n], b) {
      k := n;
    } else {
      k := LastWriter(ops[..n], o, b);
      forall j | k < j < |ops| ensures !Writes(ops[j], b) {
        if j < n { assert !Writes(ops[..n][j], b); }
      }
    }
  }

  /** Every byte that a detach writes last gets back the value it had. */
  ghost predicate Returned(detach: seq<Operation>, tramps: Trampolines, m: Bytes)
    requires forall d :: d in detach ==> d.pTrampoline in tramps
  {
    forall k, b :: 0 <= k < |detach| && LastToWrite(detach, k, b) ==> Written(detach[k], tramps, b) == Byte(m, b)
  }

  /** Whatever targets the attaches of one transaction have, overlapping ones too: committing their
      detaches in any order restores every byte exactly if the last detach to write each byte
      has the old value of it, as all of them do if each attach saved what was there. */
  lemma DetachedAnyhow(attach: seq<Operation>, detach: seq<Operation>, tramps: Trampolines,
                       m0: Bytes, p0: Pointers, m1: Bytes, p1: Pointers, m2: Bytes, p2: Pointers)
    requires SizesFit(attach, tramps)
    requires forall o :: o in attach ==> !o.isRemove && Undo(o) in detach
    requires forall d :: d in detach ==> exists o :: o in attach && d == Undo(o)
    requires forall d :: d in detach ==> d.pTrampoline in tramps
    requires Effect(attach, tramps, m0, p0, m1, p1) && Effect(detach, tramps, m1, p1, m2, p2)
    ensures SameCode(m0, m2) <==> Returned(detach, tramps, m0)
    ensures (forall o :: o in attach ==> Saved(o, tramps, m0)) ==> SameCode(m0, m2)
    ensures forall k :: 0 <= k < |detach| && LastToSet(detach, k) ==>
      detach[k].ppbPointer in p2 && p2[detach[k].ppbPointer] == detach[k].pbTarget
  {
    hide Saved, LastToWrite, LastToSet, Writes, Written, Returned;
    forall b | forall d :: d in detach ==> !Writes(d, b) ensures Byte(m2, b) == Byte(m0, b) {
      forall o | o in attach ensures !Writes(o, b) { SameWrites(o, b); }
    }
    ReturnedExactly(detach, tramps, m0, m2);
    if forall o :: o in attach ==> Saved(o, tramps, m0) { SavedReturned(attach, detach, tramps, m0); }
    forall k | 0 <= k < |detach| && LastToSet(detach, k) ensures detach[k].isRemove { assert detach[k] in detach; }
  }

  lemma SameWrites(o: Operation, b: int)
    ensures Writes(Undo(o), b) <==> Writes(o, b)
  {
  }

  lemma ReturnedExactly(detach: seq<Operation>, tramps: Trampolines, m0: Bytes, m2: Bytes)
    requires forall d :: d in detach ==> d.pTrampoline in tramps
    requires forall b :: (forall d :: d in detach ==> !Writes(d, b)) ==> Byte(m2, b) == Byte(m0, b)
    requires forall k, b :: 0 <= k < |detach| && LastToWrite(detach, k, b) ==>
      Byte(m2, b) == Written(detach[k], tramps, b)
    ensures SameCode(m0, m2) <==> Returned(detach, tramps, m0)
  {
    hide Written, LastToWrite, Writes;
    forall b | Returned(detach, tramps, m0) ensures Byte(m2, b) == Byte(m0, b) {
      if d :| d in detach && Writes(d, b) { var k := LastWriter(detach, d, b); }
    }
  }

  lemma SavedReturned(attach: seq<Operation>, detach: seq<Operation>, tramps: Trampolines, m: Bytes)
    requires SizesFit(attach, tramps) && forall d :: d in detach ==> exists o :: o in attach && d == Undo(o)
    requires forall o :: o in attach ==> Saved(o, tramps, m)
    requires forall d :: d in detach ==> d.pTrampoline in tramps
    ensures Returned(detach, tramps, m)
  {
    hide Written, Saved;
    forall k, b | 0 <= k < |detach| && LastToWrite(detach, k, b) ensures Written(detach[k], tramps, b) == Byte(m, b) {
      assert detach[k] in detach;
      var o :| o in attach && detach[k] == Undo(o);
      SavedWritten(o, tramps, m, b);
    }
  }

  lemma SavedWritten(o: Operation, tramps: Trampolines, m: Bytes, b: int)
    requires o.pTrampoline in tramps && o.cbTarget == |tramps[o.pTrampoline].rbRestore|
    requires Writes(o, b) && Saved(o, tramps, m)
    ensures Written(Undo(o), tramps, b) == Byte(m, b)
  {
    assert Byte(m, o.pbTarget + (b - o.pbTarget)) == tramps[o.pTrampoline].rbRestore[b - o.pbTarget];
  }

  /** Committing attaches of independent targets and then committing their detaches, in any
      order, restores every byte exactly if the attaches saved what was there; a pointer is left
      at the function that its first value led to, which is its old value exactly if there was no
      jump to skip. */
  lemma AttachThenDetach(attach: seq<Operation>, detach: seq<Operation>, tramps: Trampolines, skip: Addr -> Addr,
                         m0: Bytes, p0: Pointers, m1: Bytes, p1: Pointers, m2: Bytes, p2: Pointers)
    requires AllIndependent(attach) && AllIndependent(detach) && SizesFit(attach, tramps)
    requires forall o :: o in attach ==> !o.isRemove && Undo(o) in detach
    requires forall o :: o in attach ==> o.ppbPointer in p0 && o.pbTarget == skip(p0[o.ppbPointer])
    requires forall d :: d in detach ==> exists o :: o in attach && d == Undo(o)
    requires (forall d :: d in detach ==> d.pTrampoline in tramps)
    requires Effect(attach, tramps, m0, p0, m1, p1) && Effect(detach, tramps, m1, p1, m2, p2)
    ensures SameCode(m0, m2) <==> forall o :: o in attach ==> Saved(o, tramps, m0)
    ensures p2.Keys == p0.Keys
    ensures forall p :: p in p0 && (forall o :: o in attach ==> o.ppbPointer != p) ==> p2[p] == p0[p]
    ensures forall o :: o in attach ==>
      p2[o.ppbPointer] == o.pbTarget
        && (p2[o.ppbPointer] == p0[o.ppbPointer] <==> skip(p0[o.ppbPointer]) == p0[o.ppbPointer])
  {
    if forall o :: o in attach ==> Saved(o, tramps, m0) {
      forall b ensures Byte(m2, b) == Byte(m0, b) {
        if o :| o in attach && Writes(o, b) {
          assert Applied(Undo(o), tramps, m2, p2);
          RestoredByte(o, tramps, m0, m2, b);
        } else {
          assert forall d :: d in detach ==> !Writes(d, b);
        }
      }
    }
    if SameCode(m0, m2) {
      forall o | o in attach ensures Saved(o, tramps, m0) {
        assert Applied(Undo(o), tramps, m2, p2);
        RestoredSame(tramps[o.pTrampoline].rbRestore, m0, m2, o.pbTarget);
      }
    }
    forall p | p in p0 && (forall o :: o in attach ==> o.ppbPointer != p) ensures p2[p] == p0[p] {
      assert forall d :: d in detach ==> d.ppbPointer != p;
      assert p1[p] == p0[p];
    }
    forall o | o in attach ensures p2[o.ppbPointer] == o.pbTarget {
      assert Applied(Undo(o), tramps, m2, p2);
    }
  }

  ghost predicate SameCode(m: Bytes, m': Bytes) { forall b :: Byte(m', b) == Byte(m, b) }

  lemma RestoredSame(s: seq<byte>, m0: Bytes, m2: Bytes, a: int)
    requires SameCode(m0, m2) && BytesAt(m2, a, s)
    ensures BytesAt(m0, a, s)
  {
  }

  lemma RestoredByte(o: Operation, tramps: Trampolines, m0: Bytes, m2: Bytes, b: int)
    requires o.pTrampoline in tramps && o.cbTarget == |tramps[o.pTrampoline].rbRestore| && Writes(o, b)
    requires Saved(o, tramps, m0) && BytesAt(m2, o.pbTarget, tramps[o.pTrampoline].rbRestore)
    ensures Byte(m2, b) == Byte(m0, b)
  {
    var k := b - o.pbTarget;
    assert Byte(m0, o.pbTarget + k) == tramps[o.pTrampoline].rbRestore[k] == Byte(m2, o.pbTarget + k);
  }
}
