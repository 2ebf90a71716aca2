/** detour_alloc_trampoline, detour_free_trampoline and detour_free_unused_trampoline_regions
    of LoaderWatch.Inject/detours.cpp. */
module DetourAllocator {
  import opened DetourRegions

  /** The slots that go on the free list of a new region, from the `k`th on. */
  ghost function SlotList(r: Addr, k: nat): (s: seq<Addr>)
    requires k <= Slots
    ensures |s| == Slots - k
    decreases Slots - k
  {
    if k == Slots then [] else [SlotAddr(r, k)] + SlotList(r, k + 1)
  }

  lemma {:induction false} SlotListAt(r: Addr, k: nat, j: nat)
    requires k + j < Slots
    ensures SlotList(r, k)[j] == SlotAddr(r, k + j)
    decreases j
  {
    if j > 0 { SlotListAt(r, k + 1, j - 1); }
  }

  lemma SlotListStep(r: Addr, k: nat)
    requires k < Slots
    ensures SlotList(r, k) == [SlotAddr(r, k)] + SlotList(r, k + 1)
    ensures SlotAddr(r, k) !in SlotList(r, k + 1) && SlotAddr(r, k) != 0
    ensures k > 0 ==> SlotAddr(r, k - 1) !in SlotList(r, k + 1)
  {
    var s := SlotList(r, k + 1);
    forall a | a in s ensures a > SlotAddr(r, k) {
      var j :| 0 <= j < |s| && s[j] == a;
      SlotListAt(r, k + 1, j);
    }
  }

  lemma SlotListUsable(r: Addr, live: set<Addr>)
    requires IsBase(r) && forall i :: 0 <= i < Slots ==> SlotAddr(r, i) !in live
    ensures Distinct(SlotList(r, 2)) && forall t :: t in SlotList(r, 2) ==> Usable(r, t) && t !in live
    ensures forall i :: 2 <= i < Slots ==> SlotAddr(r, i) in SlotList(r, 2)
  {
    var s := SlotList(r, 2);
    forall j | 0 <= j < |s| ensures s[j] == SlotAddr(r, 2 + j) { SlotListAt(r, 2, j); }
    forall i | 2 <= i < Slots ensures SlotAddr(r, i) in s { assert s[i - 2] == SlotAddr(r, i); }
    forall t | t in s ensures Usable(r, t) && t !in live {
      var j :| 0 <= j < |s| && s[j] == t;
      assert t == SlotAddr(r, 2 + j);
    }
  }

  /** A live trampoline's pbRemain is set, and points to the function it came from, which is
      not in the trampoline's own region. */
  ghost predicate Marked(pbRemain: map<Addr, Addr>, live: set<Addr>) {
    forall t :: t in live ==> PointsOut(pbRemain, t)
  }

  /** No live trampoline of the region has a pbRemain outside of it. */
  ghost predicate NonePointsOut(r: Addr, pbRemain: map<Addr, Addr>, live: set<Addr>) {
    forall t :: t in live && RegionOf(t) == r ==> !PointsOut(pbRemain, t)
  }

  /** The live trampolines, and the regions that are left, are as before. */
  ghost predicate StillSet(pbRemain: map<Addr, Addr>, pbRemain': map<Addr, Addr>, live: set<Addr>) {
    forall t :: t in live && t in pbRemain ==> t in pbRemain' && pbRemain'[t] == pbRemain[t]
  }

  ghost predicate StillFree(free: FreeLists, free': FreeLists, regions: seq<Addr>) {
    forall r :: r in regions && r in free ==> r in free' && free'[r] == free[r]
  }

  lemma StillTwice(m0: map<Addr, Addr>, m1: map<Addr, Addr>, m2: map<Addr, Addr>, live: set<Addr>, f0: FreeLists,
                   f1: FreeLists, f2: FreeLists, before: seq<Addr>, r: Addr, after: seq<Addr>)
    requires StillSet(m0, m1, live) && StillSet(m1, m2, live)
    requires StillFree(f0, f1, before + [r] + after) && StillFree(f1, f2, before + after)
    ensures StillSet(m0, m2, live) && StillFree(f0, f2, before + after)
  {
  }

  lemma StillSame(m: map<Addr, Addr>, live: set<Addr>, f: FreeLists, regions: seq<Addr>)
    ensures StillSet(m, m, live) && StillFree(f, f, regions)
  {
  }

  lemma MarkedKeys(pbRemain: map<Addr, Addr>, live: set<Addr>)
    requires Marked(pbRemain, live)
    ensures live <= pbRemain.Keys
  {
    forall t | t in live ensures t in pbRemain { assert PointsOut(pbRemain, t); }
  }

  predicate PointsOut(pbRemain: map<Addr, Addr>, t: Addr) {
    t in pbRemain && pbRemain[t] != 0 && RegionOf(pbRemain[t]) != RegionOf(t)
  }

  /** Some trampoline of the region is live. */
  ghost predicate InUse(r: Addr, live: set<Addr>) { exists t :: t in live && RegionOf(t) == r }

  /** The regions that are in use, in the same order. */
  ghost function UsedOnly(regions: seq<Addr>, live: set<Addr>): seq<Addr> {
    if regions == [] then [] else
    (if InUse(regions[0], live) then [regions[0]] else []) + UsedOnly(regions[1..], live)
  }

  lemma UsedOnlyFirst(r: Addr, s: seq<Addr>, live: set<Addr>)
    ensures UsedOnly([r] + s, live) == (if InUse(r, live) then [r] else []) + UsedOnly(s, live)
    ensures UsedOnly([], live) == []
  {
    assert ([r] + s)[1..] == s;
  }

  /** What one turn of the loop over the regions keeps. */
  lemma OneTurn(kept: seq<Addr>, r: Addr, after: seq<Addr>, rest: seq<Addr>, live: set<Addr>)
    requires rest != [] && r == rest[0] && after == rest[1..]
    ensures kept + rest == kept + [r] + after == (kept + [r]) + after
    ensures kept + UsedOnly(rest, live) == (if InUse(r, live) then kept + [r] else kept) + UsedOnly(after, live)
  {
    assert rest == [r] + after;
    UsedOnlyFirst(r, after, live);
  }

  predicate Suits(r: Addr, pFree: map<Addr, Addr>, pLo: Addr, pHi: Addr) {
    r in pFree && pFree[r] != 0 && pLo <= pFree[r] <= pHi
  }

  /** The list of regions, their free lists, and the trampolines in use. */
  ghost predicate ListOk(pRegions: Addr, pRegion: Addr, pNext: map<Addr, Addr>, pFree: map<Addr, Addr>,
                         pbRemain: map<Addr, Addr>, regions: seq<Addr>, free: FreeLists, live: set<Addr>) {
    && Chain(pNext, pRegions, regions) && Distinct(regions)
    && (forall r :: r in regions ==> RegionOk(r, pFree, pbRemain, free, live))
    && (forall t :: t in live ==> RegionOf(t) in regions && Usable(RegionOf(t), t))
    && (pRegion == 0 || pRegion in regions)
  }

  class Allocator {
    /** s_pRegions, the list of all regions, and s_pRegion, the default one. */
    var pRegions: Addr
    var pRegion: Addr
    /** The fields of the regions, and the pbRemain of every slot. */
    var pNext: map<Addr, Addr>
    var pFree: map<Addr, Addr>
    var pbRemain: map<Addr, Addr>
    ghost var regions: seq<Addr>
    ghost var free: FreeLists
    ghost var live: set<Addr>

    ghost predicate Valid()
      reads this
    {
      ListOk(pRegions, pRegion, pNext, pFree, pbRemain, regions, free, live)
    }

    constructor ()
      ensures Valid() && regions == [] && live == {} && pRegion == 0
    {
      pRegions, pRegion := 0, 0;
      pNext, pFree, pbRemain := map[], map[], map[];
      regions, free, live := [], map[], {};
    }

    /** Takes the first free trampoline of the default region. */
    method TakeFromDefault() returns (t: Addr)
      requires Valid() && pRegion in regions && pFree[pRegion] != 0
      modifies this`pFree, this`pbRemain, this`free, this`live
      ensures Valid()
      ensures t == old(pFree[pRegion]) && t !in old(live) && live == old(live) + {t} && RegionOf(t) == pRegion
      ensures pbRemain == old(pbRemain)[t := Filled]
      ensures old(free[pRegion]) != [] && free == old(free)[pRegion := old(free[pRegion])[1..]]
    {
      hide RegionOk, Chain, Distinct, Usable;
      ghost var r := pRegion;
      InRegion(r);
      t := pFree[pRegion];
      Pop(r, pFree, pbRemain, free, live);
      UsableInRegion(r, t);
      forall r' | r' in regions && r' != r
        ensures RegionOk(r', pFree[r := pbRemain[t]], pbRemain[t := Filled], free[r := free[r][1..]], live + {t})
      {
        InRegion(r');
        OtherRegion(r, t, Filled, r', pFree, pbRemain, free, live, pFree[r := pbRemain[t]], free[r := free[r][1..]],
                    live + {t});
      }
      pFree := pFree[pRegion := pbRemain[t]];
      pbRemain := pbRemain[t := Filled];
      free := free[r := free[r][1..]];
      live := live + {t};
    }

    lemma InRegion(r: Addr)
      requires Valid() && r in regions
      ensures RegionOk(r, pFree, pbRemain, free, live) && IsBase(r) && r in pFree && r in free && r in pNext
      ensures pFree[r] != 0 ==> free[r] != [] && pFree[r] == free[r][0] && pFree[r] in pbRemain
    {
      if pFree[r] != 0 { ChainTail(pbRemain, pFree[r], free[r]); }
    }

    /** A list starts within the bounds, or a new region's will. */
    ghost predicate Room(pLo: Addr, pHi: Addr, newRegion: Addr)
      reads this
    {
      (exists r :: r in regions && Suits(r, pFree, pLo, pHi))
        || (newRegion != 0 && pLo <= SlotAddr(newRegion, 2) <= pHi)
    }

    /** detour_alloc_trampoline, between the bounds that detour_find_jmp_bounds gave.
        `newRegion` is what detour_alloc_trampoline_allocate_new finds: null, or the base of 64 KB
        of zeroed memory that is in no region. */
    method AllocTrampoline(pLo: Addr, pHi: Addr, newRegion: Addr) returns (pTrampoline: Addr)
      requires Valid() && (newRegion == 0 || (IsBase(newRegion) && newRegion !in regions))
      modifies this
      ensures Valid()
      // a trampoline within the bounds that was not handed out
      ensures pTrampoline != 0 ==>
        && pLo <= pTrampoline <= pHi && pTrampoline !in old(live) && live == old(live) + {pTrampoline}
        && pTrampoline in pbRemain && pbRemain[pTrampoline] == Filled
      // the head of the default region's list, or the third slot of the new one
      ensures pTrampoline != 0 ==> pRegion == RegionOf(pTrampoline) && pRegion in regions
      ensures pTrampoline != 0 ==>
        if regions == old(regions) then
          && pRegion in old(free) && old(free)[pRegion] != [] && old(free)[pRegion][0] == pTrampoline
          && free == old(free)[pRegion := old(free)[pRegion][1..]]
        else
          && pRegion == newRegion && pTrampoline == SlotAddr(newRegion, 2)
          && free == old(free)[newRegion := SlotList(newRegion, 3)]
      // or none, if no list starts within the bounds and there is no new region within them
      ensures pTrampoline == 0 ==>
        && live == old(live)
        && (forall r :: r in old(regions) ==> !Suits(r, old(pFree), pLo, pHi))
        && (newRegion == 0 || !(pLo <= SlotAddr(newRegion, 2) <= pHi))
      ensures pTrampoline != 0 <==> old(Room(pLo, pHi, newRegion))
      // a region is added only if no list starts within the bounds
      ensures regions == old(regions)
        || (regions == [newRegion] + old(regions) && forall r :: r in old(regions) ==> !Suits(r, old(pFree), pLo, pHi))
      ensures forall t :: t in old(live) ==> t in pbRemain && t in old(pbRemain) && pbRemain[t] == old(pbRemain)[t]
    {
      hide RegionOk, Chain, Distinct, Usable, IsBase;
      LiveSlots();
      AllRegions();
      var found := FindRegion(pLo, pHi);
      if found {
        InRegion(pRegion);
        assert Suits(pRegion, pFree, pLo, pHi);
        pTrampoline := TakeFromDefault();
      } else if newRegion != 0 {
        AddRegion(newRegion);
        pTrampoline := pFree[pRegion];
        if pTrampoline < pLo || pTrampoline > pHi {
          return 0;
        }
        SlotListStep(newRegion, 2);
        ghost var free1 := free;
        pTrampoline := TakeFromDefault();
        assert free1[newRegion][1..] == SlotList(newRegion, 3);
        assert free == free1[newRegion := SlotList(newRegion, 3)] == old(free)[newRegion := SlotList(newRegion, 3)];
      } else {
        return 0;
      }
    }

    /** Makes the first region whose free list starts within the bounds the default one: the
        default one itself if it can be, then in the order of the list. */
    method FindRegion(pLo: Addr, pHi: Addr) returns (found: bool)
      requires Valid()
      modifies this`pRegion
      ensures Valid()
      ensures found ==> pRegion in regions && Suits(pRegion, pFree, pLo, pHi)
      ensures !found ==> pRegion == 0 && forall r :: r in regions ==> !Suits(r, pFree, pLo, pHi)
      ensures var default := if old(pRegion) == 0 then pRegions else old(pRegion);
        if default in regions && Suits(default, pFree, pLo, pHi) then pRegion == default
        else found ==>
          exists k ::
            0 <= k < |regions| && pRegion == regions[k]
              && forall j :: 0 <= j < k ==> !Suits(regions[j], pFree, pLo, pHi)
    {
      hide RegionOk, Chain, Distinct, Usable, IsBase;
      AllRegions();
      FirstRegion();
      // Insure that there is a default region.
      if pRegion == 0 && pRegions != 0 {
        pRegion := pRegions;
      }
      // First check the default region for a valid free block.
      if pRegion != 0 && pFree[pRegion] != 0 && pLo <= pFree[pRegion] <= pHi {
        return true;
      }
      // Then check the existing regions.
      pRegion := pRegions;
      ghost var k := 0;
      while pRegion != 0
        invariant Valid() && k <= |regions| && pRegion == At(regions, k)
        invariant forall j :: 0 <= j < k ==> !Suits(regions[j], pFree, pLo, pHi)
        decreases |regions| - k
      {
        if pFree[pRegion] != 0 && pLo <= pFree[pRegion] <= pHi {
          return true;
        }
        NextRegion(k);
        pRegion := pNext[pRegion];
        k := k + 1;
      }
      return false;
    }

    lemma LiveSlots()
      requires Valid()
      ensures forall t :: t in live ==> t in pbRemain && t != 0
    {
      forall t | t in live ensures t in pbRemain && t != 0 {
        var i :| 2 <= i < Slots && t == SlotAddr(RegionOf(t), i);
        assert RegionOk(RegionOf(t), pFree, pbRemain, free, live);
      }
    }

    lemma NoNull()
      requires Valid()
      ensures forall j :: 0 <= j < |regions| ==> At(regions, j) != 0
    {
    }

    lemma FirstRegion()
      requires Valid()
      ensures pRegions == At(regions, 0) && (pRegions != 0 ==> pRegions in regions)
    {
    }

    lemma NextRegion(k: nat)
      requires Valid() && k < |regions|
      ensures regions[k] in pNext && pNext[regions[k]] == At(regions, k + 1)
        && (k + 1 < |regions| ==> At(regions, k + 1) in regions)
    {
    }

    /** VirtualAlloc hands out zeroed pages. */
    method CommitRegion(newRegion: Addr)
      modifies this`pbRemain
      ensures forall i :: 0 <= i < Slots ==> SlotAddr(newRegion, i) in pbRemain && pbRemain[SlotAddr(newRegion, i)] == 0
      ensures forall a :: a in old(pbRemain) && !IsSlot(newRegion, a) ==>
        a in pbRemain && pbRemain[a] == old(pbRemain)[a]
      ensures forall a :: !IsSlot(newRegion, a) ==> forall j :: 0 <= j < Slots ==> a != SlotAddr(newRegion, j)
    {
      pbRemain := pbRemain + map i | 0 <= i < Slots :: SlotAddr(newRegion, i) := 0;
    }

    /** Puts everything but the first two trampolines on the free list. */
    method FillFreeList(newRegion: Addr) returns (pFree0: Addr)
      requires IsBase(newRegion)
      modifies this`pbRemain
      ensures pFree0 == SlotAddr(newRegion, 2) && Chain(pbRemain, pFree0, SlotList(newRegion, 2))
      ensures forall i :: 0 <= i < Slots ==> SlotAddr(newRegion, i) in pbRemain
      ensures pbRemain[SlotAddr(newRegion, 0)] == 0 && pbRemain[SlotAddr(newRegion, 1)] == 0
      ensures forall a :: a in old(pbRemain) && !IsSlot(newRegion, a) ==>
        a in pbRemain && pbRemain[a] == old(pbRemain)[a]
    {
      hide SlotAddr, SlotList, Chain, Usable, IsSlot;
      ghost var r := newRegion;
      CommitRegion(newRegion);
      ghost var m := pbRemain;
      SlotsInOrder(r);
      pFree0 := 0;
      SlotListEnds(r);
      assert Chain(pbRemain, 0, []) by { EmptyChain(pbRemain); }
      for i := Slots downto 2
        invariant Chain(pbRemain, pFree0, SlotList(r, i)) && pFree0 == if i == Slots then 0 else SlotAddr(r, i)
        invariant pbRemain.Keys == m.Keys
        invariant forall a :: a in m && (forall j :: i <= j < Slots ==> a != SlotAddr(r, j)) ==> pbRemain[a] == m[a]
      {
        ghost var was := pbRemain;
        SlotListStep(r, i);
        pbRemain := pbRemain[SlotAddr(newRegion, i) := pFree0];
        ChainInMap(was, pFree0, SlotList(r, i + 1));
        ChainPush(was, pbRemain, pFree0, SlotList(r, i + 1), SlotAddr(r, i));
        pFree0 := SlotAddr(newRegion, i);
      }
    }

    /** The new region goes to the front of the list. */
    method AddRegion(newRegion: Addr)
      requires Valid() && IsBase(newRegion) && newRegion !in regions
      modifies this
      ensures Valid() && pRegion == newRegion && regions == [newRegion] + old(regions) && live == old(live)
      ensures newRegion in pFree && pFree[newRegion] == SlotAddr(newRegion, 2) && pFree[newRegion] != 0
      ensures free == old(free)[newRegion := SlotList(newRegion, 2)]
      ensures forall t :: t in live ==> t in pbRemain && t in old(pbRemain) && pbRemain[t] == old(pbRemain)[t]
    {
      hide RegionOk, Distinct, Usable, SlotAddr, SlotList, Chain, IsBase;
      ghost var r := newRegion;
      LiveSlots();
      AllRegions();
      LiveNotIn(r);
      assert r != 0 by { BaseNotNull(r); }
      pRegion := newRegion;
      pNext := pNext[pRegion := pRegions];
      ChainPush(old(pNext), pNext, pRegions, regions, r);
      pRegions := pRegion;
      var pFree0 := FillFreeList(newRegion);
      pFree := pFree[pRegion := pFree0];
      free := free[r := SlotList(r, 2)];
      NewRegionOk(r, pFree, pbRemain, free, live);
      SlotsOfRegion(r);
      forall r' | r' in regions ensures RegionOk(r', pFree, pbRemain, free, live) {
        KeepRegion(r, r', old(pFree), old(pbRemain), old(free), live, pFree, pbRemain, free);
      }
      DistinctPush(regions, r);
      regions := [r] + regions;
      SlotListStep(r, 2);
    }

    /** Two live trampolines share no byte, and none of them is one of the first two slots. */
    lemma LiveDisjoint(t: Addr, t': Addr)
      requires Valid() && t in live && t' in live && t != t'
      ensures t + SlotSize <= t' || t' + SlotSize <= t
      ensures t >= RegionOf(t) + 3 * SlotSize
    {
      var i :| 2 <= i < Slots && t == SlotAddr(RegionOf(t), i);
      var j :| 2 <= j < Slots && t' == SlotAddr(RegionOf(t'), j);
      InRegion(RegionOf(t));
      InRegion(RegionOf(t'));
      SlotsDisjoint(RegionOf(t), i, RegionOf(t'), j);
    }

    /** No slot is lost: 679 of the 681 slots of every region are either free or live. */
    lemma SlotsConserved(r: Addr)
      requires Valid() && r in regions
      ensures r in free && |free[r]| + |LiveIn(r, live)| == Slots - 2 == 679
    {
      hide RegionOk, Chain, Distinct, Usable, RegionOf;
      InRegion(r);
      RegionParts(r, pFree, pbRemain, free, live);
      LiveUsable(r);
      var liveHere, freeHere := LiveIn(r, live), ElementsOf(free[r]);
      var all := UsableBelow(r, Slots);
      UsableCount(r, Slots);
      hide UsableBelow;
      assert liveHere + freeHere == all && liveHere !! freeHere;
    }

    lemma LiveUsable(r: Addr)
      requires Valid()
      ensures forall t :: t in live && RegionOf(t) == r ==> t in UsableBelow(r, Slots)
    {
      forall t | t in live && RegionOf(t) == r ensures t in UsableBelow(r, Slots) {
        var i :| 2 <= i < Slots && t == SlotAddr(r, i);
      }
    }

    lemma LiveInRegion(t: Addr)
      requires Valid() && t in live
      ensures RegionOf(t) in regions && t > 0 && t + SlotSize <= RegionOf(t) + RegionSize
    {
      InRegion(RegionOf(t));
      var i :| 2 <= i < Slots && t == SlotAddr(RegionOf(t), i);
      SlotInRegion(RegionOf(t), i);
    }

    /** `pTrampoline->pbRemain = …` of a trampoline that is in use. */
    method SetRemain(pTrampoline: Addr, remain: Addr)
      requires Valid() && pTrampoline in live
      modifies this`pbRemain
      ensures Valid() && pbRemain == old(pbRemain)[pTrampoline := remain]
    {
      hide RegionOk, Chain, Distinct, Usable;
      ghost var t, m := pTrampoline, pbRemain;
      forall r | r in regions ensures RegionOk(r, pFree, pbRemain[t := remain], free, live) {
        InRegion(r);
        RemainOfLive(r, t, remain, pFree, pbRemain, free, live) by { LiveUsableSlot(t); }
      }
      pbRemain := pbRemain[pTrampoline := remain];
    }

    lemma LiveUsableSlot(t: Addr)
      requires Valid() && t in live
      ensures Usable(RegionOf(t), t) && IsBase(RegionOf(t))
    {
      InRegion(RegionOf(t));
    }

    // -------------------------------------------------------------- freeing

    /** detour_free_trampoline. */
    method FreeTrampoline(pTrampoline: Addr)
      requires Valid() && pTrampoline in live
      modifies this`pFree, this`pbRemain, this`free, this`live
      ensures Valid() && live == old(live) - {pTrampoline}
      ensures var r := RegionOf(pTrampoline);
        && r in regions && r in old(pFree) && r in old(free)
        && pFree == old(pFree)[r := pTrampoline] && free == old(free)[r := [pTrampoline] + old(free)[r]]
        && pbRemain == old(pbRemain)[pTrampoline := old(pFree)[r]]
    {
      hide RegionOk, Chain, Distinct, Usable;
      ghost var t := pTrampoline;
      var pRegion0 := RegionOf(pTrampoline);
      ghost var r := pRegion0;
      InRegion(r);
      Push(r, t, pFree, pbRemain, free, live);
      forall r' | r' in regions && r' != r
        ensures RegionOk(r', pFree[r := t], pbRemain[t := pFree[r]], free[r := [t] + free[r]], live - {t})
      {
        InRegion(r');
        OtherRegion(r, t, pFree[r], r', pFree, pbRemain, free, live, pFree[r := t], free[r := [t] + free[r]],
                    live - {t});
      }
      pbRemain := pbRemain[pTrampoline := pFree[pRegion0]];
      pFree := pFree[pRegion0 := pTrampoline];
      free := free[r := [t] + free[r]];
      live := live - {t};
    }

    /** detour_is_region_empty, for a region of the list: no live trampoline's pbRemain points out of
        it.  One for a function in the region itself is overlooked. */
    method IsRegionEmpty(r: Addr) returns (empty: bool)
      requires Valid() && r in regions && live <= pbRemain.Keys
      ensures empty <==> NonePointsOut(r, pbRemain, live)
      ensures Marked(pbRemain, live) ==> (empty <==> !InUse(r, live))
    {
      hide Chain, Distinct, Usable;
      InRegion(r);
      hide IsBase;
      for i := 0 to Slots
        invariant forall j :: 0 <= j < i ==> SlotAddr(r, j) !in live || !PointsOut(pbRemain, SlotAddr(r, j))
      {
        var remain := pbRemain[SlotAddr(r, i)];
        SlotRemain(r, i);
        if remain != 0 && (remain < r || remain >= r + RegionSize) {
          assert SlotAddr(r, i) in live && PointsOut(pbRemain, SlotAddr(r, i));
          return false;
        }
      }
      forall t | t in live && RegionOf(t) == r ensures !PointsOut(pbRemain, t) { LiveSlot(t); }
      return true;
    }

    lemma LiveSlot(t: Addr)
      requires Valid() && t in live
      ensures exists i :: 0 <= i < Slots && t == SlotAddr(RegionOf(t), i)
    {
    }

    /** A slot's pbRemain points outside of the region exactly if the slot is live and the
        function that it came from is not in the region. */
    lemma SlotRemain(r: Addr, i: nat)
      requires Valid() && r in regions && live <= pbRemain.Keys && i < Slots
      ensures SlotAddr(r, i) in pbRemain && RegionOf(SlotAddr(r, i)) == r
      ensures var t := SlotAddr(r, i); var remain := pbRemain[t];
        remain != 0 && (remain < r || remain >= r + RegionSize) <==> t in live && PointsOut(pbRemain, t)
    {
      hide Chain, Distinct, Usable, SlotAddr, IsBase;
      InRegion(r);
      SlotInRegion(r, i);
      var t := SlotAddr(r, i);
      var remain := pbRemain[t];
      if t in live {
        OutsideRegion(r, remain);
      } else if i >= 2 {
        assert t in free[r];
        var k :| 0 <= k < |free[r]| && free[r][k] == t;
        FreeLink(r, k);
      }
    }

    lemma FreeLink(r: Addr, k: nat)
      requires Valid() && r in regions && r in free && k < |free[r]|
      ensures free[r][k] in pbRemain
      ensures var remain := pbRemain[free[r][k]]; remain == 0 || r < remain < r + RegionSize
    {
      var s := free[r];
      if k + 1 < |s| {
        assert s[k + 1] in s && Usable(r, s[k + 1]);
        UsableInRegion(r, s[k + 1]);
      }
    }

    /** detour_free_unused_trampoline_regions: releases exactly the regions with no live
        trampoline, keeps the others in order, and leaves the default region null or on the
        list. */
    method FreeUnusedRegions()
      requires Valid() && Marked(pbRemain, live)
      modifies this
      ensures Valid() && Marked(pbRemain, live) && live == old(live)
      ensures regions == UsedOnly(old(regions), live)
      ensures pRegion == (if regions == old(regions) then old(pRegion) else 0)
      ensures StillSet(old(pbRemain), pbRemain, live) && StillFree(old(free), free, regions)
    {
      hide ListOk, Marked, UsedOnly, InUse, NonePointsOut, StillSet, StillFree;
      UsedOnlyFirst(0, [], live);
      // null for &s_pRegions, otherwise the region whose pNext it is
      var ppRegionBase := 0;
      var pRegion0 := pRegions;
      ghost var all, kept, rest := regions, [], regions;
      FirstRegion();
      StillSame(pbRemain, live, free, regions);
      while pRegion0 != 0
        invariant regions == kept + rest && kept + UsedOnly(rest, live) == UsedOnly(all, live)
        invariant Valid() && Marked(pbRemain, live) && live == old(live)
        invariant StillSet(old(pbRemain), pbRemain, live) && StillFree(old(free), free, regions)
        invariant pRegion0 == At(regions, |kept|)
        invariant ppRegionBase == if kept == [] then 0 else kept[|kept| - 1]
        invariant |kept| + |rest| <= |all| && (|kept| + |rest| == |all| ==> regions == all)
        invariant pRegion == if regions == all then old(pRegion) else 0
        decreases |rest|
      {
        assert rest != [] && rest[0] == pRegion0;
        ghost var r, after := rest[0], rest[1..];
        OneTurn(kept, r, after, rest, live);
        NextRegion(|kept|);
        MarkedKeys(pbRemain, live);
        var empty := IsRegionEmpty(pRegion0);
        if empty {
          ghost var m, f := pbRemain, free;
          ReleaseRegion(ppRegionBase, pRegion0, kept, after);
          StillTwice(old(pbRemain), m, pbRemain, live, old(free), f, free, kept, r, after);
          FirstOrNext(kept);
          pRegion0 := if ppRegionBase == 0 then pRegions else pNext[ppRegionBase];
        } else {
          kept := kept + [r];
          ppRegionBase := pRegion0;
          pRegion0 := pNext[ppRegionBase];
        }
        rest := after;
      }
      NoNull();
      assert rest == [];
    }

    lemma FirstOrNext(kept: seq<Addr>)
      requires Valid() && kept <= regions
      ensures kept == [] ==> pRegions == At(regions, 0)
      ensures kept != [] ==> var r := kept[|kept| - 1]; r in pNext && r != 0 && pNext[r] == At(regions, |kept|)
    {
      if kept != [] { assert regions[|kept| - 1] == kept[|kept| - 1]; }
    }

    /** `*ppRegionBase = pRegion->pNext`, and VirtualFree. */
    method ReleaseRegion(ppRegionBase: Addr, r: Addr, ghost before: seq<Addr>, ghost after: seq<Addr>)
      requires Valid() && Marked(pbRemain, live) && regions == before + [r] + after && !InUse(r, live)
      requires ppRegionBase == if before == [] then 0 else before[|before| - 1]
      modifies this
      ensures Valid() && Marked(pbRemain, live) && live == old(live) && regions == before + after && pRegion == 0
      ensures StillSet(old(pbRemain), pbRemain, live) && StillFree(old(free), free, regions)
      ensures r !in regions && free == Dropped(old(free), r)
    {
      hide ListOk, Marked, InUse, Dropped, DroppedSlots;
      Release(pRegions, pRegion, pNext, pFree, pbRemain, before, r, after, free, live);
      StillThere(pRegions, pRegion, pNext, pFree, pbRemain, before, r, after, free, live);
      if ppRegionBase == 0 {
        pRegions := pNext[r];
      } else {
        pNext := pNext[ppRegionBase := pNext[r]];
      }
      // VirtualFree
      pNext, pFree, free, pbRemain := Dropped(pNext, r), Dropped(pFree, r), Dropped(free, r), DroppedSlots(pbRemain, r);
      pRegion := 0;
      regions := before + after;
    }

    lemma AllRegions()
      requires Valid()
      ensures forall r :: r in regions ==> IsBase(r) && r in pNext && r in pFree && r in free && r != 0
    {
      hide Chain, Distinct, Usable;
      forall r | r in regions ensures IsBase(r) && r in pNext && r in pFree && r in free { InRegion(r); }
    }

    lemma LiveNotIn(r: Addr)
      requires Valid() && IsBase(r) && r !in regions
      ensures forall t :: t in live ==> !IsSlot(r, t)
    {
      forall t | t in live ensures !IsSlot(r, t) {
        if i :| 0 <= i < Slots && t == SlotAddr(r, i) { SlotInRegion(r, i); }
      }
    }
  }

  lemma UnlinkRegion(next: map<Addr, Addr>, next': map<Addr, Addr>, head: Addr, before: seq<Addr>, r: Addr,
                     after: seq<Addr>)
    requires Chain(next, head, before + [r] + after) && Distinct(before + [r] + after) && r in next
    requires forall b :: b in before + [r] + after ==> b in next
    requires forall b :: b in before + after ==>
      b in next' && next'[b] == if before != [] && b == before[|before| - 1] then next[r] else next[b]
    ensures Chain(next', if before == [] then next[r] else head, before + after)
  {
    DistinctParts(before, r, after);
    var all := before + [r] + after;
    forall k | 0 <= k < |before| - 1 ensures next'[before[k]] == next[before[k]] {
      assert all[k] == before[k] && all[|before| - 1] == before[|before| - 1];
      assert before[k] in before + after;
    }
    Unlink(next, next', head, before, r, after);
  }

  lemma Release(pRegions: Addr, pRegion: Addr, pNext: map<Addr, Addr>, pFree: map<Addr, Addr>,
                pbRemain: map<Addr, Addr>, before: seq<Addr>, r: Addr, after: seq<Addr>, free: FreeLists,
                live: set<Addr>)
    requires ListOk(pRegions, pRegion, pNext, pFree, pbRemain, before + [r] + after, free, live)
    requires !InUse(r, live)
    ensures r in pNext && r != 0 && r !in before + after && (before != [] ==> before[|before| - 1] != 0)
    ensures var pNext' := if before == [] then pNext else pNext[before[|before| - 1] := pNext[r]];
      ListOk(if before == [] then pNext[r]
        else pRegions, 0, Dropped(pNext', r), Dropped(pFree, r), DroppedSlots(pbRemain, r),
                 before + after, Dropped(free, r), live)
  {
    hide RegionOk, Usable, Chain, Distinct, RegionOf, Dropped, DroppedSlots, IsBase;
    var all := before + [r] + after;
    DistinctParts(before, r, after);
    assert r in all && (before != [] ==> before[|before| - 1] in all);
    forall a | a in all ensures a in pNext && a != 0 && a in pFree && a in free {
      InChain(pNext, pRegions, all, a);
      RegionHas(a, pFree, pbRemain, free, live);
    }
    var pNext' := if before == [] then pNext else pNext[before[|before| - 1] := pNext[r]];
    assert forall b :: b in before + after ==> b in all && b != r;
    UnlinkRegion(pNext, Dropped(pNext', r), pRegions, before, r, after);
    forall r' | r' in before + after
      ensures RegionOk(r', Dropped(pFree, r), DroppedSlots(pbRemain, r), Dropped(free, r), live)
    {
      KeepRegion(r, r', pFree, pbRemain, free, live, Dropped(pFree, r), DroppedSlots(pbRemain, r), Dropped(free, r));
    }
  }

  lemma InChain(next: map<Addr, Addr>, head: Addr, s: seq<Addr>, a: Addr)
    requires Chain(next, head, s) && a in s
    ensures a in next && a != 0
  {
    var k :| 0 <= k < |s| && s[k] == a;
  }

  lemma RegionHas(r: Addr, pFree: map<Addr, Addr>, pbRemain: map<Addr, Addr>, free: FreeLists, live: set<Addr>)
    requires RegionOk(r, pFree, pbRemain, free, live)
    ensures r in pFree && r in free
  {
  }

  /** Releasing a region that is not in use leaves the trampolines in use alone. */
  lemma StillThere(pRegions: Addr, pRegion: Addr, pNext: map<Addr, Addr>, pFree: map<Addr, Addr>,
                   pbRemain: map<Addr, Addr>, before: seq<Addr>, r: Addr, after: seq<Addr>, free: FreeLists,
                   live: set<Addr>)
    requires ListOk(pRegions, pRegion, pNext, pFree, pbRemain, before + [r] + after, free, live)
    requires !InUse(r, live) && Marked(pbRemain, live)
    ensures var m := DroppedSlots(pbRemain, r);
      Marked(m, live) && forall t :: t in live && t in pbRemain ==> t in m && m[t] == pbRemain[t]
  {
    hide RegionOk, Usable, Chain, Distinct, RegionOf, DroppedSlots;
    StillMarked(pbRemain, DroppedSlots(pbRemain, r), live);
  }

  lemma StillMarked(pbRemain: map<Addr, Addr>, pbRemain': map<Addr, Addr>, live: set<Addr>)
    requires Marked(pbRemain, live) && forall t :: t in live ==> t in pbRemain' && pbRemain'[t] == pbRemain[t]
    ensures Marked(pbRemain', live)
  {
    hide RegionOf;
  }

  function Dropped<T>(m: map<Addr, T>, r: Addr): (m': map<Addr, T>)
    ensures forall a :: a in m && a != r ==> a in m' && m'[a] == m[a]
  {
    map a | a in m && a != r :: m[a]
  }

  function DroppedSlots(m: map<Addr, Addr>, r: Addr): (m': map<Addr, Addr>)
    ensures forall a :: a in m && RegionOf(a) != r ==> a in m' && m'[a] == m[a]
  {
    map a | a in m && RegionOf(a) != r :: m[a]
  }

  ghost function LiveIn(r: Addr, live: set<Addr>): set<Addr> { set t | t in live && RegionOf(t) == r }
  ghost function ElementsOf(s: seq<Addr>): set<Addr> { set t | t in s }

  /** The usable slots of a region before the `n`th. */
  ghost function UsableBelow(r: Addr, n: nat): set<Addr> { set i | 2 <= i < n :: SlotAddr(r, i) }

  lemma {:induction false} UsableCount(r: Addr, n: nat)
    requires n >= 2
    ensures |UsableBelow(r, n)| == n - 2
  {
    if n == 2 {
      assert UsableBelow(r, n) == {};
    } else {
      UsableCount(r, n - 1);
      assert UsableBelow(r, n) == UsableBelow(r, n - 1) + {SlotAddr(r, n - 1)};
    }
  }

  /** The usable slots of a region are the free ones and the live ones. */
  lemma RegionParts(r: Addr, pFree: map<Addr, Addr>, pbRemain: map<Addr, Addr>, free: FreeLists, live: set<Addr>)
    requires RegionOk(r, pFree, pbRemain, free, live)
    ensures forall t :: t in UsableBelow(r, Slots) ==> t in free[r] || (t in live && RegionOf(t) == r)
    ensures forall t :: t in free[r] ==> t in UsableBelow(r, Slots) && t !in live
    ensures |ElementsOf(free[r])| == |free[r]|
  {
    DistinctCount(free[r]);
    forall t | t in UsableBelow(r, Slots) ensures t in free[r] || (t in live && RegionOf(t) == r) {
      var i :| 2 <= i < Slots && t == SlotAddr(r, i);
      SlotInRegion(r, i);
    }
    forall t | t in free[r] ensures t in UsableBelow(r, Slots) {
      var i :| 2 <= i < Slots && t == SlotAddr(r, i);
    }
  }

  lemma {:induction false} DistinctCount(s: seq<Addr>)
    requires Distinct(s)
    ensures |ElementsOf(s)| == |s|
  {
    if s != [] {
      assert s[0] !in s[1..] && Distinct(s[1..]);
      DistinctCount(s[1..]);
      assert ElementsOf(s) == ElementsOf(s[1..]) + {s[0]};
    }
  }

  /** Any of the trampolines of a region. */
  ghost predicate IsSlot(r: Addr, t: Addr) { exists i :: 0 <= i < Slots && t == SlotAddr(r, i) }

  lemma BaseNotNull(r: Addr)
    requires IsBase(r)
    ensures r != 0
  {
  }

  lemma SlotsInOrder(r: Addr)
    ensures forall i, j :: 0 <= i < j ==> SlotAddr(r, i) != SlotAddr(r, j)
  {
  }

  lemma SlotListEnds(r: Addr)
    ensures SlotList(r, Slots) == []
  {
  }

  lemma EmptyChain(next: map<Addr, Addr>)
    ensures Chain(next, 0, [])
  {
  }

  lemma ChainInMap(next: map<Addr, Addr>, head: Addr, s: seq<Addr>)
    requires Chain(next, head, s)
    ensures forall a :: a in s ==> a in next
  {
  }

  lemma DistinctPush(s: seq<Addr>, r: Addr)
    requires Distinct(s) && r !in s
    ensures Distinct([r] + s)
  {
    forall i, j | 0 <= i < j < |[r] + s| ensures ([r] + s)[i] != ([r] + s)[j] {
      assert ([r] + s)[j] == s[j - 1] && (i > 0 ==> ([r] + s)[i] == s[i - 1]);
    }
  }

  lemma NewRegionOk(r: Addr, pFree: map<Addr, Addr>, pbRemain: map<Addr, Addr>, free: FreeLists, live: set<Addr>)
    requires IsBase(r) && r in pFree && r in free && free[r] == SlotList(r, 2)
      && Chain(pbRemain, pFree[r], SlotList(r, 2))
    requires forall i :: 0 <= i < Slots ==> SlotAddr(r, i) in pbRemain
    requires pbRemain[SlotAddr(r, 0)] == 0 && pbRemain[SlotAddr(r, 1)] == 0
    requires forall t :: t in live ==> !IsSlot(r, t)
    ensures RegionOk(r, pFree, pbRemain, free, live)
  {
    assert forall i :: 0 <= i < Slots ==> IsSlot(r, SlotAddr(r, i));
    SlotListUsable(r, live);
  }

  lemma RemainOfLive(r: Addr, t: Addr, x: Addr, pFree: map<Addr, Addr>, pbRemain: map<Addr, Addr>, free: FreeLists,
                     live: set<Addr>)
    requires RegionOk(r, pFree, pbRemain, free, live) && t in live && Usable(RegionOf(t), t) && IsBase(RegionOf(t))
    ensures RegionOk(r, pFree, pbRemain[t := x], free, live)
  {
    if RegionOf(t) == r { UsableInRegion(r, t); } else { UsableElsewhere(RegionOf(t), t, r); }
    hide Usable, SlotAddr, IsBase, RegionOf;
    ChainFrame(pbRemain, pbRemain[t := x], pFree[r], free[r]);
  }

  /** What happens inside one region leaves the other regions alone. */
  lemma KeepRegion(r: Addr, r': Addr, pFree: map<Addr, Addr>, pbRemain: map<Addr, Addr>, free: FreeLists,
                   live: set<Addr>, pFree': map<Addr, Addr>, pbRemain': map<Addr, Addr>, free': FreeLists)
    requires RegionOk(r', pFree, pbRemain, free, live) && r' != r
    requires r' in pFree' && pFree'[r'] == pFree[r'] && r' in free' && free'[r'] == free[r']
    requires forall a :: a in pbRemain && RegionOf(a) != r ==> a in pbRemain' && pbRemain'[a] == pbRemain[a]
    ensures RegionOk(r', pFree', pbRemain', free', live)
  {
    forall i | 0 <= i < Slots ensures RegionOf(SlotAddr(r', i)) == r' { SlotInRegion(r', i); }
    forall t | t in free[r'] ensures RegionOf(t) == r' && t in pbRemain {
      var i :| 2 <= i < Slots && t == SlotAddr(r', i);
    }
    hide SlotAddr, RegionOf, Usable;
    ChainFrame(pbRemain, pbRemain', pFree[r'], free[r']);
  }

  lemma SlotsOfRegion(r: Addr)
    requires IsBase(r)
    ensures forall a :: RegionOf(a) != r ==> !IsSlot(r, a)
  {
    forall a | IsSlot(r, a) ensures RegionOf(a) == r {
      var i :| 0 <= i < Slots && a == SlotAddr(r, i);
      SlotInRegion(r, i);
    }
  }

  lemma OutsideRegion(r: Addr, x: Addr)
    requires IsBase(r)
    ensures RegionOf(x) == r <==> r <= x < r + RegionSize
  {
    if r <= x < r + RegionSize { assert x % RegionSize == x - r; }
  }
}
