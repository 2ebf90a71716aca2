/** Trampoline memory (LoaderWatch.Inject/detours.cpp): regions of 64 KB on a linked list, and
    in each region a list of free trampolines that is threaded through their pbRemain. */
module DetourRegions {

  type Addr = nat

  const RegionSize: nat := 0x1_0000
  /** sizeof(DETOUR_TRAMPOLINE) on x64. */
  const SlotSize: nat := 96
  /** DETOUR_TRAMPOLINES_PER_REGION: the first slot's room is taken by the DETOUR_REGION. */
  const Slots: nat := RegionSize / SlotSize - 1

  function SlotAddr(r: Addr, i: nat): Addr { r + SlotSize * (i + 1) }

  function RegionOf(t: Addr): Addr { t - t % RegionSize }

  predicate IsBase(r: Addr) { r > 0 && r % RegionSize == 0 }

  /** The slots that go on the free list of a new region: not the first two. */
  predicate Usable(r: Addr, t: Addr) { exists i :: 2 <= i < Slots && t == SlotAddr(r, i) }

  lemma SlotInRegion(r: Addr, i: nat)
    requires IsBase(r) && i < Slots
    ensures RegionOf(SlotAddr(r, i)) == r && r < SlotAddr(r, i) && SlotAddr(r, i) + SlotSize <= r + RegionSize
  {
    var d := SlotSize * (i + 1);
    assert 0 < d < RegionSize;
    assert (r + d) % RegionSize == d;
  }

  /** Different slots share no byte. */
  lemma SlotsDisjoint(r: Addr, i: nat, r': Addr, i': nat)
    requires IsBase(r) && IsBase(r') && i < Slots && i' < Slots && SlotAddr(r, i) != SlotAddr(r', i')
    ensures SlotAddr(r, i) + SlotSize <= SlotAddr(r', i') || SlotAddr(r', i') + SlotSize <= SlotAddr(r, i)
  {
    SlotInRegion(r, i);
    SlotInRegion(r', i');
    if r < r' { assert r + RegionSize <= r' by { Multiples(r, r'); } }
    if r' < r { assert r' + RegionSize <= r by { Multiples(r', r); } }
  }

  lemma Multiples(r: Addr, r': Addr)
    requires r % RegionSize == 0 && r' % RegionSize == 0 && r < r'
    ensures r + RegionSize <= r'
  {
  }

  // ------------------------------------------------------------------ linked lists

  /** The element at `k`, or null after the last one. */
  ghost function At(s: seq<Addr>, k: nat): Addr { if k < |s| then s[k] else 0 }

  /** The list that starts at `head`, with null at the end. */
  ghost predicate Chain(next: map<Addr, Addr>, head: Addr, s: seq<Addr>) {
    head == At(s, 0) && forall k :: 0 <= k < |s| ==> s[k] != 0 && s[k] in next && next[s[k]] == At(s, k + 1)
  }

  ghost predicate Distinct(s: seq<Addr>) { forall i, j :: 0 <= i < j < |s| ==> s[i] != s[j] }

  lemma ChainFrame(next: map<Addr, Addr>, next': map<Addr, Addr>, head: Addr, s: seq<Addr>)
    requires Chain(next, head, s) && forall a :: a in s ==> a in next' && next'[a] == next[a]
    ensures Chain(next', head, s)
  {
  }

  lemma ChainTail(next: map<Addr, Addr>, head: Addr, s: seq<Addr>)
    requires Chain(next, head, s) && head != 0
    ensures s != [] && head == s[0] && head in next && Chain(next, next[head], s[1..])
  {
    forall k | 0 <= k < |s[1..]| ensures At(s[1..], k + 1) == At(s, k + 2) && s[1..][k] == s[k + 1] {}
  }

  lemma ChainPush(next: map<Addr, Addr>, next': map<Addr, Addr>, head: Addr, s: seq<Addr>, a: Addr)
    requires Chain(next, head, s) && a != 0 && a in next' && next'[a] == head
    requires forall b :: b in s ==> b in next' && next'[b] == next[b]
    ensures Chain(next', a, [a] + s)
  {
    forall k | 0 <= k < |[a] + s|
      ensures var e := ([a] + s)[k]; e != 0 && e in next' && next'[e] == At([a] + s, k + 1)
    {
      if k > 0 { assert ([a] + s)[k] == s[k - 1] && At([a] + s, k + 1) == At(s, k); }
    }
  }

  /** Taking one element out of a chain. */
  lemma Unlink(next: map<Addr, Addr>, next': map<Addr, Addr>, head: Addr, before: seq<Addr>, a: Addr, after: seq<Addr>)
    requires Chain(next, head, before + [a] + after)
    requires forall b :: b in before + [a] + after ==> b in next
    requires forall b :: b in before + after ==> b in next'
    requires forall k :: 0 <= k < |before| - 1 ==> next'[before[k]] == next[before[k]]
    requires before != [] ==> next'[before[|before| - 1]] == next[a]
    requires forall b :: b in after ==> next'[b] == next[b]
    ensures a in next && Chain(next', if before == [] then next[a] else head, before + after)
  {
    var all, n, s := before + [a] + after, |before|, before + after;
    assert all[n] == a;
    forall k | 0 <= k < |s| ensures s[k] != 0 && s[k] in next' && next'[s[k]] == At(s, k + 1) {
      if k < n { assert s[k] == before[k] == all[k]; } else { assert s[k] == after[k - n] == all[k + 1]; }
    }
  }

  lemma DistinctParts(before: seq<Addr>, a: Addr, after: seq<Addr>)
    requires Distinct(before + [a] + after)
    ensures a !in before && a !in after && Distinct(before + after)
    ensures forall b :: b in before ==> b !in after
  {
    var all := before + [a] + after;
    forall i | 0 <= i < |before| ensures before[i] != a && before[i] !in after {
      assert all[i] == before[i] && all[|before|] == a;
      forall j | 0 <= j < |after| ensures after[j] != before[i] { assert all[|before| + 1 + j] == after[j]; }
    }
    forall j | 0 <= j < |after| ensures after[j] != a {
      assert all[|before| + 1 + j] == after[j] && all[|before|] == a;
    }
    var s := before + after;
    forall i, j | 0 <= i < j < |s| ensures s[i] != s[j] {
      var i', j' := if i < |before| then i else i + 1, if j < |before| then j else j + 1;
      assert all[i'] == s[i] && all[j'] == s[j];
    }
  }

  // ------------------------------------------------------------- one region's slots

  /** What `memset(pTrampoline, 0xcc, …)` leaves in a pbRemain. */
  const Filled: Addr := 0xcccc_cccc_cccc_cccc

  type FreeLists = map<Addr, seq<Addr>>

  /** The free list of the region `r` is acyclic, and holds exactly its usable slots that are
      not live; the first two slots stay as VirtualAlloc left them. */
  ghost predicate RegionOk(r: Addr, pFree: map<Addr, Addr>, pbRemain: map<Addr, Addr>, free: FreeLists, live: set<Addr>)
  {
    && IsBase(r) && r in pFree && r in free
    && Chain(pbRemain, pFree[r], free[r]) && Distinct(free[r])
    && (forall t :: t in free[r] ==> Usable(r, t) && t !in live)
    && (forall i :: 2 <= i < Slots ==> SlotAddr(r, i) in free[r] || SlotAddr(r, i) in live)
    && (forall i :: 0 <= i < Slots ==> SlotAddr(r, i) in pbRemain)
    && pbRemain[SlotAddr(r, 0)] == 0 && pbRemain[SlotAddr(r, 1)] == 0
  }

  lemma UsableInRegion(r: Addr, t: Addr)
    requires IsBase(r) && Usable(r, t)
    ensures RegionOf(t) == r && t > r && t < r + RegionSize && t != SlotAddr(r, 0) && t != SlotAddr(r, 1)
  {
    var i :| 2 <= i < Slots && t == SlotAddr(r, i);
    SlotInRegion(r, i);
  }

  /** A slot of one region is no slot of another one. */
  lemma UsableElsewhere(r: Addr, t: Addr, r': Addr)
    requires IsBase(r) && Usable(r, t) && IsBase(r') && r' != r
    ensures !Usable(r', t) && t != SlotAddr(r', 0) && t != SlotAddr(r', 1)
    ensures forall i :: 0 <= i < Slots ==> t != SlotAddr(r', i)
  {
    UsableInRegion(r, t);
    forall i | 0 <= i < Slots ensures t != SlotAddr(r', i) { SlotInRegion(r', i); }
  }

  lemma Pop(r: Addr, pFree: map<Addr, Addr>, pbRemain: map<Addr, Addr>, free: FreeLists, live: set<Addr>)
    requires RegionOk(r, pFree, pbRemain, free, live) && pFree[r] != 0
    ensures var t := pFree[r];
      && free[r] != [] && t == free[r][0] && Usable(r, t) && t !in live && t in pbRemain
      && RegionOk(r, pFree[r := pbRemain[t]], pbRemain[t := Filled], free[r := free[r][1..]], live + {t})
  {
    var t, s := pFree[r], free[r];
    ChainTail(pbRemain, t, s);
    assert t in s && Usable(r, t);
    UsableInRegion(r, t);
    assert forall a :: a in s <==> a == t || a in s[1..];
    assert t !in s[1..];
    ChainFrame(pbRemain, pbRemain[t := Filled], pbRemain[t], s[1..]);
    hide Chain, Usable, SlotAddr;
  }

  lemma Push(r: Addr, t: Addr, pFree: map<Addr, Addr>, pbRemain: map<Addr, Addr>, free: FreeLists, live: set<Addr>)
    requires RegionOk(r, pFree, pbRemain, free, live) && Usable(r, t) && t in live
    ensures RegionOk(r, pFree[r := t], pbRemain[t := pFree[r]], free[r := [t] + free[r]], live - {t})
  {
    UsableInRegion(r, t);
    hide Usable, SlotAddr;
    var s := free[r];
    assert t !in s;
    assert forall a :: a in [t] + s <==> a == t || a in s;
    ChainPush(pbRemain, pbRemain[t := pFree[r]], pFree[r], s, t);
    hide Chain;
    assert Distinct([t] + s) by {
      forall i, j | 0 <= i < j < |[t] + s| ensures ([t] + s)[i] != ([t] + s)[j] {
        if i > 0 { assert s[i - 1] != s[j - 1]; }
      }
    }
  }

  /** What happens to a slot of one region leaves the other regions alone. */
  lemma OtherRegion(r: Addr, t: Addr, x: Addr, r': Addr, pFree: map<Addr, Addr>, pbRemain: map<Addr, Addr>,
                    free: FreeLists, live: set<Addr>, pFree': map<Addr, Addr>, free': FreeLists, live': set<Addr>)
    requires RegionOk(r', pFree, pbRemain, free, live) && IsBase(r) && Usable(r, t) && r' != r
    requires r' in pFree' && pFree'[r'] == pFree[r'] && r' in free' && free'[r'] == free[r']
    requires forall a :: a != t ==> (a in live' <==> a in live)
    ensures RegionOk(r', pFree', pbRemain[t := x], free', live')
  {
    UsableElsewhere(r, t, r');
    hide Usable, SlotAddr, IsBase;
    assert t !in free[r'];
    ChainFrame(pbRemain, pbRemain[t := x], pFree[r'], free[r']);
    hide Chain;
  }

  // -------------------------------------------------------------- freeing twice

  lemma {:induction false} ChainUnique(next: map<Addr, Addr>, head: Addr, s: seq<Addr>, s': seq<Addr>)
    requires Chain(next, head, s) && Chain(next, head, s')
    ensures s == s'
    decreases |s|
  {
    if head != 0 {
      ChainTail(next, head, s);
      ChainTail(next, head, s');
      ChainUnique(next, next[head], s[1..], s'[1..]);
      assert s == [head] + s[1..] && s' == [head] + s'[1..];
    }
  }

  lemma {:induction false} ChainFrom(next: map<Addr, Addr>, head: Addr, s: seq<Addr>, k: nat)
    requires Chain(next, head, s) && k < |s|
    ensures Chain(next, s[k], s[k..])
    decreases k
  {
    if k > 0 {
      ChainTail(next, head, s);
      ChainFrom(next, next[head], s[1..], k - 1);
      assert s[1..][k - 1..] == s[k..];
    }
  }

  ghost predicate IsList(next: map<Addr, Addr>, head: Addr) { exists s :: Chain(next, head, s) }

  /** Freeing a trampoline leaves a list exactly if it is not free already: otherwise its link
      closes a circle. */
  lemma FreedTwice(next: map<Addr, Addr>, head: Addr, s: seq<Addr>, t: Addr)
    requires Chain(next, head, s) && t != 0
    ensures IsList(next[t := head], t) <==> t !in s
  {
    var next' := next[t := head];
    if t !in s {
      ChainPush(next, next', head, s, t);
      assert IsList(next', t);
    } else if s' :| Chain(next', t, s') {
      ChainTail(next', t, s');
      var k := FirstIn(s, t);
      CircleGrows(next, next', head, s, s'[1..], t, k);
      assert s'[k + 1] == t;
      ChainFrom(next', t, s', k + 1);
      ChainUnique(next', t, s', s'[k + 1..]);
    }
  }

  ghost function FirstIn(s: seq<Addr>, t: Addr): (k: nat)
    requires t in s
    ensures k < |s| && s[k] == t && t !in s[..k]
  {
    if s[0] == t then 0 else 1 + FirstIn(s[1..], t)
  }

  /** Up to its first occurrence, the old list is also what the new links lead along. */
  lemma {:induction false} CircleGrows(next: map<Addr, Addr>, next': map<Addr, Addr>, head: Addr, s: seq<Addr>,
                                       s': seq<Addr>, t: Addr, k: nat)
    requires Chain(next, head, s) && Chain(next', head, s') && k < |s| && s[k] == t && t !in s[..k]
    requires forall a :: a != t && a in next ==> a in next' && next'[a] == next[a]
    ensures k < |s'| && s'[k] == t
    decreases k
  {
    ChainTail(next, head, s);
    ChainTail(next', head, s');
    if k > 0 {
      assert s[0] in s[..k];
      assert s[1..][..k - 1] == s[..k][1..];
      CircleGrows(next, next', next[head], s[1..], s'[1..], t, k - 1);
    }
  }
}
