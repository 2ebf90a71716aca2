/** Moving the first instructions of a target into a trampoline, and moving a suspended thread
    along (DetourAttachEx, detour_align_from_target and DetourTransactionCommitEx of
    LoaderWatch.Inject/detours.cpp, for x64). */
module DetourPrologue {
  import opened X64Jumps

  /** What copying one instruction does and reports: the bytes it writes, the size of the
      original, by how much `lExtra` lets pbTrampoline move further, and whether the instruction
      ends the function. */
  datatype Instruction = Instruction(bytes: seq<byte>, size: nat, extra: int, ends: bool)

  /** Instructions have at most 15 bytes.  The ones with a relative operand are longer than one
      byte; a jump's copy is up to four bytes larger, and for the ones that cannot be enlarged
      -3 is reported when their target is out of reach. */
  predicate Possible(i: Instruction) {
    && 1 <= i.size <= 15 && -3 <= i.extra <= 4 && (i.extra < 0 ==> i.extra == -3) && (i.extra != 0 ==> i.size >= 2)
    && |i.bytes| == i.size + if i.extra > 0 then i.extra else 0
  }

  type Copied = i: Instruction | Possible(i) witness Instruction([0], 1, 0, false)

  /** The instruction at an offset of the target. */
  type Copier = nat -> Copied

  /** One entry of rAlign: three bits and five bits. */
  datatype Align = Align(obTarget: nat, obTrampoline: nat)

  const SizeOfJmp: nat := 5
  const AlignEntries: nat := 8
  /** The offset of rAlign in x64's DETOUR_TRAMPOLINE. */
  const OffsetAlign := 64

  function EntryOf(b: byte): Align { Align(b % 8, b / 8) }

  /** The table of the trampoline at `t`. */
  function RAlign(m: Bytes, t: int): (rAlign: seq<Align>)
    ensures |rAlign| == AlignEntries
  {
    seq(AlignEntries, k requires 0 <= k => EntryOf(Byte(m, t + OffsetAlign + k)))
  }

  lemma RAlignFrame(m: Bytes, m': Bytes, t: int)
    requires forall b :: t + OffsetAlign <= b < t + OffsetAlign + AlignEntries ==> Byte(m', b) == Byte(m, b)
    ensures RAlign(m', t) == RAlign(m, t)
  {
  }

  lemma RAlignWrite(m: Bytes, t: int, n: nat, a: Align)
    requires n < AlignEntries && a.obTarget < 8 && a.obTrampoline < 32
    ensures RAlign(m[t + OffsetAlign + n := a.obTarget + 8 * a.obTrampoline], t) == RAlign(m, t)[n := a]
  {
    var x: byte := a.obTarget + 8 * a.obTrampoline;
    EntryBack(a.obTarget, a.obTrampoline);
    var m' := m[t + OffsetAlign + n := x];
    hide EntryOf;
    forall k | 0 <= k < AlignEntries ensures RAlign(m', t)[k] == RAlign(m, t)[n := EntryOf(x)][k] {
      var b := t + OffsetAlign + k;
      assert Byte(m', b) == if k == n then x else Byte(m, b);
      assert RAlign(m', t)[k] == EntryOf(Byte(m', b)) && RAlign(m, t)[k] == EntryOf(Byte(m, b));
    }
  }

  lemma EntryBack(obTarget: nat, obTrampoline: nat)
    requires obTarget < 8 && obTrampoline < 32
    ensures EntryOf(obTarget + 8 * obTrampoline) == Align(obTarget, obTrampoline)
  {
  }

  /** An instruction boundary: its offset in the target, and in the trampoline. */
  datatype Boundary = Boundary(target: nat, trampoline: int)

  const Start := Boundary(0, 0)

  function Next(copy: Copier, from: Boundary): Boundary {
    var i := copy(from.target);
    Boundary(from.target + i.size, from.trampoline + i.size + i.extra)
  }

  ghost function Before(bs: seq<Boundary>, k: nat): Boundary
    requires k <= |bs|
  {
    if k == 0 then Start else bs[k - 1]
  }

  /** The instruction before the boundary `k`. */
  ghost function InstructionAt(copy: Copier, bs: seq<Boundary>, k: nat): Copied
    requires k <= |bs|
  {
    copy(Before(bs, k).target)
  }

  ghost predicate EndsAt(copy: Copier, bs: seq<Boundary>, k: nat)
    requires k < |bs|
  {
    bs[k] == Next(copy, Before(bs, k))
  }

  /** The boundaries that the copied instructions end at. */
  ghost predicate Boundaries(copy: Copier, bs: seq<Boundary>) {
    forall k :: 0 <= k < |bs| ==> EndsAt(copy, bs, k)
  }

  lemma OneMore(copy: Copier, bs: seq<Boundary>)
    requires Boundaries(copy, bs)
    ensures Boundaries(copy, bs + [Next(copy, Before(bs, |bs|))])
  {
    var bs' := bs + [Next(copy, Before(bs, |bs|))];
    forall k | 0 <= k < |bs'| ensures EndsAt(copy, bs', k) {
      assert Before(bs', k) == Before(bs, k);
      if k < |bs| { assert EndsAt(copy, bs, k); }
    }
  }

  /** The entries of rAlign that stand for the boundaries, and zeros after them. */
  ghost predicate Aligned(rAlign: seq<Align>, bs: seq<Boundary>) {
    && |rAlign| == AlignEntries && |bs| <= AlignEntries
    && (forall k :: 0 <= k < |bs| ==> rAlign[k] == Align(bs[k].target % 8, bs[k].trampoline % 32))
    && (forall k :: |bs| <= k < AlignEntries ==> rAlign[k] == Align(0, 0))
  }

  /** The copying loop stops at the first boundary that leaves room for the jump. */
  ghost predicate Short(bs: seq<Boundary>) { forall k :: 0 <= k < |bs| - 1 ==> bs[k].target < SizeOfJmp }

  /** None of the copied instructions ends the function. */
  ghost predicate GoesOn(copy: Copier, bs: seq<Boundary>) {
    forall k :: 0 <= k < |bs| ==> !InstructionAt(copy, bs, k).ends
  }

  lemma GoesOnMore(copy: Copier, bs: seq<Boundary>, b: Boundary)
    requires GoesOn(copy, bs) && !InstructionAt(copy, bs, |bs|).ends
    ensures GoesOn(copy, bs + [b])
  {
    var bs' := bs + [b];
    forall k | 0 <= k < |bs'| ensures !InstructionAt(copy, bs', k).ends {
      assert Before(bs', k) == Before(bs, k) && !InstructionAt(copy, bs, k).ends;
    }
  }

  /** Copying goes on until the jump fits, the table is full or the function ends, and no
      longer. */
  ghost predicate Complete(copy: Copier, bs: seq<Boundary>) {
    && bs != [] && Short(bs)
    && GoesOn(copy, bs[..|bs| - 1])
    && var n := |bs| - 1;
       bs[n].target >= SizeOfJmp || |bs| == AlignEntries || InstructionAt(copy, bs, n).ends
  }

  /** The boundaries after `from`, of which there are `n` before. */
  function Rest(copy: Copier, from: Boundary, n: nat): (bs: seq<Boundary>)
    requires n < AlignEntries
    ensures bs != []
    decreases AlignEntries - n
  {
    var b := Next(copy, from);
    if n + 1 == AlignEntries || b.target >= SizeOfJmp || copy(from.target).ends then [b]
    else [b] + Rest(copy, b, n + 1)
  }

  /** All of them: what an attach will copy can be told before. */
  function Prologue(copy: Copier): seq<Boundary> { Rest(copy, Start, 0) }

  /** How many bytes of code are moved, as pbTrampoline counts them. */
  function CodeEnd(copy: Copier): int {
    var bs := Prologue(copy);
    bs[|bs| - 1].trampoline
  }

  /** How many bytes of the target are overwritten. */
  function Cut(copy: Copier, filler: nat -> nat): nat {
    var bs := Prologue(copy);
    WithFiller(filler, bs[|bs| - 1].target)
  }

  lemma {:induction false} RestUnique(copy: Copier, bs: seq<Boundary>, n: nat)
    requires Boundaries(copy, bs) && Complete(copy, bs) && n < |bs| <= AlignEntries
    ensures bs[n..] == Rest(copy, Before(bs, n), n)
    decreases |bs| - n
  {
    assert EndsAt(copy, bs, n);
    hide Boundaries;
    if n + 1 < |bs| {
      assert Before(bs[..|bs| - 1], n) == Before(bs, n);
      assert !InstructionAt(copy, bs[..|bs| - 1], n).ends;
      RestUnique(copy, bs, n + 1);
      assert bs[n..] == [bs[n]] + bs[n + 1..];
    }
  }

  /** There is one way to copy a prologue. */
  lemma PrologueUnique(copy: Copier, bs: seq<Boundary>)
    requires Boundaries(copy, bs) && Complete(copy, bs)
    ensures bs == Prologue(copy)
  {
    CodeSize(copy, bs);
    hide Boundaries, Complete;
    RestUnique(copy, bs, 0);
    assert bs[0..] == bs;
  }

  /** None of the copies goes back. */
  ghost predicate InOrder(copy: Copier, bs: seq<Boundary>) {
    forall k :: 0 <= k < |bs| ==> InstructionAt(copy, bs, k).extra >= 0
  }

  lemma InOrderPrefix(copy: Copier, bs: seq<Boundary>, b: Boundary)
    requires InOrder(copy, bs + [b])
    ensures InOrder(copy, bs) && InstructionAt(copy, bs, |bs|).extra >= 0
  {
    var bs' := bs + [b];
    forall k | 0 <= k <= |bs| ensures InstructionAt(copy, bs, k).extra >= 0 {
      assert Before(bs', k) == Before(bs, k) && InstructionAt(copy, bs', k).extra >= 0;
    }
  }

  /** Where the copy of the instruction before boundary `k` ends. */
  ghost function CopyEnd(copy: Copier, bs: seq<Boundary>, k: nat): int
    requires k < |bs|
  {
    Before(bs, k).trampoline + |InstructionAt(copy, bs, k).bytes|
  }

  /** The copies are in the trampoline at `t`, each where pbTrampoline was. */
  ghost predicate CopiesAt(m: Bytes, t: int, copy: Copier, bs: seq<Boundary>) {
    forall k :: 0 <= k < |bs| ==> BytesAt(m, t + Before(bs, k).trampoline, InstructionAt(copy, bs, k).bytes)
  }

  /** A copy after the others leaves them as they are. */
  lemma CopiesMore(m: Bytes, m': Bytes, t: int, copy: Copier, bs: seq<Boundary>)
    requires Boundaries(copy, bs) && InOrder(copy, bs) && CopiesAt(m, t, copy, bs)
    requires var from := Before(bs, |bs|);
      BytesAt(m', t + from.trampoline, copy(from.target).bytes)
        && forall b :: b < t + from.trampoline ==> Byte(m', b) == Byte(m, b)
    ensures CopiesAt(m', t, copy, bs + [Next(copy, Before(bs, |bs|))])
  {
    var bs' := bs + [Next(copy, Before(bs, |bs|))];
    forall k | 0 <= k < |bs'| ensures BytesAt(m', t + Before(bs', k).trampoline, InstructionAt(copy, bs', k).bytes) {
      assert Before(bs', k) == Before(bs, k);
      if k < |bs| {
        CopiesOrdered(copy, bs, k, |bs| - 1);
        assert BytesAt(m, t + Before(bs, k).trampoline, InstructionAt(copy, bs, k).bytes);
      }
    }
  }

  lemma CopiesStep(m: Bytes, m1: Bytes, m2: Bytes, t: int, copy: Copier, bs: seq<Boundary>)
    requires Boundaries(copy, bs) && (InOrder(copy, bs) ==> CopiesAt(m, t, copy, bs))
    requires var from := Before(bs, |bs|);
      && BytesAt(m1, t + from.trampoline, copy(from.target).bytes)
      && (forall b :: b < t + from.trampoline ==> Byte(m1, b) == Byte(m, b))
      && (forall b :: b < t + Next(copy, from).trampoline ==> Byte(m2, b) == Byte(m1, b))
    ensures var bs' := bs + [Next(copy, Before(bs, |bs|))];
      InOrder(copy, bs') ==> CopiesAt(m2, t, copy, bs')
  {
    hide Boundaries, InOrder, CopiesAt;
    var b := Next(copy, Before(bs, |bs|));
    var bs' := bs + [b];
    if InOrder(copy, bs') {
      InOrderPrefix(copy, bs, b);
      CopiesMore(m, m1, t, copy, bs);
      OneMore(copy, bs);
      CopiesFrame(m1, m2, t, copy, bs');
    }
  }

  lemma CopiesFrame(m: Bytes, m': Bytes, t: int, copy: Copier, bs: seq<Boundary>)
    requires Boundaries(copy, bs) && InOrder(copy, bs) && CopiesAt(m, t, copy, bs)
    requires bs != [] ==> forall b :: t <= b < t + bs[|bs| - 1].trampoline ==> Byte(m', b) == Byte(m, b)
    ensures CopiesAt(m', t, copy, bs)
  {
    forall k | 0 <= k < |bs| ensures BytesAt(m', t + Before(bs, k).trampoline, InstructionAt(copy, bs, k).bytes) {
      CopiesOrdered(copy, bs, k, |bs| - 1);
      assert BytesAt(m, t + Before(bs, k).trampoline, InstructionAt(copy, bs, k).bytes);
    }
  }

  /** Copies in order follow one another, from the start of the trampoline. */
  lemma {:induction false} CopiesOrdered(copy: Copier, bs: seq<Boundary>, j: nat, k: nat)
    requires Boundaries(copy, bs) && InOrder(copy, bs) && j <= k < |bs|
    ensures 0 <= Before(bs, j).trampoline && CopyEnd(copy, bs, j) == bs[j].trampoline <= bs[k].trampoline
    decreases k
  {
    assert EndsAt(copy, bs, k) && InstructionAt(copy, bs, k).extra >= 0;
    hide Boundaries, InOrder;
    if k > 0 { CopiesOrdered(copy, bs, if j < k then j else k - 1, k - 1); }
  }

  /** The padding that is taken when the instructions leave too little room. */
  function WithFiller(filler: nat -> nat, cbTarget: nat): nat
    decreases if cbTarget < SizeOfJmp then SizeOfJmp - cbTarget else 0
  {
    if cbTarget >= SizeOfJmp || filler(cbTarget) == 0 then cbTarget else WithFiller(filler, cbTarget + filler(cbTarget))
  }

  /** Padding that is taken one piece after the other, each before the jump would fit. */
  ghost predicate PaddingChain(filler: nat -> nat, ends: seq<nat>) {
    && ends != []
    && forall k :: 0 <= k < |ends| - 1 ==>
         ends[k] < SizeOfJmp && filler(ends[k]) != 0 && ends[k + 1] == ends[k] + filler(ends[k])
  }

  /** Where it stops: the jump fits, or there is no padding. */
  predicate PaddingEnds(filler: nat -> nat, end: nat) { end >= SizeOfJmp || filler(end) == 0 }

  /** There is one such chain from an end of code, and it leads to the place where the target is cut. */
  lemma {:induction false} PaddingExactly(filler: nat -> nat, ends: seq<nat>)
    requires PaddingChain(filler, ends)
    ensures PaddingEnds(filler, ends[|ends| - 1]) <==> WithFiller(filler, ends[0]) == ends[|ends| - 1]
    decreases |ends|
  {
    if |ends| > 1 {
      assert PaddingChain(filler, ends[1..]) by {
        forall k | 0 <= k < |ends| - 2
          ensures ends[1..][k] < SizeOfJmp && filler(ends[1..][k]) != 0
            && ends[1..][k + 1] == ends[1..][k] + filler(ends[1..][k])
        {
          assert ends[1..][k] == ends[k + 1] && ends[1..][k + 1] == ends[k + 1 + 1];
        }
      }
      assert ends[0 + 1] == ends[0] + filler(ends[0]);
      PaddingExactly(filler, ends[1..]);
    } else {
      WithFillerEnds(filler, ends[0]);
    }
  }

  lemma {:induction false} WithFillerEnds(filler: nat -> nat, cbTarget: nat)
    ensures PaddingEnds(filler, WithFiller(filler, cbTarget)) && cbTarget <= WithFiller(filler, cbTarget)
    decreases if cbTarget < SizeOfJmp then SizeOfJmp - cbTarget else 0
  {
    if cbTarget < SizeOfJmp && filler(cbTarget) != 0 { WithFillerEnds(filler, cbTarget + filler(cbTarget)); }
  }

  /** A target is too short exactly if its copied instructions end before the jump fits, and some
      place behind them, reached through padding, has none. */
  lemma TooShortExactly(copy: Copier, filler: nat -> nat)
    ensures var end := Prologue(copy)[|Prologue(copy)| - 1].target;
      && (end >= SizeOfJmp ==> Cut(copy, filler) == end)
      && (filler(end) == 0 ==> Cut(copy, filler) == end)
      && ((forall at :: end <= at < SizeOfJmp ==> filler(at) != 0) ==> Cut(copy, filler) >= SizeOfJmp)
      && (Cut(copy, filler) < SizeOfJmp <==>
            exists ends :: PaddingChain(filler, ends) && ends[0] == end && ends[|ends| - 1] < SizeOfJmp
              && filler(ends[|ends| - 1]) == 0)
  {
    var end := Prologue(copy)[|Prologue(copy)| - 1].target;
    hide Prologue;
    WithFillerEnds(filler, end);
    var ends := ChainFrom(filler, end);
    forall ends' | PaddingChain(filler, ends') && ends'[0] == end && PaddingEnds(filler, ends'[|ends'| - 1])
      ensures ends'[|ends'| - 1] == Cut(copy, filler)
    {
      PaddingExactly(filler, ends');
    }
  }

  lemma {:induction false} ChainFrom(filler: nat -> nat, cbTarget: nat) returns (ends: seq<nat>)
    ensures PaddingChain(filler, ends) && ends[0] == cbTarget && PaddingEnds(filler, ends[|ends| - 1])
    ensures WithFiller(filler, cbTarget) == ends[|ends| - 1]
    decreases if cbTarget < SizeOfJmp then SizeOfJmp - cbTarget else 0
  {
    if PaddingEnds(filler, cbTarget) {
      ends := [cbTarget];
    } else {
      var rest := ChainFrom(filler, cbTarget + filler(cbTarget));
      ends := [cbTarget] + rest;
      forall k | 0 <= k < |ends| - 1
        ensures ends[k] < SizeOfJmp && filler(ends[k]) != 0 && ends[k + 1] == ends[k] + filler(ends[k])
      {
        if k > 0 { assert ends[k] == rest[k - 1] && ends[k + 1] == rest[k - 1 + 1]; }
      }
    }
    PaddingExactly(filler, ends);
  }

  lemma {:induction false} BoundariesGrow(copy: Copier, bs: seq<Boundary>, j: nat, k: nat)
    requires Boundaries(copy, bs) && j <= k < |bs|
    ensures j < k ==> bs[j].target < bs[k].target
    ensures j + 1 <= bs[j].target <= bs[k].target
    ensures 0 <= 2 * bs[k].trampoline + bs[k].target && bs[k].trampoline <= 3 * bs[k].target
    decreases k
  {
    assert EndsAt(copy, bs, k);
    hide Boundaries;
    if k > 0 { BoundariesGrow(copy, bs, if j < k then j else k - 1, k - 1); }
  }

  lemma NothingAligned(rAlign: seq<Align>)
    requires |rAlign| == AlignEntries && forall k :: 0 <= k < AlignEntries ==> rAlign[k] == Align(0, 0)
    ensures Aligned(rAlign, [])
  {
  }

  lemma AlignedMore(rAlign: seq<Align>, bs: seq<Boundary>, b: Boundary)
    requires Aligned(rAlign, bs) && |bs| < AlignEntries
    ensures Aligned(rAlign[|bs| := Align(b.target % 8, b.trampoline % 32)], bs + [b])
  {
  }

  lemma ZeroTable(m: Bytes, t: int)
    requires forall b :: t + OffsetAlign <= b < t + OffsetAlign + AlignEntries ==> Byte(m, b) == 0
    ensures Aligned(RAlign(m, t), [])
  {
    hide EntryOf;
    assert forall k :: 0 <= k < AlignEntries ==> RAlign(m, t)[k] == EntryOf(0);
    EntryBack(0, 0);
    NothingAligned(RAlign(m, t));
  }

  lemma NoCopies(m: Bytes, t: int, copy: Copier)
    ensures CopiesAt(m, t, copy, [])
  {
  }

  lemma NoBoundaries(copy: Copier)
    ensures Boundaries(copy, []) && GoesOn(copy, []) && InOrder(copy, [])
  {
  }

  /** Copies one instruction and makes its entry in the table. */
  method CopyOne(copy: Copier, slots: Code, t: int, pbSrc: nat, pbTrampoline: int, nAlign: nat, ghost bs: seq<Boundary>)
    returns (i: Copied)
    requires nAlign == |bs| < AlignEntries && Boundaries(copy, bs) && Aligned(RAlign(slots.bytes, t), bs)
    requires Before(bs, |bs|) == Boundary(pbSrc, pbTrampoline) && pbSrc < SizeOfJmp
    requires 0 <= 2 * pbTrampoline + pbSrc && pbTrampoline <= 3 * pbSrc
    requires InOrder(copy, bs) ==> CopiesAt(slots.bytes, t, copy, bs)
    modifies slots
    ensures i == copy(pbSrc)
    ensures var bs' := bs + [Next(copy, Before(bs, |bs|))];
      && Boundaries(copy, bs') && Aligned(RAlign(slots.bytes, t), bs')
      && (InOrder(copy, bs') ==> CopiesAt(slots.bytes, t, copy, bs'))
    ensures forall b :: b < t - 2 || t + 31 <= b < t + OffsetAlign || b >= t + OffsetAlign + AlignEntries ==>
      Byte(slots.bytes, b) == Byte(old(slots.bytes), b)
  {
    hide Boundaries, Aligned, InOrder, CopiesAt, RAlign;
    ghost var b, m := Next(copy, Before(bs, |bs|)), slots.bytes;
    OneMore(copy, bs);
    i := copy(pbSrc);
    slots.CopyMemory(t + pbTrampoline, i.bytes);
    ghost var m1 := slots.bytes;
    RAlignFrame(m, m1, t);
    var entry := Align((pbSrc + i.size) % 8, (pbTrampoline + i.size + i.extra) % 32);
    slots.bytes := slots.bytes[t + OffsetAlign + nAlign := entry.obTarget + 8 * entry.obTrampoline];
    RAlignWrite(m1, t, nAlign, entry);
    AlignedMore(RAlign(m1, t), bs, b);
    CopiesStep(m, m1, slots.bytes, t, copy, bs);
  }

  /** Copies whole instructions into the trampoline at `t` until the jump fits. */
  method CopyWhole(copy: Copier, slots: Code, t: int) returns (cbTarget: nat, cbCode: int, ghost bs: seq<Boundary>)
    modifies slots
    ensures Boundaries(copy, bs) && Complete(copy, bs) && Aligned(RAlign(slots.bytes, t), bs)
    ensures bs[|bs| - 1] == Boundary(cbTarget, cbCode) && cbTarget < SizeOfJmp + 15
    ensures InOrder(copy, bs) ==> CopiesAt(slots.bytes, t, copy, bs)
    ensures forall b :: b < t - 2 || t + 31 <= b < t + OffsetAlign || b >= t + OffsetAlign + AlignEntries ==>
      Byte(slots.bytes, b) == Byte(old(slots.bytes), b)
  {
    hide Boundaries, GoesOn, Aligned, InOrder, CopiesAt, RAlign;
    assert Boundaries(copy, []) && GoesOn(copy, []) by { NoBoundaries(copy); }
    slots.Memset(t + OffsetAlign, AlignEntries, 0);
    assert Aligned(RAlign(slots.bytes, t), []) by { ZeroTable(slots.bytes, t); }
    assert CopiesAt(slots.bytes, t, copy, []) by { NoCopies(slots.bytes, t, copy); }
    var pbSrc: nat, pbTrampoline: int, nAlign: nat := 0, 0, 0;
    cbTarget := 0;
    bs := [];
    while cbTarget < SizeOfJmp
      invariant nAlign == |bs| <= AlignEntries && Boundaries(copy, bs) && Aligned(RAlign(slots.bytes, t), bs)
      invariant cbTarget == pbSrc && Before(bs, |bs|) == Boundary(pbSrc, pbTrampoline)
      invariant nAlign < AlignEntries && Short(bs) && cbTarget < SizeOfJmp + 15
      invariant GoesOn(copy, bs) && (bs != [] ==> GoesOn(copy, bs[..|bs| - 1]))
      invariant 0 <= 2 * pbTrampoline + cbTarget && pbTrampoline <= 3 * cbTarget
      invariant InOrder(copy, bs) ==> CopiesAt(slots.bytes, t, copy, bs)
      invariant forall b :: b < t - 2 || t + 31 <= b < t + OffsetAlign || b >= t + OffsetAlign + AlignEntries ==>
        Byte(slots.bytes, b) == Byte(old(slots.bytes), b)
      decreases SizeOfJmp + 15 - cbTarget
    {
      ghost var bs0, b := bs, Next(copy, Before(bs, |bs|));
      var i := CopyOne(copy, slots, t, pbSrc, pbTrampoline, nAlign, bs);
      pbSrc := pbSrc + i.size;
      pbTrampoline := pbTrampoline + i.size + i.extra;
      cbTarget := pbSrc;
      bs := bs + [b];
      assert bs[..|bs| - 1] == bs0 && Before(bs, |bs0|) == Before(bs0, |bs0|);
      nAlign := nAlign + 1;
      if nAlign >= AlignEntries { break; }
      if i.ends { break; }
      GoesOnMore(copy, bs0, b);
    }
    cbCode := pbTrampoline;
  }

  /** Consumes padding if it is needed and available. */
  method TakePadding(filler: nat -> nat, cbCopied: nat) returns (cbTarget: nat, ghost ends: seq<nat>)
    requires (forall at: nat :: filler(at) <= 11) && cbCopied < SizeOfJmp + 15
    ensures PaddingChain(filler, ends) && ends[0] == cbCopied && ends[|ends| - 1] == cbTarget
    ensures PaddingEnds(filler, cbTarget)
    ensures cbTarget == WithFiller(filler, cbCopied) && cbCopied <= cbTarget < SizeOfJmp + 15
  {
    cbTarget, ends := cbCopied, [cbCopied];
    while cbTarget < SizeOfJmp
      invariant PaddingChain(filler, ends) && ends[0] == cbCopied && ends[|ends| - 1] == cbTarget
      invariant cbCopied <= cbTarget < SizeOfJmp + 15
      decreases SizeOfJmp - cbTarget
    {
      var cFiller := filler(cbTarget);
      if cFiller == 0 { break; }
      ends := ends + [cbTarget + cFiller];
      cbTarget := cbTarget + cFiller;
    }
    PaddingExactly(filler, ends);
  }

  /** The two loops of DetourAttachEx. */
  method CopyPrologue(copy: Copier, filler: nat -> nat, slots: Code, t: int)
    returns (cbTarget: nat, cbCode: int, ghost bs: seq<Boundary>)
    requires forall at: nat :: filler(at) <= 11
    modifies slots
    ensures Boundaries(copy, bs) && Complete(copy, bs) && Aligned(RAlign(slots.bytes, t), bs)
    ensures PaddingEnds(filler, cbTarget) && exists ends ::
      PaddingChain(filler, ends) && ends[0] == bs[|bs| - 1].target && ends[|ends| - 1] == cbTarget
    ensures bs == Prologue(copy) && cbCode == CodeEnd(copy) && cbTarget == Cut(copy, filler)
    ensures bs[|bs| - 1].target <= cbTarget < SizeOfJmp + 15
    ensures InOrder(copy, bs) ==> CopiesAt(slots.bytes, t, copy, bs)
    ensures forall b :: b < t - 2 || t + 31 <= b < t + OffsetAlign || b >= t + OffsetAlign + AlignEntries ==>
      Byte(slots.bytes, b) == Byte(old(slots.bytes), b)
  {
    hide Boundaries, Aligned, Complete, InOrder, CopiesAt, RAlign;
    cbTarget, cbCode, bs := CopyWhole(copy, slots, t);
    PrologueUnique(copy, bs);
    ghost var ends;
    cbTarget, ends := TakePadding(filler, cbTarget);
  }

  /** detour_align_from_target. */
  function AlignFromTarget(rAlign: seq<Align>, obTarget: nat): nat {
    if rAlign == [] then 0
    else if rAlign[0].obTarget == obTarget then rAlign[0].obTrampoline
    else AlignFromTarget(rAlign[1..], obTarget)
  }

  lemma {:induction false} FirstMatch(rAlign: seq<Align>, ob: nat, k: nat)
    requires k < |rAlign| && rAlign[k].obTarget == ob && forall j :: 0 <= j < k ==> rAlign[j].obTarget != ob
    ensures AlignFromTarget(rAlign, ob) == rAlign[k].obTrampoline
  {
    if k > 0 { FirstMatch(rAlign[1..], ob, k - 1); }
  }

  /** Looking up the end of a copied instruction that is inside the overwritten range gives the
      end of its copy, except for an instruction whose copy went back, and for one that went back
      to before the trampoline. */
  lemma BoundaryMoves(copy: Copier, bs: seq<Boundary>, rAlign: seq<Align>, k: nat, cbTarget: nat)
    requires Boundaries(copy, bs) && Short(bs) && Aligned(rAlign, bs)
    requires k < |bs| && bs[k].target < cbTarget
      && (bs[|bs| - 1].target >= SizeOfJmp ==> cbTarget == bs[|bs| - 1].target)
    ensures AlignFromTarget(rAlign, bs[k].target) == bs[k].trampoline % 32
    ensures AlignFromTarget(rAlign, bs[k].target) == CopyEnd(copy, bs, k) <==>
      InstructionAt(copy, bs, k).extra >= 0 && bs[k].trampoline >= 0
  {
    assert EndsAt(copy, bs, k);
    hide Boundaries;
    BoundariesGrow(copy, bs, k, |bs| - 1);
    BoundariesGrow(copy, bs, k, k);
    assert bs[k].target < SizeOfJmp && k < 4;
    forall j | 0 <= j < k ensures rAlign[j].obTarget != bs[k].target { BoundariesGrow(copy, bs, j, k); }
    FirstMatch(rAlign, bs[k].target, k);
  }

  /** All of them are right exactly if no instruction inside the range reports -3. */
  lemma AllBoundariesMove(copy: Copier, bs: seq<Boundary>, rAlign: seq<Align>, cbTarget: nat)
    requires Boundaries(copy, bs) && Short(bs) && Aligned(rAlign, bs) && bs != []
    requires bs[|bs| - 1].target >= SizeOfJmp ==> cbTarget == bs[|bs| - 1].target
    ensures (forall k :: 0 <= k < |bs| && bs[k].target < cbTarget ==>
      AlignFromTarget(rAlign, bs[k].target) == CopyEnd(copy, bs, k))
      <==> (forall k :: 0 <= k < |bs| && bs[k].target < cbTarget ==> InstructionAt(copy, bs, k).extra >= 0)
  {
    hide Boundaries, Short, Aligned;
    forall k | 0 <= k < |bs| && bs[k].target < cbTarget
      ensures AlignFromTarget(rAlign, bs[k].target) == CopyEnd(copy, bs, k) ==> InstructionAt(copy, bs, k).extra >= 0
      ensures (forall j :: 0 <= j < |bs| && bs[j].target < cbTarget ==> InstructionAt(copy, bs, j).extra >= 0) ==>
        AlignFromTarget(rAlign, bs[k].target) == CopyEnd(copy, bs, k)
    {
      BoundaryMoves(copy, bs, rAlign, k, cbTarget);
      if forall j :: 0 <= j < |bs| && bs[j].target < cbTarget ==> InstructionAt(copy, bs, j).extra >= 0 {
        forall j | 0 <= j <= k ensures InstructionAt(copy, bs, j).extra >= 0 { BoundariesGrow(copy, bs, j, k); }
        NotBack(copy, bs, k);
      }
    }
  }

  lemma {:induction false} NotBack(copy: Copier, bs: seq<Boundary>, k: nat)
    requires Boundaries(copy, bs) && k < |bs| && forall j :: 0 <= j <= k ==> InstructionAt(copy, bs, j).extra >= 0
    ensures bs[k].trampoline >= 0
  {
    assert EndsAt(copy, bs, k) && InstructionAt(copy, bs, k).extra >= 0;
    hide Boundaries;
    if k > 0 { NotBack(copy, bs, k - 1); }
  }

  /** A LOOP, LOOPE, LOOPNE or JCXZ first, out of reach of its target: its copy ends after two
      bytes, but the next one is put before the trampoline, and a thread that has executed it
      goes to 31 bytes behind its start. */
  lemma LoopFirst(copy: Copier, bs: seq<Boundary>, rAlign: seq<Align>)
    requires Boundaries(copy, bs) && Complete(copy, bs) && Aligned(rAlign, bs)
    requires copy(0).size == 2 && copy(0).extra == -3 && !copy(0).ends
    ensures |bs| >= 2 && bs[0] == Boundary(2, -1) && CopyEnd(copy, bs, 0) == 2 && AlignFromTarget(rAlign, 2) == 31
  {
    assert EndsAt(copy, bs, 0);
    FirstMatch(rAlign, 2, 0);
  }

  /** A thread at the start of the target goes to the start of the trampoline, unless the last
      copied instruction ends at a multiple of eight bytes: its offset is then zero in three
      bits. */
  lemma StartMoves(copy: Copier, bs: seq<Boundary>, rAlign: seq<Align>)
    requires Boundaries(copy, bs) && Short(bs) && Aligned(rAlign, bs) && bs != []
    ensures AlignFromTarget(rAlign, 0) == 0 <==> bs[|bs| - 1].target % 8 != 0 || bs[|bs| - 1].trampoline % 32 == 0
  {
    hide Boundaries;
    var n := |bs| - 1;
    forall j | 0 <= j <= n ensures bs[j].target > 0 { BoundariesGrow(copy, bs, j, j); }
    if bs[n].target % 8 == 0 {
      FirstMatch(rAlign, 0, n);
    } else if |bs| < AlignEntries {
      FirstMatch(rAlign, 0, |bs|);
    } else {
      NoMatch(rAlign, 0);
    }
  }

  lemma {:induction false} NoMatch(rAlign: seq<Align>, ob: nat)
    requires forall j :: 0 <= j < |rAlign| ==> rAlign[j].obTarget != ob
    ensures AlignFromTarget(rAlign, ob) == 0
  {
    if rAlign != [] { NoMatch(rAlign[1..], ob); }
  }

  /** Where at most seven bytes are moved, every thread goes to its place exactly if no
      instruction inside the range reports -3. */
  lemma SevenBytesMove(copy: Copier, bs: seq<Boundary>, rAlign: seq<Align>, cbTarget: nat)
    requires Boundaries(copy, bs) && Short(bs) && Aligned(rAlign, bs) && bs != [] && bs[|bs| - 1].target <= 7
    requires bs[|bs| - 1].target >= SizeOfJmp ==> cbTarget == bs[|bs| - 1].target
    ensures AlignFromTarget(rAlign, 0) == 0
    ensures (forall k :: 0 <= k < |bs| && bs[k].target < cbTarget ==>
      AlignFromTarget(rAlign, bs[k].target) == CopyEnd(copy, bs, k))
      <==> (forall k :: 0 <= k < |bs| && bs[k].target < cbTarget ==> InstructionAt(copy, bs, k).extra >= 0)
  {
    hide Boundaries, Short, Aligned, CopyEnd, AlignFromTarget;
    BoundariesGrow(copy, bs, |bs| - 1, |bs| - 1);
    StartMoves(copy, bs, rAlign);
    AllBoundariesMove(copy, bs, rAlign, cbTarget);
  }

  /** Instructions of 3 and 5 bytes: a thread that has not started is sent to the end of the
      moved code. */
  lemma EightBytesDoNotMove(copy: Copier)
    requires copy(0).size == 3 && copy(3).size == 5 && copy(0).extra == copy(3).extra == 0 && !copy(0).ends
    ensures var bs := [Boundary(3, 3), Boundary(8, 8)];
      var rAlign := [Align(3, 3), Align(0, 8)] + seq(6, _ => Align(0, 0));
      Prologue(copy) == bs && Aligned(rAlign, bs) && AlignFromTarget(rAlign, 0) == 8
  {
    var bs := [Boundary(3, 3), Boundary(8, 8)];
    var rAlign := [Align(3, 3), Align(0, 8)] + seq(6, _ => Align(0, 0));
    assert Next(copy, Start) == bs[0] && Next(copy, bs[0]) == bs[1];
    assert Rest(copy, bs[0], 1) == [bs[1]];
    FirstMatch(rAlign, 0, 1);
  }

  /** At most five instructions are moved, less than 20 bytes; their copies end at most 31 bytes
      after the start of the trampoline, and at most three before it. */
  lemma CodeSize(copy: Copier, bs: seq<Boundary>)
    requires Boundaries(copy, bs) && Short(bs) && bs != []
    ensures var n := |bs| - 1;
      && |bs| <= 5 && bs[n].target < SizeOfJmp + 15
      && -3 <= bs[n].trampoline <= 12 + CopyLength(InstructionAt(copy, bs, n)) <= 31
  {
    var n := |bs| - 1;
    assert EndsAt(copy, bs, n);
    hide Boundaries;
    BoundariesGrow(copy, bs, n, n);
    if n > 0 { BoundariesGrow(copy, bs, n - 1, n - 1); }
  }

  function CopyLength(i: Copied): nat { |i.bytes| }

  /** The copies leave room for the jump back if none is longer than 12 bytes; if none is longer
      than 14 bytes, the jump stays below rbRestore. */
  lemma CopiesFit(copy: Copier)
    ensures -3 <= CodeEnd(copy) <= 31
    ensures (forall at :: 0 <= at < SizeOfJmp ==> CopyLength(copy(at)) <= 12) ==> CodeEnd(copy) <= 24
    ensures (forall at :: 0 <= at < SizeOfJmp ==> CopyLength(copy(at)) <= 14) ==> CodeEnd(copy) <= 26
  {
    var bs := Prologue(copy);
    PrologueIsCopied(copy);
    hide Complete;
    CodeSize(copy, bs);
    var n := |bs| - 1;
    assert Before(bs, n).target < SizeOfJmp;
  }

  /** The boundaries are also what the definitions of Boundaries and Complete ask for. */
  lemma PrologueIsCopied(copy: Copier)
    ensures Boundaries(copy, Prologue(copy)) && Complete(copy, Prologue(copy)) && Short(Prologue(copy))
  {
    NoBoundaries(copy);
    hide Boundaries, GoesOn;
    RestIsCopied(copy, []);
    assert [] + Prologue(copy) == Prologue(copy);
  }

  lemma {:induction false} RestIsCopied(copy: Copier, bs: seq<Boundary>)
    requires Boundaries(copy, bs) && GoesOn(copy, bs) && |bs| < AlignEntries
    requires forall k :: 0 <= k < |bs| ==> bs[k].target < SizeOfJmp
    ensures var all := bs + Rest(copy, Before(bs, |bs|), |bs|); Boundaries(copy, all) && Complete(copy, all)
    decreases AlignEntries - |bs|
  {
    hide Boundaries, GoesOn, Complete;
    var from := Before(bs, |bs|);
    var b := Next(copy, from);
    var bs' := bs + [b];
    OneMore(copy, bs);
    if |bs'| == AlignEntries || b.target >= SizeOfJmp || copy(from.target).ends {
      StopHere(copy, bs, b);
      assert bs + Rest(copy, from, |bs|) == bs';
    } else {
      GoesOnMore(copy, bs, b);
      RestIsCopied(copy, bs');
      assert bs' + Rest(copy, b, |bs'|) == bs + ([b] + Rest(copy, b, |bs'|));
    }
  }

  lemma StopHere(copy: Copier, bs: seq<Boundary>, b: Boundary)
    requires GoesOn(copy, bs) && |bs| < AlignEntries && b == Next(copy, Before(bs, |bs|))
    requires forall k :: 0 <= k < |bs| ==> bs[k].target < SizeOfJmp
    requires |bs| + 1 == AlignEntries || b.target >= SizeOfJmp || InstructionAt(copy, bs, |bs|).ends
    ensures Complete(copy, bs + [b])
  {
    hide GoesOn, Next;
    var bs' := bs + [b];
    assert bs'[..|bs'| - 1] == bs && Before(bs', |bs|) == Before(bs, |bs|);
  }

  /** Two short jumps and an instruction of 15 bytes: 27 bytes are moved. */
  lemma TwentySevenBytes(copy: Copier)
    requires copy(0).size == copy(2).size == 2 && copy(0).extra == copy(2).extra == 4 && !copy(0).ends && !copy(2).ends
    requires copy(4).size == 15 && copy(4).extra == 0
    ensures Prologue(copy) == [Boundary(2, 6), Boundary(4, 12), Boundary(19, 27)] && CodeEnd(copy) == 27
    ensures forall filler: nat -> nat :: Cut(copy, filler) == 19
  {
    var bs := [Boundary(2, 6), Boundary(4, 12), Boundary(19, 27)];
    assert Next(copy, Start) == bs[0] && Next(copy, bs[0]) == bs[1] && Next(copy, bs[1]) == bs[2];
    assert Rest(copy, bs[1], 2) == [bs[2]];
    assert Rest(copy, bs[0], 1) == [bs[1], bs[2]];
  }

  /** On ARM64 the four boundaries are at 4, 8, 12 and 16, which are 4, 0, 4 and 0 in three
      bits: only a thread after the first instruction is moved to its place.  One at the start
      goes where the second instruction ends, and the others to the start. */
  lemma FourWordsDoNotMove(copies: seq<nat>)
    requires |copies| == 4
    ensures var rAlign := [Align(4, copies[0] % 32), Align(8 % 8, copies[1] % 32), Align(12 % 8, copies[2] % 32),
                           Align(16 % 8, copies[3] % 32)]
                          + seq(4, _ => Align(0, 0));
      && AlignFromTarget(rAlign, 4) == copies[0] % 32 && AlignFromTarget(rAlign, 0) == copies[1] % 32
      && AlignFromTarget(rAlign, 8) == 0 && AlignFromTarget(rAlign, 12) == 0
  {
    var rAlign := [Align(4, copies[0] % 32), Align(8 % 8, copies[1] % 32), Align(12 % 8, copies[2] % 32),
                   Align(16 % 8, copies[3] % 32)]
                  + seq(4, _ => Align(0, 0));
    FirstMatch(rAlign, 4, 0);
    FirstMatch(rAlign, 0, 1);
    NoMatch(rAlign, 8);
    NoMatch(rAlign, 12);
  }

  // --------------------------------------------------------- moving a suspended thread

  /** Where a commit leaves a thread that was suspended at `eip`, for one attached target. */
  function AttachedEip(eip: nat, pbTarget: nat, cbRestore: nat, pTrampoline: nat, rAlign: seq<Align>): nat {
    if pbTarget <= eip < pbTarget + cbRestore then pTrampoline + AlignFromTarget(rAlign, (eip - pbTarget) % 0x100)
    else eip
  }

  /** detour_align_from_trampoline. */
  function AlignFromTrampoline(rAlign: seq<Align>, obTrampoline: nat): nat {
    if rAlign == [] then 0
    else if rAlign[0].obTrampoline == obTrampoline then rAlign[0].obTarget
    else AlignFromTrampoline(rAlign[1..], obTrampoline)
  }

  /** And for one detached target: the range that is looked at has the size of a pointer. */
  function DetachedEip(eip: nat, pbTarget: nat, pTrampoline: nat, rAlign: seq<Align>): nat {
    if pTrampoline <= eip < pTrampoline + 8 then pbTarget + AlignFromTrampoline(rAlign, (eip - pTrampoline) % 0x100)
    else eip
  }

  /** Attaching moves a thread at the end of a copied instruction to the end of its copy, unless
      that copy went back or is before the trampoline; threads outside of the overwritten bytes
      stay. */
  lemma AttachedThread(copy: Copier, bs: seq<Boundary>, rAlign: seq<Align>, k: nat, pbTarget: nat, cbTarget: nat,
                       pTrampoline: nat, eip: nat)
    requires Boundaries(copy, bs) && Short(bs) && Aligned(rAlign, bs) && k < |bs|
    requires bs[|bs| - 1].target <= cbTarget && (bs[|bs| - 1].target >= SizeOfJmp ==> cbTarget == bs[|bs| - 1].target)
    ensures var eip' := AttachedEip(pbTarget + bs[k].target, pbTarget, cbTarget, pTrampoline, rAlign);
      bs[k].target < cbTarget ==>
        && (eip' == pTrampoline + CopyEnd(copy, bs, k) <==>
              InstructionAt(copy, bs, k).extra >= 0 && bs[k].trampoline >= 0)
        && pTrampoline <= eip' <= pTrampoline + 31
    ensures eip < pbTarget || eip >= pbTarget + cbTarget ==>
      AttachedEip(eip, pbTarget, cbTarget, pTrampoline, rAlign) == eip
  {
    hide Boundaries, Aligned, Short;
    if bs[k].target < cbTarget {
      BoundaryMoves(copy, bs, rAlign, k, cbTarget);
      CodeSize(copy, bs);
      BoundariesGrow(copy, bs, k, |bs| - 1);
    }
  }

  /** A thread at the start goes to the start of the trampoline exactly where offset 0 is looked up
      rightly; one inside an instruction, at an offset that no entry has, always does. */
  lemma AttachedStart(copy: Copier, bs: seq<Boundary>, rAlign: seq<Align>, pbTarget: nat, cbTarget: nat,
                      pTrampoline: nat, ob: nat)
    requires Boundaries(copy, bs) && Short(bs) && Aligned(rAlign, bs) && bs != [] && cbTarget > 0
    ensures AttachedEip(pbTarget, pbTarget, cbTarget, pTrampoline, rAlign) == pTrampoline <==>
      bs[|bs| - 1].target % 8 != 0 || bs[|bs| - 1].trampoline % 32 == 0
    ensures 0 < ob < cbTarget && ob < 0x100 && (forall k :: 0 <= k < |bs| ==> bs[k].target % 8 != ob) ==>
      AttachedEip(pbTarget + ob, pbTarget, cbTarget, pTrampoline, rAlign) == pTrampoline
  {
    StartMoves(copy, bs, rAlign);
    if 0 < ob < cbTarget && ob < 0x100 && forall k :: 0 <= k < |bs| ==> bs[k].target % 8 != ob {
      assert pbTarget + ob - pbTarget == ob;
      NoMatch(rAlign, ob);
    }
  }

  /** Detaching looks at the first eight bytes of a trampoline only, and leaves a thread further
      on in the moved code where it is. */
  lemma DetachedThread(rAlign: seq<Align>, pbTarget: nat, pTrampoline: nat, eip: nat)
    requires forall j :: 0 <= j < |rAlign| ==> rAlign[j].obTarget < 8
    ensures var eip' := DetachedEip(eip, pbTarget, pTrampoline, rAlign);
      if pTrampoline <= eip < pTrampoline + 8 then pbTarget <= eip' < pbTarget + 8 else eip' == eip
  {
    if pTrampoline <= eip { AlignIsSmall(rAlign, (eip - pTrampoline) % 0x100); }
  }

  /** A thread at a boundary in these eight bytes goes back to that boundary of the target, unless
      the offset of the boundary does not fit in three bits or an earlier one has the same place
      in the table. */
  lemma DetachedBoundary(copy: Copier, bs: seq<Boundary>, rAlign: seq<Align>, k: nat, pbTarget: nat, pTrampoline: nat)
    requires Boundaries(copy, bs) && Short(bs) && Aligned(rAlign, bs) && k < |bs| && 0 <= bs[k].trampoline < 8
    ensures DetachedEip(pTrampoline + bs[k].trampoline, pbTarget, pTrampoline, rAlign) == pbTarget + bs[k].target <==>
      bs[k].target < 8 && forall j :: 0 <= j < k ==> bs[j].trampoline % 32 != bs[k].trampoline
  {
    hide Boundaries;
    var ob := bs[k].trampoline;
    assert pTrampoline + ob - pTrampoline == ob && ob % 0x100 == ob;
    if j :| 0 <= j < k && bs[j].trampoline % 32 == ob {
      var i := FirstAt(rAlign, ob, j);
      BoundariesGrow(copy, bs, i, k);
      FirstTrampoline(rAlign, ob, i);
    } else {
      FirstTrampoline(rAlign, ob, k);
    }
  }

  /** One inside a copy, at a place that no entry has, goes to the start of the target. */
  lemma DetachedInside(bs: seq<Boundary>, rAlign: seq<Align>, pbTarget: nat, pTrampoline: nat, ob: nat)
    requires Aligned(rAlign, bs) && 0 < ob < 8 && forall k :: 0 <= k < |bs| ==> bs[k].trampoline % 32 != ob
    ensures DetachedEip(pTrampoline + ob, pbTarget, pTrampoline, rAlign) == pbTarget
  {
    assert pTrampoline + ob - pTrampoline == ob;
    NoTrampoline(rAlign, ob);
  }

  lemma {:induction false} NoTrampoline(rAlign: seq<Align>, ob: nat)
    requires forall j :: 0 <= j < |rAlign| ==> rAlign[j].obTrampoline != ob
    ensures AlignFromTrampoline(rAlign, ob) == 0
  {
    if rAlign != [] { NoTrampoline(rAlign[1..], ob); }
  }

  /** The first entry for a place. */
  ghost function FirstAt(rAlign: seq<Align>, ob: nat, k: nat): (i: nat)
    requires k < |rAlign| && rAlign[k].obTrampoline == ob
    ensures i <= k && rAlign[i].obTrampoline == ob && forall j :: 0 <= j < i ==> rAlign[j].obTrampoline != ob
    decreases k
  {
    if j :| 0 <= j < k && rAlign[j].obTrampoline == ob then FirstAt(rAlign, ob, j) else k
  }

  lemma {:induction false} FirstTrampoline(rAlign: seq<Align>, ob: nat, k: nat)
    requires k < |rAlign| && rAlign[k].obTrampoline == ob && forall j :: 0 <= j < k ==> rAlign[j].obTrampoline != ob
    ensures AlignFromTrampoline(rAlign, ob) == rAlign[k].obTarget
  {
    if k > 0 { FirstTrampoline(rAlign[1..], ob, k - 1); }
  }

  /** Where no copy goes back, every thread in these eight bytes goes back to where it was,
      a thread at the start of the trampoline too. */
  lemma DetachedInOrder(copy: Copier, bs: seq<Boundary>, rAlign: seq<Align>, pbTarget: nat, pTrampoline: nat)
    requires Boundaries(copy, bs) && Short(bs) && Aligned(rAlign, bs) && bs != [] && InOrder(copy, bs)
    ensures DetachedEip(pTrampoline, pbTarget, pTrampoline, rAlign) == pbTarget
    ensures forall k :: 0 <= k < |bs| && bs[k].trampoline < 8 ==>
      bs[k].trampoline >= 0
        && DetachedEip(pTrampoline + bs[k].trampoline, pbTarget, pTrampoline, rAlign) == pbTarget + bs[k].target
  {
    hide Boundaries, InOrder;
    CodeSize(copy, bs);
    forall k | 0 <= k < |bs| ensures 0 < bs[k].target <= bs[k].trampoline <= 31 {
      TrampolinesGrow(copy, bs, k, k);
      TrampolinesGrow(copy, bs, k, |bs| - 1);
      BoundariesGrow(copy, bs, k, k);
    }
    FirstTrampoline(rAlign, 0, |bs|);
    forall k | 0 <= k < |bs| && bs[k].trampoline < 8
      ensures DetachedEip(pTrampoline + bs[k].trampoline, pbTarget, pTrampoline, rAlign) == pbTarget + bs[k].target
    {
      forall j | 0 <= j < k ensures bs[j].trampoline % 32 != bs[k].trampoline { TrampolinesGrow(copy, bs, j, k); }
      DetachedBoundary(copy, bs, rAlign, k, pbTarget, pTrampoline);
    }
  }

  lemma {:induction false} TrampolinesGrow(copy: Copier, bs: seq<Boundary>, j: nat, k: nat)
    requires Boundaries(copy, bs) && InOrder(copy, bs) && j <= k < |bs|
    ensures bs[k].target <= bs[k].trampoline && bs[j].trampoline <= bs[k].trampoline
      && (j < k ==> bs[j].trampoline < bs[k].trampoline)
    decreases k
  {
    assert EndsAt(copy, bs, k) && InstructionAt(copy, bs, k).extra >= 0;
    hide Boundaries, InOrder;
    if k > 0 { TrampolinesGrow(copy, bs, if j < k then j else k - 1, k - 1); }
  }

  lemma {:induction false} AlignIsSmall(rAlign: seq<Align>, ob: nat)
    requires forall j :: 0 <= j < |rAlign| ==> rAlign[j].obTarget < 8
    ensures AlignFromTrampoline(rAlign, ob) < 8
  {
    if rAlign != [] { AlignIsSmall(rAlign[1..], ob); }
  }
}
