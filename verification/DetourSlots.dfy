/** The bytes of a trampoline (LoaderWatch.Inject/detours.cpp, for x64): where its fields are, how
    an attach fills them in, and what the jump back at the end of the moved code overwrites. */
module DetourSlots {
  import opened Words
  import opened X64Jumps
  import opened DetourPrologue
  import Regions = DetourRegions

  /** sizeof(rbCode), and the offsets of the fields behind it; X64Jumps and DetourPrologue have
      the others. */
  const CodeRoom := 30
  const OffsetCodeSize := 30
  const OffsetRestoreBytes := 32
  const OffsetRestore := 62

  /** The fields follow one another: rbCode, cbCode, cbCodeBreak, rbRestore, cbRestore, cbRestoreBreak,
      rAlign, pbRemain, pbDetour and rbCodeIn. */
  lemma Layout()
    ensures CodeRoom == 30 && OffsetCodeSize == CodeRoom && OffsetRestoreBytes == OffsetCodeSize + 1 + 1
    ensures OffsetRestore == OffsetRestoreBytes + CodeRoom && OffsetAlign == OffsetRestore + 1 + 1
    ensures OffsetRemain == OffsetAlign + AlignEntries && OffsetDetour == OffsetRemain + 8
    ensures OffsetCodeIn == OffsetDetour + 8 && Regions.SlotSize == OffsetCodeIn + 8
  {
  }

  /** What is read from a trampoline, but for its pbRemain, which is also the link of the free
      list. */
  datatype Trampoline = Trampoline(cbRestore: nat, rbRestore: seq<byte>, rAlign: seq<Align>, pbDetour: Addr)

  function PointerAt(m: Bytes, a: int): Addr {
    EightBytes();
    Le(m, a, 8)
  }

  lemma PointerBack(m: Bytes, a: int, p: Addr)
    ensures PointerAt(Poke(m, a, 8, p), a) == p
  {
    hide Pow256, Poke, Le;
    PokeLe(m, a, 8, p);
    EightBytes();
  }

  /** A pointer is its eight bytes. */
  lemma PointerBytes(m: Bytes, a: int, p: Addr)
    ensures LeBytes(8, p) == BytesOf(m, a, 8) <==> PointerAt(m, a) == p
  {
    EightBytes();
    LeBack(m, a, 8);
    hide Pow256, Poke, Le, LeBytes;
    if LeBytes(8, p) == BytesOf(m, a, 8) {
      RelOfBytes(m, a, 8, p);
      PointerBack(m, a, p);
    }
  }

  function View(m: Bytes, t: int): Trampoline {
    var cbRestore := Byte(m, t + OffsetRestore);
    Trampoline(cbRestore, BytesOf(m, t + OffsetRestoreBytes, cbRestore), RAlign(m, t), PointerAt(m, t + OffsetDetour))
  }

  /** A trampoline is the same if its fields from rbRestore to rAlign, and its pbDetour, are. */
  lemma ViewFrame(m: Bytes, m': Bytes, t: int)
    requires Byte(m, t + OffsetRestore) <= 30
    requires forall b :: t + OffsetRestoreBytes <= b < t + OffsetRemain || t + OffsetDetour <= b < t + OffsetCodeIn ==>
      Byte(m', b) == Byte(m, b)
    ensures View(m', t) == View(m, t)
  {
    hide RAlign, PointerAt;
    RAlignFrame(m, m', t);
    PointerFrame(m, m', t + OffsetDetour);
    var n := Byte(m, t + OffsetRestore);
    assert BytesOf(m', t + OffsetRestoreBytes, n) == BytesOf(m, t + OffsetRestoreBytes, n);
  }

  /** The byte `i` of a jump through pbRemain that is `c` bytes behind the trampoline's start. */
  function JumpByte(c: int, i: int): byte {
    if i == 0 then 0xff else if i == 1 then 0x25 else if i == 2 then (OffsetRemain - (c + 6)) % 0x100 else 0
  }

  /** The jump back: an indirect one through the trampoline's pbRemain. */
  ghost predicate JumpBack(m: Bytes, t: nat, c: nat) {
    Byte(m, t + c) == 0xff && Byte(m, t + c + 1) == 0x25
      && Wrap(t + c + 6 + Rel(m, t + c + 2, 4)) == Wrap(t + OffsetRemain)
  }

  /** And the jump of rbCodeIn, through its pbDetour. */
  ghost predicate JumpIn(m: Bytes, t: nat) {
    && Byte(m, t + OffsetCodeIn) == 0xff && Byte(m, t + OffsetCodeIn + 1) == 0x25
    && Wrap(t + OffsetCodeIn + 6 + Rel(m, t + OffsetCodeIn + 2, 4)) == Wrap(t + OffsetDetour)
  }

  lemma JumpInFrame(m: Bytes, m': Bytes, t: nat)
    requires JumpIn(m, t) && forall b :: t + OffsetCodeIn <= b < t + OffsetCodeIn + 6 ==> Byte(m', b) == Byte(m, b)
    ensures JumpIn(m', t)
  {
    hide Wrap, Rel;
    RelFrame(m, m', t + OffsetCodeIn + 2, 4);
  }

  /** What rbRestore[k] holds in the end, after the jump back was written behind `c` bytes of code. */
  function Kept(c: int, k: nat, was: byte): byte {
    var i := OffsetRestoreBytes + k - c;
    if c >= 0 && 0 <= i < 6 then JumpByte(c, i) else was
  }

  function KeptBytes(c: int, was: seq<byte>): (s: seq<byte>)
    ensures |s| == |was| && forall k :: 0 <= k < |was| ==> s[k] == Kept(c, k, was[k])
  {
    seq<byte>(|was|, k requires 0 <= k < |was| => Kept(c, k, was[k]))
  }

  /** At most 26 bytes of code are moved, or the code happens to begin with the end of the jump
      back. */
  predicate Undamaged(c: int, was: seq<byte>) {
    c <= 26 || forall k :: 0 <= k < |was| && k < c - 26 ==> was[k] == JumpByte(c, OffsetRestoreBytes + k - c)
  }

  /** Exactly then rbRestore still holds the overwritten code. */
  lemma RestoreIntact(c: int, was: seq<byte>)
    requires c <= 31
    ensures KeptBytes(c, was) == was <==> Undamaged(c, was)
  {
    var s := KeptBytes(c, was);
    if c > 26 {
      forall k | 0 <= k < |was| && k < c - 26 ensures s[k] == JumpByte(c, OffsetRestoreBytes + k - c) {}
    }
  }

  /** The jump back is inside rbCode exactly if at most 24 bytes were moved, and inside the
      trampoline exactly if they do not end before its start. */
  lemma JumpBackFits(c: int)
    requires -3 <= c <= 31
    ensures c % 0x100 + 6 <= CodeRoom <==> 0 <= c <= 24
    ensures c % 0x100 + 6 <= Regions.SlotSize <==> 0 <= c
  {
  }

  /** At two short jumps and an instruction of 15 bytes, the first byte to restore becomes 0. */
  lemma FirstByteLost(copy: Copier, was: seq<byte>)
    requires copy(0).size == copy(2).size == 2 && copy(0).extra == copy(2).extra == 4 && !copy(0).ends && !copy(2).ends
    requires copy(4).size == 15 && copy(4).extra == 0
    requires |was| == 19 && 0x70 <= was[0] <= 0x7f
    ensures CodeEnd(copy) == 27 && KeptBytes(27, was) == was[0 := 0] != was
  {
    TwentySevenBytes(copy);
  }

  /** Fills the trampoline in, behind `cbCode` bytes of moved code: a pbTrampoline that went back
      is stored in a byte. */
  method FillIn(slots: Code, t: Addr, code: Code, pbTarget: Addr, cbTarget: nat, cbCode: int, pbDetour: Addr)
    requires slots != code && -3 <= cbCode <= 31 && 5 <= cbTarget <= 30 && t + 0x200 < TwoTo64
    modifies slots
    ensures View(slots.bytes, t) ==
      Trampoline(cbTarget, KeptBytes(cbCode, BytesOf(code.bytes, pbTarget, cbTarget)), RAlign(old(slots.bytes), t),
                 pbDetour)
    ensures cbCode <= 24 ==> Byte(slots.bytes, t + OffsetCodeSize) == cbCode % 0x100
    ensures var c := cbCode % 0x100;
      && JumpBack(slots.bytes, t, c) && (forall b :: t + c + 6 <= b < t + CodeRoom ==> Byte(slots.bytes, b) == 0xcc)
      && (forall b :: (b < t || b >= t + OffsetCodeIn) && (b < t + c || b >= t + c + 6) ==>
            Byte(slots.bytes, b) == Byte(old(slots.bytes), b))
      && (forall b :: t <= b < t + c && b < t + CodeRoom ==> Byte(slots.bytes, b) == Byte(old(slots.bytes), b))
  {
    hide RAlign, View, KeptBytes, BytesOf, PointerAt, Wrap, Rel;
    ghost var m0, original := slots.bytes, BytesOf(code.bytes, pbTarget, cbTarget);
    WriteFields(slots, t, code, pbTarget, cbTarget, cbCode, pbDetour);
    ghost var m2 := slots.bytes;
    WriteJumpBack(slots, t, cbCode % 0x100);
    FilledIn(m0, m2, slots.bytes, t, original, cbCode, pbDetour);
  }

  method WriteFields(slots: Code, t: Addr, code: Code, pbTarget: Addr, cbTarget: nat, cbCode: int, pbDetour: Addr)
    requires slots != code && 5 <= cbTarget <= 30
    modifies slots
    ensures Byte(slots.bytes, t + OffsetCodeSize) == cbCode % 0x100 && Byte(slots.bytes, t + OffsetRestore) == cbTarget
    ensures BytesAt(slots.bytes, t + OffsetRestoreBytes, BytesOf(code.bytes, pbTarget, cbTarget))
    ensures PointerAt(slots.bytes, t + OffsetDetour) == pbDetour
    ensures forall b :: b < t + OffsetCodeSize || t + OffsetAlign <= b < t + OffsetDetour || b >= t + OffsetCodeIn ==>
      Byte(slots.bytes, b) == Byte(old(slots.bytes), b)
  {
    hide Pow256, Poke, Le, PointerAt, BytesOf;
    var original := BytesOf(code.bytes, pbTarget, cbTarget);
    slots.bytes := slots.bytes[t + OffsetCodeSize := cbCode % 0x100][t + OffsetRestore := cbTarget];
    slots.CopyMemory(t + OffsetRestoreBytes, original);
    ghost var m := slots.bytes;
    slots.bytes := Poke(slots.bytes, t + OffsetDetour, 8, pbDetour);
    PokeFrame(m, t + OffsetDetour, 8, pbDetour);
    PointerBack(m, t + OffsetDetour, pbDetour);
  }

  /** The jump back behind the moved code, and breaks up to the end of rbCode. */
  method WriteJumpBack(slots: Code, t: Addr, c: byte)
    requires t + 0x200 < TwoTo64
    modifies slots
    ensures JumpBack(slots.bytes, t, c)
    ensures c <= OffsetRemain - 6 ==> Small(slots.bytes, t + c + 2, OffsetRemain - (c + 6))
    ensures forall b :: t + c + 6 <= b < t + CodeRoom ==> Byte(slots.bytes, b) == 0xcc
    ensures forall b :: b < t + c || (b >= t + c + 6 && b >= t + CodeRoom) ==>
      Byte(slots.bytes, b) == Byte(old(slots.bytes), b)
  {
    hide Pow256, Fits, Delta, Wrap, Rel;
    SlotDelta(t, c);
    var pbTrampoline := slots.GenJmpIndirect(t + c, t + OffsetRemain);
    ghost var m := slots.bytes;
    pbTrampoline := slots.GenBrk(pbTrampoline, t + CodeRoom);
    RelFrame(m, slots.bytes, t + c + 2, 4);
  }

  lemma RelFrame(m: Bytes, m': Bytes, a: int, n: nat)
    requires forall b :: a <= b < a + n ==> Byte(m', b) == Byte(m, b)
    ensures Rel(m', a, n) == Rel(m, a, n)
  {
    LeFrame(m, m', a, n);
  }

  lemma SlotDelta(t: Addr, c: byte)
    requires t + 0x200 < TwoTo64
    ensures Wrap(t + c + 6) == t + c + 6 && Wrap(t + OffsetRemain) == t + OffsetRemain
    ensures Delta(t + OffsetRemain, t + c + 6) == OffsetRemain - (c + 6)
    ensures Fits(Delta(t + OffsetRemain, Wrap(t + c + 6)), 4)
  {
    DeltaOf(t + c + 6, OffsetRemain - (c + 6));
    CloseFits(t + OffsetRemain, t + c + 6, OffsetRemain - (c + 6));
  }

  lemma FilledIn(m0: Bytes, m2: Bytes, m4: Bytes, t: Addr, original: seq<byte>, cbCode: int, pbDetour: Addr)
    requires -3 <= cbCode <= 31 && 5 <= |original| <= 30
    requires Byte(m2, t + OffsetRestore) == |original| && BytesAt(m2, t + OffsetRestoreBytes, original)
    requires forall b :: t + OffsetAlign <= b < t + OffsetRemain ==> Byte(m2, b) == Byte(m0, b)
    requires PointerAt(m2, t + OffsetDetour) == pbDetour
    requires var c := cbCode % 0x100;
      && Byte(m4, t + c) == 0xff && Byte(m4, t + c + 1) == 0x25
      && (cbCode >= 0 ==> Small(m4, t + c + 2, OffsetRemain - (c + 6)))
      && (forall b :: b < t + c || (b >= t + c + 6 && b >= t + CodeRoom) ==> Byte(m4, b) == Byte(m2, b))
    ensures View(m4, t) == Trampoline(|original|, KeptBytes(cbCode, original), RAlign(m0, t), pbDetour)
  {
    hide RAlign, KeptBytes, PointerAt;
    var c := cbCode % 0x100;
    assert cbCode < 0 ==> c >= 253;
    assert RAlign(m4, t) == RAlign(m0, t) by { RAlignFrame(m0, m4, t); }
    assert PointerAt(m4, t + OffsetDetour) == pbDetour by { PointerFrame(m2, m4, t + OffsetDetour); }
    forall k | 0 <= k < |original| ensures Byte(m4, t + OffsetRestoreBytes + k) == Kept(cbCode, k, original[k]) {
      var b := t + OffsetRestoreBytes + k;
      assert Byte(m2, b) == original[k];
    }
    hide JumpByte, Kept;
    assert BytesOf(m4, t + OffsetRestoreBytes, |original|) == KeptBytes(cbCode, original);
  }

  lemma PointerFrame(m: Bytes, m': Bytes, a: int)
    requires forall b :: a <= b < a + 8 ==> Byte(m', b) == Byte(m, b)
    ensures PointerAt(m', a) == PointerAt(m, a)
  {
    LeFrame(m, m', a, 8);
  }

  // -------------------------------------------------------------- several trampolines

  type Trampolines = map<nat, Trampoline>

  function TrampolinesIn(m: Bytes, filled: set<nat>): Trampolines { map t | t in filled :: View(m, t) }

  /** A trampoline of zeros, but for its pbRemain, which is elsewhere. */
  ghost predicate Zeroed(m: Bytes, t: nat) { forall b :: t <= b < t + Regions.SlotSize ==> Byte(m, b) == 0 }

  /** The trampolines of `freed` are. */
  ghost predicate AllZeroed(m: Bytes, freed: set<nat>) { forall t :: t in freed ==> Zeroed(m, t) }

  /** That is none a detach accepts. */
  lemma ZeroedIsNone(m: Bytes, t: nat)
    requires Zeroed(m, t)
    ensures View(m, t).cbRestore == 0 && Byte(m, t + OffsetRestore) == 0
  {
  }

  /** One more trampoline was zeroed, and nothing else written. */
  lemma ZeroedMore(m: Bytes, m': Bytes, freed: set<nat>, t: nat)
    requires AllZeroed(m, freed) && Zeroed(m', t)
    requires forall b :: b < t || b >= t + Regions.SlotSize ==> Byte(m', b) == Byte(m, b)
    ensures AllZeroed(m', freed + {t})
  {
    forall u | u in freed ensures Zeroed(m', u) { assert Zeroed(m, u); }
  }

  lemma ViewOf(m: Bytes, filled: set<nat>, t: nat)
    requires t in TrampolinesIn(m, filled)
    ensures t in filled && TrampolinesIn(m, filled)[t] == View(m, t)
  {
  }

  ghost predicate SameBytes(m: Bytes, m': Bytes, lo: int, hi: int) {
    forall b :: lo <= b < hi ==> Byte(m', b) == Byte(m, b)
  }

  /** The trampoline `u` shares no byte with `t`, and has a size that a detach accepts. */
  ghost predicate Beside(m: Bytes, t: nat, u: nat) {
    Byte(m, u + OffsetRestore) <= 30 && (u + Regions.SlotSize <= t || t + Regions.SlotSize <= u)
  }

  /** What is written into one trampoline, or up to two bytes before it, leaves the others alone. */
  lemma OthersKept(m: Bytes, m': Bytes, filled: set<nat>, t: nat)
    requires forall u :: u in filled && u != t ==> Beside(m, t, u)
    requires forall b :: b < t - 2 || b >= t + Regions.SlotSize ==> Byte(m', b) == Byte(m, b)
    ensures TrampolinesIn(m', filled + {t}) == TrampolinesIn(m, filled)[t := View(m', t)]
    ensures TrampolinesIn(m', filled - {t}) == TrampolinesIn(m, filled) - {t}
  {
    hide View;
    forall u | u in filled && u != t ensures View(m', u) == View(m, u) {
      assert Beside(m, t, u);
      ViewFrame(m, m', u);
    }
  }

  /** Neither do other bytes than those of the fields. */
  lemma CodeInKept(m: Bytes, m': Bytes, filled: set<nat>, t: nat)
    requires forall u :: u in filled && u != t ==> Beside(m, t, u)
    requires Byte(m, t + OffsetRestore) <= 30
    requires forall b :: b < t + OffsetCodeIn || b >= t + OffsetCodeIn + 6 ==> Byte(m', b) == Byte(m, b)
    ensures TrampolinesIn(m', filled) == TrampolinesIn(m, filled)
  {
    hide View;
    forall u | u in filled ensures View(m', u) == View(m, u) {
      assert u != t ==> Beside(m, t, u);
      ViewFrame(m, m', u);
    }
  }

  /** What an attach leaves in its trampoline: the fields, the table of boundaries, the jump back,
      and, if no copy went back, the copies before it. */
  ghost predicate Prepared(m: Bytes, t: nat, copy: Copier, filler: nat -> nat, code: Bytes, pbTarget: Addr,
                           pbDetour: Addr) {
    var n, c, bs := Cut(copy, filler), CodeEnd(copy), Prologue(copy);
    && View(m, t) == Trampoline(n, KeptBytes(c, BytesOf(code, pbTarget, n)), RAlign(m, t), pbDetour)
    && Aligned(RAlign(m, t), bs) && JumpBack(m, t, c % 0x100) && (c <= 24 ==> Byte(m, t + OffsetCodeSize) == c % 0x100)
    && (forall b :: t + c % 0x100 + 6 <= b < t + CodeRoom ==> Byte(m, b) == 0xcc)
    && (InOrder(copy, bs) && c <= CodeRoom ==> CopiesAt(m, t, copy, bs))
  }

  lemma NowPrepared(m: Bytes, m': Bytes, t: nat, copy: Copier, filler: nat -> nat, code: Bytes, pbTarget: Addr,
                    pbDetour: Addr)
    requires Aligned(RAlign(m, t), Prologue(copy))
    requires InOrder(copy, Prologue(copy)) ==> CopiesAt(m, t, copy, Prologue(copy))
    requires var n, c := Cut(copy, filler), CodeEnd(copy);
      && View(m', t) == Trampoline(n, KeptBytes(c, BytesOf(code, pbTarget, n)), RAlign(m, t), pbDetour)
      && JumpBack(m', t, c % 0x100) && (c <= 24 ==> Byte(m', t + OffsetCodeSize) == c % 0x100)
      && (forall b :: t + c % 0x100 + 6 <= b < t + CodeRoom ==> Byte(m', b) == 0xcc)
      && (forall b :: t <= b < t + c % 0x100 && b < t + CodeRoom ==> Byte(m', b) == Byte(m, b))
    ensures Prepared(m', t, copy, filler, code, pbTarget, pbDetour)
    ensures View(m', t).cbRestore == |View(m', t).rbRestore| == Cut(copy, filler)
  {
    var c, bs := CodeEnd(copy), Prologue(copy);
    CopiesFit(copy);
    PrologueIsCopied(copy);
    hide Boundaries, Complete, InOrder, CopiesAt, Aligned, KeptBytes, BytesOf, RAlign, JumpBack, Rest;
    assert RAlign(m', t) == RAlign(m, t);
    if InOrder(copy, bs) && c <= CodeRoom {
      assert bs != [];
      CopiesOrdered(copy, bs, |bs| - 1, |bs| - 1);
      CopiesFrame(m, m', t, copy, bs);
    }
  }

  /** Filling in leaves rbCodeIn alone. */
  lemma CodeInStays(m: Bytes, m': Bytes, t: nat, c: int)
    requires 0 <= c <= 31
    requires forall b :: (b < t || b >= t + OffsetCodeIn) && (b < t + c || b >= t + c + 6) ==> Byte(m', b) == Byte(m, b)
    ensures SameBytes(m, m', t + OffsetCodeIn, t + Regions.SlotSize)
  {
  }

  /** All that an attach writes is the trampoline, up to two bytes before it, and the jump back. */
  ghost predicate WritesAround(m: Bytes, m': Bytes, t: nat, c: int) {
    forall b :: (b < t - 2 || b >= t + Regions.SlotSize) && (b < t + c % 0x100 || b >= t + c % 0x100 + 6) ==>
      Byte(m', b) == Byte(m, b)
  }

  /** Fills in the trampoline whose code has been copied. */
  method FillPrepared(slots: Code, t: Addr, code: Code, pbTarget: Addr, cbTarget: nat, cbCode: int, pbDetour: Addr,
                      copy: Copier, filler: nat -> nat)
    requires slots != code && 5 <= cbTarget <= 30 && t + 0x200 < TwoTo64
    requires cbTarget == Cut(copy, filler) && cbCode == CodeEnd(copy) && Aligned(RAlign(slots.bytes, t), Prologue(copy))
    requires InOrder(copy, Prologue(copy)) ==> CopiesAt(slots.bytes, t, copy, Prologue(copy))
    modifies slots
    ensures Prepared(slots.bytes, t, copy, filler, code.bytes, pbTarget, pbDetour)
    ensures View(slots.bytes, t).cbRestore == |View(slots.bytes, t).rbRestore| == cbTarget
    ensures WritesAround(old(slots.bytes), slots.bytes, t, cbCode)
    ensures cbCode >= 0 ==>
      && SameBytes(old(slots.bytes), slots.bytes, t + OffsetCodeIn, t + Regions.SlotSize)
      && forall b :: b < t - 2 || b >= t + Regions.SlotSize ==> Byte(slots.bytes, b) == Byte(old(slots.bytes), b)
  {
    hide Boundaries, Aligned, Complete, InOrder, CopiesAt, View, Prepared, JumpBack, RAlign, SameBytes, KeptBytes;
    hide BytesOf;
    ghost var m := slots.bytes;
    CopiesFit(copy);
    FillIn(slots, t, code, pbTarget, cbTarget, cbCode, pbDetour);
    NowPrepared(m, slots.bytes, t, copy, filler, code.bytes, pbTarget, pbDetour);
    if cbCode >= 0 { CodeInStays(m, slots.bytes, t, cbCode); }
  }

  lemma WritesMore(m0: Bytes, m: Bytes, m': Bytes, t: nat, c: int)
    requires WritesAround(m, m', t, c)
      && forall b :: b < t - 2 || b >= t + Regions.SlotSize ==> Byte(m, b) == Byte(m0, b)
    ensures WritesAround(m0, m', t, c)
  {
  }

  /** The trampolines of `live` keep their first `n` bytes. */
  ghost predicate KeptSlots(m: Bytes, m': Bytes, live: set<nat>, n: nat) {
    forall t :: t in live ==> SameBytes(m, m', t, t + n)
  }

  lemma KeptTwice(m0: Bytes, m1: Bytes, m2: Bytes, live: set<nat>, live': set<nat>, n: nat)
    requires KeptSlots(m0, m1, live, n) && KeptSlots(m1, m2, live', n) && live' <= live
    ensures KeptSlots(m0, m2, live', n)
  {
    forall t | t in live' ensures SameBytes(m0, m2, t, t + n) {
      assert SameBytes(m0, m1, t, t + n) && SameBytes(m1, m2, t, t + n);
    }
  }

  lemma KeptSelf(m: Bytes, live: set<nat>)
    ensures KeptSlots(m, m, live, OffsetCodeIn)
  {
  }

  lemma KeptLess(m: Bytes, m': Bytes, live: set<nat>)
    requires KeptSlots(m, m', live, Regions.SlotSize)
    ensures KeptSlots(m, m', live, OffsetCodeIn)
  {
    forall t | t in live ensures SameBytes(m, m', t, t + OffsetCodeIn) {
      assert SameBytes(m, m', t, t + Regions.SlotSize);
    }
  }

  ghost predicate Apart(live: set<nat>, t: nat) {
    forall u :: u in live && u != t ==> u + Regions.SlotSize <= t || t + Regions.SlotSize <= u
  }

  /** Zeroing a trampoline keeps the others. */
  lemma OthersSame(m: Bytes, m': Bytes, live: set<nat>, t: nat)
    requires Apart(live, t) && forall b :: b < t || b >= t + Regions.SlotSize ==> Byte(m', b) == Byte(m, b)
    ensures KeptSlots(m, m', live - {t}, Regions.SlotSize)
  {
  }

  /** And writing a rbCodeIn keeps all of the rest. */
  lemma CodeInSame(m: Bytes, m': Bytes, live: set<nat>, t: nat)
    requires Apart(live, t)
      && forall b :: b < t + OffsetCodeIn || b >= t + OffsetCodeIn + 6 ==> Byte(m', b) == Byte(m, b)
    ensures KeptSlots(m, m', live, OffsetCodeIn)
    ensures forall u :: u in live && u != t && JumpIn(m, u) ==> JumpIn(m', u)
  {
    hide JumpIn;
    forall u | u in live && u != t && JumpIn(m, u) ensures JumpIn(m', u) { JumpInFrame(m, m', u); }
  }

  lemma PreparedFrame(m: Bytes, m': Bytes, t: nat, copy: Copier, filler: nat -> nat, code: Bytes, pbTarget: Addr,
                      pbDetour: Addr)
    requires Prepared(m, t, copy, filler, code, pbTarget, pbDetour) && SameBytes(m, m', t, t + OffsetCodeIn)
    requires CodeEnd(copy) >= 0 && Cut(copy, filler) <= 30
    ensures Prepared(m', t, copy, filler, code, pbTarget, pbDetour)
  {
    hide Aligned, Boundaries, Complete, InOrder, CopiesAt, KeptBytes, BytesOf, RAlign, Wrap, Rel, Rest, View;
    var n, c, bs := Cut(copy, filler), CodeEnd(copy), Prologue(copy);
    CopiesFit(copy);
    PrologueIsCopied(copy);
    assert View(m', t) == View(m, t) by { SizeOf(m, t, copy, filler, code, pbTarget, pbDetour); ViewFrame(m, m', t); }
    RAlignFrame(m, m', t);
    RelFrame(m, m', t + c + 2, 4);
    if InOrder(copy, bs) && c <= CodeRoom { CopiesFrame(m, m', t, copy, bs); }
  }

  lemma SizeOf(m: Bytes, t: nat, copy: Copier, filler: nat -> nat, code: Bytes, pbTarget: Addr, pbDetour: Addr)
    requires Prepared(m, t, copy, filler, code, pbTarget, pbDetour)
    ensures Byte(m, t + OffsetRestore) == Cut(copy, filler)
      && PointerAt(m, t + OffsetDetour) == pbDetour == View(m, t).pbDetour
    ensures View(m, t).cbRestore == Cut(copy, filler) && Aligned(View(m, t).rAlign, Prologue(copy))
  {
    hide KeptBytes, BytesOf, RAlign, JumpBack, CopiesAt, InOrder, Cut;
  }
}
