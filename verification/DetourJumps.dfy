/** What the copied instructions of a prologue refer to (LoaderWatch.Inject/disasm.cpp, for x64): a
    trampoline within the bounds holds the same jumps, calls and relative operands as the target. */
module DetourJumps {
  import opened Words
  import opened X64Jumps
  import opened DetourPrologue
  import opened DetourSlots

  /** How an instruction is copied: as it is, with a relative operand adjusted, or as a short jump
      that is widened. */
  datatype Form = Plain | Operand(offset: nat, size: nat) | Widened

  /** What a relative operand refers to. */
  function Reference(m: Bytes, a: int, nBytes: nat, offset: nat, n: nat): Addr {
    Wrap(a + nBytes + Rel(m, a + offset, n))
  }

  predicate ShortJump(m: Bytes, a: int) { Byte(m, a) == 0xeb || 0x70 <= Byte(m, a) <= 0x7f }

  /** Those are the jumps of two bytes. */
  lemma ShortExactly(m: Bytes, a: Addr)
    ensures ShortJump(m, a) <==> !JumpAt(m, a).NoJump? && JumpAt(m, a).size == 2
  {
    hide Rel, Wrap;
  }

  /** The instruction is what CopyBytes, or CopyBytesJump, makes of the one at `pbSrc`.  The only
      operands of one byte are those of LOOP and JCXZ. */
  ghost predicate CopyOf(code: Bytes, pbSrc: int, pbDst: int, i: Instruction, form: Form) {
    && 0 <= pbSrc < TwoTo64 && 0 <= pbDst < TwoTo64
    && match form
       case Plain => i.extra == 0 && i.bytes == BytesOf(code, pbSrc, i.size)
       case Operand(offset, n) =>
         && offset + n <= i.size && (n == 1 || n == 4)
         && i.bytes == MovedBytes(code, pbDst, pbSrc, i.size, offset, n)
         && i.extra == if n == 4 || Fits(Delta(Reference(code, pbSrc, i.size, offset, n), Wrap(pbDst + i.size)), n)
                       then 0 else -3
       case Widened =>
         && ShortJump(code, pbSrc) && i.size == 2 && i.extra == (if Byte(code, pbSrc) == 0xeb then 3 else 4)
         && i.bytes == WidenedBytes(code, pbDst, pbSrc)
  }

  /** The instruction before boundary `k` is copied from the target to the trampoline at `t`. */
  ghost predicate MovedAt(code: Bytes, pbTarget: Addr, t: Addr, copy: Copier, bs: seq<Boundary>, k: nat, form: Form)
    requires k < |bs|
  {
    var from := Before(bs, k);
    CopyOf(code, pbTarget + from.target, t + from.trampoline, copy(from.target), form)
  }

  /** All the copied instructions are; the forms go by offset in the target. */
  ghost predicate MovedAs(code: Bytes, pbTarget: Addr, t: Addr, copy: Copier, bs: seq<Boundary>, forms: nat -> Form) {
    forall k :: 0 <= k < |bs| ==> MovedAt(code, pbTarget, t, copy, bs, k, forms(Before(bs, k).target))
  }

  /** The copy of a leading near jump, or of a leading jump through an import vector. */
  predicate Leads(m: Bytes, a: int, nBytes: nat, offset: nat) {
    (Byte(m, a) == 0xe9 && nBytes == 5 && offset == 1)
    || (Byte(m, a) == 0xff && Byte(m, a + 1) == 0x25 && nBytes == 6 && offset == 2)
  }

  /** The bytes of an adjusted operand, wherever they are, refer to the same place exactly if the
      new offset fits. */
  lemma OperandKept(code: Bytes, m: Bytes, pbDst: Addr, pbSrc: Addr, nBytes: nat, offset: nat, n: nat)
    requires nBytes < 0x100 && offset + n <= nBytes && 0 < n <= 4
    requires BytesAt(m, pbDst, MovedBytes(code, pbDst, pbSrc, nBytes, offset, n))
    ensures BytesAt(m, pbDst, BytesOf(code, pbSrc, offset))
    ensures BytesAt(m, pbDst + offset + n, BytesOf(code, pbSrc + offset + n, nBytes - offset - n))
    ensures var to := Reference(code, pbSrc, nBytes, offset, n);
      Reference(m, pbDst, nBytes, offset, n) == to <==> Fits(Delta(to, Wrap(pbDst + nBytes)), n)
  {
    hide Poke, Rel, Delta, Pow256, Wrap, LeBytes, Fits;
    var o := Rel(code, pbSrc + offset, n);
    var new' := o - Delta(pbDst, pbSrc);
    var first, rest := BytesOf(code, pbSrc, offset), BytesOf(code, pbSrc + offset + n, nBytes - offset - n);
    Follows(m, pbDst, first + LeBytes(n, new'), rest);
    Follows(m, pbDst, first, LeBytes(n, new'));
    RelOfBytes(m, pbDst + offset, n, new');
    OffsetRange(code, pbSrc + offset, n);
    NewOffset(m, pbDst + offset, n, pbDst, pbSrc, o, nBytes, nBytes, new');
  }

  /** A jump that is made longer by `extra` bytes. */
  function Longer(jump: Jump, extra: nat): Jump {
    match jump
    case Always(target, size) => Always(target, size + extra)
    case IfCondition(cc, target, size) => IfCondition(cc, target, size + extra)
    case NoJump => NoJump
  }

  lemma WidenedKept(code: Bytes, m: Bytes, pbDst: Addr, pbSrc: Addr)
    requires ShortJump(code, pbSrc) && BytesAt(m, pbDst, WidenedBytes(code, pbDst, pbSrc))
    ensures var was, extra := JumpAt(code, pbSrc), if Byte(code, pbSrc) == 0xeb then 3 else 4;
      JumpAt(m, pbDst) == Longer(was, extra) <==>
        Fits(Delta(Wrap(pbSrc + 2 + Rel(code, pbSrc + 1, 1)), Wrap(pbDst + 2 + extra)), 4)
  {
    hide Poke, Rel, Delta, Pow256, Wrap, LeBytes, Fits;
    var op, o := Byte(code, pbSrc), Rel(code, pbSrc + 1, 1);
    OffsetRange(code, pbSrc + 1, 1);
    var first: seq<byte> := if op == 0xeb then [0xe9] else [0x0f, 0x80 + op % 0x10];
    var extra := if op == 0xeb then 3 else 4;
    var new' := o - Delta(pbDst, pbSrc) - extra;
    Follows(m, pbDst, first, LeBytes(4, new'));
    assert Byte(m, pbDst + 0) == first[0] && (op != 0xeb ==> Byte(m, pbDst + 1) == first[1]);
    RelOfBytes(m, pbDst + |first|, 4, new');
    NewOffset(m, pbDst + |first|, 4, pbDst, pbSrc, o, 2, 2 + extra, new');
  }

  /** A reference to a place less than 512 KB from the target reaches it from every trampoline
      within the bounds. */
  lemma CloseReference(code: Bytes, pbTarget: Addr, t: Addr, to: Addr, end: int)
    requires Within(code, pbTarget, t) && t <= end < t + 0x100 && -0x7_ff00 <= to - pbTarget <= 0x7_ff00
    ensures Fits(Delta(to, Wrap(end)), 4)
  {
    hide FindJmpBounds, Fits, Wrap, Delta;
    BoundsReach(code, pbTarget, t);
    WrapSelf(to);
    CloseFits(to, end, to - end);
  }

  /** What the copy of the instruction before boundary `k` does. */
  ghost predicate Keeps(code: Bytes, m: Bytes, pbTarget: Addr, t: Addr, src: Addr, dst: Addr, nBytes: nat, form: Form) {
    match form
    case Plain => BytesAt(m, dst, BytesOf(code, src, nBytes))
    case Operand(offset, n) =>
      var to := Reference(code, src, nBytes, offset, n);
      && offset + n <= nBytes && BytesAt(m, dst, BytesOf(code, src, offset))
      && BytesAt(m, dst + offset + n, BytesOf(code, src + offset + n, nBytes - offset - n))
      && (Reference(m, dst, nBytes, offset, n) == to <==> Fits(Delta(to, Wrap(dst + nBytes)), n))
      && (n == 1 || (src == pbTarget && Leads(code, src, nBytes, offset)) || -0x7_ff00 <= to - pbTarget <= 0x7_ff00
          ==> Reference(m, dst, nBytes, offset, n) == to)
    case Widened => JumpAt(m, dst) == Longer(JumpAt(code, src), if Byte(code, src) == 0xeb then 3 else 4)
  }

  lemma CopyKeeps(code: Bytes, m: Bytes, pbTarget: Addr, t: Addr, src: Addr, dst: Addr, i: Copied, form: Form)
    requires CopyOf(code, src, dst, i, form) && BytesAt(m, dst, i.bytes) && i.extra >= 0 && Within(code, pbTarget, t)
    requires pbTarget <= src < pbTarget + 0x20 && t <= dst < t + 0x20 && (src == pbTarget ==> dst == t)
    ensures Keeps(code, m, pbTarget, t, src, dst, i.size, form)
  {
    hide Within, Fits, Wrap, Delta, Rel, WidenedBytes, MovedBytes, Reference, JumpAt, BytesAt;
    match form
    case Plain =>
    case Operand(offset, n) => OperandKeeps(code, m, pbTarget, t, src, dst, i, offset, n);
    case Widened =>
      var extra := if Byte(code, src) == 0xeb then 3 else 4;
      WidenedKept(code, m, dst, src);
      WidenedJumpFits(code, pbTarget, t, src, dst, 2 + extra);
  }

  lemma OperandKeeps(code: Bytes, m: Bytes, pbTarget: Addr, t: Addr, src: Addr, dst: Addr, i: Copied, offset: nat,
                     n: nat)
    requires CopyOf(code, src, dst, i, Operand(offset, n)) && BytesAt(m, dst, i.bytes) && i.extra >= 0
    requires Within(code, pbTarget, t)
    requires t <= dst < t + 0x20 && (src == pbTarget ==> dst == t)
    ensures Keeps(code, m, pbTarget, t, src, dst, i.size, Operand(offset, n))
  {
    hide Within, Fits, Wrap, Delta, Rel, MovedBytes, BytesAt, Reference, Referred;
    var to := Reference(code, src, i.size, offset, n);
    OperandKept(code, m, dst, src, i.size, offset, n);
    if src == pbTarget && Leads(code, src, i.size, offset) && n == 4 {
      LeadingJumpFits(code, pbTarget, t, i.size);
      LeadsTo(code, pbTarget, i.size, offset);
    }
    if n == 4 && -0x7_ff00 <= to - pbTarget <= 0x7_ff00 { CloseReference(code, pbTarget, t, to, dst + i.size); }
  }

  lemma LeadsTo(m: Bytes, a: Addr, nBytes: nat, offset: nat)
    requires Leads(m, a, nBytes, offset)
    ensures Referred(m, a) == Reference(m, a, nBytes, offset, 4)
  {
  }

  /** Where the copy of the instruction before boundary `k` is. */
  lemma CopyOfBoundary(m: Bytes, t: Addr, copy: Copier, bs: seq<Boundary>, k: nat)
    requires Boundaries(copy, bs) && InOrder(copy, bs) && CopiesAt(m, t, copy, bs)
    requires Short(bs) && k < |bs| && bs[|bs| - 1].trampoline <= CodeRoom
    ensures var from := Before(bs, k);
      && from.target < SizeOfJmp && 0 <= from.trampoline < CodeRoom && (from.target == 0 ==> from.trampoline == 0)
      && copy(from.target).extra >= 0 && BytesAt(m, t + from.trampoline, copy(from.target).bytes)
  {
    CopiesOrdered(copy, bs, k, |bs| - 1);
    if k > 0 {
      BoundariesGrow(copy, bs, k - 1, k - 1);
      assert bs[k - 1].target < SizeOfJmp;
    }
    hide Boundaries;
    assert InstructionAt(copy, bs, k).extra >= 0 && CopyEnd(copy, bs, k) > Before(bs, k).trampoline;
  }

  /** A trampoline that an attach filled in keeps what the moved instructions refer to: short
      jumps that were widened, operands of one byte, the leading jump and whatever is less than
      512 KB away always, any other operand exactly if its new offset fits. */
  lemma ReferencesKept(m: Bytes, t: Addr, copy: Copier, filler: nat -> nat, code: Bytes, pbTarget: Addr, pbDetour: Addr,
                       forms: nat -> Form, k: nat)
    requires Prepared(m, t, copy, filler, code, pbTarget, pbDetour) && Within(code, pbTarget, t)
    requires MovedAs(code, pbTarget, t, copy, Prologue(copy), forms)
    requires k < |Prologue(copy)| && InOrder(copy, Prologue(copy)) && CodeEnd(copy) <= CodeRoom
    ensures var from := Before(Prologue(copy), k); var src, dst := pbTarget + from.target, t + from.trampoline;
      && 0 <= src < TwoTo64 && t <= dst < t + CodeRoom && dst < TwoTo64
      && Keeps(code, m, pbTarget, t, src, dst, copy(from.target).size, forms(from.target))
  {
    PrologueIsCopied(copy);
    hide View, JumpBack, RAlign, KeptBytes, Aligned, BytesOf, Prologue, Boundaries, Short, InOrder, MovedAs, CopiesAt;
    hide Keeps,
      Within, Complete, Before;
    assert CopiesAt(m, t, copy, Prologue(copy));
    MovedKeeps(m, t, copy, Prologue(copy), code, pbTarget, forms, k);
  }

  lemma MovedKeeps(m: Bytes, t: Addr, copy: Copier, bs: seq<Boundary>, code: Bytes, pbTarget: Addr, forms: nat -> Form,
                   k: nat)
    requires Boundaries(copy, bs) && Short(bs) && InOrder(copy, bs) && CopiesAt(m, t, copy, bs)
    requires k < |bs| && bs[|bs| - 1].trampoline <= CodeRoom
    requires Within(code, pbTarget, t) && MovedAs(code, pbTarget, t, copy, bs, forms)
    ensures var from := Before(bs, k); var src, dst := pbTarget + from.target, t + from.trampoline;
      && 0 <= src < TwoTo64 && t <= dst < t + CodeRoom && dst < TwoTo64
      && Keeps(code, m, pbTarget, t, src, dst, copy(from.target).size, forms(from.target))
  {
    var from := Before(bs, k);
    assert MovedAt(code, pbTarget, t, copy, bs, k, forms(from.target));
    hide Boundaries, Short, InOrder, CopiesAt, Keeps, Within, CopyOf, MovedAs;
    CopyOfBoundary(m, t, copy, bs, k);
    var src, dst, i := pbTarget + from.target, t + from.trampoline, copy(from.target);
    InMemory(code, src, dst, i, forms(from.target));
    CopyKeeps(code, m, pbTarget, t, src, dst, i, forms(from.target));
  }

  lemma InMemory(code: Bytes, src: int, dst: int, i: Instruction, form: Form)
    requires CopyOf(code, src, dst, i, form)
    ensures 0 <= src < TwoTo64 && 0 <= dst < TwoTo64
  {
  }

  /** A copied prologue that is 512 bytes or more away from its trampoline keeps its order exactly
      if none of its instructions has an operand of one byte. */
  lemma InOrderExactly(t: Addr, copy: Copier, code: Bytes, pbTarget: Addr, forms: nat -> Form)
    requires Within(code, pbTarget, t) && (t - pbTarget >= 0x200 || pbTarget - t >= 0x200)
    requires MovedAs(code, pbTarget, t, copy, Prologue(copy), forms)
    ensures var bs := Prologue(copy); InOrder(copy, bs) <==>
      forall k :: 0 <= k < |bs| ==> var form := forms(Before(bs, k).target); !(form.Operand? && form.size == 1)
  {
    var bs := Prologue(copy);
    BoundsReach(code, pbTarget, t);
    PrologueIsCopied(copy);
    hide Boundaries, Complete, Rest, Within, CopyOf, Prologue, MovedAs, Before, Short;
    forall k | 0 <= k < |bs|
      ensures var form := forms(Before(bs, k).target);
        InstructionAt(copy, bs, k).extra < 0 <==> form.Operand? && form.size == 1
    {
      ReportsAt(t, copy, bs, code, pbTarget, forms, k);
    }
  }

  lemma ReportsAt(t: Addr, copy: Copier, bs: seq<Boundary>, code: Bytes, pbTarget: Addr, forms: nat -> Form, k: nat)
    requires -0x7ff8_0000 <= t - pbTarget <= -0x200 || 0x200 <= t - pbTarget <= 0x7ff8_0000
    requires Boundaries(copy, bs) && Short(bs) && MovedAs(code, pbTarget, t, copy, bs, forms) && k < |bs|
    ensures var form := forms(Before(bs, k).target);
      InstructionAt(copy, bs, k).extra < 0 <==> form.Operand? && form.size == 1
  {
    var from := Before(bs, k);
    assert MovedAt(code, pbTarget, t, copy, bs, k, forms(from.target));
    hide CopyOf, MovedAs, Boundaries;
    if k > 0 {
      BoundariesGrow(copy, bs, k - 1, k - 1);
      assert bs[k - 1].target < SizeOfJmp;
    }
    ReportsExactly(code, pbTarget + from.target, t + from.trampoline, copy(from.target), forms(from.target));
  }

  lemma ReportsExactly(code: Bytes, src: int, dst: int, i: Instruction, form: Form)
    requires CopyOf(code, src, dst, i, form)
    requires 0x100 <= dst - src < TwoTo64 / 4 || 0x100 <= src - dst < TwoTo64 / 4
    ensures i.extra < 0 <==> form.Operand? && form.size == 1
  {
    hide Fits, Wrap, Delta, Rel, MovedBytes, WidenedBytes, BytesOf;
    if form.Operand? && form.size == 1 { ByteOutOfReach(code, dst, src, i.size, form.offset); }
  }
}
