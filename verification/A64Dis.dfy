/** CDetourDis for ARM64 (LoaderWatch.Inject/disasm.cpp): copying one instruction to another
    address. */
module A64Dis {
  import opened Words
  import opened A64
  import opened A64Coding
  import opened A64Moves
  import opened A64Relocate
  import opened A64Forms

  // ------------------------------------------------------ when the meaning is kept

  /** The distances a branch form reaches by itself. */
  predicate IsNear(i: Insn, src: Addr, dst: Addr) {
    In(Delta(TargetOf(i, src), dst), if i.Tbz? then 0x2000 else if i.Branch? then 0x800_0000 else 0x10_0000)
  }

  /** The distances of a branch over a B. */
  predicate IsMid(i: Insn, src: Addr, dst: Addr) {
    Conditional(i) && In(Delta(TargetOf(i, src), Wrap(dst + 4)), 0x800_0000)
  }

  /** The page distances of an ADRP. */
  predicate IsNearPage(i: Insn, src: Addr, dst: Addr) {
    In(TargetOf(i, src) / 0x1000 - dst / 0x1000, 0x10_0000)
  }

  /** The distances for which a literal load is re-encoded. */
  predicate IsNearLiteral(i: Insn, src: Addr, dst: Addr) { In(Delta(TargetOf(i, src), dst), 0x20_0000) }

  /** The forms that go through x17. */
  predicate Uses17(i: Insn, src: Addr, dst: Addr) {
    || ((Conditional(i) || i.Branch?) && !IsNear(i, src, dst) && !IsMid(i, src, dst))
    || (i.LdrLiteral? && i.fpNeon == 1 && !IsNearLiteral(i, src, dst))
  }

  /** Exactly the instructions, at these addresses, whose copies mean the same. */
  predicate Kept(i: Insn, src: Addr, dst: Addr) {
    match i
    case Adr(rd, _) => IsNear(i, src, dst) || !IsNearPage(i, src, dst) || (rd != 31 && TargetOf(i, src) < 0x1_0000_0000)
    case Bcc(condition, _) => IsNear(i, src, dst) || condition < 14
    case Cbz(_, _, rt, _) => IsNear(i, src, dst) || IsMid(i, src, dst) || rt != 17
    case Tbz(_, rt, _, _) => IsNear(i, src, dst) || IsMid(i, src, dst) || rt != 17
    case LdrLiteral(size, fpNeon, rt, _) =>
      if IsNearLiteral(i, src, dst) then In(Delta(TargetOf(i, src), dst), 0x10_0000) || NoEffect(i)
      else size != 3 || (fpNeon == 0 && rt == 31)
    case _ => true
  }

  lemma DeltaIs(to: Addr, from: Addr)
    requires -0x1_0000_0000 <= to - from < 0x1_0000_0000
    ensures Delta(to, from) == to - from && Wrap(to) == to && Wrap(from) == from && (from == 0 ==> Wrap(4) == 4)
  {
    DeltaOf(from, to - from);
  }

  /** The copy was made from a literal that the relocator read itself. */
  predicate ReadsLiteral(i: Insn, src: Addr, dst: Addr) {
    i.LdrLiteral? && i.fpNeon == 0 && !IsNearLiteral(i, src, dst)
  }

  /** What is read from memory: a word, a double word, or a word that is sign-extended. */
  predicate IsLiteral(v: u64, size: int, mem: Memory, a: Addr) {
    if size == 0 then v == mem.word(a)
    else if size == 1 then v == mem.dword(a)
    else v == mem.word(a) + if mem.word(a) < 0x8000_0000 then 0 else 0xffff_ffff_0000_0000
  }

  /** The words leave that in the register, and go on behind them. */
  ghost predicate LeavesLiteral(i: Insn, src: Addr, code: seq<Word>, dst: Addr, mem: Memory)
    requires i.LdrLiteral?
  {
    forall s: State, other: Others {:trigger Run(code, dst, s, other)} ::
      var r := Run(code, dst, s, other);
      && r.flow.FallThrough?
      && (i.rt != 31 ==> i.rt in r.s.regs && IsLiteral(r.s.regs[i.rt], i.size, mem, TargetOf(i, src)))
  }

  lemma LoadIsLiteral(size: int, mem: Memory, a: Addr)
    requires 0 <= size <= 2
    ensures IsLiteral(LoadGeneral(mem, size, a), size, mem, a)
  {
  }

  lemma LiteralLeft(i: Insn, src: Addr, code: seq<Word>, dst: Addr, mem: Memory)
    requires i.LdrLiteral? && 0 <= i.size <= 2 && Gives(code, i.rt, LoadGeneral(mem, i.size, TargetOf(i, src)))
    ensures LeavesLiteral(i, src, code, dst, mem)
  {
    var v := LoadGeneral(mem, i.size, TargetOf(i, src));
    LoadIsLiteral(i.size, mem, TargetOf(i, src));
    hide LoadGeneral, Gives, Run, TargetOf, IsLiteral;
    forall s: State, other: Others
      ensures Run(code, dst, s, other) == Result(Set(s, i.rt, v), FallThrough)
    {
      RunGives(code, i.rt, v, dst, s, other);
    }
  }

  /** A literal load leaves it there as well, wherever it is executed. */
  lemma LiteralLoaded(w: Word, pc: Addr, s: State, other: Others)
    requires Decode(w).LdrLiteral? && Decode(w).fpNeon == 0 && Decode(w).size != 3 && Decode(w).rt != 31
    ensures var i, r := Decode(w), Exec(Decode(w), pc, s, other);
      && r.flow.FallThrough? && i.rt in r.s.regs && IsLiteral(r.s.regs[i.rt], i.size, s.mem, TargetOf(i, pc))
      && r.s == State(s.regs[i.rt := r.s.regs[i.rt]], s.sp, s.simd, s.flags, s.mem)
  {
    DecodedFields(w);
    var i := Decode(w);
    hide Decode, Wrap;
    LoadIsLiteral(i.size, s.mem, TargetOf(i, pc));
  }

  /** Memory still has the literal that was there when the copy was made. */
  predicate SameLiteral(i: Insn, src: Addr, m: Memory, mem: Memory) {
    i.LdrLiteral? && i.fpNeon == 0 && i.size != 3 ==>
      LoadGeneral(m, i.size, TargetOf(i, src)) == LoadGeneral(mem, i.size, TargetOf(i, src))
  }

  /** The copy means the same in every state, or in every state with the literal that was there
      when it was made. */
  ghost predicate SameMeaning(w: Word, src: Addr, code: seq<Word>, dst: Addr, mem: Memory) {
    var i := Decode(w);
    if ReadsLiteral(i, src, dst) then forall m | SameLiteral(i, src, m, mem) :: Preserves(w, src, code, dst, m, false)
    else forall m :: Preserves(w, src, code, dst, m, Uses17(i, src, dst))
  }

  /** It does exactly if `Kept` says so. */
  ghost predicate Copied(w: Word, src: Addr, code: seq<Word>, dst: Addr, mem: Memory) {
    SameMeaning(w, src, code, dst, mem) <==> Kept(Decode(w), src, dst)
  }

  /** There is a state in which these words do not mean what the instruction means. */
  ghost predicate Differs(w: Word, src: Addr, code: seq<Word>, dst: Addr, x17Free: bool) {
    exists m :: !Preserves(w, src, code, dst, m, x17Free)
  }

  lemma NotKept(w: Word, src: Addr, code: seq<Word>, dst: Addr, mem: Memory)
    requires Copied(w, src, code, dst, mem) && !Kept(Decode(w), src, dst)
    ensures Differs(w, src, code, dst, !ReadsLiteral(Decode(w), src, dst) && Uses17(Decode(w), src, dst))
  {
    hide Decode, Kept, Preserves, ReadsLiteral, Uses17, SameLiteral;
  }

  /** One instruction of each kind whose copy is different, whatever its words are, if they are
      what `Copied` says of the copies.  ADR X0 above 4 GB: */
  lemma AdrAbove4GB(code: seq<Word>, mem: Memory)
    ensures Decode(0x1000_0000) == Adr(0, 0)
    ensures var src, dst := 0x1_8000_0000, 0x1_9000_0000;
      Copied(0x1000_0000, src, code, dst, mem) ==> Differs(0x1000_0000, src, code, dst, false)
  {
    hide Wrap, Delta, Preserves, Decode, Copied, Differs;
    FiveWords();
    DeltaIs(0x1_8000_0000, 0x1_9000_0000);
    if Copied(0x1000_0000, 0x1_8000_0000, code, 0x1_9000_0000, mem) {
      NotKept(0x1000_0000, 0x1_8000_0000, code, 0x1_9000_0000, mem);
    }
  }

  lemma FiveWords()
    ensures Decode(0x1000_0000) == Adr(0, 0)
    ensures Decode(0x5800_0000) == LdrLiteral(1, 0, 0, 0) && Decode(0xd800_0000) == LdrLiteral(3, 0, 0, 0)
    ensures Decode(0x5400_000e) == Bcc(14, 0) && Decode(0xb400_0011) == Cbz(1, 0, 17, 0)
  {
    hide Decode;
    DecodeAdr(0, 0, 0);
    DecodeLdrLiteral(1, 0, 0, 0);
    DecodeLdrLiteral(3, 0, 0, 0);
    DecodeBcc(14, 0);
    DecodeCbz(1, 0, 17, 0);
  }

  /** LDR X0 of a literal over 1.5 MB away, and a prefetch of one over 4 MB away, which becomes a
      move into X0: */
  lemma LiteralTooFar(code: seq<Word>, mem: Memory)
    ensures Decode(0x5800_0000) == LdrLiteral(1, 0, 0, 0) && Decode(0xd800_0000) == LdrLiteral(3, 0, 0, 0)
    ensures Copied(0x5800_0000, 0x20_0000, code, 0x8_0000, mem) ==>
      Differs(0x5800_0000, 0x20_0000, code, 0x8_0000, false)
    ensures Copied(0xd800_0000, 0x40_0000, code, 0, mem) ==> Differs(0xd800_0000, 0x40_0000, code, 0, false)
  {
    hide Wrap, Delta, Preserves, Decode, Copied, Differs;
    FiveWords();
    DeltaIs(0x20_0000, 0x8_0000);
    DeltaIs(0x40_0000, 0);
    if Copied(0x5800_0000, 0x20_0000, code, 0x8_0000, mem) { NotKept(0x5800_0000, 0x20_0000, code, 0x8_0000, mem); }
    if Copied(0xd800_0000, 0x40_0000, code, 0, mem) { NotKept(0xd800_0000, 0x40_0000, code, 0, mem); }
  }

  /** B.AL over 4 MB, which never branches, and CBZ X17 over 256 MB, which tests its own
      target. */
  lemma BranchTooFar(code: seq<Word>, mem: Memory)
    ensures Decode(0x5400_000e) == Bcc(14, 0) && Decode(0xb400_0011) == Cbz(1, 0, 17, 0)
    ensures Copied(0x5400_000e, 0x40_0000, code, 0, mem) ==> Differs(0x5400_000e, 0x40_0000, code, 0, false)
    ensures Copied(0xb400_0011, 0x1000_0000, code, 0, mem) ==> Differs(0xb400_0011, 0x1000_0000, code, 0, true)
  {
    hide Wrap, Delta, Preserves, Decode, Copied, Differs;
    FiveWords();
    DeltaIs(0x40_0000, 0);
    DeltaIs(0x40_0000, 4);
    DeltaIs(0x1000_0000, 0);
    DeltaIs(0x1000_0000, 4);
    if Copied(0x5400_000e, 0x40_0000, code, 0, mem) { NotKept(0x5400_000e, 0x40_0000, code, 0, mem); }
    if Copied(0xb400_0011, 0x1000_0000, code, 0, mem) { NotKept(0xb400_0011, 0x1000_0000, code, 0, mem); }
  }

  /** All fields fit their encodings, and offsets are whole words. */
  lemma DecodedFields(w: Word)
    ensures var i := Decode(w);
      && WellFormed(i) && (i.LdrLiteral? ==> 0 <= i.size <= 3 && 0 <= i.fpNeon <= 1)
      && (Conditional(i) || i.Branch? || i.LdrLiteral? ==> i.imm % 4 == 0)
  {
    hide DecodeRest, Signed, Op, Low;
    RestFields(Op(w), Low(w), w);
  }

  lemma RestFields(op: int, low: int, w: Word)
    requires 0 <= op < 0x100 && 0 <= low < 0x100_0000
    ensures var i := DecodeRest(op, low, w); !Conditional(i) && !i.Branch? && !i.LdrLiteral? && !i.Adr? && !i.Adrp?
  {
  }

  lemma TargetAligned(src: Addr, imm: int)
    requires src % 4 == 0 && imm % 4 == 0
    ensures Wrap(src + imm) % 4 == 0
  {
  }

  /** What the three copiers of conditional branches share: the words are the near form, the
      branch over a B, or the move, the branch and the BR. */
  lemma ConditionalCopied(w: Word, src: Addr, code: seq<Word>, moves: seq<Word>, dst: Addr, mem: Memory)
    requires var i := Decode(w);
      var to := TargetOf(i, src);
      && Conditional(i)
      && if IsNear(i, src, dst) then |code| == 1 && Decode(code[0]) == Redirect(i, Delta(to, dst))
         else if IsMid(i, src, dst) then
           |code| == 2 && Decode(code[0]) == Skip(i) && Decode(code[1]) == Branch(false, Delta(to, Wrap(dst + 4)))
         else
           && Gives(moves, 17, to) && |moves| <= 4 && |code| == |moves| + 2 && code[..|moves|] == moves
           && Decode(code[|moves|]) == Skip(i) && Decode(code[|moves| + 1]) == BranchReg(17, false)
    ensures Copied(w, src, code, dst, mem)
  {
    DecodedFields(w);
    var i := Decode(w);
    hide Decode, Delta, TargetOf, Skip, Preserves, Gives;
    assert !ReadsLiteral(i, src, dst) && Uses17(i, src, dst) == (!IsNear(i, src, dst) && !IsMid(i, src, dst));
    assert Kept(i, src, dst) == (IsNear(i, src, dst) || (HasOpposite(i) && (IsMid(i, src, dst) || !Reads17(i))));
    if IsNear(i, src, dst) {
      assert code == [code[0]];
      forall m ensures Preserves(w, src, code, dst, m, false) { NearPreserves(w, src, code[0], dst, m); }
    } else if IsMid(i, src, dst) {
      assert code == [code[0], code[1]];
      forall m ensures Preserves(w, src, code, dst, m, false) <==> HasOpposite(i) {
        MidPreserves(w, src, code[0], code[1], dst, m);
      }
      assert Preserves(w, src, code, dst, mem, false) <==> HasOpposite(i);
    } else {
      var skip, br := code[|moves|], code[|moves| + 1];
      assert code == moves + [skip, br];
      forall m ensures Preserves(w, src, code, dst, m, true) <==> HasOpposite(i) && !Reads17(i) {
        FarPreserves(w, src, moves, skip, br, dst, m);
      }
      assert Preserves(w, src, code, dst, mem, true) <==> HasOpposite(i) && !Reads17(i);
    }
  }

  lemma AdrCopied(w: Word, src: Addr, code: seq<Word>, dst: Addr, mem: Memory)
    requires var i := Decode(w);
      var to := TargetOf(i, src);
      && i.Adr?
      && if IsNear(i, src, dst) then |code| == 1 && Decode(code[0]) == Adr(i.rd, Delta(to, dst))
         else if IsNearPage(i, src, dst) then
           |code| == 2 && Decode(code[0]) == Adrp(i.rd, to / 0x1000 - dst / 0x1000)
             && Decode(code[1]) == AddImm(0, i.rd, i.rd, to % 0x1000, 0)
         else Gives(code, i.rd, to)
    ensures Copied(w, src, code, dst, mem)
  {
    var i := Decode(w);
    hide Decode, Delta, Preserves, Gives;
    assert !Uses17(i, src, dst) && !ReadsLiteral(i, src, dst);
    if IsNear(i, src, dst) {
      assert code == [code[0]];
      DeltaReaches(TargetOf(i, src), dst);
      forall m ensures Preserves(w, src, code, dst, m, false) { AdrNear(w, src, code[0], dst, m); }
    } else if IsNearPage(i, src, dst) {
      assert code == [code[0], code[1]];
      forall m ensures Preserves(w, src, code, dst, m, false) <==> i.rd != 31 && TargetOf(i, src) < 0x1_0000_0000 {
        AdrMid(w, src, code[0], code[1], dst, m);
      }
      assert Preserves(w, src, code, dst, mem, false) <==> Kept(i, src, dst);
    } else {
      forall m ensures Preserves(w, src, code, dst, m, false) {
        MovePreserves(w, src, code, dst, m, i.rd, TargetOf(i, src));
      }
    }
  }

  lemma AdrpCopied(w: Word, src: Addr, code: seq<Word>, dst: Addr, mem: Memory)
    requires var i := Decode(w);
      var to := TargetOf(i, src);
      && i.Adrp?
      && if IsNearPage(i, src, dst) then |code| == 1 && Decode(code[0]) == Adrp(i.rd, to / 0x1000 - dst / 0x1000)
         else Gives(code, i.rd, to)
    ensures Copied(w, src, code, dst, mem)
  {
    var i := Decode(w);
    hide Decode, Delta, Preserves, Gives;
    assert !Uses17(i, src, dst) && !ReadsLiteral(i, src, dst) && Kept(i, src, dst);
    if IsNearPage(i, src, dst) {
      assert code == [code[0]];
      forall m ensures Preserves(w, src, code, dst, m, false) { AdrpNear(w, src, code[0], dst, m); }
    } else {
      forall m ensures Preserves(w, src, code, dst, m, false) {
        MovePreserves(w, src, code, dst, m, i.rd, TargetOf(i, src));
      }
    }
  }

  lemma LdrCopied(w: Word, src: Addr, code: seq<Word>, moves: seq<Word>, dst: Addr, mem: Memory)
    requires var i := Decode(w);
      var to, delta := TargetOf(i, src), Delta(TargetOf(i, src), dst);
      && i.LdrLiteral?
      && if IsNearLiteral(i, src, dst) then
           && |code| == 1 && delta % 4 == 0
           && Decode(code[0]) == LdrLiteral(i.size, i.fpNeon, i.rt, Signed(delta / 4 % 0x8_0000, 0x8_0000) * 4)
         else if i.fpNeon == 0 then
           Gives(code, i.rt, if i.size == 3 then 0 else LoadGeneral(mem, i.size, to))
         else
           && Gives(moves, 17, to) && |code| == |moves| + 1 && code[..|moves|] == moves
           && Decode(code[|moves|]) == if i.size != 3 then LdrFpNeon(i.size + 2, i.rt, 17, 0) else Other(code[|moves|])
    ensures Copied(w, src, code, dst, mem)
  {
    DecodedFields(w);
    var i := Decode(w);
    hide Decode, Delta, Preserves, Gives, TargetOf, Signed, LoadGeneral;
    if IsNearLiteral(i, src, dst) {
      assert code == [code[0]];
      LdrNear(w, src, code[0], dst);
      assert !Uses17(i, src, dst) && !ReadsLiteral(i, src, dst);
    } else if i.fpNeon == 0 {
      assert Preserves(w, src, code, dst, mem, false) <==> Kept(i, src, dst) by {
        LdrFarGeneral(w, src, code, dst, mem);
      }
      forall m | SameLiteral(i, src, m, mem) ensures Preserves(w, src, code, dst, m, false) <==> Kept(i, src, dst) {
        LdrFarGeneral(w, src, code, dst, m);
      }
    } else {
      var ldr := code[|moves|];
      assert code == moves + [ldr] && Uses17(i, src, dst) && !ReadsLiteral(i, src, dst);
      forall m ensures Preserves(w, src, code, dst, m, true) <==> i.size != 3 {
        LdrFarFpNeon(w, src, moves, ldr, dst, m);
      }
      assert Preserves(w, src, code, dst, mem, true) <==> i.size != 3;
    }
  }

  /** An instruction that does not depend on its place, or a BLR, is copied as it is. */
  lemma PureCopied(w: Word, src: Addr, dst: Addr, mem: Memory)
    requires var i := Decode(w); !Conditional(i) && !i.Branch? && !i.LdrLiteral? && !i.Adr? && !i.Adrp?
    ensures Preserves(w, src, [w], dst, mem, false)
  {
    var i := Decode(w);
    hide Decode, Wrap, Run;
    forall s: State, other: Others | s.mem == mem
      ensures Matches(Links(i), false, Exec(i, src, s, other), Run([w], dst, s, other), EndOf([w], dst))
    {
      RunOne(w, dst, s, other);
      EndOfOne(w, dst);
      if Links(i) {
        assert s.regs[30 := Wrap(src + 4)][30 := Wrap(dst + 4)] == s.regs[30 := Wrap(dst + 4)];
      } else {
        assert Exec(i, dst, s, other) == Exec(i, src, s, other);
      }
    }
  }

  class CDetourDis {
    /** m_pbTarget; 0 is DETOUR_INSTRUCTION_TARGET_NONE. */
    var target: Addr

    constructor ()
      ensures target == 0
    {
      target := 0;
    }

    method CopyBcc(src: Addr, dst: Addr, instruction: Word, ghost mem: Memory) returns (code: seq<Word>)
      requires src % 4 == 0 && dst % 4 == 0 && Decode(instruction).Bcc?
      modifies this
      ensures target == TargetOf(Decode(instruction), src)
      ensures Copied(instruction, src, code, dst, mem) && 1 <= |code| <= 6
    {
      hide Decode, Delta, Copied, Gives, Signed, Wrap;
      var decoded := Decode(instruction);
      var pTarget := Wrap(src + decoded.imm);
      target := pTarget;
      DecodedFields(instruction);
      TargetAligned(src, decoded.imm);
      TargetAligned(dst, 4);
      DeltaReaches(pTarget, dst);
      DeltaReaches(pTarget, Wrap(dst + 4));
      var delta, delta4 := Delta(pTarget, dst), Delta(pTarget, Wrap(dst + 4));
      ghost var moves: seq<Word> := [];
      if -0x10_0000 <= delta < 0x10_0000 {
        DecodeBcc(decoded.condition, delta);
        code := EmitInstruction([], AssembleBcc(decoded.condition, delta));
      } else {
        DecodeBcc(Xor1(decoded.condition), 8);
        if -0x800_0000 <= delta4 < 0x800_0000 {
          DecodeBranch(0, delta4);
          code := EmitInstruction([], AssembleBcc(Xor1(decoded.condition), 8));
          code := EmitInstruction(code, AssembleBranch(0, delta4));
        } else {
          DecodeBr(17, 0);
          code := EmitMovImmediate(17, pTarget);
          moves := code;
          code := EmitInstruction(code, AssembleBcc(Xor1(decoded.condition), 8));
          code := EmitInstruction(code, AssembleBr(17, 0));
        }
      }
      ConditionalCopied(instruction, src, code, moves, dst, mem);
    }

    method CopyCbz(src: Addr, dst: Addr, instruction: Word, ghost mem: Memory) returns (code: seq<Word>)
      requires src % 4 == 0 && dst % 4 == 0 && Decode(instruction).Cbz?
      modifies this
      ensures target == TargetOf(Decode(instruction), src)
      ensures Copied(instruction, src, code, dst, mem) && 1 <= |code| <= 6
    {
      hide Decode, Delta, Copied, Gives, Signed, Wrap;
      var decoded := Decode(instruction);
      var pTarget := Wrap(src + decoded.imm);
      target := pTarget;
      DecodedFields(instruction);
      TargetAligned(src, decoded.imm);
      TargetAligned(dst, 4);
      DeltaReaches(pTarget, dst);
      DeltaReaches(pTarget, Wrap(dst + 4));
      var delta, delta4 := Delta(pTarget, dst), Delta(pTarget, Wrap(dst + 4));
      ghost var moves: seq<Word> := [];
      if -0x10_0000 <= delta < 0x10_0000 {
        DecodeCbz(decoded.size, decoded.nz, decoded.rt, delta);
        code := EmitInstruction([], AssembleCbz(decoded.size, decoded.nz, decoded.rt, delta));
      } else {
        DecodeCbz(decoded.size, Xor1(decoded.nz), decoded.rt, 8);
        if -0x800_0000 <= delta4 < 0x800_0000 {
          DecodeBranch(0, delta4);
          code := EmitInstruction([], AssembleCbz(decoded.size, Xor1(decoded.nz), decoded.rt, 8));
          code := EmitInstruction(code, AssembleBranch(0, delta4));
        } else {
          DecodeBr(17, 0);
          code := EmitMovImmediate(17, pTarget);
          moves := code;
          code := EmitInstruction(code, AssembleCbz(decoded.size, Xor1(decoded.nz), decoded.rt, 8));
          code := EmitInstruction(code, AssembleBr(17, 0));
        }
      }
      ConditionalCopied(instruction, src, code, moves, dst, mem);
    }

    method CopyTbz(src: Addr, dst: Addr, instruction: Word, ghost mem: Memory) returns (code: seq<Word>)
      requires src % 4 == 0 && dst % 4 == 0 && Decode(instruction).Tbz?
      modifies this
      ensures target == TargetOf(Decode(instruction), src)
      ensures Copied(instruction, src, code, dst, mem) && 1 <= |code| <= 6
    {
      hide Decode, Delta, Copied, Gives, Signed, Wrap;
      var decoded := Decode(instruction);
      var pTarget := Wrap(src + decoded.imm);
      target := pTarget;
      DecodedFields(instruction);
      TargetAligned(src, decoded.imm);
      TargetAligned(dst, 4);
      DeltaReaches(pTarget, dst);
      DeltaReaches(pTarget, Wrap(dst + 4));
      var delta, delta4 := Delta(pTarget, dst), Delta(pTarget, Wrap(dst + 4));
      // b5 is the size bit of the encoding
      var size, bit := decoded.bit / 32, decoded.bit % 32;
      ghost var moves: seq<Word> := [];
      if -0x2000 <= delta < 0x2000 {
        DecodeTbz(size, decoded.nz, decoded.rt, bit, delta);
        code := EmitInstruction([], AssembleTbz(size, decoded.nz, decoded.rt, bit, delta));
      } else {
        DecodeTbz(size, Xor1(decoded.nz), decoded.rt, bit, 8);
        if -0x800_0000 <= delta4 < 0x800_0000 {
          DecodeBranch(0, delta4);
          code := EmitInstruction([], AssembleTbz(size, Xor1(decoded.nz), decoded.rt, bit, 8));
          code := EmitInstruction(code, AssembleBranch(0, delta4));
        } else {
          DecodeBr(17, 0);
          code := EmitMovImmediate(17, pTarget);
          moves := code;
          code := EmitInstruction(code, AssembleTbz(size, Xor1(decoded.nz), decoded.rt, bit, 8));
          code := EmitInstruction(code, AssembleBr(17, 0));
        }
      }
      ConditionalCopied(instruction, src, code, moves, dst, mem);
    }

    /** CopyB and CopyBl. */
    method CopyB_or_Bl(src: Addr, dst: Addr, instruction: Word, link: bool, ghost mem: Memory) returns (code: seq<Word>)
      requires src % 4 == 0 && dst % 4 == 0 && Decode(instruction).Branch? && Decode(instruction).link == link
      modifies this
      ensures target == TargetOf(Decode(instruction), src)
      ensures Copied(instruction, src, code, dst, mem) && 1 <= |code| <= 5
    {
      hide Decode, Delta, Gives, Signed, Wrap, Preserves;
      var decoded := Decode(instruction);
      var pTarget := Wrap(src + decoded.imm);
      target := pTarget;
      DecodedFields(instruction);
      TargetAligned(src, decoded.imm);
      DeltaReaches(pTarget, dst);
      var delta := Delta(pTarget, dst);
      var bit := if link then 1 else 0;
      assert !ReadsLiteral(decoded, src, dst) && Kept(decoded, src, dst);
      if -0x800_0000 <= delta < 0x800_0000 {
        DecodeBranch(bit, delta);
        code := EmitInstruction([], AssembleBranch(bit, delta));
        assert code == [code[0]] && !Uses17(decoded, src, dst);
        forall m ensures Preserves(instruction, src, code, dst, m, false) {
          BranchNear(instruction, src, code[0], dst, m);
        }
      } else {
        DecodeBr(17, bit);
        ghost var moves;
        code := EmitMovImmediate(17, pTarget);
        moves := code;
        code := EmitInstruction(code, AssembleBr(17, bit));
        assert Uses17(decoded, src, dst);
        forall m ensures Preserves(instruction, src, code, dst, m, true) {
          BranchFar(instruction, src, moves, AssembleBr(17, bit), dst, m);
        }
      }
    }

    method CopyAdr(src: Addr, dst: Addr, instruction: Word, ghost mem: Memory) returns (code: seq<Word>)
      requires Decode(instruction).Adr? || Decode(instruction).Adrp?
      ensures Copied(instruction, src, code, dst, mem) && 1 <= |code| <= 4
    {
      hide Decode, Delta, Gives, Signed, Wrap, Preserves, Copied;
      var decoded := Decode(instruction);
      if decoded.Adr? {
        var pTarget := Wrap(src + decoded.imm);
        var delta, deltaPage := Delta(pTarget, dst), pTarget / 0x1000 - dst / 0x1000;
        if -0x10_0000 <= delta < 0x10_0000 {
          DecodeAdr(0, decoded.rd, delta);
          code := EmitInstruction([], AssembleAdr(0, decoded.rd, delta));
        } else if -0x10_0000 <= deltaPage < 0x10_0000 {
          DecodeAdr(1, decoded.rd, deltaPage);
          DecodeAdd(0, decoded.rd, decoded.rd, pTarget % 0x1000, 0);
          code := EmitInstruction([], AssembleAdr(1, decoded.rd, deltaPage));
          code := EmitInstruction(code, AssembleAddImm(0, decoded.rd, decoded.rd, pTarget % 0x1000, 0));
        } else {
          code := EmitMovImmediate(decoded.rd, pTarget);
        }
        AdrCopied(instruction, src, code, dst, mem);
      } else {
        var pTarget := Wrap((src / 0x1000 + decoded.pages) * 0x1000);
        var deltaPage := pTarget / 0x1000 - dst / 0x1000;
        if -0x10_0000 <= deltaPage < 0x10_0000 {
          DecodeAdr(1, decoded.rd, deltaPage);
          code := EmitInstruction([], AssembleAdr(1, decoded.rd, deltaPage));
        } else {
          code := EmitMovImmediate(decoded.rd, pTarget);
        }
        AdrpCopied(instruction, src, code, dst, mem);
      }
    }

    method CopyLdrLiteral(src: Addr, dst: Addr, instruction: Word, mem: Memory) returns (code: seq<Word>)
      requires src % 4 == 0 && dst % 4 == 0 && Decode(instruction).LdrLiteral?
      ensures Copied(instruction, src, code, dst, mem) && 1 <= |code| <= 5
      ensures var i := Decode(instruction);
        ReadsLiteral(i, src, dst) && i.size != 3 ==> LeavesLiteral(i, src, code, dst, mem)
    {
      hide Decode, Delta, Gives, Signed, Wrap, Preserves, Copied, LoadGeneral, LeavesLiteral;
      var decoded := Decode(instruction);
      var pTarget := Wrap(src + decoded.imm);
      DecodedFields(instruction);
      TargetAligned(src, decoded.imm);
      DeltaReaches(pTarget, dst);
      var delta := Delta(pTarget, dst);
      ghost var moves: seq<Word> := [];
      if -0x20_0000 <= delta < 0x20_0000 {
        DecodeLdrLiteral(decoded.size, decoded.fpNeon, decoded.rt, delta);
        code := EmitInstruction([], AssembleLdrLiteral(decoded.size, decoded.fpNeon, decoded.rt, delta));
      } else if decoded.fpNeon == 0 {
        var value := if decoded.size == 3 then 0 else LoadGeneral(mem, decoded.size, pTarget);
        code := EmitMovImmediate(decoded.rt, value);
        if decoded.size != 3 { LiteralLeft(decoded, src, code, dst, mem); }
      } else {
        DecodeLdrFpNeon(2 + decoded.size, decoded.rt, 17, 0);
        code := EmitMovImmediate(17, pTarget);
        moves := code;
        code := EmitInstruction(code, AssembleLdrFpNeon(2 + decoded.size, decoded.rt, 17, 0));
      }
      LdrCopied(instruction, src, code, moves, dst, mem);
    }

    method PureCopy32(src: Addr, dst: Addr, instruction: Word, ghost mem: Memory) returns (code: seq<Word>)
      requires var i := Decode(instruction); !Conditional(i) && !i.Branch? && !i.LdrLiteral? && !i.Adr? && !i.Adrp?
      ensures Copied(instruction, src, code, dst, mem) && |code| == 1
    {
      hide Decode, Preserves;
      code := [instruction];
      forall m ensures Preserves(instruction, src, code, dst, m, false) { PureCopied(instruction, src, dst, m); }
      assert !Uses17(Decode(instruction), src, dst) && !ReadsLiteral(Decode(instruction), src, dst);
    }

    /** CopyInstruction: the instruction after the copied one, the words written at `dst`, and
        by how many bytes they are more than one instruction. */
    method CopyInstruction(src: Addr, dst: Addr, instruction: Word, mem: Memory)
      returns (next: Addr, code: seq<Word>, extra: int)
      requires src % 4 == 0 && dst % 4 == 0
      modifies this
      ensures next == Wrap(src + 4)
      ensures Copied(instruction, src, code, dst, mem)
      ensures var i := Decode(instruction);
        ReadsLiteral(i, src, dst) && i.size != 3 ==> LeavesLiteral(i, src, code, dst, mem)
      ensures 1 <= |code| <= 6 && extra == 4 * |code| - 4
      ensures var i := Decode(instruction);
        target == if Conditional(i) || i.Branch? then TargetOf(i, src) else old(target)
    {
      hide Copied, Imm21, Imm19, Imm26, Imm14, DecodeRest, Wrap, TargetOf, LeavesLiteral;
      var op, low := Op(instruction), Low(instruction);
      RestFields(op, low, instruction);
      hide Op, Low;
      var x := op % 0x80;
      if x % 0x20 == 0x10 {
        code := CopyAdr(src, dst, instruction, mem);
      } else if op == 0x54 && low / 0x10 % 2 == 0 {
        code := CopyBcc(src, dst, instruction, mem);
      } else if 0x14 <= x <= 0x17 {
        code := CopyB_or_Bl(src, dst, instruction, op >= 0x80, mem);
      } else if 0x34 <= x <= 0x35 {
        code := CopyCbz(src, dst, instruction, mem);
      } else if 0x36 <= x <= 0x37 {
        code := CopyTbz(src, dst, instruction, mem);
      } else if x == 0x18 || x == 0x1c || x == 0x58 || x == 0x5c {
        code := CopyLdrLiteral(src, dst, instruction, mem);
      } else {
        code := PureCopy32(src, dst, instruction, mem);
      }
      next, extra := Wrap(src + 4), 4 * |code| - 4;
    }
  }
}
