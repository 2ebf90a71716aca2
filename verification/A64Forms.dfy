/** The forms of the unconditional branches, of ADR and ADRP, and of the literal loads. */
module A64Forms {
  import opened Words
  import opened A64
  import opened A64Coding
  import opened A64Moves
  import opened A64Relocate

  // ------------------------------------------------------- one-instruction forms

  /** A form of one instruction preserves the meaning if it has the same effect at its own
      place. */
  lemma OnePreserves(w: Word, src: Addr, w': Word, dst: Addr, mem: Memory)
    requires forall s: State, other: Others {:trigger Exec(Decode(w), src, s, other)} | s.mem == mem ::
      Exec(Decode(w'), dst, s, other) == Exec(Decode(w), src, s, other)
    requires !Links(Decode(w))
    ensures Preserves(w, src, [w'], dst, mem, false)
  {
    hide Decode, Exec, Run, EndOf;
    forall s: State, other: Others | s.mem == mem
      ensures Matches(Links(Decode(w)), false, Exec(Decode(w), src, s, other), Run([w'], dst, s, other),
                      EndOf([w'], dst))
    {
      RunOne(w', dst, s, other);
      assert Exec(Decode(w'), dst, s, other) == Exec(Decode(w), src, s, other);
    }
  }

  // ---------------------------------------------------------------- B, BL, BR, BLR

  lemma BranchNear(w: Word, src: Addr, w': Word, dst: Addr, mem: Memory)
    requires Decode(w).Branch? && Decode(w') == Branch(Decode(w).link, Delta(TargetOf(Decode(w), src), dst))
    ensures Preserves(w, src, [w'], dst, mem, false)
  {
    hide Decode, Exec, Run, Wrap;
    var i, target := Decode(w), TargetOf(Decode(w), src);
    DeltaReaches(target, dst);
    forall s: State, other: Others | s.mem == mem
      ensures Matches(Links(i), false, Exec(i, src, s, other), Run([w'], dst, s, other), EndOf([w'], dst))
    {
      RunOne(w', dst, s, other);
      EndOfOne(w', dst);
      ExecBranch(i, src, s, other);
      ExecBranch(Decode(w'), dst, s, other);
      assert s.regs[30 := Wrap(src + 4)][30 := Wrap(dst + 4)] == s.regs[30 := Wrap(dst + 4)];
    }
  }

  /** `MOV x17, target; BR x17`, or `BLR x17`. */
  lemma BranchFar(w: Word, src: Addr, moves: seq<Word>, br: Word, dst: Addr, mem: Memory)
    requires Decode(w).Branch? && Decode(br) == BranchReg(17, Decode(w).link)
    requires Gives(moves, 17, TargetOf(Decode(w), src))
    ensures Preserves(w, src, moves + [br], dst, mem, true)
  {
    hide Decode, Exec, Run, Wrap, EndOf, Gives, TargetOf, Matches;
    forall s: State, other: Others | s.mem == mem
      ensures Matches(Links(Decode(w)), true, Exec(Decode(w), src, s, other), Run(moves + [br], dst, s, other),
                      EndOf(moves + [br], dst))
    {
      BranchFarRun(Decode(w), src, moves, br, dst, s, other);
    }
  }

  lemma BranchFarRun(i: Insn, src: Addr, moves: seq<Word>, br: Word, dst: Addr, s: State, other: Others)
    requires i.Branch? && Decode(br) == BranchReg(17, i.link) && Gives(moves, 17, TargetOf(i, src))
    ensures Matches(Links(i), true, Exec(i, src, s, other), Run(moves + [br], dst, s, other), EndOf(moves + [br], dst))
  {
    var target, code := TargetOf(i, src), moves + [br];
    assert target == Wrap(src + i.imm);
    var pc: int, s' := EndOf(moves, dst), Set(s, 17, target);
    RunMoves(moves, [br], 17, dst, s, other);
    assert MovesValue(moves, 17, Get(s, 17)) == target;
    EndOfMore(moves, br, dst);
    EndOfOne(br, pc);
    hide Decode, Exec, Run, Wrap, EndOf, Gives, Moves, MovesValue, TargetOf;
    RunOne(br, pc, s', other);
    ExecBranch(i, src, s, other);
    ExecBr17(br, pc, s', other, target, i.link);
    SetAgain(s, 17, target, target);
    var end := Wrap(pc + 4);
    assert s.regs[17 := target][30 := end][17 := 0] == s.regs[30 := Wrap(src + 4)][30 := end][17 := 0];
    Visible17(s, target);
  }

  // --------------------------------------------------------------------- ADR, ADRP

  /** A value moved into a register: the long form of ADR, ADRP and the literal loads. */
  lemma MovePreserves(w: Word, src: Addr, moves: seq<Word>, dst: Addr, mem: Memory, rd: Reg, v: u64)
    requires !Links(Decode(w)) && Gives(moves, rd, v)
    requires forall s: State, other: Others {:trigger Exec(Decode(w), src, s, other)} | s.mem == mem ::
      Exec(Decode(w), src, s, other) == Result(Set(s, rd, v), FallThrough)
    ensures Preserves(w, src, moves, dst, mem, false)
  {
    hide Decode, Exec, Run, EndOf, MovesValue, Moves;
    forall s: State, other: Others | s.mem == mem
      ensures Matches(Links(Decode(w)), false, Exec(Decode(w), src, s, other), Run(moves, dst, s, other),
                      EndOf(moves, dst))
    {
      assert moves + [] == moves;
      RunMoves(moves, [], rd, dst, s, other);
      assert MovesValue(moves, rd, Get(s, rd)) == v;
      RunNothing(EndOf(moves, dst), Set(s, rd, v), other, 0);
      assert Exec(Decode(w), src, s, other) == Result(Set(s, rd, v), FallThrough);
    }
  }

  lemma AdrNear(w: Word, src: Addr, w': Word, dst: Addr, mem: Memory)
    requires var i, i' := Decode(w), Decode(w');
      i.Adr? && i'.Adr? && i'.rd == i.rd && TargetOf(i', dst) == TargetOf(i, src)
    ensures Preserves(w, src, [w'], dst, mem, false)
  {
    hide Decode, Wrap;
    OnePreserves(w, src, w', dst, mem);
  }

  lemma AdrpNear(w: Word, src: Addr, w': Word, dst: Addr, mem: Memory)
    requires Decode(w).Adrp?
    requires Decode(w') == Adrp(Decode(w).rd, TargetOf(Decode(w), src) / 0x1000 - dst / 0x1000)
    ensures Preserves(w, src, [w'], dst, mem, false)
  {
    var i, target := Decode(w), TargetOf(Decode(w), src);
    PageAligned(src / 0x1000 + i.pages);
    PageReached(target, dst);
    hide Decode, Wrap;
    OnePreserves(w, src, w', dst, mem);
  }

  lemma PageAligned(page: int)
    ensures Wrap(page * 0x1000) % 0x1000 == 0
  {
  }

  /** The page of the target, from the difference of the two page numbers. */
  lemma PageReached(target: Addr, dst: Addr)
    ensures var pages := target / 0x1000 - dst / 0x1000;
      Wrap((dst / 0x1000 + pages) * 0x1000) == target - target % 0x1000
  {
  }

  /** `ADRP rd; ADD rd, rd, low` with a 32-bit ADD: exact for addresses below 4 GB, unless rd
      is 31, which the ADD takes for the stack pointer. */
  lemma AdrMid(w: Word, src: Addr, adrp: Word, add: Word, dst: Addr, mem: Memory)
    requires Decode(w).Adr?
    requires Decode(adrp) == Adrp(Decode(w).rd, TargetOf(Decode(w), src) / 0x1000 - dst / 0x1000)
    requires Decode(add) == AddImm(0, Decode(w).rd, Decode(w).rd, TargetOf(Decode(w), src) % 0x1000, 0)
    ensures Preserves(w, src, [adrp, add], dst, mem, false) <==>
            Decode(w).rd != 31 && TargetOf(Decode(w), src) < 0x1_0000_0000
  {
    var rd, target, code := Decode(w).rd, TargetOf(Decode(w), src), [adrp, add];
    hide Decode, Exec, Run, EndOf, Matches, Links, TargetOf;
    forall s: State, other: Others | s.mem == mem
      ensures Matches(Links(Decode(w)), false, Exec(Decode(w), src, s, other), Run(code, dst, s, other),
                      EndOf(code, dst)) ==
              (if rd == 31 then s.sp == (s.sp + target % 0x1000) % TwoTo64 % 0x1_0000_0000 else target < 0x1_0000_0000)
    {
      AdrMidRun(Decode(w), src, adrp, add, dst, s, other);
    }
    if rd == 31 {
      AdrMidSp(w, src, code, dst, mem, target);
    } else {
      OneState(w, src, code, dst, mem, false);
    }
  }

  lemma AdrMidRun(i: Insn, src: Addr, adrp: Word, add: Word, dst: Addr, s: State, other: Others)
    requires i.Adr? && Decode(adrp) == Adrp(i.rd, TargetOf(i, src) / 0x1000 - dst / 0x1000)
    requires Decode(add) == AddImm(0, i.rd, i.rd, TargetOf(i, src) % 0x1000, 0)
    ensures var target, code := TargetOf(i, src), [adrp, add];
      Matches(Links(i), false, Exec(i, src, s, other), Run(code, dst, s, other), EndOf(code, dst)) ==
      (if i.rd == 31 then s.sp == (s.sp + target % 0x1000) % TwoTo64 % 0x1_0000_0000 else target < 0x1_0000_0000)
  {
    var target, code := TargetOf(i, src), [adrp, add];
    var page: u64 := target - target % 0x1000;
    var s1 := Set(s, i.rd, page);
    hide Decode, Exec, Run, EndOf, Wrap, Matches, Sized, TargetOf, Set;
    AdrMidExec(i, src, adrp, add, dst, s, other);
    SizedSum(target, s.sp);
    RunTwo(adrp, add, dst, s, s1, other);
    SetAgain(s, i.rd, page, Sized(target, 0));
    MatchSet(s, i.rd, target, Sized(target, 0), EndOf(code, dst));
    MatchSp(s, Sized(Wrap(s.sp + target % 0x1000), 0), EndOf(code, dst));
    SetAgain(s, i.rd, target, 0);
  }

  lemma SizedSum(target: u64, sp: u64)
    ensures Sized(target, 0) == target <==> target < 0x1_0000_0000
    ensures Sized(Wrap(sp + target % 0x1000), 0) == (sp + target % 0x1000) % TwoTo64 % 0x1_0000_0000
  {
  }

  lemma MatchSet(s: State, rd: Reg, a: u64, b: u64, end: Addr)
    ensures rd != 31 ==>
      (Matches(false, false, Result(Set(s, rd, a), FallThrough), Result(Set(s, rd, b), FallThrough), end) <==> a == b)
  {
    SetTells(s, rd, a, b);
  }

  lemma MatchSp(s: State, sp: u64, end: Addr)
    ensures Matches(false, false, Result(s, FallThrough),
                    Result(State(s.regs, sp, s.simd, s.flags, s.mem), FallThrough), end) <==>
            s.sp == sp
  {
  }

  lemma RunTwo(first: Word, second: Word, pc: Addr, s: State, s1: State, other: Others)
    requires Exec(Decode(first), pc, s, other) == Result(s1, FallThrough)
    requires Exec(Decode(second), Wrap(pc + 4), s1, other).flow.FallThrough?
    ensures Run([first, second], pc, s, other) == Exec(Decode(second), Wrap(pc + 4), s1, other)
  {
    hide Decode, Exec, Run, EndOf, Wrap;
    assert [first] + [second] == [first, second] && [second] + [] == [second];
    RunFirst(first, [second], pc, s, other);
    RunFirst(second, [], Wrap(pc + 4), s1, other);
    RunNothing(Wrap(Wrap(pc + 4) + 4), Exec(Decode(second), Wrap(pc + 4), s1, other).s, other, 0);
  }

  lemma ExecPage(rd: Reg, pages: int, pc: Addr, s: State, other: Others)
    ensures Exec(Adrp(rd, pages), pc, s, other) == Result(Set(s, rd, Wrap((pc / 0x1000 + pages) * 0x1000)), FallThrough)
  {
  }

  lemma ExecAdd(rd: Reg, imm: int, pc: Addr, s: State, other: Others)
    ensures var sum := Sized(Wrap(BaseOrSp(s, rd) + imm), 0);
      Exec(AddImm(0, rd, rd, imm, 0), pc, s, other) ==
        Result(if rd == 31 then State(s.regs, sum, s.simd, s.flags, s.mem) else Set(s, rd, sum), FallThrough)
  {
    hide Wrap, Sized;
  }

  lemma AdrMidExec(i: Insn, src: Addr, adrp: Word, add: Word, dst: Addr, s: State, other: Others)
    requires i.Adr? && Decode(adrp) == Adrp(i.rd, TargetOf(i, src) / 0x1000 - dst / 0x1000)
    requires Decode(add) == AddImm(0, i.rd, i.rd, TargetOf(i, src) % 0x1000, 0)
    ensures var target := TargetOf(i, src);
      var s1 := Set(s, i.rd, target - target % 0x1000);
      var r := Exec(Decode(add), Wrap(dst + 4), s1, other);
      && Exec(i, src, s, other) == Result(Set(s, i.rd, target), FallThrough)
      && Exec(Decode(adrp), dst, s, other) == Result(s1, FallThrough)
      && (i.rd != 31 ==> r == Result(Set(s1, i.rd, Sized(target, 0)), FallThrough))
      && (i.rd == 31 ==>
           r == Result(State(s.regs, Sized(Wrap(s.sp + target % 0x1000), 0), s.simd, s.flags, s.mem), FallThrough))
  {
    hide Decode, Wrap, Sized, Exec;
    var target := TargetOf(i, src);
    var page: u64 := target - target % 0x1000;
    PageReached(target, dst);
    PageSum(target, page);
    ExecOffset(i.rd, i.imm, src, s, other);
    ExecPage(i.rd, target / 0x1000 - dst / 0x1000, dst, s, other);
    ExecAdd(i.rd, target % 0x1000, Wrap(dst + 4), Set(s, i.rd, page), other);
    SetAgain(s, i.rd, page, 0);
  }

  lemma PageSum(target: Addr, page: u64)
    requires page == target - target % 0x1000
    ensures Wrap(page + target % 0x1000) == target
  {
  }

  lemma ExecOffset(rd: Reg, imm: int, pc: Addr, s: State, other: Others)
    ensures Exec(Adr(rd, imm), pc, s, other) == Result(Set(s, rd, Wrap(pc + imm)), FallThrough)
  {
  }

  lemma SetTells(s: State, rd: Reg, a: u64, b: u64)
    ensures rd != 31 ==> (Set(s, rd, a).regs == Set(s, rd, b).regs <==> a == b)
  {
    if rd != 31 { assert Set(s, rd, a).regs[rd] == a && Set(s, rd, b).regs[rd] == b; }
  }

  lemma AdrMidSp(w: Word, src: Addr, code: seq<Word>, dst: Addr, mem: Memory, target: Addr)
    requires forall s: State, other: Others {:trigger Run(code, dst, s, other)} | s.mem == mem ::
      Matches(Links(Decode(w)), false, Exec(Decode(w), src, s, other), Run(code, dst, s, other), EndOf(code, dst)) ==
      (s.sp == (s.sp + target % 0x1000) % TwoTo64 % 0x1_0000_0000)
    ensures !Preserves(w, src, code, dst, mem, false)
  {
    hide Decode, Exec, Run, EndOf, Matches, Links;
    var s := State(map[], 0x1_0000_0000, map[], Flags(false, false, false, false), mem);
    var other: Others := (w: Word, s: State) => Result(s, FallThrough);
    assert !Matches(Links(Decode(w)), false, Exec(Decode(w), src, s, other), Run(code, dst, s, other),
                    EndOf(code, dst));
  }

  // ---------------------------------------------------------------- literal loads

  /** A prefetch, a load into the zero register, or an encoding that does not exist. */
  predicate NoEffect(i: Insn)
    requires i.LdrLiteral?
  {
    i.size == 3 || (i.fpNeon == 0 && i.rt == 31)
  }

  lemma LoadsNothing(i: Insn, a: Addr, b: Addr, s: State)
    requires i.LdrLiteral? && NoEffect(i) && 0 <= i.fpNeon <= 1
    ensures LoadLiteral(i.size, i.fpNeon, i.rt, a, s) == LoadLiteral(i.size, i.fpNeon, i.rt, b, s)
  {
  }

  /** The re-encoded load is tested against twice the reach of its field. */
  lemma LdrNear(w: Word, src: Addr, w': Word, dst: Addr)
    requires Decode(w).LdrLiteral? && 0 <= Decode(w).fpNeon <= 1 && 0 <= Decode(w).size <= 3
    requires var i, delta := Decode(w), Delta(TargetOf(Decode(w), src), dst);
      delta % 4 == 0 && Decode(w') == LdrLiteral(i.size, i.fpNeon, i.rt, Signed(delta / 4 % 0x8_0000, 0x8_0000) * 4)
    ensures (forall mem :: Preserves(w, src, [w'], dst, mem, false)) <==>
            In(Delta(TargetOf(Decode(w), src), dst), 0x10_0000) || NoEffect(Decode(w))
  {
    var i, target, delta := Decode(w), TargetOf(Decode(w), src), Delta(TargetOf(Decode(w), src), dst);
    var imm := Signed(delta / 4 % 0x8_0000, 0x8_0000) * 4;
    hide Decode, Wrap, Delta, Preserves, Matches;
    FieldReach(delta);
    DeltaReaches(target, dst);
    DeltaOf(dst, imm);
    if delta == imm || NoEffect(i) {
      forall mem ensures Preserves(w, src, [w'], dst, mem, false) {
        LdrSame(w, src, w', dst, mem, imm, Wrap(dst + imm));
      }
    } else {
      LdrDiffers(w, src, w', dst, imm, Wrap(dst + imm));
    }
  }

  /** What a 19-bit word offset makes of a distance. */
  lemma FieldReach(delta: int)
    requires delta % 4 == 0
    ensures var imm := Signed(delta / 4 % 0x8_0000, 0x8_0000) * 4;
      -0x10_0000 <= imm < 0x10_0000 && (imm == delta <==> In(delta, 0x10_0000))
  {
    if In(delta, 0x10_0000) { SignedField(delta / 4, 0x8_0000); }
  }

  lemma LdrSame(w: Word, src: Addr, w': Word, dst: Addr, mem: Memory, imm: int, a: Addr)
    requires Decode(w).LdrLiteral? && 0 <= Decode(w).fpNeon <= 1
    requires Decode(w') == LdrLiteral(Decode(w).size, Decode(w).fpNeon, Decode(w).rt, imm) && a == Wrap(dst + imm)
    requires a == TargetOf(Decode(w), src) || NoEffect(Decode(w))
    ensures Preserves(w, src, [w'], dst, mem, false)
  {
    var i := Decode(w);
    forall s: State
      ensures LoadLiteral(i.size, i.fpNeon, i.rt, a, s) == LoadLiteral(i.size, i.fpNeon, i.rt, TargetOf(i, src), s)
    {
      if NoEffect(i) { LoadsNothing(i, a, TargetOf(i, src), s); }
    }
    hide Decode, Wrap, LoadLiteral;
    OnePreserves(w, src, w', dst, mem);
  }

  lemma LdrDiffers(w: Word, src: Addr, w': Word, dst: Addr, imm: int, a: Addr)
    requires Decode(w).LdrLiteral? && 0 <= Decode(w).fpNeon <= 1 && 0 <= Decode(w).size <= 2
    requires Decode(w') == LdrLiteral(Decode(w).size, Decode(w).fpNeon, Decode(w).rt, imm) && a == Wrap(dst + imm)
    requires a != TargetOf(Decode(w), src) && !NoEffect(Decode(w))
    ensures exists mem :: !Preserves(w, src, [w'], dst, mem, false)
  {
    var i, target := Decode(w), TargetOf(Decode(w), src);
    var mem := Memory((x: Addr) => if x == target then 1 else 0, (x: Addr) => if x == target then 1 else 0,
                      (n: int, x: Addr) => if x == target then 1 else 0);
    var s := State(map[], 0, map[], Flags(false, false, false, false), mem);
    var other: Others := (w: Word, s: State) => Result(s, FallThrough);
    hide Decode, Exec, Run, EndOf, LoadLiteral, Wrap, LoadGeneral;
    assert s.mem.word(target) == s.mem.dword(target) == 1 && s.mem.word(a) == s.mem.dword(a) == 0;
    LiteralDiffers(i, Decode(w'), src, w', dst, imm, a, s, other);
    assert !Preserves(w, src, [w'], dst, mem, false);
  }

  lemma LiteralDiffers(i: Insn, i': Insn, src: Addr, w': Word, dst: Addr, imm: int, a: Addr, s: State, other: Others)
    requires i.LdrLiteral? && 0 <= i.fpNeon <= 1 && 0 <= i.size <= 2 && !NoEffect(i)
    requires Decode(w') == i' == LdrLiteral(i.size, i.fpNeon, i.rt, imm) && a == Wrap(dst + imm)
    requires var target := TargetOf(i, src);
      && s.mem.word(target) == s.mem.dword(target) == 1 && s.mem.word(a) == s.mem.dword(a) == 0
      && forall n :: s.mem.fpNeon(n, target) == 1 && s.mem.fpNeon(n, a) == 0
    ensures !Matches(Links(i), false, Exec(i, src, s, other), Run([w'], dst, s, other), EndOf([w'], dst))
  {
    hide Decode, Exec, Run, EndOf, LoadLiteral, Wrap, LoadGeneral;
    RunOne(w', dst, s, other);
    ExecLiteral(i, src, s, other);
    ExecLiteral(i', dst, s, other);
    LoadsDiffer(i, s, TargetOf(i, src), a);
  }

  lemma ExecLiteral(i: Insn, pc: Addr, s: State, other: Others)
    requires i.LdrLiteral?
    ensures Exec(i, pc, s, other) == LoadLiteral(i.size, i.fpNeon, i.rt, Wrap(pc + i.imm), s)
  {
  }

  lemma LoadsDiffer(i: Insn, s: State, a: Addr, b: Addr)
    requires i.LdrLiteral? && 0 <= i.fpNeon <= 1 && 0 <= i.size <= 2 && !NoEffect(i)
    requires s.mem.word(a) == s.mem.dword(a) == 1 && s.mem.word(b) == s.mem.dword(b) == 0
    requires forall n :: s.mem.fpNeon(n, a) == 1 && s.mem.fpNeon(n, b) == 0
    ensures var before, after := LoadLiteral(i.size, i.fpNeon, i.rt, a, s), LoadLiteral(i.size, i.fpNeon, i.rt, b, s);
      before.flow == after.flow == FallThrough && (before.s.regs != after.s.regs || before.s.simd != after.s.simd)
  {
    var before, after := LoadLiteral(i.size, i.fpNeon, i.rt, a, s), LoadLiteral(i.size, i.fpNeon, i.rt, b, s);
    if i.fpNeon == 0 {
      SetTells(s, i.rt, LoadGeneral(s.mem, i.size, a), LoadGeneral(s.mem, i.size, b));
    } else {
      assert before.s.simd[i.rt] == 1 && after.s.simd[i.rt] == 0;
    }
  }

  /** The value that was there at relocation time is moved into the register. */
  lemma LdrFarGeneral(w: Word, src: Addr, moves: seq<Word>, dst: Addr, mem: Memory)
    requires Decode(w).LdrLiteral? && Decode(w).fpNeon == 0
    requires Gives(moves, Decode(w).rt, if Decode(w).size == 3 then 0
                                        else LoadGeneral(mem, Decode(w).size, TargetOf(Decode(w), src)))
    ensures Preserves(w, src, moves, dst, mem, false) <==> Decode(w).size != 3 || Decode(w).rt == 31
  {
    var i := Decode(w);
    var v := if i.size == 3 then 0 else LoadGeneral(mem, i.size, TargetOf(i, src));
    hide Decode, Gives, Matches, Wrap;
    if i.size != 3 || i.rt == 31 {
      MovePreserves(w, src, moves, dst, mem, i.rt, v);
    } else {
      var s := State(map[i.rt := 1], 0, map[], Flags(false, false, false, false), mem);
      var other: Others := (w: Word, s: State) => Result(s, FallThrough);
      assert Exec(i, src, s, other) == Result(s, FallThrough);
      RunGives(moves, i.rt, 0, dst, s, other);
      SetTells(s, i.rt, 0, 1);
      assert Set(s, i.rt, 1).regs == s.regs;
      assert !Matches(Links(i), false, Exec(i, src, s, other), Run(moves, dst, s, other), EndOf(moves, dst));
    }
  }

  lemma RunGives(moves: seq<Word>, rd: Reg, v: u64, dst: Addr, s: State, other: Others)
    requires Gives(moves, rd, v)
    ensures Run(moves, dst, s, other) == Result(Set(s, rd, v), FallThrough)
  {
    hide Exec, Run, Decode, Moves, MovesValue;
    assert moves + [] == moves;
    RunMoves(moves, [], rd, dst, s, other);
    assert MovesValue(moves, rd, Get(s, rd)) == v;
    RunNothing(EndOf(moves, dst), Set(s, rd, v), other, 0);
  }

  /** `MOV x17, target; LDR Vt, [x17]`. */
  lemma LdrFarFpNeon(w: Word, src: Addr, moves: seq<Word>, ldr: Word, dst: Addr, mem: Memory)
    requires Decode(w).LdrLiteral? && Decode(w).fpNeon == 1 && 0 <= Decode(w).size <= 3
    requires Gives(moves, 17, TargetOf(Decode(w), src))
    requires Decode(ldr) == if Decode(w).size != 3 then LdrFpNeon(Decode(w).size + 2, Decode(w).rt, 17, 0)
                            else Other(ldr)
    ensures Preserves(w, src, moves + [ldr], dst, mem, true) <==> Decode(w).size != 3
  {
    hide Decode, Gives, Matches, Wrap, TargetOf, Exec, Run, EndOf, Links;
    var i, code := Decode(w), moves + [ldr];
    if i.size != 3 {
      forall s: State, other: Others | s.mem == mem
        ensures Matches(Links(i), true, Exec(i, src, s, other), Run(code, dst, s, other), EndOf(code, dst))
      {
        LdrFarRun(i, src, moves, ldr, dst, s, other);
      }
    } else {
      var s := State(map[], 0, map[], Flags(false, false, false, false), mem);
      var other: Others := (w: Word, s: State) => Result(s, FallThrough);
      LdrFarRun(i, src, moves, ldr, dst, s, other);
      assert !Matches(Links(i), true, Exec(i, src, s, other), Run(code, dst, s, other), EndOf(code, dst));
    }
  }

  lemma LdrFarRun(i: Insn, src: Addr, moves: seq<Word>, ldr: Word, dst: Addr, s: State, other: Others)
    requires i.LdrLiteral? && i.fpNeon == 1 && 0 <= i.size <= 3
    requires Gives(moves, 17, TargetOf(i, src))
    requires Decode(ldr) == if i.size != 3 then LdrFpNeon(i.size + 2, i.rt, 17, 0) else Other(ldr)
    requires i.size == 3 ==> forall w: Word, s: State :: other(w, s) == Result(s, FallThrough)
    ensures var code := moves + [ldr];
      Matches(Links(i), true, Exec(i, src, s, other), Run(code, dst, s, other), EndOf(code, dst)) <==> i.size != 3
  {
    var target, code := TargetOf(i, src), moves + [ldr];
    var pc: int, s' := EndOf(moves, dst), Set(s, 17, target);
    LdrFarExec(i, src, ldr, pc, s, other);
    hide Decode, Wrap, TargetOf, Gives, Run, EndOf, Exec, LoadFpNeon, Set;
    RunGives17(moves, [ldr], target, dst, s, other);
    EndOfMore(moves, ldr, dst);
    EndOfOne(ldr, pc);
    RunOne(ldr, pc, s', other);
    Visible17(s, target);
  }

  lemma LdrFarExec(i: Insn, src: Addr, ldr: Word, pc: Addr, s: State, other: Others)
    requires i.LdrLiteral? && i.fpNeon == 1 && 0 <= i.size <= 3
    requires Decode(ldr) == if i.size != 3 then LdrFpNeon(i.size + 2, i.rt, 17, 0) else Other(ldr)
    requires i.size == 3 ==> forall w: Word, s: State :: other(w, s) == Result(s, FallThrough)
    ensures var target := TargetOf(i, src);
      var s', before := Set(s, 17, target), Exec(i, src, s, other);
      var after := Exec(Decode(ldr), pc, s', other);
      && (i.size == 3 ==> before.flow.Undefined? && after.flow.FallThrough?)
      && (i.size != 3 ==>
            && before.flow.FallThrough? && after.flow.FallThrough?
            && after.s == State(s'.regs, s'.sp, before.s.simd, s'.flags, s'.mem)
            && before.s.regs == s.regs && before.s.sp == s.sp && before.s.flags == s.flags && before.s.mem == s.mem)
  {
    var target := TargetOf(i, src);
    assert target == Wrap(src + i.imm) && Wrap(target) == target;
    hide Decode, Wrap, TargetOf;
    SetAgain(s, 17, target, target);
  }
}
