/** Moving one A64 instruction to another address: the forms that CDetourDis of
    LoaderWatch.Inject/disasm.cpp chooses between, and exactly when they mean the same. */
module A64Relocate {
  import opened Words
  import opened A64
  import opened A64Coding
  import opened A64Moves

  // -------------------------------------------------------------------- distances

  predicate In(delta: int, bound: int) { -bound <= delta < bound }

  /** What the relocated branch aims at. */
  function TargetOf(i: Insn, src: Addr): Addr {
    match i
    case Adr(_, imm) => Wrap(src + imm)
    case Adrp(_, pages) => Wrap((src / 0x1000 + pages) * 0x1000)
    case Bcc(_, imm) => Wrap(src + imm)
    case Branch(_, imm) => Wrap(src + imm)
    case Cbz(_, _, _, imm) => Wrap(src + imm)
    case Tbz(_, _, _, imm) => Wrap(src + imm)
    case LdrLiteral(_, _, _, imm) => Wrap(src + imm)
    case _ => 0
  }

  // --------------------------------------------------------- conditional branches

  predicate Conditional(i: Insn) { i.Bcc? || i.Cbz? || i.Tbz? }

  predicate Taken(i: Insn, s: State)
    requires Conditional(i)
  {
    match i
    case Bcc(condition, _) => Holds(condition, s.flags)
    case Cbz(size, nz, rt, _) => (Sized(Get(s, rt), size) == 0) == (nz == 0)
    case Tbz(nz, rt, bit, _) => TestBit(Get(s, rt), bit) == (nz == 1)
  }

  function Redirect(i: Insn, imm: int): Insn
    requires Conditional(i)
  {
    match i
    case Bcc(condition, _) => Bcc(condition, imm)
    case Cbz(size, nz, rt, _) => Cbz(size, nz, rt, imm)
    case Tbz(nz, rt, bit, _) => Tbz(nz, rt, bit, imm)
  }

  function Xor1(x: int): int { if x % 2 == 0 then x + 1 else x - 1 }

  /** The opposite branch, over one instruction. */
  function Skip(i: Insn): Insn
    requires Conditional(i)
  {
    match i
    case Bcc(condition, _) => Bcc(Xor1(condition), 8)
    case Cbz(size, nz, rt, _) => Cbz(size, Xor1(nz), rt, 8)
    case Tbz(nz, rt, bit, _) => Tbz(Xor1(nz), rt, bit, 8)
  }

  /** B.AL and B.NV have no opposite. */
  predicate HasOpposite(i: Insn) { i.Bcc? ==> i.condition < 14 }

  predicate Reads17(i: Insn) { (i.Cbz? || i.Tbz?) && i.rt == 17 }

  predicate WellFormed(i: Insn) {
    && (i.Bcc? ==> 0 <= i.condition < 16)
    && (i.Cbz? ==> 0 <= i.nz <= 1 && 0 <= i.size <= 1)
    && (i.Tbz? ==> 0 <= i.nz <= 1 && i.bit < 64)
  }

  lemma SkipIsOpposite(i: Insn, s: State)
    requires Conditional(i) && WellFormed(i)
    ensures Taken(Skip(i), s) <==> !Taken(i, s) || !HasOpposite(i)
    ensures !HasOpposite(i) ==> Taken(i, s)
  {
    hide TestBit, Sized, Get;
    if i.Bcc? { assert Xor1(i.condition) / 2 == i.condition / 2; }
  }

  function Ones(k: nat): int { if k == 0 then 0 else 2 * Ones(k - 1) + 1 }

  lemma {:induction false} OnesBit(k: nat, bit: nat)
    requires bit < k
    ensures TestBit(Ones(k), bit) && !TestBit(0, bit)
    decreases bit
  {
    assert Ones(k) / 2 == Ones(k - 1);
    if bit > 0 { OnesBit(k - 1, bit - 1); }
  }

  lemma Ones64()
    ensures Ones(64) == TwoTo64 - 1
  {
    assert Ones(8) == 0xff && Ones(16) == 0xffff && Ones(24) == 0xff_ffff && Ones(32) == 0xffff_ffff;
    assert Ones(40) == 0xff_ffff_ffff && Ones(48) == 0xffff_ffff_ffff && Ones(56) == 0xff_ffff_ffff_ffff;
  }

  /** A branch on x17 is decided by the value of x17. */
  lemma X17Decides(i: Insn, s: State) returns (v: u64)
    requires Conditional(i) && WellFormed(i) && Reads17(i)
    ensures Taken(i, Set(s, 17, v)) != Taken(i, s)
  {
    if i.Cbz? {
      v := if Sized(Get(s, 17), i.size) == 0 then 1 else 0;
    } else {
      hide TestBit;
      Ones64();
      OnesBit(64, i.bit);
      v := if TestBit(Get(s, 17), i.bit) then 0 else TwoTo64 - 1;
    }
  }

  // ------------------------------------------------------------- short sequences

  lemma RunNothing(pc: Addr, s: State, other: Others, a: Addr)
    ensures Run([], pc, s, other) == Result(s, FallThrough)
    ensures Land([], pc, a, s, other) == Result(s, if a == pc then FallThrough else Goto(a))
  {
  }

  lemma RunFirst(w: Word, rest: seq<Word>, pc: Addr, s: State, other: Others)
    ensures var r := Exec(Decode(w), pc, s, other);
      Run([w] + rest, pc, s, other) ==
        match r.flow
        case FallThrough => Run(rest, Wrap(pc + 4), r.s, other)
        case Goto(a) => Land(rest, Wrap(pc + 4), a, r.s, other)
        case Undefined => r
  {
    hide Exec, Decode, Wrap, Land;
    assert ([w] + rest)[1..] == rest;
  }

  lemma RunOne(w: Word, pc: Addr, s: State, other: Others)
    ensures var r, r' := Exec(Decode(w), pc, s, other), Run([w], pc, s, other);
      && r'.s == r.s && r'.flow.Undefined? == r.flow.Undefined?
      && (!r.flow.Undefined? ==> PcOf(r'.flow, EndOf([w], pc)) == PcOf(r.flow, EndOf([w], pc)))
  {
    hide Exec, Decode, Wrap, Run, Land;
    var r := Exec(Decode(w), pc, s, other);
    EndOfOne(w, pc);
    assert [w] + [] == [w];
    RunFirst(w, [], pc, s, other);
    RunNothing(Wrap(pc + 4), r.s, other, if r.flow.Goto? then r.flow.target else 0);
  }

  /** An instruction and a jump, where the instruction may skip the jump. */
  lemma RunSkipJump(skip: Word, jump: Word, pc: Addr, s: State, other: Others, taken: bool, target: Addr)
    ensures var r := Run([skip, jump], pc, s, other);
      && Exec(Decode(skip), pc, s, other) == Result(s, if taken then FallThrough else Goto(Wrap(pc + 8)))
      && Exec(Decode(jump), Wrap(pc + 4), s, other) == Result(s, Goto(target)) ==>
        r.s == s && !r.flow.Undefined? && PcOf(r.flow, Wrap(pc + 8)) == if taken then target else Wrap(pc + 8)
  {
    WrapAdd(pc + 4, 4);
    WrapMoves(pc + 4);
    var next: Addr, end: Addr := Wrap(pc + 4), Wrap(pc + 8);
    hide Exec, Decode, Wrap, Run, Land;
    assert [skip] + [jump] == [skip, jump];
    RunFirst(skip, [jump], pc, s, other);
    if taken {
      RunOne(jump, next, s, other);
      EndOfOne(jump, next);
    } else {
      LandSkips(jump, next, end, s, other);
      RunNothing(end, s, other, end);
    }
  }

  lemma LandSkips(jump: Word, at: Addr, end: Addr, s: State, other: Others)
    requires end == Wrap(at + 4) && end != at
    ensures Land([jump], at, end, s, other) == Run([], end, s, other)
  {
    hide Run, Exec, Decode, Wrap;
    assert [jump][1..] == [];
    assert Land([], end, end, s, other) == Run([], end, s, other);
  }

  lemma WrapMoves(x: int)
    ensures Wrap(x + 4) != Wrap(x)
  {
  }

  lemma ExecConditional(i: Insn, pc: Addr, s: State, other: Others)
    requires Conditional(i)
    ensures Exec(i, pc, s, other) == Result(s, if Taken(i, s) then Goto(Wrap(pc + i.imm)) else FallThrough)
  {
    hide Holds, TestBit, Sized, Get;
  }

  lemma ExecBranch(i: Insn, pc: Addr, s: State, other: Others)
    requires i.Branch?
    ensures Exec(i, pc, s, other) == Result(if i.link then Set(s, 30, Wrap(pc + 4)) else s, Goto(Wrap(pc + i.imm)))
  {
  }

  // ------------------------------------------------------------ conditional forms

  /** The branch itself, with another offset. */
  lemma NearPreserves(w: Word, src: Addr, w': Word, dst: Addr, mem: Memory)
    requires Conditional(Decode(w)) && Decode(w') == Redirect(Decode(w), Delta(TargetOf(Decode(w), src), dst))
    ensures Preserves(w, src, [w'], dst, mem, false)
  {
    hide Decode, Taken, Exec, Run, Wrap, EndOf;
    var i, target := Decode(w), TargetOf(Decode(w), src);
    DeltaReaches(target, dst);
    forall s: State, other: Others | s.mem == mem
      ensures Matches(Links(i), false, Exec(i, src, s, other), Run([w'], dst, s, other), EndOf([w'], dst))
    {
      RunOne(w', dst, s, other);
      ExecConditional(i, src, s, other);
      ExecConditional(Decode(w'), dst, s, other);
      RedirectTaken(i, Delta(target, dst), s);
    }
  }

  lemma RedirectTaken(i: Insn, imm: int, s: State)
    requires Conditional(i)
    ensures Taken(Redirect(i, imm), s) == Taken(i, s)
  {
  }

  /** The two long forms leave the same state but for x17, and go where the branch goes, when
      what they skip on is the opposite of the branch. */
  lemma LongRun(i: Insn, dst: Addr, before: seq<Word>, skip: Word, jump: Word, s: State, s': State, other: Others,
                target: Addr)
    requires Conditional(i) && WellFormed(i) && Decode(skip) == Skip(i)
    requires Run(before + [skip, jump], dst, s, other) == Run([skip, jump], EndOf(before, dst), s', other)
    requires Exec(Decode(jump), Wrap(EndOf(before, dst) + 4), s', other) == Result(s', Goto(target))
    ensures var code := before + [skip, jump];
      var r, end := Run(code, dst, s, other), EndOf(code, dst);
      && r.s == s' && !r.flow.Undefined?
      && PcOf(r.flow, end) == if Taken(i, s') && HasOpposite(i) then target else end
  {
    var pc: int := EndOf(before, dst);
    EndOfMore(before, skip, dst);
    EndOfMore(before + [skip], jump, dst);
    assert before + [skip] + [jump] == before + [skip, jump];
    WrapAdd(pc + 4, 4);
    hide Decode, Taken, Exec, Run, Wrap, EndOf;
    SkipIsOpposite(i, s');
    ExecConditional(Decode(skip), pc, s', other);
    RunSkipJump(skip, jump, pc, s', other, Taken(i, s') && HasOpposite(i), target);
  }

  /** `B.cond <skip>; B target`. */
  lemma MidPreserves(w: Word, src: Addr, skip: Word, jump: Word, dst: Addr, mem: Memory)
    requires Conditional(Decode(w)) && WellFormed(Decode(w)) && Decode(skip) == Skip(Decode(w))
    requires Decode(jump) == Branch(false, Delta(TargetOf(Decode(w), src), Wrap(dst + 4)))
    requires Delta(TargetOf(Decode(w), src), dst) != 8
    ensures Preserves(w, src, [skip, jump], dst, mem, false) <==> HasOpposite(Decode(w))
  {
    var i, code := Decode(w), [skip, jump];
    hide Decode, Taken, Exec, Run, Wrap, EndOf, Delta, TargetOf, Matches, Links, HasOpposite;
    forall s: State, other: Others | s.mem == mem
      ensures Matches(Links(i), false, Exec(i, src, s, other), Run(code, dst, s, other), EndOf(code, dst)) <==>
        HasOpposite(i)
    {
      MidRun(i, src, skip, jump, dst, s, other);
    }
    OneState(w, src, code, dst, mem, false);
  }

  lemma MidRun(i: Insn, src: Addr, skip: Word, jump: Word, dst: Addr, s: State, other: Others)
    requires Conditional(i) && WellFormed(i) && Decode(skip) == Skip(i)
    requires Decode(jump) == Branch(false, Delta(TargetOf(i, src), Wrap(dst + 4)))
    requires Delta(TargetOf(i, src), dst) != 8
    ensures var code := [skip, jump];
      Matches(Links(i), false, Exec(i, src, s, other), Run(code, dst, s, other), EndOf(code, dst)) <==> HasOpposite(i)
  {
    var target, code := TargetOf(i, src), [skip, jump];
    hide Decode, Taken, Exec, Run, Wrap, EndOf, Delta, TargetOf, Skip;
    assert target == Wrap(src + i.imm) by { TargetIs(i, src); }
    assert [] + code == code;
    assert EndOf([], dst) == dst && target != EndOf(code, dst) by { MidEnd(skip, jump, dst, target); }
    assert Wrap(Wrap(dst + 4) + Delta(target, Wrap(dst + 4))) == target by { DeltaReaches(target, Wrap(dst + 4)); }
    ExecConditional(i, src, s, other);
    SkipIsOpposite(i, s);
    ExecBranch(Decode(jump), Wrap(dst + 4), s, other);
    LongRun(i, dst, [], skip, jump, s, s, other, target);
  }

  lemma MidEnd(skip: Word, jump: Word, dst: Addr, target: Addr)
    requires Delta(target, dst) != 8
    ensures EndOf([], dst) == dst && target != EndOf([skip, jump], dst)
  {
    hide Delta;
    DeltaOf(dst, 8);
  }

  /** A state and a meaning for the other instructions exist. */
  lemma OneState(w: Word, src: Addr, code: seq<Word>, dst: Addr, mem: Memory, x17Free: bool)
    ensures Preserves(w, src, code, dst, mem, x17Free) ==>
      exists s: State, other: Others {:trigger Run(code, dst, s, other)} ::
        s.mem == mem
        && Matches(Links(Decode(w)), x17Free, Exec(Decode(w), src, s, other), Run(code, dst, s, other),
                   EndOf(code, dst))
  {
    hide Decode, Exec, Run, EndOf, Matches;
    var s, other := State(map[], 0, map[], Flags(false, false, false, false), mem),
        (w: Word, s: State) => Result(s, FallThrough);
    if Preserves(w, src, code, dst, mem, x17Free) {
      assert Matches(Links(Decode(w)), x17Free, Exec(Decode(w), src, s, other), Run(code, dst, s, other),
                     EndOf(code, dst));
    }
  }

  lemma ExecBr17(w: Word, pc: Addr, s: State, other: Others, target: Addr, link: bool)
    requires Decode(w) == BranchReg(17, link)
    ensures var s' := Set(s, 17, target);
      Exec(Decode(w), pc, s', other) == Result(if link then Set(s', 30, Wrap(pc + 4)) else s', Goto(target))
  {
    hide Decode;
  }

  lemma TakenWithout17(i: Insn, s: State, v: u64)
    requires Conditional(i) && !Reads17(i)
    ensures Taken(i, Set(s, 17, v)) == Taken(i, s)
  {
    hide Holds, TestBit, Sized;
  }

  lemma RunGives17(moves: seq<Word>, rest: seq<Word>, v: u64, dst: Addr, s: State, other: Others)
    requires Gives(moves, 17, v)
    ensures Run(moves + rest, dst, s, other) == Run(rest, EndOf(moves, dst), Set(s, 17, v), other)
  {
    hide Exec, Run, Decode, Moves, MovesValue;
    RunMoves(moves, rest, 17, dst, s, other);
    assert MovesValue(moves, 17, Get(s, 17)) == v;
  }

  /** `MOV x17, target; B.cond <skip>; BR x17` in one state. */
  lemma FarRun(i: Insn, src: Addr, moves: seq<Word>, skip: Word, br: Word, dst: Addr, s: State, other: Others)
    requires Conditional(i) && WellFormed(i) && Decode(skip) == Skip(i) && Decode(br) == BranchReg(17, false)
    requires Gives(moves, 17, TargetOf(i, src)) && |moves| <= 4 && !In(Delta(TargetOf(i, src), dst), 0x1000)
    ensures var code, s' := moves + [skip, br], Set(s, 17, TargetOf(i, src));
      Matches(Links(i), true, Exec(i, src, s, other), Run(code, dst, s, other), EndOf(code, dst)) ==
      (Taken(i, s) <==> Taken(i, s') && HasOpposite(i))
  {
    var target, code := TargetOf(i, src), moves + [skip, br];
    var s' := Set(s, 17, target);
    hide Decode, Taken, Exec, Run, Wrap, EndOf, Delta, TargetOf, Gives, Set, Visible, Skip, HasOpposite;
    assert target != EndOf(code, dst) by { FarEnd(moves, skip, br, dst, target); }
    RunGives17(moves, [skip, br], target, dst, s, other);
    ExecConditional(i, src, s, other);
    assert target == Wrap(src + i.imm) by { TargetIs(i, src); }
    ExecBr17(br, Wrap(EndOf(moves, dst) + 4), s, other, target, false);
    LongRun(i, dst, moves, skip, br, s, s', other, target);
    Visible17(s, target);
  }

  lemma TargetIs(i: Insn, src: Addr)
    requires Conditional(i)
    ensures TargetOf(i, src) == Wrap(src + i.imm)
  {
  }

  /** A target that is further than the sequence is not its end. */
  lemma FarEnd(moves: seq<Word>, skip: Word, br: Word, dst: Addr, target: Addr)
    requires |moves| <= 4 && !In(Delta(target, dst), 0x1000)
    ensures target != EndOf(moves + [skip, br], dst)
  {
    hide Delta, Wrap;
    DeltaOf(dst, 4 * |moves| + 8);
  }

  lemma Visible17(s: State, v: u64)
    ensures var s' := Set(s, 17, v);
      && Visible(s'.regs, true) == Visible(s.regs, true) && s'.sp == s.sp && s'.simd == s.simd && s'.flags == s.flags
      && s'.mem == s.mem
  {
    assert s.regs[17 := v][17 := 0] == s.regs[17 := 0];
  }

  lemma FarPreserves(w: Word, src: Addr, moves: seq<Word>, skip: Word, br: Word, dst: Addr, mem: Memory)
    requires Conditional(Decode(w)) && WellFormed(Decode(w)) && Decode(skip) == Skip(Decode(w))
      && Decode(br) == BranchReg(17, false)
    requires Gives(moves, 17, TargetOf(Decode(w), src)) && |moves| <= 4
      && !In(Delta(TargetOf(Decode(w), src), dst), 0x1000)
    ensures Preserves(w, src, moves + [skip, br], dst, mem, true) <==> HasOpposite(Decode(w)) && !Reads17(Decode(w))
  {
    var i, code := Decode(w), moves + [skip, br];
    var target := TargetOf(i, src);
    assert Reads17(i) ==> HasOpposite(i);
    hide Decode, Taken, Exec, Run, Wrap, EndOf, Delta, TargetOf, Matches, Links, HasOpposite, Reads17, Gives, Skip;
    forall s: State, other: Others | s.mem == mem
      ensures Matches(Links(i), true, Exec(i, src, s, other), Run(code, dst, s, other), EndOf(code, dst)) ==
        (Taken(i, s) <==> Taken(i, Set(s, 17, target)) && HasOpposite(i))
    {
      FarRun(i, src, moves, skip, br, dst, s, other);
    }
    if Reads17(i) {
      FarReads17(w, src, code, dst, mem, target);
    } else {
      forall s: State ensures Taken(i, Set(s, 17, target)) == Taken(i, s) && (!HasOpposite(i) ==> Taken(i, s)) {
        TakenWithout17(i, s, target);
        SkipIsOpposite(i, s);
      }
      OneState(w, src, code, dst, mem, true);
    }
  }

  lemma FarReads17(w: Word, src: Addr, code: seq<Word>, dst: Addr, mem: Memory, target: Addr)
    requires Conditional(Decode(w)) && WellFormed(Decode(w)) && Reads17(Decode(w)) && HasOpposite(Decode(w))
    requires forall s: State, other: Others {:trigger Run(code, dst, s, other)} | s.mem == mem ::
      Matches(Links(Decode(w)), true, Exec(Decode(w), src, s, other), Run(code, dst, s, other), EndOf(code, dst)) ==
      (Taken(Decode(w), s) <==> Taken(Decode(w), Set(s, 17, target)) && HasOpposite(Decode(w)))
    ensures !Preserves(w, src, code, dst, mem, true)
  {
    hide Decode, Taken, Exec, Run, EndOf, Matches, HasOpposite;
    var s0: State := State(map[17 := target], 0, map[], Flags(false, false, false, false), mem);
    var other: Others := (w: Word, s: State) => Result(s, FallThrough);
    var v := X17Decides(Decode(w), s0);
    var s := Set(s0, 17, v);
    SetAgain(s0, 17, v, target);
    assert s0.regs[17 := target] == s0.regs;
    assert Set(s, 17, target) == s0;
    assert !Matches(Links(Decode(w)), true, Exec(Decode(w), src, s, other), Run(code, dst, s, other), EndOf(code, dst));
  }
}
