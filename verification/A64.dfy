/** The part of the A64 instruction set that relocation needs: the encodings that
    LoaderWatch.Inject/disasm.cpp writes, how the processor decodes and executes them
    (section C6.2 of Arm DDI 0487), and runs of a short sequence of instructions. */
module A64 {

  import opened Words

  /** An instruction word. */
  type Word = u32
  /** A register number; 31 is the zero register, or the stack pointer in an ADD. */
  type Reg = x: int | 0 <= x < 32

  // -------------------------------------------------------------------- encodings

  function AssembleAddImm(size: int, rd: int, rn: int, imm: int, shift: int): int {
    rd + rn * 0x20 + imm % 0x1000 * 0x400 + shift * 0x40_0000 + 0x1100_0000 + size * 0x8000_0000
  }

  function AssembleAdr(page: int, rd: int, delta: int): int {
    rd + delta / 4 % 0x8_0000 * 0x20 + 0x1000_0000 + delta % 4 * 0x2000_0000 + page * 0x8000_0000
  }

  function AssembleBcc(condition: int, delta: int): int {
    condition + delta / 4 % 0x8_0000 * 0x20 + 0x5400_0000
  }

  function AssembleBranch(link: int, delta: int): int {
    delta / 4 % 0x400_0000 + 0x1400_0000 + link * 0x8000_0000
  }

  function AssembleBr(rn: int, link: int): int {
    rn * 0x20 + 0xd61f_0000 + link * 0x20_0000
  }

  function AssembleCbz(size: int, nz: int, rt: int, delta: int): int {
    rt + delta / 4 % 0x8_0000 * 0x20 + nz * 0x100_0000 + 0x3400_0000 + size * 0x8000_0000
  }

  function AssembleLdrLiteral(size: int, fpNeon: int, rt: int, delta: int): int {
    rt + delta / 4 % 0x8_0000 * 0x20 + fpNeon * 0x400_0000 + 0x1800_0000 + size * 0x4000_0000
  }

  /** `size` is 0 to 4 for 8 to 128 bits. */
  function AssembleLdrFpNeon(size: int, rt: int, rn: int, imm: int): int {
    rt + rn * 0x20 + imm % 0x1000 * 0x400 + 0x40_0000 + size / 4 % 2 * 0x80_0000 + 0x3d00_0000 + size % 4 * 0x4000_0000
  }

  function AssembleMov(size: int, kind: int, rd: int, imm: int, shift: int): int {
    rd + imm % 0x1_0000 * 0x20 + shift * 0x20_0000 + 0x1280_0000 + kind * 0x2000_0000 + size * 0x8000_0000
  }

  function AssembleTbz(size: int, nz: int, rt: int, bit: int, delta: int): int {
    rt + delta / 4 % 0x4000 * 0x20 + bit * 0x8_0000 + nz * 0x100_0000 + 0x3600_0000 + size * 0x8000_0000
  }

  // --------------------------------------------------------------------- decoding

  /** An instruction with its byte (or page) offset already sign-extended. */
  datatype Insn =
    | Adr(rd: Reg, imm: int)
    | Adrp(rd: Reg, pages: int)
    | Bcc(condition: int, imm: int)
    | Branch(link: bool, imm: int)
    | BranchReg(rn: Reg, link: bool)
    | Cbz(size: int, nz: int, rt: Reg, imm: int)
    | Tbz(nz: int, rt: Reg, bit: nat, imm: int)
    | LdrLiteral(size: int, fpNeon: int, rt: Reg, imm: int)
    | LdrFpNeon(size: int, rt: Reg, rn: Reg, imm: int)
    | AddImm(size: int, rd: Reg, rn: Reg, imm: int, shift: int)
    | Mov(size: int, kind: int, rd: Reg, imm: int, shift: int)
    | Other(word: Word)

  /** A word is its top eight bits, which tell most instructions apart, and the rest. */
  function Op(w: Word): (op: int) ensures 0 <= op < 0x100 { w / 0x100_0000 }
  function Low(w: Word): (low: int) ensures 0 <= low < 0x100_0000 { w % 0x100_0000 }

  /** The offset fields. */
  function Imm19(low: int): int { Signed(low / 0x20, 0x8_0000) * 4 }
  function Imm26(op: int, low: int): int { Signed(op % 4 * 0x100_0000 + low, 0x400_0000) * 4 }
  function Imm14(low: int): int { Signed(low / 0x20 % 0x4000, 0x4000) * 4 }
  function Imm21(op: int, low: int): int { Signed(low / 0x20 * 4 + op / 0x20 % 4, 0x20_0000) }

  function Decode(w: Word): Insn {
    DecodeParts(Op(w), Low(w), w)
  }

  function DecodeParts(op: int, low: int, w: Word): Insn
    requires 0 <= op < 0x100 && 0 <= low < 0x100_0000
  {
    var size, x := op / 0x80, op % 0x80;
    var rt := low % 32;
    if x % 0x20 == 0x10 then
      if size == 0 then Adr(rt, Imm21(op, low)) else Adrp(rt, Imm21(op, low))
    else if op == 0x54 && low / 16 % 2 == 0 then Bcc(low % 16, Imm19(low))
    else if 0x14 <= x <= 0x17 then Branch(size == 1, Imm26(op, low))
    else if 0x34 <= x <= 0x35 then Cbz(size, x - 0x34, rt, Imm19(low))
    else if 0x36 <= x <= 0x37 then Tbz(x - 0x36, rt, size * 32 + low / 0x8_0000, Imm14(low))
    else if x == 0x18 || x == 0x1c || x == 0x58 || x == 0x5c then
      LdrLiteral(size * 2 + x / 0x40, if x == 0x18 || x == 0x58 then 0 else 1, rt, Imm19(low))
    else DecodeRest(op, low, w)
  }

  /** Instructions that do not depend on where they are, but for the link of a BLR. */
  function DecodeRest(op: int, low: int, w: Word): Insn
    requires 0 <= op < 0x100 && 0 <= low < 0x100_0000
  {
    var size, x := op / 0x80, op % 0x80;
    var rt := low % 32;
    var rn := low / 0x20 % 32;
    if op == 0xd6 && rt == 0 && low / 0x400 == 0x7c0 then BranchReg(rn, false)
    else if op == 0xd6 && rt == 0 && low / 0x400 == 0xfc0 then BranchReg(rn, true)
    else if (x == 0x12 || x == 0x52 || x == 0x72) && low / 0x80_0000 == 1
      && (size == 1 || low / 0x40_0000 % 2 == 0) then
      Mov(size, x / 0x20, rt, low / 0x20 % 0x1_0000, low / 0x20_0000 % 4)
    else if x == 0x11 && low / 0x80_0000 == 0 then
      AddImm(size, rt, rn, low / 0x400 % 0x1000, low / 0x40_0000)
    else if (x == 0x3d || x == 0x7d) && low / 0x40_0000 % 2 == 1 && (low / 0x80_0000 == 0 || op < 0x40) then
      LdrFpNeon(op / 0x40 + low / 0x80_0000 * 4, rt, rn, low / 0x400 % 0x1000)
    else Other(w)
  }

  // -------------------------------------------------------------------- execution

  /** What is read from memory: words, double words, and SIMD registers of 4, 8 or 16 bytes. */
  datatype Memory = Memory(word: Addr -> u32, dword: Addr -> u64, fpNeon: (int, Addr) -> int)

  datatype Flags = Flags(n: bool, z: bool, c: bool, v: bool)

  datatype State = State(regs: map<Reg, u64>, sp: u64, simd: map<Reg, int>, flags: Flags, mem: Memory)

  datatype Flow = FallThrough | Goto(target: Addr) | Undefined

  datatype Result = Result(s: State, flow: Flow)

  /** What all the instructions do that do not depend on where they are. */
  type Others = (Word, State) -> Result

  function Get(s: State, r: Reg): u64 { if r == 31 || r !in s.regs then 0 else s.regs[r] }

  function Set(s: State, r: Reg, v: u64): State {
    if r == 31 then s else State(s.regs[r := v], s.sp, s.simd, s.flags, s.mem)
  }

  function BaseOrSp(s: State, r: Reg): u64 { if r == 31 then s.sp else Get(s, r) }

  /** ConditionHolds: each condition but the two always-conditions is the opposite of its neighbour. */
  predicate Holds(condition: int, f: Flags) {
    var base := match condition / 2
      case 0 => f.z
      case 1 => f.c
      case 2 => f.n
      case 3 => f.v
      case 4 => f.c && !f.z
      case 5 => f.n == f.v
      case 6 => f.n == f.v && !f.z
      case _ => true;
    if condition % 2 == 1 && condition != 15 then !base else base
  }

  predicate TestBit(v: int, bit: nat)
    decreases bit
  {
    if bit == 0 then v % 2 == 1 else TestBit(v / 2, bit - 1)
  }

  /** The part of a register that a 32-bit instruction looks at. */
  function Sized(v: u64, size: int): u64 { if size == 1 then v else v % 0x1_0000_0000 }

  /** LDR (literal) of a general register; size 2 is LDRSW. */
  function LoadGeneral(mem: Memory, size: int, a: Addr): u64 {
    if size == 0 then mem.word(a) else if size == 1 then mem.dword(a) else Wrap(Signed(mem.word(a), 0x1_0000_0000))
  }

  function Pow16(k: int): int {
    if k == 0 then 1 else if k == 1 then 0x1_0000 else if k == 2 then 0x1_0000_0000 else 0x1_0000_0000_0000
  }

  function Piece(v: u64, k: int): int { v / Pow16(k) % 0x1_0000 }

  /** MOVN, MOVZ and MOVK. */
  function MovResult(i: Insn, was: u64): u64
    requires i.Mov?
  {
    var shifted := i.imm * Pow16(i.shift);
    if i.kind == 3 then Sized(Wrap(was + shifted - Piece(was, i.shift) * Pow16(i.shift)), i.size)
    else if i.kind == 2 then Sized(Wrap(shifted), i.size)
    else Sized(Wrap(TwoTo64 - 1 - shifted), i.size)
  }

  function Exec(i: Insn, pc: Addr, s: State, other: Others): Result {
    match i
    case Adr(rd, imm) => Result(Set(s, rd, Wrap(pc + imm)), FallThrough)
    case Adrp(rd, pages) => Result(Set(s, rd, Wrap((pc / 0x1000 + pages) * 0x1000)), FallThrough)
    case Bcc(condition, imm) => Result(s, if Holds(condition, s.flags) then Goto(Wrap(pc + imm)) else FallThrough)
    case Branch(link, imm) => Result(if link then Set(s, 30, Wrap(pc + 4)) else s, Goto(Wrap(pc + imm)))
    case BranchReg(rn, link) => Result(if link then Set(s, 30, Wrap(pc + 4)) else s, Goto(Get(s, rn)))
    case Cbz(size, nz, rt, imm) =>
      Result(s, if (Sized(Get(s, rt), size) == 0) == (nz == 0) then Goto(Wrap(pc + imm)) else FallThrough)
    case Tbz(nz, rt, bit, imm) =>
      Result(s, if TestBit(Get(s, rt), bit) == (nz == 1) then Goto(Wrap(pc + imm)) else FallThrough)
    case LdrLiteral(size, fpNeon, rt, imm) => LoadLiteral(size, fpNeon, rt, Wrap(pc + imm), s)
    case LdrFpNeon(size, rt, rn, imm) => LoadFpNeon(size, rt, Wrap(BaseOrSp(s, rn) + imm * SizeInBytes(size)), s)
    case AddImm(size, rd, rn, imm, shift) =>
      var sum := Sized(Wrap(BaseOrSp(s, rn) + (if shift == 1 then imm * 0x1000 else imm)), size);
      Result(if rd == 31 then State(s.regs, sum, s.simd, s.flags, s.mem) else Set(s, rd, sum), FallThrough)
    case Mov(_, _, rd, _, _) => Result(Set(s, rd, MovResult(i, Get(s, rd))), FallThrough)
    case Other(w) => other(w, s)
  }

  function SizeInBytes(size: int): int {
    if size == 0 then 1 else if size == 1 then 2 else if size == 2 then 4 else if size == 3 then 8 else 16
  }

  /** PRFM (size 3) has no effect that a program sees; with size 3 there is no SIMD load. */
  function LoadLiteral(size: int, fpNeon: int, rt: Reg, a: Addr, s: State): Result {
    if fpNeon == 0 then
      Result(if size == 3 then s else Set(s, rt, LoadGeneral(s.mem, size, a)), FallThrough)
    else LoadFpNeon(size + 2, rt, a, s)
  }

  function LoadFpNeon(size: int, rt: Reg, a: Addr, s: State): Result {
    if size > 4 then Result(s, Undefined)
    else Result(State(s.regs, s.sp, s.simd[rt := s.mem.fpNeon(size, a)], s.flags, s.mem), FallThrough)
  }

  // ------------------------------------------------------------------------- runs

  /** Executes a sequence of instructions that starts at `pc` until control leaves it.  A jump
      to a later instruction of the sequence, or to its end, stays inside. */
  function Run(code: seq<Word>, pc: Addr, s: State, other: Others): Result
    decreases |code|, 0
  {
    if code == [] then Result(s, FallThrough) else
    var r := Exec(Decode(code[0]), pc, s, other);
    match r.flow
    case FallThrough => Run(code[1..], Wrap(pc + 4), r.s, other)
    case Goto(a) => Land(code[1..], Wrap(pc + 4), a, r.s, other)
    case Undefined => r
  }

  /** A jump to `a` from just before `code`, which starts at `at`. */
  function Land(code: seq<Word>, at: Addr, a: Addr, s: State, other: Others): Result
    decreases |code|, 1
  {
    if a == at then Run(code, at, s, other)
    else if code == [] then Result(s, Goto(a))
    else Land(code[1..], Wrap(at + 4), a, s, other)
  }

  function EndOf(code: seq<Word>, pc: Addr): Addr { Wrap(pc + 4 * |code|) }

  /** Where execution goes on, if the sequence ends at `end`. */
  function PcOf(flow: Flow, end: Addr): Addr
    requires !flow.Undefined?
  {
    if flow.FallThrough? then end else flow.target
  }

  predicate Links(i: Insn) { (i.Branch? && i.link) || (i.BranchReg? && i.link) }

  /** The registers as a program sees them that does not use x17 across this instruction. */
  function Visible(regs: map<Reg, u64>, x17Free: bool): map<Reg, u64> {
    if x17Free then regs[17 := 0] else regs
  }

  /** The relocated sequence did what the instruction did: the same place to go on (falling
      out of the end for going on to the next instruction), and the same state, except that a
      link is a return address after the sequence. */
  ghost predicate Matches(links: bool, x17Free: bool, before: Result, after: Result, end: Addr) {
    && before.flow.Undefined? == after.flow.Undefined?
    && (!before.flow.Undefined? ==>
          && PcOf(after.flow, end) == PcOf(before.flow, end)
          && after.s.sp == before.s.sp && after.s.simd == before.s.simd
          && after.s.flags == before.s.flags && after.s.mem == before.s.mem
          && Visible(after.s.regs, x17Free) ==
             Visible(if links then before.s.regs[30 := end] else before.s.regs, x17Free))
  }

  /** `code` at `dst` means what the instruction `w` at `src` means, in every state that has
      the literals of `mem`. */
  ghost predicate Preserves(w: Word, src: Addr, code: seq<Word>, dst: Addr, mem: Memory, x17Free: bool) {
    forall s: State, other: Others {:trigger Run(code, dst, s, other)} | s.mem == mem ::
      Matches(Links(Decode(w)), x17Free, Exec(Decode(w), src, s, other), Run(code, dst, s, other), EndOf(code, dst))
  }
}
