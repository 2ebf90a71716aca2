/** Which words are which instructions, how far they reach, and what a literal load leaves in its
    register: the other direction of the encodings in A64Coding, and the values in terms of memory. */
module A64Exact {
  import opened Words
  import opened A64
  import opened A64Coding
  import opened A64Moves
  import opened A64Relocate
  import opened A64Forms
  import opened A64Dis
  import Prologue = A64Prologue

  /** The offset in the field `f` goes back into it. */
  lemma FieldBack(f: int, m: int)
    requires m > 1 && m % 2 == 0 && 0 <= f < m
    ensures Signed(f, m) * 4 / 4 % m == f && -m / 2 <= Signed(f, m) < m / 2
  {
    if f >= m / 2 {
      assert f - m == -1 * m + f;
      Remainder(f - m, m, -1, f);
    } else {
      Remainder(f, m, 0, f);
    }
  }

  /** The word that the fields of a relocated instruction make, and the reach of its offset. */
  predicate Assembles(i: Insn, w: Word) {
    match i
    case Adr(rd, imm) => w == AssembleAdr(0, rd, imm) && In(imm, 0x10_0000)
    case Adrp(rd, pages) => w == AssembleAdr(1, rd, pages) && In(pages, 0x10_0000)
    case Bcc(condition, imm) => w == AssembleBcc(condition, imm) && In(imm, 0x10_0000)
    case Branch(link, imm) => w == AssembleBranch(if link then 1 else 0, imm) && In(imm, 0x800_0000)
    case BranchReg(rn, link) => w == AssembleBr(rn, if link then 1 else 0)
    case Cbz(size, nz, rt, imm) => w == AssembleCbz(size, nz, rt, imm) && In(imm, 0x10_0000)
    case Tbz(nz, rt, bit, imm) => w == AssembleTbz(bit / 32, nz, rt, bit % 32, imm) && In(imm, 0x8000)
    case LdrLiteral(size, fpNeon, rt, imm) => w == AssembleLdrLiteral(size, fpNeon, rt, imm) && In(imm, 0x10_0000)
    case _ => true
  }

  /** Every word that is decoded as one of the relocated instructions is the one that is assembled
      from its fields. */
  lemma Reassembled(w: Word)
    ensures Assembles(Decode(w), w)
  {
    var op, low := Op(w), Low(w);
    assert w == op * 0x100_0000 + low;
    hide Decode, DecodeParts, Assembles;
    Parts(op, low);
    var x := op % 0x80;
    if x % 0x20 == 0x10 {
      AdrParts(op, low, w);
    } else if op == 0x54 && low / 16 % 2 == 0 {
      BccParts(low, w);
    } else if 0x14 <= x <= 0x17 {
      BranchParts(op, low, w);
    } else if 0x34 <= x <= 0x35 {
      CbzParts(op, low, w);
    } else if 0x36 <= x <= 0x37 {
      TbzParts(op, low, w);
    } else if x == 0x18 || x == 0x1c || x == 0x58 || x == 0x5c {
      LdrParts(op, low, w);
    } else {
      assert DecodeParts(op, low, w) == DecodeRest(op, low, w) by { RestIsLast(op, low, w); }
      RestParts(op, low, w);
    }
  }

  lemma RestIsLast(op: int, low: int, w: Word)
    requires 0 <= op < 0x100 && 0 <= low < 0x100_0000
    requires var x := op % 0x80;
      && x % 0x20 != 0x10 && !(op == 0x54 && low / 16 % 2 == 0) && !(0x14 <= x <= 0x17) && !(0x34 <= x <= 0x37)
      && x != 0x18 && x != 0x1c && x != 0x58 && x != 0x5c
    ensures DecodeParts(op, low, w) == DecodeRest(op, low, w)
  {
    hide DecodeRest, Imm21, Imm26, Imm19, Imm14;
  }

  lemma AdrParts(op: int, low: int, w: Word)
    requires 0 <= op < 0x100 && 0 <= low < 0x100_0000 && w == op * 0x100_0000 + low && op % 0x80 % 0x20 == 0x10
    ensures Assembles(DecodeParts(op, low, w), w)
  {
    hide DecodeRest, Imm21, AssembleAdr;
    AdrBack(op, low, w);
  }

  lemma BccParts(low: int, w: Word)
    requires 0 <= low < 0x100_0000 && w == 0x54 * 0x100_0000 + low && low / 16 % 2 == 0
    ensures Assembles(DecodeParts(0x54, low, w), w)
  {
    hide DecodeRest, Signed;
    FieldBack(low / 0x20, 0x8_0000);
    assert low == low % 16 + low / 0x20 * 0x20;
    hide Imm21, Imm26, Imm14;
  }

  lemma BranchParts(op: int, low: int, w: Word)
    requires 0 <= op < 0x100 && 0 <= low < 0x100_0000 && w == op * 0x100_0000 + low && 0x14 <= op % 0x80 <= 0x17
    ensures Assembles(DecodeParts(op, low, w), w)
  {
    hide DecodeRest, Signed;
    FieldBack(op % 4 * 0x100_0000 + low, 0x400_0000);
    assert op == op / 0x80 * 0x80 + 0x14 + op % 4;
    hide Imm21, Imm19, Imm14;
  }

  lemma CbzParts(op: int, low: int, w: Word)
    requires 0 <= op < 0x100 && 0 <= low < 0x100_0000 && w == op * 0x100_0000 + low && 0x34 <= op % 0x80 <= 0x35
    ensures Assembles(DecodeParts(op, low, w), w)
  {
    hide DecodeRest, Signed;
    FieldBack(low / 0x20, 0x8_0000);
    assert low == low % 32 + low / 0x20 * 0x20;
    hide Imm21, Imm26, Imm14;
  }

  lemma TbzParts(op: int, low: int, w: Word)
    requires 0 <= op < 0x100 && 0 <= low < 0x100_0000 && w == op * 0x100_0000 + low && 0x36 <= op % 0x80 <= 0x37
    ensures Assembles(DecodeParts(op, low, w), w)
  {
    hide DecodeRest, Signed;
    FieldBack(low / 0x20 % 0x4000, 0x4000);
    TbzBack(low);
    var bit := op / 0x80 * 32 + low / 0x8_0000;
    assert bit / 32 == op / 0x80 && bit % 32 == low / 0x8_0000;
    hide Imm21, Imm26, Imm19;
  }

  lemma LdrParts(op: int, low: int, w: Word)
    requires 0 <= op < 0x100 && 0 <= low < 0x100_0000 && w == op * 0x100_0000 + low
    requires var x := op % 0x80; x == 0x18 || x == 0x1c || x == 0x58 || x == 0x5c
    ensures Assembles(DecodeParts(op, low, w), w)
  {
    hide DecodeRest, Signed;
    FieldBack(low / 0x20, 0x8_0000);
    assert low == low % 32 + low / 0x20 * 0x20;
    hide Imm21, Imm26, Imm14;
  }

  lemma RestParts(op: int, low: int, w: Word)
    requires 0 <= op < 0x100 && 0 <= low < 0x100_0000 && w == op * 0x100_0000 + low
    requires DecodeParts(op, low, w) == DecodeRest(op, low, w)
    ensures Assembles(DecodeParts(op, low, w), w)
  {
    hide DecodeParts, DecodeRest, AssembleBr;
    RestBack(op, low, w);
  }

  lemma AdrBack(op: int, low: int, w: Word)
    requires 0 <= op < 0x100 && 0 <= low < 0x100_0000 && w == op * 0x100_0000 + low && op % 0x20 == 0x10
    ensures var imm := Imm21(op, low); w == AssembleAdr(op / 0x80, low % 32, imm) && In(imm, 0x10_0000)
  {
    var f, lo := low / 0x20, op / 0x20 % 4;
    var x := f * 4 + lo;
    var imm := Imm21(op, low);
    assert imm == x || imm == x - 0x20_0000;
    assert imm % 4 == lo;
    assert imm / 4 % 0x8_0000 == f by {
      if imm == x {
        Remainder(imm / 4, 0x8_0000, 0, f);
      } else {
        assert imm / 4 == f - 0x8_0000;
        Remainder(imm / 4, 0x8_0000, -1, f);
      }
    }
    assert op == 0x10 + lo * 0x20 + op / 0x80 * 0x80;
  }

  lemma TbzBack(low: int)
    requires 0 <= low < 0x100_0000
    ensures low == low % 32 + low / 0x20 % 0x4000 * 0x20 + low / 0x8_0000 * 0x8_0000 && 0 <= low / 0x8_0000 < 32
  {
    assert low / 0x8_0000 == low / 0x20 / 0x4000;
  }

  lemma RestBack(op: int, low: int, w: Word)
    requires 0 <= op < 0x100 && 0 <= low < 0x100_0000 && w == op * 0x100_0000 + low
    ensures var i := DecodeRest(op, low, w);
      && !i.Adr? && !i.Adrp? && !Conditional(i) && !i.Branch? && !i.LdrLiteral?
      && (i.BranchReg? ==> w == AssembleBr(i.rn, if i.link then 1 else 0))
  {
    RestFields(op, low, w);
    if op == 0xd6 && low % 32 == 0 {
      assert low / 0x20 / 0x20 == low / 0x400;
      assert low == low / 0x20 * 0x20 && low / 0x20 == low / 0x400 * 0x20 + low / 0x20 % 32;
    }
  }

  /** There is an instruction with that offset in the place of `i`. */
  ghost predicate Encodable(i: Insn) { exists w: Word :: Decode(w) == i }

  /** The short forms are taken exactly where there are instructions for them; TBZ and TBNZ only
      within a quarter of their reach, and a literal load even up to twice its own. */
  lemma NearExactly(w: Word, src: Addr, dst: Addr)
    requires src % 4 == 0 && dst % 4 == 0
    ensures var i := Decode(w);
      var delta := Delta(TargetOf(i, src), dst);
      && (i.Bcc? ==> (IsNear(i, src, dst) <==> Encodable(Bcc(i.condition, delta))))
      && (i.Cbz? ==> (IsNear(i, src, dst) <==> Encodable(Cbz(i.size, i.nz, i.rt, delta))))
      && (i.Tbz? ==> (IsNear(i, src, dst) <==> Encodable(Tbz(i.nz, i.rt, i.bit, 4 * delta))))
      && (i.Branch? ==> (IsNear(i, src, dst) <==> Encodable(Branch(i.link, delta))))
      && (i.LdrLiteral? ==> (IsNearLiteral(i, src, dst) <==> -0x10_0000 <= delta / 2 < 0x10_0000))
      && (i.LdrLiteral? ==> (In(delta, 0x10_0000) <==> Encodable(LdrLiteral(i.size, i.fpNeon, i.rt, delta))))
  {
    DecodedFields(w);
    var i := Decode(w);
    hide Decode, Signed, Wrap, Delta, Encodable;
    if Conditional(i) || i.Branch? || i.LdrLiteral? {
      TargetAligned(src, i.imm);
      var to := TargetOf(i, src);
      DeltaReaches(to, dst);
      OffsetEncodable(i, Delta(to, dst));
    }
  }

  lemma OffsetEncodable(i: Insn, d: int)
    requires WellFormed(i) && d % 4 == 0 && (i.LdrLiteral? ==> 0 <= i.size <= 3 && 0 <= i.fpNeon <= 1)
    ensures i.Bcc? ==> (In(d, 0x10_0000) <==> Encodable(Bcc(i.condition, d)))
    ensures i.Cbz? ==> (In(d, 0x10_0000) <==> Encodable(Cbz(i.size, i.nz, i.rt, d)))
    ensures i.Tbz? ==> (In(d, 0x2000) <==> Encodable(Tbz(i.nz, i.rt, i.bit, 4 * d)))
    ensures i.Branch? ==> (In(d, 0x800_0000) <==> Encodable(Branch(i.link, d)))
    ensures i.LdrLiteral? ==> (In(d, 0x10_0000) <==> Encodable(LdrLiteral(i.size, i.fpNeon, i.rt, d)))
  {
    hide Decode, AssembleBcc, AssembleCbz, AssembleTbz, AssembleBranch, AssembleLdrLiteral;
    forall w: Word ensures Assembles(Decode(w), w) { Reassembled(w); }
    match i
    case Bcc(condition, _) => if In(d, 0x10_0000) { DecodeBcc(condition, d); }
    case Cbz(size, nz, rt, _) => if In(d, 0x10_0000) { DecodeCbz(size, nz, rt, d); }
    case Tbz(nz, rt, bit, _) => if In(d, 0x2000) { DecodeTbz(bit / 32, nz, rt, bit % 32, 4 * d); }
    case Branch(link, _) => if In(d, 0x800_0000) { DecodeBranch(if link then 1 else 0, d); }
    case LdrLiteral(size, fpNeon, rt, _) =>
      if In(d, 0x10_0000) {
        DecodeLdrLiteral(size, fpNeon, rt, d);
        SignedField(d / 4, 0x8_0000);
      }
    case _ =>
  }

  /** The B behind a conditional branch, and the ADRP, likewise. */
  lemma MidExactly(w: Word, src: Addr, dst: Addr)
    requires src % 4 == 0 && dst % 4 == 0
    ensures var i := Decode(w);
      && (Conditional(i) ==>
            (IsMid(i, src, dst) <==> Encodable(Branch(false, Delta(TargetOf(i, src), Wrap(dst + 4))))))
      && (i.Adr? ==> (IsNear(i, src, dst) <==> Encodable(Adr(i.rd, Delta(TargetOf(i, src), dst)))))
      && (i.Adr? || i.Adrp? ==>
            (IsNearPage(i, src, dst) <==> Encodable(Adrp(i.rd, TargetOf(i, src) / 0x1000 - dst / 0x1000))))
  {
    DecodedFields(w);
    var i := Decode(w);
    hide Decode, Signed, Wrap, Delta, Encodable;
    var to := TargetOf(i, src);
    if Conditional(i) {
      TargetAligned(src, i.imm);
      TargetAligned(dst, 4);
      DeltaReaches(to, Wrap(dst + 4));
      OffsetEncodable(Branch(false, 0), Delta(to, Wrap(dst + 4)));
    } else if i.Adr? || i.Adrp? {
      AdrEncodable(i.rd, Delta(to, dst));
      AdrEncodable(i.rd, to / 0x1000 - dst / 0x1000);
    }
  }

  lemma AdrEncodable(rd: Reg, d: int)
    ensures In(d, 0x10_0000) <==> Encodable(Adr(rd, d))
    ensures In(d, 0x10_0000) <==> Encodable(Adrp(rd, d))
  {
    hide Decode, AssembleAdr;
    forall w: Word ensures Assembles(Decode(w), w) { Reassembled(w); }
    if In(d, 0x10_0000) {
      DecodeAdr(0, rd, d);
      DecodeAdr(1, rd, d);
    }
  }

  /** The sizes of SIMD loads, and the conditions, by number: EQ, NE, CS, CC, MI, PL, VS, VC, HI, LS,
      GE, LT, GT, LE, AL and NV. */
  lemma ConditionTable(f: Flags)
    ensures Holds(0, f) == f.z && Holds(1, f) == !f.z && Holds(2, f) == f.c && Holds(3, f) == !f.c
    ensures Holds(4, f) == f.n && Holds(5, f) == !f.n && Holds(6, f) == f.v && Holds(7, f) == !f.v
    ensures Holds(8, f) == (f.c && !f.z) && Holds(9, f) == (!f.c || f.z)
    ensures Holds(10, f) == (f.n == f.v) && Holds(11, f) == (f.n != f.v)
    ensures Holds(12, f) == (!f.z && f.n == f.v) && Holds(13, f) == (f.z || f.n != f.v)
    ensures Holds(14, f) && Holds(15, f)
    ensures SizeInBytes(0) == 1 && SizeInBytes(1) == 2 && SizeInBytes(2) == 4 && SizeInBytes(3) == 8
    ensures SizeInBytes(4) == 16
  {
  }

  /** CBZ branches where the register, or its lower half, is zero, and CBNZ where it is not; TBZ where
      the bit is clear, and TBNZ where it is set. */
  lemma TestTable(rt: Reg, bit: nat, imm: int, pc: Addr, s: State, other: Others)
    requires rt in s.regs && rt != 31
    ensures var x, there := s.regs[rt], Goto(Wrap(pc + imm));
      && Exec(Cbz(1, 0, rt, imm), pc, s, other) == Result(s, if x == 0 then there else FallThrough)
      && Exec(Cbz(1, 1, rt, imm), pc, s, other) == Result(s, if x != 0 then there else FallThrough)
      && Exec(Cbz(0, 0, rt, imm), pc, s, other) == Result(s, if x % 0x1_0000_0000 == 0 then there else FallThrough)
      && Exec(Cbz(0, 1, rt, imm), pc, s, other) == Result(s, if x % 0x1_0000_0000 != 0 then there else FallThrough)
      && Exec(Tbz(0, rt, bit, imm), pc, s, other) == Result(s, if x / Power(bit) % 2 == 0 then there else FallThrough)
      && Exec(Tbz(1, rt, bit, imm), pc, s, other) == Result(s, if x / Power(bit) % 2 == 1 then there else FallThrough)
  {
    BitOf(s.regs[rt], bit);
    hide TestBit, Power;
  }

  function Power(n: nat): (p: nat)
    ensures p > 0
  {
    if n == 0 then 1 else 2 * Power(n - 1)
  }

  lemma {:induction false} BitOf(x: nat, bit: nat)
    ensures TestBit(x, bit) <==> x / Power(bit) % 2 == 1
    decreases bit
  {
    if bit > 0 {
      BitOf(x / 2, bit - 1);
      DivTwice(x, Power(bit - 1));
    }
  }

  lemma DivTwice(x: nat, p: nat)
    requires p > 0
    ensures x / 2 / p == x / (2 * p)
  {
    var q, r := x / (2 * p), x % (2 * p);
    assert x == 2 * (p * q) + r;
    assert x / 2 == p * q + r / 2;
    Quotient(x / 2, p, q, r / 2);
  }

  lemma Quotient(x: int, m: int, q: int, r: int)
    requires m > 0 && x == m * q + r && 0 <= r < m
    ensures x / m == q
  {
    var k := x / m - q;
    assert k * m == r - x % m;
    MultipleGrows(k, m);
  }

  /** The words that end a function: RET of any register, and every B; none that is decoded as
      anything else. */
  lemma EndsExactly(w: Word)
    ensures Prologue.EndsFunction(w) <==>
      (exists rn: Reg :: w == 0xd65f_0000 + rn * 0x20) || (Decode(w).Branch? && !Decode(w).link)
    ensures Prologue.EndsFunction(w) ==> Decode(w).Other? || Decode(w).Branch?
    ensures w == 0xd503_201f || w == 0 <==> Prologue.IsFiller(w)
    ensures Prologue.IsFiller(w) ==> Decode(w).Other? && !Prologue.EndsFunction(w)
  {
    hide Decode;
    WhichBranch(w);
    WhichRet(w);
    if Prologue.IsFiller(w) { PaddingIsOther(w); }
  }

  lemma WhichBranch(w: Word)
    ensures w / 0x400_0000 == 5 <==> Decode(w).Branch? && !Decode(w).link
  {
    var op, low := Op(w), Low(w);
    assert w == op * 0x100_0000 + low && w / 0x400_0000 == op / 4;
    hide Decode, DecodeParts;
    Parts(op, low);
    Reassembled(w);
    if op / 4 == 5 {
      assert op == 0x14 + op % 4;
      DecodeBranchParts(0, op % 4, low, w);
    }
    hide Op, Low, Signed;
  }

  lemma WhichRet(w: Word)
    ensures w / 0x400 == 0xd65f_0000 / 0x400 && w % 0x20 == 0 <==> exists rn: Reg :: w == 0xd65f_0000 + rn * 0x20
    ensures w / 0x400 == 0xd65f_0000 / 0x400 && w % 0x20 == 0 ==> Decode(w).Other?
  {
    hide Decode;
    if w / 0x400 == 0xd65f_0000 / 0x400 && w % 0x20 == 0 {
      var rn: Reg := w / 0x20 % 0x20;
      assert w == 0xd65f_0000 + rn * 0x20;
      RetIsOther(rn);
    }
  }

  lemma PaddingIsOther(w: Word)
    requires Prologue.IsFiller(w)
    ensures Decode(w).Other? && !Prologue.EndsFunction(w)
  {
    hide Decode, DecodeParts, DecodeRest;
    var op, low := if w == 0 then 0 else 0xd5, if w == 0 then 0 else 0x3_201f;
    Parts(op, low);
    RestIsLast(op, low, w);
    PaddingRest(op, low, w);
  }

  lemma PaddingRest(op: int, low: int, w: Word)
    requires (op == 0 && low == 0) || (op == 0xd5 && low == 0x3_201f)
    ensures DecodeRest(op, low, w).Other?
  {
  }

  lemma RetIsOther(rn: Reg)
    ensures Decode(0xd65f_0000 + rn * 0x20).Other?
  {
    hide Decode, DecodeParts;
    var w: Word := 0xd65f_0000 + rn * 0x20;
    Parts(0xd6, 0x5f_0000 + rn * 0x20);
    RestIsLast(0xd6, 0x5f_0000 + rn * 0x20, w);
  }
}
