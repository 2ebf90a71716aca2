/** Every instruction that the relocator assembles decodes to what was meant. */
module A64Coding {
  import opened Words
  import opened A64

  /** The offset accessors of the encodings: shift the field up to the sign bit of a LONG, and
      arithmetically down again. */
  function ShiftedImm(field: int, up: int, down: int): int
    requires down > 0
  {
    Signed(field * up % 0x1_0000_0000, 0x1_0000_0000) / down
  }

  lemma ImmIsSignExtension(w: Word)
    ensures ShiftedImm(w / 0x20 % 0x8_0000, 0x2000, 0x800) == Imm19(Low(w))
    ensures ShiftedImm(w % 0x400_0000, 0x40, 0x10) == Imm26(Op(w), Low(w))
    ensures ShiftedImm(w / 0x20 % 0x4000, 0x4_0000, 0x1_0000) == Imm14(Low(w))
    ensures ShiftedImm(w / 0x20 % 0x8_0000 * 4 + w / 0x2000_0000 % 4, 0x800, 0x800) == Imm21(Op(w), Low(w))
  {
    hide ShiftedImm, Signed, Op, Low;
    ShiftUpDown19(Low(w) / 0x20);
    ShiftUpDown26(Op(w) % 4 * 0x100_0000 + Low(w));
    ShiftUpDown14(Low(w) / 0x20 % 0x4000);
    ShiftUpDown21(Low(w) / 0x20 * 4 + Op(w) / 0x20 % 4);
    FieldsInParts(w);
  }

  /** The bit-fields, by their place in the whole word and in its two parts. */
  lemma FieldsInParts(w: Word)
    ensures w / 0x20 % 0x8_0000 == Low(w) / 0x20 && w / 0x20 % 0x4000 == Low(w) / 0x20 % 0x4000
    ensures w % 0x400_0000 == Op(w) % 4 * 0x100_0000 + Low(w) && w / 0x2000_0000 == Op(w) / 0x20
  {
    var op, low := Op(w), Low(w);
    assert w == op * 0x100_0000 + low;
    hide Op, Low;
    LowFields(op, low, w);
    HighFields(op, low, w);
  }

  lemma LowFields(op: int, low: int, w: int)
    requires 0 <= low < 0x100_0000 && w == op * 0x100_0000 + low
    ensures w / 0x20 % 0x8_0000 == low / 0x20 && w / 0x20 % 0x4000 == low / 0x20 % 0x4000
  {
    assert w / 0x20 == op * 0x8_0000 + low / 0x20;
    var f := low / 0x20;
    assert op * 0x8_0000 + f == (op * 32) * 0x4000 + f;
  }

  lemma HighFields(op: int, low: int, w: int)
    requires 0 <= low < 0x100_0000 && w == op * 0x100_0000 + low
    ensures w % 0x400_0000 == op % 4 * 0x100_0000 + low && w / 0x2000_0000 == op / 0x20
  {
  }

  lemma ShiftUpDown19(f: int)
    requires 0 <= f < 0x8_0000
    ensures ShiftedImm(f, 0x2000, 0x800) == Signed(f, 0x8_0000) * 4
  {
  }

  lemma ShiftUpDown26(f: int)
    requires 0 <= f < 0x400_0000
    ensures ShiftedImm(f, 0x40, 0x10) == Signed(f, 0x400_0000) * 4
  {
  }

  lemma ShiftUpDown14(f: int)
    requires 0 <= f < 0x4000
    ensures ShiftedImm(f, 0x4_0000, 0x1_0000) == Signed(f, 0x4000) * 4
  {
  }

  lemma ShiftUpDown21(f: int)
    requires 0 <= f < 0x20_0000
    ensures ShiftedImm(f, 0x800, 0x800) == Signed(f, 0x20_0000)
  {
  }

  /** Writing a signed number into a field and reading it back. */
  lemma SignedField(x: int, m: int)
    requires m > 0 && m % 2 == 0 && -(m / 2) <= x < m / 2
    ensures 0 <= x % m < m && Signed(x % m, m) == x
  {
    if x < 0 { assert x % m == x + m by { ModNeg(x, m); } } else { ModPos(x, m); }
  }

  lemma ModPos(x: int, m: int)
    requires 0 <= x < m
    ensures x % m == x
  {
  }

  lemma ModNeg(x: int, m: int)
    requires -m <= x < 0
    ensures x % m == x + m
  {
    assert (x + m) / m == 0;
    assert x / m == -1;
  }

  /** The two parts of a word determine it. */
  lemma Parts(op: int, low: int)
    requires 0 <= op < 0x100 && 0 <= low < 0x100_0000
    ensures var w := op * 0x100_0000 + low;
      0 <= w < 0x1_0000_0000 && Op(w) == op && Low(w) == low && Decode(w) == DecodeParts(op, low, w)
  {
    hide DecodeParts;
  }

  lemma DecodeAdrParts(page: int, rd: Reg, f: int, lo: int, w: Word)
    requires 0 <= page <= 1 && 0 <= f < 0x8_0000 && 0 <= lo < 4
    ensures DecodeParts(page * 0x80 + lo * 0x20 + 0x10, rd + f * 0x20, w) ==
            if page == 0 then Adr(rd, Signed(f * 4 + lo, 0x20_0000)) else Adrp(rd, Signed(f * 4 + lo, 0x20_0000))
  {
    hide Signed;
    var op := page * 0x80 + lo * 0x20 + 0x10;
    assert op / 0x80 == page && op % 0x80 == lo * 0x20 + 0x10;
    assert op / 0x20 == page * 4 + lo;
    hide DecodeRest, Imm19, Imm26, Imm14;
  }

  lemma Signed21(f: int, lo: int)
    requires 0 <= f < 0x8_0000 && 0 <= lo < 4
    ensures Signed(f * 4 + lo, 0x20_0000) == Signed(f, 0x8_0000) * 4 + lo
  {
  }

  lemma DecodeAdr(page: int, rd: Reg, delta: int)
    requires 0 <= page <= 1 && -0x10_0000 <= delta < 0x10_0000
    ensures var w := AssembleAdr(page, rd, delta);
      0 <= w < 0x1_0000_0000 && Decode(w) == if page == 0 then Adr(rd, delta) else Adrp(rd, delta)
  {
    hide Decode, DecodeParts;
    SignedField(delta / 4, 0x8_0000);
    var f := delta / 4 % 0x8_0000;
    Parts(page * 0x80 + delta % 4 * 0x20 + 0x10, rd + f * 0x20);
    DecodeAdrParts(page, rd, f, delta % 4, AssembleAdr(page, rd, delta));
    Signed21(f, delta % 4);
  }

  lemma DecodeBccParts(condition: int, f: int, w: Word)
    requires 0 <= condition < 16 && 0 <= f < 0x8_0000
    ensures DecodeParts(0x54, condition + f * 0x20, w) == Bcc(condition, Signed(f, 0x8_0000) * 4)
  {
    hide Signed;
  }

  lemma DecodeBcc(condition: int, delta: int)
    requires 0 <= condition < 16 && -0x10_0000 <= delta < 0x10_0000 && delta % 4 == 0
    ensures var w := AssembleBcc(condition, delta);
      0 <= w < 0x1_0000_0000 && Decode(w) == Bcc(condition, delta)
  {
    hide Decode, DecodeParts;
    SignedField(delta / 4, 0x8_0000);
    var f := delta / 4 % 0x8_0000;
    Parts(0x54, condition + f * 0x20);
    DecodeBccParts(condition, f, AssembleBcc(condition, delta));
  }

  lemma DecodeBranchParts(link: int, high: int, low: int, w: Word)
    requires 0 <= link <= 1 && 0 <= high < 4 && 0 <= low < 0x100_0000
    ensures DecodeParts(link * 0x80 + 0x14 + high, low, w) ==
            Branch(link == 1, Signed(high * 0x100_0000 + low, 0x400_0000) * 4)
  {
    hide Signed, DecodeRest;
    var op := link * 0x80 + 0x14 + high;
    assert op / 0x80 == link && op % 0x80 == 0x14 + high && op % 4 == high;
    hide Imm19, Imm21, Imm14;
  }

  lemma DecodeBranch(link: int, delta: int)
    requires 0 <= link <= 1 && -0x800_0000 <= delta < 0x800_0000 && delta % 4 == 0
    ensures var w := AssembleBranch(link, delta);
      0 <= w < 0x1_0000_0000 && Decode(w) == Branch(link == 1, delta)
  {
    hide Decode, DecodeParts;
    SignedField(delta / 4, 0x400_0000);
    var f := delta / 4 % 0x400_0000;
    Parts(link * 0x80 + 0x14 + f / 0x100_0000, f % 0x100_0000);
    DecodeBranchParts(link, f / 0x100_0000, f % 0x100_0000, AssembleBranch(link, delta));
  }

  lemma DecodeBrParts(rn: Reg, link: int, w: Word)
    requires 0 <= link <= 1
    ensures DecodeParts(0xd6, 0x1f_0000 + link * 0x20_0000 + rn * 0x20, w) == BranchReg(rn, link == 1)
  {
  }

  lemma DecodeBr(rn: Reg, link: int)
    requires 0 <= link <= 1
    ensures var w := AssembleBr(rn, link);
      0 <= w < 0x1_0000_0000 && Decode(w) == BranchReg(rn, link == 1)
  {
    hide Decode, DecodeParts;
    Parts(0xd6, 0x1f_0000 + link * 0x20_0000 + rn * 0x20);
    DecodeBrParts(rn, link, AssembleBr(rn, link));
  }

  lemma DecodeCbzParts(size: int, nz: int, rt: Reg, f: int, w: Word)
    requires 0 <= size <= 1 && 0 <= nz <= 1 && 0 <= f < 0x8_0000
    ensures DecodeParts(size * 0x80 + 0x34 + nz, rt + f * 0x20, w) == Cbz(size, nz, rt, Signed(f, 0x8_0000) * 4)
  {
    hide Signed, DecodeRest;
    var op := size * 0x80 + 0x34 + nz;
    assert op / 0x80 == size && op % 0x80 == 0x34 + nz;
    hide Imm21, Imm26, Imm14;
  }

  lemma DecodeCbz(size: int, nz: int, rt: Reg, delta: int)
    requires 0 <= size <= 1 && 0 <= nz <= 1 && -0x10_0000 <= delta < 0x10_0000 && delta % 4 == 0
    ensures var w := AssembleCbz(size, nz, rt, delta);
      0 <= w < 0x1_0000_0000 && Decode(w) == Cbz(size, nz, rt, delta)
  {
    hide Decode, DecodeParts;
    SignedField(delta / 4, 0x8_0000);
    var f := delta / 4 % 0x8_0000;
    Parts(size * 0x80 + 0x34 + nz, rt + f * 0x20);
    DecodeCbzParts(size, nz, rt, f, AssembleCbz(size, nz, rt, delta));
  }

  lemma DecodeTbzParts(size: int, nz: int, rt: Reg, bit: int, f: int, w: Word)
    requires 0 <= size <= 1 && 0 <= nz <= 1 && 0 <= bit < 32 && 0 <= f < 0x4000
    ensures DecodeParts(size * 0x80 + 0x36 + nz, rt + f * 0x20 + bit * 0x8_0000, w) ==
            Tbz(nz, rt, size * 32 + bit, Signed(f, 0x4000) * 4)
  {
    hide Signed, DecodeRest;
    var op, low := size * 0x80 + 0x36 + nz, rt + f * 0x20 + bit * 0x8_0000;
    assert op / 0x80 == size && op % 0x80 == 0x36 + nz;
    hide Imm21, Imm26, Imm19;
    assert low / 0x20 == f + bit * 0x4000;
  }

  lemma DecodeTbz(size: int, nz: int, rt: Reg, bit: int, delta: int)
    requires 0 <= size <= 1 && 0 <= nz <= 1 && 0 <= bit < 32 && -0x8000 <= delta < 0x8000 && delta % 4 == 0
    ensures var w := AssembleTbz(size, nz, rt, bit, delta);
      0 <= w < 0x1_0000_0000 && Decode(w) == Tbz(nz, rt, size * 32 + bit, delta)
  {
    hide Decode, DecodeParts;
    SignedField(delta / 4, 0x4000);
    var f := delta / 4 % 0x4000;
    Parts(size * 0x80 + 0x36 + nz, rt + f * 0x20 + bit * 0x8_0000);
    DecodeTbzParts(size, nz, rt, bit, f, AssembleTbz(size, nz, rt, bit, delta));
  }

  lemma DecodeLdrLiteralParts(size: int, fpNeon: int, rt: Reg, f: int, w: Word)
    requires 0 <= size <= 3 && 0 <= fpNeon <= 1 && 0 <= f < 0x8_0000
    ensures DecodeParts(size * 0x40 + 0x18 + fpNeon * 4, rt + f * 0x20, w) ==
            LdrLiteral(size, fpNeon, rt, Signed(f, 0x8_0000) * 4)
  {
    hide Signed, DecodeRest;
    var op := size * 0x40 + 0x18 + fpNeon * 4;
    assert op / 0x80 == size / 2 && op % 0x80 == size % 2 * 0x40 + 0x18 + fpNeon * 4;
    hide Imm21, Imm26, Imm14;
  }

  lemma DecodeLdrLiteral(size: int, fpNeon: int, rt: Reg, delta: int)
    requires 0 <= size <= 3 && 0 <= fpNeon <= 1 && delta % 4 == 0
    ensures var w := AssembleLdrLiteral(size, fpNeon, rt, delta);
      0 <= w < 0x1_0000_0000 && Decode(w) == LdrLiteral(size, fpNeon, rt, Signed(delta / 4 % 0x8_0000, 0x8_0000) * 4)
  {
    hide Decode, DecodeParts;
    var f := delta / 4 % 0x8_0000;
    Parts(size * 0x40 + 0x18 + fpNeon * 4, rt + f * 0x20);
    DecodeLdrLiteralParts(size, fpNeon, rt, f, AssembleLdrLiteral(size, fpNeon, rt, delta));
  }

  /** The instructions that DecodeRest tells apart. */
  lemma DecodeTail(op: int, low: int, w: Word)
    requires 0 <= op < 0x100 && 0 <= low < 0x100_0000
    requires op % 0x80 == 0x11 || op % 0x80 == 0x12 || op % 0x80 == 0x52 || op % 0x80 == 0x72 || op % 0x80 == 0x3d
      || op % 0x80 == 0x7d
    ensures DecodeParts(op, low, w) == DecodeRest(op, low, w)
  {
    hide DecodeRest;
  }

  lemma DecodeLdrFpNeonParts(size: int, opc: int, rt: Reg, rn: Reg, imm: int, w: Word)
    requires 0 <= size < 4 && 0 <= opc <= 1 && (opc == 1 ==> size <= 1) && 0 <= imm < 0x1000
    ensures DecodeParts(size * 0x40 + 0x3d, rt + rn * 0x20 + imm * 0x400 + 0x40_0000 + opc * 0x80_0000, w) ==
            if opc == 0 || size == 0 then LdrFpNeon(size + opc * 4, rt, rn, imm) else Other(w)
  {
    var op, low := size * 0x40 + 0x3d, rt + rn * 0x20 + imm * 0x400 + 0x40_0000 + opc * 0x80_0000;
    assert op / 0x40 == size && op % 0x80 == size % 2 * 0x40 + 0x3d;
    assert low / 0x20 == rn + imm * 0x20 + 0x2_0000 + opc * 0x4_0000;
    assert low / 0x400 == imm + 0x1000 + opc * 0x2000;
    assert low / 0x40_0000 == 1 + opc * 2 && low / 0x80_0000 == opc;
    DecodeTail(op, low, w);
    hide DecodeParts;
  }

  lemma DecodeLdrFpNeon(size: int, rt: Reg, rn: Reg, imm: int)
    requires 0 <= size <= 5
    ensures var w := AssembleLdrFpNeon(size, rt, rn, imm);
      0 <= w < 0x1_0000_0000
      && Decode(w) == if size <= 4 then LdrFpNeon(size, rt, rn, imm % 0x1000) else Other(w)
  {
    hide Decode, DecodeParts;
    var f := imm % 0x1000;
    Parts(size % 4 * 0x40 + 0x3d, rt + rn * 0x20 + f * 0x400 + 0x40_0000 + size / 4 * 0x80_0000);
    DecodeLdrFpNeonParts(size % 4, size / 4, rt, rn, f, AssembleLdrFpNeon(size, rt, rn, imm));
  }

  lemma DecodeAddParts(size: int, rd: Reg, rn: Reg, imm: int, shift: int, w: Word)
    requires 0 <= size <= 1 && 0 <= imm < 0x1000 && 0 <= shift <= 1
    ensures DecodeParts(size * 0x80 + 0x11, rd + rn * 0x20 + imm * 0x400 + shift * 0x40_0000, w) ==
            AddImm(size, rd, rn, imm, shift)
  {
    var op, low := size * 0x80 + 0x11, rd + rn * 0x20 + imm * 0x400 + shift * 0x40_0000;
    assert op / 0x80 == size && op % 0x80 == 0x11;
    assert low / 0x20 == rn + imm * 0x20 + shift * 0x2_0000 && low / 0x400 == imm + shift * 0x1000;
    assert low / 0x40_0000 == shift && low / 0x80_0000 == 0;
    DecodeTail(op, low, w);
    hide DecodeParts;
  }

  lemma DecodeAdd(size: int, rd: Reg, rn: Reg, imm: int, shift: int)
    requires 0 <= size <= 1 && 0 <= shift <= 1
    ensures var w := AssembleAddImm(size, rd, rn, imm, shift);
      0 <= w < 0x1_0000_0000 && Decode(w) == AddImm(size, rd, rn, imm % 0x1000, shift)
  {
    hide Decode, DecodeParts;
    var f := imm % 0x1000;
    Parts(size * 0x80 + 0x11, rd + rn * 0x20 + f * 0x400 + shift * 0x40_0000);
    DecodeAddParts(size, rd, rn, f, shift, AssembleAddImm(size, rd, rn, imm, shift));
  }

  lemma DecodeMovParts(size: int, kind: int, rd: Reg, imm: int, shift: int, w: Word)
    requires 0 <= size <= 1 && (kind == 0 || kind == 2 || kind == 3) && 0 <= imm < 0x1_0000 && 0 <= shift < 2 + size * 2
    ensures DecodeParts(size * 0x80 + kind * 0x20 + 0x12, 0x80_0000 + rd + imm * 0x20 + shift * 0x20_0000, w) ==
            Mov(size, kind, rd, imm, shift)
  {
    var op, low := size * 0x80 + kind * 0x20 + 0x12, 0x80_0000 + rd + imm * 0x20 + shift * 0x20_0000;
    assert op / 0x80 == size && op % 0x80 == kind * 0x20 + 0x12;
    assert low / 0x20 == 0x4_0000 + imm + shift * 0x1_0000;
    assert low / 0x20_0000 == 4 + shift && low / 0x80_0000 == 1;
    assert low / 0x40_0000 == 2 + shift / 2;
    DecodeTail(op, low, w);
    hide DecodeParts;
  }

  lemma DecodeMov(size: int, kind: int, rd: Reg, imm: int, shift: int)
    requires 0 <= size <= 1 && (kind == 0 || kind == 2 || kind == 3) && 0 <= imm < 0x1_0000 && 0 <= shift < 2 + size * 2
    ensures var w := AssembleMov(size, kind, rd, imm, shift);
      0 <= w < 0x1_0000_0000 && Decode(w) == Mov(size, kind, rd, imm, shift)
  {
    hide Decode, DecodeParts;
    Parts(size * 0x80 + kind * 0x20 + 0x12, 0x80_0000 + rd + imm * 0x20 + shift * 0x20_0000);
    DecodeMovParts(size, kind, rd, imm, shift, AssembleMov(size, kind, rd, imm, shift));
  }
}
