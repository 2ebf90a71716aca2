/** EmitMovImmediate of LoaderWatch.Inject/disasm.cpp: any 64-bit value in one to four
    instructions. */
module A64Moves {
  import opened Words
  import opened A64
  import opened A64Coding

  // ------------------------------------------------- sequences of wide moves

  /** Wide moves into one register. */
  ghost predicate Moves(code: seq<Word>, rd: Reg) {
    forall i :: 0 <= i < |code| ==> Decode(code[i]).Mov? && Decode(code[i]).rd == rd
  }

  /** The value of the register after the moves, when it was `v` before. */
  ghost function MovesValue(code: seq<Word>, rd: Reg, v: u64): u64
    requires Moves(code, rd)
    decreases |code|
  {
    if code == [] then v else MovResult(Decode(code[|code| - 1]), MovesValue(code[..|code| - 1], rd, v))
  }

  /** Moving into a register has no other effect, and goes on with the next instruction. */
  lemma {:induction false} RunMoves(code: seq<Word>, rest: seq<Word>, rd: Reg, pc: Addr, s: State, other: Others)
    requires Moves(code, rd) && code != []
    ensures Run(code + rest, pc, s, other) ==
      Run(rest, EndOf(code, pc), Set(s, rd, MovesValue(code, rd, Get(s, rd))), other)
    decreases |code|
  {
    var n := |code| - 1;
    var most, last := code[..n], code[n];
    hide Run, MovesValue, MovResult, Decode, Wrap, Get, Set, EndOf, Moves;
    MovesParts(code, rd);
    assert code == most + [last];
    if most == [] {
      MovesValueStep(code, rd, Get(s, rd));
      assert code == [last];
      EndOfOne(last, pc);
      RunMove(last, rest, rd, pc, s, other);
    } else {
      assert code + rest == most + ([last] + rest);
      RunMoves(most, [last] + rest, rd, pc, s, other);
      assert Run(code + rest, pc, s, other) ==
             Run([last] + rest, EndOf(most, pc), Set(s, rd, MovesValue(most, rd, Get(s, rd))), other);
      MoreMoves(most, last, rest, rd, pc, s, other);
    }
  }

  lemma MoreMoves(most: seq<Word>, last: Word, rest: seq<Word>, rd: Reg, pc: Addr, s: State, other: Others)
    requires Moves(most, rd) && Moves(most + [last], rd) && Decode(last).Mov? && Decode(last).rd == rd
    ensures Run([last] + rest, EndOf(most, pc), Set(s, rd, MovesValue(most, rd, Get(s, rd))), other) ==
      Run(rest, EndOf(most + [last], pc), Set(s, rd, MovesValue(most + [last], rd, Get(s, rd))), other)
  {
    hide Run, MovesValue, MovResult, Decode, Wrap, Get, Set, EndOf, Moves;
    MovesValueStep(most + [last], rd, Get(s, rd));
    assert (most + [last])[..|most|] == most;
    OneMoreMove(last, rest, rd, EndOf(most, pc), s, MovesValue(most, rd, Get(s, rd)), other);
    EndOfMore(most, last, pc);
  }

  lemma OneMoreMove(w: Word, rest: seq<Word>, rd: Reg, pc: Addr, s: State, v: u64, other: Others)
    requires Decode(w).Mov? && Decode(w).rd == rd
    ensures Run([w] + rest, pc, Set(s, rd, v), other) ==
            Run(rest, Wrap(pc + 4), Set(s, rd, MovResult(Decode(w), v)), other)
  {
    hide Run, MovResult, Decode, Wrap, Get, Set;
    RunMove(w, rest, rd, pc, Set(s, rd, v), other);
    SetAgain(s, rd, v, MovResult(Decode(w), v));
    SetZero(s, rd);
    if rd != 31 { SetAgain(s, rd, v, MovResult(Decode(w), Get(Set(s, rd, v), rd))); }
  }

  lemma SetZero(s: State, rd: Reg)
    ensures rd == 31 ==> forall v: u64 :: Set(s, rd, v) == s
  {
  }

  lemma EndOfOne(w: Word, pc: Addr)
    ensures EndOf([w], pc) == Wrap(pc + 4)
  {
  }

  lemma EndOfMore(code: seq<Word>, w: Word, pc: Addr)
    ensures EndOf(code + [w], pc) == Wrap(EndOf(code, pc) + 4)
  {
    WrapAdd(pc + 4 * |code|, 4);
  }

  lemma MovesParts(code: seq<Word>, rd: Reg)
    requires Moves(code, rd) && code != []
    ensures Moves(code[..|code| - 1], rd)
    ensures var last := code[|code| - 1]; Decode(last).Mov? && Decode(last).rd == rd
  {
    hide Decode;
  }

  lemma MovesValueStep(code: seq<Word>, rd: Reg, v: u64)
    requires Moves(code, rd) && code != []
    ensures var most, last := code[..|code| - 1], code[|code| - 1];
      && MovesValue(code, rd, v) == MovResult(Decode(last), MovesValue(most, rd, v))
      && (most == [] ==> MovesValue(most, rd, v) == v)
  {
    hide Decode, MovResult;
  }

  lemma RunMove(w: Word, rest: seq<Word>, rd: Reg, pc: Addr, s: State, other: Others)
    requires Decode(w).Mov? && Decode(w).rd == rd
    ensures Run([w] + rest, pc, s, other) ==
            Run(rest, Wrap(pc + 4), Set(s, rd, MovResult(Decode(w), Get(s, rd))), other)
  {
    hide MovResult, Decode, Wrap, Get, Set;
    assert ([w] + rest)[1..] == rest;
  }

  lemma SetAgain(s: State, rd: Reg, a: u64, b: u64)
    ensures Set(Set(s, rd, a), rd, b) == Set(s, rd, b)
    ensures rd != 31 ==> Get(Set(s, rd, a), rd) == a
    ensures rd == 31 ==> Set(s, rd, a) == s
  {
    assert s.regs[rd := a][rd := b] == s.regs[rd := b];
  }

  // ------------------------------------------------------- values by their pieces

  ghost predicate Pieces(q: seq<int>) { |q| == 4 && forall k :: 0 <= k < 4 ==> 0 <= q[k] < 0x1_0000 }

  ghost function Join(q: seq<int>): (v: u64)
    requires Pieces(q)
  {
    q[0] + q[1] * 0x1_0000 + q[2] * 0x1_0000_0000 + q[3] * 0x1_0000_0000_0000
  }

  lemma JoinSplit(v: u64)
    ensures var q := [Piece(v, 0), Piece(v, 1), Piece(v, 2), Piece(v, 3)]; Pieces(q) && Join(q) == v
  {
    var a := v / 0x1_0000;
    var b := a / 0x1_0000;
    assert v / 0x1_0000_0000 == b;
    var c := b / 0x1_0000;
    assert v / 0x1_0000_0000_0000 == c;
  }

  lemma PieceOfJoin(q: seq<int>, k: int)
    requires Pieces(q) && 0 <= k < 4
    ensures Piece(Join(q), k) == q[k]
  {
    PieceOfSum(q[0], q[1], q[2], q[3]);
  }

  lemma PieceOfSum(a: int, b: int, c: int, d: int)
    requires 0 <= a < 0x1_0000 && 0 <= b < 0x1_0000 && 0 <= c < 0x1_0000 && 0 <= d < 0x1_0000
    ensures var v: u64 := a + b * 0x1_0000 + c * 0x1_0000_0000 + d * 0x1_0000_0000_0000;
      Piece(v, 0) == a && Piece(v, 1) == b && Piece(v, 2) == c && Piece(v, 3) == d
  {
    var v: u64 := a + b * 0x1_0000 + c * 0x1_0000_0000 + d * 0x1_0000_0000_0000;
    PieceAbove(a, b + c * 0x1_0000 + d * 0x1_0000_0000);
    PieceAbove(b, c + d * 0x1_0000);
    PieceAbove(c, d);
    assert v / 0x1_0000_0000 == v / 0x1_0000 / 0x1_0000;
    assert v / 0x1_0000_0000_0000 == v / 0x1_0000_0000 / 0x1_0000;
  }

  lemma PieceAbove(low: int, high: int)
    requires 0 <= low < 0x1_0000
    ensures (low + high * 0x1_0000) % 0x1_0000 == low && (low + high * 0x1_0000) / 0x1_0000 == high
  {
  }

  ghost function AllPieces(d: int): (q: seq<int>)
    requires 0 <= d < 0x1_0000
    ensures Pieces(q)
  {
    [d, d, d, d]
  }

  lemma JoinUpdate(q: seq<int>, k: int, p: int)
    requires Pieces(q) && 0 <= k < 4 && 0 <= p < 0x1_0000
    ensures Pieces(q[k := p]) && Join(q[k := p]) == Join(q) + (p - q[k]) * Pow16(k)
  {
  }

  /** What MOVK, MOVZ and MOVN do to the pieces. */
  lemma MovkPiece(rd: Reg, q: seq<int>, k: int, p: int)
    requires Pieces(q) && 0 <= k < 4 && 0 <= p < 0x1_0000
    ensures Pieces(q[k := p]) && MovResult(Mov(1, 3, rd, p, k), Join(q)) == Join(q[k := p])
  {
    PieceOfJoin(q, k);
    JoinUpdate(q, k, p);
    hide Join, Piece, Pow16;
  }

  lemma MovzPiece(rd: Reg, k: int, p: int, v: u64)
    requires 0 <= k < 4 && 0 <= p < 0x1_0000
    ensures Pieces(AllPieces(0)[k := p]) && MovResult(Mov(1, 2, rd, p, k), v) == Join(AllPieces(0)[k := p])
  {
    JoinUpdate(AllPieces(0), k, p);
    assert Join(AllPieces(0)) == 0;
    hide Join, Pow16;
  }

  lemma MovnPiece(rd: Reg, k: int, p: int, v: u64)
    requires 0 <= k < 4 && 0 <= p < 0x1_0000
    ensures Pieces(AllPieces(0xffff)[k := p])
    ensures MovResult(Mov(1, 0, rd, 0xffff - p, k), v) == Join(AllPieces(0xffff)[k := p])
  {
    JoinUpdate(AllPieces(0xffff), k, p);
    assert Join(AllPieces(0xffff)) == TwoTo64 - 1;
    hide Join, Pow16;
  }

  /** MOVN of a 32-bit register also clears the upper half. */
  lemma MovnShort(rd: Reg, p: int, v: u64)
    requires 0 <= p < 0x1_0000
    ensures MovResult(Mov(0, 0, rd, 0xffff - p, 0), v) == p + 0xffff_0000
  {
    assert TwoTo64 - 1 - (0xffff - p) == 0xffff_ffff * 0x1_0000_0000 + (0xffff_0000 + p);
  }

  // ------------------------------------------------------------------ the emitter

  function Count(b: bool): int { if b then 1 else 0 }

  function Matching(piece: seq<int>, d: int): int
    requires |piece| == 4
  {
    Count(piece[3] == d) + Count(piece[2] == d) + Count(piece[1] == d) + Count(piece[0] == d)
  }

  /** The moves written so far give `v`, whatever was in the register. */
  ghost predicate Gives(code: seq<Word>, rd: Reg, v: u64) {
    code != [] && Moves(code, rd) && forall w: u64 :: MovesValue(code, rd, w) == v
  }

  lemma GivesOne(w: Word, rd: Reg, v: u64)
    requires Decode(w).Mov? && Decode(w).rd == rd && (forall x: u64 :: MovResult(Decode(w), x) == v)
    ensures Gives([w], rd, v)
  {
    hide MovResult, Decode;
    assert [w][..0] == [];
    forall x: u64 ensures MovesValue([w], rd, x) == v {
      assert MovesValue([w][..0], rd, x) == x;
    }
  }

  lemma GivesMore(code: seq<Word>, w: Word, rd: Reg, v: u64, v': u64)
    requires Gives(code, rd, v) && Decode(w).Mov? && Decode(w).rd == rd && MovResult(Decode(w), v) == v'
    ensures Gives(code + [w], rd, v')
  {
    hide MovResult, Decode;
    var code' := code + [w];
    assert code'[..|code|] == code;
    assert Moves(code', rd);
    forall x: u64 ensures MovesValue(code', rd, x) == v' {
      assert MovesValue(code, rd, x) == v;
    }
  }

  /** The pieces from `k` up, above default ones. */
  ghost function Partly(piece: seq<int>, d: int, k: int): (q: seq<int>)
    requires |piece| == 4 && 0 <= k <= 4
    ensures |q| == 4
  {
    seq(4, j requires 0 <= j < 4 => if j < k then d else piece[j])
  }

  lemma PartlyDown(piece: seq<int>, d: int, k: int)
    requires Pieces(piece) && 0 <= d < 0x1_0000 && 0 <= k < 4
    ensures Partly(piece, d, k) == Partly(piece, d, k + 1)[k := piece[k]]
    ensures piece[k] == d ==> Partly(piece, d, k) == Partly(piece, d, k + 1)
    ensures Pieces(Partly(piece, d, k)) && Pieces(Partly(piece, d, k + 1))
  {
  }

  lemma PartlyEnds(piece: seq<int>, d: int)
    requires Pieces(piece) && 0 <= d < 0x1_0000
    ensures Partly(piece, d, 4) == AllPieces(d) && Partly(piece, d, 0) == piece
  {
  }

  lemma PartlyAll(piece: seq<int>, d: int, k: int)
    requires Pieces(piece) && 0 <= d < 0x1_0000 && 0 <= k <= 4 && Differing(piece, d, k) == 0
    ensures Partly(piece, d, k) == AllPieces(d)
  {
  }

  /** How many of the pieces from `k` up differ from the default. */
  ghost function Differing(piece: seq<int>, d: int, k: int): (n: nat)
    requires |piece| == 4 && 0 <= k <= 4
    ensures n <= 4 - k && (n == 0 ==> forall j :: k <= j < 4 ==> piece[j] == d)
    decreases 4 - k
  {
    if k == 4 then 0 else Count(piece[k] != d) + Differing(piece, d, k + 1)
  }

  lemma DifferingIsRest(piece: seq<int>, d: int)
    requires |piece| == 4
    ensures Differing(piece, d, 0) == 4 - Matching(piece, d)
  {
    assert Differing(piece, d, 3) == Count(piece[3] != d);
    assert Differing(piece, d, 2) == Count(piece[2] != d) + Differing(piece, d, 3);
    assert Differing(piece, d, 1) == Count(piece[1] != d) + Differing(piece, d, 2);
  }

  /** One piece of the value, as the first move or over the pieces that are there. */
  method EmitPiece(code: seq<Word>, first: bool, rd: Reg, defaultPiece: int, curPiece: int, pieceNum: int,
                   ghost done: seq<int>)
    returns (code': seq<Word>)
    requires (defaultPiece == 0 || defaultPiece == 0xffff) && 0 <= curPiece < 0x1_0000 && 0 <= pieceNum < 4
    requires Pieces(done) && first == (code == [])
      && (if first then done == AllPieces(defaultPiece) else Gives(code, rd, Join(done)))
    ensures Pieces(done[pieceNum := curPiece]) && Gives(code', rd, Join(done[pieceNum := curPiece]))
      && |code'| == |code| + 1
  {
    hide Decode, MovResult, MovesValue, Moves, Gives, Join;
    if first {
      if defaultPiece == 0xffff {
        EmitFirst(0, rd, curPiece, pieceNum);
        code' := EmitInstruction(code, AssembleMov(1, 0, rd, 0xffff - curPiece, pieceNum));
      } else {
        EmitFirst(2, rd, curPiece, pieceNum);
        code' := EmitInstruction(code, AssembleMov(1, 2, rd, curPiece, pieceNum));
      }
      assert code' == [code'[0]];
    } else {
      DecodeMov(1, 3, rd, curPiece, pieceNum);
      MovkPiece(rd, done, pieceNum, curPiece);
      GivesMore(code, AssembleMov(1, 3, rd, curPiece, pieceNum), rd, Join(done), Join(done[pieceNum := curPiece]));
      code' := EmitInstruction(code, AssembleMov(1, 3, rd, curPiece, pieceNum));
    }
  }

  method EmitInstruction(code: seq<Word>, instruction: Word) returns (code': seq<Word>)
    ensures code' == code + [instruction]
  {
    code' := code + [instruction];
  }

  function SplitPieces(v: u64): seq<int> { [Piece(v, 0), Piece(v, 1), Piece(v, 2), Piece(v, 3)] }

  /** The fewest moves: one for each piece that is not the more frequent one of 0 and 0xffff. */
  function MoveCount(piece: seq<int>): int
    requires |piece| == 4
  {
    var saved := if Matching(piece, 0xffff) > Matching(piece, 0) then Matching(piece, 0xffff) else Matching(piece, 0);
    if (piece[3] == 0 && piece[2] == 0 && piece[1] == 0xffff) || saved == 4 then 1 else 4 - saved
  }

  /** How many that is: one for a value of 32 bits whose upper half is ones, otherwise one for each half
      that is not zero, and at least one; and one for a value that is all ones but for its lowest piece. */
  lemma ShortMoves(v: u64)
    ensures v < 0x1_0000_0000 ==>
      MoveCount(SplitPieces(v)) ==
        if v >= 0xffff_0000 then 1 else if v < 0x1_0000 || v % 0x1_0000 == 0 then 1 else 2
    ensures v >= 0xffff_ffff_ffff_0000 ==> MoveCount(SplitPieces(v)) == 1
  {
    if v < 0x1_0000_0000 {
      assert Piece(v, 3) == 0 && Piece(v, 2) == 0 && Piece(v, 1) == v / 0x1_0000 && Piece(v, 0) == v % 0x1_0000;
    } else if v >= 0xffff_ffff_ffff_0000 {
      assert Piece(v, 3) == 0xffff && Piece(v, 2) == 0xffff && Piece(v, 1) == 0xffff;
    }
    hide Piece;
  }

  /** EmitMovImmediate: the register gets the value, in `MoveCount` instructions. */
  method EmitMovImmediate(rd: Reg, immediate: u64) returns (code: seq<Word>)
    ensures Gives(code, rd, immediate)
    ensures |code| == MoveCount(SplitPieces(immediate)) && 1 <= |code| <= 4
  {
    hide Decode, MovResult, MovesValue, Moves, Gives, Join, Piece, Partly, Differing;
    var piece := SplitPieces(immediate);
    JoinSplit(immediate);
    code := [];
    if piece[3] == 0 && piece[2] == 0 && piece[1] == 0xffff {
      EmitShort(rd, piece);
      code := EmitInstruction(code, AssembleMov(0, 0, rd, 0xffff - piece[0], 0));
      assert code == [code[0]];
    } else {
      var zero_pieces, ffff_pieces := Matching(piece, 0), Matching(piece, 0xffff);
      var defaultPiece := if ffff_pieces > zero_pieces then 0xffff else 0;
      var first := true;
      PartlyEnds(piece, defaultPiece);
      DifferingIsRest(piece, defaultPiece);
      for pieceNum := 4 downto 0
        invariant first == (code == []) && (pieceNum == 0 ==> !first)
        invariant !first ==>
          Pieces(Partly(piece, defaultPiece, pieceNum)) && Gives(code, rd, Join(Partly(piece, defaultPiece, pieceNum)))
        invariant var n := Differing(piece, defaultPiece, pieceNum); |code| == if pieceNum == 0 && n == 0 then 1 else n
      {
        var curPiece := piece[pieceNum];
        PartlyDown(piece, defaultPiece, pieceNum);
        DifferingDown(piece, defaultPiece, pieceNum);
        if first { PartlyAll(piece, defaultPiece, pieceNum + 1); }
        if curPiece != defaultPiece || (pieceNum == 0 && first) {
          code := EmitPiece(code, first, rd, defaultPiece, curPiece, pieceNum,
                            Partly(piece, defaultPiece, pieceNum + 1));
          first := false;
        }
      }
    }
  }

  lemma DifferingDown(piece: seq<int>, d: int, k: int)
    requires |piece| == 4 && 0 <= k < 4
    ensures Differing(piece, d, k) == Count(piece[k] != d) + Differing(piece, d, k + 1)
  {
  }

  lemma EmitShort(rd: Reg, q: seq<int>)
    requires Pieces(q) && q[3] == 0 && q[2] == 0 && q[1] == 0xffff
    ensures var w := AssembleMov(0, 0, rd, 0xffff - q[0], 0); 0 <= w < 0x1_0000_0000 && Gives([w], rd, Join(q))
  {
    hide Decode, MovResult, MovesValue, Moves, Gives;
    DecodeMov(0, 0, rd, 0xffff - q[0], 0);
    var w := AssembleMov(0, 0, rd, 0xffff - q[0], 0);
    forall v: u64 ensures MovResult(Decode(w), v) == Join(q) {
      MovnShort(rd, q[0], v);
    }
    GivesOne(w, rd, Join(q));
  }

  lemma EmitFirst(kind: int, rd: Reg, p: int, k: int)
    requires (kind == 0 || kind == 2) && 0 <= p < 0x1_0000 && 0 <= k < 4
    ensures var w, q := AssembleMov(1, kind, rd, if kind == 0 then 0xffff - p else p, k),
        AllPieces(if kind == 0 then 0xffff else 0)[k := p];
      0 <= w < 0x1_0000_0000 && Pieces(q) && Gives([w], rd, Join(q))
  {
    hide Decode, MovResult, MovesValue, Moves, Gives, Join;
    var imm, q := if kind == 0 then 0xffff - p else p, AllPieces(if kind == 0 then 0xffff else 0)[k := p];
    DecodeMov(1, kind, rd, imm, k);
    forall v: u64 ensures MovResult(Mov(1, kind, rd, imm, k), v) == Join(q) {
      if kind == 0 { MovnPiece(rd, k, p, v); } else { MovzPiece(rd, k, p, v); }
    }
    GivesOne(AssembleMov(1, kind, rd, imm, k), rd, Join(q));
  }
}
