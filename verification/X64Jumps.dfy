/** Relative jumps on x64: the ones that detours.cpp writes, the ones that disasm.cpp widens or
    adjusts, and the bounds within which none of them loses bits (LoaderWatch.Inject). */
module X64Jumps {
  import opened Words

  type byte = x: int | 0 <= x < 0x100

  /** Code bytes by address. */
  type Bytes = map<int, byte>

  function Byte(m: Bytes, a: int): byte { if a in m then m[a] else 0 }

  /** Memory holds these bytes from `a` on. */
  ghost predicate BytesAt(m: Bytes, a: int, s: seq<byte>) { forall k :: 0 <= k < |s| ==> Byte(m, a + k) == s[k] }

  function BytesOf(m: Bytes, a: int, n: nat): (s: seq<byte>)
    ensures |s| == n && BytesAt(m, a, s)
  {
    seq<byte>(n, k => Byte(m, a + k))
  }

  // ------------------------------------------------------- little-endian numbers

  function Pow256(n: nat): (p: int)
    ensures p > 0
  {
    if n == 0 then 1 else 0x100 * Pow256(n - 1)
  }

  function Le(m: Bytes, a: int, n: nat): (x: int)
    ensures 0 <= x < Pow256(n)
    decreases n
  {
    if n == 0 then 0 else Byte(m, a) + 0x100 * Le(m, a + 1, n - 1)
  }

  /** The low `n` bytes of a number written at `a`: `*(LONG*)p = (LONG)x` and the like. */
  function Poke(m: Bytes, a: int, n: nat, x: int): Bytes
    decreases n
  {
    if n == 0 then m else Poke(m[a := x % 0x100], a + 1, n - 1, x / 0x100)
  }

  /** Those bytes, lowest first. */
  function LeBytes(n: nat, x: int): (s: seq<byte>)
    ensures |s| == n
  {
    if n == 0 then [] else [x % 0x100] + LeBytes(n - 1, x / 0x100)
  }

  lemma {:induction false} PokeBytes(m: Bytes, a: int, n: nat, x: int)
    ensures BytesAt(Poke(m, a, n, x), a, LeBytes(n, x))
    decreases n
  {
    if n > 0 {
      var m1 := m[a := x % 0x100];
      PokeBytes(m1, a + 1, n - 1, x / 0x100);
      PokeFrame(m1, a + 1, n - 1, x / 0x100);
      var s := LeBytes(n, x);
      forall k | 0 <= k < n ensures Byte(Poke(m, a, n, x), a + k) == s[k] {
        if k > 0 { assert s[k] == LeBytes(n - 1, x / 0x100)[k - 1] == Byte(Poke(m, a, n, x), a + 1 + (k - 1)); }
      }
    }
  }

  /** Wherever these bytes are, they read as the number does where it was written. */
  lemma RelOfBytes(m: Bytes, a: int, n: nat, x: int)
    requires BytesAt(m, a, LeBytes(n, x))
    ensures Rel(m, a, n) == Rel(Poke(m, a, n, x), a, n)
    ensures Le(m, a, n) == Le(Poke(m, a, n, x), a, n)
  {
    var m' := Poke(m, a, n, x);
    PokeBytes(m, a, n, x);
    hide LeBytes, Poke;
    forall b | a <= b < a + n ensures Byte(m', b) == Byte(m, b) {
      assert Byte(m, a + (b - a)) == LeBytes(n, x)[b - a] == Byte(m', a + (b - a));
    }
    LeFrame(m, m', a, n);
  }

  lemma {:induction false} LeBack(m: Bytes, a: int, n: nat)
    ensures LeBytes(n, Le(m, a, n)) == BytesOf(m, a, n)
    decreases n
  {
    if n > 0 {
      LeBack(m, a + 1, n - 1);
      assert Le(m, a, n) / 0x100 == Le(m, a + 1, n - 1);
      assert BytesOf(m, a, n) == [Byte(m, a)] + BytesOf(m, a + 1, n - 1);
    }
  }

  /** A signed number of `n` bytes. */
  function Rel(m: Bytes, a: int, n: nat): int { Signed(Le(m, a, n), Pow256(n)) }

  predicate Fits(x: int, n: nat) { -Pow256(n) <= 2 * x < Pow256(n) }

  lemma {:induction false} PokeFrame(m: Bytes, a: int, n: nat, x: int)
    ensures forall b :: b < a || b >= a + n ==> Byte(Poke(m, a, n, x), b) == Byte(m, b)
    decreases n
  {
    if n > 0 { PokeFrame(m[a := x % 0x100], a + 1, n - 1, x / 0x100); }
  }

  /** The four bytes of a number that fits in one. */
  predicate Small(m: Bytes, a: int, x: int) {
    Byte(m, a) == x && Byte(m, a + 1) == 0 && Byte(m, a + 2) == 0 && Byte(m, a + 3) == 0
  }

  lemma PokeSmall(m: Bytes, a: int, x: byte)
    ensures Small(Poke(m, a, 4, x), a, x)
  {
    var m1 := m[a := x][a + 1 := 0][a + 2 := 0][a + 3 := 0];
    assert Poke(m, a, 4, x) == m1 by {
      assert Poke(m, a, 4, x) == Poke(m[a := x], a + 1, 3, 0);
      assert Poke(m[a := x], a + 1, 3, 0) == Poke(m[a := x][a + 1 := 0], a + 2, 2, 0);
    }
  }

  /** What is written does not depend on what was there. */
  lemma {:induction false} PokeAnywhere(m: Bytes, m': Bytes, a: int, n: nat, x: int)
    ensures forall b :: a <= b < a + n ==> Byte(Poke(m', a, n, x), b) == Byte(Poke(m, a, n, x), b)
    decreases n
  {
    if n > 0 {
      var m1, m1' := m[a := x % 0x100], m'[a := x % 0x100];
      PokeAnywhere(m1, m1', a + 1, n - 1, x / 0x100);
      PokeFrame(m1, a + 1, n - 1, x / 0x100);
      PokeFrame(m1', a + 1, n - 1, x / 0x100);
    }
  }

  lemma {:induction false} LeFrame(m: Bytes, m': Bytes, a: int, n: nat)
    requires forall b :: a <= b < a + n ==> Byte(m', b) == Byte(m, b)
    ensures Le(m', a, n) == Le(m, a, n)
    decreases n
  {
    if n > 0 { LeFrame(m, m', a + 1, n - 1); }
  }

  lemma {:induction false} PokeLe(m: Bytes, a: int, n: nat, x: int)
    ensures Le(Poke(m, a, n, x), a, n) == x % Pow256(n)
    decreases n
  {
    if n > 0 {
      var m1 := m[a := x % 0x100];
      PokeLe(m1, a + 1, n - 1, x / 0x100);
      PokeFrame(m1, a + 1, n - 1, x / 0x100);
      assert Byte(Poke(m, a, n, x), a) == x % 0x100;
      ModStep(x, Pow256(n - 1));
    }
  }

  lemma ModStep(x: int, p: int)
    requires p > 0
    ensures x % 0x100 + 0x100 * (x / 0x100 % p) == x % (0x100 * p)
  {
    var y := x / 0x100;
    var q, r := y / p, y % p;
    assert x == 0x100 * (q * p + r) + x % 0x100;
    var low := x % 0x100 + 0x100 * r;
    assert x == q * (0x100 * p) + low;
    assert 0 <= low < 0x100 * p;
    Remainder(x, 0x100 * p, q, low);
  }

  lemma EvenPow(n: nat)
    requires n > 0
    ensures Pow256(n) == 2 * (Pow256(n) / 2)
  {
  }

  /** A number that fits survives being written; another one does not. */
  lemma PokeRel(m: Bytes, a: int, n: nat, x: int)
    requires n > 0
    ensures Rel(Poke(m, a, n, x), a, n) == x <==> Fits(x, n)
    ensures Fits(Rel(Poke(m, a, n, x), a, n), n)
  {
    PokeLe(m, a, n, x);
    var p := Pow256(n);
    EvenPow(n);
    if Fits(x, n) {
      if x >= 0 { Remainder(x, p, 0, x); } else { Remainder(x, p, -1, x + p); }
    }
  }

  // --------------------------------------------------------------------- jumps

  datatype Jump = Always(target: Addr, size: nat) | IfCondition(cc: int, target: Addr, size: nat) | NoJump

  /** The relative jump at `a`: short or near, with or without a condition. */
  function JumpAt(m: Bytes, a: Addr): Jump {
    var op := Byte(m, a);
    if op == 0xeb then Always(Wrap(a + 2 + Rel(m, a + 1, 1)), 2)
    else if op == 0xe9 then Always(Wrap(a + 5 + Rel(m, a + 1, 4)), 5)
    else if 0x70 <= op <= 0x7f then IfCondition(op - 0x70, Wrap(a + 2 + Rel(m, a + 1, 1)), 2)
    else if op == 0x0f && 0x80 <= Byte(m, a + 1) <= 0x8f then
      IfCondition(Byte(m, a + 1) - 0x80, Wrap(a + 6 + Rel(m, a + 2, 4)), 6)
    else NoJump
  }

  /** An offset is exact, in its field, exactly if it fits: then, and only then, the field
      leads to the place it was computed from. */
  lemma OffsetExact(m: Bytes, a: int, n: nat, x: int, end: int, target: Addr)
    requires 0 < n <= 4 && -0xc000_0000_0000_0000 <= x < 0xc000_0000_0000_0000 && Wrap(end + x) == target
    ensures Wrap(end + Rel(Poke(m, a, n, x), a, n)) == target <==> Fits(x, n)
  {
    var y := Rel(Poke(m, a, n, x), a, n);
    PokeRel(m, a, n, x);
    PowSmall(n);
    hide Pow256, Rel, Poke;
    SameWrap(end + x, end + y);
  }

  lemma PowSmall(n: nat)
    requires n <= 4
    ensures Pow256(n) <= 0x1_0000_0000
  {
    assert Pow256(1) == 0x100 && Pow256(2) == 0x1_0000 && Pow256(3) == 0x100_0000 && Pow256(4) == 0x1_0000_0000;
  }

  /** Two numbers less than 2^64 apart wrap to the same address only if they are the same. */
  lemma SameWrap(x: int, y: int)
    requires -TwoTo64 < x - y < TwoTo64
    ensures Wrap(x) == Wrap(y) <==> x == y
  {
  }

  /** The offset of a jump that was moved from `src` to `dst`, where its own end moved from
      `so` to `sd` bytes after its start. */
  lemma NewOffset(m: Bytes, a: int, n: nat, dst: Addr, src: Addr, o: int, so: int, sd: int, new': int)
    requires 0 < n <= 4 && -0x8000_0000 <= o < 0x8000_0000 && 0 <= so < 0x100 && 0 <= sd < 0x100
    requires new' == o - (Delta(dst, src) + (sd - so))
    ensures Wrap(dst + sd + new') == Wrap(src + so + o)
    ensures Wrap(dst + sd + Rel(Poke(m, a, n, new'), a, n)) == Wrap(src + so + o) <==> Fits(new', n)
    ensures Fits(new', n) <==> Fits(Delta(Wrap(src + so + o), Wrap(dst + sd)), n)
  {
    var target := Wrap(src + so + o);
    hide Pow256, Rel, Poke, Wrap, Delta;
    NewReaches(dst, src, o, so, sd, new');
    assert -0x9000_0000_0000_0000 <= new' < 0x9000_0000_0000_0000 by { DeltaReaches(dst, src); }
    OffsetExact(m, a, n, new', dst + sd, target);
    assert Pow256(n) <= 0x1_0000_0000 by { PowSmall(n); }
    NewFits(target, dst + sd, n, new');
  }

  lemma NewReaches(dst: Addr, src: Addr, o: int, so: int, sd: int, new': int)
    requires new' == o - (Delta(dst, src) + (sd - so))
    ensures Wrap(dst + sd + new') == Wrap(src + so + o)
  {
    var d := Delta(dst, src);
    DeltaReaches(dst, src);
    var k := (src + d) / TwoTo64;
    assert src + d == k * TwoTo64 + dst;
    WrapTimes(src + so + o, -k);
    assert dst + sd + new' == src + so + o + -k * TwoTo64;
  }

  lemma NewFits(target: Addr, end: int, n: nat, new': int)
    requires Pow256(n) <= 0x1_0000_0000 && -0x9000_0000_0000_0000 <= new' < 0x9000_0000_0000_0000
    requires Wrap(end + new') == target
    ensures Fits(new', n) <==> Fits(Delta(target, Wrap(end)), n)
  {
    hide Pow256, Wrap, Delta;
    WrapAdd(end, new');
    if Fits(new', n) { DeltaOf(Wrap(end), new'); }
    var y := Delta(target, Wrap(end));
    if Fits(y, n) {
      DeltaReaches(target, Wrap(end));
      WrapAdd(end, y);
      SameWrap(end + y, end + new');
    }
  }

  lemma EightBytes()
    ensures Pow256(8) == TwoTo64
  {
    assert Pow256(4) == 0x1_0000_0000;
    assert Pow256(8) == 0x100 * (0x100 * (0x100 * (0x100 * Pow256(4))));
  }

  /** An offset of eight bytes reaches every address. */
  lemma NewOffset8(m: Bytes, a: int, dst: Addr, src: Addr, o: int, cbOp: nat, new': int)
    requires new' == o - Delta(dst, src)
    ensures Wrap(dst + cbOp + Rel(Poke(m, a, 8, new'), a, 8)) == Wrap(src + cbOp + o)
    ensures Fits(Delta(Wrap(src + cbOp + o), Wrap(dst + cbOp)), 8)
  {
    hide Poke, Pow256, Delta, Rel, Wrap;
    EightBytes();
    DeltaReaches(Wrap(src + cbOp + o), Wrap(dst + cbOp));
    NewReaches(dst, src, o, cbOp, cbOp, new');
    RelWraps(m, a, new');
    SignedWraps(dst + cbOp, new', Rel(Poke(m, a, 8, new'), a, 8));
  }

  lemma RelWraps(m: Bytes, a: int, x: int)
    ensures Rel(Poke(m, a, 8, x), a, 8) == Signed(x % TwoTo64, TwoTo64)
  {
    PokeLe(m, a, 8, x);
    EightBytes();
  }

  lemma RelOne(m: Bytes, a: int)
    ensures Rel(m, a, 1) == Signed(Byte(m, a), 0x100)
  {
    assert Pow256(1) == 0x100;
    assert Le(m, a + 1, 0) == 0;
  }

  lemma SignedWraps(e: int, x: int, y: int)
    requires y == Signed(x % TwoTo64, TwoTo64)
    ensures Wrap(e + y) == Wrap(e + x)
  {
    hide Wrap;
    var q := x / TwoTo64;
    assert x == q * TwoTo64 + x % TwoTo64;
    if y == x % TwoTo64 {
      WrapTimes(e + y, q);
    } else {
      WrapTimes(e + y, q + 1);
      assert e + x == e + y + (q + 1) * TwoTo64;
    }
  }

  lemma OffsetRange(m: Bytes, a: int, n: nat)
    requires 0 < n <= 4
    ensures -0x8000_0000 <= Rel(m, a, n) < 0x8000_0000
  {
    PowSmall(n);
    EvenPow(n);
  }

  /** The five bytes of a jump to `pbJmpVal`. */
  function PatchBytes(pbCode: Addr, pbJmpVal: Addr): Bytes {
    Poke(map[pbCode := 0xe9], pbCode + 1, 4, Delta(pbJmpVal, Wrap(pbCode + 5)))
  }

  lemma PatchIs(m: Bytes, pbCode: Addr, pbJmpVal: Addr)
    ensures var m' := Poke(m[pbCode := 0xe9], pbCode + 1, 4, Delta(pbJmpVal, Wrap(pbCode + 5)));
      forall b :: pbCode <= b < pbCode + 5 ==> Byte(m', b) == Byte(PatchBytes(pbCode, pbJmpVal), b)
  {
    hide Poke, Delta, Wrap;
    var x := Delta(pbJmpVal, Wrap(pbCode + 5));
    PokeAnywhere(map[pbCode := 0xe9], m[pbCode := 0xe9], pbCode + 1, 4, x);
    PokeFrame(map[pbCode := 0xe9], pbCode + 1, 4, x);
    PokeFrame(m[pbCode := 0xe9], pbCode + 1, 4, x);
  }

  lemma Follows(m: Bytes, a: int, s: seq<byte>, s': seq<byte>)
    ensures BytesAt(m, a, s + s') <==> BytesAt(m, a, s) && BytesAt(m, a + |s|, s')
  {
    if BytesAt(m, a, s + s') {
      forall k | 0 <= k < |s'| ensures Byte(m, a + |s| + k) == s'[k] {
        assert (s + s')[|s| + k] == s'[k] && Byte(m, a + (|s| + k)) == (s + s')[|s| + k];
      }
      forall k | 0 <= k < |s| ensures Byte(m, a + k) == s[k] { assert (s + s')[k] == s[k]; }
    } else if BytesAt(m, a, s) && BytesAt(m, a + |s|, s') {
      forall k | 0 <= k < |s + s'| ensures Byte(m, a + k) == (s + s')[k] {
        if k >= |s| { assert Byte(m, a + |s| + (k - |s|)) == s'[k - |s|]; }
      }
    }
  }

  /** The copy, for `pbDst`, of the short jump at `pbSrc`: a near one. */
  function WidenedBytes(m: Bytes, pbDst: Addr, pbSrc: Addr): seq<byte> {
    var op, o := Byte(m, pbSrc), Rel(m, pbSrc + 1, 1) - Delta(pbDst, pbSrc);
    if op == 0xeb then [0xe9] + LeBytes(4, o - 3) else [0x0f, 0x80 + op % 0x10] + LeBytes(4, o - 4)
  }

  lemma NowWidened(m: Bytes, m': Bytes, pbDst: Addr, pbSrc: Addr, x: int)
    requires var op, o := Byte(m, pbSrc), Rel(m, pbSrc + 1, 1) - Delta(pbDst, pbSrc);
      if op == 0xeb then x == o - 3 && Byte(m', pbDst) == 0xe9 && BytesAt(m', pbDst + 1, LeBytes(4, x))
      else x == o - 4 && Byte(m', pbDst) == 0x0f && Byte(m', pbDst + 1) == 0x80 + op % 0x10
           && BytesAt(m', pbDst + 2, LeBytes(4, x))
    ensures BytesAt(m', pbDst, WidenedBytes(m, pbDst, pbSrc))
  {
    hide Rel, Delta, LeBytes;
    var op := Byte(m, pbSrc);
    Follows(m', pbDst, if op == 0xeb then [0xe9] else [0x0f, 0x80 + op % 0x10], LeBytes(4, x));
  }

  /** The copy of an instruction of `nBytes` bytes with a relative operand of `n` bytes at `offset`. */
  function MovedBytes(m: Bytes, pbDst: Addr, pbSrc: Addr, nBytes: nat, offset: nat, n: nat): (s: seq<byte>)
    requires offset + n <= nBytes
    ensures |s| == nBytes
  {
    BytesOf(m, pbSrc, offset) + LeBytes(n, Rel(m, pbSrc + offset, n) - Delta(pbDst, pbSrc))
    + BytesOf(m, pbSrc + offset + n, nBytes - offset - n)
  }

  lemma OperandCopied(m: Bytes, m': Bytes, pbDst: int, pbSrc: int, nBytes: nat, offset: nat, n: nat)
    requires offset + n <= nBytes && BytesAt(m', pbDst, BytesOf(m, pbSrc, nBytes))
    ensures Rel(m', pbDst + offset, n) == Rel(m, pbSrc + offset, n)
  {
    var s, operand := BytesOf(m, pbSrc, nBytes), BytesOf(m, pbSrc + offset, n);
    forall k | 0 <= k < n ensures Byte(m', pbDst + offset + k) == operand[k] {
      assert Byte(m', pbDst + (offset + k)) == s[offset + k];
    }
    LeSame(m, m', pbSrc + offset, pbDst + offset, n);
  }

  lemma {:induction false} LeSame(m: Bytes, m': Bytes, a: int, a': int, n: nat)
    requires BytesAt(m', a', BytesOf(m, a, n))
    ensures Le(m', a', n) == Le(m, a, n)
    decreases n
  {
    if n > 0 {
      var s, rest := BytesOf(m, a, n), BytesOf(m, a + 1, n - 1);
      assert Byte(m', a' + 0) == s[0];
      forall k | 0 <= k < n - 1 ensures Byte(m', a' + 1 + k) == rest[k] {
        assert Byte(m', a' + (k + 1)) == s[k + 1];
      }
      LeSame(m, m', a + 1, a' + 1, n - 1);
    }
  }

  /** A copy whose operand was then adjusted. */
  lemma CopyIsMoved(m0: Bytes, m1: Bytes, m2: Bytes, pbDst: Addr, pbSrc: Addr, nBytes: nat, offset: nat, n: nat)
    requires offset + n <= nBytes && BytesAt(m1, pbDst, BytesOf(m0, pbSrc, nBytes))
    requires BytesAt(m2, pbDst + offset, LeBytes(n, Rel(m0, pbSrc + offset, n) - Delta(pbDst, pbSrc)))
    requires forall b :: b < pbDst + offset || b >= pbDst + offset + n ==> Byte(m2, b) == Byte(m1, b)
    ensures BytesAt(m2, pbDst, MovedBytes(m0, pbDst, pbSrc, nBytes, offset, n))
    ensures BytesAt(m2, pbDst, BytesOf(m0, pbSrc, offset))
  {
    hide Rel, Delta, LeBytes;
    var s := BytesOf(m0, pbSrc, nBytes);
    var first, rest := BytesOf(m0, pbSrc, offset), BytesOf(m0, pbSrc + offset + n, nBytes - offset - n);
    var middle := LeBytes(n, Rel(m0, pbSrc + offset, n) - Delta(pbDst, pbSrc));
    forall k | 0 <= k < offset ensures Byte(m2, pbDst + k) == first[k] { assert Byte(m1, pbDst + k) == s[k]; }
    forall k | 0 <= k < nBytes - offset - n ensures Byte(m2, pbDst + offset + n + k) == rest[k] {
      assert Byte(m1, pbDst + (offset + n + k)) == s[offset + n + k];
    }
    Follows(m2, pbDst, first, middle);
    Follows(m2, pbDst, first + middle, rest);
  }

  class Code {
    var bytes: Bytes

    constructor (bytes: Bytes)
      ensures this.bytes == bytes
    {
      this.bytes := bytes;
    }

    /** memset. */
    method Memset(a: int, n: nat, x: byte)
      modifies this
      ensures forall b :: Byte(bytes, b) == if a <= b < a + n then x else Byte(old(bytes), b)
    {
      for k := 0 to n
        invariant forall b :: Byte(bytes, b) == if a <= b < a + k then x else Byte(old(bytes), b)
      {
        ghost var was := bytes;
        bytes := bytes[a + k := x];
        assert forall b :: Byte(bytes, b) == if b == a + k then x else Byte(was, b);
      }
    }

    /** CopyMemory, from a buffer that does not overlap. */
    method CopyMemory(a: int, s: seq<byte>)
      modifies this
      ensures BytesAt(bytes, a, s)
      ensures forall b :: b < a || b >= a + |s| ==> Byte(bytes, b) == Byte(old(bytes), b)
    {
      for k := 0 to |s|
        invariant forall j :: 0 <= j < k ==> Byte(bytes, a + j) == s[j]
        invariant forall b :: b < a || b >= a + |s| ==> Byte(bytes, b) == Byte(old(bytes), b)
      {
        bytes := bytes[a + k := s[k]];
      }
    }

    /** detour_gen_jmp_immediate. */
    method GenJmpImmediate(pbCode: Addr, pbJmpVal: Addr) returns (next: int)
      modifies this
      ensures next == pbCode + 5
      ensures forall b :: b < pbCode || b >= pbCode + 5 ==> Byte(bytes, b) == Byte(old(bytes), b)
      ensures forall b :: pbCode <= b < pbCode + 5 ==> Byte(bytes, b) == Byte(PatchBytes(pbCode, pbJmpVal), b)
      ensures JumpAt(bytes, pbCode) == Always(pbJmpVal, 5) <==> Fits(Delta(pbJmpVal, Wrap(pbCode + 5)), 4)
    {
      hide Poke, Rel, Delta, Pow256, Wrap, PatchBytes;
      PatchIs(bytes, pbCode, pbJmpVal);
      var pbJmpSrc := Wrap(pbCode + 5);
      bytes := bytes[pbCode := 0xe9];
      ghost var m := bytes;
      var offset := Delta(pbJmpVal, pbJmpSrc);
      PokeFrame(m, pbCode + 1, 4, offset);
      bytes := Poke(bytes, pbCode + 1, 4, offset);
      DeltaReaches(pbJmpVal, pbJmpSrc);
      WrapAdd(pbCode + 5, offset);
      OffsetExact(m, pbCode + 1, 4, offset, pbCode + 5, pbJmpVal);
      return pbCode + 5;
    }

    /** detour_gen_brk. */
    method GenBrk(pbCode: int, pbLimit: int) returns (next: int)
      modifies this
      ensures next == if pbCode < pbLimit then pbLimit else pbCode
      ensures forall b :: Byte(bytes, b) == if pbCode <= b < pbLimit then 0xcc else Byte(old(bytes), b)
    {
      next := pbCode;
      while next < pbLimit
        invariant pbCode <= next && (pbCode <= pbLimit ==> next <= pbLimit) && (pbCode > pbLimit ==> next == pbCode)
        invariant forall b :: Byte(bytes, b) == if pbCode <= b < next then 0xcc else Byte(old(bytes), b)
        decreases pbLimit - next
      {
        bytes := bytes[next := 0xcc];
        next := next + 1;
      }
    }

    /** CopyBytesJump: a short jump becomes a near one, with the same condition and the same
        target, if the target is near enough. */
    method CopyBytesJump(pbDst: Addr, pbSrc: Addr) returns (next: int, target: Addr, extra: nat)
      requires Byte(bytes, pbSrc) == 0xeb || 0x70 <= Byte(bytes, pbSrc) <= 0x7f
      requires pbDst + 6 <= pbSrc || pbSrc + 2 <= pbDst
      modifies this
      ensures var was, end := JumpAt(old(bytes), pbSrc), Wrap(pbDst + 2 + extra);
        && next == pbSrc + was.size && target == was.target
        && (Fits(Delta(target, end), 4) <==>
              JumpAt(bytes, pbDst) == if was.Always? then Always(target, 2 + extra)
                                      else IfCondition(was.cc, target, 2 + extra))
      ensures extra == if Byte(old(bytes), pbSrc) == 0xeb then 3 else 4
      ensures BytesAt(bytes, pbDst, WidenedBytes(old(bytes), pbDst, pbSrc))
      ensures forall b :: b < pbDst || b >= pbDst + 2 + extra ==> Byte(bytes, b) == Byte(old(bytes), b)
    {
      hide Poke, Rel, Delta, Pow256, Wrap, LeBytes, WidenedBytes, BytesAt;
      var op, nOldOffset := Byte(bytes, pbSrc), Rel(bytes, pbSrc + 1, 1);
      target := Wrap(pbSrc + 2 + nOldOffset);
      OffsetRange(bytes, pbSrc + 1, 1);
      if op == 0xeb {
        bytes := bytes[pbDst := 0xe9];
        var nNewOffset := nOldOffset - (Delta(pbDst, pbSrc) + 3);
        PokeFrame(bytes, pbDst + 1, 4, nNewOffset);
        PokeBytes(bytes, pbDst + 1, 4, nNewOffset);
        NewOffset(bytes, pbDst + 1, 4, pbDst, pbSrc, nOldOffset, 2, 5, nNewOffset);
        bytes := Poke(bytes, pbDst + 1, 4, nNewOffset);
        NowWidened(old(bytes), bytes, pbDst, pbSrc, nNewOffset);
        extra := 3;
        return pbSrc + 2, target, extra;
      }
      bytes := bytes[pbDst := 0x0f];
      bytes := bytes[pbDst + 1 := 0x80 + Byte(bytes, pbSrc) % 0x10];
      var nNewOffset := nOldOffset - (Delta(pbDst, pbSrc) + 4);
      PokeFrame(bytes, pbDst + 2, 4, nNewOffset);
      PokeBytes(bytes, pbDst + 2, 4, nNewOffset);
      NewOffset(bytes, pbDst + 2, 4, pbDst, pbSrc, nOldOffset, 2, 6, nNewOffset);
      bytes := Poke(bytes, pbDst + 2, 4, nNewOffset);
      NowWidened(old(bytes), bytes, pbDst, pbSrc, nNewOffset);
      extra := 4;
      return pbSrc + 2, target, extra;
    }

    /** detour_gen_jmp_indirect: `jmp [pbJmpVal]`. */
    method GenJmpIndirect(pbCode: Addr, pbJmpVal: Addr) returns (next: int)
      modifies this
      ensures next == pbCode + 6 && Byte(bytes, pbCode) == 0xff && Byte(bytes, pbCode + 1) == 0x25
      ensures forall b :: b < pbCode || b >= pbCode + 6 ==> Byte(bytes, b) == Byte(old(bytes), b)
      ensures Wrap(pbCode + 6 + Rel(bytes, pbCode + 2, 4)) == pbJmpVal <==> Fits(Delta(pbJmpVal, Wrap(pbCode + 6)), 4)
      ensures var d := Delta(pbJmpVal, Wrap(pbCode + 6)); 0 <= d < 0x100 ==> Small(bytes, pbCode + 2, d)
    {
      hide Poke, Rel, Delta, Pow256, Wrap;
      var pbJmpSrc := Wrap(pbCode + 6);
      bytes := bytes[pbCode := 0xff][pbCode + 1 := 0x25];
      ghost var m := bytes;
      var offset := Delta(pbJmpVal, pbJmpSrc);
      PokeFrame(m, pbCode + 2, 4, offset);
      if 0 <= offset < 0x100 { PokeSmall(m, pbCode + 2, offset); }
      bytes := Poke(bytes, pbCode + 2, 4, offset);
      DeltaReaches(pbJmpVal, pbJmpSrc);
      WrapAdd(pbCode + 6, offset);
      OffsetExact(m, pbCode + 2, 4, offset, pbCode + 6, pbJmpVal);
      return pbCode + 6;
    }

    /** CopyBytes for the instructions that cannot be enlarged, LOOPNE, LOOPE, LOOP and JCXZ:
        where the target is out of reach of the copy, `extra` is -3. */
    method CopyBytesCantJump(pbDst: Addr, pbSrc: Addr) returns (next: int, target: Addr, extra: int)
      requires 0xe0 <= Byte(bytes, pbSrc) <= 0xe3 && (pbDst + 2 <= pbSrc || pbSrc + 2 <= pbDst)
      modifies this
      ensures next == pbSrc + 2 && target == Wrap(pbSrc + 2 + Rel(old(bytes), pbSrc + 1, 1))
      ensures Byte(bytes, pbDst) == Byte(old(bytes), pbSrc)
      ensures var fits := Fits(Delta(target, Wrap(pbDst + 2)), 1);
        && (Wrap(pbDst + 2 + Rel(bytes, pbDst + 1, 1)) == target <==> fits)
        && extra == if fits then 0 else -3
      ensures forall b :: b < pbDst || b >= pbDst + 2 ==> Byte(bytes, b) == Byte(old(bytes), b)
    {
      hide Delta, Pow256, Wrap, Fits, Rel, MovedBytes;
      ghost var m := bytes;
      next, target, extra := CopyBytes(pbDst, pbSrc, 2, 1, 1, true);
      assert Byte(bytes, pbDst) == Byte(m, pbSrc) by { assert Byte(bytes, pbDst + 0) == BytesOf(m, pbSrc, 1)[0]; }
    }

    /** CopyBytes, for an instruction of `nBytes` bytes with a relative operand at `nRelOffset`:
        the copy is the same but for the operand, which leads to the old target exactly if the
        new offset fits. */
    method CopyBytes(pbDst: Addr, pbSrc: Addr, nBytes: nat, nRelOffset: nat, cbTarget: nat, noEnlarge: bool)
      returns (next: int, target: Addr, extra: int)
      requires nBytes < 0x100 && nRelOffset + cbTarget <= nBytes && cbTarget in {1, 2, 4, 8}
      requires pbDst + nBytes <= pbSrc || pbSrc + nBytes <= pbDst
      modifies this
      ensures next == pbSrc + nBytes
      ensures target == Wrap(pbSrc + nBytes + Rel(old(bytes), pbSrc + nRelOffset, cbTarget))
      ensures BytesAt(bytes, pbDst, MovedBytes(old(bytes), pbDst, pbSrc, nBytes, nRelOffset, cbTarget))
      ensures BytesAt(bytes, pbDst, BytesOf(old(bytes), pbSrc, nRelOffset))
      ensures var fits := Fits(Delta(target, Wrap(pbDst + nBytes)), cbTarget);
        && (Wrap(pbDst + nBytes + Rel(bytes, pbDst + nRelOffset, cbTarget)) == target <==> fits)
        && extra == if fits then 0 else if noEnlarge then cbTarget - 4 else 4 - cbTarget
      ensures forall b :: b < pbDst || b >= pbDst + nBytes ==> Byte(bytes, b) == Byte(old(bytes), b)
    {
      hide Delta, Pow256, Wrap, Fits, Rel, LeBytes;
      ghost var m0 := bytes;
      CopyMemory(pbDst, BytesOf(bytes, pbSrc, nBytes));
      ghost var m1 := bytes;
      OperandCopied(m0, m1, pbDst, pbSrc, nBytes, nRelOffset, cbTarget);
      target, extra := AdjustTarget(pbDst, pbSrc, nBytes, nRelOffset, cbTarget);
      CopyIsMoved(m0, m1, bytes, pbDst, pbSrc, nBytes, nRelOffset, cbTarget);
      next, extra := pbSrc + nBytes, if noEnlarge then -extra else extra;
    }

    /** AdjustTarget, on an instruction of `cbOp` bytes that was copied to `pbDst`: the relative
        operand leads to the old target exactly if the new offset fits.  `extra` only tells for
        operands of one or two bytes. */
    method AdjustTarget(pbDst: Addr, pbSrc: Addr, cbOp: nat, cbTargetOffset: nat, cbTargetSize: nat)
      returns (pbTarget: Addr, extra: int)
      requires cbOp < 0x100 && cbTargetSize in {1, 2, 4, 8}
      modifies this
      ensures pbTarget == Wrap(pbSrc + cbOp + Rel(old(bytes), pbDst + cbTargetOffset, cbTargetSize))
      ensures var fits := Fits(Delta(pbTarget, Wrap(pbDst + cbOp)), cbTargetSize);
        && (Wrap(pbDst + cbOp + Rel(bytes, pbDst + cbTargetOffset, cbTargetSize)) == pbTarget <==> fits)
        && extra == if fits then 0 else 4 - cbTargetSize
      ensures BytesAt(bytes, pbDst + cbTargetOffset,
                      LeBytes(cbTargetSize,
                              Rel(old(bytes), pbDst + cbTargetOffset, cbTargetSize) - Delta(pbDst, pbSrc)))
      ensures forall b :: b < pbDst + cbTargetOffset || b >= pbDst + cbTargetOffset + cbTargetSize ==>
        Byte(bytes, b) == Byte(old(bytes), b)
    {
      hide Poke, Rel, Delta, Pow256, Wrap, LeBytes;
      var pvTargetAddr := pbDst + cbTargetOffset;
      var nOldOffset := Rel(bytes, pvTargetAddr, cbTargetSize);
      pbTarget := Wrap(pbSrc + cbOp + nOldOffset);
      var nNewOffset := nOldOffset - Delta(pbDst, pbSrc);
      PokeFrame(bytes, pvTargetAddr, cbTargetSize, nNewOffset);
      PokeBytes(bytes, pvTargetAddr, cbTargetSize, nNewOffset);
      if cbTargetSize == 8 {
        NewOffset8(bytes, pvTargetAddr, pbDst, pbSrc, nOldOffset, cbOp, nNewOffset);
      } else {
        OffsetRange(bytes, pvTargetAddr, cbTargetSize);
        NewOffset(bytes, pvTargetAddr, cbTargetSize, pbDst, pbSrc, nOldOffset, cbOp, cbOp, nNewOffset);
      }
      bytes := Poke(bytes, pvTargetAddr, cbTargetSize, nNewOffset);
      extra := if cbTargetSize == 8 || Fits(nNewOffset, cbTargetSize) then 0 else 4 - cbTargetSize;
    }
  }

  // ------------------------------------------------------------------- the bounds

  function TwoGbBelow(address: Addr): Addr { if address > 0x7ff8_0000 then address - 0x7ff8_0000 else 0x8_0000 }

  function TwoGbAbove(address: Addr): Addr {
    if address < 0xffff_ffff_8000_0000 then address + 0x7ff8_0000 else 0xffff_ffff_fff8_0000
  }

  /** What the leading jump of a function refers to, if there is one: the target of a near
      jump, or the import vector of an indirect one. */
  function Referred(m: Bytes, pbCode: Addr): (a: Addr) {
    if Byte(m, pbCode) == 0xff && Byte(m, pbCode + 1) == 0x25 then Wrap(pbCode + 6 + Rel(m, pbCode + 2, 4))
    else if Byte(m, pbCode) == 0xe9 then Wrap(pbCode + 5 + Rel(m, pbCode + 1, 4))
    else pbCode
  }

  /** detour_find_jmp_bounds. */
  function FindJmpBounds(m: Bytes, pbCode: Addr): (bounds: (Addr, Addr))
  {
    var lo, hi := TwoGbBelow(pbCode), TwoGbAbove(pbCode);
    if (Byte(m, pbCode) == 0xff && Byte(m, pbCode + 1) == 0x25) || Byte(m, pbCode) == 0xe9 then
      var pbNew := Referred(m, pbCode);
      if pbNew < pbCode then (lo, TwoGbAbove(pbNew)) else (TwoGbBelow(pbNew), hi)
    else (lo, hi)
  }

  /** The offsets of x64's DETOUR_TRAMPOLINE: rbCode is first. */
  const OffsetRemain := 72
  const OffsetDetour := 80
  const OffsetCodeIn := 88

  predicate Within(m: Bytes, pbCode: Addr, t: Addr) { FindJmpBounds(m, pbCode).0 <= t <= FindJmpBounds(m, pbCode).1 }

  lemma CloseFits(to: Addr, end: int, d: int)
    requires to == Wrap(end + d) && -0x8000_0000 <= d < 0x8000_0000
    ensures Fits(Delta(to, Wrap(end)), 4)
  {
    WrapAdd(end, d);
    DeltaOf(Wrap(end), d);
    PowSmall(4);
    assert Pow256(4) == 0x1_0000_0000;
  }

  /** For a trampoline within the bounds, the jump that is patched into the target and the
      indirect jumps of the trampoline are exact. */
  lemma PatchJumpsFit(m: Bytes, pbTarget: Addr, t: Addr, cbCode: nat)
    requires Within(m, pbTarget, t) && cbCode <= 30
    ensures Fits(Delta(Wrap(t + OffsetCodeIn), Wrap(pbTarget + 5)), 4)
    ensures Fits(Delta(Wrap(t + OffsetDetour), Wrap(Wrap(t + OffsetCodeIn) + 6)), 4)
    ensures Fits(Delta(Wrap(t + OffsetRemain), Wrap(Wrap(t + cbCode) + 6)), 4)
  {
    hide FindJmpBounds, Fits, Wrap, Delta;
    assert -0x7ff8_0000 <= t - pbTarget <= 0x7ff8_0000 by { BoundsReach(m, pbTarget, t); }
    CloseFits(Wrap(t + OffsetCodeIn), pbTarget + 5, t + OffsetCodeIn - (pbTarget + 5));
    WrapAdd(t + OffsetCodeIn, 6);
    WrapAdd(t + cbCode, 6);
    CloseFits(Wrap(t + OffsetDetour), t + OffsetCodeIn + 6, OffsetDetour - OffsetCodeIn - 6);
    CloseFits(Wrap(t + OffsetRemain), t + cbCode + 6, OffsetRemain - cbCode - 6);
  }

  /** A place within the bounds is within 2 GB, less 512 KB, of the code and of what its leading
      jump refers to. */
  lemma BoundsReach(m: Bytes, pbCode: Addr, t: Addr)
    requires Within(m, pbCode, t)
    ensures -0x7ff8_0000 <= t - pbCode <= 0x7ff8_0000 && -0x7ff8_0000 <= t - Referred(m, pbCode) <= 0x7ff8_0000
  {
  }

  /** At most 2 GB, less 512 KB, below the higher and above the lower one of the code and what its
      leading jump refers to; near the ends of the address space, 512 KB from the end. */
  predicate Nearby(m: Bytes, pbCode: Addr, t: Addr) {
    var to := Referred(m, pbCode);
    var low, high := if to < pbCode then to else pbCode, if to < pbCode then pbCode else to;
    && (if high > 0x7ff8_0000 then high - t <= 0x7ff8_0000 else t >= 0x8_0000)
    && (if low < 0xffff_ffff_8000_0000 then t - low <= 0x7ff8_0000 else t <= 0xffff_ffff_fff8_0000)
  }

  /** That is what the bounds are; away from the ends, they are the places that are near enough to
      both. */
  lemma BoundsExactly(m: Bytes, pbCode: Addr, t: Addr)
    ensures Within(m, pbCode, t) <==> Nearby(m, pbCode, t)
    ensures var to := Referred(m, pbCode);
      0x7ff8_0000 < pbCode < 0xffff_ffff_8000_0000 && 0x7ff8_0000 < to < 0xffff_ffff_8000_0000 ==>
        (Within(m, pbCode, t) <==>
           -0x7ff8_0000 <= t - pbCode <= 0x7ff8_0000 && -0x7ff8_0000 <= t - to <= 0x7ff8_0000)
  {
    hide Rel, Wrap;
  }

  /** A leading near jump, or a leading jump through an import vector, keeps its target when it
      is copied to the start of the trampoline: the bounds were narrowed around both ends. */
  lemma LeadingJumpFits(m: Bytes, pbTarget: Addr, t: Addr, cbOp: nat)
    requires Within(m, pbTarget, t) && (cbOp == 5 || cbOp == 6)
    ensures Fits(Delta(Referred(m, pbTarget), Wrap(t + cbOp)), 4)
  {
    hide FindJmpBounds, Fits, Wrap, Delta, Referred;
    BoundsReach(m, pbTarget, t);
    var to := Referred(m, pbTarget);
    WrapSelf(to);
    CloseFits(to, t + cbOp, to - (t + cbOp));
  }

  lemma BoundsBelow(m: Bytes, pbCode: Addr, t: Addr)
    requires Within(m, pbCode, t)
    ensures t + 0x200 < TwoTo64
  {
  }

  /** The jump of a trampoline's rbCodeIn reaches its pbDetour. */
  lemma CodeInReaches(t: Addr)
    requires t + OffsetCodeIn + 6 < TwoTo64
    ensures Fits(Delta(t + OffsetDetour, Wrap(t + OffsetCodeIn + 6)), 4) && Wrap(t + OffsetDetour) == t + OffsetDetour
  {
    CloseFits(t + OffsetDetour, t + OffsetCodeIn + 6, OffsetDetour - OffsetCodeIn - 6);
  }

  lemma WrapSelf(a: Addr)
    ensures Wrap(a) == a
  {
  }

  /** What an operand of one byte refers to is out of reach of every copy that is 256 bytes or
      more away from it. */
  lemma ByteOutOfReach(m: Bytes, pbDst: Addr, pbSrc: Addr, nBytes: nat, offset: nat)
    requires 0x100 <= pbDst - pbSrc < TwoTo64 / 4 || 0x100 <= pbSrc - pbDst < TwoTo64 / 4
    ensures !Fits(Delta(Wrap(pbSrc + nBytes + Rel(m, pbSrc + offset, 1)), Wrap(pbDst + nBytes)), 1)
  {
    var o := Rel(m, pbSrc + offset, 1);
    assert Pow256(1) == 0x100;
    assert -0x80 <= o < 0x80;
    hide Wrap, Delta, Rel;
    var d := pbSrc + o - pbDst;
    WrapAdd(pbDst + nBytes, d);
    DeltaOf(Wrap(pbDst + nBytes), d);
  }

  /** So is the target of a short jump. */
  lemma ShortOutOfReach(m: Bytes, pbDst: Addr, pbSrc: Addr)
    requires 0x100 <= pbDst - pbSrc < TwoTo64 / 4 || 0x100 <= pbSrc - pbDst < TwoTo64 / 4
    ensures !Fits(Delta(Wrap(pbSrc + 2 + Rel(m, pbSrc + 1, 1)), Wrap(pbDst + 2)), 1)
  {
    ByteOutOfReach(m, pbDst, pbSrc, 2, 1);
  }

  /** A short jump of the first instructions keeps its target when it is widened into a
      trampoline within the bounds. */
  lemma WidenedJumpFits(m: Bytes, pbTarget: Addr, t: Addr, pbSrc: Addr, pbDst: Addr, size: nat)
    requires Within(m, pbTarget, t) && (size == 5 || size == 6)
    requires pbTarget <= pbSrc < pbTarget + 0x100 && t <= pbDst < t + 0x100
    ensures Fits(Delta(Wrap(pbSrc + 2 + Rel(m, pbSrc + 1, 1)), Wrap(pbDst + size)), 4)
  {
    hide FindJmpBounds, Fits, Wrap, Delta;
    BoundsReach(m, pbTarget, t);
    var o := Rel(m, pbSrc + 1, 1);
    assert -0x80 <= o < 0x80 by { assert Pow256(1) == 0x100; }
    CloseFits(Wrap(pbSrc + 2 + o), pbDst + size, pbSrc + 2 + o - (pbDst + size));
  }
}
