/** The copying loop of DetourAttachEx for ARM64 (LoaderWatch.Inject/detours.cpp): the instructions
    that the 16 bytes of a jump overwrite are moved to a trampoline, with a jump to the rest of the
    function behind them, and running the trampoline does what they did. */
module A64Prologue {
  import opened Words
  import opened A64
  import opened A64Coding
  import opened A64Moves
  import opened A64Relocate
  import opened A64Forms
  import opened A64Dis

  /** sizeof(rbCode) and SIZE_OF_JMP. */
  const CodeRoom := 128
  const SizeOfJmp := 16

  /** detour_does_code_end_function: `ret <reg>` and `b`. */
  predicate EndsFunction(w: Word) { (w / 0x400 == 0xd65f_0000 / 0x400 && w % 0x20 == 0) || w / 0x400_0000 == 5 }

  /** detour_is_code_filler: nop, and zeros. */
  predicate IsFiller(w: Word) { w == 0xd503_201f || w == 0 }

  /** The instructions up to the first one that ends the function. */
  function UpToEnd(ws: seq<Word>): (n: nat)
    ensures n <= |ws| && (ws != [] ==> n > 0)
  {
    if ws == [] then 0 else if EndsFunction(ws[0]) then 1 else 1 + UpToEnd(ws[1..])
  }

  lemma {:induction false} UpToEndIs(ws: seq<Word>, n: nat)
    requires 0 < n <= |ws| && (forall j :: 0 <= j < n - 1 ==> !EndsFunction(ws[j]))
      && (n == |ws| || EndsFunction(ws[n - 1]))
    ensures UpToEnd(ws) == n
  {
    hide EndsFunction;
    if n > 1 { UpToEndIs(ws[1..], n - 1); }
  }

  /** The loops of DetourAttachEx over the four words that are overwritten.  Each copy is made for
      the place where it ends up, and with the 16 bytes of the jump back they fit rbCode; what is
      left must be padding. */
  method CopyPrologue(dis: CDetourDis, src: Addr, dst: Addr, instructions: seq<Word>, mem: Memory)
    returns (copies: seq<Copy>, enough: bool)
    requires src % 4 == 0 && dst % 4 == 0 && |instructions| == 4
    modifies dis
    ensures |copies| == UpToEnd(instructions) && 4 * CountWords(copies) + SizeOfJmp <= CodeRoom - 16
    ensures forall k :: 0 <= k < |copies| ==> MovedTo(instructions, src, copies, k, dst, mem)
    ensures enough <==> forall j :: |copies| <= j < 4 ==> IsFiller(instructions[j])
  {
    hide MovedTo, UpToEnd, IsFiller;
    copies := CopyUpToEnd(dis, src, dst, instructions, mem);
    enough := TakePadding(instructions, |copies|);
  }

  method CopyUpToEnd(dis: CDetourDis, src: Addr, dst: Addr, instructions: seq<Word>, mem: Memory)
    returns (copies: seq<Copy>)
    requires src % 4 == 0 && dst % 4 == 0 && |instructions| == 4
    modifies dis
    ensures |copies| == UpToEnd(instructions) && CountWords(copies) <= 6 * |copies|
    ensures forall k :: 0 <= k < |copies| ==> MovedTo(instructions, src, copies, k, dst, mem)
  {
    hide MovedTo, Copied, Wrap, EndsFunction, UpToEnd, CountWords;
    copies := [];
    var pbTrampoline, cbTarget := 0, 0;
    NothingCounted();
    while cbTarget < SizeOfJmp
      invariant cbTarget == 4 * |copies| <= SizeOfJmp && pbTrampoline == 4 * CountWords(copies) <= 24 * |copies|
      invariant forall j :: 0 <= j < |copies| ==> MovedTo(instructions, src, copies, j, dst, mem)
      invariant forall j :: 0 <= j < |copies| ==> !EndsFunction(instructions[j])
      decreases SizeOfJmp - cbTarget
    {
      var k := |copies|;
      TargetAligned(src, 4 * k);
      TargetAligned(dst, pbTrampoline);
      var next, copy, extra := CopyOne(dis, Wrap(src + cbTarget), Wrap(dst + pbTrampoline), instructions[k], mem);
      OneMoreCopy(instructions, src, copies, Copy(copy), dst, mem);
      copies := copies + [Copy(copy)];
      pbTrampoline := pbTrampoline + 4 + extra;
      cbTarget := cbTarget + 4;
      if EndsFunction(instructions[k]) { break; }
    }
    UpToEndIs(instructions, |copies|);
  }

  method CopyOne(dis: CDetourDis, src: Addr, dst: Addr, instruction: Word, mem: Memory)
    returns (next: Addr, code: seq<Word>, extra: int)
    requires src % 4 == 0 && dst % 4 == 0
    modifies dis
    ensures Copied(instruction, src, code, dst, mem) && 1 <= |code| <= 6 && extra == 4 * |code| - 4
  {
    hide Copied, Wrap, TargetOf, Decode, Conditional;
    next, code, extra := dis.CopyInstruction(src, dst, instruction, mem);
  }

  lemma NothingCounted()
    ensures CountWords([]) == 0
  {
  }

  method TakePadding(instructions: seq<Word>, copied: nat) returns (enough: bool)
    requires |instructions| == 4 && copied <= 4
    ensures enough <==> forall j :: copied <= j < 4 ==> IsFiller(instructions[j])
  {
    var cbTarget := 4 * copied;
    while cbTarget < SizeOfJmp
      invariant 4 * copied <= cbTarget <= SizeOfJmp && cbTarget % 4 == 0
      invariant forall j :: copied <= j < cbTarget / 4 ==> IsFiller(instructions[j])
      decreases SizeOfJmp - cbTarget
    {
      if !IsFiller(instructions[cbTarget / 4]) { return false; }
      cbTarget := cbTarget + 4;
    }
    return true;
  }

  /** detour_gen_jmp_immediate with a pool: the literal is put before `pbPool`. */
  method GenJmpImmediate(pbCode: nat, pbPool: nat) returns (jump: seq<Word>, pbLiteral: nat)
    requires pbCode % 4 == 0 && pbPool % 4 == 0 && pbCode + 16 <= pbPool < 0x1000
    ensures pbLiteral == pbPool - 8 && |jump| == 2
    ensures Decode(jump[0]) == LdrLiteral(1, 0, 17, pbLiteral - pbCode) && Decode(jump[1]) == BranchReg(17, false)
  {
    hide Decode;
    pbLiteral := pbPool - 8;
    var delta := pbLiteral - pbCode;
    DecodeLdrLiteral(1, 0, 17, delta);
    DecodeBr(17, 0);
    jump := [AssembleLdrLiteral(1, 0, 17, delta), AssembleBr(17, 0)];
  }

  datatype Copy = Copy(words: seq<Word>)

  function CountWords(copies: seq<Copy>): nat {
    if copies == [] then 0 else CountWords(copies[..|copies| - 1]) + |copies[|copies| - 1].words|
  }

  /** The `k`th copy is right for the place after the ones before it. */
  ghost predicate MovedTo(instructions: seq<Word>, src: Addr, copies: seq<Copy>, k: nat, dst: Addr, mem: Memory) {
    && k < |copies| && k < |instructions|
    && Copied(instructions[k], Wrap(src + 4 * k), copies[k].words, Wrap(dst + 4 * CountWords(copies[..k])), mem)
  }

  lemma OneMoreCopy(instructions: seq<Word>, src: Addr, copies: seq<Copy>, copy: Copy, dst: Addr, mem: Memory)
    requires |copies| < |instructions|
    requires Copied(instructions[|copies|], Wrap(src + 4 * |copies|), copy.words, Wrap(dst + 4 * CountWords(copies)),
                    mem)
    requires forall j :: 0 <= j < |copies| ==> MovedTo(instructions, src, copies, j, dst, mem)
    ensures CountWords(copies + [copy]) == CountWords(copies) + |copy.words|
    ensures forall j :: 0 <= j <= |copies| ==> MovedTo(instructions, src, copies + [copy], j, dst, mem)
  {
    hide MovedTo, Copied, Wrap;
    LastMoved(instructions, src, copies, copy, dst, mem);
    forall j | 0 <= j < |copies| ensures MovedTo(instructions, src, copies + [copy], j, dst, mem) {
      StillMoved(instructions, src, copies, copy, j, dst, mem);
    }
  }

  lemma LastMoved(instructions: seq<Word>, src: Addr, copies: seq<Copy>, copy: Copy, dst: Addr, mem: Memory)
    requires |copies| < |instructions|
    requires Copied(instructions[|copies|], Wrap(src + 4 * |copies|), copy.words, Wrap(dst + 4 * CountWords(copies)),
                    mem)
    ensures CountWords(copies + [copy]) == CountWords(copies) + |copy.words|
    ensures MovedTo(instructions, src, copies + [copy], |copies|, dst, mem)
  {
    hide Copied, Wrap, CountWords;
    CountOneMore(copies, copy);
    var copies' := copies + [copy];
    assert copies'[..|copies|] == copies && copies'[|copies|] == copy;
  }

  lemma CountOneMore(copies: seq<Copy>, copy: Copy)
    ensures CountWords(copies + [copy]) == CountWords(copies) + |copy.words|
  {
    assert (copies + [copy])[..|copies|] == copies;
  }

  lemma StillMoved(instructions: seq<Word>, src: Addr, copies: seq<Copy>, copy: Copy, j: nat, dst: Addr, mem: Memory)
    requires j < |copies| && MovedTo(instructions, src, copies, j, dst, mem)
    ensures MovedTo(instructions, src, copies + [copy], j, dst, mem)
  {
    hide Copied, Wrap, CountWords;
    assert (copies + [copy])[..j] == copies[..j];
  }

  /** All the words, in order. */
  function Flat(copies: seq<Copy>): seq<Word> {
    if copies == [] then [] else copies[0].words + Flat(copies[1..])
  }

  // ------------------------------------------------------------------ running parts

  /** Running two sequences one after the other. */
  lemma {:induction false} RunAppend(a: seq<Word>, b: seq<Word>, pc: Addr, s: State, other: Others)
    ensures var r := Run(a, pc, s, other);
      Run(a + b, pc, s, other) ==
        match r.flow
        case FallThrough => Run(b, EndOf(a, pc), r.s, other)
        case Goto(t) => Land(b, EndOf(a, pc), t, r.s, other)
        case Undefined => r
    decreases |a|, 0
  {
    hide Exec, Decode, Wrap;
    if a == [] {
      assert a + b == b;
      WrapId(pc);
    } else {
      var rest, r := a[1..], Exec(Decode(a[0]), pc, s, other);
      assert a + b == [a[0]] + (rest + b) && a == [a[0]] + rest;
      RunFirst(a[0], rest, pc, s, other);
      RunFirst(a[0], rest + b, pc, s, other);
      EndOfRest(a, pc);
      match r.flow {
        case FallThrough => RunAppend(rest, b, Wrap(pc + 4), r.s, other);
        case Goto(t) => LandAppend(rest, b, Wrap(pc + 4), t, r.s, other);
        case Undefined =>
      }
    }
  }

  lemma {:induction false} LandAppend(a: seq<Word>, b: seq<Word>, at: Addr, t: Addr, s: State, other: Others)
    ensures var r := Land(a, at, t, s, other);
      Land(a + b, at, t, s, other) ==
        match r.flow
        case FallThrough => Run(b, EndOf(a, at), r.s, other)
        case Goto(t') => Land(b, EndOf(a, at), t', r.s, other)
        case Undefined => r
    decreases |a|, 1
  {
    hide Exec, Decode, Wrap, Run;
    if t == at {
      RunAppend(a, b, at, s, other);
      if a == [] { RunNothing(at, s, other, t); }
    } else if a == [] {
      assert a + b == b;
      WrapId(at);
    } else {
      assert (a + b)[1..] == a[1..] + b;
      EndOfRest(a, at);
      LandAppend(a[1..], b, Wrap(at + 4), t, s, other);
    }
  }

  lemma WrapId(a: Addr)
    ensures Wrap(a) == a && EndOf([], a) == a
  {
  }

  lemma EndOfRest(a: seq<Word>, pc: Addr)
    requires a != []
    ensures EndOf(a, pc) == EndOf(a[1..], Wrap(pc + 4))
  {
    WrapAdd(pc + 4, 4 * |a[1..]|);
    hide Wrap;
    assert pc + 4 + 4 * |a[1..]| == pc + 4 * |a|;
  }

  /** `t` is none of the places in or at the end of `n` words at `at`. */
  ghost predicate NotIn(t: Addr, at: Addr, n: nat) { forall j :: 0 <= j <= n ==> t != Wrap(at + 4 * j) }

  lemma {:induction false} LandOutside(b: seq<Word>, at: Addr, t: Addr, s: State, other: Others)
    requires NotIn(t, at, |b|)
    ensures Land(b, at, t, s, other) == Result(s, Goto(t))
  {
    hide Run;
    assert t != Wrap(at + 4 * 0);
    WrapId(at);
    if b != [] {
      NotInRest(t, at, |b|);
      LandOutside(b[1..], Wrap(at + 4), t, s, other);
    }
  }

  lemma NotInRest(t: Addr, at: Addr, n: nat)
    requires n > 0 && NotIn(t, at, n)
    ensures NotIn(t, Wrap(at + 4), n - 1)
  {
    hide Wrap;
    forall j | 0 <= j <= n - 1 ensures t != Wrap(Wrap(at + 4) + 4 * j) {
      WrapAdd(at + 4, 4 * j);
      assert t != Wrap(at + 4 * (j + 1));
      assert at + 4 + 4 * j == at + 4 * (j + 1);
    }
  }

  /** A run does not leave its own sequence for the end of it. */
  lemma {:induction false} NeverToEnd(code: seq<Word>, pc: Addr, s: State, other: Others)
    ensures Run(code, pc, s, other).flow != Goto(EndOf(code, pc))
    decreases |code|, 0
  {
    hide Exec, Decode, Wrap;
    if code != [] {
      var r := Exec(Decode(code[0]), pc, s, other);
      EndOfRest(code, pc);
      match r.flow {
        case FallThrough => NeverToEnd(code[1..], Wrap(pc + 4), r.s, other);
        case Goto(t) => NeverLandsAtEnd(code[1..], Wrap(pc + 4), t, r.s, other);
        case Undefined =>
      }
    }
  }

  lemma {:induction false} NeverLandsAtEnd(code: seq<Word>, at: Addr, t: Addr, s: State, other: Others)
    ensures Land(code, at, t, s, other).flow != Goto(EndOf(code, at))
    decreases |code|, 1
  {
    hide Exec, Decode, Wrap, Run;
    if t == at {
      NeverToEnd(code, at, s, other);
    } else if code != [] {
      EndOfRest(code, at);
      NeverLandsAtEnd(code[1..], Wrap(at + 4), t, s, other);
    } else {
      WrapId(at);
    }
  }

  // ------------------------------------------------------------ running the trampoline

  /** The instructions one after the other, until control leaves them. */
  function Steps(ws: seq<Word>, pc: Addr, s: State, other: Others): Result {
    if ws == [] then Result(s, FallThrough) else
    var r := Exec(Decode(ws[0]), pc, s, other);
    if r.flow.FallThrough? then Steps(ws[1..], Wrap(pc + 4), r.s, other) else r
  }

  /** Which of them control leaves at. */
  function Exit(ws: seq<Word>, pc: Addr, s: State, other: Others): (k: nat)
    ensures k <= |ws|
  {
    if ws == [] then 0 else
    var r := Exec(Decode(ws[0]), pc, s, other);
    if r.flow.FallThrough? then 1 + Exit(ws[1..], Wrap(pc + 4), r.s, other) else 0
  }

  /** The literals that are loaded are those that were there when the copies were made. */
  ghost predicate Undisturbed(ws: seq<Word>, pc: Addr, s: State, other: Others, mem: Memory) {
    ws == [] || (SameLiteral(Decode(ws[0]), pc, s.mem, mem) &&
                 var r := Exec(Decode(ws[0]), pc, s, other);
                 r.flow.FallThrough? ==> Undisturbed(ws[1..], Wrap(pc + 4), r.s, other, mem))
  }

  /** The same but for x17, which a function may not expect anything of when it is entered. */
  ghost predicate Same17(s: State, s': State) {
    && Visible(s'.regs, true) == Visible(s.regs, true)
    && s'.sp == s.sp && s'.simd == s.simd && s'.flags == s.flags && s'.mem == s.mem
  }

  /** An instruction that makes no use of x17. */
  ghost predicate Blind(w: Word, pc: Addr, other: Others) {
    forall s: State, s': State {:trigger Same17(s, s')} | Same17(s, s') ::
      var r, r' := Exec(Decode(w), pc, s, other), Exec(Decode(w), pc, s', other);
      r'.flow == r.flow && Same17(r.s, r'.s)
  }

  /** A copy that means the same, run in a state with another x17. */
  lemma OneCopyRuns(w: Word, src: Addr, code: seq<Word>, dst: Addr, mem: Memory, s: State, s': State, other: Others)
    requires SameMeaning(w, src, code, dst, mem) && SameLiteral(Decode(w), src, s.mem, mem)
    requires Blind(w, src, other) && Same17(s, s')
    ensures var r, r', end := Exec(Decode(w), src, s, other), Run(code, dst, s', other), EndOf(code, dst);
      && r'.flow.Undefined? == r.flow.Undefined?
      && (!r.flow.Undefined? ==>
            PcOf(r'.flow, end) == PcOf(r.flow, end) && Same17(if Links(Decode(w)) then Linked(r.s, end) else r.s, r'.s))
  {
    hide Decode, Exec, Run, EndOf, LoadGeneral, Wrap;
    var i := Decode(w);
    assert Matches(Links(i), true, Exec(i, src, s', other), Run(code, dst, s', other), EndOf(code, dst)) by {
      CopyMatches(w, src, code, dst, mem, s', other);
    }
    var r, r0, end := Exec(i, src, s, other), Exec(i, src, s', other), EndOf(code, dst);
    assert r0.flow == r.flow && Same17(r.s, r0.s);
    LinkedSame(r.s, r0.s, end);
  }

  function Linked(s: State, end: Addr): State { State(s.regs[30 := end], s.sp, s.simd, s.flags, s.mem) }

  lemma LinkedSame(s: State, s': State, end: Addr)
    requires Same17(s, s')
    ensures Same17(Linked(s, end), Linked(s', end))
  {
    assert s.regs[30 := end][17 := 0] == s.regs[17 := 0][30 := end];
    assert s'.regs[30 := end][17 := 0] == s'.regs[17 := 0][30 := end];
  }

  lemma CopyMatches(w: Word, src: Addr, code: seq<Word>, dst: Addr, mem: Memory, s: State, other: Others)
    requires SameMeaning(w, src, code, dst, mem) && SameLiteral(Decode(w), src, s.mem, mem)
    ensures Matches(Links(Decode(w)), true, Exec(Decode(w), src, s, other), Run(code, dst, s, other), EndOf(code, dst))
  {
    hide Decode, Exec, Run, EndOf, LoadGeneral, Wrap, TargetOf, IsNear, IsMid, IsNearLiteral;
    var i := Decode(w);
    var free := !ReadsLiteral(i, src, dst) && Uses17(i, src, dst);
    assert Preserves(w, src, code, dst, s.mem, free);
    assert Matches(Links(i), free, Exec(i, src, s, other), Run(code, dst, s, other), EndOf(code, dst));
  }

  /** The jump back loads its target from the literal, into x17. */
  lemma JumpRuns(jump: seq<Word>, pc: Addr, delta: int, s: State, other: Others)
    requires |jump| == 2 && Decode(jump[0]) == LdrLiteral(1, 0, 17, delta) && Decode(jump[1]) == BranchReg(17, false)
    requires NotIn(s.mem.dword(Wrap(pc + delta)), pc, 2)
    ensures var r := Run(jump, pc, s, other); r.flow == Goto(s.mem.dword(Wrap(pc + delta))) && Same17(s, r.s)
  {
    var t := s.mem.dword(Wrap(pc + delta));
    assert Exec(Decode(jump[0]), pc, s, other) == Result(Set(s, 17, t), FallThrough);
    assert Exec(Decode(jump[1]), Wrap(pc + 4), Set(s, 17, t), other) == Result(Set(s, 17, t), Goto(t));
    hide Decode, Exec, Run, Wrap;
    assert jump == [jump[0]] + [jump[1]] && [jump[1]] == [jump[1]] + [];
    RunFirst(jump[0], [jump[1]], pc, s, other);
    RunFirst(jump[1], [], Wrap(pc + 4), Set(s, 17, t), other);
    NotInRest(t, pc, 2);
    NotInRest(t, Wrap(pc + 4), 1);
    LandOutside([], Wrap(Wrap(pc + 4) + 4), t, Set(s, 17, t), other);
    Visible17(s, t);
  }

  /** What the trampoline may do when the originals do `r`: go on at the same place, at `rest` after
      the last one, in the same state but for x17, and for the link of a call, which is the place
      after its copy. */
  ghost predicate SameOutcome(r: Result, r': Result, rest: Addr, links: bool, link: Addr) {
    && r'.flow.Undefined? == r.flow.Undefined?
    && (!r.flow.Undefined? ==>
          r'.flow == Goto(PcOf(r.flow, rest)) && Same17(if links then Linked(r.s, link) else r.s, r'.s))
  }

  /** All copies mean what their originals mean. */
  ghost predicate AllSame(instructions: seq<Word>, src: Addr, copies: seq<Copy>, dst: Addr, mem: Memory) {
    |copies| <= |instructions| && forall k :: 0 <= k < |copies| ==> SameAt(instructions, src, copies, k, dst, mem)
  }

  ghost predicate SameAt(instructions: seq<Word>, src: Addr, copies: seq<Copy>, k: nat, dst: Addr, mem: Memory)
    requires k < |copies| && k < |instructions|
  {
    SameMeaning(instructions[k], Wrap(src + 4 * k), copies[k].words, PlaceOf(copies, k, dst), mem)
  }

  /** Where the `k`th copy is. */
  function PlaceOf(copies: seq<Copy>, k: nat, dst: Addr): Addr
    requires k <= |copies|
  {
    Wrap(dst + 4 * CountWords(copies[..k]))
  }

  lemma {:induction false} CountsAdd(copies: seq<Copy>, k: nat)
    requires k <= |copies|
    ensures CountWords(copies[..k]) + |Flat(copies[k..])| == CountWords(copies) == |Flat(copies)|
    decreases |copies| - k
  {
    if k == |copies| {
      assert copies[..k] == copies && copies[k..] == [];
      FlatCounts(copies);
    } else {
      CountsAdd(copies, k + 1);
      CountOneMore(copies[..k], copies[k]);
      assert copies[..k + 1] == copies[..k] + [copies[k]];
      assert copies[k..][0] == copies[k] && copies[k..][1..] == copies[k + 1..];
    }
  }

  lemma {:induction false} FlatCounts(copies: seq<Copy>)
    ensures |Flat(copies)| == CountWords(copies)
  {
    if copies != [] {
      var n := |copies| - 1;
      FlatCounts(copies[..n]);
      FlatLast(copies);
    }
  }

  lemma {:induction false} FlatLast(copies: seq<Copy>)
    requires copies != []
    ensures Flat(copies) == Flat(copies[..|copies| - 1]) + copies[|copies| - 1].words
  {
    if |copies| > 1 {
      FlatLast(copies[1..]);
      assert copies[1..][..|copies| - 2] == copies[..|copies| - 1][1..];
    }
  }

  /** The end of a copy is the place of the next one. */
  lemma PlaceNext(copies: seq<Copy>, k: nat, dst: Addr)
    requires k < |copies|
    ensures EndOf(copies[k].words, PlaceOf(copies, k, dst)) == PlaceOf(copies, k + 1, dst)
  {
    CountOneMore(copies[..k], copies[k]);
    assert copies[..k + 1] == copies[..k] + [copies[k]];
    WrapAdd(dst + 4 * CountWords(copies[..k]), 4 * |copies[k].words|);
  }

  lemma NotInFrom(t: Addr, dst: Addr, n: nat, c: nat)
    requires NotIn(t, dst, n) && c <= n
    ensures NotIn(t, Wrap(dst + 4 * c), n - c)
  {
    hide Wrap;
    forall j | 0 <= j <= n - c ensures t != Wrap(Wrap(dst + 4 * c) + 4 * j) {
      WrapAdd(dst + 4 * c, 4 * j);
      assert dst + 4 * c + 4 * j == dst + 4 * (c + j);
      assert t != Wrap(dst + 4 * (c + j));
    }
  }

  /** The trampoline behind the first `k` copies. */
  function CodeFrom(copies: seq<Copy>, jump: seq<Word>, k: nat): seq<Word>
    requires k <= |copies|
  {
    Flat(copies[k..]) + jump
  }

  /** Where control goes and what is in memory let the trampoline go on where the originals do. */
  ghost predicate Returns(r: Result, copies: seq<Copy>, dst: Addr, delta: int, rest: Addr) {
    match r.flow
    case FallThrough => r.s.mem.dword(Wrap(PlaceOf(copies, |copies|, dst) + delta)) == rest
      && NotIn(rest, dst, CountWords(copies) + 2)
    case Goto(t) => NotIn(t, dst, CountWords(copies) + 2)
    case Undefined => true
  }

  ghost predicate LeavesLinked(instructions: seq<Word>, n: nat, e: nat)
    requires n <= |instructions|
  {
    e < n && Links(Decode(instructions[e]))
  }

  function LinkOf(copies: seq<Copy>, e: nat, dst: Addr): Addr {
    if e < |copies| then PlaceOf(copies, e + 1, dst) else 0
  }

  lemma {:induction false} RunFrom(instructions: seq<Word>, src: Addr, copies: seq<Copy>, dst: Addr, jump: seq<Word>,
                                   delta: int, mem: Memory, rest: Addr, k: nat, s: State, s': State, other: Others)
    requires AllSame(instructions, src, copies, dst, mem) && k <= |copies|
    requires forall j :: 0 <= j < |copies| ==> Blind(instructions[j], Wrap(src + 4 * j), other)
    requires |jump| == 2 && Decode(jump[0]) == LdrLiteral(1, 0, 17, delta) && Decode(jump[1]) == BranchReg(17, false)
    requires Same17(s, s') && Undisturbed(instructions[k..|copies|], Wrap(src + 4 * k), s, other, mem)
    requires Returns(Steps(instructions[k..|copies|], Wrap(src + 4 * k), s, other), copies, dst, delta, rest)
    ensures var ws, pc := instructions[k..|copies|], Wrap(src + 4 * k);
      var e := k + Exit(ws, pc, s, other);
      SameOutcome(Steps(ws, pc, s, other), Run(CodeFrom(copies, jump, k), PlaceOf(copies, k, dst), s', other), rest,
        LeavesLinked(instructions, |copies|, e), LinkOf(copies, e, dst))
    decreases |copies| - k
  {
    hide Decode, Exec, Run, EndOf, Wrap, Blind, SameMeaning, Same17, SameLiteral, NotIn, Visible;
    var n, at, pc := |copies|, PlaceOf(copies, k, dst), Wrap(src + 4 * k);
    if k == n {
      assert instructions[k..n] == [] && CodeFrom(copies, jump, k) == jump by {
        assert copies[k..] == [];
        assert [] + jump == jump;
      }
      JumpBackRuns(copies, jump, dst, delta, rest, s, s', other);
    } else {
      var w, ws := instructions[k], instructions[k..n];
      assert ws[0] == w && ws[1..] == instructions[k + 1..n];
      assert SameAt(instructions, src, copies, k, dst, mem) && Blind(w, pc, other);
      OneCopyRuns(w, pc, copies[k].words, at, mem, s, s', other);
      PlaceNext(copies, k, dst);
      NextWord(src, k);
      assert CodeFrom(copies, jump, k) == copies[k].words + CodeFrom(copies, jump, k + 1) by {
        CodeParts(copies, jump, k);
      }
      var r, r' := Exec(Decode(w), pc, s, other), Run(copies[k].words, at, s', other);
      RunAppend(copies[k].words, CodeFrom(copies, jump, k + 1), at, s', other);
      NeverToEnd(copies[k].words, at, s', other);
      match r.flow {
        case FallThrough =>
          FallsThrough(w, pc, s, other);
          RunFrom(instructions, src, copies, dst, jump, delta, mem, rest, k + 1, r.s, r'.s, other);
        case Goto(t) =>
          assert NotIn(t, PlaceOf(copies, k + 1, dst), |CodeFrom(copies, jump, k + 1)|)
            && t != PlaceOf(copies, k + 1, dst) by {
            OutsideRest(t, copies, jump, dst, k + 1);
          }
          LandOutside(CodeFrom(copies, jump, k + 1), PlaceOf(copies, k + 1, dst), t, r'.s, other);
        case Undefined =>
      }
    }
  }

  lemma NextWord(src: Addr, k: nat)
    ensures Wrap(Wrap(src + 4 * k) + 4) == Wrap(src + 4 * (k + 1))
  {
    WrapAdd(src + 4 * k, 4);
    assert src + 4 * k + 4 == src + 4 * (k + 1);
  }

  /** A call or a branch does not fall through. */
  lemma FallsThrough(w: Word, pc: Addr, s: State, other: Others)
    requires Exec(Decode(w), pc, s, other).flow.FallThrough?
    ensures !Links(Decode(w))
  {
    hide Decode;
  }

  lemma CodeParts(copies: seq<Copy>, jump: seq<Word>, k: nat)
    requires k < |copies|
    ensures CodeFrom(copies, jump, k) == copies[k].words + CodeFrom(copies, jump, k + 1)
  {
    assert copies[k..][0] == copies[k] && copies[k..][1..] == copies[k + 1..];
  }

  lemma NotInStart(t: Addr, at: Addr, n: nat)
    requires NotIn(t, at, n)
    ensures t != at
  {
    assert t != Wrap(at + 4 * 0);
    WrapId(at);
  }

  lemma OutsideRest(t: Addr, copies: seq<Copy>, jump: seq<Word>, dst: Addr, k: nat)
    requires k <= |copies| && |jump| == 2 && NotIn(t, dst, CountWords(copies) + 2)
    ensures NotIn(t, PlaceOf(copies, k, dst), |CodeFrom(copies, jump, k)|) && t != PlaceOf(copies, k, dst)
  {
    hide Wrap, NotIn;
    CountsAdd(copies, k);
    var c, at := CountWords(copies[..k]), PlaceOf(copies, k, dst);
    assert NotIn(t, at, CountWords(copies) + 2 - c) by { NotInFrom(t, dst, CountWords(copies) + 2, c); }
    NotInStart(t, at, CountWords(copies) + 2 - c);
  }

  lemma JumpBackRuns(copies: seq<Copy>, jump: seq<Word>, dst: Addr, delta: int, rest: Addr, s: State, s': State,
                     other: Others)
    requires |jump| == 2 && Decode(jump[0]) == LdrLiteral(1, 0, 17, delta) && Decode(jump[1]) == BranchReg(17, false)
    requires Same17(s, s') && Returns(Result(s, FallThrough), copies, dst, delta, rest)
    ensures SameOutcome(Result(s, FallThrough), Run(jump, PlaceOf(copies, |copies|, dst), s', other), rest, false, 0)
  {
    hide Decode, Run, Wrap;
    var at := PlaceOf(copies, |copies|, dst);
    assert copies[|copies|..] == [] && Flat(copies[|copies|..]) == [];
    OutsideRest(rest, copies, jump, dst, |copies|);
    assert |CodeFrom(copies, jump, |copies|)| == 2;
    JumpRuns(jump, at, delta, s', other);
  }

  /** Where no branch aims at a later one of the instructions, or at their end, taking them one after
      the other is what running them does. */
  lemma {:induction false} StepsAreRun(ws: seq<Word>, pc: Addr, s: State, other: Others)
    requires var r := Steps(ws, pc, s, other); r.flow.Goto? && ws != [] ==> NotIn(r.flow.target, Wrap(pc + 4), |ws| - 1)
    ensures Run(ws, pc, s, other) == Steps(ws, pc, s, other)
    decreases |ws|
  {
    hide Decode, Exec, Run, Wrap, NotIn;
    if ws == [] {
      RunNothing(pc, s, other, 0);
    } else {
      var rest, r := ws[1..], Exec(Decode(ws[0]), pc, s, other);
      assert ws == [ws[0]] + rest;
      RunFirst(ws[0], rest, pc, s, other);
      match r.flow {
        case FallThrough =>
          var r' := Steps(rest, Wrap(pc + 4), r.s, other);
          if r'.flow.Goto? && rest != [] { NotInRest(r'.flow.target, Wrap(pc + 4), |rest|); }
          StepsAreRun(rest, Wrap(pc + 4), r.s, other);
        case Goto(t) => LandOutside(rest, Wrap(pc + 4), t, r.s, other);
        case Undefined =>
      }
    }
  }

  /** The instructions to which the value of x17 matters, if not only for x17 itself. */
  predicate Needs17(i: Insn) {
    match i
    case BranchReg(rn, _) => rn == 17
    case Cbz(_, _, rt, _) => rt == 17
    case Tbz(_, rt, _, _) => rt == 17
    case LdrFpNeon(_, _, rn, _) => rn == 17
    case AddImm(_, rd, rn, _, _) => rn == 17 && rd != 17
    case _ => false
  }

  /** All others make no use of it, if those that are not modelled do not. */
  lemma BlindUnlessRead(w: Word, pc: Addr, other: Others)
    requires !Needs17(Decode(w))
    requires Decode(w).Other? ==> forall s: State, s': State {:trigger Same17(s, s')} | Same17(s, s') ::
      other(w, s').flow == other(w, s).flow && Same17(other(w, s).s, other(w, s').s)
    ensures Blind(w, pc, other)
  {
    var i := Decode(w);
    OtherIsItself(w);
    hide Decode, Wrap, Exec, Same17, Needs17, Get;
    forall s: State, s': State | Same17(s, s')
      ensures var r, r' := Exec(i, pc, s, other), Exec(i, pc, s', other); r'.flow == r.flow && Same17(r.s, r'.s)
    {
      if i.Other? {
        OtherRuns(i, pc, s, other);
        OtherRuns(i, pc, s', other);
      } else {
        ExecSame(i, pc, s, s', other);
      }
    }
  }

  lemma OtherRuns(i: Insn, pc: Addr, s: State, other: Others)
    requires i.Other?
    ensures Exec(i, pc, s, other) == other(i.word, s)
  {
  }

  lemma OtherIsItself(w: Word)
    ensures Decode(w).Other? ==> Decode(w).word == w
  {
  }

  lemma GetSame(s: State, s': State)
    requires Same17(s, s')
    ensures forall r: Reg :: r != 17 ==> Get(s', r) == Get(s, r)
    ensures s'.sp == s.sp && s'.simd == s.simd && s'.flags == s.flags && s'.mem == s.mem
  {
    forall r: Reg | r != 17 ensures Get(s', r) == Get(s, r) {
      assert r in s'.regs[17 := 0] <==> r in s.regs[17 := 0];
      assert r in s.regs ==> s'.regs[17 := 0][r] == s.regs[17 := 0][r];
    }
  }

  lemma SetSame(s: State, s': State, rd: Reg, v: u64)
    requires Same17(s, s')
    ensures Same17(Set(s, rd, v), Set(s', rd, v))
  {
    assert s.regs[rd := v][17 := 0] == if rd == 17 then s.regs[17 := 0] else s.regs[17 := 0][rd := v];
    assert s'.regs[rd := v][17 := 0] == if rd == 17 then s'.regs[17 := 0] else s'.regs[17 := 0][rd := v];
  }

  lemma SetHidden(s: State, s': State, v: u64, v': u64)
    requires Same17(s, s')
    ensures Same17(Set(s, 17, v), Set(s', 17, v'))
  {
    assert s.regs[17 := v][17 := 0] == s.regs[17 := 0];
    assert s'.regs[17 := v'][17 := 0] == s'.regs[17 := 0];
  }

  lemma ExecSame(i: Insn, pc: Addr, s: State, s': State, other: Others)
    requires Same17(s, s') && !Needs17(i) && !i.Other?
    ensures var r, r' := Exec(i, pc, s, other), Exec(i, pc, s', other); r'.flow == r.flow && Same17(r.s, r'.s)
  {
    GetSame(s, s');
    hide Get, Set, Wrap, Holds, TestBit, Sized, LoadGeneral, MovResult, Visible;
    forall rd: Reg, v: u64 {:trigger Set(s, rd, v)} ensures Same17(Set(s, rd, v), Set(s', rd, v)) {
      SetSame(s, s', rd, v);
    }
    forall v: u64, v': u64 ensures Same17(Set(s, 17, v), Set(s', 17, v')) { SetHidden(s, s', v, v'); }
  }

  /** And those do, in some states. */
  lemma NotBlind(w: Word, pc: Addr, other: Others)
    requires Needs17(Decode(w))
    ensures !Blind(w, pc, other)
  {
    var i := Decode(w);
    var mem := Memory((x: Addr) => 0, (x: Addr) => 0, (n: int, x: Addr) => x);
    var flags := Flags(false, false, false, false);
    var s, s' := State(map[17 := 0], 0, map[], flags, mem), State(map[17 := TwoTo64 - 1], 0, map[], flags, mem);
    assert s'.regs[17 := 0] == s.regs[17 := 0] == map[17 := 0];
    assert Same17(s, s');
    FieldsSmall(w);
    hide Decode;
    Exec17Differs(i, pc, s, s', other);
  }

  lemma FieldsSmall(w: Word)
    ensures var i := Decode(w);
      && WellFormed(i) && (i.LdrFpNeon? ==> 0 <= i.size <= 4)
      && (i.AddImm? ==> 0 <= i.size <= 1 && 0 <= i.imm < 0x1000)
  {
    DecodedFields(w);
    var op, low := Op(w), Low(w);
    hide Decode, Op, Low, Signed;
    Halves(w);
    Parts(op, low);
  }

  lemma Halves(w: Word)
    ensures w == Op(w) * 0x100_0000 + Low(w)
  {
  }

  lemma Exec17Differs(i: Insn, pc: Addr, s: State, s': State, other: Others)
    requires Needs17(i) && WellFormed(i) && (i.LdrFpNeon? ==> 0 <= i.size <= 4)
      && (i.AddImm? ==> 0 <= i.size <= 1 && 0 <= i.imm < 0x1000)
    requires s.regs == map[17 := 0] && s'.regs == map[17 := TwoTo64 - 1] && s.mem == s'.mem
      && forall n, x: Addr :: s.mem.fpNeon(n, x) == x
    ensures var r, r' := Exec(i, pc, s, other), Exec(i, pc, s', other); !(r'.flow == r.flow && Same17(r.s, r'.s))
  {
    match i
    case BranchReg(_, _) =>
    case Cbz(_, _, _, _) =>
    case Tbz(_, _, bit, _) =>
      hide TestBit, Wrap;
      Ones64();
      OnesBit(64, bit);
    case LdrFpNeon(size, rt, _, imm) =>
      hide Wrap;
      var d := imm * SizeInBytes(size);
      WrapBelow(d);
      var r, r' := Exec(i, pc, s, other), Exec(i, pc, s', other);
      assert r.s.simd[rt] == Wrap(d) && r'.s.simd[rt] == Wrap(TwoTo64 - 1 + d);
    case AddImm(size, rd, _, imm, shift) =>
      hide Wrap;
      var d := if shift == 1 then imm * 0x1000 else imm;
      SizedBelow(d, size);
      var r, r' := Exec(i, pc, s, other), Exec(i, pc, s', other);
      if rd != 31 {
        assert Visible(r.s.regs, true)[rd] == Sized(Wrap(d), size);
        assert Visible(r'.s.regs, true)[rd] == Sized(Wrap(TwoTo64 - 1 + d), size);
      }
  }

  lemma WrapBelow(d: int)
    ensures Wrap(d) != Wrap(TwoTo64 - 1 + d)
  {
    SameWrap(d, d - 1);
    WrapTimes(d - 1, 1);
  }

  lemma SameWrap(x: int, y: int)
    requires -TwoTo64 < x - y < TwoTo64
    ensures Wrap(x) == Wrap(y) <==> x == y
  {
  }

  lemma SizedBelow(d: int, size: int)
    requires 0 <= d < 0x100_0000
    ensures Sized(Wrap(d), size) != Sized(Wrap(TwoTo64 - 1 + d), size)
  {
    if d == 0 {
      assert Wrap(TwoTo64 - 1) == TwoTo64 - 1 && Wrap(0) == 0;
      assert (TwoTo64 - 1) % 0x1_0000_0000 == 0xffff_ffff;
    } else {
      assert Wrap(d) == d;
      WrapTimes(d - 1, 1);
      assert Wrap(d - 1) == d - 1;
    }
  }

  /** A word that does nothing, as a nop. */
  ghost predicate Idle(w: Word, other: Others) {
    Decode(w).Other? && forall s: State :: other(w, s) == Result(s, FallThrough)
  }

  /** Padding after the moved instructions, if they fall through at all. */
  ghost predicate PaddingIsIdle(instructions: seq<Word>, n: nat, src: Addr, s: State, other: Others)
    requires n <= |instructions|
  {
    Steps(instructions[..n], src, s, other).flow.FallThrough? ==>
      forall j :: n <= j < |instructions| ==> Idle(instructions[j], other)
  }

  lemma {:induction false} IdleSteps(ws: seq<Word>, pc: Addr, s: State, other: Others)
    requires forall j :: 0 <= j < |ws| ==> Idle(ws[j], other)
    ensures Steps(ws, pc, s, other) == Result(s, FallThrough) && Exit(ws, pc, s, other) == |ws|
    decreases |ws|
  {
    if ws != [] {
      OtherIsItself(ws[0]);
      assert Idle(ws[0], other);
      hide Decode, Wrap;
      IdleSteps(ws[1..], Wrap(pc + 4), s, other);
    }
  }

  /** Taking more instructions goes on where taking the first ones has ended. */
  lemma {:induction false} StepsAppend(ws: seq<Word>, more: seq<Word>, pc: Addr, s: State, other: Others)
    ensures var r := Steps(ws, pc, s, other);
      var at := EndOf(ws, pc);
      Steps(ws + more, pc, s, other) == (if r.flow.FallThrough? then Steps(more, at, r.s, other) else r)
    ensures var r := Steps(ws, pc, s, other);
      if r.flow.FallThrough? then
        Exit(ws, pc, s, other) == |ws| && Exit(ws + more, pc, s, other) == |ws| + Exit(more, EndOf(ws, pc), r.s, other)
      else Exit(ws + more, pc, s, other) == Exit(ws, pc, s, other) < |ws|
    decreases |ws|
  {
    hide Decode, Exec, Wrap;
    if ws == [] {
      assert ws + more == more;
      WrapId(pc);
    } else {
      assert (ws + more)[0] == ws[0] && (ws + more)[1..] == ws[1..] + more;
      EndOfRest(ws, pc);
      hide EndOf;
      StepsAppend(ws[1..], more, Wrap(pc + 4), Exec(Decode(ws[0]), pc, s, other).s, other);
    }
  }

  /** The whole of it: the moved instructions of a prologue, all of whose copies mean the same and
      which make no use of x17.  Run in the trampoline, with the jump back behind them, they go on
      where the four overwritten words would, in the state in which those would, but for x17 and the
      link of a call.  Where fewer than four are moved and the last one does not end the function
      after all, the padding must be of nops. */
  lemma PrologueRuns(instructions: seq<Word>, src: Addr, copies: seq<Copy>, dst: Addr, jump: seq<Word>, delta: int,
                     mem: Memory, s: State, other: Others)
    requires |instructions| == 4 && |copies| == UpToEnd(instructions)
    requires forall k :: 0 <= k < |copies| ==> MovedTo(instructions, src, copies, k, dst, mem)
    requires forall k :: 0 <= k < |copies| ==>
      Kept(Decode(instructions[k]), Wrap(src + 4 * k), PlaceOf(copies, k, dst))
    requires forall k :: 0 <= k < |copies| ==> Blind(instructions[k], Wrap(src + 4 * k), other)
    requires |jump| == 2 && Decode(jump[0]) == LdrLiteral(1, 0, 17, delta) && Decode(jump[1]) == BranchReg(17, false)
    requires Undisturbed(instructions[..|copies|], src, s, other, mem)
    requires PaddingIsIdle(instructions, |copies|, src, s, other)
    requires Returns(Steps(instructions, src, s, other), copies, dst, delta, Wrap(src + 16))
    ensures var e := Exit(instructions, src, s, other);
      SameOutcome(Steps(instructions, src, s, other), Run(Flat(copies) + jump, dst, s, other), Wrap(src + 16),
        LeavesLinked(instructions, |copies|, e), LinkOf(copies, e, dst))
    // running the originals is taking them one after the other, if none aims at the overwritten bytes behind it
    ensures var r := Steps(instructions, src, s, other);
      (r.flow.Goto? ==> NotIn(r.flow.target, Wrap(src + 4), 3)) ==> Run(instructions, src, s, other) == r
  {
    hide Decode, Run, Steps, Exit, Undisturbed, Returns, Blind, Kept, SameMeaning, UpToEnd, SameOutcome, NotIn, Idle;
    hide LeavesLinked, LinkOf;
    var was := Steps(instructions, src, s, other);
    if was.flow.Goto? ==> NotIn(was.flow.target, Wrap(src + 4), 3) { StepsAreRun(instructions, src, s, other); }
    MovedSteps(instructions, |copies|, src, s, other);
    MovedRuns(instructions, src, copies, dst, jump, delta, mem, s, other);
    SameExit(instructions, copies, dst, Exit(instructions[..|copies|], src, s, other),
             Exit(instructions, src, s, other));
  }

  /** Behind the last copy there is no link. */
  lemma SameExit(instructions: seq<Word>, copies: seq<Copy>, dst: Addr, e: nat, e': nat)
    requires |copies| <= |instructions| && (e' == e || (e == |copies| && e' >= e))
    ensures LeavesLinked(instructions, |copies|, e') == LeavesLinked(instructions, |copies|, e)
    ensures LinkOf(copies, e', dst) == LinkOf(copies, e, dst)
  {
    hide Decode;
  }

  lemma MovedSteps(instructions: seq<Word>, n: nat, src: Addr, s: State, other: Others)
    requires n <= |instructions| && PaddingIsIdle(instructions, n, src, s, other)
    ensures Steps(instructions, src, s, other) == Steps(instructions[..n], src, s, other)
    ensures var e, e' := Exit(instructions[..n], src, s, other), Exit(instructions, src, s, other);
      e' == e || (e == n && e' >= e)
  {
    hide Decode, Exec, Wrap, Idle;
    var ws, more := instructions[..n], instructions[n..];
    assert ws + more == instructions;
    StepsAppend(ws, more, src, s, other);
    var r := Steps(ws, src, s, other);
    if r.flow.FallThrough? {
      IdleSteps(more, EndOf(ws, src), r.s, other);
    }
  }

  lemma MovedRuns(instructions: seq<Word>, src: Addr, copies: seq<Copy>, dst: Addr, jump: seq<Word>, delta: int,
                  mem: Memory, s: State, other: Others)
    requires |copies| <= |instructions|
    requires forall k :: 0 <= k < |copies| ==> MovedTo(instructions, src, copies, k, dst, mem)
    requires forall k :: 0 <= k < |copies| ==>
      Kept(Decode(instructions[k]), Wrap(src + 4 * k), PlaceOf(copies, k, dst))
    requires forall k :: 0 <= k < |copies| ==> Blind(instructions[k], Wrap(src + 4 * k), other)
    requires |jump| == 2 && Decode(jump[0]) == LdrLiteral(1, 0, 17, delta) && Decode(jump[1]) == BranchReg(17, false)
    requires Undisturbed(instructions[..|copies|], src, s, other, mem)
    requires Returns(Steps(instructions[..|copies|], src, s, other), copies, dst, delta, Wrap(src + 16))
    ensures var ws := instructions[..|copies|];
      var e := Exit(ws, src, s, other);
      SameOutcome(Steps(ws, src, s, other), Run(Flat(copies) + jump, dst, s, other), Wrap(src + 16),
        LeavesLinked(instructions, |copies|, e), LinkOf(copies, e, dst))
  {
    hide Decode, Run, Steps, Exit, Undisturbed, Returns, Blind, Kept, SameMeaning, UpToEnd, SameOutcome;
    forall k | 0 <= k < |copies| ensures SameAt(instructions, src, copies, k, dst, mem) {
      assert MovedTo(instructions, src, copies, k, dst, mem);
    }
    WrapId(src);
    WrapId(dst);
    assert src + 4 * 0 == src && dst + 4 * CountWords(copies[..0]) == dst;
    assert instructions[0..|copies|] == instructions[..|copies|] && copies[0..] == copies;
    RunFrom(instructions, src, copies, dst, jump, delta, mem, Wrap(src + 16), 0, s, s, other);
  }
}
