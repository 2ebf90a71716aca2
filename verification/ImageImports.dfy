/** The import table that CImage writes into the .detour section (LoaderWatch.Inject/image.cpp):
    what CheckImportsNeeded counts, and what the loader reads back from what Write emits
    (section 6.4 of the Microsoft PE/COFF Specification, the .idata section). */
module ImageImports {
  import opened ImagePayloads

  datatype Option<T> = None | Some(value: T)

  /** A C string without its terminator. */
  type Text = s: seq<byte> | forall i :: 0 <= i < |s| ==> s[i] != 0

  /** CImageImportName and CImageImportFile; a name without text is imported by ordinal. */
  datatype ImportName = ImportName(hint: nat, ordinal: nat, orig: Option<Text>, name: Option<Text>)
  datatype ImportFile = ImportFile(byway: bool, orig: Option<Text>, name: Text, names: seq<ImportName>,
                                   firstThunk: nat, forwarderChain: nat)

  const ThunkSize: nat := 8
  const OrdinalFlag: nat := 0x8000_0000_0000_0000

  // --------------------------------------------------------------- what is needed

  function Even(n: nat): (m: nat)
    ensures n <= m <= n + 1 && m % 2 == 0
  {
    n + n % 2
  }

  function NameChars(n: ImportName): nat { if n.name.Some? then Even(2 + |n.name.value| + 1) else 0 }

  function NamesChars(ns: seq<ImportName>): nat {
    if ns == [] then 0 else NamesChars(ns[..|ns| - 1]) + NameChars(ns[|ns| - 1])
  }

  function FileChars(f: ImportFile): nat { Even(|f.name| + 1) + if f.byway then 0 else NamesChars(f.names) }

  function FileThunks(f: ImportFile): nat { (if f.byway then 1 else |f.names|) + 1 }

  function AllChars(fs: seq<ImportFile>): nat {
    if fs == [] then 0 else AllChars(fs[..|fs| - 1]) + FileChars(fs[|fs| - 1])
  }

  function AllThunks(fs: seq<ImportFile>): nat {
    if fs == [] then 0 else AllThunks(fs[..|fs| - 1]) + FileThunks(fs[|fs| - 1])
  }

  /** Something was added or renamed. */
  predicate Edited(f: ImportFile) {
    f.byway || f.orig != Some(f.name) || exists i :: 0 <= i < |f.names| && f.names[i].name != f.names[i].orig
  }

  /** The names of an import file, as they are and as they were. */
  ghost function NamesOf(f: ImportFile): (Option<Text>, seq<Option<Text>>) {
    (Some(f.name), seq(|f.names|, i requires 0 <= i < |f.names| => f.names[i].name))
  }

  ghost function OriginalsOf(f: ImportFile): (Option<Text>, seq<Option<Text>>) {
    (f.orig, seq(|f.names|, i requires 0 <= i < |f.names| => f.names[i].orig))
  }

  /** Nothing was edited exactly if no byway was added and all names are the original ones. */
  lemma UneditedExactly(fs: seq<ImportFile>)
    ensures (forall i :: 0 <= i < |fs| ==> !Edited(fs[i])) <==>
      forall i :: 0 <= i < |fs| ==> !fs[i].byway && NamesOf(fs[i]) == OriginalsOf(fs[i])
  {
    forall i | 0 <= i < |fs| ensures Edited(fs[i]) <==> fs[i].byway || NamesOf(fs[i]) != OriginalsOf(fs[i]) {
      EditedExactly(fs[i]);
    }
    hide Edited, NamesOf, OriginalsOf;
  }

  lemma EditedExactly(f: ImportFile)
    ensures Edited(f) <==> f.byway || NamesOf(f) != OriginalsOf(f)
  {
    var names, originals := NamesOf(f).1, OriginalsOf(f).1;
    assert names == originals <==> forall n :: 0 <= n < |f.names| ==> names[n] == originals[n];
    assert forall n :: 0 <= n < |f.names| ==> names[n] == f.names[n].name && originals[n] == f.names[n].orig;
  }

  lemma CountsStep(fs: seq<ImportFile>, k: nat)
    requires k < |fs|
    ensures AllChars(fs[..k + 1]) == AllChars(fs[..k]) + FileChars(fs[k])
    ensures AllThunks(fs[..k + 1]) == AllThunks(fs[..k]) + FileThunks(fs[k])
  {
    assert fs[..k + 1][..k] == fs[..k];
  }

  lemma NamesStep(ns: seq<ImportName>, k: nat)
    requires k < |ns|
    ensures NamesChars(ns[..k + 1]) == NamesChars(ns[..k]) + NameChars(ns[k])
  {
    assert ns[..k + 1][..k] == ns[..k];
  }

  lemma CountsEnds(fs: seq<ImportFile>)
    ensures AllChars(fs[..0]) == 0 && AllThunks(fs[..0]) == 0 && fs[..|fs|] == fs
  {
  }

  /** CheckImportsNeeded. */
  method CheckImportsNeeded(files: seq<ImportFile>) returns (need: bool, nTables: nat, nThunks: nat, nChars: nat)
    ensures nTables == |files| + 1 && nThunks == AllThunks(files) && nChars == AllChars(files)
    ensures need <==> exists i :: 0 <= i < |files| && Edited(files[i])
  {
    hide AllChars, AllThunks, NamesChars, Edited;
    CountsEnds(files);
    nTables, nThunks, nChars, need := 0, 0, 0, false;
    for k := 0 to |files|
      invariant nTables == k && nThunks == AllThunks(files[..k]) && nChars == AllChars(files[..k]) && nChars % 2 == 0
      invariant need <==> exists i :: 0 <= i < k && Edited(files[i])
    {
      CountsStep(files, k);
      need, nThunks, nChars := CheckFile(files[k], need, nThunks, nChars);
      nTables := nTables + 1;
    }
    nTables := nTables + 1;
  }

  /** The body of its loop; every count is even on the way, so that aligning the running count
      aligns each string. */
  method CheckFile(f: ImportFile, need0: bool, nThunks0: nat, nChars0: nat)
    returns (need: bool, nThunks: nat, nChars: nat)
    requires nChars0 % 2 == 0
    ensures nThunks == nThunks0 + FileThunks(f) && nChars == nChars0 + FileChars(f) && nChars % 2 == 0
    ensures need <==> need0 || Edited(f)
  {
    hide NamesChars;
    need, nThunks, nChars := need0, nThunks0, nChars0;
    nChars := nChars + |f.name| + 1;
    nChars := nChars + nChars % 2;
    if f.byway {
      need := true;
      nThunks := nThunks + 1;
    } else {
      if !need && Some(f.name) != f.orig { need := true; }
      NoNames(f.names);
      ghost var need1 := need;
      for n := 0 to |f.names|
        invariant nChars == nChars0 + Even(|f.name| + 1) + NamesChars(f.names[..n]) && nChars % 2 == 0
        invariant nThunks == nThunks0 + n
        invariant need <==> need1 || exists i :: 0 <= i < n && f.names[i].name != f.names[i].orig
      {
        var name := f.names[n];
        NamesStep(f.names, n);
        if !need && name.name != name.orig { need := true; }
        if name.name.Some? {
          nChars := nChars + 2;
          nChars := nChars + |name.name.value| + 1;
          nChars := nChars + nChars % 2;
        }
        nThunks := nThunks + 1;
      }
    }
    nThunks := nThunks + 1;
  }

  lemma NoNames(ns: seq<ImportName>)
    ensures NamesChars(ns[..0]) == 0 && ns[..|ns|] == ns
  {
  }

  // ---------------------------------------------------------------- the sub-tables

  /** CImageThunks: an array of thunks at the address `virt`. */
  class CImageThunks {
    var thunks: seq<nat>
    const max: nat
    const virt: nat

    constructor (max: nat, virt: nat)
      ensures thunks == [] && this.max == max && this.virt == virt
    {
      thunks, this.max, this.virt := [], max, virt;
    }

    method Current() returns (rva: nat)
      ensures rva == if max > 1 then virt + ThunkSize * |thunks| else 0
    {
      if max > 1 { return virt + ThunkSize * |thunks|; }
      return 0;
    }

    method Allocate(nData: nat) returns (ok: bool, rva: nat)
      modifies this
      ensures ok <==> old(|thunks|) < max
      ensures ok ==> thunks == old(thunks) + [nData] && rva == virt + ThunkSize * old(|thunks|)
      ensures !ok ==> thunks == old(thunks) && rva == 0
    {
      if |thunks| < max {
        rva := virt + ThunkSize * |thunks|;
        thunks := thunks + [nData];
        return true, rva;
      }
      return false, 0;
    }
  }

  /** CImageChars: strings at the address `virt`, each at an even offset. */
  class CImageChars {
    var chars: seq<byte>
    const max: nat
    const virt: nat

    constructor (max: nat, virt: nat)
      ensures chars == [] && this.max == max && this.virt == virt
    {
      chars, this.max, this.virt := [], max, virt;
    }

    /** Allocate, for the name of a file. */
    method AllocateText(s: Text) returns (ok: bool, rva: nat)
      modifies this
      ensures ok <==> old(|chars|) + Even(|s| + 1) <= max
      ensures ok ==> |chars| == old(|chars|) + Even(|s| + 1) && old(chars) <= chars
                     && TextAt(chars, old(|chars|), s) && rva == virt + old(|chars|)
      ensures !ok ==> chars == old(chars) && rva == 0
    {
      var nLen := Even(|s| + 1);
      if |chars| + nLen > max { return false, 0; }
      rva := virt + |chars|;
      ghost var was := chars;
      chars := chars + s + seq(nLen - |s|, _ => 0);
      assert chars[|was|..|was| + |s|] == s && chars[|was| + |s|] == 0;
      return true, rva;
    }

    /** Allocate, for an imported name with its hint. */
    method AllocateName(s: Text, hint: nat) returns (ok: bool, rva: nat)
      modifies this
      ensures ok <==> old(|chars|) + Even(2 + |s| + 1) <= max
      ensures ok ==> |chars| == old(|chars|) + Even(2 + |s| + 1) && old(chars) <= chars
                     && HintAt(chars, old(|chars|), hint % 0x1_0000) && TextAt(chars, old(|chars|) + 2, s)
                     && rva == virt + old(|chars|)
      ensures !ok ==> chars == old(chars) && rva == 0
    {
      var nLen := Even(2 + |s| + 1);
      if |chars| + nLen > max { return false, 0; }
      rva := virt + |chars|;
      ghost var was := chars;
      chars := chars + [hint % 0x100, hint / 0x100 % 0x100] + s + seq(nLen - 2 - |s|, _ => 0);
      assert chars[|was| + 2..|was| + 2 + |s|] == s && chars[|was| + 2 + |s|] == 0;
      assert chars[|was|] == hint % 0x100 && chars[|was| + 1] == hint / 0x100 % 0x100;
      HintBytes(hint);
      return true, rva;
    }
  }

  lemma HintBytes(hint: nat)
    ensures hint % 0x100 + hint / 0x100 % 0x100 * 0x100 == hint % 0x1_0000
  {
    assert hint / 0x1_0000 == hint / 0x100 / 0x100;
  }

  // ------------------------------------------------------------ reading it back

  /** A terminated string. */
  ghost predicate TextAt(chars: seq<byte>, at: nat, s: Text) {
    at + |s| < |chars| && chars[at..at + |s|] == s && chars[at + |s|] == 0
  }

  function Word(a: byte, b: byte): nat { a + b * 0x100 }

  ghost predicate HintAt(chars: seq<byte>, at: nat, hint: nat) {
    at + 1 < |chars| && Word(chars[at], chars[at + 1]) == hint
  }

  datatype Import = ByOrdinal(ordinal: nat) | ByName(hint: nat, name: Text)

  ghost function Expected(n: ImportName): Import {
    if n.name.Some? then ByName(n.hint % 0x1_0000, n.name.value) else ByOrdinal(n.ordinal)
  }

  ghost function ExpectedImports(f: ImportFile): seq<Import> {
    if f.byway then [ByOrdinal(1)] else seq(|f.names|, i requires 0 <= i < |f.names| => Expected(f.names[i]))
  }

  /** How the loader reads a string, a thunk, a list of thunks that ends with zero, and a table
      of descriptors that ends with a null name. */
  ghost function ReadText(chars: seq<byte>, at: nat): Text
    decreases |chars| - at
  {
    if at >= |chars| || chars[at] == 0 then [] else
    var rest := ReadText(chars, at + 1);
    [chars[at]] + rest
  }

  ghost function ReadThunk(thunk: nat, chars: seq<byte>, base: nat): Import {
    if thunk >= OrdinalFlag then ByOrdinal(thunk - OrdinalFlag)
    else if base <= thunk && thunk - base + 1 < |chars| then
      var at := thunk - base;
      ByName(Word(chars[at], chars[at + 1]), ReadText(chars, at + 2))
    else ByName(0, [])
  }

  ghost function ReadThunks(thunks: seq<nat>, at: nat, chars: seq<byte>, base: nat): seq<Import>
    decreases |thunks| - at
  {
    if at >= |thunks| || thunks[at] == 0 then []
    else [ReadThunk(thunks[at], chars, base)] + ReadThunks(thunks, at + 1, chars, base)
  }

  datatype Descriptor = Descriptor(originalFirstThunk: nat, timeDateStamp: nat, forwarderChain: nat, name: nat,
                                   firstThunk: nat)

  const ZeroDescriptor := Descriptor(0, 0, 0, 0, 0)

  /** The imports that a descriptor names; without a lookup table there are none. */
  ghost function ReadImports(d: Descriptor, thunks: seq<nat>, base: nat, chars: seq<byte>, charBase: nat): seq<Import> {
    if d.originalFirstThunk < base || (d.originalFirstThunk - base) % ThunkSize != 0 then []
    else ReadThunks(thunks, (d.originalFirstThunk - base) / ThunkSize, chars, charBase)
  }

  ghost function ReadTable(table: seq<Descriptor>, thunks: seq<nat>, base: nat, chars: seq<byte>, charBase: nat)
    : seq<(Text, seq<Import>)>
  {
    if table == [] || table[0].name < charBase then [] else
    [(ReadText(chars, table[0].name - charBase), ReadImports(table[0], thunks, base, chars, charBase))]
      + ReadTable(table[1..], thunks, base, chars, charBase)
  }

  lemma {:induction false} TextReads(chars: seq<byte>, at: nat, s: Text)
    requires TextAt(chars, at, s)
    ensures ReadText(chars, at) == s
    decreases |s|
  {
    if s != [] {
      assert chars[at] == chars[at..at + |s|][0] == s[0];
      assert chars[at + 1..at + 1 + |s[1..]|] == chars[at..at + |s|][1..];
      TextReads(chars, at + 1, s[1..]);
    }
  }

  /** A thunk that stands for an import. */
  ghost predicate Stands(thunk: nat, imp: Import, chars: seq<byte>, base: nat) {
    match imp
    case ByOrdinal(n) => thunk == OrdinalFlag + n
    case ByName(hint, name) =>
      0 < base <= thunk < OrdinalFlag && HintAt(chars, thunk - base, hint) && TextAt(chars, thunk - base + 2, name)
  }

  lemma ThunkReads(thunk: nat, imp: Import, chars: seq<byte>, base: nat)
    requires Stands(thunk, imp, chars, base)
    ensures ReadThunk(thunk, chars, base) == imp && thunk != 0
  {
    if imp.ByName? { TextReads(chars, thunk - base + 2, imp.name); }
  }

  /** A list of thunks that stands for a list of imports. */
  ghost predicate AllStand(thunks: seq<nat>, at: nat, imps: seq<Import>, chars: seq<byte>, base: nat) {
    && at + |imps| < |thunks| && thunks[at + |imps|] == 0
    && forall i :: 0 <= i < |imps| ==> Stands(thunks[at + i], imps[i], chars, base)
  }

  lemma {:induction false} ThunksRead(thunks: seq<nat>, at: nat, imps: seq<Import>, chars: seq<byte>, base: nat)
    requires AllStand(thunks, at, imps, chars, base)
    ensures ReadThunks(thunks, at, chars, base) == imps
    decreases |imps|
  {
    hide Stands;
    if imps != [] {
      assert Stands(thunks[at + 0], imps[0], chars, base);
      ThunkReads(thunks[at], imps[0], chars, base);
      var rest := imps[1..];
      forall i | 0 <= i < |rest| ensures Stands(thunks[at + 1 + i], rest[i], chars, base) {
        assert Stands(thunks[at + (i + 1)], imps[i + 1], chars, base);
      }
      ThunksRead(thunks, at + 1, rest, chars, base);
    }
  }

  /** What is written later changes nothing of what is there. */
  lemma StandsLater(thunk: nat, imp: Import, chars: seq<byte>, chars': seq<byte>, base: nat)
    requires Stands(thunk, imp, chars, base) && chars <= chars'
    ensures Stands(thunk, imp, chars', base)
  {
    if imp.ByName? { TextLater(chars, chars', thunk - base + 2, imp.name); }
  }

  lemma TextLater(chars: seq<byte>, chars': seq<byte>, at: nat, s: Text)
    requires TextAt(chars, at, s) && chars <= chars'
    ensures TextAt(chars', at, s)
  {
    assert chars'[at..at + |s|] == chars[at..at + |s|];
  }
}
