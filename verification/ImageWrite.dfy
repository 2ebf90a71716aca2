/** Emission of the import table: the second pass of CImage::Write (LoaderWatch.Inject/image.cpp)
    uses up exactly what the first pass counted, in places that do not overlap. */
module ImageWrite {
  import opened ImagePayloads
  import opened ImageImports

  const DescriptorSize: nat := 20
  const HeaderSize: nat := 64

  /** The import by ordinal 1 that a byway has, and its end. */
  ghost predicate OneThunk(bounds: seq<nat>, at: nat) {
    at + 1 < |bounds| && bounds[at] == OrdinalFlag + 1 && bounds[at + 1] == 0
  }

  /** What the loader is to find in a descriptor, whose thunks are at `at` of the lookup table and,
      for a byway, at `boundAt` of the bound one. */
  ghost predicate Written(d: Descriptor, f: ImportFile, at: nat, boundAt: nat, thunks: seq<nat>, lookup: CImageThunks,
                          chars: seq<byte>, names: CImageChars, bounds: seq<nat>, bound: CImageThunks)
  {
    && d.name >= names.virt && TextAt(chars, d.name - names.virt, f.name)
    && d.forwarderChain == f.forwarderChain && d.timeDateStamp == 0
    && (if f.byway then d.firstThunk == bound.virt + ThunkSize * boundAt && OneThunk(bounds, boundAt)
        else d.firstThunk == f.firstThunk)
    && AllStand(thunks, at, ExpectedImports(f), chars, names.virt)
    && d.originalFirstThunk == if f.byway || lookup.max > 1 then lookup.virt + ThunkSize * at else 0
  }

  lemma WrittenLater(d: Descriptor, f: ImportFile, at: nat, boundAt: nat, thunks: seq<nat>, thunks': seq<nat>,
                     lookup: CImageThunks, chars: seq<byte>, chars': seq<byte>, names: CImageChars, bounds: seq<nat>,
                     bounds': seq<nat>, bound: CImageThunks)
    requires Written(d, f, at, boundAt, thunks, lookup, chars, names, bounds, bound)
    requires thunks <= thunks' && chars <= chars' && bounds <= bounds'
    ensures Written(d, f, at, boundAt, thunks', lookup, chars', names, bounds', bound)
  {
    hide AllStand;
    TextLater(chars, chars', d.name - names.virt, f.name);
    AllStandLater(thunks, thunks', at, ExpectedImports(f), chars, chars', names.virt);
  }

  lemma AllStandLater(thunks: seq<nat>, thunks': seq<nat>, at: nat, imps: seq<Import>, chars: seq<byte>,
                      chars': seq<byte>, base: nat)
    requires AllStand(thunks, at, imps, chars, base) && thunks <= thunks' && chars <= chars'
    ensures AllStand(thunks', at, imps, chars', base)
  {
    hide Stands;
    forall i | 0 <= i < |imps| ensures Stands(thunks'[at + i], imps[i], chars', base) {
      StandsLater(thunks[at + i], imps[i], chars, chars', base);
    }
  }

  /** One turn of the loop over the import files. */
  method EmitFile(f: ImportFile, lookup: CImageThunks, bound: CImageThunks, names: CImageChars) returns (d: Descriptor)
    requires lookup != bound
    requires |lookup.thunks| + FileThunks(f) <= lookup.max && |bound.thunks| + (if f.byway then 2 else 0) <= bound.max
    requires |names.chars| + FileChars(f) <= names.max && 0 < names.virt && names.virt + names.max < OrdinalFlag
    modifies lookup, bound, names
    ensures |lookup.thunks| == old(|lookup.thunks|) + FileThunks(f) && old(lookup.thunks) <= lookup.thunks
    ensures bound.thunks == old(bound.thunks) + (if f.byway then [OrdinalFlag + 1, 0] else [])
    ensures |names.chars| == old(|names.chars|) + FileChars(f) && old(names.chars) <= names.chars
    ensures Written(d, f, old(|lookup.thunks|), old(|bound.thunks|), lookup.thunks, lookup, names.chars, names,
                    bound.thunks, bound)
  {
    hide NamesChars, AllStand, Stands, TextAt;
    ghost var at, thunks0 := |lookup.thunks|, lookup.thunks;
    var ok, rvaName := names.AllocateText(f.name);
    ghost var chars1 := names.chars;
    if f.byway {
      var rvaOriginal, rvaFirst, rvaIgnored;
      ok, rvaOriginal := lookup.Allocate(OrdinalFlag + 1);
      ok, rvaFirst := bound.Allocate(OrdinalFlag + 1);
      ok, rvaIgnored := lookup.Allocate(0);
      ok, rvaIgnored := bound.Allocate(0);
      d := Descriptor(rvaOriginal, 0, f.forwarderChain, rvaName, rvaFirst);
      OneOrdinal(lookup.thunks, at, names.chars, names.virt);
      assert ExpectedImports(f) == [ByOrdinal(1)];
    } else {
      var rvaOriginal := lookup.Current();
      EmitNames(f.names, lookup, names);
      ghost var thunks1 := lookup.thunks;
      var rvaIgnored;
      ok, rvaIgnored := lookup.Allocate(0);
      d := Descriptor(rvaOriginal, 0, f.forwarderChain, rvaName, f.firstThunk);
      assert forall i :: 0 <= i < |f.names| ==> ExpectedImports(f)[i] == Expected(f.names[i]);
      EndOfList(thunks1, at, ExpectedImports(f), names.chars, names.virt);
      TextLater(chars1, names.chars, rvaName - names.virt, f.name);
    }
    assert AllStand(lookup.thunks, at, ExpectedImports(f), names.chars, names.virt);
  }

  /** The thunks of the imported names, one for each. */
  method EmitNames(ns: seq<ImportName>, lookup: CImageThunks, names: CImageChars)
    requires |lookup.thunks| + |ns| < lookup.max && |names.chars| + NamesChars(ns) <= names.max
    requires 0 < names.virt && names.virt + names.max < OrdinalFlag
    modifies lookup, names
    ensures |lookup.thunks| == old(|lookup.thunks|) + |ns| && old(lookup.thunks) <= lookup.thunks
    ensures |names.chars| == old(|names.chars|) + NamesChars(ns) && old(names.chars) <= names.chars
    ensures forall i :: 0 <= i < |ns| ==>
      Stands(lookup.thunks[old(|lookup.thunks|) + i], Expected(ns[i]), names.chars, names.virt)
  {
    hide NamesChars, TextAt, HintAt;
    ghost var at := |lookup.thunks|;
    NoNames(ns);
    for n := 0 to |ns|
      invariant |lookup.thunks| == at + n && old(lookup.thunks) <= lookup.thunks
      invariant |names.chars| == old(|names.chars|) + NamesChars(ns[..n]) && old(names.chars) <= names.chars
      invariant forall i :: 0 <= i < n ==> Stands(lookup.thunks[at + i], Expected(ns[i]), names.chars, names.virt)
    {
      ghost var thunks0, chars0 := lookup.thunks, names.chars;
      NamesStep(ns, n);
      NamesGrow(ns, n + 1);
      var ok, rvaIgnored;
      if ns[n].name.Some? {
        var nDstName;
        ok, nDstName := names.AllocateName(ns[n].name.value, ns[n].hint);
        ok, rvaIgnored := lookup.Allocate(nDstName);
      } else {
        ok, rvaIgnored := lookup.Allocate(OrdinalFlag + ns[n].ordinal);
      }
      forall i | 0 <= i < n ensures Stands(lookup.thunks[at + i], Expected(ns[i]), names.chars, names.virt) {
        StandsLater(thunks0[at + i], Expected(ns[i]), chars0, names.chars, names.virt);
      }
    }
  }

  lemma {:induction false} NamesGrow(ns: seq<ImportName>, k: nat)
    requires k <= |ns|
    ensures NamesChars(ns[..k]) <= NamesChars(ns)
    decreases |ns| - k
  {
    if k < |ns| {
      NamesStep(ns, k);
      NamesGrow(ns, k + 1);
    } else {
      assert ns[..k] == ns;
    }
  }

  lemma OneOrdinal(thunks: seq<nat>, at: nat, chars: seq<byte>, base: nat)
    requires at + 1 < |thunks| && thunks[at] == OrdinalFlag + 1 && thunks[at + 1] == 0
    ensures AllStand(thunks, at, [ByOrdinal(1)], chars, base)
  {
  }

  lemma EndOfList(thunks: seq<nat>, at: nat, imps: seq<Import>, chars: seq<byte>, base: nat)
    requires |thunks| == at + |imps| && forall i :: 0 <= i < |imps| ==> Stands(thunks[at + i], imps[i], chars, base)
    ensures AllStand(thunks + [0], at, imps, chars, base)
  {
    hide Stands;
    forall i | 0 <= i < |imps| ensures Stands((thunks + [0])[at + i], imps[i], chars, base) {
      assert (thunks + [0])[at + i] == thunks[at + i];
    }
  }

  ghost function ByWays(fs: seq<ImportFile>): nat {
    if fs == [] then 0 else ByWays(fs[..|fs| - 1]) + (if fs[|fs| - 1].byway then 2 else 0)
  }

  lemma {:induction false} CountsGrow(fs: seq<ImportFile>, k: nat)
    requires k <= |fs|
    ensures AllChars(fs[..k]) <= AllChars(fs) && AllThunks(fs[..k]) <= AllThunks(fs)
    decreases |fs| - k
  {
    if k < |fs| {
      CountsStep(fs, k);
      CountsGrow(fs, k + 1);
    } else {
      assert fs[..k] == fs;
    }
  }

  lemma {:induction false} ByWaysFit(fs: seq<ImportFile>, k: nat)
    requires k <= |fs|
    ensures ByWays(fs[..k]) <= AllThunks(fs[..k])
  {
    if k > 0 {
      assert fs[..k][..k - 1] == fs[..k - 1];
      ByWaysFit(fs, k - 1);
    }
  }

  lemma ByWaysStep(fs: seq<ImportFile>, k: nat)
    requires k < |fs|
    ensures ByWays(fs[..k + 1]) == ByWays(fs[..k]) + (if fs[k].byway then 2 else 0) <= AllThunks(fs)
  {
    assert fs[..k + 1][..k] == fs[..k];
    ByWaysFit(fs, k + 1);
    CountsGrow(fs, k + 1);
  }

  /** The loop over the import files: no allocation fails, both counted tables are used up to the
      last entry, and the loader reads the import list back. */
  method EmitImports(files: seq<ImportFile>, lookup: CImageThunks, bound: CImageThunks, names: CImageChars,
                     nTables: nat)
    returns (table: seq<Descriptor>)
    requires lookup != bound && lookup.thunks == [] && bound.thunks == [] && names.chars == []
    requires nTables == |files| + 1 && lookup.max == bound.max == AllThunks(files) && names.max == AllChars(files)
    requires 0 < lookup.virt && 0 < names.virt && names.virt + names.max < OrdinalFlag
    modifies lookup, bound, names
    ensures |table| == nTables && table[|files|] == ZeroDescriptor
    ensures |lookup.thunks| == lookup.max && |names.chars| == names.max
    ensures |bound.thunks| <= bound.max
    ensures ReadTable(table, lookup.thunks, lookup.virt, names.chars, names.virt) == ExpectedTable(files)
    ensures BoundRight(table, files, bound.thunks, bound.virt, names.chars, names.virt)
    ensures forall i :: 0 <= i < |files| ==>
      table[i].forwarderChain == files[i].forwarderChain && table[i].timeDateStamp == 0
  {
    hide AllChars, AllThunks, ByWays, Written, ReadTable, ExpectedTable, FileChars;
    CountsEnds(files);
    assert ByWays(files[..0]) == 0 by { NoByWays(files); }
    table := seq(nTables, _ => ZeroDescriptor);
    for k := 0 to |files|
      invariant |table| == nTables && table[|files|] == ZeroDescriptor
      invariant |lookup.thunks| == AllThunks(files[..k]) && |bound.thunks| == ByWays(files[..k])
        && |names.chars| == AllChars(files[..k])
      invariant forall i :: 0 <= i < k ==>
        Written(table[i], files[i], AllThunks(files[..i]), ByWays(files[..i]), lookup.thunks, lookup, names.chars,
                names, bound.thunks, bound)
    {
      ghost var thunks0, chars0, bounds0 := lookup.thunks, names.chars, bound.thunks;
      CountsStep(files, k);
      CountsGrow(files, k + 1);
      ByWaysStep(files, k);
      var d := EmitFile(files[k], lookup, bound, names);
      table := table[k := d];
      forall i | 0 <= i < k
        ensures Written(table[i], files[i], AllThunks(files[..i]), ByWays(files[..i]), lookup.thunks, lookup,
                        names.chars, names, bound.thunks, bound)
      {
        WrittenLater(table[i], files[i], AllThunks(files[..i]), ByWays(files[..i]), thunks0, lookup.thunks, lookup,
                     chars0, names.chars, names, bounds0, bound.thunks, bound);
      }
    }
    ByWaysFit(files, |files|);
    ghost var ats := seq(|files|, i requires 0 <= i < |files| => AllThunks(files[..i]));
    ghost var boundAts := seq(|files|, i requires 0 <= i < |files| => ByWays(files[..i]));
    TableReads(table, files, ats, boundAts, lookup, names, lookup.thunks, names.chars, bound.thunks, bound);
    BoundReads(table, files, lookup, names, lookup.thunks, names.chars, bound.thunks, bound);
  }

  /** The bound thunks of two byways do not overlap. */
  lemma {:induction false} ByWaysApart(fs: seq<ImportFile>, i: nat, j: nat)
    requires i < j <= |fs|
    ensures ByWays(fs[..i]) + (if fs[i].byway then 2 else 0) <= ByWays(fs[..j])
    decreases j
  {
    ByWaysStep(fs, j - 1);
    if i < j - 1 { ByWaysApart(fs, i, j - 1); }
  }

  /** The loader overwrites the thunks at FirstThunk: for a byway, its own ones in the bound table,
      which name the import that is to be put there; for others, those of the file itself. */
  ghost predicate BoundRight(table: seq<Descriptor>, fs: seq<ImportFile>, bounds: seq<nat>, base: nat, chars: seq<byte>,
                             charBase: nat)
    requires |table| > |fs|
  {
    && (forall i :: 0 <= i < |fs| && fs[i].byway ==>
          var d := table[i];
          && base <= d.firstThunk && d.firstThunk + 2 * ThunkSize <= base + ThunkSize * |bounds|
          && (d.firstThunk - base) % ThunkSize == 0
          && ReadThunks(bounds, (d.firstThunk - base) / ThunkSize, chars, charBase) == [ByOrdinal(1)])
    && (forall i :: 0 <= i < |fs| && !fs[i].byway ==> table[i].firstThunk == fs[i].firstThunk)
    && (forall i, j :: 0 <= i < j < |fs| && fs[i].byway && fs[j].byway ==>
          table[i].firstThunk + 2 * ThunkSize <= table[j].firstThunk)
  }

  lemma BoundReads(table: seq<Descriptor>, fs: seq<ImportFile>, lookup: CImageThunks, names: CImageChars,
                   thunks: seq<nat>, chars: seq<byte>, bounds: seq<nat>, bound: CImageThunks)
    requires |table| > |fs|
    requires forall i :: 0 <= i < |fs| ==>
      Written(table[i], fs[i], AllThunks(fs[..i]), ByWays(fs[..i]), thunks, lookup, chars, names, bounds, bound)
    ensures BoundRight(table, fs, bounds, bound.virt, chars, names.virt)
    ensures forall i :: 0 <= i < |fs| ==> table[i].forwarderChain == fs[i].forwarderChain && table[i].timeDateStamp == 0
  {
    hide AllStand, TextAt, ReadThunks, AllThunks, ByWays;
    forall i | 0 <= i < |fs| && fs[i].byway
      ensures ReadThunks(bounds, ByWays(fs[..i]), chars, names.virt) == [ByOrdinal(1)]
    {
      assert Written(table[i], fs[i], AllThunks(fs[..i]), ByWays(fs[..i]), thunks, lookup, chars, names, bounds, bound);
      OneOrdinal(bounds, ByWays(fs[..i]), chars, names.virt);
      ThunksRead(bounds, ByWays(fs[..i]), [ByOrdinal(1)], chars, names.virt);
    }
    forall i, j | 0 <= i < j < |fs| && fs[i].byway && fs[j].byway
      ensures table[i].firstThunk + 2 * ThunkSize <= table[j].firstThunk
    {
      ByWaysApart(fs, i, j);
    }
  }

  lemma NoByWays(fs: seq<ImportFile>)
    ensures ByWays(fs[..0]) == 0
  {
  }

  ghost function ExpectedTable(fs: seq<ImportFile>): seq<(Text, seq<Import>)> {
    if fs == [] then [] else [(fs[0].name, ExpectedImports(fs[0]))] + ExpectedTable(fs[1..])
  }

  lemma {:induction false} TableReads(table: seq<Descriptor>, fs: seq<ImportFile>, ats: seq<nat>, boundAts: seq<nat>,
                                      lookup: CImageThunks, names: CImageChars, thunks: seq<nat>, chars: seq<byte>,
                                      bounds: seq<nat>, bound: CImageThunks)
    requires |table| == |fs| + 1 && table[|fs|] == ZeroDescriptor && 0 < lookup.virt && 0 < names.virt
    requires AllThunks(fs) <= lookup.max && |ats| == |boundAts| == |fs|
    requires forall i :: 0 <= i < |fs| ==>
      Written(table[i], fs[i], ats[i], boundAts[i], thunks, lookup, chars, names, bounds, bound)
    ensures ReadTable(table, thunks, lookup.virt, chars, names.virt) == ExpectedTable(fs)
    decreases |fs|
  {
    hide Written, AllThunks, ReadImports, ReadText, ExpectedImports, FileThunks;
    if fs != [] {
      assert Written(table[0], fs[0], ats[0], boundAts[0], thunks, lookup, chars, names, bounds, bound);
      DescriptorReads(table[0], fs[0], ats[0], boundAts[0], lookup, names, thunks, chars, bounds, bound) by {
        FirstFits(fs);
      }
      forall i | 0 <= i < |fs[1..]|
        ensures Written(table[1..][i], fs[1..][i], ats[1..][i], boundAts[1..][i], thunks, lookup, chars, names, bounds,
                        bound)
      {
        assert Written(table[i + 1], fs[i + 1], ats[i + 1], boundAts[i + 1], thunks, lookup, chars, names, bounds,
                       bound);
      }
      FirstFits(fs);
      TableReads(table[1..], fs[1..], ats[1..], boundAts[1..], lookup, names, thunks, chars, bounds, bound);
    }
  }

  lemma {:induction false} FirstFits(fs: seq<ImportFile>)
    requires fs != []
    ensures FileThunks(fs[0]) <= AllThunks(fs) && AllThunks(fs[1..]) <= AllThunks(fs)
  {
    var n := |fs| - 1;
    if n > 0 {
      FirstFits(fs[..n]);
      assert fs[..n][1..] == fs[1..][..n - 1];
    }
  }

  lemma DescriptorReads(d: Descriptor, f: ImportFile, at: nat, boundAt: nat, lookup: CImageThunks, names: CImageChars,
                        thunks: seq<nat>, chars: seq<byte>, bounds: seq<nat>, bound: CImageThunks)
    requires Written(d, f, at, boundAt, thunks, lookup, chars, names, bounds, bound) && 0 < lookup.virt
      && FileThunks(f) <= lookup.max
    ensures d.name >= names.virt && ReadText(chars, d.name - names.virt) == f.name
    ensures ReadImports(d, thunks, lookup.virt, chars, names.virt) == ExpectedImports(f)
  {
    hide AllStand, TextAt;
    TextReads(chars, d.name - names.virt, f.name);
    ThunksRead(thunks, at, ExpectedImports(f), chars, names.virt);
  }
}
