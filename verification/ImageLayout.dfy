/** Where CImage::Write puts the parts of the .detour section (LoaderWatch.Inject/image.cpp): the
    output buffer is sized first, and the parts are then taken from it one after the other. */
module ImageLayout {
  import opened Words
  import opened ImagePayloads
  import opened ImageImports
  import opened ImageWrite

  datatype Place = Place(offset: nat, size: nat)

  /** Parts in order, without overlap, within the first `limit` bytes. */
  ghost predicate InOrder(ps: seq<Place>, limit: nat) {
    && (forall i, j :: 0 <= i < j < |ps| ==> ps[i].offset + ps[i].size <= ps[j].offset)
    && (forall i :: 0 <= i < |ps| ==> ps[i].offset + ps[i].size <= limit && ps[i].offset % 8 == 0)
  }

  lemma OnePlaceMore(ps: seq<Place>, p: Place, limit: nat)
    requires InOrder(ps, p.offset) && p.offset % 8 == 0 && p.offset + p.size <= limit
    ensures InOrder(ps + [p], limit)
  {
  }

  /** The sizes of the parts: the section header, the headers of the image, two thunk tables, the
      names, the payloads, and the descriptors. */
  function Parts(cbPrePE: nat, nThunks: nat, nChars: nat, cbData: nat, nTables: nat): seq<nat> {
    [HeaderSize, cbPrePE, ThunkSize * nThunks, ThunkSize * nThunks, nChars, cbData, DescriptorSize * nTables]
  }

  function Total(parts: seq<nat>): nat {
    if parts == [] then 0 else Total(parts[..|parts| - 1]) + QuadAlign(parts[|parts| - 1])
  }

  /** What SizeOutputBuffer is asked for: the headers of the image are not rounded up. */
  function Requested(cbPrePE: nat, nThunks: nat, nChars: nat, cbData: nat, nTables: nat): nat {
    QuadAlign(HeaderSize) + cbPrePE + QuadAlign(cbData) + QuadAlign(ThunkSize * nThunks)
      + QuadAlign(ThunkSize * nThunks) + QuadAlign(nChars) + QuadAlign(DescriptorSize * nTables)
  }

  lemma TotalOfParts(cbPrePE: nat, nThunks: nat, nChars: nat, cbData: nat, nTables: nat)
    ensures Total(Parts(cbPrePE, nThunks, nChars, cbData, nTables)) ==
            Requested(cbPrePE, nThunks, nChars, cbData, nTables) + (QuadAlign(cbPrePE) - cbPrePE)
  {
    hide QuadAlign;
    var ps := Parts(cbPrePE, nThunks, nChars, cbData, nTables);
    assert ps[..7] == ps;
    assert forall k :: 0 <= k < 7 ==> ps[..k + 1][..k] == ps[..k] && ps[..k + 1][k] == ps[k];
    assert Total(ps[..0]) == 0;
    assert Total(ps[..1]) == QuadAlign(HeaderSize);
    assert Total(ps[..2]) == Total(ps[..1]) + QuadAlign(cbPrePE);
    assert Total(ps[..3]) == Total(ps[..2]) + QuadAlign(ps[2]);
    assert Total(ps[..4]) == Total(ps[..3]) + QuadAlign(ps[3]);
    assert Total(ps[..5]) == Total(ps[..4]) + QuadAlign(nChars);
    assert Total(ps[..6]) == Total(ps[..5]) + QuadAlign(cbData);
    assert Total(ps[..7]) == Total(ps[..6]) + QuadAlign(ps[6]);
  }

  /** Align, for FileAlignment. */
  function Align(a: nat, size: nat): (n: nat)
    requires size > 0
    ensures a <= n < a + size && n % size == 0
  {
    Remainder((a + size - 1) / size * size, size, (a + size - 1) / size, 0);
    (a + size - 1) / size * size
  }

  /** The size of the output buffer after it was asked for `cbData` bytes. */
  function Sized(cbOutputBuffer: nat, cbData: nat, fileAlignment: nat): nat
    requires fileAlignment > 0
  {
    if cbOutputBuffer >= cbData then cbOutputBuffer else Align(if cbData < 1024 then 1024 else cbData, fileAlignment)
  }

  /** Where the file alignment is a multiple of eight, so is the size of the buffer. */
  lemma SizedByEight(cbOutputBuffer: nat, cbData: nat, fileAlignment: nat)
    requires fileAlignment > 0 && fileAlignment % 8 == 0 && cbOutputBuffer % 8 == 0
    ensures cbData <= Sized(cbOutputBuffer, cbData, fileAlignment)
      && Sized(cbOutputBuffer, cbData, fileAlignment) % 8 == 0
  {
    var n := Sized(cbOutputBuffer, cbData, fileAlignment);
    if cbOutputBuffer < cbData {
      var q, e := n / fileAlignment, fileAlignment / 8;
      assert n == q * fileAlignment == 8 * (q * e);
    }
  }

  lemma {:induction false} TotalByEight(parts: seq<nat>)
    ensures Total(parts) % 8 == 0
  {
    if parts != [] { TotalByEight(parts[..|parts| - 1]); }
  }

  /** Then the rounding of the image headers always fits. */
  lemma RoundingFits(cbPrePE: nat, nThunks: nat, nChars: nat, cbData: nat, nTables: nat, cbOutputBuffer: nat,
                     fileAlignment: nat)
    requires fileAlignment > 0 && fileAlignment % 8 == 0 && cbOutputBuffer % 8 == 0
    ensures Total(Parts(cbPrePE, nThunks, nChars, cbData, nTables)) <=
            Sized(cbOutputBuffer, Requested(cbPrePE, nThunks, nChars, cbData, nTables), fileAlignment)
  {
    hide Total, Requested, Sized, Parts, QuadAlign;
    SizedByEight(cbOutputBuffer, Requested(cbPrePE, nThunks, nChars, cbData, nTables), fileAlignment);
    TotalOfParts(cbPrePE, nThunks, nChars, cbData, nTables);
    TotalByEight(Parts(cbPrePE, nThunks, nChars, cbData, nTables));
  }

  class CImage {
    var cbOutputBuffer: nat
    var nOutputVirtSize: nat
    var nOutputVirtAddr: nat
    const fileAlignment: nat

    constructor (cbOutputBuffer: nat, nOutputVirtAddr: nat, fileAlignment: nat)
      ensures this.cbOutputBuffer == cbOutputBuffer && this.nOutputVirtAddr == nOutputVirtAddr && nOutputVirtSize == 0
      ensures this.fileAlignment == fileAlignment
    {
      this.cbOutputBuffer, this.nOutputVirtAddr, this.fileAlignment := cbOutputBuffer, nOutputVirtAddr, fileAlignment;
      nOutputVirtSize := 0;
    }

    /** SizeOutputBuffer: the buffer only grows, at least as far as asked, to a multiple of the file
        alignment. */
    method SizeOutputBuffer(cbData: nat, noMemory: bool) returns (ok: bool)
      requires fileAlignment > 0
      modifies this`cbOutputBuffer
      ensures ok <==> old(cbOutputBuffer) >= cbData || !noMemory
      ensures cbOutputBuffer == if ok then Sized(old(cbOutputBuffer), cbData, fileAlignment) else old(cbOutputBuffer)
      ensures ok ==> cbOutputBuffer >= cbData && cbOutputBuffer >= old(cbOutputBuffer)
      // the smallest multiple that is neither less than what is asked for nor than 1024
      ensures ok && old(cbOutputBuffer) < cbData ==>
        && cbOutputBuffer % fileAlignment == 0 && cbOutputBuffer >= 1024
        && (cbOutputBuffer - fileAlignment < 1024 || cbOutputBuffer - fileAlignment < cbData)
    {
      if cbOutputBuffer < cbData {
        var cb := if cbData < 1024 then 1024 else cbData;
        cb := Align(cb, fileAlignment);
        if noMemory { return false; }
        cbOutputBuffer := cb;
      }
      return true;
    }

    /** AllocateOutput: the size in use grows even when there is no room. */
    method AllocateOutput(cbData: nat) returns (ok: bool, offset: nat)
      modifies this`nOutputVirtSize
      ensures offset == old(nOutputVirtSize) && nOutputVirtSize == offset + QuadAlign(cbData)
      ensures ok <==> nOutputVirtSize <= cbOutputBuffer
    {
      offset := nOutputVirtSize;
      nOutputVirtSize := nOutputVirtSize + QuadAlign(cbData);
      ok := nOutputVirtSize <= cbOutputBuffer;
    }

    /** Takes all the parts: it works out exactly if they all fit, and they do not overlap. */
    method PlaceParts(parts: seq<nat>) returns (ok: bool, places: seq<Place>)
      requires nOutputVirtSize == 0
      modifies this`nOutputVirtSize
      ensures nOutputVirtSize == Total(parts) && (ok <==> parts == [] || Total(parts) <= cbOutputBuffer)
      ensures |places| == |parts| && forall i :: 0 <= i < |parts| ==> places[i] == Place(Total(parts[..i]), parts[i])
      ensures InOrder(places, nOutputVirtSize)
    {
      hide Total, InOrder;
      ok, places := true, [];
      assert InOrder([], 0) && Total(parts[..0]) == 0 by { NoParts(parts); }
      for k := 0 to |parts|
        invariant nOutputVirtSize == Total(parts[..k]) && nOutputVirtSize % 8 == 0 && |places| == k
        invariant ok <==> k == 0 || nOutputVirtSize <= cbOutputBuffer
        invariant forall i :: 0 <= i < k ==> places[i] == Place(Total(parts[..i]), parts[i])
        invariant InOrder(places, nOutputVirtSize)
      {
        TotalStep(parts, k);
        var one, offset := AllocateOutput(parts[k]);
        OnePlaceMore(places, Place(offset, parts[k]), nOutputVirtSize);
        places := places + [Place(offset, parts[k])];
        ok := ok && one;
      }
      assert parts[..|parts|] == parts;
    }

    /** The .detour section: with memory for the buffer, everything is written exactly if the
        rounding of the image headers fits the slack of the buffer, which it always does when
        their size is a multiple of eight, or when the sizes of the buffer are; then the loader
        reads back the import list. */
    method WriteDetourSection(files: seq<ImportFile>, cbPrePE: nat, cbData: nat, noMemory: bool)
      returns (ok: bool, places: seq<Place>, table: seq<Descriptor>, lookup: CImageThunks, bound: CImageThunks,
               names: CImageChars)
      requires nOutputVirtSize == 0 && nOutputVirtAddr > 0 && fileAlignment > 0
      requires nOutputVirtAddr + Total(Parts(cbPrePE, AllThunks(files), AllChars(files), cbData, |files| + 1))
               < OrdinalFlag
      modifies this`cbOutputBuffer, this`nOutputVirtSize
      ensures var requested := Requested(cbPrePE, AllThunks(files), AllChars(files), cbData, |files| + 1);
        && (ok <==> ((old(cbOutputBuffer) >= requested || !noMemory)
                     && Total(Parts(cbPrePE, AllThunks(files), AllChars(files), cbData, |files| + 1))
                        <= Sized(old(cbOutputBuffer), requested, fileAlignment)))
        && (ok ==> cbOutputBuffer == Sized(old(cbOutputBuffer), requested, fileAlignment))
      ensures !noMemory && cbPrePE % 8 == 0 ==> ok
      ensures !noMemory && fileAlignment % 8 == 0 && old(cbOutputBuffer) % 8 == 0 ==> ok
      ensures ok ==> InOrder(places, cbOutputBuffer) && |places| == 7
      ensures ok ==>
        && |table| == |files| + 1 && table[|files|] == ZeroDescriptor
        && |lookup.thunks| == AllThunks(files) && |names.chars| == AllChars(files)
        && lookup.virt == nOutputVirtAddr + places[2].offset && names.virt == nOutputVirtAddr + places[4].offset
        && places[2].size == 8 * |lookup.thunks| && places[4].size == |names.chars|
        && places[6].size == 20 * |table|
        && ReadTable(table, lookup.thunks, lookup.virt, names.chars, names.virt) == ExpectedTable(files)
      // the thunks that the loader overwrites
      ensures ok ==>
        && bound.virt == nOutputVirtAddr + places[3].offset && |table| == |files| + 1
        && 8 * |bound.thunks| <= places[3].size == 8 * AllThunks(files)
        && BoundRight(table, files, bound.thunks, bound.virt, names.chars, names.virt)
        && forall i :: 0 <= i < |files| ==>
             table[i].forwarderChain == files[i].forwarderChain && table[i].timeDateStamp == 0
      // the section header, the headers of the image, and the payloads
      ensures ok ==> places[0].size == 64 && places[1].size == cbPrePE && places[5].size == cbData
    {
      hide Total, InOrder, AllChars, AllThunks, Requested, ReadTable, ExpectedTable, Sized, QuadAlign, BoundRight;
      var need, nTables, nThunks, nChars := CheckImportsNeeded(files);
      TotalOfParts(cbPrePE, nThunks, nChars, cbData, nTables);
      lookup := new CImageThunks(0, 0);
      bound := new CImageThunks(0, 0);
      names := new CImageChars(0, 0);
      places, table := [], [];
      if fileAlignment % 8 == 0 && cbOutputBuffer % 8 == 0 {
        RoundingFits(cbPrePE, nThunks, nChars, cbData, nTables, cbOutputBuffer, fileAlignment);
      }
      ok := SizeOutputBuffer(Requested(cbPrePE, nThunks, nChars, cbData, nTables), noMemory);
      if !ok { return; }
      ok, places := PlaceParts(Parts(cbPrePE, nThunks, nChars, cbData, nTables));
      if !ok { return; }
      PlacesWithin(places, Parts(cbPrePE, nThunks, nChars, cbData, nTables), nOutputVirtSize, cbOutputBuffer);
      lookup := new CImageThunks(nThunks, nOutputVirtAddr + places[2].offset);
      bound := new CImageThunks(nThunks, nOutputVirtAddr + places[3].offset);
      names := new CImageChars(nChars, nOutputVirtAddr + places[4].offset);
      table := EmitImports(files, lookup, bound, names, nTables);
    }
  }

  lemma NoParts(parts: seq<nat>)
    ensures InOrder([], 0) && Total(parts[..0]) == 0
  {
  }

  lemma TotalStep(parts: seq<nat>, k: nat)
    requires k < |parts|
    ensures Total(parts[..k + 1]) == Total(parts[..k]) + QuadAlign(parts[k])
  {
    assert parts[..k + 1][..k] == parts[..k];
  }

  lemma PlacesWithin(places: seq<Place>, parts: seq<nat>, used: nat, limit: nat)
    requires InOrder(places, used) && used <= limit
    ensures InOrder(places, limit) && forall i :: 0 <= i < |places| ==> places[i].offset + places[i].size <= used
  {
  }
}
