/** CImageData of LoaderWatch.Inject/image.cpp: the buffer and its operations. */
module ImageData {
  import opened ImagePayloads

  /** The data of Set: so many bytes, or a null pointer with their number. */
  datatype Source = Data(data: seq<byte>) | Null(cbData: nat)

  function Given(source: Source): seq<byte> {
    match source
    case Data(data) => data
    case Null(cbData) => seq<byte>(cbData, _ => 0)
  }

  /** A null pointer stands for so many zeros. */
  lemma GivenExactly(source: Source)
    ensures source.Data? ==> Given(source) == source.data
    ensures source.Null? ==> |Given(source)| == source.cbData && forall x :: x in Given(source) ==> x == 0
  {
  }

  class CImageData {
    var pbData: array<byte>
    var cbData: nat
    /** 0 while the buffer is a part of the mapped file. */
    var cbAlloc: nat
    /** The payloads that the records in the buffer are. */
    ghost var payloads: seq<Payload>

    ghost predicate Valid()
      reads this, pbData
    {
      && cbData <= pbData.Length && (cbAlloc > 0 ==> cbAlloc <= pbData.Length) && (cbAlloc > 0 ==> cbData <= cbAlloc)
      && WellFormed(payloads) && UniqueGuids(payloads) && cbData < TwoTo32
      && pbData[..cbData] == Encode(payloads)
    }

    /** A buffer that already holds records. */
    constructor (pbData: array<byte>, cbData: nat, ghost payloads: seq<Payload>)
      requires cbData <= pbData.Length && cbData < TwoTo32
      requires WellFormed(payloads) && UniqueGuids(payloads) && pbData[..cbData] == Encode(payloads)
      ensures Valid() && this.pbData == pbData && this.payloads == payloads
    {
      this.pbData, this.cbData, this.cbAlloc, this.payloads := pbData, cbData, 0, payloads;
    }

    /** The `k`th record is where its offset says. */
    lemma RecordAt(k: nat)
      requires Valid() && k < |payloads|
      ensures |payloads[k].guid| == 16
      ensures var o, p := Offset(payloads, k), payloads[k];
        && o + RecordSize + |p.data| == Offset(payloads, k + 1) <= cbData
        && Dword(pbData[o], pbData[o + 1], pbData[o + 2], pbData[o + 3]) == RecordSize + |p.data|
        && pbData[o + 4] == pbData[o + 5] == pbData[o + 6] == pbData[o + 7] == 0
        && pbData[o + 8..o + RecordSize] == p.guid
        && pbData[o + RecordSize..o + RecordSize + |p.data|] == p.data
    {
      hide Encode, RecordBytes, UniqueGuids, WellFormed;
      Around(payloads, k);
      var o, p, all := Offset(payloads, k), payloads[k], pbData[..cbData];
      RecordIn(Encode(payloads[..k]), p, Encode(payloads[k + 1..]));
      assert |all| == cbData && o + RecordSize + |p.data| <= cbData;
      Slices(pbData[..], cbData, o + 8, o + RecordSize);
      Slices(pbData[..], cbData, o + RecordSize, o + RecordSize + |p.data|);
      assert pbData[..][..cbData] == all;
    }

    lemma RecordEnds(k: nat)
      requires Valid() && k < |payloads|
      ensures Offset(payloads, k) + RecordSize + |payloads[k].data| == Offset(payloads, k + 1) <= cbData
    {
      Around(payloads, k);
    }

    /** Find, on a store on which it ends: what the walk along the records finds first.  On packed
        records that is the place and the size of the data of a GUID, or -1 if it has none. */
    method Find(guid: seq<byte>) returns (pb: int, cb: nat)
      requires |guid| == 16 && (Halts(pbData[..], cbData, guid, 0) || Valid())
      ensures Halts(pbData[..], cbData, guid, 0) && (pb, cb) == Scan(pbData[..], cbData, guid, 0)
      ensures Valid() ==> var k := Lookup(payloads, guid);
        if k < |payloads| then
          && pb == Offset(payloads, k) + RecordSize && cb == |payloads[k].data|
          && pb + cb <= cbData && pbData[pb..pb + cb] == payloads[k].data
        else pb == -1 && cb == 0
    {
      hide Encode, Offset, UniqueGuids, WellFormed, Valid, Halts, Scan, Lookup;
      if Valid() { ScanFinds(guid); }
      ghost var b := pbData[..];
      var cbBytes := RecordSize;
      var nOffset := 0;
      while nOffset < cbData
        invariant Halts(b, cbData, guid, nOffset) && Scan(b, cbData, guid, nOffset) == Scan(b, cbData, guid, 0)
        decreases if nOffset < cbData then cbData - nOffset else 0
      {
        HeaderThere(b, cbData, guid, nOffset);
        OneVisit(b, cbData, guid, nOffset);
        Slices(b, pbData.Length, nOffset + 8, nOffset + RecordSize);
        cbBytes := Dword(pbData[nOffset], pbData[nOffset + 1], pbData[nOffset + 2], pbData[nOffset + 3]);
        if cbBytes > cbData { break; }
        if cbBytes >= RecordSize && pbData[nOffset + 8..nOffset + RecordSize] == guid {
          return nOffset + RecordSize, cbBytes - RecordSize;
        }
        nOffset := nOffset + cbBytes;
      }
      HeaderThere(b, cbData, guid, nOffset);
      return -1, 0;
    }

    /** On packed records, Find ends, and finds the payload of a GUID. */
    lemma ScanFinds(guid: seq<byte>)
      requires Valid() && |guid| == 16
      ensures Halts(pbData[..], cbData, guid, 0)
      ensures var k := Lookup(payloads, guid);
        if k < |payloads| then
          && Scan(pbData[..], cbData, guid, 0) == (Offset(payloads, k) + RecordSize, |payloads[k].data|)
          && Offset(payloads, k) + RecordSize + |payloads[k].data| <= cbData
          && var o := Offset(payloads, k) + RecordSize; pbData[o..o + |payloads[k].data|] == payloads[k].data
        else Scan(pbData[..], cbData, guid, 0) == (-1, 0)
    {
      OffsetEnds(payloads);
      ScanFrom(guid, 0);
      var k := Lookup(payloads, guid);
      if k < |payloads| { RecordAt(k); }
    }

    lemma {:induction false} ScanFrom(guid: seq<byte>, k: nat)
      requires Valid() && |guid| == 16 && k <= |payloads| && forall j :: 0 <= j < k ==> payloads[j].guid != guid
      ensures var o := Offset(payloads, k);
        && Halts(pbData[..], cbData, guid, o)
        && Scan(pbData[..], cbData, guid, o) == var n := Lookup(payloads, guid);
             if n < |payloads| then (Offset(payloads, n) + RecordSize, |payloads[n].data|) else (-1, 0)
      decreases |payloads| - k
    {
      hide Encode, Offset, UniqueGuids, WellFormed, Halts, Scan;
      OffsetEnds(payloads);
      if k == |payloads| {
        HaltsAtEnd(pbData[..], cbData, guid, Offset(payloads, k));
      } else {
        RecordAt(k);
        var o, b := Offset(payloads, k), pbData[..];
        OneVisit(b, cbData, guid, o);
        assert SizeAt(b, o) == RecordSize + |payloads[k].data| && b[o + 8..o + RecordSize] == payloads[k].guid;
        if payloads[k].guid == guid {
          assert Lookup(payloads, guid) == k;
        } else {
          ScanFrom(guid, k + 1);
        }
      }
    }

    /** Enumerate: the record at the iterator, and the iterator for the next one. */
    method Enumerate(nIterator: nat, ghost k: nat) returns (pb: int, guid: seq<byte>, cb: nat, next: nat)
      requires Valid() && k <= |payloads| && nIterator == Offset(payloads, k)
      ensures if k < |payloads| then
                && pb == nIterator + RecordSize && pb + cb <= cbData
                && Payload(guid, pbData[pb..pb + cb]) == payloads[k] && next == Offset(payloads, k + 1)
              else pb == -1 && cb == 0 && guid == seq(16, _ => 0) && next == nIterator
    {
      hide Encode, Offset, UniqueGuids, WellFormed;
      OffsetEnds(payloads);
      if k < |payloads| { RecordAt(k); }
      if cbData < nIterator + RecordSize {
        return -1, seq(16, _ => 0), 0, nIterator;
      }
      var cbBytes := Dword(pbData[nIterator], pbData[nIterator + 1], pbData[nIterator + 2], pbData[nIterator + 3]);
      return nIterator + RecordSize, pbData[nIterator + 8..nIterator + RecordSize], cbBytes - RecordSize,
          nIterator + cbBytes;
    }

    /** Enumerating from 0 until there is no more visits each payload once, in order. */
    method EnumerateAll() returns (all: seq<Payload>)
      requires Valid()
      ensures all == payloads
    {
      var nIterator := 0;
      ghost var k := 0;
      all := [];
      OffsetEnds(payloads);
      while true
        invariant k <= |payloads| && nIterator == Offset(payloads, k) && all == payloads[..k]
        decreases |payloads| - k
      {
        var pb, guid, cb, next := Enumerate(nIterator, k);
        if pb < 0 { break; }
        all := all + [Payload(guid, pbData[pb..pb + cb])];
        assert payloads[..k + 1] == payloads[..k] + [payloads[k]];
        nIterator, k := next, k + 1;
      }
    }

    /** Delete: the data after the record moves down over it. */
    method Delete(guid: seq<byte>) returns (ok: bool)
      requires Valid() && |guid| == 16
      modifies this`cbData, this`payloads, pbData
      ensures Valid() && payloads == Without(old(payloads), guid)
      ensures ok <==> Lookup(old(payloads), guid) < |old(payloads)|
      ensures cbData <= old(cbData)
    {
      hide Encode, Offset, UniqueGuids, WellFormed, Without, Halts, Scan;
      StillUnique(payloads, guid);
      var pbFound, cbFound := Find(guid);
      if pbFound < 0 {
        return false;
      }
      TakeOut(guid, pbFound - RecordSize, cbFound + RecordSize);
      return true;
    }

    /** Takes the record of a GUID out of the buffer. */
    method TakeOut(guid: seq<byte>, pbFound: nat, cbFound: nat)
      requires Valid() && Lookup(payloads, guid) < |payloads|
      requires var k := Lookup(payloads, guid);
        pbFound == Offset(payloads, k) && cbFound == RecordSize + |payloads[k].data|
      modifies this`cbData, this`payloads, pbData
      ensures Valid() && payloads == Without(old(payloads), guid) && cbData <= old(cbData)
    {
      hide Encode, Offset, UniqueGuids, WellFormed, Without;
      StillUnique(payloads, guid);
      RecordEnds(Lookup(payloads, guid));
      var pbRestData := pbFound + cbFound;
      var cbRestData := cbData - pbRestData;
      ghost var all := pbData[..cbData];
      DeletedBytes(payloads, guid, all);
      hide Lookup;
      assert all[..pbFound] == pbData[..pbFound] && all[pbRestData..] == pbData[pbRestData..pbRestData + cbRestData];
      if cbRestData > 0 {
        MoveMemory(pbData, pbFound, pbRestData, cbRestData);
      }
      cbData := cbData - cbFound;
      payloads := Without(payloads, guid);
    }

    /** IsValid: exactly the stores whose records follow one another are valid, packed ones among
        them. */
    method IsValid() returns (valid: bool)
      requires Readable(pbData[..], cbData, 0) || Valid()
      ensures valid <==> Chained(pbData[..], cbData, 0)
      ensures Valid() ==> valid && EndOf(pbData[..], cbData, 0) == cbData
    {
      if Valid() { PackedIsValid(); }
      hide Valid;
      var pbIter := 0;
      while pbIter < cbData
        invariant Readable(pbData[..], cbData, pbIter)
          && (Chained(pbData[..], cbData, pbIter) <==> Chained(pbData[..], cbData, 0))
        decreases if pbIter < cbData then cbData - pbIter else 0
      {
        var cbBytes := Dword(pbData[pbIter], pbData[pbIter + 1], pbData[pbIter + 2], pbData[pbIter + 3]);
        if cbBytes < RecordSize { return false; }
        if !(pbData[pbIter + 4] == pbData[pbIter + 5] == pbData[pbIter + 6] == pbData[pbIter + 7] == 0) {
          return false;
        }
        pbIter := pbIter + cbBytes;
      }
      return true;
    }

    lemma PackedIsValid()
      requires Valid()
      ensures Readable(pbData[..], cbData, 0) && Chained(pbData[..], cbData, 0)
        && EndOf(pbData[..], cbData, 0) == cbData
    {
      OffsetEnds(payloads);
      PackedFrom(0);
    }

    lemma {:induction false} PackedFrom(k: nat)
      requires Valid() && k <= |payloads|
      ensures var o := Offset(payloads, k);
        Readable(pbData[..], cbData, o) && Chained(pbData[..], cbData, o) && EndOf(pbData[..], cbData, o) == cbData
      decreases |payloads| - k
    {
      hide Encode, Offset, UniqueGuids, WellFormed;
      OffsetEnds(payloads);
      if k < |payloads| {
        RecordAt(k);
        PackedFrom(k + 1);
      }
    }

    /** Purge. */
    method Purge()
      requires Valid()
      modifies this`cbData, this`payloads
      ensures Valid() && payloads == []
    {
      cbData := 0;
      payloads := [];
    }

    /** SizeTo: room for `cb` bytes, in a buffer of its own. */
    method SizeTo(cb: nat, noMemory: bool) returns (ok: bool)
      requires Valid() && cbData <= cb < TwoTo32 && cb > 0
      modifies this`pbData, this`cbAlloc
      ensures Valid() && (pbData == old(pbData) || fresh(pbData))
      ensures ok ==> cb <= cbAlloc <= pbData.Length
      ensures !ok ==> noMemory && pbData == old(pbData)
    {
      hide Encode, UniqueGuids, WellFormed;
      if cb <= cbAlloc { return true; }
      if noMemory { return false; }
      var pbNew := new byte[cb];
      var from, n := pbData, cbData;
      for i := 0 to n
        invariant pbNew[..i] == from[..i]
      {
        pbNew[i] := from[i];
      }
      pbData := pbNew;
      cbAlloc := cb;
      return true;
    }

    /** Set: the old data of the GUID, if any, goes; the new data is added at the end, padded with
        zeros; without a source, it is all zeros.  When memory runs out the old data is gone
        nevertheless. */
    method Set(guid: seq<byte>, source: Source, noMemory: bool) returns (pbDest: int)
      requires Valid() && |guid| == 16 && cbData + QuadAlign(|Given(source)|) + RecordSize < TwoTo32
      modifies this, pbData
      ensures Valid() && (pbData == old(pbData) || fresh(pbData))
      ensures pbDest >= 0 ==> payloads == With(old(payloads), guid, Given(source))
      ensures pbDest >= 0 ==>
        pbDest + |Given(source)| <= cbData && pbData[pbDest..pbDest + |Given(source)|] == Given(source)
      ensures pbDest < 0 ==> noMemory && payloads == Without(old(payloads), guid)
    {
      hide Encode, Offset, UniqueGuids, WellFormed, Without, Lookup, With, Padded, RecordBytes;
      var data := Given(source);
      var deleted := Delete(guid);
      var cbNew := QuadAlign(|data|);
      var ok := SizeTo(cbData + cbNew + RecordSize, noMemory);
      if !ok {
        return -1;
      }
      ghost var p, all := Payload(guid, Padded(data)), pbData[..cbData];
      WithUnique(old(payloads), guid, data);
      WriteRecord(pbData, cbData, guid, data, cbNew);
      pbDest := cbData + RecordSize;
      InRecord(all, p, data, pbData[cbData + RecordSize + cbNew..]);
      AppendedBytes(payloads, p);
      cbData := cbData + cbNew + RecordSize;
      payloads := payloads + [p];
    }
  }

  method WriteBytes(a: array<byte>, at: nat, s: seq<byte>)
    requires at + |s| <= a.Length
    modifies a
    ensures a[..] == old(a[..at]) + s + old(a[at + |s|..])
  {
    ghost var was := a[..];
    for i := 0 to |s|
      invariant a[..] == was[..at] + s[..i] + was[at + i..]
    {
      a[at + i] := s[i];
    }
  }

  /** The header of a record, its data, and zeros after that. */
  method WriteRecord(a: array<byte>, at: nat, guid: seq<byte>, data: seq<byte>, cbNew: nat)
    requires |guid| == 16 && cbNew == QuadAlign(|data|) && at + RecordSize + cbNew <= a.Length
    modifies a
    ensures a[..] == old(a[..at]) + RecordBytes(Payload(guid, Padded(data))) + old(a[at + RecordSize + cbNew..])
  {
    hide RecordBytes, Le32, Padded;
    ghost var was := a[..];
    var header, zeros := Le32(cbNew + RecordSize) + [0, 0, 0, 0] + guid, seq(cbNew - |data|, _ => 0);
    WriteBytes(a, at, header);
    ghost var b := a[..];
    WriteBytes(a, at + RecordSize, data);
    ghost var c := a[..];
    WriteBytes(a, at + RecordSize + |data|, zeros);
    ThreeWrites(was, at, header, data, zeros, b, c, a[..]);
    ThreeParts(guid, data, header, zeros);
  }

  lemma ThreeWrites(was: seq<byte>, at: nat, h: seq<byte>, d: seq<byte>, z: seq<byte>, b: seq<byte>, c: seq<byte>,
                    e: seq<byte>)
    requires at + |h| + |d| + |z| <= |was|
    requires b == was[..at] + h + was[at + |h|..]
    requires c == b[..at + |h|] + d + b[at + |h| + |d|..]
    requires e == c[..at + |h| + |d|] + z + c[at + |h| + |d| + |z|..]
    ensures e == was[..at] + (h + d + z) + was[at + |h| + |d| + |z|..]
  {
    assert b[..at + |h|] == was[..at] + h;
    assert b[at + |h| + |d|..] == was[at + |h| + |d|..];
    assert c[..at + |h| + |d|] == was[..at] + h + d;
  }

  lemma ThreeParts(guid: seq<byte>, data: seq<byte>, header: seq<byte>, zeros: seq<byte>)
    requires |guid| == 16 && header == Le32(RecordSize + QuadAlign(|data|)) + [0, 0, 0, 0] + guid
    requires zeros == seq(QuadAlign(|data|) - |data|, _ => 0)
    ensures header + data + zeros == RecordBytes(Payload(guid, Padded(data)))
  {
    hide Le32;
    assert header + data + zeros == header + (data + zeros);
  }

  lemma InRecord(a: seq<byte>, p: Payload, data: seq<byte>, b: seq<byte>)
    requires |p.guid| == 16 && p.data == Padded(data)
    ensures var all, o := a + RecordBytes(p) + b, |a| + RecordSize;
      all[..o + |p.data|] == a + RecordBytes(p) && all[o..o + |data|] == data
  {
    var r, all, o := RecordBytes(p), a + RecordBytes(p) + b, |a| + RecordSize;
    assert r[RecordSize..] == p.data;
    hide RecordBytes;
    assert all[o..o + |p.data|] == r[RecordSize..];
  }

  lemma AppendedBytes(ps: seq<Payload>, p: Payload)
    requires WellFormed(ps) && |p.guid| == 16
    ensures WellFormed(ps + [p]) && Encode(ps + [p]) == Encode(ps) + RecordBytes(p)
  {
    AroundParts(ps, p, []);
  }

  lemma Slices(b: seq<byte>, n: nat, i: nat, j: nat)
    requires i <= j <= n <= |b|
    ensures b[..n][i..j] == b[i..j]
  {
  }

  /** The fields of a record between other bytes. */
  lemma RecordIn(a: seq<byte>, p: Payload, b: seq<byte>)
    requires |p.guid| == 16 && RecordSize + |p.data| < TwoTo32
    ensures var all, o := a + RecordBytes(p) + b, |a|;
      && Dword(all[o], all[o + 1], all[o + 2], all[o + 3]) == RecordSize + |p.data|
      && all[o + 4] == all[o + 5] == all[o + 6] == all[o + 7] == 0
      && all[o + 8..o + RecordSize] == p.guid && all[o + RecordSize..o + RecordSize + |p.data|] == p.data
  {
    var r, le, all := RecordBytes(p), Le32(RecordSize + |p.data|), a + RecordBytes(p) + b;
    DwordOfLe32(RecordSize + |p.data|);
    hide Le32;
    assert r == (le + [0, 0, 0, 0]) + p.guid + p.data;
    assert r[8..RecordSize] == p.guid && r[RecordSize..] == p.data;
    assert forall i :: 0 <= i < 4 ==> r[i] == le[i];
    assert forall i :: 4 <= i < 8 ==> r[i] == 0;
    assert all[|a|..|a| + |r|] == r;
    hide RecordBytes;
    assert forall i :: 0 <= i < |r| ==> all[|a| + i] == r[i];
    assert all[|a| + 8..|a| + RecordSize] == r[8..RecordSize];
    assert all[|a| + RecordSize..|a| + |r|] == r[RecordSize..];
  }

  lemma StillUnique(ps: seq<Payload>, guid: seq<byte>)
    requires UniqueGuids(ps)
    ensures UniqueGuids(Without(ps, guid)) && (Lookup(ps, guid) == |ps| ==> Without(ps, guid) == ps)
  {
    DeleteOne(ps, guid);
  }

  lemma WithUnique(ps: seq<Payload>, guid: seq<byte>, data: seq<byte>)
    requires UniqueGuids(ps)
    ensures UniqueGuids(With(ps, guid, data))
      && With(ps, guid, data) == Without(ps, guid) + [Payload(guid, Padded(data))]
  {
    SetThenFind(ps, guid, data);
  }

  lemma DeletedBytes(ps: seq<Payload>, guid: seq<byte>, all: seq<byte>)
    requires WellFormed(ps) && all == Encode(ps) && Lookup(ps, guid) < |ps|
    ensures var k, qs := Lookup(ps, guid), Without(ps, guid);
      && WellFormed(qs) && Offset(ps, k + 1) <= |all| && Offset(ps, k) <= Offset(ps, k + 1)
      && Encode(qs) == all[..Offset(ps, k)] + all[Offset(ps, k + 1)..]
  {
    var k := Lookup(ps, guid);
    Around(ps, k);
    EncodeAppend(ps[..k], ps[k + 1..]);
    hide Encode, RecordBytes;
    var a, r, b := Encode(ps[..k]), RecordBytes(ps[k]), Encode(ps[k + 1..]);
    assert all == a + r + b;
    assert all[..|a|] == a && all[|a| + |r|..] == b;
  }

  method MoveMemory(a: array<byte>, dst: nat, src: nat, n: nat)
    requires dst <= src && src + n <= a.Length
    modifies a
    ensures a[..dst + n] == old(a[..dst]) + old(a[src..src + n])
  {
    ghost var was, d := a[..], src - dst;
    for i := 0 to n
      invariant forall j {:trigger a[j]} :: 0 <= j < dst ==> a[j] == was[j]
      invariant forall j {:trigger a[j]} :: dst <= j < dst + i ==> a[j] == was[j + d]
      invariant forall j {:trigger a[j]} :: dst + i <= j < a.Length ==> a[j] == was[j]
    {
      a[dst + i] := a[src + i];
    }
    ghost var now := a[..];
    MovedDown(was, now, dst, src, n);
    assert a[..dst + n] == now[..dst + n] && was[..dst] == old(a[..dst]) && was[src..src + n] == old(a[src..src + n]);
  }

  lemma MovedDown(was: seq<byte>, now: seq<byte>, dst: nat, src: nat, n: nat)
    requires |now| == |was| && dst <= src && src + n <= |was|
    requires forall j :: 0 <= j < dst ==> now[j] == was[j]
    requires forall j :: dst <= j < dst + n ==> now[j] == was[j + (src - dst)]
    ensures now[..dst + n] == was[..dst] + was[src..src + n]
  {
    assert now[..dst] == was[..dst];
    assert now[dst..dst + n] == was[src..src + n];
    assert now[..dst + n] == now[..dst] + now[dst..dst + n];
  }
}
