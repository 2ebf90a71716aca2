/** CImageData of LoaderWatch.Inject/image.cpp: payloads by GUID, packed one after the other into
    one buffer, against an ordered map. */
module ImagePayloads {

  type byte = x: int | 0 <= x < 0x100

  /** sizeof(DETOUR_SECTION_RECORD): cbBytes, nReserved and the GUID. */
  const RecordSize: nat := 24
  const TwoTo32: nat := 0x1_0000_0000

  function QuadAlign(a: nat): (n: nat)
    ensures a <= n < a + 8 && n % 8 == 0
  {
    (a + 7) / 8 * 8
  }

  // ------------------------------------------------------------ the map of payloads

  datatype Payload = Payload(guid: seq<byte>, data: seq<byte>)

  /** The index of the payload of a GUID, or the number of payloads. */
  ghost function Lookup(ps: seq<Payload>, guid: seq<byte>): (k: nat)
    ensures k <= |ps| && (k < |ps| ==> ps[k].guid == guid) && forall j :: 0 <= j < k ==> ps[j].guid != guid
  {
    if ps == [] then 0 else if ps[0].guid == guid then 0 else 1 + Lookup(ps[1..], guid)
  }

  ghost function Without(ps: seq<Payload>, guid: seq<byte>): seq<Payload> {
    var k := Lookup(ps, guid);
    if k < |ps| then ps[..k] + ps[k + 1..] else ps
  }

  /** The data padded with zeros to a multiple of eight bytes. */
  ghost function Padded(data: seq<byte>): (s: seq<byte>)
    ensures |s| == QuadAlign(|data|)
  {
    data + seq(QuadAlign(|data|) - |data|, _ => 0)
  }

  ghost function With(ps: seq<Payload>, guid: seq<byte>, data: seq<byte>): seq<Payload> {
    Without(ps, guid) + [Payload(guid, Padded(data))]
  }

  ghost predicate UniqueGuids(ps: seq<Payload>) { forall i, j :: 0 <= i < j < |ps| ==> ps[i].guid != ps[j].guid }

  lemma LookupIs(ps: seq<Payload>, k: nat)
    requires UniqueGuids(ps) && k < |ps|
    ensures Lookup(ps, ps[k].guid) == k
  {
    var j := Lookup(ps, ps[k].guid);
    assert j <= k;
  }

  /** Deleting removes exactly one payload and keeps the others in order. */
  lemma DeleteOne(ps: seq<Payload>, guid: seq<byte>)
    requires UniqueGuids(ps)
    ensures var qs := Without(ps, guid);
      && UniqueGuids(qs) && Lookup(qs, guid) == |qs|
      && |qs| == |ps| - (if Lookup(ps, guid) < |ps| then 1 else 0)
      && forall g :: g != guid ==>
           (Lookup(qs, g) < |qs| <==> Lookup(ps, g) < |ps|)
           && (Lookup(ps, g) < |ps| ==> qs[Lookup(qs, g)] == ps[Lookup(ps, g)])
  {
    var qs, k := Without(ps, guid), Lookup(ps, guid);
    if k < |ps| {
      forall i, j | 0 <= i < j < |qs| ensures qs[i].guid != qs[j].guid {
        var i', j' := if i < k then i else i + 1, if j < k then j else j + 1;
        assert qs[i] == ps[i'] && qs[j] == ps[j'];
      }
      forall j | 0 <= j < |qs| ensures qs[j].guid != guid {
        var j' := if j < k then j else j + 1;
        assert qs[j] == ps[j'];
        if j' > k { assert ps[k].guid != ps[j'].guid; } else { assert ps[j'].guid != ps[k].guid; }
      }
    }
    forall g | g != guid
      ensures Lookup(qs, g) < |qs| <==> Lookup(ps, g) < |ps|
      ensures Lookup(ps, g) < |ps| ==> qs[Lookup(qs, g)] == ps[Lookup(ps, g)]
    {
      OtherStays(ps, guid, g);
    }
  }

  lemma OtherStays(ps: seq<Payload>, guid: seq<byte>, g: seq<byte>)
    requires UniqueGuids(ps) && g != guid && UniqueGuids(Without(ps, guid))
    ensures var qs := Without(ps, guid);
      && (Lookup(qs, g) < |qs| <==> Lookup(ps, g) < |ps|)
      && (Lookup(ps, g) < |ps| ==> qs[Lookup(qs, g)] == ps[Lookup(ps, g)])
  {
    var qs, k := Without(ps, guid), Lookup(ps, guid);
    if k < |ps| {
      var j, i := Lookup(ps, g), Lookup(qs, g);
      if j < |ps| {
        var j' := if j < k then j else j - 1;
        assert j != k && qs[j'] == ps[j];
        LookupIs(qs, j');
      }
      if i < |qs| {
        var i' := if i < k then i else i + 1;
        assert qs[i] == ps[i'];
        LookupIs(ps, i');
      }
    }
  }

  /** Setting a payload and then finding it gives its data, padded; other GUIDs are untouched. */
  lemma SetThenFind(ps: seq<Payload>, guid: seq<byte>, data: seq<byte>)
    requires UniqueGuids(ps)
    ensures var qs := With(ps, guid, data);
      && UniqueGuids(qs) && Lookup(qs, guid) == |qs| - 1 && qs[|qs| - 1].data == Padded(data)
      && Padded(data)[..|data|] == data && (forall i :: |data| <= i < |Padded(data)| ==> Padded(data)[i] == 0)
      && forall g :: g != guid ==>
           (Lookup(qs, g) < |qs| <==> Lookup(ps, g) < |ps|)
           && (Lookup(ps, g) < |ps| ==> qs[Lookup(qs, g)] == ps[Lookup(ps, g)])
  {
    var rs, qs := Without(ps, guid), With(ps, guid, data);
    DeleteOne(ps, guid);
    forall i, j | 0 <= i < j < |qs| ensures qs[i].guid != qs[j].guid {
      assert i < |rs| ==> qs[i] == rs[i];
      assert j < |rs| ==> qs[j] == rs[j];
    }
    LookupIs(qs, |qs| - 1);
    forall g | g != guid
      ensures Lookup(qs, g) < |qs| <==> Lookup(ps, g) < |ps|
      ensures Lookup(ps, g) < |ps| ==> qs[Lookup(qs, g)] == ps[Lookup(ps, g)]
    {
      var i := Lookup(rs, g);
      if i < |rs| { assert qs[i] == rs[i]; LookupIs(qs, i); }
      var j := Lookup(qs, g);
      if j < |qs| { assert j < |rs| && qs[j] == rs[j]; LookupIs(rs, j); }
    }
  }

  // -------------------------------------------------------------------- the bytes

  function Le32(n: nat): (s: seq<byte>) ensures |s| == 4 {
    [n % 0x100, n / 0x100 % 0x100, n / 0x1_0000 % 0x100, n / 0x100_0000 % 0x100]
  }

  function Dword(a: byte, b: byte, c: byte, d: byte): nat { a + b * 0x100 + c * 0x1_0000 + d * 0x100_0000 }

  lemma DwordOfLe32(n: nat)
    requires n < TwoTo32
    ensures var s := Le32(n); Dword(s[0], s[1], s[2], s[3]) == n
  {
    var a := n / 0x100;
    var b := a / 0x100;
    assert n / 0x1_0000 == b;
    assert n / 0x100_0000 == b / 0x100;
  }

  /** A record: its size, a reserved word, the GUID, and the data. */
  ghost function RecordBytes(p: Payload): (s: seq<byte>)
    requires |p.guid| == 16
    ensures |s| == RecordSize + |p.data|
  {
    Le32(RecordSize + |p.data|) + [0, 0, 0, 0] + p.guid + p.data
  }

  ghost predicate WellFormed(ps: seq<Payload>) { forall p :: p in ps ==> |p.guid| == 16 }

  /** The payloads one after the other. */
  ghost function Encode(ps: seq<Payload>): seq<byte>
    requires WellFormed(ps)
  {
    if ps == [] then [] else RecordBytes(ps[0]) + Encode(ps[1..])
  }

  lemma {:induction false} EncodeAppend(ps: seq<Payload>, qs: seq<Payload>)
    requires WellFormed(ps) && WellFormed(qs)
    ensures WellFormed(ps + qs) && Encode(ps + qs) == Encode(ps) + Encode(qs)
  {
    if ps == [] {
      assert ps + qs == qs;
    } else {
      assert (ps + qs)[0] == ps[0] && (ps + qs)[1..] == ps[1..] + qs;
      EncodeAppend(ps[1..], qs);
    }
  }

  /** Where the `k`th record starts. */
  ghost function Offset(ps: seq<Payload>, k: nat): nat
    requires WellFormed(ps) && k <= |ps|
  {
    |Encode(ps[..k])|
  }

  /** The bytes around the `k`th record. */
  lemma Around(ps: seq<Payload>, k: nat)
    requires WellFormed(ps) && k < |ps|
    ensures WellFormed(ps[..k]) && WellFormed(ps[k + 1..]) && |ps[k].guid| == 16
    ensures Encode(ps) == Encode(ps[..k]) + RecordBytes(ps[k]) + Encode(ps[k + 1..])
    ensures Offset(ps, k + 1) == Offset(ps, k) + RecordSize + |ps[k].data| <= |Encode(ps)|
  {
    hide RecordBytes, Encode;
    var a, p, b := ps[..k], ps[k], ps[k + 1..];
    assert ps == a + [p] + b;
    AroundParts(a, p, b);
    assert ps[..k + 1] == a + [p];
  }

  lemma AroundParts(a: seq<Payload>, p: Payload, b: seq<Payload>)
    requires WellFormed(a) && WellFormed(b) && |p.guid| == 16
    ensures WellFormed(a + [p]) && Encode(a + [p]) == Encode(a) + RecordBytes(p)
    ensures WellFormed(a + [p] + b) && Encode(a + [p] + b) == Encode(a) + RecordBytes(p) + Encode(b)
  {
    hide RecordBytes, Encode;
    EncodeOne(p);
    EncodeAppend(a, [p]);
    EncodeAppend(a + [p], b);
  }

  lemma EncodeOne(p: Payload)
    requires |p.guid| == 16
    ensures WellFormed([p]) && Encode([p]) == RecordBytes(p)
  {
    assert [p][1..] == [];
  }

  lemma OffsetEnds(ps: seq<Payload>)
    requires WellFormed(ps)
    ensures Offset(ps, 0) == 0 && Offset(ps, |ps|) == |Encode(ps)|
  {
    assert ps[..|ps|] == ps;
  }

  // ------------------------------------------------------------- stores of any kind

  /** The size that the record at `o` gives for itself, and whether it is at least a header with
      a reserved word of 0. */
  function SizeAt(b: seq<byte>, o: nat): nat
    requires o + 8 <= |b|
  {
    Dword(b[o], b[o + 1], b[o + 2], b[o + 3])
  }

  predicate HeaderOk(b: seq<byte>, o: nat)
    requires o + 8 <= |b|
  {
    SizeAt(b, o) >= RecordSize && b[o + 4] == b[o + 5] == b[o + 6] == b[o + 7] == 0
  }

  /** From `o` on, the store of `cbData` bytes at the start of `b` is made of records that follow
      one another; the last one may be longer than what is left. */
  predicate Chained(b: seq<byte>, cbData: nat, o: nat)
    decreases if o < cbData then cbData - o else 0
  {
    o >= cbData || (o + 8 <= |b| && HeaderOk(b, o) && Chained(b, cbData, o + SizeAt(b, o)))
  }

  /** The headers that a walk along the records reads are in memory. */
  predicate Readable(b: seq<byte>, cbData: nat, o: nat)
    decreases if o < cbData then cbData - o else 0
  {
    o >= cbData || (o + RecordSize <= |b| && (HeaderOk(b, o) ==> Readable(b, cbData, o + SizeAt(b, o))))
  }

  /** Where the walk ends. */
  function EndOf(b: seq<byte>, cbData: nat, o: nat): nat
    requires Chained(b, cbData, o)
    decreases if o < cbData then cbData - o else 0
  {
    if o >= cbData then o else EndOf(b, cbData, o + SizeAt(b, o))
  }

  /** A list of payloads that fit the record's size field. */
  ghost predicate Storable(ps: seq<Payload>) {
    forall p :: p in ps ==> |p.guid| == 16 && RecordSize + |p.data| < TwoTo32
  }

  ghost predicate IsPacked(b: seq<byte>) { exists ps :: Storable(ps) && WellFormed(ps) && Encode(ps) == b }

  /** The walk along the records ends at the end of the store exactly if the store is packed. */
  lemma PackedExactly(b: seq<byte>)
    ensures (Chained(b, |b|, 0) && EndOf(b, |b|, 0) == |b|) <==> IsPacked(b)
  {
    if Chained(b, |b|, 0) && EndOf(b, |b|, 0) == |b| {
      var ps := Decoded(b, 0);
      assert b[0..] == b;
    }
    if ps :| Storable(ps) && WellFormed(ps) && Encode(ps) == b {
      PackedChained([], ps);
      assert [] + Encode(ps) == b;
    }
  }

  lemma {:induction false} Decoded(b: seq<byte>, o: nat) returns (ps: seq<Payload>)
    requires o <= |b| && Chained(b, |b|, o) && EndOf(b, |b|, o) == |b|
    ensures Storable(ps) && WellFormed(ps) && Encode(ps) == b[o..]
    decreases |b| - o
  {
    if o == |b| { return []; }
    var n := SizeAt(b, o);
    EndsAfter(b, |b|, o + n);
    var p := Payload(b[o + 8..o + RecordSize], b[o + RecordSize..o + n]);
    var rest := Decoded(b, o + n);
    DecodedOne(b, o, n);
    hide RecordBytes, Encode, Chained, EndOf, HeaderOk, SizeAt;
    ps := [p] + rest;
    OneBefore(p, rest);
    assert b[o..] == b[o..o + n] + b[o + n..];
  }

  lemma OneBefore(p: Payload, rest: seq<Payload>)
    requires Storable(rest) && WellFormed(rest) && |p.guid| == 16 && RecordSize + |p.data| < TwoTo32
    ensures Storable([p] + rest) && WellFormed([p] + rest) && Encode([p] + rest) == RecordBytes(p) + Encode(rest)
  {
    hide RecordBytes;
    assert ([p] + rest)[1..] == rest;
  }

  lemma DecodedOne(b: seq<byte>, o: nat, n: nat)
    requires o + 8 <= |b| && HeaderOk(b, o) && n == SizeAt(b, o) && o + n <= |b|
    ensures var p := Payload(b[o + 8..o + RecordSize], b[o + RecordSize..o + n]);
      RecordSize + |p.data| < TwoTo32 && RecordBytes(p) == b[o..o + n]
  {
    DwordBack(b[o], b[o + 1], b[o + 2], b[o + 3]);
    hide Le32;
    assert b[o..o + 4] == Le32(n);
    assert b[o + 4..o + 8] == [0, 0, 0, 0];
    assert b[o..o + 8] == b[o..o + 4] + b[o + 4..o + 8];
    assert b[o..o + RecordSize] == b[o..o + 8] + b[o + 8..o + RecordSize];
    assert b[o..o + n] == b[o..o + RecordSize] + b[o + RecordSize..o + n];
  }

  lemma {:induction false} EndsAfter(b: seq<byte>, cbData: nat, o: nat)
    requires Chained(b, cbData, o)
    ensures o <= EndOf(b, cbData, o)
    decreases if o < cbData then cbData - o else 0
  {
    if o < cbData { EndsAfter(b, cbData, o + SizeAt(b, o)); }
  }

  lemma DwordBack(a: byte, b: byte, c: byte, d: byte)
    ensures Dword(a, b, c, d) < TwoTo32 && Le32(Dword(a, b, c, d)) == [a, b, c, d]
  {
    var n3: nat, n2: nat, n1: nat := d, c + 0x100 * d, b + 0x100 * (c + 0x100 * d);
    var n := a + 0x100 * n1;
    assert Dword(a, b, c, d) == n;
    LowByte(c, n3, n2);
    LowByte(b, n2, n1);
    LowByte(a, n1, n);
    assert n / 0x1_0000 == n1 / 0x100 && n / 0x100_0000 == n2 / 0x100;
  }

  lemma LowByte(low: byte, high: nat, n: nat)
    requires n == low + 0x100 * high
    ensures n % 0x100 == low && n / 0x100 == high
  {
  }

  lemma {:induction false} PackedChained(before: seq<byte>, ps: seq<Payload>)
    requires Storable(ps) && WellFormed(ps)
    ensures var b := before + Encode(ps); Chained(b, |b|, |before|) && EndOf(b, |b|, |before|) == |b|
    decreases |ps|
  {
    var b, o := before + Encode(ps), |before|;
    if ps != [] {
      var r := RecordBytes(ps[0]);
      assert b == before + r + Encode(ps[1..]);
      HeaderIn(before, ps[0], Encode(ps[1..]));
      PackedChained(before + r, ps[1..]);
    }
  }

  lemma HeaderIn(a: seq<byte>, p: Payload, rest: seq<byte>)
    requires |p.guid| == 16 && RecordSize + |p.data| < TwoTo32
    ensures var b := a + RecordBytes(p) + rest; HeaderOk(b, |a|) && SizeAt(b, |a|) == RecordSize + |p.data|
  {
    var b, r, le := a + RecordBytes(p) + rest, RecordBytes(p), Le32(RecordSize + |p.data|);
    DwordOfLe32(RecordSize + |p.data|);
    hide Le32;
    assert forall i :: 0 <= i < 4 ==> b[|a| + i] == r[i] == le[i];
    assert forall i :: 4 <= i < 8 ==> b[|a| + i] == r[i] == 0;
  }

  // ----------------------------------------------------------------- where Find ends

  predicate Matches(b: seq<byte>, o: nat, guid: seq<byte>)
    requires o + RecordSize <= |b|
  {
    SizeAt(b, o) >= RecordSize && b[o + 8..o + RecordSize] == guid
  }

  /** Find stops at the end, at a record that is larger than the store, and at the GUID.  No record
      of size 0 is reached before. */
  predicate Halts(b: seq<byte>, cbData: nat, guid: seq<byte>, o: nat)
    decreases if o < cbData then cbData - o else 0
  {
    o >= cbData || (o + RecordSize <= |b| &&
                    (SizeAt(b, o) > cbData || Matches(b, o, guid) ||
                     (SizeAt(b, o) > 0 && Halts(b, cbData, guid, o + SizeAt(b, o)))))
  }

  /** The loop of Find, started at `o`, ends within `n` turns. */
  predicate EndsWithin(b: seq<byte>, cbData: nat, guid: seq<byte>, o: nat, n: nat)
    decreases n
  {
    o >= cbData || (n > 0 && o + RecordSize <= |b| &&
                    (SizeAt(b, o) > cbData || Matches(b, o, guid)
                      || EndsWithin(b, cbData, guid, o + SizeAt(b, o), n - 1)))
  }

  ghost predicate Ends(b: seq<byte>, cbData: nat, guid: seq<byte>, o: nat) {
    exists n :: EndsWithin(b, cbData, guid, o, n)
  }

  /** It ends exactly if it reaches no record of size 0. */
  lemma FindEnds(b: seq<byte>, cbData: nat, guid: seq<byte>, o: nat)
    ensures Ends(b, cbData, guid, o) <==> Halts(b, cbData, guid, o)
  {
    hide EndsWithin, Halts;
    if Halts(b, cbData, guid, o) { HaltsWithin(b, cbData, guid, o); }
    forall n: nat | EndsWithin(b, cbData, guid, o, n) ensures Halts(b, cbData, guid, o) {
      WithinHalts(b, cbData, guid, o, n);
    }
  }

  lemma {:induction false} HaltsWithin(b: seq<byte>, cbData: nat, guid: seq<byte>, o: nat)
    requires Halts(b, cbData, guid, o)
    ensures EndsWithin(b, cbData, guid, o, if o < cbData then cbData - o else 0)
    decreases if o < cbData then cbData - o else 0
  {
    if o < cbData && !(SizeAt(b, o) > cbData || Matches(b, o, guid)) {
      var o' := o + SizeAt(b, o);
      HaltsWithin(b, cbData, guid, o');
      MoreTurns(b, cbData, guid, o', if o' < cbData then cbData - o' else 0, cbData - o - 1);
    }
  }

  lemma {:induction false} MoreTurns(b: seq<byte>, cbData: nat, guid: seq<byte>, o: nat, n: nat, n': nat)
    requires EndsWithin(b, cbData, guid, o, n) && n <= n'
    ensures EndsWithin(b, cbData, guid, o, n')
    decreases n
  {
    if o < cbData && !(SizeAt(b, o) > cbData || Matches(b, o, guid)) {
      MoreTurns(b, cbData, guid, o + SizeAt(b, o), n - 1, n' - 1);
    }
  }

  lemma {:induction false} WithinHalts(b: seq<byte>, cbData: nat, guid: seq<byte>, o: nat, n: nat)
    requires EndsWithin(b, cbData, guid, o, n)
    ensures Halts(b, cbData, guid, o)
    decreases n
  {
    if o < cbData && !(SizeAt(b, o) > cbData || Matches(b, o, guid)) {
      WithinHalts(b, cbData, guid, o + SizeAt(b, o), n - 1);
      if SizeAt(b, o) == 0 { Stuck(b, cbData, guid, o, n); }
    }
  }

  /** A record of size 0 is visited again and again. */
  lemma {:induction false} Stuck(b: seq<byte>, cbData: nat, guid: seq<byte>, o: nat, n: nat)
    requires o < cbData && o + RecordSize <= |b| && SizeAt(b, o) == 0
    ensures !EndsWithin(b, cbData, guid, o, n)
    decreases n
  {
    if n > 0 { Stuck(b, cbData, guid, o, n - 1); }
  }

  /** What Find finds: the place behind the first header with the GUID, and the size of its data. */
  function Scan(b: seq<byte>, cbData: nat, guid: seq<byte>, o: nat): (int, nat)
    requires Halts(b, cbData, guid, o)
    decreases if o < cbData then cbData - o else 0
  {
    if o >= cbData || SizeAt(b, o) > cbData then (-1, 0)
    else if Matches(b, o, guid) then (o + RecordSize, SizeAt(b, o) - RecordSize)
    else Scan(b, cbData, guid, o + SizeAt(b, o))
  }

  /** One turn of the loop. */
  lemma OneVisit(b: seq<byte>, cbData: nat, guid: seq<byte>, o: nat)
    requires o < cbData && o + RecordSize <= |b|
    ensures var n := SizeAt(b, o);
      if n > cbData then Halts(b, cbData, guid, o) && Scan(b, cbData, guid, o) == (-1, 0)
      else if n >= RecordSize && b[o + 8..o + RecordSize] == guid then
        Halts(b, cbData, guid, o) && Scan(b, cbData, guid, o) == (o + RecordSize, n - RecordSize)
      else
        && (Halts(b, cbData, guid, o) <==> n > 0 && Halts(b, cbData, guid, o + n))
        && (Halts(b, cbData, guid, o) ==> Scan(b, cbData, guid, o) == Scan(b, cbData, guid, o + n))
  {
  }

  lemma HeaderThere(b: seq<byte>, cbData: nat, guid: seq<byte>, o: nat)
    requires Halts(b, cbData, guid, o)
    ensures if o < cbData then o + RecordSize <= |b| else Scan(b, cbData, guid, o) == (-1, 0)
  {
  }

  lemma HaltsAtEnd(b: seq<byte>, cbData: nat, guid: seq<byte>, o: nat)
    requires o >= cbData
    ensures Halts(b, cbData, guid, o) && Scan(b, cbData, guid, o) == (-1, 0)
  {
  }
}
