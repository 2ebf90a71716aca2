/** Elements in order: what a CompareFunction must provide, and the sorted sequence that an
    AVL tree stands for. */
module AvlOrder {
  import opened AvlShape

  /** Only the sign of the LONG that a CompareFunction returns matters. */
  type Compare = (Record, Record) -> int

  ghost predicate TotalPreorder(cmp: Compare) {
    && (forall a, b :: cmp(a, b) < 0 <==> cmp(b, a) > 0)
    && (forall a, b, c {:trigger cmp(a, b), cmp(b, c)} :: cmp(a, b) <= 0 && cmp(b, c) <= 0 ==> cmp(a, c) <= 0)
  }

  ghost predicate Less(cmp: Compare, a: Links, b: Links) { cmp(a.record, b.record) < 0 }

  lemma LessTransitive(cmp: Compare, a: Links, b: Links, c: Links)
    requires TotalPreorder(cmp)
    requires cmp(a.record, b.record) <= 0 && cmp(b.record, c.record) <= 0
    requires cmp(a.record, b.record) < 0 || cmp(b.record, c.record) < 0
    ensures Less(cmp, a, c) && cmp(c.record, a.record) > 0
  {
    var x, y, z := a.record, b.record, c.record;
    assert cmp(z, x) <= 0 && cmp(x, y) <= 0 ==> cmp(z, y) <= 0;
    assert cmp(y, z) <= 0 && cmp(z, x) <= 0 ==> cmp(y, x) <= 0;
  }

  lemma NotLessItself(cmp: Compare, a: Links)
    requires TotalPreorder(cmp)
    ensures !Less(cmp, a, a) && cmp(a.record, a.record) == 0
  {
    assert cmp(a.record, a.record) < 0 <==> cmp(a.record, a.record) > 0;
  }

  ghost predicate Sorted(cmp: Compare, s: seq<Links>) {
    forall i, j :: 0 <= i < j < |s| ==> Less(cmp, s[i], s[j])
  }

  /** Every element of `s` comes before `e`. */
  ghost predicate AllBefore(cmp: Compare, s: seq<Links>, e: Links) {
    forall i :: 0 <= i < |s| ==> Less(cmp, s[i], e)
  }

  /** Every element of `s` comes after `e`. */
  ghost predicate AllAfter(cmp: Compare, s: seq<Links>, e: Links) {
    forall i :: 0 <= i < |s| ==> Less(cmp, e, s[i])
  }

  lemma SortedParts(cmp: Compare, a: seq<Links>, n: Links, b: seq<Links>)
    requires Sorted(cmp, a + [n] + b)
    ensures Sorted(cmp, a) && Sorted(cmp, b) && AllBefore(cmp, a, n) && AllAfter(cmp, b, n)
  {
    var s := a + [n] + b;
    forall i, j | 0 <= i < j < |a| ensures Less(cmp, a[i], a[j]) { assert s[i] == a[i] && s[j] == a[j]; }
    forall i, j | 0 <= i < j < |b| ensures Less(cmp, b[i], b[j]) {
      assert s[|a| + 1 + i] == b[i] && s[|a| + 1 + j] == b[j];
    }
    forall i | 0 <= i < |a| ensures Less(cmp, a[i], n) { assert s[i] == a[i] && s[|a|] == n; }
    forall i | 0 <= i < |b| ensures Less(cmp, n, b[i]) { assert s[|a|] == n && s[|a| + 1 + i] == b[i]; }
  }

  lemma SortedJoin(cmp: Compare, a: seq<Links>, n: Links, b: seq<Links>)
    requires TotalPreorder(cmp)
    requires Sorted(cmp, a) && Sorted(cmp, b) && AllBefore(cmp, a, n) && AllAfter(cmp, b, n)
    ensures Sorted(cmp, a + [n] + b)
  {
    var s := a + [n] + b;
    forall i, j | 0 <= i < j < |s| ensures Less(cmp, s[i], s[j]) {
      if i < |a| && j > |a| { LessTransitive(cmp, a[i], n, b[j - |a| - 1]); }
    }
  }

  lemma SortedAppend(cmp: Compare, a: seq<Links>, b: seq<Links>)
    requires Sorted(cmp, a + b)
    ensures Sorted(cmp, a) && Sorted(cmp, b)
  {
    var s := a + b;
    forall i, j | 0 <= i < j < |a| ensures Less(cmp, a[i], a[j]) { assert s[i] == a[i] && s[j] == a[j]; }
    forall i, j | 0 <= i < j < |b| ensures Less(cmp, b[i], b[j]) { assert s[|a| + i] == b[i] && s[|a| + j] == b[j]; }
  }

  // ------------------------------------------------- the reference operations

  /** Insertion into a sorted sequence, one element at a time. */
  ghost function InsertSorted(cmp: Compare, s: seq<Links>, e: Links): seq<Links> {
    if s == [] || Less(cmp, e, s[0]) then [e] + s else [s[0]] + InsertSorted(cmp, s[1..], e)
  }

  /** The sequence without the first occurrence of `e`. */
  ghost function Without(s: seq<Links>, e: Links): seq<Links> {
    if s == [] then [] else if s[0] == e then s[1..] else [s[0]] + Without(s[1..], e)
  }

  lemma {:induction false} InsertBetween(cmp: Compare, a: seq<Links>, e: Links, b: seq<Links>)
    requires TotalPreorder(cmp) && AllBefore(cmp, a, e) && AllAfter(cmp, b, e)
    ensures InsertSorted(cmp, a + b, e) == a + [e] + b
  {
    if a == [] {
      assert a + b == b;
    } else {
      assert (a + b)[0] == a[0] && (a + b)[1..] == a[1..] + b;
      assert Less(cmp, a[0], e);
      InsertBetween(cmp, a[1..], e, b);
    }
  }

  lemma {:induction false} WithoutMiddle(a: seq<Links>, e: Links, b: seq<Links>)
    requires e !in a
    ensures Without(a + [e] + b, e) == a + b
  {
    if a == [] {
      assert a + [e] + b == [e] + b;
    } else {
      assert (a + [e] + b)[0] == a[0] && (a + [e] + b)[1..] == a[1..] + [e] + b;
      WithoutMiddle(a[1..], e, b);
    }
  }

  /** In a sorted sequence an element has one place. */
  lemma OnePlace(cmp: Compare, a: seq<Links>, e: Links, b: seq<Links>)
    requires TotalPreorder(cmp) && Sorted(cmp, a + [e] + b)
    ensures e !in a && e !in b
  {
    SortedParts(cmp, a, e, b);
    NotLessItself(cmp, e);
  }

  lemma SamePlace(cmp: Compare, a: seq<Links>, b: seq<Links>, a': seq<Links>, b': seq<Links>, e: Links)
    requires TotalPreorder(cmp) && Sorted(cmp, a + [e] + b) && a + [e] + b == a' + [e] + b'
    ensures a == a' && b == b'
  {
    var s := a + [e] + b;
    assert s[|a|] == e && s[|a'|] == e;
    NotLessItself(cmp, e);
    assert |a| == |a'|;
    assert a == s[..|a|] && a' == s[..|a'|] && b == s[|a| + 1..] && b' == s[|a'| + 1..];
  }

  /** Adding and then removing an element leaves the sequence as it was. */
  lemma {:induction false} AddThenRemove(cmp: Compare, s: seq<Links>, e: Links)
    requires e !in s
    ensures Without(InsertSorted(cmp, s, e), e) == s
  {
    if s != [] && !Less(cmp, e, s[0]) {
      var t := InsertSorted(cmp, s[1..], e);
      assert ([s[0]] + t)[1..] == t;
      AddThenRemove(cmp, s[1..], e);
    } else {
      assert ([e] + s)[1..] == s;
    }
  }
}
