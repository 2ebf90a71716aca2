/** Places in a tree that a search or a walk visits, and the sorted sequence around them. */
module AvlWalk {
  import opened AvlShape
  import opened AvlRetrace
  import opened AvlOrder

  /** `t` is the subtree of `tree` that the context `c` leads to. */
  ghost predicate At(h: Heap, c: Ctx, t: Tree, tree: Tree, root: Links) {
    Opened(h, c, t, Height(t)) && Plug(c, t) == tree && Sentinel(c) == root
  }

  lemma Start(s: set<Links>, tree: Tree, root: Links)
    requires Whole(Snap(s), tree, root)
    ensures At(Snap(s), Top(root), tree, tree, root)
    ensures root in s && root.right == Root(tree) && root.parent == null && root.left == null
  {
    hide Avl, Nodes, Height;
  }

  /** What a step down reads, and where it leads. */
  lemma Down(s: set<Links>, c: Ctx, t: Tree, tree: Tree, root: Links)
    requires At(Snap(s), c, t, tree, root) && t.Node?
    ensures t.n in s && t.n.left == Root(t.l) && t.n.right == Root(t.r)
    ensures At(Snap(s), In(L, t.n, t.r, c), t.l, tree, root)
    ensures At(Snap(s), In(R, t.n, t.l, c), t.r, tree, root)
  {
    hide Avl, Nodes, Height, Max, Snap;
    assert t == Join(L, t.l, t.n, t.r) == Join(R, t.r, t.n, t.l);
    Descend(Snap(s), c, L, t.l, t.n, t.r);
    Descend(Snap(s), c, R, t.r, t.n, t.l);
    OpenNode(Snap(s), L, t.l, t.n, t.r, Owner(c));
    LinksOf(s, t.n);
  }

  lemma LinksOf(s: set<Links>, n: Links)
    requires n in s
    ensures n in Snap(s) && Snap(s)[n] == Rec(n.parent, n.left, n.right, n.balance)
  {
  }

  /** What a step up reads, and where it leads. */
  lemma Up(s: set<Links>, c: Ctx, t: Tree, tree: Tree, root: Links)
    requires At(Snap(s), c, t, tree, root) && t.Node?
    ensures t.n in s && t.n.parent == Owner(c) && Owner(c) in s
    ensures Owner(c).left == t.n <==> HoleSide(c).L?
    ensures Owner(c).right == t.n <==> HoleSide(c).R?
    ensures c.Top? ==> Owner(c) == root
    ensures c.In? ==> At(Snap(s), c.up, Join(c.side, t, c.n, c.sibling), tree, root) && c.n.parent != null
  {
    hide Height, Max;
    var h := Snap(s);
    CtxInHeap(h, c, t.n, Height(t));
    if c.In? {
      AvlInHeap(h, c.sibling, c.n);
      Ascend(h, c, t);
    }
  }

  lemma TheOrder(h: Heap, c: Ctx, t: Tree, tree: Tree, root: Links)
    requires At(h, c, t, tree, root)
    ensures Inorder(tree) == Before(c) + Inorder(t) + After(c)
  {
    PlugInorder(c, t);
  }

  lemma EmptyPlace(h: Heap, c: Ctx, tree: Tree, root: Links)
    requires At(h, c, Leaf, tree, root)
    ensures Inorder(tree) == Before(c) + After(c)
  {
    PlugInorder(c, Leaf);
  }

  lemma OrderAbove(c: Ctx, t: Tree)
    requires c.In?
    ensures c.side.L? ==>
      && Before(c.up) + Inorder(Join(c.side, t, c.n, c.sibling)) == Before(c) + Inorder(t) + [c.n] + Inorder(c.sibling)
      && After(c) == [c.n] + Inorder(c.sibling) + After(c.up) && Before(c) == Before(c.up)
    ensures c.side.R? ==>
      && Before(c.up) + Inorder(Join(c.side, t, c.n, c.sibling)) == Before(c) + Inorder(t)
      && After(c) == After(c.up) && Before(c) == Before(c.up) + Inorder(c.sibling) + [c.n]
    ensures c.side.L? ==> Inorder(Join(c.side, t, c.n, c.sibling)) + After(c.up) == Inorder(t) + After(c)
  {
  }

  lemma NothingAbove(c: Ctx)
    requires c.Top?
    ensures Before(c) == [] && After(c) == []
  {
  }

  /** Where an element is, in the tree and in the sequence. */
  lemma Find(s: set<Links>, tree: Tree, root: Links, e: Links, cmp: Compare) returns (c: Ctx, l: Tree, r: Tree)
    requires Whole(Snap(s), tree, root) && e in Inorder(tree) && Sorted(cmp, Inorder(tree)) && TotalPreorder(cmp)
    ensures At(Snap(s), c, Node(l, e, r), tree, root)
    ensures NextTo(Inorder(tree), Before(c) + Inorder(l), e, Inorder(r) + After(c))
  {
    hide Avl, Height, Nodes, Inorder, Before, After, AvlCtx, Snap, Sorted, TotalPreorder, NextTo, At, Whole;
    InorderNodes(tree);
    c, l, r := LocateAt(s, tree, root, e);
    TheOrder(Snap(s), c, Node(l, e, r), tree, root);
    OrderOfNode(c, Node(l, e, r));
    var a, b := Before(c) + Inorder(l), Inorder(r) + After(c);
    assert Inorder(tree) == a + [e] + b;
    OnlyPlace(cmp, a, e, b);
  }

  lemma LocateAt(s: set<Links>, tree: Tree, root: Links, e: Links) returns (c: Ctx, l: Tree, r: Tree)
    requires Whole(Snap(s), tree, root) && e in Nodes(tree)
    ensures At(Snap(s), c, Node(l, e, r), tree, root)
  {
    hide Avl, Height, Nodes, Snap, AvlCtx;
    c, l, r := Locate(Snap(s), Top(root), tree, e);
  }

  lemma OnlyPlace(cmp: Compare, a: seq<Links>, e: Links, b: seq<Links>)
    requires Sorted(cmp, a + [e] + b) && TotalPreorder(cmp)
    ensures NextTo(a + [e] + b, a, e, b)
  {
    hide Less;
    var all := a + [e] + b;
    forall i | 0 <= i < |all| && all[i] == e ensures i == |a| {
      SamePlace(cmp, a, b, all[..i], all[i + 1..], e);
    }
  }

  /** `e` stands between `before` and `after`, and nowhere else. */
  ghost predicate NextTo(s: seq<Links>, before: seq<Links>, e: Links, after: seq<Links>) {
    s == before + [e] + after && (forall i :: 0 <= i < |s| && s[i] == e ==> i == |before|)
  }

  /** The element after `e`, and the element before it. */
  ghost predicate IsNext(s: seq<Links>, e: Links, r: Links?) {
    forall i :: 0 <= i < |s| && s[i] == e ==> r == if i + 1 < |s| then s[i + 1] else null
  }

  ghost predicate IsPrevious(s: seq<Links>, e: Links, r: Links?) {
    forall i :: 0 <= i < |s| && s[i] == e ==> r == if i > 0 then s[i - 1] else null
  }

  lemma OrderOfNode(c: Ctx, t: Tree)
    requires t.Node?
    ensures Inorder(t) == Inorder(t.l) + [t.n] + Inorder(t.r)
    ensures Before(In(L, t.n, t.r, c)) == Before(c) && After(In(L, t.n, t.r, c)) == [t.n] + Inorder(t.r) + After(c)
    ensures Before(In(R, t.n, t.l, c)) == Before(c) + Inorder(t.l) + [t.n] && After(In(R, t.n, t.l, c)) == After(c)
  {
  }

  lemma NextIs(s: seq<Links>, before: seq<Links>, e: Links, after: seq<Links>)
    requires NextTo(s, before, e, after)
    ensures IsNext(s, e, First(after))
  {
  }

  lemma PreviousIs(s: seq<Links>, before: seq<Links>, e: Links, after: seq<Links>)
    requires NextTo(s, before, e, after)
    ensures IsPrevious(s, e, Last(before))
  {
  }

  lemma EmptyRight(c: Ctx, t: Tree)
    requires t.Node? && t.r.Leaf?
    ensures Inorder(t.r) + After(c) == After(c)
  {
  }

  lemma EmptyLeft(c: Ctx, t: Tree)
    requires t.Node? && t.l.Leaf?
    ensures Before(c) + Inorder(t.l) == Before(c)
  {
  }

  lemma LeftmostFirst(c: Ctx, t: Tree)
    requires t.Node? && t.l.Leaf?
    ensures First(Inorder(t) + After(c)) == t.n
  {
  }

  lemma RightmostLast(c: Ctx, t: Tree)
    requires t.Node? && t.r.Leaf?
    ensures Last(Before(c) + Inorder(t)) == t.n
  {
  }

  lemma LeftEnd(h: Heap, c: Ctx, t: Tree, tree: Tree, root: Links)
    requires At(h, c, t, tree, root) && t.Node? && t.l.Leaf? && Before(c) == []
    ensures First(Inorder(tree)) == t.n
  {
    TheOrder(h, c, t, tree, root);
  }

  lemma RightEnd(h: Heap, c: Ctx, t: Tree, tree: Tree, root: Links)
    requires At(h, c, t, tree, root) && t.Node? && t.r.Leaf? && After(c) == []
    ensures Last(Inorder(tree)) == t.n
  {
    TheOrder(h, c, t, tree, root);
  }

  // ------------------------------------------------------------- cuts in the order

  /** `below` is true of every element before a place and of none after it. */
  ghost predicate Cut(below: Record -> bool, before: seq<Links>, after: seq<Links>) {
    (forall x :: x in before ==> below(x.record)) && (forall x :: x in after ==> !below(x.record))
  }

  /** `below` holds of everything before an element of which it holds. */
  ghost predicate DownClosed(cmp: Compare, below: Record -> bool) {
    forall x, y {:trigger below(y), below(x)} :: below(y) && cmp(x, y) < 0 ==> below(x)
  }

  /** Looking at one node decides for one of its subtrees as well. */
  lemma CutBelow(cmp: Compare, below: Record -> bool, c: Ctx, t: Tree, all: seq<Links>)
    requires DownClosed(cmp, below) && t.Node? && Sorted(cmp, all)
    requires Before(c) + Inorder(t) + After(c) == all && Cut(below, Before(c), After(c))
    ensures below(t.n.record) ==> Cut(below, Before(In(R, t.n, t.l, c)), After(In(R, t.n, t.l, c)))
    ensures !below(t.n.record) ==> Cut(below, Before(In(L, t.n, t.r, c)), After(In(L, t.n, t.r, c)))
  {
    hide Sorted, DownClosed, Before, After, Inorder, Less;
    OrderOfNode(c, t);
    assert all == (Before(c) + Inorder(t.l)) + [t.n] + (Inorder(t.r) + After(c));
    SortedParts(cmp, Before(c) + Inorder(t.l), t.n, Inorder(t.r) + After(c));
    if below(t.n.record) {
      AllBelow(cmp, below, Before(c) + Inorder(t.l), t.n);
    } else {
      NoneBelow(cmp, below, Inorder(t.r) + After(c), t.n);
    }
  }

  lemma AllBelow(cmp: Compare, below: Record -> bool, s: seq<Links>, n: Links)
    requires DownClosed(cmp, below) && AllBefore(cmp, s, n) && below(n.record)
    ensures forall x :: x in s ==> below(x.record)
  {
    forall x | x in s ensures below(x.record) {
      var i :| 0 <= i < |s| && s[i] == x;
      assert Less(cmp, s[i], n);
    }
  }

  lemma NoneBelow(cmp: Compare, below: Record -> bool, s: seq<Links>, n: Links)
    requires DownClosed(cmp, below) && AllAfter(cmp, s, n) && !below(n.record)
    ensures forall x :: x in s ==> !below(x.record)
  {
    forall x | x in s ensures !below(x.record) {
      var i :| 0 <= i < |s| && s[i] == x;
      assert Less(cmp, n, s[i]);
    }
  }

  /** The records less than `e`, and those less than or equal. */
  ghost function Below(cmp: Compare, e: Record): Record -> bool { x => cmp(e, x) > 0 }
  ghost function UpTo(cmp: Compare, e: Record): Record -> bool { x => cmp(e, x) >= 0 }

  lemma ComparisonsAreCuts(cmp: Compare, e: Record)
    requires TotalPreorder(cmp)
    ensures DownClosed(cmp, Below(cmp, e))
    ensures DownClosed(cmp, UpTo(cmp, e))
  {
    forall x: Record, y: Record | cmp(x, y) < 0 && cmp(e, y) >= 0 ensures cmp(e, x) > 0 {
      assert cmp(e, x) <= 0 ==> cmp(e, y) <= 0;
    }
  }

  lemma StartCut(below: Record -> bool, root: Links)
    ensures Cut(below, Before(Top(root)), After(Top(root))) && Before(Top(root)) == After(Top(root)) == []
  {
  }

  /** The place of a record that equals no element. */
  ghost predicate Between(cmp: Compare, e: Record, before: seq<Links>, after: seq<Links>) {
    && Cut(Below(cmp, e), before, after)
    && Cut(UpTo(cmp, e), before, after)
  }

  lemma BetweenNothing(cmp: Compare, e: Record, root: Links)
    ensures Between(cmp, e, Before(Top(root)), After(Top(root)))
  {
  }

  lemma NarrowBetween(cmp: Compare, e: Record, c: Ctx, t: Tree, all: seq<Links>)
    requires TotalPreorder(cmp) && t.Node? && Sorted(cmp, all)
    requires Before(c) + Inorder(t) + After(c) == all && Between(cmp, e, Before(c), After(c))
    ensures cmp(e, t.n.record) > 0 ==> Between(cmp, e, Before(In(R, t.n, t.l, c)), After(In(R, t.n, t.l, c)))
    ensures cmp(e, t.n.record) < 0 ==> Between(cmp, e, Before(In(L, t.n, t.r, c)), After(In(L, t.n, t.r, c)))
    ensures t.n in all
  {
    hide TotalPreorder, Sorted, Before, After, Inorder, DownClosed, Cut;
    ComparisonsAreCuts(cmp, e);
    CutBelow(cmp, Below(cmp, e), c, t, all);
    CutBelow(cmp, UpTo(cmp, e), c, t, all);
    OrderOfNode(c, t);
  }

  lemma BetweenIsNew(cmp: Compare, e: Record, before: seq<Links>, after: seq<Links>)
    requires Between(cmp, e, before, after)
    ensures forall x :: x in before ==> cmp(e, x.record) > 0
    ensures forall x :: x in after ==> cmp(e, x.record) < 0
  {
  }

  /** The element next to a place: the first one after it, and the last one before it. */
  function First(s: seq<Links>): Links? { if s == [] then null else s[0] }
  function Last(s: seq<Links>): Links? { if s == [] then null else s[|s| - 1] }

  /** The least element of which `below` does not hold, or null if it holds of all. */
  ghost predicate LeastNot(cmp: Compare, below: Record -> bool, s: seq<Links>, r: Links?) {
    if r == null then forall x :: x in s ==> below(x.record)
    else r in s && !below(r.record) && (forall x :: x in s && x != r && !below(x.record) ==> Less(cmp, r, x))
  }

  /** The greatest element of which `below` holds, or null if it holds of none. */
  ghost predicate GreatestOf(cmp: Compare, below: Record -> bool, s: seq<Links>, r: Links?) {
    if r == null then forall x :: x in s ==> !below(x.record)
    else r in s && below(r.record) && (forall x :: x in s && x != r && below(x.record) ==> Less(cmp, x, r))
  }

  lemma FirstAfterCut(cmp: Compare, below: Record -> bool, before: seq<Links>, after: seq<Links>)
    requires Sorted(cmp, before + after) && Cut(below, before, after)
    ensures LeastNot(cmp, below, before + after, First(after))
  {
    var s := before + after;
    if after != [] {
      forall x | x in s && x != after[0] && !below(x.record) ensures Less(cmp, after[0], x) {
        var i :| 0 <= i < |s| && s[i] == x;
        assert x !in before && i >= |before|;
        assert s[|before|] == after[0];
      }
    }
  }

  lemma LastBeforeCut(cmp: Compare, below: Record -> bool, before: seq<Links>, after: seq<Links>)
    requires Sorted(cmp, before + after) && Cut(below, before, after)
    ensures GreatestOf(cmp, below, before + after, Last(before))
  {
    var s := before + after;
    if before != [] {
      forall x | x in s && x != before[|before| - 1] && below(x.record) ensures Less(cmp, x, before[|before| - 1]) {
        var i :| 0 <= i < |s| && s[i] == x;
        assert x !in after && i < |before|;
        assert s[|before| - 1] == before[|before| - 1];
      }
    }
  }

  // ------------------------------------------------------------------ tree sizes

  /** The fewest elements an AVL tree of a height has. */
  function MinSize(height: nat): nat {
    if height <= 1 then height else 1 + MinSize(height - 1) + MinSize(height - 2)
  }

  lemma {:induction false} MinSizeGrows(a: nat, b: nat)
    requires a <= b
    ensures MinSize(a) <= MinSize(b)
    decreases b
  {
    if a < b { MinSizeGrows(a, b - 1); }
  }

  lemma {:induction false} AvlIsBig(h: Heap, t: Tree, parent: Links?)
    requires Avl(h, t, parent)
    ensures |Inorder(t)| >= MinSize(Height(t))
  {
    if t.Node? {
      AvlIsBig(h, t.l, t.n);
      AvlIsBig(h, t.r, t.n);
      var k := Height(t);
      if k >= 2 {
        MinSizeGrows(k - 2, Height(t.l));
        MinSizeGrows(k - 2, Height(t.r));
      }
    }
  }

  /** 2^32 elements are too few for a tree of height 46. */
  lemma HeightLimit(h: Heap, t: Tree, parent: Links?)
    requires Avl(h, t, parent) && |Inorder(t)| <= 0x1_0000_0000
    ensures Height(t) <= 45
  {
    if Height(t) >= 46 {
      AvlIsBig(h, t, parent);
      MinSizeGrows(46, Height(t));
      FewestAt46();
    }
  }

  lemma FewestAt46()
    ensures MinSize(46) == 4807526975
  {
    assert MinSize(10) == 143 && MinSize(11) == 232;
    assert MinSize(20) == 17710 && MinSize(21) == 28656;
    assert MinSize(30) == 2178308 && MinSize(31) == 3524577;
    assert MinSize(40) == 267914295 && MinSize(41) == 433494436;
  }
}
