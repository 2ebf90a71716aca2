/** Linking a new element in, unlinking one, and moving another one into the place of a
    removed one: what PhAddElementAvlTree and PhRemoveElementAvlTree (phlib/avltree.c) do
    apart from balancing. */
module AvlRemoval {
  import opened AvlShape
  import opened AvlRetrace
  import opened AvlRotate
  import opened AvlOrder
  import opened AvlWalk

  lemma AllLinks(h: Heap, c: Ctx, t: Tree, tree: Tree, root: Links)
    requires At(h, c, t, tree, root)
    ensures Nodes(tree) + {root} == Nodes(t) + CtxNodes(c)
  {
    hide Avl, Height, Nodes;
    CtxInHeap(h, c, Root(t), Height(t));
    Close(h, c, t);
  }

  // --------------------------------------------------------------------- insertion

  /** The heap after a new element was hung into the hole of `c`. */
  ghost function Attached(h: Heap, c: Ctx, e: Links): Heap
    requires Owner(c) in h
  {
    h[Owner(c) := Refill(h[Owner(c)], HoleSide(c), e)][e := Rec(Owner(c), null, null, 0)]
  }

  lemma AttachClimbs(h: Heap, c: Ctx, tree: Tree, root: Links, e: Links)
    requires At(h, c, Leaf, tree, root) && h.Keys == Nodes(tree) + {root} && e !in h
    ensures Owner(c) in h
    ensures Climbing(Attached(h, c, e), c, Node(Leaf, e, Leaf), 0, root, Before(c) + [e] + After(c))
  {
    CtxInHeap(h, c, null, 0);
    AllLinks(h, c, Leaf, tree, root);
    hide AvlCtx, CtxNodes;
    var h' := Attached(h, c, e);
    RefillCtx(h, h', c, null, 0, e);
    NothingInLeaf();
    assert Inorder(Node(Leaf, e, Leaf)) == [e] && Nodes(Node(Leaf, e, Leaf)) == Nodes(Leaf) + {e} + Nodes(Leaf) == {e};
    assert Avl(h', Node(Leaf, e, Leaf), Owner(c));
    assert h'.Keys == h.Keys + {e};
  }

  /** Hangs a new element under `P`, on the side that the comparison says. */
  method Attach(P: Links, result: int, element: Links, ghost s: set<Links>, ghost c: Ctx, ghost tree: Tree,
                ghost root: Links)
    requires At(Snap(s), c, Leaf, tree, root) && s == Nodes(tree) + {root} && element !in s
    requires P in s && P == Owner(c) && HoleSide(c) == (if result < 0 then L else R)
    modifies P, element
    ensures Climbing(Snap(s + {element}), c, Node(Leaf, element, Leaf), 0, root, Before(c) + [element] + After(c))
    ensures element.balance == 0
  {
    hide Avl, Nodes, Height, Inorder, At, Climbing, Before, After;
    AttachClimbs(Snap(s), c, tree, root, element);
    ghost var h := Snap(s);
    if result < 0 { P.left := element; } else { P.right := element; }
    element.parent := P;
    element.left := null;
    element.right := null;
    element.balance := 0;
    assert Snap(s + {element}) == Attached(h, c, element);
  }

  // ----------------------------------------------------------------------- removal

  /** `*replace = child` and the child's new parent, for the node `n` at `c`. */
  ghost predicate Detached(h: Heap, h': Heap, c: Ctx, n: Links, child: Tree) {
    && Owner(c) in h && h'.Keys == h.Keys - {n} && Owner(c) in h'
    && h'[Owner(c)] == Refill(h[Owner(c)], HoleSide(c), Root(child))
    && (child.Node? ==> child.n in h && child.n in h' && h'[child.n] == Reparented(h[child.n], Owner(c)))
    && (forall m :: m in h' && m != Owner(c) && m != Root(child) ==> h'[m] == h[m])
  }

  /** A node with one child gives way to that child. */
  lemma DetachOpens(h: Heap, h': Heap, c: Ctx, side: Side, child: Tree, n: Links)
    requires Opened(h, c, Join(side, child, n, Leaf), Height(Join(side, child, n, Leaf)))
    requires Detached(h, h', c, n, child)
    ensures Opened(h', c, child, Height(child) + 1)
  {
    hide Avl, Nodes, Height, AvlCtx, CtxNodes;
    OpenNode(h, side, child, n, Leaf, Owner(c));
    NothingInLeaf();
    CtxInHeap(h, c, n, Height(child) + 1);
    AvlInHeap(h, child, n);
    assert Agree(h, h', Nodes(child) - {Root(child)});
    Rehang(h, h', child, n, Owner(c));
    assert Agree(h, h', CtxNodes(c) - {Owner(c)});
    RefillCtx(h, h', c, n, Height(child) + 1, Root(child));
  }

  lemma NothingInLeaf()
    ensures Height(Leaf) == 0 && Nodes(Leaf) == {} && Inorder(Leaf) == []
  {
  }

  lemma DetachClimbs(h: Heap, h': Heap, c: Ctx, side: Side, child: Tree, n: Links, tree: Tree, root: Links)
    requires At(h, c, Join(side, child, n, Leaf), tree, root) && h.Keys == Nodes(tree) + {root}
    requires Detached(h, h', c, n, child)
    ensures Climbing(h', c, child, Height(child) + 1, root, Before(c) + Inorder(child) + After(c))
  {
    hide Avl, Nodes, Height, AvlCtx, CtxNodes, Inorder, Detached;
    DetachOpens(h, h', c, side, child, n);
    AllLinks(h, c, Join(side, child, n, Leaf), tree, root);
    OpenNode(h, side, child, n, Leaf, Owner(c));
    NothingInLeaf();
    assert h'.Keys == h.Keys - {n} by { DetachedKeys(h, h', c, n, child); }
    assert n !in CtxNodes(c);
  }

  lemma DetachedKeys(h: Heap, h': Heap, c: Ctx, n: Links, child: Tree)
    requires Detached(h, h', c, n, child)
    ensures h'.Keys == h.Keys - {n}
  {
  }

  /** What the unlinking reads at a node with at most one child. */
  lemma ReadForDetach(s: set<Links>, c: Ctx, side: Side, child: Tree, n: Links, tree: Tree, root: Links)
    requires At(Snap(s), c, Join(side, child, n, Leaf), tree, root)
    ensures n in s && n.parent == Owner(c) && Owner(c) in s && n != Owner(c) && Root(child) != Owner(c)
      && Root(child) != n
    ensures Owner(c).left == n <==> HoleSide(c).L?
    ensures (if side.L? then n.left else n.right) == Root(child)
    ensures (if side.L? then n.right else n.left) == null
    ensures child.Node? ==> child.n in s
  {
    hide Avl, Nodes, Height;
    Up(s, c, Join(side, child, n, Leaf), tree, root);
    Down(s, c, Join(side, child, n, Leaf), tree, root);
    OpenNode(Snap(s), side, child, n, Leaf, Owner(c));
    AvlInHeap(Snap(s), child, n);
    CtxInHeap(Snap(s), c, n, Height(Join(side, child, n, Leaf)));
    NothingInLeaf();
  }

  /** Unlinks a node that has at most one child. */
  method Detach(newElement: Links, ghost s: set<Links>, ghost c: Ctx, ghost side: Side, ghost child: Tree,
                ghost tree: Tree, ghost root: Links)
    returns (balance: int)
    requires At(Snap(s), c, Join(side, child, newElement, Leaf), tree, root) && s == Nodes(tree) + {root}
    modifies s - {newElement}
    ensures Climbing(Snap(s - {newElement}), c, child, Height(child) + 1, root, Before(c) + Inorder(child) + After(c))
    ensures newElement.parent == Owner(c) && balance == (if HoleSide(c).L? then -1 else 1)
  {
    hide Avl, Nodes, Height, Inorder, At, Climbing, Join;
    ghost var h, n := Snap(s), newElement;
    ReadForDetach(s, c, side, child, n, tree, root);
    var parent := newElement.parent;
    var replace;
    if parent.left == newElement {
      replace := L;
      balance := -1;
    } else {
      replace := Side.R;
      balance := 1;
    }
    if newElement.right == null {
      if replace.L? { parent.left := newElement.left; } else { parent.right := newElement.left; }
      if newElement.left != null { newElement.left.parent := newElement.parent; }
    } else {
      if replace.L? { parent.left := newElement.right; } else { parent.right := newElement.right; }
      newElement.right.parent := newElement.parent;
    }
    assert Detached(h, Snap(s - {n}), c, n, child);
    DetachClimbs(h, Snap(s - {n}), c, side, child, n, tree, root);
  }

  // -------------------------------------------------------------------- transplant

  /** `*newElement = *Element` and the three links to it. */
  ghost predicate Transplanted(h: Heap, h': Heap, c: Ctx, l: Tree, e: Links, r: Tree, n: Links) {
    && e in h && Owner(c) in h && h'.Keys == h.Keys - {e} + {n} && Owner(c) in h'
    && h'[n] == h[e]
    && h'[Owner(c)] == Refill(h[Owner(c)], HoleSide(c), n)
    && (l.Node? ==> l.n in h && l.n in h' && h'[l.n] == Reparented(h[l.n], n))
    && (r.Node? ==> r.n in h && r.n in h' && h'[r.n] == Reparented(h[r.n], n))
    && (forall m :: m in h' && m != n && m != Owner(c) && m != Root(l) && m != Root(r) ==> h'[m] == h[m])
  }

  lemma TransplantOpens(h: Heap, h': Heap, c: Ctx, l: Tree, e: Links, r: Tree, n: Links)
    requires Opened(h, c, Node(l, e, r), Height(Node(l, e, r)))
    requires Transplanted(h, h', c, l, e, r, n) && n !in h
    ensures Opened(h', c, Node(l, n, r), Height(Node(l, n, r))) && Height(Node(l, n, r)) == Height(Node(l, e, r))
    ensures Nodes(Node(l, n, r)) == Nodes(Node(l, e, r)) - {e} + {n} && e !in CtxNodes(c)
  {
    hide Avl, Nodes, Height, AvlCtx, CtxNodes, Max;
    var H := Height(Node(l, e, r));
    assert Node(l, e, r) == Join(L, l, e, r) && Node(l, n, r) == Join(L, l, n, r);
    OpenNode(h, L, l, e, r, Owner(c));
    CtxInHeap(h, c, e, H);
    AvlInHeap(h, l, e);
    AvlInHeap(h, r, e);
    assert Avl(h', l, n) by {
      assert Agree(h, h', Nodes(l) - {Root(l)});
      Rehang(h, h', l, e, n);
    }
    assert Avl(h', r, n) by {
      assert Agree(h, h', Nodes(r) - {Root(r)});
      Rehang(h, h', r, e, n);
    }
    assert Owner(c) != n && h'[n] == h[e];
    MakeNode(h', L, l, n, r, Owner(c));
    assert AvlCtx(h', c, n, H) by {
      assert Agree(h, h', CtxNodes(c) - {Owner(c)});
      RefillCtx(h, h', c, e, H, n);
    }
  }

  lemma TransplantSettles(h: Heap, h': Heap, c: Ctx, l: Tree, e: Links, r: Tree, n: Links, tree: Tree, root: Links)
    requires At(h, c, Node(l, e, r), tree, root) && h.Keys == Nodes(tree) + {root}
    requires Transplanted(h, h', c, l, e, r, n) && n !in h
    ensures var tree', order := Plug(c, Node(l, n, r)), Before(c) + Inorder(l) + [n] + (Inorder(r) + After(c));
      Whole(h', tree', root) && Nodes(tree') + {root} == h'.Keys && Inorder(tree') == order
  {
    hide Avl, Nodes, Height, AvlCtx, CtxNodes, Inorder;
    TransplantOpens(h, h', c, l, e, r, n);
    AllLinks(h, c, Node(l, e, r), tree, root);
    var order := Before(c) + Inorder(Node(l, n, r)) + After(c);
    Settled(h', c, Node(l, n, r), root, order);
    OrderOfNode(c, Node(l, n, r));
  }

  lemma ReadForTransplant(s: set<Links>, c: Ctx, l: Tree, e: Links, r: Tree, tree: Tree, root: Links)
    requires At(Snap(s), c, Node(l, e, r), tree, root)
    ensures e in s && e.parent == Owner(c) && Owner(c) in s
    ensures Owner(c).left == e <==> HoleSide(c).L?
    ensures e.left == Root(l) && e.right == Root(r) && Root(l) != e && Root(r) != e && Owner(c) != e
    ensures l.Node? ==> l.n in s && l.n != Owner(c) && Root(r) != l.n
    ensures r.Node? ==> r.n in s && r.n != Owner(c)
  {
    hide Avl, Nodes, Height;
    Up(s, c, Node(l, e, r), tree, root);
    Down(s, c, Node(l, e, r), tree, root);
    assert Node(l, e, r) == Join(L, l, e, r);
    OpenNode(Snap(s), L, l, e, r, Owner(c));
    AvlInHeap(Snap(s), l, e);
    AvlInHeap(Snap(s), r, e);
    CtxInHeap(Snap(s), c, e, Height(Node(l, e, r)));
  }

  /** `*newElement = *element`. */
  method CopyStruct(newElement: Links, element: Links)
    modifies newElement
    ensures newElement.parent == old(element.parent) && newElement.left == old(element.left)
    ensures newElement.right == old(element.right) && newElement.balance == old(element.balance)
  {
    newElement.parent, newElement.left, newElement.right, newElement.balance :=
      element.parent, element.left, element.right, element.balance;
  }

  /** The copy, and the links of the parent and of the children. */
  method Relink(newElement: Links, element: Links, ghost s: set<Links>, ghost c: Ctx, ghost l: Tree, ghost r: Tree)
    requires element in s && newElement !in s && element.parent == Owner(c) && Owner(c) in s
    requires Owner(c).left == element <==> HoleSide(c).L?
    requires element.left == Root(l) && element.right == Root(r) && Root(l) != element && Root(r) != element
      && Owner(c) != element
    requires l.Node? ==> l.n in s && l.n != Owner(c) && Root(r) != l.n
    requires r.Node? ==> r.n in s && r.n != Owner(c)
    modifies s, newElement
    ensures newElement.parent == old(element.parent) && newElement.left == old(element.left)
    ensures newElement.right == old(element.right) && newElement.balance == old(element.balance)
    ensures Redirected(Owner(c), HoleSide(c), newElement) && Moved(Root(l), newElement) && Moved(Root(r), newElement)
    ensures forall m :: m in s && m != Owner(c) && m != Root(l) && m != Root(r) ==> unchanged(m)
  {
    CopyStruct(newElement, element);
    if element.parent.left == element {
      newElement.parent.left := newElement;
    } else {
      newElement.parent.right := newElement;
    }
    if newElement.left != null { newElement.left.parent := newElement; }
    if newElement.right != null { newElement.right.parent := newElement; }
  }

  /** Puts an unlinked element into the place of another one. */
  method Transplant(newElement: Links, element: Links, ghost s: set<Links>, ghost c: Ctx, ghost l: Tree, ghost r: Tree,
                    ghost tree: Tree, ghost root: Links)
    requires At(Snap(s), c, Node(l, element, r), tree, root) && s == Nodes(tree) + {root} && newElement !in s
    modifies s, newElement
    ensures var tree' := Plug(c, Node(l, newElement, r));
      && Nodes(tree') + {root} == s - {element} + {newElement} && Whole(Snap(s - {element} + {newElement}), tree', root)
      && Inorder(tree') == Before(c) + Inorder(l) + [newElement] + (Inorder(r) + After(c))
  {
    hide Avl, Nodes, Height, Inorder, At, Plug, AvlCtx, CtxNodes, Opened, Whole, Before, After, Sentinel;
    ghost var h, e, n := Snap(s), element, newElement;
    ReadForTransplant(s, c, l, element, r, tree, root);
    Relink(newElement, element, s, c, l, r);
    ghost var s' := s - {e} + {n};
    assert Transplanted(h, Snap(s'), c, l, e, r, n);
    TransplantSettles(h, Snap(s'), c, l, e, r, n, tree, root);
  }

  // ---------------------------------------------------------------- the sequence

  /** The elements around a node with at most one child. */
  ghost method AroundOnlyChild(c: Ctx, side: Side, child: Tree, n: Links) returns (a: seq<Links>, b: seq<Links>)
    ensures Before(c) + Inorder(Join(side, child, n, Leaf)) + After(c) == a + [n] + b
    ensures Before(c) + Inorder(child) + After(c) == a + b
    ensures side.R? ==> a == Before(c)
    ensures side.L? ==> b == After(c)
  {
    NothingInLeaf();
    if side.L? {
      a, b := Before(c) + Inorder(child), After(c);
    } else {
      a, b := Before(c), Inorder(child) + After(c);
    }
  }

  lemma AnElement(s: set<Links>, tree: Tree, root: Links, e: Links)
    requires Whole(Snap(s), tree, root) && e in Inorder(tree)
    ensures e in Nodes(tree) && e in s && e != root
  {
    hide Avl, Height, Snap;
    InorderNodes(tree);
    AvlInHeap(Snap(s), tree, root);
  }

  lemma FindLink(s: set<Links>, tree: Tree, root: Links, e: Links) returns (c: Ctx, l: Tree, r: Tree)
    requires Whole(Snap(s), tree, root) && e in s && e != root && s == Nodes(tree) + {root}
    ensures At(Snap(s), c, Node(l, e, r), tree, root)
    ensures Inorder(tree) == Before(c) + Inorder(l) + [e] + (Inorder(r) + After(c))
  {
    hide Avl, Height, Nodes, Inorder, Before, After, AvlCtx, Snap, At, Whole;
    c, l, r := LocateAt(s, tree, root, e);
    TheOrder(Snap(s), c, Node(l, e, r), tree, root);
    OrderOfNode(c, Node(l, e, r));
  }

  lemma AddInOrder(cmp: Compare, a: seq<Links>, e: Links, b: seq<Links>)
    requires TotalPreorder(cmp) && Sorted(cmp, a + b) && Between(cmp, e.record, a, b)
    ensures a + [e] + b == InsertSorted(cmp, a + b, e) && Sorted(cmp, a + [e] + b)
  {
    BetweenIsNew(cmp, e.record, a, b);
    assert AllBefore(cmp, a, e) && AllAfter(cmp, b, e);
    SortedAppend(cmp, a, b);
    InsertBetween(cmp, a, e, b);
    SortedJoin(cmp, a, e, b);
  }

  lemma {:induction false} CountWithout(s: seq<Links>, e: Links)
    requires e in s
    ensures |Without(s, e)| == |s| - 1
  {
    if s[0] != e { CountWithout(s[1..], e); }
  }

  lemma SortedWithout(cmp: Compare, a: seq<Links>, e: Links, b: seq<Links>)
    requires TotalPreorder(cmp) && Sorted(cmp, a + [e] + b)
    ensures Sorted(cmp, a + b) && Without(a + [e] + b, e) == a + b
  {
    OnePlace(cmp, a, e, b);
    WithoutMiddle(a, e, b);
    var s, s' := a + [e] + b, a + b;
    forall i, j | 0 <= i < j < |s'| ensures Less(cmp, s'[i], s'[j]) {
      var i', j' := if i < |a| then i else i + 1, if j < |a| then j else j + 1;
      assert s[i'] == s'[i] && s[j'] == s'[j];
    }
  }

  /** Taking a neighbour out and putting it in the place of `e` takes `e` out. */
  lemma ReplaceByNeighbour(cmp: Compare, a: seq<Links>, n: Links, b: seq<Links>, a': seq<Links>, e: Links,
                           b': seq<Links>)
    requires TotalPreorder(cmp) && Sorted(cmp, a + [n] + b) && a + b == a' + [e] + b'
    requires Last(a) == e || First(b) == e
    ensures a' + [n] + b' == Without(a + [n] + b, e) && Sorted(cmp, a' + [n] + b')
  {
    hide Sorted, Without, TotalPreorder;
    SortedWithout(cmp, a, n, b);
    if Last(a) == e {
      var x := a[..|a| - 1];
      assert a == x + [e] && a + b == x + [e] + b;
      SamePlace(cmp, x, b, a', b', e);
      assert a + [n] + b == x + [e] + ([n] + b) && a' + [n] + b' == x + ([n] + b);
      SortedWithout(cmp, x, e, [n] + b);
    } else {
      var y := b[1..];
      assert b == [e] + y && a + b == a + [e] + y;
      SamePlace(cmp, a, y, a', b', e);
      assert a + [n] + b == (a + [n]) + [e] + y && a' + [n] + b' == (a + [n]) + y;
      SortedWithout(cmp, a + [n], e, y);
    }
  }

  // --------------------------------------------------------------- all of removal

  /** Unlinks `newElement`, balances, and puts it in the place of `element` if that is
      another one. */
  method RemoveLinks(element: Links, newElement: Links, root: Links, ghost cmp: Compare, ghost s: set<Links>,
                     ghost c: Ctx, ghost side: Side, ghost child: Tree, ghost tree: Tree)
    returns (ghost tree': Tree)
    requires At(Snap(s), c, Join(side, child, newElement, Leaf), tree, root) && s == Nodes(tree) + {root}
    requires Whole(Snap(s), tree, root) && element in Inorder(tree)
    requires TotalPreorder(cmp) && Sorted(cmp, Inorder(tree))
    requires newElement != element ==> (if side.R? then Last(Before(c)) else First(After(c))) == element
    modifies s
    ensures Whole(Snap(s - {element}), tree', root) && Nodes(tree') + {root} == s - {element}
    ensures Inorder(tree') == Without(Inorder(tree), element) && Sorted(cmp, Inorder(tree'))
  {
    hide Avl, Nodes, Height, Inorder, Sorted, TotalPreorder, Before, After, At, Without, Climbing, Plug, Join, Snap;
    hide Whole, Last, First;
    AnElement(s, tree, root, element);
    TheOrder(Snap(s), c, Join(side, child, newElement, Leaf), tree, root);
    ghost var a, b := AroundOnlyChild(c, side, child, newElement);
    ReadForDetach(s, c, side, child, newElement, tree, root);
    var balance := Detach(newElement, s, c, side, child, tree, root);
    ghost var s', t := s - {newElement}, tree;
    t := RetraceRemove(newElement.parent, balance, root, s', c, child, a + b);
    if newElement != element {
      ghost var c', l, r := FindLink(s', t, root, element);
      Transplant(newElement, element, s', c', l, r, t, root);
      tree' := Plug(c', Node(l, newElement, r));
      assert s' - {element} + {newElement} == s - {element};
      ReplaceByNeighbour(cmp, a, newElement, b, Before(c') + Inorder(l), element, Inorder(r) + After(c'));
    } else {
      tree' := t;
      SortedWithout(cmp, a, element, b);
    }
  }
}
