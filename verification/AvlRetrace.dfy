/** Walking back up after an insertion or a removal: the balancing loops of
    PhAddElementAvlTree and PhRemoveElementAvlTree (phlib/avltree.c). */
module AvlRetrace {
  import opened AvlShape
  import opened AvlRotate
  import opened AvlRebalance

  // ----------------------------------------------------- one step up, on values

  /** Writing the right balance into the node above makes it part of the subtree. */
  lemma BalanceStep(h: Heap, h': Heap, c: Ctx, t: Tree, height: int, balance: int)
    requires c.In? && Opened(h, c, t, height) && c.n in h
    requires h' == h[c.n := Rec(h[c.n].parent, h[c.n].left, h[c.n].right, balance)]
    requires InBalance(balance, c.side, Height(t), Height(c.sibling))
    ensures var t' := Join(c.side, t, c.n, c.sibling);
      && Opened(h', c.up, t', 1 + Max(height, Height(c.sibling)))
      && Height(t') == 1 + Max(Height(t), Height(c.sibling))
      && Nodes(t') + CtxNodes(c.up) == Nodes(t) + CtxNodes(c)
  {
    hide Avl, Nodes, Height, Max;
    FrameAvl(h, h', t, c.n);
    FrameAvl(h, h', c.sibling, c.n);
    MakeNode(h', c.side, t, c.n, c.sibling, Owner(c.up));
    FrameCtx(h, h', c.up, c.n, 1 + Max(height, Height(c.sibling)));
  }

  /** The node above is ready for PhpRebalanceAvlLinks. */
  lemma UnbalancedAbove(h: Heap, c: Ctx, t: Tree, height: int, way: Side, sentinel: Links, order: seq<Links>)
    requires c.In? && Climbing(h, c, t, height, sentinel, order)
    requires c.n in h && h[c.n].balance == (if way.L? then -1 else 1)
    requires if way == c.side then Height(t) == Height(c.sibling) + 2 else Height(c.sibling) == Height(t) + 2
    ensures var (heavy, light) := if way == c.side then (t, c.sibling) else (c.sibling, t);
      && Unbalanced(h, Owner(c.up), HoleSide(c.up), way, c.n, heavy, light)
      && Join(way, heavy, c.n, light) == Join(c.side, t, c.n, c.sibling)
  {
    hide Avl, Nodes, Height, Max;
    CtxInHeap(h, c.up, c.n, 1 + Max(height, Height(c.sibling)));
  }

  /** After the rotation the hole one step up is filled by the rebalanced subtree. */
  lemma RotateStep(h: Heap, h': Heap, c: Ctx, t: Tree, height: int, way: Side, heavy: Tree, light: Tree, code: int,
                   t': Tree)
    requires c.In? && Opened(h, c, t, height)
    requires Join(way, heavy, c.n, light) == Join(c.side, t, c.n, c.sibling)
    requires Rebalanced(h, h', Owner(c.up), HoleSide(c.up), way, c.n, heavy, light, code, t')
    ensures Opened(h', c.up, t', 1 + Max(height, Height(c.sibling)))
    ensures Nodes(t') + CtxNodes(c.up) == Nodes(t) + CtxNodes(c)
    ensures Inorder(t') == Inorder(Join(c.side, t, c.n, c.sibling))
  {
    hide Avl, Height, Max, Inorder, Nodes;
    NodesOfJoin(c.side, t, c.n, c.sibling);
    assert Nodes(t') == Nodes(t) + {c.n} + Nodes(c.sibling);
    CtxInHeap(h, c.up, c.n, 1 + Max(height, Height(c.sibling)));
    RefillCtx(h, h', c.up, c.n, 1 + Max(height, Height(c.sibling)), t'.n);
  }

  lemma NodesOfJoin(side: Side, t: Tree, n: Links, sibling: Tree)
    ensures Nodes(Join(side, t, n, sibling)) == Nodes(t) + {n} + Nodes(sibling)
  {
  }

  /** The order of the elements does not change on the way up. */
  lemma JoinOrder(c: Ctx, t: Tree)
    requires c.In?
    ensures Before(c.up) + Inorder(Join(c.side, t, c.n, c.sibling)) + After(c.up) == Before(c) + Inorder(t) + After(c)
  {
  }

  /** On the way up: the tree is opened at `t`, the context counts on height `height` there,
      and together they still hold `all` the links, the elements in the given order. */
  ghost predicate Climbing(h: Heap, c: Ctx, t: Tree, height: int, sentinel: Links, order: seq<Links>) {
    && Opened(h, c, t, height) && Sentinel(c) == sentinel
    && Nodes(t) + CtxNodes(c) == h.Keys
    && Before(c) + Inorder(t) + After(c) == order
  }

  /** A whole balanced tree below the sentinel. */
  ghost predicate Whole(h: Heap, t: Tree, sentinel: Links) {
    Opened(h, Top(sentinel), t, Height(t))
  }

  lemma Settled(h: Heap, c: Ctx, t: Tree, sentinel: Links, order: seq<Links>)
    requires Climbing(h, c, t, Height(t), sentinel, order)
    ensures Whole(h, Plug(c, t), sentinel) && Nodes(Plug(c, t)) + {sentinel} == h.Keys && Inorder(Plug(c, t)) == order
  {
    hide Avl, Nodes, Height, Max, Inorder;
    CtxInHeap(h, c, Root(t), Height(t));
    Close(h, c, t);
    PlugInorder(c, t);
  }

  lemma BalanceClimb(h: Heap, h': Heap, c: Ctx, t: Tree, height: int, balance: int, sentinel: Links, order: seq<Links>)
    requires c.In? && Climbing(h, c, t, height, sentinel, order) && c.n in h
    requires h' == h[c.n := Rec(h[c.n].parent, h[c.n].left, h[c.n].right, balance)]
    requires InBalance(balance, c.side, Height(t), Height(c.sibling))
    ensures var t' := Join(c.side, t, c.n, c.sibling);
      && Climbing(h', c.up, t', 1 + Max(height, Height(c.sibling)), sentinel, order)
      && Height(t') == 1 + Max(Height(t), Height(c.sibling))
  {
    hide Avl, Nodes, Height, Max, Inorder;
    BalanceStep(h, h', c, t, height, balance);
    JoinOrder(c, t);
  }

  lemma RotateClimb(h: Heap, h': Heap, c: Ctx, t: Tree, height: int, way: Side, heavy: Tree, light: Tree, code: int,
                    t': Tree, sentinel: Links, order: seq<Links>)
    requires c.In? && Climbing(h, c, t, height, sentinel, order)
    requires Join(way, heavy, c.n, light) == Join(c.side, t, c.n, c.sibling)
    requires Rebalanced(h, h', Owner(c.up), HoleSide(c.up), way, c.n, heavy, light, code, t')
    ensures Climbing(h', c.up, t', 1 + Max(height, Height(c.sibling)), sentinel, order)
    ensures heavy.Node? && heavy.n in h && 1 <= code <= 3 && (code == 3 <==> h[heavy.n].balance == 0)
    ensures Height(t') == Height(heavy) + (if code == 3 then 1 else 0)
    ensures t'.Node? && c.n in h' && (code != 3 ==> h'[c.n].parent == t'.n)
  {
    hide Avl, Nodes, Height, Max, Inorder;
    RotateStep(h, h', c, t, height, way, heavy, light, code, t');
    JoinOrder(c, t);
  }

  /** What the walk up reads at the top of a subtree: the link above, and which side it is on. */
  lemma StepUp(s: set<Links>, c: Ctx, t: Tree, height: int, sentinel: Links, order: seq<Links>)
    requires t.Node? && Climbing(Snap(s), c, t, height, sentinel, order)
    ensures t.n in s && t.n.parent == Owner(c) && Owner(c) in s
    ensures Owner(c).left == t.n <==> HoleSide(c).L?
    ensures sentinel in s && (c.Top? <==> sentinel.right == t.n)
  {
    hide Height, Max, Inorder;
    CtxInHeap(Snap(s), c, t.n, height);
    HoleLeft(Snap(s), c, t.n, height);
  }

  /** The same at the node above the hole. */
  lemma StepAbove(s: set<Links>, c: Ctx, t: Tree, height: int, sentinel: Links, order: seq<Links>)
    requires Climbing(Snap(s), c, t, height, sentinel, order)
    ensures Owner(c) in s && (c.Top? <==> Owner(c) == sentinel)
    ensures c.In? ==>
      c.n.parent == Owner(c.up) && Owner(c.up) in s && InBalance(c.n.balance, c.side, height, Height(c.sibling))
    ensures c.In? ==> (Owner(c.up).left == c.n <==> HoleSide(c.up).L?)
  {
    hide Height, Max, Inorder;
    CtxInHeap(Snap(s), c, Root(t), height);
    if c.In? {
      CtxInHeap(Snap(s), c.up, c.n, 1 + Max(height, Height(c.sibling)));
      HoleLeft(Snap(s), c.up, c.n, 1 + Max(height, Height(c.sibling)));
    }
  }

  /** A hole on the right is not also on the left. */
  lemma HoleLeft(h: Heap, c: Ctx, hole: Links, height: int)
    requires AvlCtx(h, c, hole, height) && hole !in CtxNodes(c)
    ensures Owner(c) in h && (h[Owner(c)].left == hole <==> HoleSide(c).L?)
  {
    if c.In? { AvlInHeap(h, c.sibling, c.n); }
  }

  /** `P->Balance = balance`: P and its two subtrees are one balanced subtree now. */
  method SetBalance(P: Links, balance: int, ghost s: set<Links>, ghost c: Ctx, ghost t: Tree, ghost height: int,
                    ghost sentinel: Links, ghost order: seq<Links>)
    requires c.In? && Climbing(Snap(s), c, t, height, sentinel, order) && P == c.n && P in s
    requires InBalance(balance, c.side, Height(t), Height(c.sibling))
    modifies P`balance
    ensures var t' := Join(c.side, t, P, c.sibling);
      Climbing(Snap(s), c.up, t', 1 + Max(height, Height(c.sibling)), sentinel, order)
        && Height(t') == 1 + Max(Height(t), Height(c.sibling))
    ensures P.balance == balance
  {
    hide Avl, Nodes, Height, Inorder, Climbing;
    ghost var h := Snap(s);
    P.balance := balance;
    assert Snap(s) == h[P := Rec(h[P].parent, h[P].left, h[P].right, balance)];
    BalanceClimb(h, Snap(s), c, t, height, balance, sentinel, order);
  }

  /** The block that both loops share: find the link to P and rebalance there. */
  method RebalanceAt(P: Links, ghost s: set<Links>, ghost c: Ctx, ghost t: Tree, ghost height: int, ghost way: Side,
                     ghost sentinel: Links, ghost order: seq<Links>)
    returns (code: int, ghost t': Tree)
    requires c.In? && Climbing(Snap(s), c, t, height, sentinel, order) && P == c.n && P in s
    requires P.balance == (if way.L? then -1 else 1)
    requires if way == c.side then Height(t) == Height(c.sibling) + 2 else Height(c.sibling) == Height(t) + 2
    modifies s
    ensures Climbing(Snap(s), c.up, t', 1 + Max(height, Height(c.sibling)), sentinel, order)
    ensures var heavy := if way == c.side then t else c.sibling;
      && heavy.Node? && heavy.n in s && 1 <= code <= 3 && (code == 3 <==> old(heavy.n.balance) == 0)
      && Height(t') == Height(heavy) + (if code == 3 then 1 else 0)
      && t'.Node? && (code != 3 ==> P.parent == t'.n)
  {
    hide Avl, Nodes, Height, Inorder, Climbing, Unbalanced, Rebalanced;
    ghost var h := Snap(s);
    ghost var heavy, light := if way == c.side then t else c.sibling, if way == c.side then c.sibling else t;
    StepAbove(s, c, t, height, sentinel, order);
    var side := if P.parent.left == P then L else Side.R;
    UnbalancedAbove(h, c, t, height, way, sentinel, order);
    code, t' := Rebalance(P.parent, side, s, way, P, heavy, light);
    RotateClimb(h, Snap(s), c, t, height, way, heavy, light, code, t', sentinel, order);
  }

  // ---------------------------------------------------------------- insertion

  /** How the three cases of the insertion loop change the heights. */
  lemma AddHeights(side: Side, height: int, sibling: int, balance: int, balance': int)
    requires InBalance(balance, side, height - 1, sibling) && balance' == (if side.L? then -1 else 1)
    ensures balance == 0 ==>
      InBalance(balance', side, height, sibling) && 1 + Max(height - 1, sibling) == height
        && 1 + Max(height, sibling) == height + 1
    ensures balance != 0 && balance != balance' ==>
      InBalance(0, side, height, sibling) && 1 + Max(height - 1, sibling) == 1 + Max(height, sibling)
    ensures balance == balance' ==> height == sibling + 2 && 1 + Max(height - 1, sibling) == height
  {
  }

  lemma SingleHeight(n: Links)
    ensures Height(Node(Leaf, n, Leaf)) == 1
  {
  }

  lemma JoinRoot(side: Side, t: Tree, n: Links, sibling: Tree)
    ensures var t' := Join(side, t, n, sibling); t'.Node? && t'.n == n
  {
  }

  /** At the top nothing counts on a height any more. */
  lemma AtTop(h: Heap, c: Ctx, t: Tree, height: int, sentinel: Links, order: seq<Links>)
    requires c.Top? && Climbing(h, c, t, height, sentinel, order)
    ensures Climbing(h, c, t, Height(t), sentinel, order)
  {
    hide Avl, Nodes, Height, Inorder;
  }

  /** The balancing loop of PhAddElementAvlTree.  `code` is what PhpRebalanceAvlLinks
      returned, 0 when no rotation was needed; the "only when removing" case 3 never occurs. */
  method RetraceAdd(element: Links, root: Links, ghost s: set<Links>, ghost c0: Ctx, ghost order: seq<Links>)
    returns (code: int, ghost tree: Tree)
    requires Climbing(Snap(s), c0, Node(Leaf, element, Leaf), 0, root, order)
    requires element.balance == 0
    modifies s
    ensures Whole(Snap(s), tree, root) && Nodes(tree) + {root} == s && Inorder(tree) == order
    ensures 0 <= code <= 2
  {
    hide Climbing, Avl, Nodes, Height, Inorder, InBalance, Max, Join, Snap;
    code := 0;
    var P := element;
    ghost var c, t := c0, Node(Leaf, element, Leaf);
    SingleHeight(element);
    StepUp(s, c, t, 0, root, order);
    var first := root.right;
    while P != first
      invariant t.Node? && t.n == P && code == 0
      // a subtree that grew on the way up is not even, unless it is the new element itself
      invariant P.balance != 0 || Height(t) == 1
      invariant Climbing(Snap(s), c, t, Height(t) - 1, root, order)
      invariant root in s && root.right == first
      decreases c
    {
      StepUp(s, c, t, Height(t) - 1, root, order);
      StepAbove(s, c, t, Height(t) - 1, root, order);
      var balance := if P.parent.left == P then -1 else 1;
      P := P.parent;
      AddHeights(c.side, Height(t), Height(c.sibling), P.balance, balance);
      JoinRoot(c.side, t, P, c.sibling);
      if P.balance == 0 {
        SetBalance(P, balance, s, c, t, Height(t) - 1, root, order);
        c, t := c.up, Join(c.side, t, P, c.sibling);
      } else if P.balance != balance {
        SetBalance(P, 0, s, c, t, Height(t) - 1, root, order);
        c, t := c.up, Join(c.side, t, P, c.sibling);
        Settled(Snap(s), c, t, root, order);
        tree := Plug(c, t);
        return;
      } else {
        ghost var t';
        code, t' := RebalanceAt(P, s, c, t, Height(t) - 1, c.side, root, order);
        Settled(Snap(s), c.up, t', root, order);
        tree := Plug(c.up, t');
        return;
      }
    }
    StepUp(s, c, t, Height(t) - 1, root, order);
    AtTop(Snap(s), c, t, Height(t) - 1, root, order);
    Settled(Snap(s), c, t, root, order);
    tree := Plug(c, t);
  }

  // ------------------------------------------------------------------ removal

  /** How the cases of the removal loop change the heights: the hole is one lower than the
      context counts on, and `balance'` is the balance that a heavier hole stands for. */
  lemma RemoveHeights(side: Side, height: int, sibling: int, balance: int, balance': int)
    requires InBalance(balance, side, height + 1, sibling) && balance' == (if side.L? then -1 else 1)
    ensures balance == balance' ==>
      InBalance(0, side, height, sibling) && 1 + Max(height + 1, sibling) == 1 + Max(height, sibling) + 1
    ensures balance == 0 ==>
      InBalance(-balance', side, height, sibling) && 1 + Max(height + 1, sibling) == 1 + Max(height, sibling)
    ensures balance != 0 && balance != balance' ==>
      sibling == height + 2 && 1 + Max(height + 1, sibling) == sibling + 1 && balance == (if side.L? then 1 else -1)
  {
  }

  /** The balancing loop of PhRemoveElementAvlTree.  It starts at the node above the removed
      one, whose subtree on side `balance0` became one lower, and ends at the latest at the
      sentinel. */
  method RetraceRemove(P0: Links, balance0: int, root: Links, ghost s: set<Links>, ghost c0: Ctx, ghost t0: Tree,
                       ghost order: seq<Links>)
    returns (ghost tree: Tree)
    requires Climbing(Snap(s), c0, t0, Height(t0) + 1, root, order)
    requires P0 == Owner(c0) && balance0 == (if HoleSide(c0).L? then -1 else 1)
    modifies s
    ensures Whole(Snap(s), tree, root) && Nodes(tree) + {root} == s && Inorder(tree) == order
  {
    hide Climbing, Avl, Nodes, Height, Inorder, InBalance, Max, Join, Snap;
    var P, balance := P0, balance0;
    ghost var c, t := c0, t0;
    while P != root
      invariant P == Owner(c) && balance == (if HoleSide(c).L? then -1 else 1)
      invariant Climbing(Snap(s), c, t, Height(t) + 1, root, order)
      decreases c
    {
      StepAbove(s, c, t, Height(t) + 1, root, order);
      RemoveHeights(c.side, Height(t), Height(c.sibling), P.balance, balance);
      JoinRoot(c.side, t, P, c.sibling);
      if P.balance == balance {
        SetBalance(P, 0, s, c, t, Height(t) + 1, root, order);
        c, t := c.up, Join(c.side, t, P, c.sibling);
      } else if P.balance == 0 {
        SetBalance(P, -balance, s, c, t, Height(t) + 1, root, order);
        c, t := c.up, Join(c.side, t, P, c.sibling);
        Settled(Snap(s), c, t, root, order);
        tree := Plug(c, t);
        return;
      } else {
        ghost var t';
        var code;
        code, t' := RebalanceAt(P, s, c, t, Height(t) + 1, Other(c.side), root, order);
        c, t := c.up, t';
        if code == 3 {
          Settled(Snap(s), c, t, root, order);
          tree := Plug(c, t);
          return;
        }
        P := P.parent;
      }
      StepUp(s, c, t, Height(t) + 1, root, order);
      balance := if P.parent.left == P then -1 else 1;
      P := P.parent;
    }
    StepAbove(s, c, t, Height(t) + 1, root, order);
    AtTop(Snap(s), c, t, Height(t) + 1, root, order);
    Settled(Snap(s), c, t, root, order);
    tree := Plug(c, t);
  }
}
