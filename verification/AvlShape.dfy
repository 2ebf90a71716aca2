/** The shape of the AVL trees of phlib/avltree.c: what it means for a heap of links to
    hold a balanced tree, and how such a tree is taken apart at one node (a zipper) and
    put together again. */
module AvlShape {

  /** What only the CompareFunction looks at: the record a PH_AVL_LINKS is embedded in. */
  type Record = int

  /** PH_AVL_LINKS. */
  class Links {
    var parent: Links?
    var left: Links?
    var right: Links?
    var balance: int
    const record: Record

    constructor (record: Record)
      ensures this.record == record
      ensures parent == null && left == null && right == null && balance == 0
    {
      this.record := record;
      parent, left, right, balance := null, null, null, 0;
    }
  }

  // ------------------------------------------------------------ heaps as values

  datatype Rec = Rec(parent: Links?, left: Links?, right: Links?, balance: int)

  type Heap = map<Links, Rec>

  /** The current contents of a set of links. */
  ghost function Snap(s: set<Links>): (h: Heap)
    reads s
    ensures h.Keys == s
  {
    map n | n in s :: Rec(n.parent, n.left, n.right, n.balance)
  }

  datatype Side = L | R

  function Other(side: Side): Side { if side.L? then R else L }

  function Slot(rec: Rec, side: Side): Links? { if side.L? then rec.left else rec.right }

  function Refill(rec: Rec, side: Side, child: Links?): Rec {
    if side.L? then Rec(rec.parent, child, rec.right, rec.balance) else Rec(rec.parent, rec.left, child, rec.balance)
  }

  // -------------------------------------------------------------- abstract trees

  datatype Tree = Leaf | Node(l: Tree, n: Links, r: Tree)

  function Max(a: int, b: int): int { if a > b then a else b }

  ghost function Height(t: Tree): nat {
    match t
    case Leaf => 0
    case Node(l, _, r) => 1 + Max(Height(l), Height(r))
  }

  ghost function Nodes(t: Tree): set<Links> {
    match t
    case Leaf => {}
    case Node(l, n, r) => Nodes(l) + {n} + Nodes(r)
  }

  ghost function Inorder(t: Tree): seq<Links> {
    match t
    case Leaf => []
    case Node(l, n, r) => Inorder(l) + [n] + Inorder(r)
  }

  function Root(t: Tree): Links? { if t.Leaf? then null else t.n }

  /** The heap holds the AVL tree `t` below `parent`: links both ways agree, and every
      balance is exactly right height minus left height, within one. */
  ghost predicate Avl(h: Heap, t: Tree, parent: Links?) {
    match t
    case Leaf => true
    case Node(l, n, r) =>
      && n in h
      && h[n].parent == parent && h[n].left == Root(l) && h[n].right == Root(r)
      && h[n].balance == Height(r) - Height(l) && -1 <= h[n].balance <= 1
      && n !in Nodes(l) && n !in Nodes(r) && Nodes(l) !! Nodes(r)
      && Avl(h, l, n)
      && Avl(h, r, n)
  }

  /** The way from one place in a tree up to the sentinel: at each step the side we came
      from, the node, and the subtree on its other side. */
  datatype Ctx = Top(sentinel: Links) | In(side: Side, n: Links, sibling: Tree, up: Ctx)

  function Join(side: Side, t: Tree, n: Links, sibling: Tree): Tree {
    if side.L? then Node(t, n, sibling) else Node(sibling, n, t)
  }

  ghost function Plug(c: Ctx, t: Tree): Tree {
    match c
    case Top(_) => t
    case In(side, n, sibling, up) => Plug(up, Join(side, t, n, sibling))
  }

  ghost function CtxNodes(c: Ctx): set<Links> {
    match c
    case Top(s) => {s}
    case In(_, n, sibling, up) => {n} + Nodes(sibling) + CtxNodes(up)
  }

  ghost function Sentinel(c: Ctx): Links {
    match c
    case Top(s) => s
    case In(_, _, _, up) => Sentinel(up)
  }

  /** The elements before and after the hole. */
  ghost function Before(c: Ctx): seq<Links> {
    match c
    case Top(_) => []
    case In(side, n, sibling, up) => if side.L? then Before(up) else Before(up) + Inorder(sibling) + [n]
  }

  ghost function After(c: Ctx): seq<Links> {
    match c
    case Top(_) => []
    case In(side, n, sibling, up) => if side.L? then [n] + Inorder(sibling) + After(up) else After(up)
  }

  predicate InBalance(balance: int, side: Side, height: int, siblingHeight: int) {
    balance == (if side.L? then siblingHeight - height else height - siblingHeight) && -1 <= balance <= 1
  }

  /** The node above the hole. */
  function Owner(c: Ctx): Links { if c.Top? then c.sentinel else c.n }

  /** The real root hangs off the sentinel's right link. */
  function HoleSide(c: Ctx): Side { if c.Top? then R else c.side }

  /** The heap holds the context `c` of a hole whose contents start at `hole`, with balances
      that count on a subtree of height `height` there. */
  ghost predicate AvlCtx(h: Heap, c: Ctx, hole: Links?, height: int) {
    match c
    case Top(s) =>
      s in h && h[s].right == hole && h[s].left == null && h[s].parent == null
    case In(side, n, sibling, up) =>
      && n in h
      && Slot(h[n], side) == hole && Slot(h[n], Other(side)) == Root(sibling) && h[n].parent == Owner(up)
      && InBalance(h[n].balance, side, height, Height(sibling))
      && n !in Nodes(sibling) && n !in CtxNodes(up) && Nodes(sibling) !! CtxNodes(up)
      && Avl(h, sibling, n)
      && AvlCtx(h, up, n, 1 + Max(height, Height(sibling)))
  }

  /** A tree opened at `t`, in a context that counts on height `height`. */
  ghost predicate Opened(h: Heap, c: Ctx, t: Tree, height: int) {
    && AvlCtx(h, c, Root(t), height)
    && Avl(h, t, Owner(c))
    && Nodes(t) !! CtxNodes(c)
  }

  // -------------------------------------------------------------- frame lemmas

  ghost predicate Agree(h: Heap, h': Heap, s: set<Links>) {
    forall n :: n in s && n in h ==> n in h' && h'[n] == h[n]
  }

  lemma {:induction false} FrameAvl(h: Heap, h': Heap, t: Tree, parent: Links?)
    requires Avl(h, t, parent) && Agree(h, h', Nodes(t))
    ensures Avl(h', t, parent)
  {
    if t.Node? {
      FrameAvl(h, h', t.l, t.n);
      FrameAvl(h, h', t.r, t.n);
    }
  }

  lemma {:induction false} FrameCtx(h: Heap, h': Heap, c: Ctx, hole: Links?, height: int)
    requires AvlCtx(h, c, hole, height) && Agree(h, h', CtxNodes(c))
    ensures AvlCtx(h', c, hole, height)
  {
    if c.In? {
      FrameAvl(h, h', c.sibling, c.n);
      FrameCtx(h, h', c.up, c.n, 1 + Max(height, Height(c.sibling)));
    }
  }

  function Reparented(rec: Rec, parent: Links?): Rec {
    Rec(parent, rec.left, rec.right, rec.balance)
  }

  /** Hanging a subtree below another parent changes one link of its root. */
  lemma Rehang(h: Heap, h': Heap, t: Tree, parent: Links?, parent': Links?)
    requires Avl(h, t, parent)
    requires Agree(h, h', Nodes(t) - {Root(t)})
    requires t.Node? ==> t.n in h' && h'[t.n] == Reparented(h[t.n], parent')
    ensures Avl(h', t, parent')
  {
    if t.Node? {
      FrameAvl(h, h', t.l, t.n);
      FrameAvl(h, h', t.r, t.n);
    }
  }

  /** Filling the hole with something else changes one link of the node above it. */
  lemma RefillCtx(h: Heap, h': Heap, c: Ctx, hole: Links?, height: int, hole': Links?)
    requires AvlCtx(h, c, hole, height) && Owner(c) in h && Owner(c) in h'
    requires Agree(h, h', CtxNodes(c) - {Owner(c)})
    requires h'[Owner(c)] == Refill(h[Owner(c)], HoleSide(c), hole')
    ensures AvlCtx(h', c, hole', height)
  {
    if c.In? {
      FrameAvl(h, h', c.sibling, c.n);
      FrameCtx(h, h', c.up, c.n, 1 + Max(height, Height(c.sibling)));
    }
  }

  lemma {:induction false} AvlInHeap(h: Heap, t: Tree, parent: Links?)
    requires Avl(h, t, parent)
    ensures Nodes(t) <= h.Keys
    ensures t.Leaf? <==> Height(t) == 0
    ensures t.Node? ==> t.n in Nodes(t)
  {
    if t.Node? {
      AvlInHeap(h, t.l, t.n);
      AvlInHeap(h, t.r, t.n);
    }
  }

  lemma {:induction false} CtxInHeap(h: Heap, c: Ctx, hole: Links?, height: int)
    requires AvlCtx(h, c, hole, height)
    ensures CtxNodes(c) <= h.Keys
    ensures Owner(c) in CtxNodes(c) && Sentinel(c) in CtxNodes(c)
    ensures c.In? ==> h[Sentinel(c)].right in CtxNodes(c) && Owner(c) != Sentinel(c)
    ensures h[Sentinel(c)].parent == null && h[Sentinel(c)].left == null
    ensures Slot(h[Owner(c)], HoleSide(c)) == hole
  {
    if c.In? {
      AvlInHeap(h, c.sibling, c.n);
      CtxInHeap(h, c.up, c.n, 1 + Max(height, Height(c.sibling)));
    }
  }

  // ---------------------------------------------- one node and its subtrees

  /** A node above two subtrees that are already in the heap. */
  lemma MakeNode(h: Heap, side: Side, t: Tree, n: Links, sibling: Tree, parent: Links?)
    requires n in h && {n} !! Nodes(t) !! Nodes(sibling) && h[n].parent == parent
    requires Slot(h[n], side) == Root(t) && Slot(h[n], Other(side)) == Root(sibling)
    requires Avl(h, t, n) && Avl(h, sibling, n)
    requires InBalance(h[n].balance, side, Height(t), Height(sibling))
    ensures var t' := Join(side, t, n, sibling);
      Avl(h, t', parent) && Root(t') == n && Nodes(t') == Nodes(t) + {n} + Nodes(sibling)
        && Height(t') == 1 + Max(Height(t), Height(sibling))
  {
  }

  /** The pieces of a tree with a known root. */
  lemma OpenNode(h: Heap, side: Side, t: Tree, n: Links, sibling: Tree, parent: Links?)
    requires Avl(h, Join(side, t, n, sibling), parent)
    ensures n in h && n !in Nodes(t) && n !in Nodes(sibling) && Nodes(t) !! Nodes(sibling) && h[n].parent == parent
    ensures Slot(h[n], side) == Root(t) && Slot(h[n], Other(side)) == Root(sibling)
    ensures Avl(h, t, n) && Avl(h, sibling, n)
    ensures InBalance(h[n].balance, side, Height(t), Height(sibling))
    ensures Nodes(Join(side, t, n, sibling)) == Nodes(t) + {n} + Nodes(sibling)
    ensures Height(Join(side, t, n, sibling)) == 1 + Max(Height(t), Height(sibling))
  {
  }

  // ---------------------------------------------------- closing an opened tree

  /** Going up one step, when the hole has the height the context counts on. */
  lemma Ascend(h: Heap, c: Ctx, t: Tree)
    requires c.In? && Opened(h, c, t, Height(t))
    ensures var t' := Join(c.side, t, c.n, c.sibling);
      && Nodes(t') == Nodes(t) + {c.n} + Nodes(c.sibling)
      && Opened(h, c.up, t', Height(t'))
  {
    hide Avl, Nodes, Height, Max, Join;
    MakeNode(h, c.side, t, c.n, c.sibling, Owner(c.up));
  }

  lemma {:induction false} Close(h: Heap, c: Ctx, t: Tree)
    requires Opened(h, c, t, Height(t))
    ensures var s, t' := Sentinel(c), Plug(c, t);
      && s in h && Avl(h, t', s) && h[s].right == Root(t') && h[s].left == null && h[s].parent == null
      && s !in Nodes(t') && Nodes(t') == Nodes(t) + (CtxNodes(c) - {s})
    decreases c
  {
    if c.In? {
      Ascend(h, c, t);
      CtxInHeap(h, c, Root(t), Height(t));
      Close(h, c.up, Join(c.side, t, c.n, c.sibling));
    }
  }

  lemma {:induction false} PlugInorder(c: Ctx, t: Tree)
    ensures Inorder(Plug(c, t)) == Before(c) + Inorder(t) + After(c)
    decreases c
  {
    if c.In? { PlugInorder(c.up, Join(c.side, t, c.n, c.sibling)); }
  }

  lemma {:induction false} InorderNodes(t: Tree)
    ensures forall n :: n in Inorder(t) <==> n in Nodes(t)
  {
    if t.Node? { InorderNodes(t.l); InorderNodes(t.r); }
  }

  /** Going down one step keeps the tree opened. */
  lemma Descend(h: Heap, c: Ctx, side: Side, sub: Tree, n: Links, sibling: Tree)
    requires Opened(h, c, Join(side, sub, n, sibling), Height(Join(side, sub, n, sibling)))
    ensures n in h && Opened(h, In(side, n, sibling, c), sub, Height(sub))
  {
    hide Avl, Nodes, Height, Max;
    OpenNode(h, side, sub, n, sibling, Owner(c));
    assert CtxNodes(In(side, n, sibling, c)) == {n} + Nodes(sibling) + CtxNodes(c);
  }

  /** Every node of a tree is found by going down to it. */
  lemma {:induction false} Locate(h: Heap, c: Ctx, t: Tree, e: Links) returns (c': Ctx, l: Tree, r: Tree)
    requires Opened(h, c, t, Height(t)) && e in Nodes(t)
    ensures e in h && Opened(h, c', Node(l, e, r), Height(Node(l, e, r)))
    ensures Plug(c', Node(l, e, r)) == Plug(c, t) && Sentinel(c') == Sentinel(c)
    decreases t
  {
    if t.n == e {
      c', l, r := c, t.l, t.r;
    } else if e in Nodes(t.l) {
      Descend(h, c, L, t.l, t.n, t.r);
      c', l, r := Locate(h, In(L, t.n, t.r, c), t.l, e);
    } else {
      Descend(h, c, R, t.r, t.n, t.l);
      c', l, r := Locate(h, In(R, t.n, t.l, c), t.r, e);
    }
  }
}
