/** PhpRebalanceAvlLinks of phlib/avltree.c: one rotation restores the balance of a node
    whose subtrees differ in height by two. */
module AvlRebalance {
  import opened AvlShape
  import opened AvlRotate

  /** Nothing but `changed` was written. */
  ghost predicate Unchanged(h: Heap, h': Heap, changed: set<Links>) {
    h'.Keys == h.Keys && forall n :: n in h && n !in changed ==> h'[n] == h[n]
  }

  /** P hangs below `owner`; its subtree on side `way` is two higher than the other one. */
  ghost predicate Unbalanced(h: Heap, owner: Links, side: Side, way: Side, p: Links, heavy: Tree, light: Tree) {
    && owner in h && p in h && owner != p
    && Slot(h[owner], side) == p && h[p].parent == owner
    && Slot(h[p], way) == Root(heavy) && Slot(h[p], Other(way)) == Root(light)
    && owner !in Nodes(heavy) + Nodes(light) && p !in Nodes(heavy) + Nodes(light) && Nodes(heavy) !! Nodes(light)
    && Avl(h, heavy, p) && Avl(h, light, p)
    && Height(heavy) == Height(light) + 2
    && h[p].balance == (if way.L? then -1 else 1)
  }

  /** The subtree `t` took P's place: same elements in the same order, balanced, and one
      lower than before, except after the special rotation (code 3), which happens exactly
      when the heavy child was even. */
  ghost predicate Rebalanced(h: Heap, h': Heap, owner: Links, side: Side, way: Side, p: Links, heavy: Tree, light: Tree,
                             code: int, t: Tree) {
    && t.Node? && p in h' && Avl(h', t, owner)
    && owner in h && owner in h' && h'[owner] == Refill(h[owner], side, t.n)
    && Nodes(t) == Nodes(Join(way, heavy, p, light)) && Inorder(t) == Inorder(Join(way, heavy, p, light))
    && Unchanged(h, h', {owner} + Nodes(t))
    && 1 <= code <= 3
    && heavy.Node? && heavy.n in h && (code == 3 <==> h[heavy.n].balance == 0)
    && Height(t) == Height(heavy) + (if code == 3 then 1 else 0)
    && (code != 3 ==> h'[p].parent == t.n)
  }

  // --------------------------------------------------------- single rotations

  /** The links after lifting Q over P once, when B changes sides. */
  ghost predicate LiftedOnce(h: Heap, h': Heap, owner: Links, side: Side, way: Side, p: Links, q: Links, a: Tree,
                             b: Tree, c: Tree)
    requires owner in h && p in h && q in h
  {
    && Unchanged(h, h', {owner, p, q} + Nodes(b))
    && OnceRecords(h, h', owner, side, way, p, q, Root(b))
    && Agree(h, h', Nodes(a)) && Agree(h, h', Nodes(c)) && Hung(h, h', b, p)
  }

  ghost predicate OnceRecords(h: Heap, h': Heap, owner: Links, side: Side, way: Side, p: Links, q: Links, b: Links?)
    requires {owner, p, q} <= h.Keys == h'.Keys
  {
    && h'[owner] == Refill(h[owner], side, q)
    && h'[q].parent == owner && Slot(h'[q], way) == Slot(h[q], way) && Slot(h'[q], Other(way)) == p
    && h'[p].parent == q && Slot(h'[p], way) == b && Slot(h'[p], Other(way)) == Slot(h[p], Other(way))
  }

  /** The subtree `t` hangs below `parent` now, and is otherwise the same. */
  ghost predicate Hung(h: Heap, h': Heap, t: Tree, parent: Links) {
    Agree(h, h', Nodes(t) - {Root(t)}) && (t.Node? && t.n in h ==> t.n in h' && h'[t.n] == Reparented(h[t.n], parent))
  }

  lemma HungIsAvl(h: Heap, h': Heap, t: Tree, parent: Links, parent': Links)
    requires Avl(h, t, parent) && Hung(h, h', t, parent')
    ensures Avl(h', t, parent')
  {
    assert t.Node? ==> t.n in h;
    hide Avl, Nodes;
    Rehang(h, h', t, parent, parent');
  }

  lemma OnceKeeps(h: Heap, h': Heap, p: Links, q: Links, a: Tree, b: Tree, c: Tree)
    requires Agree(h, h', Nodes(a)) && Agree(h, h', Nodes(c)) && Hung(h, h', b, p)
    requires Avl(h, a, q) && Avl(h, b, q) && Avl(h, c, p)
    ensures Avl(h', a, q) && Avl(h', b, p) && Avl(h', c, p)
  {
    hide Avl, Nodes, Agree, Hung;
    FrameAvl(h, h', a, q);
    HungIsAvl(h, h', b, q, p);
    FrameAvl(h, h', c, p);
  }

  lemma OnceRestores(h: Heap, h': Heap, owner: Links, side: Side, way: Side, p: Links, q: Links, a: Tree, b: Tree,
                     c: Tree, code: int)
    requires Unbalanced(h, owner, side, way, p, Join(way, a, q, b), c)
    requires q in h && LiftedOnce(h, h', owner, side, way, p, q, a, b, c)
    requires InBalance(h'[p].balance, way, Height(b), Height(c))
    requires InBalance(h'[q].balance, way, Height(a), 1 + Max(Height(b), Height(c)))
    requires code == if h[q].balance == 0 then 3 else 1
    requires code == 1 ==> Height(a) == Height(b) + 1
    requires code == 3 ==> Height(a) == Height(b)
    ensures Rebalanced(h, h', owner, side, way, p, Join(way, a, q, b), c, code, Join(way, a, q, Join(way, b, p, c)))
  {
    hide Avl, Nodes, Height, Inorder;
    OnceAvl(h, h', owner, side, way, p, q, a, b, c);
    OnceOrder(way, p, q, a, b, c);
    JoinHeight(way, a, q, b);
    JoinHeight(way, a, q, Join(way, b, p, c));
    JoinHeight(way, b, p, c);
  }

  lemma OnceAvl(h: Heap, h': Heap, owner: Links, side: Side, way: Side, p: Links, q: Links, a: Tree, b: Tree, c: Tree)
    requires Unbalanced(h, owner, side, way, p, Join(way, a, q, b), c)
    requires q in h && LiftedOnce(h, h', owner, side, way, p, q, a, b, c)
    requires InBalance(h'[p].balance, way, Height(b), Height(c))
    requires InBalance(h'[q].balance, way, Height(a), 1 + Max(Height(b), Height(c)))
    ensures Avl(h', Join(way, a, q, Join(way, b, p, c)), owner)
  {
    hide Avl, Nodes, Height, Inorder, Max;
    OpenNode(h, way, a, q, b, p);
    OnceApart(h, owner, side, way, p, q, a, b, c);
    OnceKeeps(h, h', p, q, a, b, c);
    SingleIsAvl(h', owner, way, p, q, a, b, c);
  }

  lemma OnceOrder(way: Side, p: Links, q: Links, a: Tree, b: Tree, c: Tree)
    ensures var t, t' := Join(way, Join(way, a, q, b), p, c), Join(way, a, q, Join(way, b, p, c));
      Inorder(t') == Inorder(t) && Nodes(t') == Nodes(t)
  {
    if way.L? {
      Assoc(Inorder(a), q, Inorder(b), p, Inorder(c));
    } else {
      Assoc(Inorder(c), p, Inorder(b), q, Inorder(a));
    }
  }

  lemma Assoc(a: seq<Links>, x: Links, b: seq<Links>, y: Links, c: seq<Links>)
    ensures a + [x] + (b + [y] + c) == (a + [x] + b) + [y] + c
  {
  }

  // --------------------------------------------------------- double rotations

  /** The links after lifting R over Q and P; B ends up below Q and C below P. */
  ghost predicate LiftedTwice(h: Heap, h': Heap, owner: Links, side: Side, way: Side, p: Links, q: Links, r: Links,
                              a: Tree, b: Tree, c: Tree, d: Tree)
    requires owner in h && p in h && q in h && r in h
  {
    && Unchanged(h, h', {owner, p, q, r} + Nodes(b) + Nodes(c))
    && TwiceRecords(h, h', owner, side, way, p, q, r, Root(b), Root(c))
    && Agree(h, h', Nodes(a)) && Agree(h, h', Nodes(d)) && Hung(h, h', b, q) && Hung(h, h', c, p)
  }

  ghost predicate TwiceRecords(h: Heap, h': Heap, owner: Links, side: Side, way: Side, p: Links, q: Links, r: Links,
                               b: Links?, c: Links?)
    requires {owner, p, q, r} <= h.Keys == h'.Keys
  {
    && h'[owner] == Refill(h[owner], side, r)
    && h'[r].parent == owner && Slot(h'[r], way) == q && Slot(h'[r], Other(way)) == p
    && h'[q].parent == r && Slot(h'[q], way) == Slot(h[q], way) && Slot(h'[q], Other(way)) == b
    && h'[p].parent == r && Slot(h'[p], way) == c && Slot(h'[p], Other(way)) == Slot(h[p], Other(way))
  }

  lemma TwiceKeeps(h: Heap, h': Heap, p: Links, q: Links, r: Links, a: Tree, b: Tree, c: Tree, d: Tree)
    requires Agree(h, h', Nodes(a)) && Agree(h, h', Nodes(d)) && Hung(h, h', b, q) && Hung(h, h', c, p)
    requires Avl(h, a, q) && Avl(h, b, r) && Avl(h, c, r) && Avl(h, d, p)
    ensures Avl(h', a, q) && Avl(h', b, q) && Avl(h', c, p) && Avl(h', d, p)
  {
    hide Avl, Nodes, Agree, Hung;
    FrameAvl(h, h', a, q);
    HungIsAvl(h, h', b, r, q);
    HungIsAvl(h, h', c, r, p);
    FrameAvl(h, h', d, p);
  }

  lemma TwiceOrder(way: Side, p: Links, q: Links, r: Links, a: Tree, b: Tree, c: Tree, d: Tree)
    ensures var t, t' := Join(way, Join(way, a, q, Join(way, b, r, c)), p, d),
        Join(way, Join(way, a, q, b), r, Join(way, c, p, d));
      Inorder(t') == Inorder(t) && Nodes(t') == Nodes(t)
  {
    hide Nodes, Inorder;
    JoinParts(way, b, r, c);
    JoinParts(way, a, q, Join(way, b, r, c));
    JoinParts(way, Join(way, a, q, Join(way, b, r, c)), p, d);
    JoinParts(way, a, q, b);
    JoinParts(way, c, p, d);
    JoinParts(way, Join(way, a, q, b), r, Join(way, c, p, d));
    if way.L? {
      AssocTwice(Inorder(a), q, Inorder(b), r, Inorder(c), p, Inorder(d));
    } else {
      AssocTwice(Inorder(d), p, Inorder(c), r, Inorder(b), q, Inorder(a));
    }
  }

  lemma JoinParts(side: Side, t: Tree, n: Links, sibling: Tree)
    ensures Nodes(Join(side, t, n, sibling)) == Nodes(t) + {n} + Nodes(sibling)
    ensures Inorder(Join(side, t, n, sibling)) ==
      if side.L? then Inorder(t) + [n] + Inorder(sibling) else Inorder(sibling) + [n] + Inorder(t)
  {
  }

  lemma AssocTwice(a: seq<Links>, x: Links, b: seq<Links>, y: Links, c: seq<Links>, z: Links, d: seq<Links>)
    ensures (a + [x] + b) + [y] + (c + [z] + d) == (a + [x] + (b + [y] + c)) + [z] + d
    ensures (a + [x] + b) + [y] + (c + [z] + d) == a + [x] + ((b + [y] + c) + [z] + d)
  {
  }

  lemma TwiceAvl(h: Heap, h': Heap, owner: Links, side: Side, way: Side, p: Links, q: Links, r: Links,
                 a: Tree, b: Tree, c: Tree, d: Tree)
    requires Unbalanced(h, owner, side, way, p, Join(way, a, q, Join(way, b, r, c)), d)
    requires q in h && r in h && LiftedTwice(h, h', owner, side, way, p, q, r, a, b, c, d)
    requires InBalance(h'[q].balance, way, Height(a), Height(b))
    requires InBalance(h'[p].balance, way, Height(c), Height(d))
    requires InBalance(h'[r].balance, way, 1 + Max(Height(a), Height(b)), 1 + Max(Height(c), Height(d)))
    ensures Avl(h', Join(way, Join(way, a, q, b), r, Join(way, c, p, d)), owner)
  {
    hide Avl, Nodes, Height, Inorder, Max;
    OpenNode(h, way, a, q, Join(way, b, r, c), p);
    OpenNode(h, way, b, r, c, q);
    TwiceApart(h, owner, side, way, p, q, r, a, b, c, d);
    TwiceKeeps(h, h', p, q, r, a, b, c, d);
    DoubleIsAvl(h', owner, way, p, q, r, a, b, c, d);
  }

  lemma TwiceRestores(h: Heap, h': Heap, owner: Links, side: Side, way: Side, p: Links, q: Links, r: Links,
                      a: Tree, b: Tree, c: Tree, d: Tree)
    requires Unbalanced(h, owner, side, way, p, Join(way, a, q, Join(way, b, r, c)), d)
    requires q in h && r in h && LiftedTwice(h, h', owner, side, way, p, q, r, a, b, c, d)
    requires Height(Join(way, b, r, c)) == Height(a) + 1 && h[q].balance != 0
    requires InBalance(h'[q].balance, way, Height(a), Height(b))
    requires InBalance(h'[p].balance, way, Height(c), Height(d))
    requires InBalance(h'[r].balance, way, 1 + Max(Height(a), Height(b)), 1 + Max(Height(c), Height(d)))
    ensures Rebalanced(h, h', owner, side, way, p, Join(way, a, q, Join(way, b, r, c)), d, 2,
                       Join(way, Join(way, a, q, b), r, Join(way, c, p, d)))
  {
    TwiceAvl(h, h', owner, side, way, p, q, r, a, b, c, d);
    TwiceOrder(way, p, q, r, a, b, c, d);
    JoinHeight(way, Join(way, a, q, b), r, Join(way, c, p, d));
    JoinHeight(way, a, q, b);
    JoinHeight(way, c, p, d);
    JoinHeight(way, b, r, c);
    JoinHeight(way, a, q, Join(way, b, r, c));
    hide Avl, Nodes, Height, Inorder;
  }

  lemma JoinHeight(side: Side, t: Tree, n: Links, sibling: Tree)
    ensures Height(Join(side, t, n, sibling)) == 1 + Max(Height(t), Height(sibling))
    ensures Nodes(Join(side, t, n, sibling)) == Nodes(t) + {n} + Nodes(sibling)
  {
  }

  // ------------------------------------------------------------- the method

  /** The nodes and subtrees around a single rotation lie in `s` and share nothing. */
  ghost predicate Apart(s: set<Links>, owner: Links, p: Links, q: Links, a: Tree, b: Tree, c: Tree) {
    && {owner, p, q} + Nodes(a) + Nodes(b) + Nodes(c) <= s
    && {owner, p, q} !! Nodes(a) + Nodes(b) + Nodes(c) && Nodes(b) !! Nodes(a) + Nodes(c)
    && owner != p && owner != q && p != q
    && (b.Node? ==> b.n in Nodes(b))
  }

  lemma AgreeBut(h: Heap, h': Heap, changed: set<Links?>, t: set<Links>)
    requires StillHeap(h, h', changed) && (forall n :: n in t ==> n !in changed)
    ensures Agree(h, h', t)
  {
  }

  lemma HungBut(h: Heap, h': Heap, changed: set<Links?>, t: Tree, parent: Links)
    requires StillHeap(h, h', changed) && (forall n :: n in Nodes(t) && n != Root(t) ==> n !in changed)
    requires MovedRec(h, h', Root(t), parent)
    ensures Hung(h, h', t, parent)
  {
    hide Nodes;
  }

  ghost predicate StillHeap(h: Heap, h': Heap, changed: set<Links?>) {
    h'.Keys == h.Keys && forall n :: n in h && n !in changed ==> h'[n] == h[n]
  }

  ghost predicate MovedRec(h: Heap, h': Heap, n: Links?, parent: Links) {
    n != null && n in h ==> n in h' && h'[n] == Reparented(h[n], parent)
  }

  lemma OnceLifted(h: Heap, h': Heap, owner: Links, side: Side, way: Side, p: Links, q: Links, a: Tree, b: Tree,
                   c: Tree)
    requires Apart(h.Keys, owner, p, q, a, b, c)
    requires h'.Keys == h.Keys && OnceRecords(h, h', owner, side, way, p, q, Root(b))
    requires StillHeap(h, h', {owner, p, q, Root(b)}) && MovedRec(h, h', Root(b), p)
    ensures LiftedOnce(h, h', owner, side, way, p, q, a, b, c)
  {
    hide OnceRecords, Nodes, MovedRec, Agree, Hung;
    var changed := {owner, p, q, Root(b)};
    AgreeBut(h, h', changed, Nodes(a));
    AgreeBut(h, h', changed, Nodes(c));
    HungBut(h, h', changed, b, p);
  }

  ghost predicate ApartTwice(s: set<Links>, owner: Links, p: Links, q: Links, r: Links, a: Tree, b: Tree, c: Tree,
                             d: Tree) {
    && {owner, p, q, r} + Nodes(a) + Nodes(b) + Nodes(c) + Nodes(d) <= s
    && {owner, p, q, r} !! Nodes(a) + Nodes(b) + Nodes(c) + Nodes(d)
    && Nodes(b) !! Nodes(a) + Nodes(c) + Nodes(d) && Nodes(c) !! Nodes(a) + Nodes(d) && Nodes(a) !! Nodes(d)
    && owner != p && owner != q && owner != r && p != q && p != r && q != r
    && (b.Node? ==> b.n in Nodes(b)) && (c.Node? ==> c.n in Nodes(c))
  }

  lemma TwiceLifted(h: Heap, h': Heap, owner: Links, side: Side, way: Side, p: Links, q: Links, r: Links,
                    a: Tree, b: Tree, c: Tree, d: Tree)
    requires ApartTwice(h.Keys, owner, p, q, r, a, b, c, d)
    requires h'.Keys == h.Keys && TwiceRecords(h, h', owner, side, way, p, q, r, Root(b), Root(c))
    requires StillHeap(h, h', {owner, p, q, r, Root(b), Root(c)})
    requires MovedRec(h, h', Root(b), q) && MovedRec(h, h', Root(c), p)
    ensures LiftedTwice(h, h', owner, side, way, p, q, r, a, b, c, d)
  {
    hide TwiceRecords, Nodes, MovedRec, Agree, Hung;
    var changed := {owner, p, q, r, Root(b), Root(c)};
    AgreeBut(h, h', changed, Nodes(a));
    AgreeBut(h, h', changed, Nodes(d));
    HungBut(h, h', changed, b, q);
    HungBut(h, h', changed, c, p);
  }

  // The six branches.  `balanceR` below is R's balance before the rotation.

  /** Left-left. */
  method LeftLeft(owner: Links, side: Side, P: Links, Q: Links,
                  ghost s: set<Links>, ghost a: Tree, ghost b: Tree, ghost c: Tree)
    requires Apart(s, owner, P, Q, a, b, c)
    requires Deref(owner, side) == P && P.parent == owner && P.left == Q && Q.right == Root(b)
    modifies owner, P, Q, Root(b)
    ensures LiftedOnce(old(Snap(s)), Snap(s), owner, side, L, P, Q, a, b, c)
    ensures P.balance == 0 && Q.balance == 0
  {
    hide Avl, Nodes, Height, Inorder, LiftedOnce;
    RotateRight(owner, side, P, Q, Q.right);
    P.balance := 0;
    Q.balance := 0;
    assert OnceRecords(old(Snap(s)), Snap(s), owner, side, L, P, Q, Root(b));
    OnceLifted(old(Snap(s)), Snap(s), owner, side, L, P, Q, a, b, c);
  }

  /** Special, on the left: only occurs when removing. */
  method LeftSpecial(owner: Links, side: Side, P: Links, Q: Links,
                     ghost s: set<Links>, ghost a: Tree, ghost b: Tree, ghost c: Tree)
    requires Apart(s, owner, P, Q, a, b, c)
    requires Deref(owner, side) == P && P.parent == owner && P.left == Q && Q.right == Root(b)
    modifies owner, P, Q, Root(b)
    ensures LiftedOnce(old(Snap(s)), Snap(s), owner, side, L, P, Q, a, b, c)
    ensures P.balance == old(P.balance) && Q.balance == 1
  {
    hide Avl, Nodes, Height, Inorder, LiftedOnce;
    RotateRight(owner, side, P, Q, Q.right);
    Q.balance := 1;
    assert OnceRecords(old(Snap(s)), Snap(s), owner, side, L, P, Q, Root(b));
    OnceLifted(old(Snap(s)), Snap(s), owner, side, L, P, Q, a, b, c);
  }

  /** The new balances after a double rotation; `way` is -1 on the left, 1 on the right. */
  method SpreadBalance(P: Links, Q: Links, R: Links, way: int)
    requires P != Q && P != R && Q != R && (way == -1 || way == 1)
    modifies P`balance, Q`balance, R`balance
    ensures R.balance == 0
    ensures P.balance == (if old(R.balance) == way then -way else 0)
      && Q.balance == (if old(R.balance) == -way then way else 0)
  {
    if R.balance == way {
      P.balance := -way;
      Q.balance := 0;
    } else if R.balance == -way {
      P.balance := 0;
      Q.balance := way;
    } else {
      P.balance := 0;
      Q.balance := 0;
    }
    R.balance := 0;
  }

  /** Left-right. */
  method LeftRight(owner: Links, side: Side, P: Links, Q: Links, R: Links,
                   ghost s: set<Links>, ghost a: Tree, ghost b: Tree, ghost c: Tree, ghost d: Tree)
    requires ApartTwice(s, owner, P, Q, R, a, b, c, d)
    requires Deref(owner, side) == P && P.parent == owner && P.left == Q && Q.right == R
    requires R.left == Root(b) && R.right == Root(c)
    modifies owner, P, Q, R, Root(b), Root(c)
    ensures LiftedTwice(old(Snap(s)), Snap(s), owner, side, L, P, Q, R, a, b, c, d)
    ensures R.balance == 0
    ensures P.balance == (if old(R.balance) == -1 then 1 else 0) && Q.balance == (if old(R.balance) == 1 then -1 else 0)
  {
    hide Avl, Nodes, Height, Inorder, LiftedTwice;
    RotateRightTwice(owner, side, P, Q, R, R.left, R.right);
    SpreadBalance(P, Q, R, -1);
    assert TwiceRecords(old(Snap(s)), Snap(s), owner, side, L, P, Q, R, Root(b), Root(c));
    assert MovedRec(old(Snap(s)), Snap(s), Root(b), Q) && MovedRec(old(Snap(s)), Snap(s), Root(c), P);
    TwiceLifted(old(Snap(s)), Snap(s), owner, side, L, P, Q, R, a, b, c, d);
  }

  /** Right-right. */
  method RightRight(owner: Links, side: Side, P: Links, Q: Links,
                    ghost s: set<Links>, ghost a: Tree, ghost b: Tree, ghost c: Tree)
    requires Apart(s, owner, P, Q, a, b, c)
    requires Deref(owner, side) == P && P.parent == owner && P.right == Q && Q.left == Root(b)
    modifies owner, P, Q, Root(b)
    ensures LiftedOnce(old(Snap(s)), Snap(s), owner, side, Side.R, P, Q, a, b, c)
    ensures P.balance == 0 && Q.balance == 0
  {
    hide Avl, Nodes, Height, Inorder, LiftedOnce;
    RotateLeft(owner, side, P, Q, Q.left);
    P.balance := 0;
    Q.balance := 0;
    assert OnceRecords(old(Snap(s)), Snap(s), owner, side, Side.R, P, Q, Root(b));
    OnceLifted(old(Snap(s)), Snap(s), owner, side, Side.R, P, Q, a, b, c);
  }

  /** Special, on the right: only occurs when removing. */
  method RightSpecial(owner: Links, side: Side, P: Links, Q: Links,
                      ghost s: set<Links>, ghost a: Tree, ghost b: Tree, ghost c: Tree)
    requires Apart(s, owner, P, Q, a, b, c)
    requires Deref(owner, side) == P && P.parent == owner && P.right == Q && Q.left == Root(b)
    modifies owner, P, Q, Root(b)
    ensures LiftedOnce(old(Snap(s)), Snap(s), owner, side, Side.R, P, Q, a, b, c)
    ensures P.balance == old(P.balance) && Q.balance == -1
  {
    hide Avl, Nodes, Height, Inorder, LiftedOnce;
    RotateLeft(owner, side, P, Q, Q.left);
    Q.balance := -1;
    assert OnceRecords(old(Snap(s)), Snap(s), owner, side, Side.R, P, Q, Root(b));
    OnceLifted(old(Snap(s)), Snap(s), owner, side, Side.R, P, Q, a, b, c);
  }

  /** Right-left. */
  method RightLeft(owner: Links, side: Side, P: Links, Q: Links, R: Links,
                   ghost s: set<Links>, ghost a: Tree, ghost b: Tree, ghost c: Tree, ghost d: Tree)
    requires ApartTwice(s, owner, P, Q, R, a, b, c, d)
    requires Deref(owner, side) == P && P.parent == owner && P.right == Q && Q.left == R
    requires R.right == Root(b) && R.left == Root(c)
    modifies owner, P, Q, R, Root(b), Root(c)
    ensures LiftedTwice(old(Snap(s)), Snap(s), owner, side, Side.R, P, Q, R, a, b, c, d)
    ensures R.balance == 0
    ensures P.balance == (if old(R.balance) == 1 then -1 else 0) && Q.balance == (if old(R.balance) == -1 then 1 else 0)
  {
    hide Avl, Nodes, Height, Inorder, LiftedTwice;
    RotateLeftTwice(owner, side, P, Q, R, R.left, R.right);
    SpreadBalance(P, Q, R, 1);
    assert TwiceRecords(old(Snap(s)), Snap(s), owner, side, Side.R, P, Q, R, Root(b), Root(c));
    assert MovedRec(old(Snap(s)), Snap(s), Root(b), Q) && MovedRec(old(Snap(s)), Snap(s), Root(c), P);
    TwiceLifted(old(Snap(s)), Snap(s), owner, side, Side.R, P, Q, R, a, b, c, d);
  }

  /** The trees around the rotation, as far apart as the branches need them. */
  lemma OnceApart(h: Heap, owner: Links, side: Side, way: Side, p: Links, q: Links, a: Tree, b: Tree, c: Tree)
    requires Unbalanced(h, owner, side, way, p, Join(way, a, q, b), c)
    ensures Apart(h.Keys, owner, p, q, a, b, c)
    ensures Slot(h[p], way) == q && Slot(h[q], Other(way)) == Root(b)
    ensures InBalance(h[q].balance, way, Height(a), Height(b)) && 1 + Max(Height(a), Height(b)) == Height(c) + 2
    ensures Height(b) > 0 ==> b.Node?
  {
    hide Avl, Nodes, Height, Max, Inorder;
    OpenNode(h, way, a, q, b, p);
    AvlInHeap(h, a, q);
    AvlInHeap(h, b, q);
    AvlInHeap(h, c, p);
  }

  lemma TwiceApart(h: Heap, owner: Links, side: Side, way: Side, p: Links, q: Links, r: Links, a: Tree, b: Tree,
                   c: Tree, d: Tree)
    requires Unbalanced(h, owner, side, way, p, Join(way, a, q, Join(way, b, r, c)), d)
    ensures ApartTwice(h.Keys, owner, p, q, r, a, b, c, d)
    ensures Slot(h[q], Other(way)) == r && Slot(h[r], way) == Root(b) && Slot(h[r], Other(way)) == Root(c)
    ensures InBalance(h[r].balance, way, Height(b), Height(c))
    ensures Height(Join(way, b, r, c)) == 1 + Max(Height(b), Height(c))
  {
    hide Avl, Nodes, Height, Max, Inorder;
    OnceApart(h, owner, side, way, p, q, a, Join(way, b, r, c), d);
    OpenNode(h, way, a, q, Join(way, b, r, c), p);
    OpenNode(h, way, b, r, c, q);
    AvlInHeap(h, b, r);
    AvlInHeap(h, c, r);
  }

  lemma HeavyRoot(h: Heap, heavy: Tree, light: Tree, p: Links)
    requires Avl(h, heavy, p) && Avl(h, light, p) && Height(heavy) == Height(light) + 2
    ensures heavy.Node? && heavy.n in h && heavy.n in Nodes(heavy)
  {
    AvlInHeap(h, heavy, p);
  }

  /** PhpRebalanceAvlLinks, when P's left subtree is the higher one. */
  method RebalanceLeftHeavy(owner: Links, side: Side, P: Links, ghost s: set<Links>, ghost heavy: Tree,
                            ghost light: Tree)
    returns (code: int, ghost t: Tree)
    requires Unbalanced(Snap(s), owner, side, L, P, heavy, light)
    modifies s
    ensures Rebalanced(old(Snap(s)), Snap(s), owner, side, L, P, heavy, light, code, t)
  {
    hide Avl, Nodes, Height, Inorder, Rebalanced, LiftedOnce, LiftedTwice;
    ghost var h := Snap(s);
    HeavyRoot(h, heavy, light, P);
    var Q := P.left;
    ghost var a, b := heavy.l, heavy.r;
    OnceApart(h, owner, side, L, P, Q, a, b, light);
    if Q.balance == -1 {
      LeftLeft(owner, side, P, Q, s, a, b, light);
      code, t := 1, Join(L, a, Q, Join(L, b, P, light));
      OnceRestores(h, Snap(s), owner, side, L, P, Q, a, b, light, code);
    } else if Q.balance == 1 {
      var R := Q.right;
      ghost var b', c' := b.l, b.r;
      TwiceApart(h, owner, side, L, P, Q, R, a, b', c', light);
      LeftRight(owner, side, P, Q, R, s, a, b', c', light);
      code, t := 2, Join(L, Join(L, a, Q, b'), R, Join(L, c', P, light));
      TwiceRestores(h, Snap(s), owner, side, L, P, Q, R, a, b', c', light);
    } else {
      LeftSpecial(owner, side, P, Q, s, a, b, light);
      code, t := 3, Join(L, a, Q, Join(L, b, P, light));
      OnceRestores(h, Snap(s), owner, side, L, P, Q, a, b, light, code);
    }
  }

  /** PhpRebalanceAvlLinks, when P's right subtree is the higher one. */
  method RebalanceRightHeavy(owner: Links, side: Side, P: Links, ghost s: set<Links>, ghost heavy: Tree,
                             ghost light: Tree)
    returns (code: int, ghost t: Tree)
    requires Unbalanced(Snap(s), owner, side, Side.R, P, heavy, light)
    modifies s
    ensures Rebalanced(old(Snap(s)), Snap(s), owner, side, Side.R, P, heavy, light, code, t)
  {
    hide Avl, Nodes, Height, Inorder, Rebalanced, LiftedOnce, LiftedTwice;
    ghost var h := Snap(s);
    HeavyRoot(h, heavy, light, P);
    var Q := P.right;
    ghost var a, b := heavy.r, heavy.l;
    OnceApart(h, owner, side, Side.R, P, Q, a, b, light);
    if Q.balance == 1 {
      RightRight(owner, side, P, Q, s, a, b, light);
      code, t := 1, Join(Side.R, a, Q, Join(Side.R, b, P, light));
      OnceRestores(h, Snap(s), owner, side, Side.R, P, Q, a, b, light, code);
    } else if Q.balance == -1 {
      var R := Q.left;
      ghost var b', c' := b.r, b.l;
      TwiceApart(h, owner, side, Side.R, P, Q, R, a, b', c', light);
      RightLeft(owner, side, P, Q, R, s, a, b', c', light);
      code, t := 2, Join(Side.R, Join(Side.R, a, Q, b'), R, Join(Side.R, c', P, light));
      TwiceRestores(h, Snap(s), owner, side, Side.R, P, Q, R, a, b', c', light);
    } else {
      RightSpecial(owner, side, P, Q, s, a, b, light);
      code, t := 3, Join(Side.R, a, Q, Join(Side.R, b, P, light));
      OnceRestores(h, Snap(s), owner, side, Side.R, P, Q, a, b, light, code);
    }
  }

  /** PhpRebalanceAvlLinks: `way` is the side whose subtree is two higher. */
  method Rebalance(owner: Links, side: Side, ghost s: set<Links>, ghost way: Side, ghost p: Links,
                   ghost heavy: Tree, ghost light: Tree)
    returns (code: int, ghost t: Tree)
    requires Unbalanced(Snap(s), owner, side, way, p, heavy, light)
    modifies s
    ensures Rebalanced(old(Snap(s)), Snap(s), owner, side, way, p, heavy, light, code, t)
  {
    hide Avl, Nodes, Height, Inorder, Rebalanced;
    var P := Deref(owner, side);
    if P.balance == -1 {
      code, t := RebalanceLeftHeavy(owner, side, P, s, heavy, light);
    } else {
      code, t := RebalanceRightHeavy(owner, side, P, s, heavy, light);
    }
  }
}
