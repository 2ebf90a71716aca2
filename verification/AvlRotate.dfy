/** The four rotations and PhpRebalanceAvlLinks of phlib/avltree.c, in place.
    A `PPH_AVL_LINKS *Root` is a link field: its owner and the side it is on. */
module AvlRotate {
  import opened AvlShape

  /** Reads `*Root`. */
  function Deref(owner: Links, side: Side): Links?
    reads owner
  {
    if side.L? then owner.left else owner.right
  }

  /** The parts of a link that a rotation leaves alone. */
  twostate predicate SameBut(n: Links, parent: Links?, left: Links?, right: Links?)
    reads n
  {
    n.parent == parent && n.left == left && n.right == right && n.balance == old(n.balance)
  }

  /** Only the link `*Root` of its owner changes, to `child`. */
  twostate predicate Redirected(owner: Links, side: Side, child: Links)
    reads owner
  {
    && owner.left == (if side.L? then child else old(owner.left))
    && owner.right == (if side.R? then child else old(owner.right))
    && owner.parent == old(owner.parent) && owner.balance == old(owner.balance)
  }

  /** A subtree's root, if there is one, gets another parent. */
  twostate predicate Moved(n: Links?, parent: Links)
    reads n
  {
    n != null ==> SameBut(n, parent, old(n.left), old(n.right))
  }

  predicate Distinct(owner: Links, p: Links, q: Links, b: Links?) {
    owner != p && owner != q && p != q && b != owner && b != p && b != q
  }

  /** PhpRotateLeftAvlLinks: P (A, Q (B, C)) becomes Q (P (A, B), C). */
  method RotateLeft(owner: Links, side: Side, ghost p: Links, ghost q: Links, ghost b: Links?)
    requires Deref(owner, side) == p && p.parent == owner && p.right == q && q.left == b
    requires Distinct(owner, p, q, b)
    modifies owner, p, q, b
    ensures Redirected(owner, side, q)
    ensures SameBut(q, owner, p, old(q.right)) && SameBut(p, q, old(p.left), b) && Moved(b, p)
  {
    var P := Deref(owner, side);
    var Q := P.right;
    if side.L? { owner.left := Q; } else { owner.right := Q; }
    Q.parent := P.parent;
    P.right := Q.left;
    if P.right != null { P.right.parent := P; }
    Q.left := P;
    P.parent := Q;
  }

  /** PhpRotateRightAvlLinks: Q (P (A, B), C) becomes P (A, Q (B, C)). */
  method RotateRight(owner: Links, side: Side, ghost q: Links, ghost p: Links, ghost b: Links?)
    requires Deref(owner, side) == q && q.parent == owner && q.left == p && p.right == b
    requires Distinct(owner, p, q, b)
    modifies owner, p, q, b
    ensures Redirected(owner, side, p)
    ensures SameBut(p, owner, old(p.left), q) && SameBut(q, p, b, old(q.right)) && Moved(b, q)
  {
    var Q := Deref(owner, side);
    var P := Q.left;
    if side.L? { owner.left := P; } else { owner.right := P; }
    P.parent := Q.parent;
    Q.left := P.right;
    if Q.left != null { Q.left.parent := Q; }
    P.right := Q;
    Q.parent := P;
  }

  predicate DistinctTwice(owner: Links, p: Links, q: Links, r: Links, b: Links?, c: Links?) {
    && Distinct(owner, p, q, b) && Distinct(owner, p, q, c) && Distinct(owner, p, q, r)
    && b != r && c != r && (b != null ==> b != c)
  }

  /** PhpRotateLeftTwiceAvlLinks: P (A, Q (R (B, C), D)) becomes R (P (A, B), Q (C, D)). */
  method RotateLeftTwice(owner: Links, side: Side, ghost p: Links, ghost q: Links, ghost r: Links,
                         ghost b: Links?, ghost c: Links?)
    requires Deref(owner, side) == p && p.parent == owner && p.right == q && q.left == r && r.left == b && r.right == c
    requires DistinctTwice(owner, p, q, r, b, c)
    modifies owner, p, q, r, b, c
    ensures Redirected(owner, side, r)
    ensures SameBut(r, owner, p, q) && SameBut(p, r, old(p.left), b) && SameBut(q, r, c, old(q.right))
    ensures Moved(b, p) && Moved(c, q)
  {
    var P := Deref(owner, side);
    var Q := P.right;
    var R := Q.left;
    if side.L? { owner.left := R; } else { owner.right := R; }
    R.parent := P.parent;
    Q.left := R.right;
    if Q.left != null { Q.left.parent := Q; }
    R.right := Q;
    Q.parent := R;
    P.right := R.left;
    if P.right != null { P.right.parent := P; }
    R.left := P;
    P.parent := R;
  }

  /** PhpRotateRightTwiceAvlLinks: P (Q (A, R (B, C)), D) becomes R (Q (A, B), P (C, D)). */
  method RotateRightTwice(owner: Links, side: Side, ghost p: Links, ghost q: Links, ghost r: Links,
                          ghost b: Links?, ghost c: Links?)
    requires Deref(owner, side) == p && p.parent == owner && p.left == q && q.right == r && r.left == b && r.right == c
    requires DistinctTwice(owner, p, q, r, b, c)
    modifies owner, p, q, r, b, c
    ensures Redirected(owner, side, r)
    ensures SameBut(r, owner, q, p) && SameBut(p, r, c, old(p.right)) && SameBut(q, r, old(q.left), b)
    ensures Moved(b, q) && Moved(c, p)
  {
    var P := Deref(owner, side);
    var Q := P.left;
    var R := Q.right;
    if side.L? { owner.left := R; } else { owner.right := R; }
    R.parent := P.parent;
    Q.right := R.left;
    if Q.right != null { Q.right.parent := Q; }
    R.left := Q;
    Q.parent := R;
    P.left := R.right;
    if P.left != null { P.left.parent := P; }
    R.right := P;
    P.parent := R;
  }

  // ------------------------------------------------------- what a rotation means

  /** What a single rotation builds on the heavy side `way`: Q above A and P, P above B and C. */
  ghost predicate Single(h: Heap, owner: Links, way: Side, p: Links, q: Links, a: Tree, b: Tree, c: Tree) {
    && p in h && q in h && h[q].parent == owner && h[p].parent == q
    && Slot(h[q], way) == Root(a) && Slot(h[q], Other(way)) == p
    && Slot(h[p], way) == Root(b) && Slot(h[p], Other(way)) == Root(c)
    && Avl(h, a, q) && Avl(h, b, p) && Avl(h, c, p)
    && InBalance(h[p].balance, way, Height(b), Height(c))
    && InBalance(h[q].balance, way, Height(a), 1 + Max(Height(b), Height(c)))
  }

  lemma SingleIsAvl(h: Heap, owner: Links, way: Side, p: Links, q: Links, a: Tree, b: Tree, c: Tree)
    requires Single(h, owner, way, p, q, a, b, c)
    requires p != q && p !in Nodes(a) + Nodes(b) + Nodes(c) && q !in Nodes(a) + Nodes(b) + Nodes(c)
    requires Nodes(a) !! Nodes(b) && Nodes(a) !! Nodes(c) && Nodes(b) !! Nodes(c)
    ensures Avl(h, Join(way, a, q, Join(way, b, p, c)), owner)
  {
    hide Avl, Nodes, Height, Max, Join, Root;
    MakeNode(h, way, b, p, c, q);
    MakeNode(h, way, a, q, Join(way, b, p, c), owner);
  }

  /** What a double rotation builds: R above Q and P, with A, B, C and D below those. */
  ghost predicate Double(h: Heap, owner: Links, way: Side, p: Links, q: Links, r: Links, a: Tree, b: Tree, c: Tree,
                         d: Tree) {
    && p in h && q in h && r in h && h[r].parent == owner && h[q].parent == r && h[p].parent == r
    && Slot(h[r], way) == q && Slot(h[r], Other(way)) == p
    && Slot(h[q], way) == Root(a) && Slot(h[q], Other(way)) == Root(b)
    && Slot(h[p], way) == Root(c) && Slot(h[p], Other(way)) == Root(d)
    && Avl(h, a, q) && Avl(h, b, q) && Avl(h, c, p) && Avl(h, d, p)
    && InBalance(h[q].balance, way, Height(a), Height(b))
    && InBalance(h[p].balance, way, Height(c), Height(d))
    && InBalance(h[r].balance, way, 1 + Max(Height(a), Height(b)), 1 + Max(Height(c), Height(d)))
  }

  lemma DoubleIsAvl(h: Heap, owner: Links, way: Side, p: Links, q: Links, r: Links, a: Tree, b: Tree, c: Tree, d: Tree)
    requires Double(h, owner, way, p, q, r, a, b, c, d)
    requires p != q && p != r && q != r
    requires {p, q, r} !! Nodes(a) + Nodes(b) + Nodes(c) + Nodes(d)
    requires Nodes(a) !! Nodes(b) && Nodes(a) !! Nodes(c) && Nodes(a) !! Nodes(d)
    requires Nodes(b) !! Nodes(c) && Nodes(b) !! Nodes(d) && Nodes(c) !! Nodes(d)
    ensures Avl(h, Join(way, Join(way, a, q, b), r, Join(way, c, p, d)), owner)
  {
    hide Avl, Nodes, Height, Max, Join, Root;
    MakeNode(h, way, a, q, b, r);
    MakeNode(h, way, c, p, d, r);
    MakeNode(h, way, Join(way, a, q, b), r, Join(way, c, p, d), owner);
  }
}
