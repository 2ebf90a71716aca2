/** In-order and reverse enumeration with the explicit stack of PhEnumAvlTree
    (phlib/avltree.c). */
module AvlTour {
  import opened AvlShape
  import opened AvlRetrace

  function Near(side: Side, t: Tree): Tree
    requires t.Node?
  {
    if side.L? then t.l else t.r
  }

  /** All elements, those on `side` first. */
  ghost function Tour(side: Side, t: Tree): seq<Links>
    decreases t
  {
    if t.Leaf? then [] else Tour(side, Near(side, t)) + [t.n] + Tour(side, Near(Other(side), t))
  }

  ghost function Reversed(s: seq<Links>): seq<Links> {
    if s == [] then [] else Reversed(s[1..]) + [s[0]]
  }

  lemma {:induction false} ReversedAppend(a: seq<Links>, b: seq<Links>)
    ensures Reversed(a + b) == Reversed(b) + Reversed(a)
  {
    if a == [] {
      assert a + b == b;
    } else {
      assert (a + b)[0] == a[0] && (a + b)[1..] == a[1..] + b;
      ReversedAppend(a[1..], b);
    }
  }

  lemma {:induction false} TourIsInorder(t: Tree)
    ensures Tour(L, t) == Inorder(t) && Tour(R, t) == Reversed(Inorder(t))
  {
    if t.Node? {
      TourIsInorder(t.l);
      TourIsInorder(t.r);
      ReversedAppend(Inorder(t.l), [t.n]);
      ReversedAppend(Inorder(t.l) + [t.n], Inorder(t.r));
      assert Reversed([t.n]) == [t.n];
    }
  }

  /** What the pending nodes of the stack, last on top, still have to deliver: each one itself
      and then its far side. */
  ghost function Rest(side: Side, ts: seq<Tree>): seq<Links> {
    if ts == [] then [] else
    var t := ts[|ts| - 1];
    (if t.Leaf? then [] else [t.n] + Tour(side, Near(Other(side), t))) + Rest(side, ts[..|ts| - 1])
  }

  ghost predicate Held(h: Heap, t: Tree) {
    t.Node? ==> t.n in h && Avl(h, t, h[t.n].parent)
  }

  lemma WholeIsHeld(h: Heap, tree: Tree, root: Links)
    requires Whole(h, tree, root)
    ensures Held(h, tree)
  {
  }

  /** The subtrees on the stack get lower and lower, so that the stack never gets longer than
      the tree is high. */
  ghost predicate Pending(h: Heap, ts: seq<Tree>, height: int) {
    forall i :: 0 <= i < |ts| ==> ts[i].Node? && Held(h, ts[i]) && Height(ts[i]) <= height - i
  }

  /** The nodes on the stack. */
  ghost predicate OnStack(ts: seq<Tree>, entries: seq<Links?>) {
    |entries| == |ts| && forall i :: 0 <= i < |ts| ==> ts[i].Node? && entries[i] == ts[i].n
  }

  lemma HeldChildren(s: set<Links>, side: Side, t: Tree)
    requires Held(Snap(s), t) && t.Node?
    ensures t.n in s && Height(t) >= 1
    ensures (if side.L? then t.n.left else t.n.right) == Root(Near(side, t))
    ensures Held(Snap(s), Near(side, t)) && Height(Near(side, t)) < Height(t)
  {
    var h := Snap(s);
    assert Avl(h, t.l, t.n) && Avl(h, t.r, t.n);
    AvlInHeap(h, t.l, t.n);
    AvlInHeap(h, t.r, t.n);
    assert t.l.Node? ==> h[t.l.n].parent == t.n;
    assert t.r.Node? ==> h[t.r.n].parent == t.n;
  }

  lemma RestPushed(side: Side, ts: seq<Tree>, t: Tree)
    requires t.Node?
    ensures Rest(side, ts + [t]) == [t.n] + Tour(side, Near(Other(side), t)) + Rest(side, ts)
    ensures Tour(side, t) + Rest(side, ts) == Tour(side, Near(side, t)) + Rest(side, ts + [t])
  {
    assert (ts + [t])[..|ts|] == ts;
  }

  lemma RestPopped(side: Side, ts: seq<Tree>)
    requires ts != [] && ts[|ts| - 1].Node?
    ensures var t, ts' := ts[|ts| - 1], ts[..|ts| - 1];
      Rest(side, ts) == [t.n] + (Tour(side, Near(Other(side), t)) + Rest(side, ts'))
  {
  }

  /** `visited` is all of `tour`, or the part of it up to where the callback says stop. */
  ghost predicate UntilStopped(tour: seq<Links>, visited: seq<Links>, goesOn: seq<Links> -> bool) {
    && visited <= tour
    && (forall k :: 0 < k < |visited| ==> goesOn(visited[..k]))
    && (visited != tour ==> visited != [] && !goesOn(visited))
  }

  ghost predicate GoingOn(visited: seq<Links>, goesOn: seq<Links> -> bool) {
    forall k :: 0 < k <= |visited| ==> goesOn(visited[..k])
  }

  lemma VisitNext(tour: seq<Links>, visited: seq<Links>, n: Links, rest: seq<Links>, goesOn: seq<Links> -> bool)
    requires tour == visited + ([n] + rest) && GoingOn(visited, goesOn)
    ensures goesOn(visited + [n]) ==> GoingOn(visited + [n], goesOn)
    ensures !goesOn(visited + [n]) ==> UntilStopped(tour, visited + [n], goesOn)
    ensures tour == (visited + [n]) + rest
  {
    var visited' := visited + [n];
    assert forall k :: 0 < k <= |visited| ==> visited'[..k] == visited[..k];
    assert visited'[..|visited'|] == visited';
  }

  lemma VisitedAll(tour: seq<Links>, goesOn: seq<Links> -> bool)
    requires GoingOn(tour, goesOn)
    ensures UntilStopped(tour, tour, goesOn)
  {
  }

  /** `while (links) { *stack++ = links; links = links->Left; }`, and its mirror image.  The
      stack has 47 slots; no index below is out of range. */
  method PushSide(side: Side, links0: Links?, stackBase: array<Links?>, stack0: nat,
                  ghost s: set<Links>, ghost t0: Tree, ghost ts0: seq<Tree>)
    returns (stack: nat, ghost ts: seq<Tree>)
    requires stackBase.Length == 47 && stack0 <= 47 && OnStack(ts0, stackBase[..stack0])
    requires links0 == Root(t0) && Held(Snap(s), t0) && Pending(Snap(s), ts0, 45)
    requires Height(t0) <= 45 - |ts0|
    modifies stackBase
    ensures stack <= 47 && OnStack(ts, stackBase[..stack]) && Pending(Snap(s), ts, 45)
    ensures Rest(side, ts) == Tour(side, t0) + Rest(side, ts0)
  {
    hide Avl, Height, Tour, Rest, Held, Snap, Inorder;
    var links := links0;
    ghost var t := t0;
    stack, ts := stack0, ts0;
    while links != null
      invariant stack <= 47 && OnStack(ts, stackBase[..stack]) && Pending(Snap(s), ts, 45)
      invariant links == Root(t) && Held(Snap(s), t) && Height(t) <= 45 - |ts|
      invariant Tour(side, t) + Rest(side, ts) == Tour(side, t0) + Rest(side, ts0)
      decreases t
    {
      HeldChildren(s, side, t);
      RestPushed(side, ts, t);
      stackBase[stack] := links;
      stack, ts := stack + 1, ts + [t];
      links := if side.L? then links.left else links.right;
      t := Near(side, t);
    }
    NothingHere(side);
  }

  lemma NothingHere(side: Side)
    ensures Tour(side, Leaf) == [] && Rest(side, []) == []
  {
  }

  /** PhEnumAvlTree for one order: the side that comes first is `side`. */
  method Enumerate(side: Side, first: Links?, callback: seq<Links> -> bool, ghost s: set<Links>, ghost tree: Tree)
    returns (visited: seq<Links>)
    requires first == Root(tree) && Held(Snap(s), tree) && Height(tree) <= 45
    ensures UntilStopped(Tour(side, tree), visited, callback)
  {
    hide Avl, Height, Tour, Rest, Held, Snap, Inorder, GoingOn, UntilStopped;
    NothingVisited(callback);
    NothingHere(side);
    var stackBase := new Links?[47];
    ghost var ts: seq<Tree> := [];
    var stack: nat;
    stack, ts := PushSide(side, first, stackBase, 0, s, tree, []);
    visited := [];
    while stack != 0
      invariant stack <= 47 && OnStack(ts, stackBase[..stack]) && Pending(Snap(s), ts, 45)
      invariant Tour(side, tree) == visited + Rest(side, ts)
      invariant GoingOn(visited, callback)
      decreases |Rest(side, ts)|
    {
      stack := stack - 1;
      var links := stackBase[stack];
      ghost var t := ts[|ts| - 1];
      RestPopped(side, ts);
      HeldChildren(s, Other(side), t);
      VisitNext(Tour(side, tree), visited, links, Tour(side, Near(Other(side), t)) + Rest(side, ts[..|ts| - 1]),
                callback);
      visited := visited + [links];
      if !callback(visited) {
        return;
      }
      stack, ts := PushSide(side, if side.L? then links.right else links.left, stackBase, stack, s,
                            Near(Other(side), t), ts[..|ts| - 1]);
    }
    assert ts == [] && visited == Tour(side, tree);
    VisitedAll(visited, callback);
  }

  lemma NothingVisited(goesOn: seq<Links> -> bool)
    ensures GoingOn([], goesOn)
  {
  }
}
