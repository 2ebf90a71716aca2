/** PH_AVL_TREE: the operations of phlib/avltree.c against a sorted sequence of elements. */
module AvlTrees {
  import opened AvlShape
  import opened AvlRetrace
  import opened AvlOrder
  import opened AvlWalk
  import opened AvlRemoval
  import opened AvlTour

  class AvlTree {
    /** `Tree->Root`, whose right link is the real root. */
    const root: Links
    /** A ULONG. */
    var count: nat
    const compare: Compare
    ghost var tree: Tree
    ghost var Repr: set<Links>

    /** The elements in the order of the tree. */
    ghost function Elements(): seq<Links>
      reads this
    {
      Inorder(tree)
    }

    ghost predicate Valid()
      reads this, Repr
    {
      && TotalPreorder(compare)
      && Repr == Nodes(tree) + {root}
      && Whole(Snap(Repr), tree, root)
      && Sorted(compare, Elements())
      && count == |Elements()| % 0x1_0000_0000
    }

    /** PhInitializeAvlTree. */
    constructor (compare: Compare)
      requires TotalPreorder(compare)
      ensures Valid() && Elements() == [] && fresh(Repr) && this.compare == compare
    {
      root := new Links(0);
      this.compare := compare;
      count, tree, Repr := 0, Leaf, {root};
    }

    // ------------------------------------------------------------------- searches

    /** PhpFindElementAvlTree.  Without an equal element, the result is the node to hang a new
        one under, and the side it goes on. */
    method FindPosition(element: Record) returns (links: Links, result: int, ghost c: Ctx)
      requires Valid()
      ensures links in Repr
      ensures result == 0 ==> links in Elements() && compare(element, links.record) == 0
      ensures result != 0 ==>
        && At(Snap(Repr), c, Leaf, tree, root) && links == Owner(c) && HoleSide(c) == (if result < 0 then L else R)
        && Between(compare, element, Before(c), After(c))
    {
      hide Avl, Nodes, Height, Inorder, Sorted, TotalPreorder, Before, After, Snap, At, Between;
      ghost var s := Repr;
      ghost var t := tree;
      c := Top(root);
      Start(s, tree, root);
      BetweenNothing(compare, element, root);
      if root.right == null {
        return root, 1, c;
      }
      links := root.right;
      while true
        invariant Root(t) == links && At(Snap(s), c, t, tree, root)
        invariant Between(compare, element, Before(c), After(c))
        decreases t
      {
        Down(s, c, t, tree, root);
        TheOrder(Snap(s), c, t, tree, root);
        result := compare(element, links.record);
        NarrowBetween(compare, element, c, t, Inorder(tree));
        if result == 0 {
          return;
        } else if result < 0 {
          c, t := In(L, t.n, t.r, c), t.l;
          if links.left != null {
            links := links.left;
          } else {
            return links, -1, c;
          }
        } else {
          c, t := In(R, t.n, t.l, c), t.r;
          if links.right != null {
            links := links.right;
          } else {
            return links, 1, c;
          }
        }
      }
    }

    /** PhFindElementAvlTree. */
    method FindElement(element: Record) returns (r: Links?)
      requires Valid()
      ensures r != null ==> r in Elements() && compare(element, r.record) == 0
      ensures r == null ==> forall x :: x in Elements() ==> compare(element, x.record) != 0
    {
      ghost var c;
      var links, result;
      links, result, c := FindPosition(element);
      if result == 0 {
        return links;
      } else {
        BetweenIsNew(compare, element, Before(c), After(c));
        EmptyPlace(Snap(Repr), c, tree, root);
        return null;
      }
    }

    /** PhLowerBoundElementAvlTree: the first element that is greater than or equal. */
    method LowerBound(element: Record) returns (closest: Links?)
      requires Valid()
      ensures LeastNot(compare, Below(compare, element), Elements(), closest)
    {
      hide Avl, Nodes, Height, Inorder, Sorted, TotalPreorder, Before, After, Snap, At, Cut, LeastNot, DownClosed;
      ghost var s, c, t, below := Repr, Top(root), tree, Below(compare, element);
      Start(s, tree, root);
      StartCut(below, root);
      ComparisonsAreCuts(compare, element);
      var links := root.right;
      closest := null;
      while links != null
        invariant Root(t) == links && At(Snap(s), c, t, tree, root)
        invariant Cut(below, Before(c), After(c)) && closest == First(After(c))
        decreases t
      {
        Down(s, c, t, tree, root);
        TheOrder(Snap(s), c, t, tree, root);
        CutBelow(compare, below, c, t, Inorder(tree));
        OrderOfNode(c, t);
        var result := compare(element, links.record);
        if result > 0 {
          c, t, links := In(R, t.n, t.l, c), t.r, links.right;
        } else {
          closest := links;
          c, t, links := In(L, t.n, t.r, c), t.l, links.left;
        }
      }
      EmptyPlace(Snap(s), c, tree, root);
      FirstAfterCut(compare, below, Before(c), After(c));
    }

    /** PhUpperBoundElementAvlTree: the first element that is greater. */
    method UpperBound(element: Record) returns (closest: Links?)
      requires Valid()
      ensures LeastNot(compare, UpTo(compare, element), Elements(), closest)
    {
      hide Avl, Nodes, Height, Inorder, Sorted, TotalPreorder, Before, After, Snap, At, Cut, LeastNot, DownClosed;
      ghost var s, c, t, below := Repr, Top(root), tree, UpTo(compare, element);
      Start(s, tree, root);
      StartCut(below, root);
      ComparisonsAreCuts(compare, element);
      var links := root.right;
      closest := null;
      while links != null
        invariant Root(t) == links && At(Snap(s), c, t, tree, root)
        invariant Cut(below, Before(c), After(c)) && closest == First(After(c))
        decreases t
      {
        Down(s, c, t, tree, root);
        TheOrder(Snap(s), c, t, tree, root);
        CutBelow(compare, below, c, t, Inorder(tree));
        OrderOfNode(c, t);
        var result := compare(element, links.record);
        if result >= 0 {
          c, t, links := In(R, t.n, t.l, c), t.r, links.right;
        } else {
          closest := links;
          c, t, links := In(L, t.n, t.r, c), t.l, links.left;
        }
      }
      EmptyPlace(Snap(s), c, tree, root);
      FirstAfterCut(compare, below, Before(c), After(c));
    }

    /** PhLowerDualBoundElementAvlTree: the last element that is less. */
    method LowerDualBound(element: Record) returns (closest: Links?)
      requires Valid()
      ensures GreatestOf(compare, Below(compare, element), Elements(), closest)
    {
      hide Avl, Nodes, Height, Inorder, Sorted, TotalPreorder, Before, After, Snap, At, Cut, GreatestOf, DownClosed;
      ghost var s, c, t, below := Repr, Top(root), tree, Below(compare, element);
      Start(s, tree, root);
      StartCut(below, root);
      ComparisonsAreCuts(compare, element);
      var links := root.right;
      closest := null;
      while links != null
        invariant Root(t) == links && At(Snap(s), c, t, tree, root)
        invariant Cut(below, Before(c), After(c)) && closest == Last(Before(c))
        decreases t
      {
        Down(s, c, t, tree, root);
        TheOrder(Snap(s), c, t, tree, root);
        CutBelow(compare, below, c, t, Inorder(tree));
        OrderOfNode(c, t);
        var result := compare(element, links.record);
        if result > 0 {
          closest := links;
          c, t, links := In(R, t.n, t.l, c), t.r, links.right;
        } else {
          c, t, links := In(L, t.n, t.r, c), t.l, links.left;
        }
      }
      EmptyPlace(Snap(s), c, tree, root);
      LastBeforeCut(compare, below, Before(c), After(c));
    }

    /** PhUpperDualBoundElementAvlTree: the last element that is less than or equal. */
    method UpperDualBound(element: Record) returns (closest: Links?)
      requires Valid()
      ensures GreatestOf(compare, UpTo(compare, element), Elements(), closest)
    {
      hide Avl, Nodes, Height, Inorder, Sorted, TotalPreorder, Before, After, Snap, At, Cut, GreatestOf, DownClosed;
      ghost var s, c, t, below := Repr, Top(root), tree, UpTo(compare, element);
      Start(s, tree, root);
      StartCut(below, root);
      ComparisonsAreCuts(compare, element);
      var links := root.right;
      closest := null;
      while links != null
        invariant Root(t) == links && At(Snap(s), c, t, tree, root)
        invariant Cut(below, Before(c), After(c)) && closest == Last(Before(c))
        decreases t
      {
        Down(s, c, t, tree, root);
        TheOrder(Snap(s), c, t, tree, root);
        CutBelow(compare, below, c, t, Inorder(tree));
        OrderOfNode(c, t);
        var result := compare(element, links.record);
        if result >= 0 {
          closest := links;
          c, t, links := In(R, t.n, t.l, c), t.r, links.right;
        } else {
          c, t, links := In(L, t.n, t.r, c), t.l, links.left;
        }
      }
      EmptyPlace(Snap(s), c, tree, root);
      LastBeforeCut(compare, below, Before(c), After(c));
    }

    // ---------------------------------------------------------------------- walks

    /** PhMinimumElementAvlTree. */
    method Minimum() returns (links: Links?)
      requires Valid()
      ensures links == First(Elements())
    {
      hide Avl, Nodes, Height, Inorder, Sorted, TotalPreorder, Before, After, Snap, At;
      ghost var s, c, t := Repr, Top(root), tree;
      Start(s, tree, root);
      NothingAbove(c);
      links := root.right;
      if links == null {
        EmptyPlace(Snap(s), c, tree, root);
        return;
      }
      Down(s, c, t, tree, root);
      while links.left != null
        invariant Root(t) == links && links in s && links.left == Root(t.l) && At(Snap(s), c, t, tree, root)
          && Before(c) == []
        decreases t
      {
        Down(s, c, t, tree, root);
        OrderOfNode(c, t);
        c, t, links := In(L, t.n, t.r, c), t.l, links.left;
        Down(s, c, t, tree, root);
      }
      LeftEnd(Snap(s), c, t, tree, root);
    }

    /** PhMaximumElementAvlTree. */
    method Maximum() returns (links: Links?)
      requires Valid()
      ensures links == Last(Elements())
    {
      hide Avl, Nodes, Height, Inorder, Sorted, TotalPreorder, Before, After, Snap, At;
      ghost var s, c, t := Repr, Top(root), tree;
      Start(s, tree, root);
      NothingAbove(c);
      links := root.right;
      if links == null {
        EmptyPlace(Snap(s), c, tree, root);
        return;
      }
      Down(s, c, t, tree, root);
      while links.right != null
        invariant Root(t) == links && links in s && links.right == Root(t.r) && At(Snap(s), c, t, tree, root)
          && After(c) == []
        decreases t
      {
        Down(s, c, t, tree, root);
        OrderOfNode(c, t);
        c, t, links := In(R, t.n, t.l, c), t.r, links.right;
        Down(s, c, t, tree, root);
      }
      RightEnd(Snap(s), c, t, tree, root);
    }

    /** PhSuccessorElementAvlTree.  It needs no pointer to the tree: past the last element the
        walk goes through the sentinel to its null parent. */
    method Successor(element0: Links) returns (links: Links?)
      requires Valid() && element0 in Elements()
      ensures IsNext(Elements(), element0, links)
    {
      hide Avl, Nodes, Height, Inorder, Sorted, TotalPreorder, Before, After, Snap, At, NextTo, IsNext;
      ghost var s := Repr;
      ghost var c, l, r := Find(s, tree, root, element0, compare);
      ghost var t, before, after := Node(l, element0, r), Before(c) + Inorder(l), Inorder(r) + After(c);
      Start(s, tree, root);
      Down(s, c, t, tree, root);
      Up(s, c, t, tree, root);
      NextIs(Elements(), before, element0, after);
      var element := element0;
      if element.right != null {
        OrderOfNode(c, t);
        c, t, element := In(R, t.n, t.l, c), t.r, element.right;
        Down(s, c, t, tree, root);
        while element.left != null
          invariant Root(t) == element && element in s && element.left == Root(t.l) && At(Snap(s), c, t, tree, root)
          invariant Inorder(t) + After(c) == after
          decreases t
        {
          OrderOfNode(c, t);
          Down(s, c, t, tree, root);
          c, t, element := In(L, t.n, t.r, c), t.l, element.left;
          Down(s, c, t, tree, root);
        }
        LeftmostFirst(c, t);
        return element;
      } else {
        EmptyRight(c, t);
        links := element.parent;
        while links != null && links.right == element
          invariant links != null ==>
            && t.Node? && t.n == element && At(Snap(s), c, t, tree, root) && links == Owner(c) && links in s
            && After(c) == after
            && (links.right == element <==> HoleSide(c).R?) && (c.Top? ==> links == root)
          invariant links == null ==> after == []
          decreases if links == null then Top(root) else c, links != null
        {
          Up(s, c, t, tree, root);
          if c.In? {
            OrderAbove(c, t);
            ghost var t' := Join(c.side, t, c.n, c.sibling);
            Up(s, c.up, t', tree, root);
            c, t := c.up, t';
          } else {
            NothingAbove(c);
          }
          element := links;
          links := links.parent;
        }
        if links != null { OrderAbove(c, t); }
      }
    }

    /** PhPredecessorElementAvlTree. */
    method Predecessor(element0: Links) returns (links: Links?)
      requires Valid() && element0 in Elements()
      ensures IsPrevious(Elements(), element0, links)
    {
      hide Avl, Nodes, Height, Inorder, Sorted, TotalPreorder, Before, After, Snap, At, NextTo, IsPrevious;
      ghost var s := Repr;
      ghost var c, l, r := Find(s, tree, root, element0, compare);
      ghost var t, before, after := Node(l, element0, r), Before(c) + Inorder(l), Inorder(r) + After(c);
      Start(s, tree, root);
      Down(s, c, t, tree, root);
      Up(s, c, t, tree, root);
      PreviousIs(Elements(), before, element0, after);
      var element := element0;
      if element.left != null {
        OrderOfNode(c, t);
        c, t, element := In(L, t.n, t.r, c), t.l, element.left;
        Down(s, c, t, tree, root);
        while element.right != null
          invariant Root(t) == element && element in s && element.right == Root(t.r) && At(Snap(s), c, t, tree, root)
          invariant Before(c) + Inorder(t) == before
          decreases t
        {
          OrderOfNode(c, t);
          Down(s, c, t, tree, root);
          c, t, element := In(R, t.n, t.l, c), t.r, element.right;
          Down(s, c, t, tree, root);
        }
        RightmostLast(c, t);
        return element;
      } else {
        EmptyLeft(c, t);
        links := element.parent;
        while links != null && links.left == element
          invariant links != null && t.Node? && t.n == element && At(Snap(s), c, t, tree, root) && links == Owner(c)
            && links in s
          invariant Before(c) == before
          invariant (links.left == element <==> HoleSide(c).L?) && (c.Top? ==> links == root)
          decreases c
        {
          Up(s, c, t, tree, root);
          OrderAbove(c, t);
          ghost var t' := Join(c.side, t, c.n, c.sibling);
          Up(s, c.up, t', tree, root);
          c, t := c.up, t';
          element := links;
          links := links.parent;
        }
        Up(s, c, t, tree, root);
        if c.In? { OrderAbove(c, t); } else { NothingAbove(c); }
        if links != null {
          // the real root hangs off the sentinel's right link, not its left one
          if links.parent == null { return null; }
        }
      }
    }

    /** PhEnumAvlTree: every element once, in order or in reverse order, until the callback
        says stop.  The callback may depend on everything it has seen. */
    method EnumTree(order: Side, callback: seq<Links> -> bool) returns (visited: seq<Links>)
      requires Valid() && |Elements()| <= 0x1_0000_0000
      ensures UntilStopped(if order.L? then Elements() else Reversed(Elements()), visited, callback)
    {
      hide Avl, Nodes, Inorder, Sorted, Reversed, UntilStopped, Tour;
      Start(Repr, tree, root);
      HeightLimit(Snap(Repr), tree, root);
      TourIsInorder(tree);
      assert Held(Snap(Repr), tree) by { WholeIsHeld(Snap(Repr), tree, root); }
      visited := Enumerate(order, root.right, callback, Repr, tree);
    }

    // -------------------------------------------------------------------- changes

    /** PhAddElementAvlTree. */
    method Add(element: Links) returns (existing: Links?)
      requires Valid() && element !in Repr
      modifies this, Repr, element
      ensures Valid() && Repr == old(Repr) + (if existing == null then {element} else {})
      ensures existing != null ==>
        && unchanged(this, element) && Snap(Repr) == old(Snap(Repr))
        && existing in Elements() && compare(element.record, existing.record) == 0
      ensures existing == null ==>
        && Elements() == InsertSorted(compare, old(Elements()), element)
        && count == (old(count) + 1) % 0x1_0000_0000
        && (forall x :: x in old(Elements()) ==> compare(element.record, x.record) != 0)
    {
      hide Avl, Nodes, Height, Inorder, Sorted, TotalPreorder, Before, After, AvlCtx, Between, InsertSorted, Climbing;
      hide Plug, Snap, At, Whole, Opened, Cut, Less, CtxNodes, Sentinel, Owner, HoleSide;
      var P, result;
      ghost var c;
      P, result, c := FindPosition(element.record);
      ghost var s := Repr;
      if result != 0 {
        BetweenIsNew(compare, element.record, Before(c), After(c));
        EmptyPlace(Snap(s), c, tree, root);
        AddInOrder(compare, Before(c), element, After(c));
      }
      if result == 0 {
        return P;
      }
      ghost var order := Before(c) + [element] + After(c);
      Attach(P, result, element, s, c, tree, root);
      ghost var code;
      Repr := s + {element};
      code, tree := RetraceAdd(element, root, Repr, c, order);
      count := (count + 1) % 0x1_0000_0000;
      return null;
    }

    /** The node that PhRemoveElementAvlTree unlinks in place of `element`: `element` itself if
        it has at most one child, otherwise a neighbour in the sequence, which has none or one. */
    method PickReplacement(element: Links)
      returns (newElement: Links, ghost c: Ctx, ghost side: Side, ghost child: Tree)
      requires Valid() && element in Elements()
      ensures At(Snap(Repr), c, Join(side, child, newElement, Leaf), tree, root)
      ensures newElement != element ==> (if side.R? then Last(Before(c)) else First(After(c))) == element
      ensures element in Repr
      ensures if element.left == null || element.right == null then newElement == element
              else if element.balance >= 0 then IsNext(Elements(), element, newElement)
              else IsPrevious(Elements(), element, newElement)
    {
      hide Avl, Nodes, Height, Inorder, Sorted, TotalPreorder, Before, After, Snap, At, NextTo, IsNext, IsPrevious;
      ghost var s := Repr;
      ghost var l, r;
      c, l, r := Find(s, tree, root, element, compare);
      ghost var t, before, after := Node(l, element, r), Before(c) + Inorder(l), Inorder(r) + After(c);
      NextIs(Elements(), before, element, after);
      PreviousIs(Elements(), before, element, after);
      Down(s, c, t, tree, root);
      OrderOfNode(c, t);
      newElement := element;
      if element.left == null || element.right == null {
        side, child := if r.Leaf? then L else Side.R, if r.Leaf? then l else r;
      } else if element.balance >= 0 {
        c, t, newElement := In(R, t.n, t.l, c), t.r, element.right;
        Down(s, c, t, tree, root);
        while newElement.left != null
          invariant Root(t) == newElement && newElement in s && newElement.left == Root(t.l)
            && At(Snap(s), c, t, tree, root)
          invariant Last(Before(c)) == element && Inorder(t) + After(c) == after
          decreases t
        {
          OrderOfNode(c, t);
          Down(s, c, t, tree, root);
          c, t, newElement := In(L, t.n, t.r, c), t.l, newElement.left;
          Down(s, c, t, tree, root);
        }
        LeftmostFirst(c, t);
        side, child := Side.R, t.r;
      } else {
        c, t, newElement := In(L, t.n, t.r, c), t.l, element.left;
        Down(s, c, t, tree, root);
        while newElement.right != null
          invariant Root(t) == newElement && newElement in s && newElement.right == Root(t.r)
            && At(Snap(s), c, t, tree, root)
          invariant First(After(c)) == element && Before(c) + Inorder(t) == before
          decreases t
        {
          OrderOfNode(c, t);
          Down(s, c, t, tree, root);
          c, t, newElement := In(R, t.n, t.l, c), t.r, newElement.right;
          Down(s, c, t, tree, root);
        }
        RightmostLast(c, t);
        side, child := L, t.l;
      }
    }

    /** PhRemoveElementAvlTree. */
    method Remove(element: Links)
      requires Valid() && element in Elements()
      modifies this, Repr
      ensures Valid() && Repr == old(Repr) - {element}
      ensures Elements() == Without(old(Elements()), element)
      ensures count == (old(count) + 0xFFFF_FFFF) % 0x1_0000_0000
    {
      hide Avl, Nodes, Height, Inorder, Sorted, TotalPreorder, At, Without, Join, Snap, Whole, Last, First;
      ghost var s, all := Repr, Elements();
      ghost var c, side, child;
      var newElement;
      newElement, c, side, child := PickReplacement(element);
      tree := RemoveLinks(element, newElement, root, compare, s, c, side, child, tree);
      Repr := s - {element};
      count := (count + 0xFFFF_FFFF) % 0x1_0000_0000;
      CountWithout(all, element);
    }
  }
}
