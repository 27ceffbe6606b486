/** What a caller of creation and deletion can rely on: survivors, descent, levels and depth. */
module DeletionLaws {
  import opened Forests
  import opened Surgery
  import opened IdentityTree
  import opened TreeLaws

  /** Deleting a node below `p` removes from the tree exactly that node and the subtrees of the children
      `p` has no place for.  The first children, as many as fit, follow the siblings in order. */
  lemma DeleteBelowParent<R>(s: TreeState<R>, key: string, x: R, p: R, cap: nat)
    requires WellFormed(s, cap) && Lookup(s, key) == Some(x) && ParentOf(s.reach, x, None) == Some(p)
    ensures Delete(s, key, cap).Some?
    ensures var s' := Delete(s, key, cap).value;
            var kids, siblings := KidsOf(s.reach, x), KidsOf(s.reach, p);
            var room := cap - (Len(siblings) - 1);
            var first, out := Adopted(s.reach, p, x, cap), LeftOut(s.reach, p, x, cap);
            && kids == Append(first, out) && Len(first) == (if Len(kids) < room then Len(kids) else room) && room >= 1
            && s'.total == s.total - 1
            && s'.detached == Append(s.detached, out)
            && Nodes(s'.reach) == Nodes(s.reach) - {x} - Nodes(out)
            && Roots(KidsOf(s'.reach, p)) == Roots(Remove(siblings, x)) + Roots(first)
            && s'.info == MarkRoots(s.info - {x}, Roots(out))
  {
    hide Nodes, Distinct, Size, KidsOf, SetKids, ParentOf, Append, Roots, Remove, Take, Drop, Bounded, Len, Lookup;
    LookupSound(s, key, cap);
    AllFacts(s, cap);
    ParentIsChild(s.reach, p, x);
    DeleteChildNodes(s, x, p, cap);
    CutNodes(s.reach, p, x, cap);
    CutBounded(s.reach, p, x, cap);
    ChildFacts(s.reach, p, x);
    KidsBounded(s.reach, p, cap);
    SplitFacts(s.reach, p, x, cap);
    ParentSurvives(s.reach, p, x, cap);
    CutAt(s.reach, p, x, cap, p);
  }

  lemma ParentSurvives<R>(f: Forest<R>, p: R, x: R, cap: nat)
    requires Child(f, p, x)
    ensures p in Nodes(Cut(f, p, x, cap))
  {
    CutNodes(f, p, x, cap);
    ChildFacts(f, p, x);
    SplitFacts(f, p, x, cap);
  }

  /** Among the survivors descent is unchanged; descendants of the deleted node rise by one level and
      nobody else moves. */
  lemma SurvivorsKeepPlace<R>(s: TreeState<R>, key: string, x: R, p: R, cap: nat, m: R, n: R)
    requires WellFormed(s, cap) && Lookup(s, key) == Some(x) && ParentOf(s.reach, x, None) == Some(p)
    requires Delete(s, key, cap).Some?
    requires m in Nodes(Delete(s, key, cap).value.reach) && n in Nodes(Delete(s, key, cap).value.reach)
    ensures var f' := Delete(s, key, cap).value.reach;
            && (Ancestor(f', m, n) <==> Ancestor(s.reach, m, n))
            && Level(f', n) == Level(s.reach, n) - (if Ancestor(s.reach, x, n) then 1 else 0)
  {
    LookupSound(s, key, cap);
    AllFacts(s, cap);
    ParentIsChild(s.reach, p, x);
    CutKeepsAncestors(s.reach, p, x, cap, m, n);
    CutAt(s.reach, p, x, cap, n);
  }

  // ----- Depth -----

  lemma LevelBelowDepth<D>(f: Forest<D>, n: D)
    requires n in Nodes(f)
    ensures Level(f, n) < Depth(f)
  {
  }

  /** Depth is one more than the greatest level: no node is deeper, and some node is that deep. */
  lemma {:induction false} DeepestNode<D>(f: Forest<D>) returns (n: D)
    requires Distinct(f) && f.Cons?
    ensures n in Nodes(f) && Level(f, n) + 1 == Depth(f)
    ensures forall m :: m in Nodes(f) ==> Level(f, m) <= Level(f, n)
  {
    var Cons(d, k, r) := f;
    n := d;
    if 1 + Depth(k) > Depth(r) {
      if k.Cons? {
        n := DeepestNode(k);
      }
    } else {
      n := DeepestNode(r);
    }
    forall m | m in Nodes(f) ensures Level(f, m) <= Level(f, n) {
      LevelBelowDepth(f, m);
    }
  }

  /** The size of a full tree of the given depth in which every node has `cap` children. */
  function FullSize(cap: nat, depth: nat): nat {
    if depth == 0 then 0 else 1 + cap * FullSize(cap, depth - 1)
  }

  lemma {:induction false} FullSizeGrows(cap: nat, a: nat, b: nat)
    requires a <= b
    ensures FullSize(cap, a) <= FullSize(cap, b)
  {
    if a > 0 {
      FullSizeGrows(cap, a - 1, b - 1);
      Scale(cap, cap, FullSize(cap, a - 1), FullSize(cap, b - 1));
    }
  }

  lemma {:induction false} DepthAtMostSize<D>(f: Forest<D>)
    ensures Depth(f) <= Size(f)
  {
    if f.Cons? {
      DepthAtMostSize(f.kids);
      DepthAtMostSize(f.rest);
    }
  }

  lemma {:induction false} SizeAtMostFull<D>(f: Forest<D>, cap: nat)
    requires Bounded(f, cap)
    ensures Size(f) <= Len(f) * FullSize(cap, Depth(f))
  {
    if f.Cons? {
      var Cons(d, k, r) := f;
      SizeAtMostFull(k, cap);
      SizeAtMostFull(r, cap);
      FullSizeGrows(cap, Depth(k), Depth(f) - 1);
      FullSizeGrows(cap, Depth(r), Depth(f));
      OneMoreTree(Len(k), Len(r), cap, FullSize(cap, Depth(k)), FullSize(cap, Depth(r)),
                  FullSize(cap, Depth(f) - 1), FullSize(cap, Depth(f)));
    }
  }

  lemma OneMoreTree(k: nat, r: nat, cap: nat, x: nat, y: nat, a: nat, b: nat)
    requires k <= cap && x <= a && y <= b && b == 1 + cap * a
    ensures 1 + k * x + r * y <= (1 + r) * b
  {
    Scale(k, cap, x, a);
    Scale(r, r, y, b);
    assert (1 + r) * b == b + r * b;
  }

  lemma Scale(a: nat, b: nat, x: nat, y: nat)
    requires a <= b && x <= y
    ensures a * x <= b * y
  {
    assert a * x <= b * x && b * x <= b * y;
  }

  /** A tree with at most `cap` children a node holds no more nodes than the full tree of its depth. */
  lemma TreeSizeBounds<R>(s: TreeState<R>, cap: nat)
    requires WellFormed(s, cap)
    ensures Depth(s.reach) <= Size(s.reach) <= FullSize(cap, Depth(s.reach))
  {
    AllFacts(s, cap);
    DepthAtMostSize(s.reach);
    SizeAtMostFull(s.reach, cap);
    if s.reach.Cons? {
      assert Len(s.reach) == 1;
    }
  }

  /** Creating a node deepens the tree by at most one level. */
  lemma CreateDepth<D>(f: Forest<D>, p: D, x: D)
    requires Distinct(f) && p in Nodes(f) && x !in Nodes(f)
    ensures Depth(f) <= Depth(AddChild(f, p, x)) <= Depth(f) + 1
  {
    var f' := AddChild(f, p, x);
    AddChildFits(f, p, x);
    assert f.Cons? && x in Nodes(f');
    var n := DeepestNode(f);
    var n' := DeepestNode(f');
    AddChildAt(f, p, x, n);
    AddChildAt(f, p, x, n');
    LevelBelowDepth(f', n);
    LevelBelowDepth(f, p);
    if n' != x {
      LevelBelowDepth(f, n');
    }
  }

  /** Deleting a child never deepens the tree, and flattens it by at most one level when every child of
      the deleted node is adopted. */
  lemma DeleteDepth<D>(f: Forest<D>, p: D, x: D, cap: nat)
    requires Child(f, p, x)
    ensures Depth(Cut(f, p, x, cap)) <= Depth(f)
    ensures LeftOut(f, p, x, cap).Nil? ==> Depth(f) <= Depth(Cut(f, p, x, cap)) + 1
  {
    var f' := Cut(f, p, x, cap);
    CutNodes(f, p, x, cap);
    ChildFacts(f, p, x);
    SetKidsShape(f, p, Siblings(f, p, x, cap));
    var n := DeepestNode(f);
    var n' := DeepestNode(f');
    CutAt(f, p, x, cap, n');
    LevelBelowDepth(f, n');
    if LeftOut(f, p, x, cap).Nil? {
      var m := if n == x then p else n;
      CutAt(f, p, x, cap, m);
      LevelBelowDepth(f', m);
    }
  }

  // ----- Destruction -----

  lemma PostorderAt<D>(d: D, k: Forest<D>, r: Forest<D>, i: nat)
    requires i < 1 + Size(k) + Size(r)
    ensures |Postorder(Cons(d, k, r))| == 1 + Size(k) + Size(r)
    ensures |Postorder(k)| == Size(k) && |Postorder(r)| == Size(r)
    ensures Postorder(Cons(d, k, r))[i] ==
            if i < Size(k) then Postorder(k)[i] else if i == Size(k) then d else Postorder(r)[i - 1 - Size(k)]
    ensures i < Size(k) ==> Postorder(k)[i] in Nodes(k)
    ensures i > Size(k) ==> Postorder(r)[i - 1 - Size(k)] in Nodes(r)
  {
    OrdersHoldNodes(k);
    OrdersHoldNodes(r);
    OrdersElems(k);
    OrdersElems(r);
    assert i < Size(k) ==> Postorder(k)[i] in Elems(Postorder(k));
    assert i > Size(k) ==> Postorder(r)[i - 1 - Size(k)] in Elems(Postorder(r));
  }

  /** Nodes are freed after all their descendants: nothing freed is an ancestor of what is freed later. */
  lemma {:induction false} DescendantsFreedFirst<D>(f: Forest<D>, i: nat, j: nat)
    requires Distinct(f) && i <= j < Size(f)
    ensures |Postorder(f)| == Size(f) && !Ancestor(f, Postorder(f)[i], Postorder(f)[j])
  {
    hide Postorder;
    var Cons(d, k, r) := f;
    PostorderAt(d, k, r, i);
    PostorderAt(d, k, r, j);
    var a := Postorder(f)[i];
    KidsFacts(k, a);
    KidsFacts(r, a);
    if j < Size(k) {
      DescendantsFreedFirst(k, i, j);
    } else if i > Size(k) {
      DescendantsFreedFirst(r, i - 1 - Size(k), j - 1 - Size(k));
    }
  }

  /** Destroying a context frees each reachable node once; it frees all that live exactly when no tree has
      been cut loose. */
  lemma DestroyFreesAllIffNoneLoose<R>(s: TreeState<R>, cap: nat)
    requires WellFormed(s, cap)
    ensures NoRepeats(Postorder(s.reach)) && Elems(Postorder(s.reach)) == Nodes(s.reach)
    ensures Elems(Postorder(s.reach)) == s.info.Keys <==> s.detached.Nil?
  {
    AllFacts(s, cap);
    PostorderDistinct(s.reach);
    OrdersElems(s.reach);
    if s.detached.Cons? {
      assert s.detached.node in s.info.Keys && s.detached.node !in Nodes(s.reach);
    }
  }
}
