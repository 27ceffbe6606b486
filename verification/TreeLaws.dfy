/** What creating and deleting a node do to the forest: which nodes remain, who their parents and
    children are, how levels and ancestors change. */
module TreeLaws {
  import opened Forests
  import opened Surgery
  import opened LevelOrder
  import opened IdentityTree

  // ----- Adding a child -----

  lemma AddChildFits<R>(f: Forest<R>, p: R, x: R)
    requires Distinct(f) && p in Nodes(f) && x !in Nodes(f)
    ensures Fits(f, p, Append(KidsOf(f, p), Leaf(x)))
    ensures Distinct(AddChild(f, p, x)) && Nodes(AddChild(f, p, x)) == Nodes(f) + {x}
    ensures Size(AddChild(f, p, x)) == Size(f) + 1
  {
    var k := KidsOf(f, p);
    var g := Append(k, Leaf(x));
    KidsFacts(f, p);
    AppendFacts(k, Leaf(x));
    SetKidsNodes(f, p, g);
    SetKidsSize(f, p, g);
    SetKidsDistinct(f, p, g);
  }

  lemma AddChildBounded<R>(f: Forest<R>, p: R, x: R, cap: nat)
    requires Distinct(f) && p in Nodes(f) && x !in Nodes(f)
    requires Bounded(f, cap) && Len(KidsOf(f, p)) < cap
    ensures Bounded(AddChild(f, p, x), cap)
  {
    var k := KidsOf(f, p);
    KidsBounded(f, p, cap);
    AppendSizes(k, Leaf(x));
    AppendBounded(k, Leaf(x), cap);
    assert Bounded(Leaf(x), cap);
    SetKidsBounded(f, p, Append(KidsOf(f, p), Leaf(x)), cap);
  }

  /** The new node is the last child of `p`; nobody else's parent, children or level changes. */
  lemma AddChildAt<R>(f: Forest<R>, p: R, x: R, n: R)
    requires Distinct(f) && p in Nodes(f) && x !in Nodes(f) && n in Nodes(f) + {x}
    ensures Roots(KidsOf(AddChild(f, p, x), n)) ==
            if n == p then Roots(KidsOf(f, p)) + [x] else if n == x then [] else Roots(KidsOf(f, n))
    ensures ParentOf(AddChild(f, p, x), n, None) == if n == x then Some(p) else ParentOf(f, n, None)
    ensures Level(AddChild(f, p, x), n) == if n == x then Level(f, p) + 1 else Level(f, n)
  {
    var k := KidsOf(f, p);
    var g := Append(k, Leaf(x));
    AddChildFits(f, p, x);
    AppendFacts(k, Leaf(x));
    KidsFacts(f, p);
    if n in Nodes(g) {
      SetKidsInside(f, p, g, n, None);
      AppendAt(k, Leaf(x), n, Some(p));
      if n in Nodes(k) {
        Below(f, p, n, None);
      }
    } else {
      SetKidsOutside(f, p, g, n, None);
      SetKidsShape(KidsOf(f, n), p, g);
    }
  }

  // ----- Taking a node out and adopting its children -----

  /** `x` is a child of `p`. */
  ghost predicate Child<R>(f: Forest<R>, p: R, x: R) {
    Distinct(f) && p in Nodes(f) && x in Roots(KidsOf(f, p))
  }

  lemma ChildFacts<R>(f: Forest<R>, p: R, x: R)
    requires Child(f, p, x)
    ensures x in Nodes(f) && x != p && p !in Nodes(KidsOf(f, x))
    ensures KidsOf(KidsOf(f, p), x) == KidsOf(f, x)
    ensures ParentOf(f, x, None) == Some(p) && Level(f, x) == Level(f, p) + 1
    ensures Nodes(KidsOf(f, p)) == Nodes(Remove(KidsOf(f, p), x)) + {x} + Nodes(KidsOf(f, x))
    ensures Nodes(Remove(KidsOf(f, p), x)) !! {x} + Nodes(KidsOf(f, x))
    ensures Distinct(Remove(KidsOf(f, p), x)) && Distinct(KidsOf(f, x))
  {
    var k := KidsOf(f, p);
    KidsFacts(f, p);
    OrdersHoldNodes(k);
    Below(f, p, x, None);
    RootLevel(k, x);
    RootParent(k, x, Some(p));
    RemoveFacts(k, x);
    KidsFacts(k, x);
  }

  /** The adopted children and those left out share out the children of `x`, in order. */
  lemma SplitFacts<R>(f: Forest<R>, p: R, x: R, cap: nat)
    requires Distinct(f)
    ensures Append(Adopted(f, p, x, cap), LeftOut(f, p, x, cap)) == KidsOf(f, x)
    ensures Distinct(Adopted(f, p, x, cap)) && Distinct(LeftOut(f, p, x, cap))
    ensures Nodes(Adopted(f, p, x, cap)) !! Nodes(LeftOut(f, p, x, cap))
    ensures Nodes(KidsOf(f, x)) == Nodes(Adopted(f, p, x, cap)) + Nodes(LeftOut(f, p, x, cap))
    ensures Roots(KidsOf(f, x)) == Roots(Adopted(f, p, x, cap)) + Roots(LeftOut(f, p, x, cap))
    ensures Size(KidsOf(f, x)) == Size(Adopted(f, p, x, cap)) + Size(LeftOut(f, p, x, cap))
  {
    KidsFacts(f, x);
    TakeDrop(KidsOf(f, x), Room(f, p, cap));
    AppendFacts(Adopted(f, p, x, cap), LeftOut(f, p, x, cap));
  }

  ghost function Cut<R>(f: Forest<R>, p: R, x: R, cap: nat): Forest<R> {
    SetKids(f, p, Siblings(f, p, x, cap))
  }

  lemma CutFits<R>(f: Forest<R>, p: R, x: R, cap: nat)
    requires Child(f, p, x)
    ensures Fits(f, p, Siblings(f, p, x, cap))
    ensures Nodes(Siblings(f, p, x, cap)) == Nodes(KidsOf(f, p)) - {x} - Nodes(LeftOut(f, p, x, cap))
    ensures Nodes(Siblings(f, p, x, cap)) == Nodes(Remove(KidsOf(f, p), x)) + Nodes(Adopted(f, p, x, cap))
  {
    ChildFacts(f, p, x);
    SplitFacts(f, p, x, cap);
    AppendFacts(Remove(KidsOf(f, p), x), Adopted(f, p, x, cap));
    KidsFacts(f, p);
    KidsFacts(f, x);
  }

  /** Exactly `x` and the trees left out disappear. */
  lemma CutNodes<R>(f: Forest<R>, p: R, x: R, cap: nat)
    requires Child(f, p, x)
    ensures Distinct(Cut(f, p, x, cap))
    ensures Nodes(Cut(f, p, x, cap)) == Nodes(f) - {x} - Nodes(LeftOut(f, p, x, cap))
    ensures Nodes(LeftOut(f, p, x, cap)) <= Nodes(f) - {x}
    ensures Size(Cut(f, p, x, cap)) + 1 + Size(LeftOut(f, p, x, cap)) == Size(f)
  {
    hide Nodes, Distinct, Size, KidsOf, SetKids, Append, Remove;
    var g := Siblings(f, p, x, cap);
    var k := KidsOf(f, p);
    ChildFacts(f, p, x);
    CutFits(f, p, x, cap);
    SetKidsDistinct(f, p, g);
    SetKidsNodes(f, p, g);
    SetKidsSize(f, p, g);
    SplitFacts(f, p, x, cap);
    KidsFacts(f, p);
    KidsFacts(f, x);
    RemoveFacts(k, x);
    AppendFacts(Remove(k, x), Adopted(f, p, x, cap));
    assert Nodes(LeftOut(f, p, x, cap)) <= Nodes(k);
  }

  lemma CutBounded<R>(f: Forest<R>, p: R, x: R, cap: nat)
    requires Child(f, p, x) && Bounded(f, cap)
    ensures Bounded(Cut(f, p, x, cap), cap) && Bounded(LeftOut(f, p, x, cap), cap)
    ensures var k, room := Len(KidsOf(f, x)), cap - (Len(KidsOf(f, p)) - 1);
            Len(Adopted(f, p, x, cap)) == if k < room then k else room
    ensures Len(Siblings(f, p, x, cap)) == Len(KidsOf(f, p)) - 1 + Len(Adopted(f, p, x, cap))
  {
    hide Nodes, Distinct, Size, KidsOf, SetKids, Append, Remove, Take, Drop, Bounded, Roots;
    var k, kx := KidsOf(f, p), KidsOf(f, x);
    ChildFacts(f, p, x);
    KidsFacts(f, p);
    RemoveFacts(k, x);
    KidsBounded(f, p, cap);
    KidsBounded(f, x, cap);
    RemoveBounded(k, x, cap);
    TakeDrop(kx, Room(f, p, cap));
    TakeBounded(kx, Room(f, p, cap), cap);
    AppendSizes(Remove(k, x), Adopted(f, p, x, cap));
    AppendBounded(Remove(k, x), Adopted(f, p, x, cap), cap);
    SetKidsBounded(f, p, Siblings(f, p, x, cap), cap);
  }

  /** A node that stays in place below or beside the cut. */
  lemma CutAtSibling<R>(f: Forest<R>, p: R, x: R, cap: nat, n: R)
    requires Child(f, p, x) && n in Nodes(Remove(KidsOf(f, p), x))
    ensures KidsOf(Cut(f, p, x, cap), n) == KidsOf(f, n)
    ensures ParentOf(Cut(f, p, x, cap), n, None) == ParentOf(f, n, None)
    ensures Level(Cut(f, p, x, cap), n) == Level(f, n) && !Ancestor(f, x, n)
  {
    var k, g := KidsOf(f, p), Siblings(f, p, x, cap);
    ChildFacts(f, p, x);
    CutFits(f, p, x, cap);
    SetKidsInside(f, p, g, n, None);
    AppendFacts(Remove(k, x), Adopted(f, p, x, cap));
    AppendAt(Remove(k, x), Adopted(f, p, x, cap), n, Some(p));
    KidsFacts(f, p);
    RemoveAt(k, x, n, Some(p));
    Below(f, p, n, None);
  }

  /** An adopted child or a descendant of one moves up one level. */
  lemma CutAtAdopted<R>(f: Forest<R>, p: R, x: R, cap: nat, n: R)
    requires Child(f, p, x) && n in Nodes(Adopted(f, p, x, cap))
    ensures KidsOf(Cut(f, p, x, cap), n) == KidsOf(f, n)
    ensures ParentOf(Cut(f, p, x, cap), n, None) ==
            if n in Roots(Adopted(f, p, x, cap)) then Some(p) else ParentOf(f, n, None)
    ensures Level(Cut(f, p, x, cap), n) + 1 == Level(f, n) && Ancestor(f, x, n)
  {
    var k, kx, g := KidsOf(f, p), KidsOf(f, x), Siblings(f, p, x, cap);
    var a, out := Adopted(f, p, x, cap), LeftOut(f, p, x, cap);
    ChildFacts(f, p, x);
    CutFits(f, p, x, cap);
    SplitFacts(f, p, x, cap);
    SetKidsInside(f, p, g, n, None);
    AppendFacts(Remove(k, x), a);
    AppendAt(Remove(k, x), a, n, Some(p));
    Below(f, x, n, None);
    AppendAt(a, out, n, Some(x));
    TopChange(a, n, x, p);
  }

  /** Only the roots of a forest notice a change of what is above it. */
  lemma TopChange<R>(f: Forest<R>, n: R, x: R, p: R)
    requires Distinct(f) && n in Nodes(f)
    ensures n in Roots(f) ==> ParentOf(f, n, Some(p)) == Some(p)
    ensures n !in Roots(f) ==> ParentOf(f, n, Some(p)) == ParentOf(f, n, Some(x))
  {
    match f
    case Cons(d, k, r) =>
      OrdersHoldNodes(r);
  }

  lemma CutAtOutside<R>(f: Forest<R>, p: R, x: R, cap: nat, n: R)
    requires Child(f, p, x) && n in Nodes(f) && n !in Nodes(KidsOf(f, p))
    ensures KidsOf(Cut(f, p, x, cap), n) ==
            if n == p then Siblings(f, p, x, cap) else SetKids(KidsOf(f, n), p, Siblings(f, p, x, cap))
    ensures Roots(KidsOf(Cut(f, p, x, cap), n)) ==
            if n == p then Roots(Siblings(f, p, x, cap)) else Roots(KidsOf(f, n))
    ensures ParentOf(Cut(f, p, x, cap), n, None) == ParentOf(f, n, None)
    ensures Level(Cut(f, p, x, cap), n) == Level(f, n) && !Ancestor(f, x, n)
  {
    ChildFacts(f, p, x);
    CutFits(f, p, x, cap);
    SetKidsOutside(f, p, Siblings(f, p, x, cap), n, None);
    SetKidsShape(KidsOf(f, n), p, Siblings(f, p, x, cap));
  }

  /** Children, parents and levels after the cut, for every node that is still there. */
  lemma CutAt<R>(f: Forest<R>, p: R, x: R, cap: nat, n: R)
    requires Child(f, p, x) && n in Nodes(Cut(f, p, x, cap))
    ensures n in Nodes(f) && n != x
    ensures Roots(KidsOf(Cut(f, p, x, cap), n)) ==
            if n == p then Roots(Remove(KidsOf(f, p), x)) + Roots(Adopted(f, p, x, cap)) else Roots(KidsOf(f, n))
    ensures ParentOf(Cut(f, p, x, cap), n, None) ==
            if n in Roots(Adopted(f, p, x, cap)) then Some(p) else ParentOf(f, n, None)
    ensures Level(Cut(f, p, x, cap), n) == if Ancestor(f, x, n) then Level(f, n) - 1 else Level(f, n)
  {
    var k := KidsOf(f, p);
    ChildFacts(f, p, x);
    CutNodes(f, p, x, cap);
    SplitFacts(f, p, x, cap);
    OrdersHoldNodes(Adopted(f, p, x, cap));
    AppendFacts(Remove(k, x), Adopted(f, p, x, cap));
    KidsFacts(f, p);
    if n in Nodes(Remove(k, x)) {
      CutAtSibling(f, p, x, cap, n);
    } else if n in Nodes(k) {
      CutAtAdopted(f, p, x, cap, n);
    } else {
      CutAtOutside(f, p, x, cap, n);
    }
  }

  /** Among the nodes that are still there, descent is exactly what it was. */
  lemma CutKeepsAncestors<R>(f: Forest<R>, p: R, x: R, cap: nat, a: R, n: R)
    requires Child(f, p, x) && a in Nodes(Cut(f, p, x, cap)) && n in Nodes(Cut(f, p, x, cap))
    ensures Ancestor(Cut(f, p, x, cap), a, n) <==> Ancestor(f, a, n)
  {
    var k, g := KidsOf(f, p), Siblings(f, p, x, cap);
    ChildFacts(f, p, x);
    CutNodes(f, p, x, cap);
    CutFits(f, p, x, cap);
    SplitFacts(f, p, x, cap);
    KidsFacts(f, p);
    if a in Nodes(Remove(k, x)) {
      CutAtSibling(f, p, x, cap, a);
    } else if a in Nodes(k) {
      CutAtAdopted(f, p, x, cap, a);
    } else {
      CutAtOutside(f, p, x, cap, a);
      if a != p {
        var ka := KidsOf(f, a);
        KidsFacts(f, a);
        if p in Nodes(ka) {
          Below(f, a, p, None);
          SetKidsNodes(ka, p, g);
          KidsFacts(ka, p);
          assert Nodes(k) <= Nodes(ka);
        } else {
          SetKidsAbsent(ka, p, g);
        }
      }
    }
  }

  // ----- The operations on the whole state -----

  lemma AllFacts<R>(s: TreeState<R>, cap: nat)
    requires WellFormed(s, cap)
    ensures Nodes(All(s)) == Nodes(s.reach) + Nodes(s.detached) && Nodes(s.reach) !! Nodes(s.detached)
    ensures Distinct(s.reach) && Distinct(s.detached) && Len(s.reach) <= 1
    ensures Bounded(s.reach, cap) && Bounded(s.detached, cap)
    ensures s.total == Size(s.reach) + Size(s.detached)
    ensures s.info.Keys == Nodes(s.reach) + Nodes(s.detached)
  {
    AppendFacts(s.reach, s.detached);
    AppendBounded(s.reach, s.detached, cap);
  }

  lemma Assemble<R>(s: TreeState<R>, cap: nat)
    requires Len(s.reach) <= 1
    requires Distinct(s.reach) && Distinct(s.detached) && Nodes(s.reach) !! Nodes(s.detached)
    requires Bounded(s.reach, cap) && Bounded(s.detached, cap)
    requires s.info.Keys == Nodes(s.reach) + Nodes(s.detached) && s.total == Size(s.reach) + Size(s.detached)
    ensures WellFormed(s, cap)
  {
    AppendFacts(s.reach, s.detached);
    AppendBounded(s.reach, s.detached, cap);
  }

  lemma LiveIsPositive<R>(s: TreeState<R>, cap: nat, x: R)
    requires WellFormed(s, cap) && x in Nodes(s.reach)
    ensures s.total > 0 && x in s.info
  {
    AllFacts(s, cap);
  }

  /** A node lies in the tree or in a detached one, and its links are those it has there. */
  lemma LinksInAll<R>(s: TreeState<R>, cap: nat, n: R)
    requires WellFormed(s, cap)
    ensures n in Nodes(s.reach) ==> KidsOf(All(s), n) == KidsOf(s.reach, n) &&
                                    ParentOf(All(s), n, None) == ParentOf(s.reach, n, None)
    ensures n !in Nodes(s.reach) ==> KidsOf(All(s), n) == KidsOf(s.detached, n) &&
                                     ParentOf(All(s), n, None) == ParentOf(s.detached, n, None)
  {
    AllFacts(s, cap);
    AppendAt(s.reach, s.detached, n, None);
  }

  lemma CreateKeepsForest<R>(s: TreeState<R>, x: R, parentId: Option<string>, info: Info, cap: nat)
    requires WellFormed(s, cap) && x !in Nodes(All(s)) && Accepts(s, parentId, cap)
    ensures WellFormed(Create(s, x, parentId, info), cap)
    ensures Create(s, x, parentId, info).reach.Cons?
    ensures Create(s, x, parentId, info).reach.node == if s.reach.Nil? then x else s.reach.node
  {
    AllFacts(s, cap);
    if s.reach.Cons? {
      LookupSound(s, parentId.value, cap);
      var p := Lookup(s, parentId.value).value;
      AddChildFits(s.reach, p, x);
      AddChildBounded(s.reach, p, x, cap);
      SetKidsShape(s.reach, p, Append(KidsOf(s.reach, p), Leaf(x)));
    }
    Assemble(Create(s, x, parentId, info), cap);
  }

  /** A node of a single tree is its root or the child of some node of it. */
  lemma RootOrChild<R>(f: Forest<R>, x: R)
    requires Distinct(f) && Len(f) <= 1 && x in Nodes(f)
    ensures ParentOf(f, x, None).None? ==> f.node == x && f == Cons(x, KidsOf(f, x), Nil)
    ensures ParentOf(f, x, None).Some? ==> Child(f, ParentOf(f, x, None).value, x)
  {
    if f.node == x {
    } else {
      ParentInside(f.kids, x, Some(f.node));
      ParentIffChild(f, ParentOf(f, x, None).value, x, None);
    }
  }

  lemma ParentIsChild<R>(f: Forest<R>, p: R, x: R)
    requires Distinct(f) && x in Nodes(f) && ParentOf(f, x, None) == Some(p)
    ensures Child(f, p, x)
  {
    ParentIffChild(f, p, x, None);
  }

  lemma DeleteRootKeepsForest<R>(s: TreeState<R>, x: R, cap: nat)
    requires WellFormed(s, cap) && x in Nodes(s.reach)
    requires ParentOf(s.reach, x, None).None?
    ensures WellFormed(DeleteAt(s, x, cap), cap)
  {
    hide Append, Bounded;
    AllFacts(s, cap);
    RootOrChild(s.reach, x);
    KidsFacts(s.reach, x);
    KidsBounded(s.reach, x, cap);
    AppendFacts(s.detached, KidsOf(s.reach, x));
    AppendBounded(s.detached, KidsOf(s.reach, x), cap);
    Assemble(DeleteAt(s, x, cap), cap);
  }

  lemma DeleteChildNodes<R>(s: TreeState<R>, x: R, p: R, cap: nat)
    requires WellFormed(s, cap) && Child(s.reach, p, x)
    ensures var out := LeftOut(s.reach, p, x, cap); var s' := DeleteAt(s, x, cap);
            && s'.reach == Cut(s.reach, p, x, cap) && s'.detached == Append(s.detached, out)
            && Nodes(s'.reach) == Nodes(s.reach) - {x} - Nodes(out)
            && Nodes(s'.detached) == Nodes(s.detached) + Nodes(out)
            && Size(s'.reach) + Size(s'.detached) + 1 == Size(s.reach) + Size(s.detached)
            && Distinct(s'.reach) && Distinct(s'.detached)
            && Nodes(out) <= Nodes(s.reach) - {x}
            && s'.info.Keys == s.info.Keys - {x}
  {
    AllFacts(s, cap);
    ChildFacts(s.reach, p, x);
    CutNodes(s.reach, p, x, cap);
    SplitFacts(s.reach, p, x, cap);
    AppendFacts(s.detached, LeftOut(s.reach, p, x, cap));
  }

  lemma DeleteChildKeepsForest<R>(s: TreeState<R>, x: R, p: R, cap: nat)
    requires WellFormed(s, cap) && Child(s.reach, p, x)
    ensures WellFormed(DeleteAt(s, x, cap), cap)
  {
    hide Nodes, Distinct, Size, Bounded, KidsOf, SetKids, ParentOf, Append;
    AllFacts(s, cap);
    DeleteChildNodes(s, x, p, cap);
    CutBounded(s.reach, p, x, cap);
    SetKidsShape(s.reach, p, Siblings(s.reach, p, x, cap));
    AppendBounded(s.detached, LeftOut(s.reach, p, x, cap), cap);
    var out := LeftOut(s.reach, p, x, cap);
    ChildFacts(s.reach, p, x);
    assert Nodes(s.reach) + Nodes(s.detached) - {x} ==
           Nodes(s.reach) - {x} - Nodes(out) + (Nodes(s.detached) + Nodes(out));
    Assemble(DeleteAt(s, x, cap), cap);
  }

  lemma DeleteAtKeepsForest<R>(s: TreeState<R>, x: R, cap: nat)
    requires WellFormed(s, cap) && x in Nodes(s.reach)
    ensures WellFormed(DeleteAt(s, x, cap), cap)
  {
    AllFacts(s, cap);
    RootOrChild(s.reach, x);
    match ParentOf(s.reach, x, None)
    case None => DeleteRootKeepsForest(s, x, cap);
    case Some(p) => DeleteChildKeepsForest(s, x, p, cap);
  }

  lemma DeleteAtShape<R>(s: TreeState<R>, x: R, cap: nat)
    requires WellFormed(s, cap) && x in Nodes(s.reach)
    ensures DeleteAt(s, x, cap).info.Keys == s.info.Keys - {x} && DeleteAt(s, x, cap).total == s.total - 1
    ensures ParentOf(s.reach, x, None).None? ==> DeleteAt(s, x, cap).reach.Nil?
    ensures ParentOf(s.reach, x, None).Some? ==>
              DeleteAt(s, x, cap).reach.Cons? && DeleteAt(s, x, cap).reach.node == s.reach.node
  {
  }

  lemma DeleteKeepsForest<R>(s: TreeState<R>, key: string, cap: nat)
    requires WellFormed(s, cap)
    ensures Delete(s, key, cap).Some? ==> WellFormed(Delete(s, key, cap).value, cap)
  {
    LookupSound(s, key, cap);
    if Lookup(s, key).Some? {
      DeleteAtKeepsForest(s, Lookup(s, key).value, cap);
    }
  }

  // ----- Parents and children of every live node after an operation -----

  lemma CreateRootLinks<R>(s: TreeState<R>, x: R, parentId: Option<string>, info: Info, cap: nat, n: R)
    requires WellFormed(s, cap) && x !in Nodes(All(s)) && s.reach.Nil?
    requires n in Nodes(All(s)) + {x}
    ensures var s' := Create(s, x, parentId, info);
            && KidSeq(s', n) == (if n == x then [] else KidSeq(s, n))
            && Parent(s', n) == (if n == x then None else Parent(s, n))
  {
    var s' := Create(s, x, parentId, info);
    CreateKeepsForest(s, x, parentId, info, cap);
    LinksInAll(s, cap, n);
    LinksInAll(s', cap, n);
  }

  lemma CreateChildLinks<R>(s: TreeState<R>, x: R, parentId: Option<string>, info: Info, cap: nat, n: R)
    requires WellFormed(s, cap) && x !in Nodes(All(s)) && s.reach.Cons?
    requires Accepts(s, parentId, cap) && n in Nodes(All(s)) + {x}
    ensures var s' := Create(s, x, parentId, info); var p := Lookup(s, parentId.value).value;
            && KidSeq(s', n) == (if n == p then KidSeq(s, p) + [x] else if n == x then [] else KidSeq(s, n))
            && Parent(s', n) == (if n == x then Some(p) else Parent(s, n))
  {
    var s' := Create(s, x, parentId, info);
    var p := Lookup(s, parentId.value).value;
    CreateKeepsForest(s, x, parentId, info, cap);
    LookupSound(s, parentId.value, cap);
    AllFacts(s, cap);
    LinksInAll(s, cap, n);
    LinksInAll(s', cap, n);
    AddChildFits(s.reach, p, x);
    if n in Nodes(s'.reach) {
      AddChildAt(s.reach, p, x, n);
    }
  }

  lemma DeleteRootLinks<R>(s: TreeState<R>, x: R, cap: nat, n: R)
    requires WellFormed(s, cap) && x in Nodes(s.reach) && ParentOf(s.reach, x, None).None?
    requires n in Nodes(All(s)) - {x}
    ensures KidSeq(DeleteAt(s, x, cap), n) == KidSeq(s, n)
    ensures Parent(DeleteAt(s, x, cap), n) == if n in Roots(KidsOf(s.reach, x)) then None else Parent(s, n)
  {
    var s' := DeleteAt(s, x, cap);
    var k := KidsOf(s.reach, x);
    DeleteRootKeepsForest(s, x, cap);
    AllFacts(s, cap);
    AllFacts(s', cap);
    RootOrChild(s.reach, x);
    LinksInAll(s, cap, n);
    LinksInAll(s', cap, n);
    AppendAt(s.detached, k, n, None);
    OrdersHoldNodes(k);
    if n in Nodes(k) {
      Below(s.reach, x, n, None);
      TopToNone(k, n, x);
    }
  }

  lemma TopToNone<R>(f: Forest<R>, n: R, x: R)
    requires Distinct(f) && n in Nodes(f)
    ensures ParentOf(f, n, None) == if n in Roots(f) then None else ParentOf(f, n, Some(x))
  {
    match f
    case Cons(d, k, r) =>
      OrdersHoldNodes(r);
  }

  lemma DeleteChildLinks<R>(s: TreeState<R>, x: R, p: R, cap: nat, n: R)
    requires WellFormed(s, cap) && Child(s.reach, p, x)
    requires n in Nodes(All(s)) - {x}
    ensures KidSeq(DeleteAt(s, x, cap), n) ==
            if n == p then Roots(Remove(KidsOf(s.reach, p), x)) + Roots(Adopted(s.reach, p, x, cap)) else KidSeq(s, n)
    ensures Parent(DeleteAt(s, x, cap), n) ==
            if n in Roots(Adopted(s.reach, p, x, cap)) then Some(p)
            else if n in Roots(LeftOut(s.reach, p, x, cap)) then None else Parent(s, n)
  {
    var s' := DeleteAt(s, x, cap);
    var a, out := Adopted(s.reach, p, x, cap), LeftOut(s.reach, p, x, cap);
    ChildFacts(s.reach, p, x);
    DeleteChildKeepsForest(s, x, p, cap);
    DeleteChildNodes(s, x, p, cap);
    AllFacts(s, cap);
    LinksInAll(s, cap, n);
    LinksInAll(s', cap, n);
    SplitFacts(s.reach, p, x, cap);
    OrdersHoldNodes(a);
    OrdersHoldNodes(out);
    KidsFacts(s.reach, x);
    if n in Nodes(s'.reach) {
      CutAt(s.reach, p, x, cap, n);
    } else {
      AppendAt(s.detached, out, n, None);
      AppendFacts(s.detached, out);
      if n in Nodes(out) {
        LeftOutLinks(s.reach, p, x, cap, n);
      }
    }
  }

  lemma LeftOutLinks<R>(f: Forest<R>, p: R, x: R, cap: nat, n: R)
    requires Child(f, p, x) && n in Nodes(LeftOut(f, p, x, cap))
    ensures KidsOf(LeftOut(f, p, x, cap), n) == KidsOf(f, n)
    ensures ParentOf(LeftOut(f, p, x, cap), n, None) ==
            if n in Roots(LeftOut(f, p, x, cap)) then None else ParentOf(f, n, None)
  {
    SplitFacts(f, p, x, cap);
    KidsFacts(f, x);
    Below(f, x, n, None);
    AppendAt(Adopted(f, p, x, cap), LeftOut(f, p, x, cap), n, Some(x));
    TopToNone(LeftOut(f, p, x, cap), n, x);
  }

  // ----- Root flags -----

  lemma CreateKeepsFlags<R>(s: TreeState<R>, x: R, parentId: Option<string>, info: Info, cap: nat)
    requires WellFormed(s, cap) && RootFlags(s) && x !in Nodes(All(s)) && !info.isRoot && Accepts(s, parentId, cap)
    ensures RootFlags(Create(s, x, parentId, info))
  {
    var s' := Create(s, x, parentId, info);
    forall n | n in s'.info ensures s'.info[n].isRoot <==> Parent(s', n).None? {
      if s.reach.Nil? {
        CreateRootLinks(s, x, parentId, info, cap, n);
      } else {
        CreateChildLinks(s, x, parentId, info, cap, n);
      }
    }
  }

  lemma KidsHaveParent<R>(s: TreeState<R>, x: R, cap: nat, n: R)
    requires WellFormed(s, cap) && x in Nodes(s.reach) && n in Roots(KidsOf(s.reach, x))
    ensures Parent(s, n) == Some(x)
  {
    AllFacts(s, cap);
    OrdersHoldNodes(KidsOf(s.reach, x));
    KidsFacts(s.reach, x);
    ParentIffChild(s.reach, x, n, None);
    LinksInAll(s, cap, n);
  }

  lemma DeleteAtKeepsFlags<R>(s: TreeState<R>, x: R, cap: nat)
    requires WellFormed(s, cap) && RootFlags(s) && x in Nodes(s.reach)
    ensures RootFlags(DeleteAt(s, x, cap))
  {
    var s' := DeleteAt(s, x, cap);
    AllFacts(s, cap);
    RootOrChild(s.reach, x);
    forall n | n in s'.info ensures s'.info[n].isRoot <==> Parent(s', n).None? {
      match ParentOf(s.reach, x, None)
      case None =>
        DeleteRootLinks(s, x, cap, n);
      case Some(p) =>
        DeleteChildLinks(s, x, p, cap, n);
        SplitFacts(s.reach, p, x, cap);
        if n in Roots(Adopted(s.reach, p, x, cap)) {
          KidsHaveParent(s, x, cap, n);
          OrdersHoldNodes(Adopted(s.reach, p, x, cap));
          OrdersHoldNodes(LeftOut(s.reach, p, x, cap));
        }
    }
  }

  lemma DeleteKeepsFlags<R>(s: TreeState<R>, key: string, cap: nat)
    requires WellFormed(s, cap) && RootFlags(s)
    ensures Delete(s, key, cap).Some? ==> RootFlags(Delete(s, key, cap).value)
  {
    LookupSound(s, key, cap);
    if Lookup(s, key).Some? {
      DeleteAtKeepsFlags(s, Lookup(s, key).value, cap);
    }
  }
}
