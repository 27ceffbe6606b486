/** What loading makes of a saved tree when some parent is not visible: the records refused take their subtrees with
    them, everything else is rebuilt, and saving and loading the result loses nothing further. */
module LossyLoads {
  import opened Forests
  import opened Surgery
  import opened LevelOrder
  import opened IdentityTree
  import opened TreeLaws
  import opened NodeId
  import opened Pruning
  import opened Persistence
  import opened Rebuilding

  /** Replaying a record on the tree `a`: the node `x` goes below its parent `p` when that is visited. */
  ghost function AddVisible<D>(a: Forest<D>, p: Option<D>, x: D): Forest<D> {
    if p.Some? && p.value !in Elems(Visit(a)) then a else AddBelow(a, p, x)
  }

  /** What is rebuilt of `g` after its first `m` nodes have been replayed. */
  ghost function Rebuilt<D>(g: Forest<D>, m: nat): Forest<D>
    requires m <= |Preorder(g)|
  {
    if m == 0 then Nil
    else var x := Preorder(g)[m - 1]; AddVisible(Rebuilt(g, m - 1), ParentOf(g, x, None), x)
  }

  /** The `i`th node is rebuilt: its parent was, and is visited when the node's turn comes. */
  ghost predicate Kept<D>(g: Forest<D>, i: nat)
    requires i < |Preorder(g)|
  {
    match ParentOf(g, Preorder(g)[i], None)
    case None => true
    case Some(v) => v in Elems(Visit(Rebuilt(g, i)))
  }

  // ----- Leaving out subtrees -----

  lemma ThinnerNodes<D>(a: Forest<D>, b: Forest<D>)
    requires Thinner(a, b)
    ensures Nodes(a) <= Nodes(b) && (Distinct(b) ==> Distinct(a)) && Len(a) <= Len(b)
  {
  }

  lemma ThinnerBounded<D>(a: Forest<D>, b: Forest<D>, cap: nat)
    requires Thinner(a, b) && Bounded(b, cap)
    ensures Bounded(a, cap)
  {
    if a.Cons? && !Thinner(a, b.rest) {
      ThinnerSize(a.kids, b.kids);
    }
  }

  /** Where a node is still there, its children are some of those it had, and its parent is the same. */
  lemma {:induction false} ThinnerAt<D>(a: Forest<D>, b: Forest<D>, n: D, top: Option<D>)
    requires Thinner(a, b) && Distinct(b) && n in Nodes(a)
    ensures Thinner(KidsOf(a, n), KidsOf(b, n)) && ParentOf(a, n, top) == ParentOf(b, n, top)
  {
    var Cons(d, k, r) := b;
    ThinnerNodes(a, b);
    if Thinner(a, r) {
      ThinnerNodes(a, r);
      ThinnerAt(a, r, n, top);
    } else {
      ThinnerNodes(a.kids, k);
      ThinnerNodes(a.rest, r);
      if n in Nodes(a.kids) {
        ThinnerAt(a.kids, k, n, Some(d));
      } else if n in Nodes(a.rest) {
        ThinnerAt(a.rest, r, n, top);
      }
    }
  }

  lemma ThinnerSelf<D>(a: Forest<D>)
    ensures Thinner(a, a)
  {
  }

  lemma {:induction false} ThinnerSetKids<D>(a: Forest<D>, b: Forest<D>, p: D, ga: Forest<D>, gb: Forest<D>)
    requires Thinner(a, b) && Thinner(ga, gb)
    ensures Thinner(SetKids(a, p, ga), SetKids(b, p, gb))
    decreases b
  {
    match b
    case Nil =>
    case Cons(d, k, r) =>
      if a.Nil? {
      } else if Thinner(a, r) {
        ThinnerSetKids(a, r, p, ga, gb);
      } else {
        ThinnerSetKids(a.kids, k, p, ga, gb);
        ThinnerSetKids(a.rest, r, p, ga, gb);
      }
  }

  lemma {:induction false} ThinnerThanExtended<D>(a: Forest<D>, b: Forest<D>, p: D, g: Forest<D>)
    requires Thinner(a, b) && Distinct(b) && p in Nodes(b) && Thinner(KidsOf(b, p), g)
    ensures Thinner(a, SetKids(b, p, g))
    decreases b
  {
    match b
    case Cons(d, k, r) =>
      if a.Nil? {
        NilThinner(SetKids(b, p, g));
      } else if Thinner(a, r) {
        if p in Nodes(r) {
          ThinnerThanExtended(a, r, p, g);
        } else {
          SetKidsAbsent(r, p, g);
        }
      } else if p == d {
        SetKidsAbsent(r, p, g);
        ThinnerTransitive(a.kids, k, g);
      } else if p in Nodes(k) {
        ThinnerThanExtended(a.kids, k, p, g);
        SetKidsAbsent(r, p, g);
      } else {
        ThinnerThanExtended(a.rest, r, p, g);
        SetKidsAbsent(k, p, g);
      }
  }

  lemma {:induction false} ThinnerTransitive<D>(a: Forest<D>, b: Forest<D>, c: Forest<D>)
    requires Thinner(a, b) && Thinner(b, c)
    ensures Thinner(a, c)
    decreases c
  {
    match c
    case Nil =>
    case Cons(d, k, r) =>
      if a.Nil? {
      } else if Thinner(b, r) {
        ThinnerTransitive(a, b, r);
      } else if Thinner(a, b.rest) {
        ThinnerTransitive(a, b.rest, r);
      } else {
        ThinnerTransitive(a.kids, b.kids, k);
        ThinnerTransitive(a.rest, b.rest, r);
      }
  }

  /** One step keeps what is rebuilt a thinner version of the first nodes. */
  lemma AddKeepsThinner<D>(a: Forest<D>, b: Forest<D>, p: Option<D>, x: D)
    requires Thinner(a, b) && Distinct(b) && Len(a) <= MAX_QUEUE_SIZE && (p.Some? ==> p.value in Nodes(b))
    ensures Thinner(AddVisible(a, p, x), AddBelow(b, p, x))
  {
    match p
    case None =>
      ThinnerSelf(Leaf(x));
      ThinnerAppend(a, b, Leaf(x), Leaf(x));
    case Some(v) =>
      ThinnerSelf(Leaf(x));
      if v in Elems(Visit(a)) {
        VisitSound(a);
        ThinnerAt(a, b, v, None);
        ThinnerAppend(KidsOf(a, v), KidsOf(b, v), Leaf(x), Leaf(x));
        ThinnerSetKids(a, b, v, Append(KidsOf(a, v), Leaf(x)), Append(KidsOf(b, v), Leaf(x)));
      } else {
        AppendNil(KidsOf(b, v));
        ThinnerSelf(KidsOf(b, v));
        NilThinner(Leaf(x));
        ThinnerAppend(KidsOf(b, v), KidsOf(b, v), Nil, Leaf(x));
        ThinnerThanExtended(a, b, v, Append(KidsOf(b, v), Leaf(x)));
      }
  }

  /** What is rebuilt is the first nodes with whole subtrees left out. */
  lemma {:induction false} RebuiltThinner<D>(g: Forest<D>, m: nat)
    requires Distinct(g) && Len(g) <= 1 && m <= Size(g)
    ensures |Preorder(g)| == Size(g) && Thinner(Rebuilt(g, m), Prune(g, m))
    ensures Distinct(Rebuilt(g, m)) && Nodes(Rebuilt(g, m)) <= Nodes(Prune(g, m)) && Len(Rebuilt(g, m)) <= 1
  {
    hide Visit, Preorder, Elems, ParentOf, Thinner, Prune, AddVisible, AddBelow;
    OrdersHoldNodes(g);
    PruneDistinct(g, m);
    if m == 0 {
      NilThinner(Prune(g, 0));
    } else {
      RebuiltThinner(g, m - 1);
      PruneStep(g, m - 1);
      PruneDistinct(g, m - 1);
      var x := Preorder(g)[m - 1];
      AddKeepsThinner(Rebuilt(g, m - 1), Prune(g, m - 1), ParentOf(g, x, None), x);
    }
    ThinnerNodes(Rebuilt(g, m), Prune(g, m));
  }

  // ----- Which nodes are rebuilt -----

  lemma StepNodes<D>(g: Forest<D>, m: nat)
    requires Distinct(g) && Len(g) <= 1 && m < Size(g)
    ensures |Preorder(g)| == Size(g) && Preorder(g)[m] !in Nodes(Rebuilt(g, m))
    ensures var x := Preorder(g)[m]; var a := Rebuilt(g, m);
            && (ParentOf(g, x, None).Some? && Kept(g, m) ==> ParentOf(g, x, None).value in Nodes(a))
            && (ParentOf(g, x, None).None? <==> m == 0)
            && Nodes(Rebuilt(g, m + 1)) == Nodes(a) + (if Kept(g, m) then {x} else {})
            && Size(Rebuilt(g, m + 1)) == Size(a) + (if Kept(g, m) then 1 else 0)
  {
    hide Visit, Preorder, Elems, ParentOf, Prune, SetKids, KidsOf;
    RebuiltThinner(g, m);
    PruneStep(g, m);
    PruneDistinct(g, m);
    OnlyFirstIsTop(g, m);
    var x, a := Preorder(g)[m], Rebuilt(g, m);
    VisitSound(a);
    match ParentOf(g, x, None)
    case None =>
      AppendFacts(a, Leaf(x));
      SingleNode(x);
    case Some(v) =>
      if Kept(g, m) {
        AddChildFits(a, v, x);
      }
  }

  lemma SingleNode<D>(x: D)
    ensures Nodes(Leaf(x)) == {x} && Size(Leaf(x)) == 1
  {
  }

  /** A node is rebuilt if and only if its parent is and is visited when the node's turn comes. */
  lemma {:induction false} RebuiltIffKept<D>(g: Forest<D>, m: nat, i: nat)
    requires Distinct(g) && Len(g) <= 1 && i < m <= Size(g)
    ensures |Preorder(g)| == Size(g) && (Preorder(g)[i] in Nodes(Rebuilt(g, m)) <==> Kept(g, i))
  {
    hide Preorder, Kept, Rebuilt;
    StepNodes(g, m - 1);
    if i < m - 1 {
      RebuiltIffKept(g, m - 1, i);
      PreorderDistinct(g);
    }
  }

  // ----- The result is stable -----

  /** `p` is the last root, or the last child of the last root, and so on. */
  ghost predicate OnEdge<D>(f: Forest<D>, p: D) {
    match f
    case Nil => false
    case Cons(d, k, r) => if r.Cons? then OnEdge(r, p) else d == p || OnEdge(k, p)
  }

  lemma EdgeInside<D>(f: Forest<D>, p: D)
    requires OnEdge(f, p)
    ensures p in Nodes(f)
  {
  }

  /** The next node's parent is on the edge of the first nodes ... */
  lemma {:induction false} ParentOnEdge<D>(g: Forest<D>, i: nat)
    requires Distinct(g) && i < Size(g)
    ensures |Preorder(g)| == Size(g)
    ensures var p := ParentOf(g, Preorder(g)[i], None); p.Some? ==> OnEdge(Prune(g, i), p.value)
  {
    hide Preorder;
    var Cons(d, k, r) := g;
    PreorderAt(d, k, r, i);
    OrdersElems(k);
    OrdersElems(r);
    if 0 < i <= Size(k) {
      var x := Preorder(k)[i - 1];
      assert x in Elems(Preorder(k));
      ParentOnEdge(k, i - 1);
      TopToSome(k, x, d);
      PruneNone(r);
    } else if i > Size(k) {
      var x := Preorder(r)[i - 1 - Size(k)];
      assert x in Elems(Preorder(r));
      ParentOnEdge(r, i - 1 - Size(k));
      InRest(g, x);
      PrunePast(g, i);
    }
  }

  /** ... and, where subtrees have been left out, still is if it is there. */
  lemma {:induction false} ThinnerEdge<D>(a: Forest<D>, b: Forest<D>, p: D)
    requires Thinner(a, b) && Distinct(b) && OnEdge(b, p) && p in Nodes(a)
    ensures OnEdge(a, p)
  {
    var Cons(d, k, r) := b;
    if Thinner(a, r) {
      ThinnerNodes(a, r);
      ThinnerEdge(a, r, p);
    } else {
      ThinnerNodes(a.kids, k);
      ThinnerNodes(a.rest, r);
      if r.Cons? {
        EdgeInside(r, p);
        ThinnerEdge(a.rest, r, p);
      } else if p != d {
        EdgeInside(k, p);
        ThinnerEdge(a.kids, k, p);
      }
    }
  }

  lemma PruneAppended<D>(k: Forest<D>, x: D, j: nat)
    requires j <= Size(k)
    ensures Prune(Append(k, Leaf(x)), j) == Prune(k, j) && Preorder(Append(k, Leaf(x))) == Preorder(k) + [x]
  {
    match k
    case Nil =>
    case Cons(d, kk, r) =>
      PruneAppended(r, x, if j > 1 + Size(kk) then j - 1 - Size(kk) else 0);
      PruneNone(Append(r, Leaf(x)));
      PruneNone(r);
      assert [d] + Preorder(kk) + (Preorder(r) + [x]) == [d] + Preorder(kk) + Preorder(r) + [x];
  }

  /** A child added on the edge comes last in depth-first order. */
  lemma {:induction false} AddedIsLast<D>(a: Forest<D>, p: D, x: D, j: nat)
    requires Distinct(a) && OnEdge(a, p) && j <= Size(a)
    ensures Preorder(AddChild(a, p, x)) == Preorder(a) + [x] && Prune(AddChild(a, p, x), j) == Prune(a, j)
  {
    var Cons(d, k, r) := a;
    if r.Cons? {
      EdgeInside(r, p);
      AddAfterTree(d, k, r, p, x);
      AddedIsLast(r, p, x, if j > 1 + Size(k) then j - 1 - Size(k) else 0);
      PruneNone(AddChild(r, p, x));
      PruneNone(r);
      assert [d] + Preorder(k) + (Preorder(r) + [x]) == [d] + Preorder(k) + Preorder(r) + [x];
    } else {
      AddInTree(d, k, p, x);
      if p == d {
        PruneAppended(k, x, if j > 0 then j - 1 else 0);
        OneTree(d, Append(k, Leaf(x)));
      } else {
        EdgeInside(k, p);
        AddedIsLast(k, p, x, if j > 0 then j - 1 else 0);
        OneTree(d, AddChild(k, p, x));
      }
      OneTree(d, k);
      assert [d] + (Preorder(k) + [x]) == [d] + Preorder(k) + [x];
    }
  }

  lemma OneTree<D>(d: D, k: Forest<D>)
    ensures Preorder(Cons(d, k, Nil)) == [d] + Preorder(k)
    ensures forall j: nat :: Prune(Cons(d, k, Nil), j) == if j == 0 then Nil else Cons(d, Prune(k, j - 1), Nil)
  {
  }

  /** The stages of rebuilding are the first nodes of its result. */
  lemma {:induction false} StagesArePrefixes<D>(g: Forest<D>, m: nat, n: nat)
    requires Distinct(g) && Len(g) <= 1 && m <= n <= Size(g)
    ensures |Preorder(g)| == Size(g)
    ensures Size(Rebuilt(g, m)) <= Size(Rebuilt(g, n))
    ensures Prune(Rebuilt(g, n), Size(Rebuilt(g, m))) == Rebuilt(g, m)
    ensures Preorder(Rebuilt(g, m)) <= Preorder(Rebuilt(g, n))
  {
    hide Visit, Preorder, Elems, ParentOf, Prune, SetKids, KidsOf, AddChild, OnEdge, Thinner;
    OrdersHoldNodes(g);
    if m == n {
      PruneAll(Rebuilt(g, n), Size(Rebuilt(g, n)));
    } else {
      StagesArePrefixes(g, m, n - 1);
      StepNodes(g, n - 1);
      RebuiltThinner(g, n - 1);
      var a, x := Rebuilt(g, n - 1), Preorder(g)[n - 1];
      match ParentOf(g, x, None)
      case None =>
        PruneAppended(a, x, Size(Rebuilt(g, m)));
      case Some(v) =>
        if Kept(g, n - 1) {
          ParentOnEdge(g, n - 1);
          PruneDistinct(g, n - 1);
          ThinnerEdge(a, Prune(g, n - 1), v);
          AddedIsLast(a, v, x, Size(Rebuilt(g, m)));
        }
    }
  }

  lemma NothingRebuilt<D>(g: Forest<D>)
    ensures Rebuilt(g, 0) == Nil && Size(Rebuilt(g, 0)) == 0
  {
  }

  /** The `j`th node rebuilt was one of those replayed. */
  lemma {:induction false} OriginOf<D>(g: Forest<D>, n: nat, j: nat) returns (i: nat)
    requires Distinct(g) && Len(g) <= 1 && n <= Size(g) == |Preorder(g)| && j < Size(Rebuilt(g, n))
    ensures i < n && Kept(g, i) && Size(Rebuilt(g, i)) == j
    ensures |Preorder(Rebuilt(g, n))| == Size(Rebuilt(g, n)) && Preorder(Rebuilt(g, n))[j] == Preorder(g)[i]
  {
    hide Visit, Preorder, Elems, ParentOf, Prune, Kept, Rebuilt, Nodes, Distinct, Size, Len;
    NothingRebuilt(g);
    StepNodes(g, n - 1);
    StagesArePrefixes(g, n - 1, n);
    OrdersHoldNodes(Rebuilt(g, n - 1));
    OrdersHoldNodes(Rebuilt(g, n));
    if j < Size(Rebuilt(g, n - 1)) {
      i := OriginOf(g, n - 1, j);
    } else {
      i := n - 1;
      LastRebuilt(g, n - 1);
    }
  }

  lemma LastRebuilt<D>(g: Forest<D>, m: nat)
    requires Distinct(g) && Len(g) <= 1 && m < Size(g) == |Preorder(g)| && Kept(g, m)
    ensures Preorder(Rebuilt(g, m + 1)) == Preorder(Rebuilt(g, m)) + [Preorder(g)[m]]
  {
    hide Visit, Preorder, Elems, ParentOf, Prune, SetKids, KidsOf, AddChild, OnEdge, Thinner;
    StepNodes(g, m);
    RebuiltThinner(g, m);
    var a, x := Rebuilt(g, m), Preorder(g)[m];
    match ParentOf(g, x, None)
    case None =>
      PruneAppended(a, x, 0);
    case Some(v) =>
      ParentOnEdge(g, m);
      PruneDistinct(g, m);
      ThinnerEdge(a, Prune(g, m), v);
      AddedIsLast(a, v, x, 0);
  }

  /** All parents are visible in what has been rebuilt: replaying it again loses nothing. */
  lemma RebuiltIsStable<D>(g: Forest<D>)
    requires Distinct(g) && Len(g) <= 1
    ensures |Preorder(g)| == Size(g) && ParentsVisible(Rebuilt(g, Size(g)))
  {
    hide Visit, Preorder, Elems, ParentOf, Prune, Rebuilt, Thinner;
    OrdersHoldNodes(g);
    var n := Size(g);
    var h := Rebuilt(g, n);
    RebuiltThinner(g, n);
    PruneAll(g, n);
    OrdersHoldNodes(h);
    OrdersElems(h);
    forall j | 0 <= j < |Preorder(h)| ensures ParentVisible(h, j) {
      var i := OriginOf(g, n, j);
      var x := Preorder(h)[j];
      assert x in Elems(Preorder(h));
      ThinnerAt(h, g, x, None);
      StagesArePrefixes(g, i, n);
    }
  }

  // ----- Loading -----

  lemma RebuiltHasRoot<D>(g: Forest<D>, m: nat)
    requires 0 < m <= |Preorder(g)| && ParentOf(g, Preorder(g)[0], None).None?
    ensures Rebuilt(g, m).Cons?
  {
    if m > 1 {
      RebuiltHasRoot(g, m - 1);
    }
  }

  /** An id finds a node of the tree of references if and only if its node is visited. */
  lemma FoundIffVisited<R>(g: Forest<Info>, t: TreeState<R>, p: Info, cap: nat)
    requires WellFormed(t, cap) && Nodes(t.reach) <= t.info.Keys && Identified(g) && p in Nodes(g)
    requires Nodes(Contents(t)) <= Nodes(g) && Distinct(Contents(t)) && Len(Contents(t)) <= 1
    ensures Lookup(t, p.id).Some? <==> p in Elems(Visit(Contents(t)))
    ensures Lookup(t, p.id).Some? ==>
              var r := Lookup(t, p.id).value; r in Nodes(t.reach) && r in t.info && t.info[r] == p
  {
    hide Visit, Distinct, WellFormed;
    EraseShape(t.reach, t.info);
    VisitSound(Contents(t));
    LookupSound(t, p.id, cap);
    if Lookup(t, p.id).Some? {
      assert t.info[Lookup(t, p.id).value] in Nodes(Contents(t));
    }
    if p in Nodes(Contents(t)) {
      LookupIffVisited(t, p, cap);
    }
  }

  /** The next record adds its node just when the parent is visited in what has been rebuilt. */
  lemma ReplayNext<R>(g: Forest<Info>, t: TreeState<R>, x: R, m: nat, cap: nat)
    requires Savable(g, cap) && m < Size(g) && |Preorder(g)| == Size(g) == |Records(g, "")|
    requires WellFormed(t, cap) && Nodes(t.reach) <= t.info.Keys && Contents(t) == Rebuilt(g, m) && x !in t.info
    ensures var t' := LoadOne(t, x, Records(g, "")[m], cap);
            Nodes(t'.reach) <= t'.info.Keys && Contents(t') == Rebuilt(g, m + 1)
  {
    hide Visit, Prune, Bounded, Records, Preorder, Lookup, Savable, KidsOf, SetKids, AddChild, Rebuilt, Thinner, Grows;
    SavableShape(g, cap);
    NextNode(g, m, cap);
    RebuiltThinner(g, m);
    PruneDistinct(g, m);
    EraseShape(t.reach, t.info);
    AllFacts(t, cap);
    var n, rec := Preorder(g)[m], Records(g, "")[m];
    LoadOneKeepsForest(t, x, rec, cap);
    AllFacts(LoadOne(t, x, rec, cap), cap);
    NothingRebuilt(g);
    RebuiltStep(g, m);
    match ParentOf(g, n, None)
    case None =>
      ReplayRoot(t, x, rec, cap);
    case Some(p) =>
      OnlyFirstIsTop(g, 0);
      OnlyFirstIsTop(g, m);
      RebuiltHasRoot(g, m);
      SubsetIdentified(g, Rebuilt(g, m), cap);
      FoundIffVisited(g, t, p, cap);
      if Lookup(t, p.id).Some? {
        VisitSound(Rebuilt(g, m));
        ThinnerAt(Rebuilt(g, m), Prune(g, m), p, None);
        ThinnerSize(KidsOf(Rebuilt(g, m), p), KidsOf(Prune(g, m), p));
        ReplayBelow(t, x, rec, Lookup(t, p.id).value, cap);
      }
  }

  lemma RebuiltStep<D>(g: Forest<D>, m: nat)
    requires m < |Preorder(g)|
    ensures Rebuilt(g, m + 1) == AddVisible(Rebuilt(g, m), ParentOf(g, Preorder(g)[m], None), Preorder(g)[m])
  {
  }

  lemma SubsetIdentified(g: Forest<Info>, h: Forest<Info>, cap: nat)
    requires Savable(g, cap) && Distinct(h) && Nodes(h) <= Nodes(g)
    ensures Identified(h) && Identified(g) && forall n :: n in Nodes(h) ==> |n.id| < ID_SIZE
  {
  }

  /** Loading the first `m` records of a saved tree where no tree is gives what is rebuilt of it. */
  lemma {:induction false} LoadedIsRebuilt<R>(g: Forest<Info>, s: TreeState<R>, refs: seq<R>, m: nat, cap: nat)
    requires Savable(g, cap) && m <= Size(g) && m <= |refs|
    requires WellFormed(s, cap) && s.reach.Nil? && FreshRefs(s, refs)
    ensures |Preorder(g)| == Size(g) == |Records(g, "")|
    ensures var t := LoadFirst(s, refs, Records(g, ""), m, cap);
            Nodes(t.reach) <= t.info.Keys && Contents(t) == Rebuilt(g, m)
  {
    hide Visit, Prune, Bounded, Records, Preorder, Lookup, Savable, LoadOne, Erase, WellFormed, Nodes, Accepts, Size,
         Elems, NoRepeats, FreshRefs, AcceptedCount, AddVisible;
    RecordCount(g, "");
    OrdersHoldNodes(g);
    ReplayAny(s, refs, Records(g, ""), m, cap);
    if m == 0 {
      EraseNothing(s);
    } else {
      LoadedIsRebuilt(g, s, refs, m - 1, cap);
      ReplayAny(s, refs, Records(g, ""), m - 1, cap);
      ReplayNext(g, LoadFirst(s, refs, Records(g, ""), m - 1, cap), refs[m - 1], m - 1, cap);
    }
  }

  /** Loading a saved tree gives that tree with whole subtrees left out: exactly those of the nodes whose parent was
      rebuilt but is not visited when their turn comes. */
  lemma LoadLeavesOutSubtrees<R>(g: Forest<Info>, s: TreeState<R>, refs: seq<R>, cap: nat)
    requires Savable(g, cap) && Size(g) <= |refs|
    requires WellFormed(s, cap) && s.reach.Nil? && FreshRefs(s, refs)
    ensures |Preorder(g)| == Size(g) == |Records(g, "")|
    ensures var t := LoadFirst(s, refs, Records(g, ""), Size(g), cap);
            && Nodes(t.reach) <= t.info.Keys && Thinner(Contents(t), g)
            && (forall i :: 0 <= i < Size(g) ==> (Preorder(g)[i] in Nodes(Contents(t)) <==> Kept(g, i)))
  {
    hide Visit, Preorder, Records, LoadFirst, Savable, Rebuilt, Thinner, Kept, Nodes, WellFormed, FreshRefs;
    SavableShape(g, cap);
    LoadedIsRebuilt(g, s, refs, Size(g), cap);
    RebuiltThinner(g, Size(g));
    PruneAll(g, Size(g));
    forall i | 0 <= i < Size(g) ensures Preorder(g)[i] in Nodes(Rebuilt(g, Size(g))) <==> Kept(g, i) {
      RebuiltIffKept(g, Size(g), i);
    }
  }

  /** Whatever a first round of saving and loading has lost, a second one loses nothing. */
  lemma SecondLoadLosesNothing<R, Q>(g: Forest<Info>, s: TreeState<R>, refs: seq<R>, s': TreeState<Q>, refs': seq<Q>,
                                     cap: nat)
    requires Savable(g, cap) && Size(g) <= |refs| && Size(g) <= |refs'|
    requires WellFormed(s, cap) && s.reach.Nil? && FreshRefs(s, refs)
    requires WellFormed(s', cap) && s'.reach.Nil? && FreshRefs(s', refs')
    ensures |Records(g, "")| == Size(g)
    ensures var t := LoadFirst(s, refs, Records(g, ""), Size(g), cap);
            && Nodes(t.reach) <= t.info.Keys && |Records(Contents(t), "")| == Size(t.reach) <= Size(g)
            && var u := LoadFirst(s', refs', Records(Contents(t), ""), Size(t.reach), cap);
               Nodes(u.reach) <= u.info.Keys && Contents(u) == Contents(t)
  {
    hide Visit, Preorder, Records, LoadFirst, Savable, Rebuilt, Thinner, Nodes, WellFormed, FreshRefs, ParentsVisible,
         Erase;
    SavableShape(g, cap);
    LoadedIsRebuilt(g, s, refs, Size(g), cap);
    var t := LoadFirst(s, refs, Records(g, ""), Size(g), cap);
    var h := Contents(t);
    ReplayAny(s, refs, Records(g, ""), Size(g), cap);
    CountedRecords(t);
    SizeOfErased(t.reach, t.info);
    RebuiltIsStable(g);
    RebuiltSavable(g, cap);
    SaveLoadIffParentsVisible(h, s', refs', cap);
  }

  lemma RebuiltSavable(g: Forest<Info>, cap: nat)
    requires Savable(g, cap) && |Preorder(g)| == Size(g)
    ensures Savable(Rebuilt(g, Size(g)), cap)
  {
    hide Preorder, Rebuilt, Thinner;
    RebuiltThinner(g, Size(g));
    PruneAll(g, Size(g));
    ThinnerBounded(Rebuilt(g, Size(g)), g, cap);
    SubsetIdentified(g, Rebuilt(g, Size(g)), cap);
  }
}
