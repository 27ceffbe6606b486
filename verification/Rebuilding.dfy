/** Loading what was saved rebuilds the tree: exactly when each record's parent can still be looked up. */
module Rebuilding {
  import opened Forests
  import opened LevelOrder
  import opened IdentityTree
  import opened TreeLaws
  import opened Pruning
  import opened Persistence
  import opened NodeId

  // ----- Node data follows the references through every operation -----

  lemma EraseShape<R>(f: Forest<R>, info: map<R, Info>)
    requires Nodes(f) <= info.Keys
    ensures Len(Erase(f, info)) == Len(f) && Size(Erase(f, info)) == Size(f)
    ensures Nodes(Erase(f, info)) == set n | n in Nodes(f) :: info[n]
    ensures Erase(f, info).Nil? <==> f.Nil?
  {
  }

  lemma EraseAppend<R>(a: Forest<R>, b: Forest<R>, info: map<R, Info>)
    requires Nodes(a) <= info.Keys && Nodes(b) <= info.Keys
    ensures Nodes(Append(a, b)) <= info.Keys
    ensures Erase(Append(a, b), info) == Append(Erase(a, info), Erase(b, info))
  {
    AppendFacts(a, b);
  }

  lemma EraseSame<R>(f: Forest<R>, info: map<R, Info>, other: map<R, Info>)
    requires Nodes(f) <= info.Keys && Nodes(f) <= other.Keys
    requires forall n :: n in Nodes(f) ==> info[n] == other[n]
    ensures Erase(f, info) == Erase(f, other)
  {
  }

  /** Different nodes carry different data. */
  ghost predicate Injective<R>(f: Forest<R>, info: map<R, Info>) {
    Nodes(f) <= info.Keys && forall m, n :: m in Nodes(f) && n in Nodes(f) && info[m] == info[n] ==> m == n
  }

  lemma EraseKidsOf<R>(f: Forest<R>, info: map<R, Info>, p: R)
    requires Distinct(f) && Injective(f, info) && p in Nodes(f)
    ensures Nodes(KidsOf(f, p)) <= info.Keys
    ensures KidsOf(Erase(f, info), info[p]) == Erase(KidsOf(f, p), info)
  {
    match f
    case Cons(d, k, r) =>
      KidsFacts(f, p);
      EraseShape(k, info);
      if d != p {
        if p in Nodes(k) {
          EraseKidsOf(k, info, p);
        } else {
          EraseKidsOf(r, info, p);
        }
      }
  }

  lemma EraseSetKids<R>(f: Forest<R>, info: map<R, Info>, p: R, g: Forest<R>)
    requires Injective(f, info) && p in info && Nodes(g) <= info.Keys
    requires forall n :: n in Nodes(f) && info[n] == info[p] ==> n == p
    ensures Nodes(SetKids(f, p, g)) <= info.Keys
    ensures Erase(SetKids(f, p, g), info) == SetKids(Erase(f, info), info[p], Erase(g, info))
  {
  }

  lemma EraseAddChild<R>(f: Forest<R>, info: map<R, Info>, p: R, x: R)
    requires Distinct(f) && Injective(f, info) && p in Nodes(f) && x !in Nodes(f) && x in info
    ensures Nodes(AddChild(f, p, x)) <= info.Keys
    ensures Erase(AddChild(f, p, x), info) == AddChild(Erase(f, info), info[p], info[x])
  {
    KidsFacts(f, p);
    EraseKidsOf(f, info, p);
    AppendFacts(KidsOf(f, p), Leaf(x));
    EraseAppend(KidsOf(f, p), Leaf(x), info);
    EraseSetKids(f, info, p, Append(KidsOf(f, p), Leaf(x)));
  }

  lemma {:induction false} ErasePushAll<R>(q: Forest<R>, ts: Forest<R>, info: map<R, Info>)
    requires Nodes(q) <= info.Keys && Nodes(ts) <= info.Keys
    ensures Nodes(PushAll(q, ts)) <= info.Keys
    ensures Erase(PushAll(q, ts), info) == PushAll(Erase(q, info), Erase(ts, info))
    decreases ts
  {
    match ts
    case Nil =>
    case Cons(d, k, rest) =>
      AppendFacts(q, Cons(d, k, Nil));
      EraseShape(q, info);
      EraseAppend(q, Cons(d, k, Nil), info);
      ErasePushAll(Push(q, d, k), rest, info);
  }

  /** Traversal of the node data visits the data of the nodes visited. */
  lemma {:induction false} EraseVisit<R>(q: Forest<R>, info: map<R, Info>, i: nat)
    requires Nodes(q) <= info.Keys
    ensures |Visit(Erase(q, info))| == |Visit(q)|
    ensures i < |Visit(q)| ==> Visit(q)[i] in info && Visit(Erase(q, info))[i] == info[Visit(q)[i]]
    decreases Size(q)
  {
    match q
    case Nil =>
    case Cons(d, k, r) =>
      ErasePushAll(r, k, info);
      EraseVisit(PushAll(r, k), info, if i > 0 then i - 1 else 0);
  }

  // ----- Looking up the parent of a record -----

  /** In a tree whose ids identify, an id is found exactly when its node is among those visited. */
  lemma LookupIffVisited<R>(s: TreeState<R>, p: Info, cap: nat)
    requires WellFormed(s, cap) && Nodes(s.reach) <= s.info.Keys && Identified(Contents(s)) && p in Nodes(Contents(s))
    ensures Lookup(s, p.id).Some? <==> p in Elems(Visit(Contents(s)))
    ensures Lookup(s, p.id).Some? ==>
              var r := Lookup(s, p.id).value; r in Nodes(s.reach) && r in s.info && s.info[r] == p
  {
    hide Visit, Nodes, Distinct, WellFormed;
    var v, w := Visit(s.reach), Visit(Contents(s));
    EraseShape(s.reach, s.info);
    if Lookup(s, p.id).Some? {
      var r := Lookup(s, p.id).value;
      LookupSound(s, p.id, cap);
      assert s.info[r] in Nodes(Contents(s));
      var i := MatchIndex(v, s.info, p.id);
      EraseVisit(s.reach, s.info, i);
      assert w[i] == p;
    }
    if p in w {
      var i :| 0 <= i < |w| && w[i] == p;
      EraseVisit(s.reach, s.info, i);
      assert HasId(s.info, v[i], p.id);
    }
  }

  lemma {:induction false} DistinctIsInjective<R>(f: Forest<R>, info: map<R, Info>)
    requires Distinct(f) && Nodes(f) <= info.Keys && Distinct(Erase(f, info))
    ensures Injective(f, info)
  {
    match f
    case Nil =>
    case Cons(d, k, r) =>
      DistinctIsInjective(k, info);
      DistinctIsInjective(r, info);
      EraseShape(k, info);
      EraseShape(r, info);
      forall m, n | m in Nodes(f) && n in Nodes(f) && info[m] == info[n] ensures m == n {
        assert m in Nodes(k) ==> info[m] in Nodes(Erase(k, info));
        assert n in Nodes(k) ==> info[n] in Nodes(Erase(k, info));
        assert m in Nodes(r) ==> info[m] in Nodes(Erase(r, info));
        assert n in Nodes(r) ==> info[n] in Nodes(Erase(r, info));
      }
  }

  lemma {:induction false} UniqueIsDistinct<R>(f: Forest<R>, info: map<R, Info>)
    requires Distinct(f) && Injective(f, info)
    ensures Distinct(Erase(f, info))
  {
    match f
    case Nil =>
    case Cons(d, k, r) =>
      UniqueIsDistinct(k, info);
      UniqueIsDistinct(r, info);
      EraseShape(k, info);
      EraseShape(r, info);
  }

  /** Unique ids make the node data of the tree identified by id. */
  lemma UniqueIdsIdentify<R>(s: TreeState<R>, cap: nat)
    requires WellFormed(s, cap) && UniqueReachIds(s)
    ensures Nodes(s.reach) <= s.info.Keys && Identified(Contents(s))
    ensures Bounded(Contents(s), cap) && Len(Contents(s)) <= 1
  {
    AllFacts(s, cap);
    UniqueIsDistinct(s.reach, s.info);
    EraseShape(s.reach, s.info);
    EraseBounded(s.reach, s.info, cap);
  }

  lemma EraseBounded<R>(f: Forest<R>, info: map<R, Info>, cap: nat)
    requires Nodes(f) <= info.Keys && Bounded(f, cap)
    ensures Bounded(Erase(f, info), cap)
  {
    if f.Cons? {
      EraseShape(f.kids, info);
    }
  }

  // ----- Replaying the records of a tree -----

  /** A tree that can be saved without loss: one root, at most `cap` children a node, identifying ids
      that fit their field. */
  ghost predicate Savable(g: Forest<Info>, cap: nat) {
    && Len(g) <= 1 && Bounded(g, cap) && Identified(g)
    && forall n :: n in Nodes(g) ==> |n.id| < ID_SIZE
  }

  /** The parent of the `m`th node is visited in the tree of the first `m` nodes: its id can be looked up
      when the node's record is replayed. */
  ghost predicate ParentVisible<D>(g: Forest<D>, m: nat)
    requires m < |Preorder(g)|
  {
    match ParentOf(g, Preorder(g)[m], None)
    case None => true
    case Some(p) => p in Elems(Visit(Prune(g, m)))
  }

  /** Every node's parent is visible when the node's turn comes. */
  ghost predicate ParentsVisible<D>(g: Forest<D>) {
    forall i :: 0 <= i < |Preorder(g)| ==> ParentVisible(g, i)
  }

  lemma NextNode(g: Forest<Info>, m: nat, cap: nat)
    requires Savable(g, cap) && m < Size(g)
    ensures |Preorder(g)| == Size(g) && |Records(g, "")| == Size(g)
    ensures var n, rec := Preorder(g)[m], Records(g, "")[m];
            && Grows(g, m, n) && Restored(rec) == n
            && match ParentOf(g, n, None)
               case None => m == 0 && Prune(g, m).Nil?
               case Some(p) => rec.parentId == p.id && p in Nodes(Prune(g, m)) && Len(KidsOf(Prune(g, m), p)) < cap
  {
    RecordAt(g, "", m);
    PruneStep(g, m);
    PruneDistinct(g, m);
    var n := Preorder(g)[m];
    match ParentOf(g, n, None)
    case None =>
      PruneDistinct(g, m + 1);
      AppendFacts(Prune(g, m), Leaf(n));
      PruneSize(g, m);
      LenZero(Prune(g, m));
    case Some(p) =>
      RoomInPrune(g, m, n, p, cap);
      assert p in Nodes(g);
  }

  /** The full tree's bound leaves room for the next child while it is missing. */
  lemma RoomInPrune(g: Forest<Info>, m: nat, n: Info, p: Info, cap: nat)
    requires Distinct(g) && Bounded(g, cap) && Grows(g, m, n) && ParentOf(g, n, None) == Some(p)
    ensures Len(KidsOf(Prune(g, m), p)) < cap
  {
    var a := Prune(g, m);
    PruneDistinct(g, m);
    AddChildAt(a, p, n, p);
    AddChildFits(a, p, n);
    PruneKids(g, m + 1, p, cap);
    OrdersHoldNodes(KidsOf(a, p));
    OrdersHoldNodes(KidsOf(AddChild(a, p, n), p));
  }

  lemma PruneIdentified(g: Forest<Info>, m: nat, cap: nat)
    requires Savable(g, cap)
    ensures Identified(Prune(g, m))
  {
    PruneDistinct(g, m);
  }

  /** Replaying record `m` on the tree of the first `m` nodes is accepted exactly when the parent is
      visible, and then gives the tree of the first `m + 1` nodes. */
  lemma ReplayOne<R>(g: Forest<Info>, t: TreeState<R>, x: R, m: nat, cap: nat)
    requires Savable(g, cap) && m < Size(g)
    requires WellFormed(t, cap) && Nodes(t.reach) <= t.info.Keys && Contents(t) == Prune(g, m) && x !in t.info
    ensures |Preorder(g)| == Size(g) && |Records(g, "")| == Size(g)
    ensures Accepts(t, Some(Records(g, "")[m].parentId), cap) <==> ParentVisible(g, m)
    ensures var t' := LoadOne(t, x, Records(g, "")[m], cap);
            && Nodes(t'.reach) <= t'.info.Keys
            && (ParentVisible(g, m) ==> Contents(t') == Prune(g, m + 1))
  {
    hide Visit, Prune, Bounded, Records, Preorder, Lookup, Savable, KidsOf, SetKids, AddChild;
    NextNode(g, m, cap);
    EraseShape(t.reach, t.info);
    AllFacts(t, cap);
    var n, rec := Preorder(g)[m], Records(g, "")[m];
    LoadOneKeepsForest(t, x, rec, cap);
    AllFacts(LoadOne(t, x, rec, cap), cap);
    match ParentOf(g, n, None)
    case None =>
      ReplayRoot(t, x, rec, cap);
    case Some(p) =>
      PruneIdentified(g, m, cap);
      LookupIffVisited(t, p, cap);
      if Lookup(t, p.id).Some? {
        ReplayBelow(t, x, rec, Lookup(t, p.id).value, cap);
      }
  }

  lemma ReplayRoot<R>(t: TreeState<R>, x: R, rec: Record, cap: nat)
    requires t.reach.Nil?
    ensures var t' := LoadOne(t, x, rec, cap);
            Nodes(t'.reach) <= t'.info.Keys && Contents(t') == Leaf(Restored(rec))
  {
    var t' := LoadOne(t, x, rec, cap);
    assert t'.reach == Cons(x, Nil, Nil) && Erase<R>(Nil, t'.info) == Nil;
  }

  lemma ReplayBelow<R>(t: TreeState<R>, x: R, rec: Record, r: R, cap: nat)
    requires WellFormed(t, cap) && Nodes(t.reach) <= t.info.Keys && Identified(Contents(t)) && x !in t.info
    requires t.reach.Cons? && Lookup(t, rec.parentId) == Some(r) && r in Nodes(t.reach)
    ensures Len(KidsOf(t.reach, r)) == Len(KidsOf(Contents(t), t.info[r]))
    ensures Len(KidsOf(t.reach, r)) < cap ==>
              var t' := LoadOne(t, x, rec, cap);
              Nodes(t'.reach) <= t'.info.Keys && Contents(t') == AddChild(Contents(t), t.info[r], Restored(rec))
  {
    AllFacts(t, cap);
    DistinctIsInjective(t.reach, t.info);
    EraseKidsOf(t.reach, t.info, r);
    EraseShape(KidsOf(t.reach, r), t.info);
    if Len(KidsOf(t.reach, r)) < cap {
      var info := t.info[x := Restored(rec)];
      assert LoadOne(t, x, rec, cap).info == info;
      EraseSame(t.reach, t.info, info);
      EraseAddChild(t.reach, info, r, x);
    }
  }

  // ----- Main results -----

  /** Replaying any records where no tree is gives one tree, counted right; whatever was cut loose before
      stays as it is. */
  lemma ReplayAny<R>(s: TreeState<R>, refs: seq<R>, recs: seq<Record>, m: nat, cap: nat)
    requires WellFormed(s, cap) && s.reach.Nil? && m <= |recs| && m <= |refs| && FreshRefs(s, refs)
    ensures var t := LoadFirst(s, refs, recs, m, cap);
            && WellFormed(t, cap) && Nodes(t.reach) <= t.info.Keys && t.detached == s.detached
            && t.total == s.total + Size(t.reach) && Size(t.reach) == AcceptedCount(s, refs, recs, m, cap) <= m
            && (m < |refs| ==> refs[m] !in t.info)
  {
    hide LoadFirst, WellFormed, AcceptedCount;
    var t := LoadFirst(s, refs, recs, m, cap);
    LoadKeepsForest(s, refs, recs, m, cap);
    AllFacts(s, cap);
    AllFacts(t, cap);
    if m < |refs| {
      NextRefIsFresh(refs, m);
      assert refs[m] in Elems(refs);
    }
  }

  lemma NextRefIsFresh<R>(refs: seq<R>, m: nat)
    requires NoRepeats(refs) && m < |refs|
    ensures refs[m] !in Elems(refs[..m])
  {
  }

  /** Replaying the first `m` records of a saved tree where no tree is: all are accepted if and only if
      each one's parent is visible, and then the tree holds exactly the first `m` nodes, with their data,
      parents and order.  With fewer records than were saved this is what a truncated file yields. */
  lemma {:induction false} ReplayFirst<R>(g: Forest<Info>, s: TreeState<R>, refs: seq<R>, m: nat, cap: nat)
    requires Savable(g, cap) && m <= Size(g) && m <= |refs|
    requires WellFormed(s, cap) && s.reach.Nil? && FreshRefs(s, refs)
    ensures |Preorder(g)| == Size(g) && |Records(g, "")| == Size(g)
    ensures var t := LoadFirst(s, refs, Records(g, ""), m, cap);
            && Nodes(t.reach) <= t.info.Keys && Size(t.reach) <= m
            && (Size(t.reach) == m <==> forall i :: 0 <= i < m ==> ParentVisible(g, i))
            && (Size(t.reach) == m ==> Contents(t) == Prune(g, m))
  {
    hide Visit, Prune, Bounded, Records, Preorder, Lookup, Savable, ParentVisible, LoadOne, Erase, WellFormed, Nodes,
         Accepts, Size, Elems, NoRepeats, FreshRefs, AcceptedCount;
    RecordCount(g, "");
    OrdersHoldNodes(g);
    ReplayAny(s, refs, Records(g, ""), m, cap);
    if m == 0 {
      PruneNone(g);
      EraseNothing(s);
    } else {
      ReplayFirst(g, s, refs, m - 1, cap);
      ReplayAny(s, refs, Records(g, ""), m - 1, cap);
      var t := LoadFirst(s, refs, Records(g, ""), m - 1, cap);
      LoadOneKeepsForest(t, refs[m - 1], Records(g, "")[m - 1], cap);
      if Size(t.reach) == m - 1 {
        ReplayOne(g, t, refs[m - 1], m - 1, cap);
      }
    }
  }

  lemma EraseNothing<R>(s: TreeState<R>)
    requires s.reach.Nil?
    ensures Nodes(s.reach) <= s.info.Keys && Contents(s) == Nil && Size(s.reach) == 0
  {
  }

  /** Saving a tree and loading the records where no tree is gives the same tree -- shape, child order,
      ids, creation times and flags -- if and only if every record's parent is visible when replayed. */
  lemma SaveLoadIffParentsVisible<R>(g: Forest<Info>, s: TreeState<R>, refs: seq<R>, cap: nat)
    requires Savable(g, cap) && Size(g) <= |refs|
    requires WellFormed(s, cap) && s.reach.Nil? && FreshRefs(s, refs)
    ensures |Preorder(g)| == Size(g) == |Records(g, "")|
    ensures var t := LoadFirst(s, refs, Records(g, ""), Size(g), cap);
            && Nodes(t.reach) <= t.info.Keys
            && (Contents(t) == g <==> ParentsVisible(g))
            && (Contents(t) == g ==> t.total == s.total + Size(g) && Records(Contents(t), "") == Records(g, ""))
  {
    hide Visit, Bounded, Records, Preorder, Lookup, Savable, ParentVisible, LoadOne, LoadFirst, WellFormed;
    ReplayFirst(g, s, refs, Size(g), cap);
    ReplayAny(s, refs, Records(g, ""), Size(g), cap);
    var t := LoadFirst(s, refs, Records(g, ""), Size(g), cap);
    EraseShape(t.reach, t.info);
    PruneAll(g, Size(g));
  }

  /** Every parent is visible when the waiting list of the whole tree never outgrows the queue ... */
  lemma PeakFitsParentsVisible<D>(g: Forest<D>, i: nat)
    requires Len(g) <= 1 && Distinct(g) && i < Size(g) && Peak(g) <= MAX_QUEUE_SIZE
    ensures |Preorder(g)| == Size(g) && ParentVisible(g, i)
  {
    PruneStep(g, i);
    PruneThinner(g, i);
    ThinnerPeak(Prune(g, i), g);
    PruneDistinct(g, i);
    VisitComplete(Prune(g, i));
  }

  /** ... and, whatever its shape, when it has at most two nodes more than the queue has slots. */
  lemma SmallParentsVisible<D>(g: Forest<D>, i: nat)
    requires Len(g) <= 1 && Distinct(g) && i < Size(g) <= MAX_QUEUE_SIZE + 2
    ensures |Preorder(g)| == Size(g) && ParentVisible(g, i)
  {
    PruneStep(g, i);
    PruneSize(g, i);
    PruneDistinct(g, i);
    SmallPeakFits(Prune(g, i));
    VisitComplete(Prune(g, i));
  }

  lemma FittingParentsVisible<D>(g: Forest<D>)
    requires Len(g) <= 1 && Distinct(g)
    requires Peak(g) <= MAX_QUEUE_SIZE || Size(g) <= MAX_QUEUE_SIZE + 2
    ensures ParentsVisible(g)
  {
    hide Peak, Visit, Preorder, ParentVisible;
    OrdersHoldNodes(g);
    forall i | 0 <= i < |Preorder(g)| ensures ParentVisible(g, i) {
      if Peak(g) <= MAX_QUEUE_SIZE {
        PeakFitsParentsVisible(g, i);
      } else {
        SmallParentsVisible(g, i);
      }
    }
  }

  /** The reachable tree of `s` is well enough named to be saved without loss. */
  ghost predicate WellNamed<R>(s: TreeState<R>) {
    UniqueReachIds(s) && forall n :: n in Nodes(s.reach) && n in s.info ==> |s.info[n].id| < ID_SIZE
  }

  lemma WellNamedIsSavable<R>(s: TreeState<R>, cap: nat)
    requires WellFormed(s, cap) && WellNamed(s)
    ensures Nodes(s.reach) <= s.info.Keys && Savable(Contents(s), cap)
  {
    UniqueIdsIdentify(s, cap);
    EraseShape(s.reach, s.info);
  }

  /** So a reachable tree with unique ids survives saving and loading when its peak fits the queue, in
      particular when it has at most `MAX_QUEUE_SIZE + 2` nodes. */
  lemma SaveLoadRoundTrip<R, Q>(s: TreeState<R>, empty: TreeState<Q>, refs: seq<Q>, cap: nat)
    requires WellFormed(s, cap) && WellNamed(s) && Nodes(s.reach) <= s.info.Keys
    requires WellFormed(empty, cap) && empty.reach.Nil? && FreshRefs(empty, refs) && Size(s.reach) <= |refs|
    requires Peak(s.reach) <= MAX_QUEUE_SIZE || Size(s.reach) <= MAX_QUEUE_SIZE + 2
    ensures |Records(Contents(s), "")| == Size(s.reach)
    ensures var t := LoadFirst(empty, refs, Records(Contents(s), ""), Size(s.reach), cap);
            && WellFormed(t, cap) && Nodes(t.reach) <= t.info.Keys
            && Contents(t) == Contents(s) && t.total == empty.total + Size(s.reach) && t.detached == empty.detached
  {
    hide Visit, Bounded, Records, Preorder, Lookup, LoadOne, LoadFirst, Prune, Savable, WellNamed, WellFormed,
         ParentVisible;
    var g := Contents(s);
    WellNamedIsSavable(s, cap);
    AllFacts(s, cap);
    EraseShape(s.reach, s.info);
    ErasePeak(s.reach, s.info);
    SavableShape(g, cap);
    FittingParentsVisible(g);
    SaveLoadIffParentsVisible(g, empty, refs, cap);
    ReplayAny(empty, refs, Records(g, ""), Size(g), cap);
  }

  lemma CountedRecords<R>(s: TreeState<R>)
    requires Nodes(s.reach) <= s.info.Keys
    ensures |Records(Contents(s), "")| == Size(s.reach)
  {
    SizeOfErased(s.reach, s.info);
    RecordCount(Contents(s), "");
  }

  lemma SavableShape(g: Forest<Info>, cap: nat)
    requires Savable(g, cap)
    ensures Len(g) <= 1 && Distinct(g)
  {
  }

  lemma {:induction false} ErasePeak<R>(q: Forest<R>, info: map<R, Info>)
    requires Nodes(q) <= info.Keys
    ensures Peak(Erase(q, info)) == Peak(q)
    decreases Size(q)
  {
    match q
    case Nil =>
    case Cons(d, k, r) =>
      AppendFacts(r, k);
      EraseShape(r, info);
      EraseShape(k, info);
      EraseAppend(r, k, info);
      ErasePeak(Append(r, k), info);
  }

  // ----- Visibility of parents does not depend on the data -----

  lemma {:induction false} ErasePreorder<R>(f: Forest<R>, info: map<R, Info>, i: nat)
    requires Nodes(f) <= info.Keys && i < Size(f)
    ensures |Preorder(f)| == |Preorder(Erase(f, info))| == Size(f)
    ensures Preorder(f)[i] in Nodes(f) && Preorder(Erase(f, info))[i] == info[Preorder(f)[i]]
  {
    hide Preorder;
    var Cons(d, k, r) := f;
    SizeOfErased(k, info);
    SizeOfErased(r, info);
    PreorderAt(d, k, r, i);
    PreorderAt(info[d], Erase(k, info), Erase(r, info), i);
    if 0 < i <= Size(k) {
      ErasePreorder(k, info, i - 1);
    } else if i > Size(k) {
      ErasePreorder(r, info, i - 1 - Size(k));
    }
  }

  lemma ErasePrune<R>(f: Forest<R>, info: map<R, Info>, m: nat)
    requires Nodes(f) <= info.Keys
    ensures Nodes(Prune(f, m)) <= Nodes(f) && Erase(Prune(f, m), info) == Prune(Erase(f, info), m)
  {
    PruneDistinct(f, m);
    if f.Cons? {
      SizeOfErased(f.kids, info);
    }
  }

  ghost function DataOf<R>(o: Option<R>, info: map<R, Info>): Option<Info> {
    match o
    case None => None
    case Some(n) => if n in info then Some(info[n]) else None
  }

  lemma {:induction false} EraseParentOf<R>(f: Forest<R>, info: map<R, Info>, n: R, top: Option<R>)
    requires Distinct(f) && Injective(f, info) && n in Nodes(f)
    ensures ParentOf(Erase(f, info), info[n], DataOf(top, info)) == DataOf(ParentOf(f, n, top), info)
  {
    var Cons(d, k, r) := f;
    EraseShape(k, info);
    if d != n {
      if n in Nodes(k) {
        EraseParentOf(k, info, n, Some(d));
      } else {
        EraseParentOf(r, info, n, top);
      }
    }
  }

  lemma EraseVisited<R>(q: Forest<R>, f: Forest<R>, info: map<R, Info>, p: R)
    requires Injective(f, info) && Nodes(q) <= Nodes(f) && p in Nodes(f) && Len(q) <= MAX_QUEUE_SIZE
    ensures p in Elems(Visit(q)) <==> info[p] in Elems(Visit(Erase(q, info)))
  {
    hide Visit, Nodes;
    var v, w := Visit(q), Visit(Erase(q, info));
    VisitSound(q);
    if p in Elems(v) {
      var i :| 0 <= i < |v| && v[i] == p;
      EraseVisit(q, info, i);
      assert w[i] == info[p];
    }
    if info[p] in Elems(w) {
      EraseVisit(q, info, 0);
      var i :| 0 <= i < |w| && w[i] == info[p];
      EraseVisit(q, info, i);
      assert v[i] in Elems(v);
    }
  }

  lemma EraseParentsVisible<R>(f: Forest<R>, info: map<R, Info>)
    requires Distinct(f) && Injective(f, info) && Len(f) <= 1
    ensures ParentsVisible(Erase(f, info)) <==> ParentsVisible(f)
  {
    hide Visit, Preorder, Erase, Prune;
    OrdersHoldNodes(f);
    SizeOfErased(f, info);
    OrdersHoldNodes(Erase(f, info));
    forall i | 0 <= i < Size(f) ensures ParentVisible(Erase(f, info), i) <==> ParentVisible(f, i) {
      var n := Preorder(f)[i];
      ErasePreorder(f, info, i);
      EraseParentOf(f, info, n, None);
      ErasePrune(f, info, i);
      PruneDistinct(f, i);
      ParentInside(f, n, None);
      if ParentOf(f, n, None).Some? {
        EraseVisited(Prune(f, i), f, info, ParentOf(f, n, None).value);
      }
    }
  }
}
