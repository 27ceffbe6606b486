/** When the queue's bound is felt: for every limit of two or more children a run of creations leads to a tree
    in which a live node is looked up in vain, and which does not survive saving and loading; for smaller
    limits no run does. */
module Overflows {
  import opened Forests
  import opened Surgery
  import opened LevelOrder
  import opened IdentityTree
  import opened TreeLaws
  import opened DeletionLaws
  import opened TreeRuns
  import opened Pruning
  import opened Persistence
  import opened Rebuilding
  import opened Restarts
  import opened Breadth
  import opened Growth
  import opened BroadTrees

  /** The tree of `s` comes back when it is saved and loaded into a new context. */
  ghost predicate Survives<R>(s: TreeState<R>, refs: seq<R>, cap: nat) {
    && Nodes(s.reach) <= s.info.Keys && |Records(Contents(s), "")| <= |refs|
    && var recs := Records(Contents(s), "");
       var t := LoadFirst(Empty<R>(), refs, recs, |recs|, cap);
       Nodes(t.reach) <= t.info.Keys && Contents(t) == Contents(s)
  }

  // ----- The broad tree is built -----

  lemma StalkIsGraftable(h: nat, cap: nat)
    requires h == 11 && cap >= 2
    ensures var first := Cons(h + 3, Nil, Stalk(1, h - 2, true));
            && Graftable(Leaf(0), 0, first, cap) && SetKids(Leaf(0), 0, first) == Cons(0, first, Nil)
            && Size(first) == h + 3 && Level(Leaf(0), 0) + Depth(first) <= 21 && Narrow(SetKids(Leaf(0), 0, first), 20)
  {
    hide Stalk, Narrow;
    var b := Stalk(1, h - 2, true);
    var first := Cons(h + 3, Nil, b);
    StalkFacts(1, h - 2, true);
    BoundedMore(b, 2, cap);
    DepthAtMostSize(first);
    SingleFacts(0, first);
    SmallNarrow(Cons(0, first, Nil), 20);
  }

  lemma BoundedMore<D>(f: Forest<D>, a: nat, b: nat)
    requires Bounded(f, a) && a <= b
    ensures Bounded(f, b)
  {
  }

  lemma BranchFacts(h: nat)
    requires h == 11
    ensures var k := FullKids(h + 3, h);
            && Distinct(k) && Size(k) == Count(h) - 1 && Len(k) == 2 && Bounded(k, 2) && Depth(k) == h - 1
            && (forall n :: n in Nodes(k) ==> n > h + 3)
  {
    hide Full, FullKids, Count, Distinct, Nodes, Append, Size, Len, Bounded, Complete;
    FullFacts(h + 3, h);
    FullShape(h + 3, h);
    SingleFacts(h + 3, FullKids(h + 3, h));
    SingleShape(h + 3, FullKids(h + 3, h), h);
  }

  lemma SingleShape<D>(d: D, k: Forest<D>, h: nat)
    requires Complete(Cons(d, k, Nil), h) && h > 1
    ensures Len(k) == 2 && Bounded(Cons(d, k, Nil), 2) ==> Bounded(k, 2)
    ensures Len(k) == 2 && Depth(k) + 1 == Depth(Cons(d, k, Nil))
  {
  }

  lemma BranchIsGraftable(h: nat, cap: nat)
    requires h == 11 && cap >= 2
    ensures var small := Cons(0, Cons(h + 3, Nil, Stalk(1, h - 2, true)), Nil); var k := FullKids(h + 3, h);
            && Graftable(small, h + 3, k, cap) && SetKids(small, h + 3, k) == Broad(h, true)
            && Size(k) < 3000 && Level(small, h + 3) + Depth(k) <= h && Narrow(Broad(h, true), h - 1)
  {
    hide Stalk, Narrow, Full, FullKids, Count, Append, Nodes, Distinct, Bounded, KidsOf, SetKids, Level, Size, Depth,
         Len;
    var b, k := Stalk(1, h - 2, true), FullKids(h + 3, h);
    var small := Cons(0, Cons(h + 3, Nil, b), Nil);
    BranchFacts(h);
    FullFacts(h + 3, h);
    BroadNarrow(h, true);
    StalkFacts(1, h - 2, true);
    LeafBeside(0, h + 3, b, k);
    BoundedMore(small, 2, cap);
    BoundedMore(k, 2, cap);
    RangesApart(Nodes(small), Nodes(k), h + 4);
    BesideTree(h + 3, k, b);
    Doublings();
  }

  /** A leaf `e` beside the tree `b`, below `d`. */
  lemma LeafBeside<D>(d: D, e: D, b: Forest<D>, k: Forest<D>)
    requires d != e && {d, e} !! Nodes(b) && Distinct(b) && Bounded(b, 2) && Len(b) == 1
    ensures var f := Cons(d, Cons(e, Nil, b), Nil);
            && Distinct(f) && Bounded(f, 2) && Nodes(f) == {d, e} + Nodes(b) && KidsOf(f, e).Nil? && Level(f, e) == 1
            && SetKids(f, e, k) == Cons(d, Cons(e, k, b), Nil)
  {
    var f := Cons(e, Nil, b);
    SetKidsAbsent(b, e, k);
    assert Nodes(f) == {e} + Nodes(b) && Distinct(f) && Bounded(f, 2) && Len(f) == 2;
    assert SetKids(f, e, k) == Cons(e, k, b);
    assert KidsOf(f, e) == Nil && Level(f, e) == 0;
  }

  lemma BesideTree<D>(d: D, k: Forest<D>, b: Forest<D>)
    ensures Append(Cons(d, k, Nil), b) == Cons(d, k, b)
  {
  }

  /** With room for two children a node, a run of creations builds the broad tree: first the stalk, while the
      branch beside it is a leaf, then the branch. */
  lemma BroadIsBuilt(h: nat, cap: nat) returns (trace: seq<System<int>>, ops: seq<Op<int>>)
    requires h == 11 && cap >= 2
    ensures Builds(trace, ops, cap, Broad(h, true))
  {
    hide Full, FullKids, Stalk, Count, Builds, Narrow, Creations, Graftable, Broad, SetKids, Prune, Append, Size,
         Depth, Level;
    var k := FullKids(h + 3, h);
    var first := Cons(h + 3, Nil, Stalk(1, h - 2, true));
    StalkIsGraftable(h, cap);
    BranchIsGraftable(h, cap);
    PruneAll(first, Size(first));
    PruneAll(k, Size(k));
    trace, ops := CreateRoot(cap, 0);
    trace, ops := FillIn(trace, ops, cap, Leaf(0), 0, first, Size(first), 20);
    trace, ops := FillIn(trace, ops, cap, Cons(0, first, Nil), h + 3, k, Size(k), h - 1);
  }

  // ----- Main results -----

  /** After a run the tree survives if and only if every parent is visible when its child's turn comes. */
  lemma SurvivesIffVisible<R>(trace: seq<System<R>>, ops: seq<Op<R>>, cap: nat, refs: seq<R>)
    requires FreshRun(trace, ops, cap) && NoRepeats(refs) && Size(Final(trace).reach) <= |refs|
    ensures Survives(Final(trace), refs, cap) <==> ParentsVisible(Final(trace).reach)
  {
    hide FreshRun, WellFormed, RootFlags, IdsDrawn, Savable, ParentsVisible, Distinct, LoadFirst, WellNamed,
         UniqueReachIds;
    var s := Final(trace);
    FreshRunFacts(trace, ops, cap);
    DrawnIsWellNamed(s, Creations(ops), cap);
    WellNamedIsSavable(s, cap);
    CountedRecords(s);
    SizeOfErased(s.reach, s.info);
    EmptyStart<R>(cap);
    SaveLoadIffParentsVisible(Contents(s), Empty<R>(), refs, cap);
    AllFacts(s, cap);
    SavableShape(Contents(s), cap);
    DistinctIsInjective(s.reach, s.info);
    EraseParentsVisible(s.reach, s.info);
  }

  lemma MissedIsLookedUpInVain<R>(s: TreeState<R>, n: R, cap: nat)
    requires WellFormed(s, cap) && UniqueReachIds(s) && n in Nodes(s.reach) && n !in Elems(Visit(s.reach))
    ensures n in s.info && Lookup(s, s.info[n].id) == None
  {
    AllFacts(s, cap);
    VisitSound(s.reach);
    LookupSound(s, s.info[n].id, cap);
  }

  /** With room for two children or more, some run leads to a tree in which the id of a live node below the root
      finds nothing, and which loses a node when it is saved and loaded. */
  lemma SomeRunOverflows(cap: nat, refs: seq<int>) returns (trace: seq<System<int>>, ops: seq<Op<int>>, n: int)
    requires cap >= 2 && NoRepeats(refs) && |refs| >= 3000
    ensures FreshRun(trace, ops, cap) && OnlyCreations(ops) && Size(Final(trace).reach) <= |refs|
    ensures n in Nodes(Final(trace).reach) && n in Final(trace).info
    ensures Lookup(Final(trace), Final(trace).info[n].id) == None && !Survives(Final(trace), refs, cap)
  {
    hide FreshRun, WellFormed, RootFlags, IdsDrawn, UniqueReachIds, ParentsVisible, Survives, Full, Stalk, Broad,
         Visit, Count, Nodes, Elems, Append, AllKids, Builds, Distinct, Bounded, Size;
    var h: nat :| h == 11;
    trace, ops := BroadIsBuilt(h, cap);
    BuildsFacts(trace, ops, cap, Broad(h, true));
    n := h + 1;
    var s := Final(trace);
    BroadShape(h, true);
    Doublings();
    FreshRunFacts(trace, ops, cap);
    LastIsMissed(h, true);
    TipIsHidden(h);
    SurvivesIffVisible(trace, ops, cap, refs);
    MissedIsLookedUpInVain(s, n, cap);
  }

  lemma {:induction false} PathPeak<D>(q: Forest<D>)
    requires Len(q) <= 1 && Bounded(q, 1)
    ensures Peak(q) <= 1
    decreases Size(q)
  {
    match q
    case Nil =>
    case Cons(d, k, r) =>
      assert r == Nil && Append(r, k) == k;
      PathPeak(k);
  }

  /** With room for at most one child, every run leads to a tree in which every node is found by its id, and
      which survives. */
  lemma NoRunOverflows<R>(trace: seq<System<R>>, ops: seq<Op<R>>, cap: nat, refs: seq<R>)
    requires cap <= 1 && FreshRun(trace, ops, cap) && NoRepeats(refs)
    ensures AllFound(Final(trace))
    ensures Size(Final(trace).reach) <= |refs| ==> Survives(Final(trace), refs, cap)
  {
    hide FreshRun, WellFormed, RootFlags, IdsDrawn, UniqueReachIds, ParentsVisible, Survives, Peak, Visit;
    var s := Final(trace);
    FreshRunFacts(trace, ops, cap);
    AllFacts(s, cap);
    BoundedMore(s.reach, cap, 1);
    PathPeak(s.reach);
    FittingParentsVisible(s.reach);
    if Size(s.reach) <= |refs| {
      SurvivesIffVisible(trace, ops, cap, refs);
    }
    LookupReliableIffPeakFits(s, cap);
  }

  /** All runs from a new context keep every node within reach of lookup if and only if nodes may have at most one
      child; and the same limit decides whether all trees runs lead to survive saving and loading. */
  lemma RunsAreSafeIffOneChild(cap: nat, refs: seq<int>)
    requires NoRepeats(refs) && |refs| >= 3000
    ensures (forall trace: seq<System<int>>, ops: seq<Op<int>> :: FreshRun(trace, ops, cap) ==> AllFound(Final(trace)))
            <==> cap <= 1
    ensures (forall trace: seq<System<int>>, ops: seq<Op<int>> ::
               FreshRun(trace, ops, cap) && Size(Final(trace).reach) <= |refs| ==> Survives(Final(trace), refs, cap))
            <==> cap <= 1
  {
    hide FreshRun, Survives, Lookup;
    if cap >= 2 {
      var trace, ops, n := SomeRunOverflows(cap, refs);
      assert !AllFound(Final(trace));
    } else {
      forall trace: seq<System<int>>, ops: seq<Op<int>> | FreshRun(trace, ops, cap)
        ensures AllFound(Final(trace)) && (Size(Final(trace).reach) <= |refs| ==> Survives(Final(trace), refs, cap))
      {
        NoRunOverflows(trace, ops, cap, refs);
      }
    }
  }
}
