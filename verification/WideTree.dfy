/** Where nodes may have more children than the queue has slots, the bounds on sizes are sharp: a run leads to a
    tree of one node more than always can be searched, and another to a tree of one node more than always
    survives saving and loading. */
module WideTrees {
  import opened Forests
  import opened LevelOrder
  import opened IdentityTree
  import opened TreeRuns
  import opened Pruning
  import opened Rebuilding
  import opened Breadth
  import opened Growth
  import opened BroadTrees
  import opened Overflows
  import opened NodeId

  /** `n` leaves numbered from `i`. */
  function Leaves(i: int, n: nat): Forest<int>
    decreases n
  {
    if n == 0 then Nil else Cons(i, Nil, Leaves(i + 1, n - 1))
  }

  lemma {:induction false} LeavesFacts(i: int, n: nat)
    ensures Distinct(Leaves(i, n)) && forall m :: m in Nodes(Leaves(i, n)) ==> i <= m < i + n
    ensures (n == 0 ==> Leaves(i, n) == Nil) && Len(Leaves(i, n)) == Size(Leaves(i, n)) == n
    ensures Append(Leaves(i, n), Leaf(i + n)) == Leaves(i, n + 1)
    decreases n
  {
    if n > 0 {
      LeavesFacts(i + 1, n - 1);
    }
  }

  /** A root with the children `k`. */
  function Tree(k: Forest<int>): Forest<int> {
    Cons(0, k, Nil)
  }

  lemma AddToRoot(k: Forest<int>, x: int, cap: nat)
    requires 0 !in Nodes(k) && Len(k) < cap
    ensures 0 in Nodes(Tree(k)) && 0 in Elems(Visit(Tree(k))) && Len(KidsOf(Tree(k), 0)) < cap
    ensures AddChild(Tree(k), 0, x) == Tree(Append(k, Leaf(x)))
  {
    RootsVisited(Tree(k));
    assert Roots(Tree(k))[0] == 0;
    AddInTree(0, k, 0, x);
  }

  /** A run can add `n` leaves to the root, after the children `k` it has. */
  lemma {:induction false} AddLeaves(trace: seq<System<int>>, ops: seq<Op<int>>, cap: nat, k: Forest<int>, n: nat)
    returns (trace': seq<System<int>>, ops': seq<Op<int>>)
    requires Builds(trace, ops, cap, Tree(k)) && Creations(ops) + n < TWO_64
    requires Len(k) + n <= cap && forall m :: m in Nodes(k) ==> 0 < m < 10
    ensures Builds(trace', ops', cap, Tree(Append(k, Leaves(10, n)))) && Creations(ops') == Creations(ops) + n
    decreases n
  {
    hide Builds, Creations, Leaves, Tree, Visit, AddChild, Append, KidsOf, Elems, Nodes, Len;
    if n == 0 {
      AppendNil(k);
      LeavesFacts(10, 0);
      trace', ops' := trace, ops;
    } else {
      trace', ops' := AddLeaves(trace, ops, cap, k, n - 1);
      var now := Append(k, Leaves(10, n - 1));
      LeavesFacts(10, n - 1);
      AppendNodes(k, Leaves(10, n - 1));
      AppendSizes(k, Leaves(10, n - 1));
      AppendAssoc(k, Leaves(10, n - 1), Leaf(9 + n));
      TreeFacts(now);
      AddToRoot(now, 9 + n, cap);
      trace', ops' := CreateBelow(trace', ops', cap, Tree(now), 0, 9 + n);
    }
  }

  lemma TreeFacts(k: Forest<int>)
    ensures Tree(k) == Cons(0, k, Nil) && Nodes(Tree(k)) == {0} + Nodes(k) && Size(Tree(k)) == 1 + Size(k)
  {
    SingleFacts(0, k);
  }

  lemma WideRootPeak(k: Forest<int>)
    ensures Peak(Tree(k)) >= Len(k)
  {
  }

  /** A tree of two nodes more than the queue has slots can already hide a node from lookup. */
  lemma LookupBoundIsSharp(cap: nat) returns (trace: seq<System<int>>, ops: seq<Op<int>>)
    requires cap > MAX_QUEUE_SIZE
    ensures FreshRun(trace, ops, cap) && OnlyCreations(ops)
    ensures Size(Final(trace).reach) == MAX_QUEUE_SIZE + 2 && !AllFound(Final(trace))
  {
    hide Builds, FreshRun, Creations, Leaves, Tree, Peak, Size, WellFormed, RootFlags, IdsDrawn, UniqueReachIds, Lookup;
    var n := MAX_QUEUE_SIZE + 1;
    trace, ops := CreateRoot(cap, 0);
    TreeFacts(Nil);
    trace, ops := AddLeaves(trace, ops, cap, Nil, n);
    var k := Leaves(10, n);
    BuildsFacts(trace, ops, cap, Tree(k));
    LeavesFacts(10, n);
    TreeFacts(k);
    WideRootPeak(k);
    FreshRunFacts(trace, ops, cap);
    LookupReliableIffPeakFits(Final(trace), cap);
  }

  // ----- Saving and loading -----

  /** A child with a child. */
  function Pair(tip: bool): Forest<int> {
    Cons(2, if tip then Leaf(3) else Nil, Nil)
  }

  /** As many leaves as the queue has slots below the root, and behind them the pair. */
  function Wide(n: nat, tip: bool): Forest<int> {
    Tree(Append(Leaves(10, n), Pair(tip)))
  }

  lemma PairFacts(tip: bool)
    ensures Distinct(Pair(tip)) && Nodes(Pair(tip)) == (if tip then {2, 3} else {2})
    ensures Size(Pair(tip)) == (if tip then 2 else 1) && Len(Pair(tip)) == 1
    ensures ParentOf(Pair(true), 3, Some(0)) == Some(2) && Prune(Pair(true), 1) == Pair(false)
  {
    PruneNone(Leaf(3));
  }

  lemma WideFacts(n: nat, tip: bool)
    ensures var k := Append(Leaves(10, n), Pair(tip));
            && Distinct(k) && Len(k) == n + 1 && Size(k) == n + (if tip then 2 else 1)
            && Nodes(k) == Nodes(Leaves(10, n)) + Nodes(Pair(tip)) && Wide(n, tip) == Tree(k)
  {
    hide Leaves, Pair;
    LeavesFacts(10, n);
    PairFacts(tip);
    AppendNodes(Leaves(10, n), Pair(tip));
    AppendSizes(Leaves(10, n), Pair(tip));
  }

  lemma PairIsMissed(n: nat)
    requires n == MAX_QUEUE_SIZE
    ensures 2 !in Elems(Visit(Wide(n, false)))
  {
    hide Leaves, Visit, Elems, Pair;
    LeavesFacts(10, n);
    TakeBefore(Leaves(10, n), Pair(false));
    RootWindow(0, Append(Leaves(10, n), Pair(false)));
  }

  lemma TipBehindIsHidden(n: nat)
    requires n == MAX_QUEUE_SIZE
    ensures !ParentsVisible(Wide(n, true))
  {
    hide Leaves, Pair, Visit, Elems, Preorder, ParentOf, Distinct, Nodes, Prune, Grows, Append, Size, Wide, Tree;
    var f, k := Wide(n, true), Append(Leaves(10, n), Pair(true));
    WideFacts(n, true);
    WideFacts(n, false);
    LeavesFacts(10, n);
    PairFacts(true);
    PairFacts(false);
    TreeFacts(k);
    TreeFacts(Append(Leaves(10, n), Pair(false)));
    PruneBeside(Leaves(10, n), Pair(true), 1);
    PruneTree(0, k, n + 1);
    SingleFacts(0, k);
    PruneStep(f, n + 2);
    NewcomerIs(f, n + 2, Preorder(f)[n + 2], 3);
    AppendAt(Leaves(10, n), Pair(true), 3, Some(0));
    TreeParent(0, k, 3, None);
    PairIsMissed(n);
    assert !ParentVisible(f, n + 2);
  }

  /** The pair below one more node, which is the first child of the root. */
  function Early(): Forest<int> {
    Cons(1, Pair(true), Nil)
  }

  lemma EarlyFacts()
    ensures Distinct(Early()) && Nodes(Early()) == {1, 2, 3} && Size(Early()) == 3 && Len(Early()) == 1
    ensures Bounded(Early(), 1) && Depth(Early()) == 3
  {
    var p := Pair(true);
    PairFacts(true);
    assert p == Cons(2, Leaf(3), Nil) && Bounded(p, 1) && Depth(p) == 2;
    SingleFacts(1, p);
  }

  lemma EarlyIsGraftable(cap: nat)
    requires cap >= 1
    ensures Graftable(Leaf(0), 0, Early(), cap) && SetKids(Leaf(0), 0, Early()) == Tree(Early())
    ensures Level(Leaf(0), 0) + Depth(Early()) <= 10 && Narrow(SetKids(Leaf(0), 0, Early()), 9)
  {
    hide Early, Narrow;
    EarlyFacts();
    BoundedMore(Early(), 1, cap);
    TreeFacts(Early());
    SmallNarrow(Tree(Early()), 9);
  }

  /** Deleting the first child moves the pair behind the leaves. */
  lemma DeleteFirst(s: TreeState<int>, n: nat, cap: nat)
    requires s.reach == Tree(Append(Early(), Leaves(10, n))) && s.detached.Nil? && n < cap
    ensures DeleteAt(s, 1, cap).reach == Wide(n, true) && DeleteAt(s, 1, cap).detached.Nil?
  {
    hide Leaves, Pair, Take, Drop, Append;
    var leaves, p, f := Leaves(10, n), Pair(true), s.reach;
    var k := Append(Early(), leaves);
    LeavesFacts(10, n);
    PairFacts(true);
    BesideTree(1, p, leaves);
    assert f == Cons(0, k, Nil) && k == Cons(1, p, leaves);
    assert KidsOf(f, 0) == k && 1 in Nodes(k) && KidsOf(f, 1) == KidsOf(k, 1) == p && Remove(k, 1) == leaves;
    assert ParentOf(f, 1, None) == ParentOf(k, 1, Some(0)) == Some(0);
    assert Room(f, 0, cap) >= 1;
    TakeDrop(p, Room(f, 0, cap));
    AppendNil(s.detached);
    assert Siblings(f, 0, 1, cap) == Append(leaves, p) && LeftOut(f, 0, 1, cap) == Nil;
  }

  /** Creations, and one deletion at the end. */
  ghost predicate LastDeletes(ops: seq<Op<int>>) {
    ops != [] && ops[|ops| - 1].DeleteOp? && OnlyCreations(ops[..|ops| - 1])
  }

  /** The run: the early pair, the leaves, then the deletion of the first child. */
  lemma WideIsReached(n: nat, cap: nat) returns (trace: seq<System<int>>, ops: seq<Op<int>>)
    requires n < 2000 && n < cap
    ensures FreshRun(trace, ops, cap) && LastDeletes(ops) && Final(trace).reach == Wide(n, true)
  {
    hide Builds, FreshRun, Creations, Leaves, Early, Tree, Wide, Graftable, SetKids, Narrow, Visit, WellFormed,
         RootFlags, IdsDrawn, UniqueReachIds, Prune, Lookup, DeleteAt, Step, Enabled, Level, Depth, Append, Nodes,
         Elems;
    var e := Early();
    EarlyFacts();
    EarlyIsGraftable(cap);
    PruneAll(e, Size(e));
    trace, ops := CreateRoot(cap, 0);
    trace, ops := FillIn(trace, ops, cap, Leaf(0), 0, e, Size(e), 9);
    trace, ops := AddLeaves(trace, ops, cap, e, n);
    var k := Append(e, Leaves(10, n));
    BuildsFacts(trace, ops, cap, Tree(k));
    var s := Final(trace);
    FreshRunFacts(trace, ops, cap);
    FirstOfAll(n);
    VisitedIsFound(s, 1, cap);
    DeleteFirst(s, n, cap);
    var op: Op<int> := DeleteOp(s.info[1].id);
    DeleteStep(trace[|ops|], op.key, 1, cap);
    RunLonger(trace, ops, cap, op);
    assert (ops + [op])[..|ops|] == ops;
    trace, ops := trace + [Step(trace[|ops|], op, cap)], ops + [op];
  }

  lemma FirstOfAll(n: nat)
    ensures var f := Tree(Append(Early(), Leaves(10, n))); 1 in Nodes(f) && 1 in Elems(Visit(f))
  {
    hide Visit, Pair, Leaves;
    var k := Append(Early(), Leaves(10, n));
    BesideTree(1, Pair(true), Leaves(10, n));
    FirstChildVisited(0, k);
  }

  /** A tree of three nodes more than the queue has slots need not survive. */
  lemma RoundTripBoundIsSharp(cap: nat, refs: seq<int>) returns (trace: seq<System<int>>, ops: seq<Op<int>>)
    requires cap > MAX_QUEUE_SIZE && NoRepeats(refs) && |refs| >= MAX_QUEUE_SIZE + 3
    ensures FreshRun(trace, ops, cap) && LastDeletes(ops) && Size(Final(trace).reach) == MAX_QUEUE_SIZE + 3
    ensures !Survives(Final(trace), refs, cap)
  {
    hide FreshRun, Leaves, Wide, Survives, ParentsVisible, Tree, Size;
    var n: nat :| n == MAX_QUEUE_SIZE;
    trace, ops := WideIsReached(n, cap);
    WideFacts(n, true);
    TreeFacts(Append(Leaves(10, n), Pair(true)));
    TipBehindIsHidden(n);
    SurvivesIffVisible(trace, ops, cap, refs);
  }
}
