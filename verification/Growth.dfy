/** Building trees by runs of creations: any subtree can be filled in below a leaf while the levels its
    parents are on are narrow enough for the queue. */
module Growth {
  import opened Forests
  import opened Surgery
  import opened LevelOrder
  import opened IdentityTree
  import opened TreeLaws
  import opened DeletionLaws
  import opened TreeRuns
  import opened NodeId
  import opened Pruning
  import opened Breadth

  // ----- Growing trees by runs -----

  /** A run from a new context, of fewer than 2^64 creations. */
  ghost predicate FreshRun<R>(trace: seq<System<R>>, ops: seq<Op<R>>, cap: nat) {
    IsRun(trace, ops, cap) && trace[0] == System(Empty(), 0) && Creations(ops) < TWO_64
  }

  ghost function Final<R>(trace: seq<System<R>>): TreeState<R> {
    if trace == [] then Empty() else trace[|trace| - 1].tree
  }

  ghost predicate OnlyCreations<R>(ops: seq<Op<R>>) {
    forall i :: 0 <= i < |ops| ==> ops[i].CreateOp?
  }

  /** The run consists of creations and ends in the tree `f`, with nothing cut loose. */
  ghost predicate Builds<R>(trace: seq<System<R>>, ops: seq<Op<R>>, cap: nat, f: Forest<R>) {
    FreshRun(trace, ops, cap) && OnlyCreations(ops) && Final(trace).reach == f && Final(trace).detached.Nil?
  }

  lemma BuildsFacts<R>(trace: seq<System<R>>, ops: seq<Op<R>>, cap: nat, f: Forest<R>)
    requires Builds(trace, ops, cap, f)
    ensures FreshRun(trace, ops, cap) && OnlyCreations(ops) && Final(trace).reach == f && Final(trace).detached.Nil?
  {
  }

  lemma FreshRunFacts<R>(trace: seq<System<R>>, ops: seq<Op<R>>, cap: nat)
    requires FreshRun(trace, ops, cap)
    ensures var s := Final(trace);
            && WellFormed(s, cap) && RootFlags(s) && IdsDrawn(s, Creations(ops)) && Nodes(s.reach) <= s.info.Keys
            && UniqueReachIds(s) && Len(s.reach) <= 1
            && |trace| == |ops| + 1 && trace[|ops|].tree == s && trace[|ops|].counter == Creations(ops) < TWO_64
  {
    hide WellFormed, RootFlags, IdsDrawn, Step, Enabled, IsRun, Creations, UniqueReachIds, Nodes, Len, Distinct,
         Bounded;
    TraceLength(trace, ops, cap);
    EmptyStart<R>(cap);
    assert ops[..|ops|] == ops;
    RunsKeepForest(trace, ops, cap, |ops|);
    RunsKeepIdsUnique(trace, ops, cap, |ops|);
    AllFacts(Final(trace), cap);
    UniqueInReach(Final(trace), Creations(ops));
  }

  lemma UniqueInReach<R>(s: TreeState<R>, n: nat)
    requires IdsDrawn(s, n)
    ensures UniqueReachIds(s)
  {
  }

  /** With unique ids, a node that is visited is found by its id. */
  lemma VisitedIsFound<R>(s: TreeState<R>, v: R, cap: nat)
    requires WellFormed(s, cap) && UniqueReachIds(s) && v in Nodes(s.reach) && v in Elems(Visit(s.reach))
    ensures v in s.info && Lookup(s, s.info[v].id) == Some(v)
  {
    hide Visit;
    AllFacts(s, cap);
    LookupSound(s, s.info[v].id, cap);
    var w := Visit(s.reach);
    var i :| 0 <= i < |w| && w[i] == v;
    assert MatchIndex(w, s.info, s.info[v].id) <= i;
  }

  lemma RunLonger<R>(trace: seq<System<R>>, ops: seq<Op<R>>, cap: nat, op: Op<R>)
    requires FreshRun(trace, ops, cap) && Enabled(trace[|ops|], op) && Creations(ops) + 1 < TWO_64
    ensures FreshRun(trace + [Step(trace[|ops|], op, cap)], ops + [op], cap)
    ensures Creations(ops + [op]) == Creations(ops) + if op.CreateOp? then 1 else 0
  {
    hide Step, Enabled;
    assert (ops + [op])[..|ops|] == ops;
    var t, o := trace + [Step(trace[|ops|], op, cap)], ops + [op];
    forall i | 0 <= i < |o| ensures Enabled(t[i], o[i]) && t[i + 1] == Step(t[i], o[i], cap) {
      assert i < |ops| ==> t[i] == trace[i] && o[i] == ops[i] && t[i + 1] == trace[i + 1];
    }
  }

  /** One more creation adds a child below any node that is visited and has room. */
  lemma CreateBelow<R>(trace: seq<System<R>>, ops: seq<Op<R>>, cap: nat, f: Forest<R>, v: R, x: R)
    returns (trace': seq<System<R>>, ops': seq<Op<R>>)
    requires Builds(trace, ops, cap, f) && Creations(ops) + 1 < TWO_64
    requires v in Nodes(f) && v in Elems(Visit(f)) && Len(KidsOf(f, v)) < cap && x !in Nodes(f)
    ensures Builds(trace', ops', cap, AddChild(f, v, x)) && Creations(ops') == Creations(ops) + 1
  {
    hide WellFormed, RootFlags, IdsDrawn, UniqueReachIds, AddChild, Lookup, KidsOf, IsRun, Creations;
    var s := Final(trace);
    FreshRunFacts(trace, ops, cap);
    VisitedIsFound(s, v, cap);
    AllFacts(s, cap);
    var op := CreateOp(x, Some(s.info[v].id), 0, 0);
    trace', ops' := trace + [Step(trace[|ops|], op, cap)], ops + [op];
    RunLonger(trace, ops, cap, op);
  }

  lemma TraceLength<R>(trace: seq<System<R>>, ops: seq<Op<R>>, cap: nat)
    requires FreshRun(trace, ops, cap)
    ensures |trace| == |ops| + 1 && trace[|ops|].tree == Final(trace) && Creations(ops) < TWO_64
  {
  }

  lemma FirstStep<R>(s: System<R>, op: Op<R>, cap: nat)
    requires s.tree == Empty() && op.CreateOp?
    ensures Step(s, op, cap).tree.reach == Leaf(op.node) && Step(s, op, cap).tree.detached.Nil?
  {
  }

  /** The first creation makes the root. */
  lemma CreateRoot<R>(cap: nat, x: R) returns (trace: seq<System<R>>, ops: seq<Op<R>>)
    ensures Builds(trace, ops, cap, Leaf(x)) && Creations(ops) == 1
  {
    hide Step;
    var s: System<R> := System(Empty(), 0);
    var op := CreateOp(x, None, 0, 0);
    FirstStep(s, op, cap);
    RunLonger([s], [], cap, op);
    trace, ops := [s] + [Step(s, op, cap)], [] + [op];
  }

  lemma DeleteStep<R>(s: System<R>, key: string, x: R, cap: nat)
    requires Lookup(s.tree, key) == Some(x)
    ensures Enabled(s, DeleteOp(key)) && Step(s, DeleteOp(key), cap).tree == DeleteAt(s.tree, x, cap)
  {
  }

  // ----- Filling in a subtree -----

  /** `k` can be hung below the leaf `y` of `f`. */
  ghost predicate Graftable<D>(f: Forest<D>, y: D, k: Forest<D>, cap: nat) {
    && Distinct(f) && Bounded(f, cap) && y in Nodes(f) && KidsOf(f, y).Nil?
    && Distinct(k) && Bounded(k, cap) && Len(k) <= cap && Nodes(k) !! Nodes(f)
  }

  lemma SetKidsTwice<D>(f: Forest<D>, y: D, a: Forest<D>, b: Forest<D>)
    ensures SetKids(SetKids(f, y, a), y, b) == SetKids(f, y, b)
  {
  }

  lemma SetKidsThrough<D>(f: Forest<D>, y: D, a: Forest<D>, v: D, c: Forest<D>)
    requires v !in Nodes(f)
    ensures SetKids(SetKids(f, y, a), v, c) == SetKids(f, y, SetKids(a, v, c))
  {
  }

  lemma {:induction false} SetKidsSame<D>(f: Forest<D>, y: D)
    requires Distinct(f) && y in Nodes(f)
    ensures SetKids(f, y, KidsOf(f, y)) == f
  {
    var Cons(d, k, r) := f;
    if y in Nodes(k) {
      SetKidsSame(k, y);
      SetKidsAbsent(r, y, KidsOf(f, y));
    } else if y in Nodes(r) {
      SetKidsSame(r, y);
      SetKidsAbsent(k, y, KidsOf(f, y));
    } else {
      SetKidsAbsent(r, y, KidsOf(f, y));
    }
  }

  lemma ThinnerGraft<D>(f: Forest<D>, y: D, a: Forest<D>, b: Forest<D>)
    requires Thinner(a, b)
    ensures Thinner(SetKids(f, y, a), SetKids(f, y, b))
  {
  }

  lemma GraftFits<D>(f: Forest<D>, y: D, k: Forest<D>, m: nat, cap: nat)
    requires Graftable(f, y, k, cap)
    ensures Fits(f, y, Prune(k, m))
    ensures Distinct(SetKids(f, y, Prune(k, m))) && Bounded(SetKids(f, y, Prune(k, m)), cap)
    ensures Nodes(SetKids(f, y, Prune(k, m))) == Nodes(f) + Nodes(Prune(k, m))
    ensures Nodes(Prune(k, m)) <= Nodes(k) && Distinct(Prune(k, m))
  {
    PruneDistinct(k, m);
    PruneBounded(k, m, cap);
    SetKidsDistinct(f, y, Prune(k, m));
    SetKidsNodes(f, y, Prune(k, m));
    SetKidsBounded(f, y, Prune(k, m), cap);
  }

  /** The node below which the next one goes. */
  ghost function Holder<D>(y: D, p: Option<D>): D {
    match p
    case None => y
    case Some(v) => v
  }

  /** Adding a child inside the graft is a bigger graft. */
  lemma GraftGrows<D>(f: Forest<D>, y: D, a: Forest<D>, p: Option<D>, x: D)
    requires Fits(f, y, a) && KidsOf(f, y).Nil? && Nodes(a) !! Nodes(f) && (p.Some? ==> p.value in Nodes(a))
    ensures AddChild(SetKids(f, y, a), Holder(y, p), x) == SetKids(f, y, AddBelow(a, p, x))
  {
    match p
    case None =>
      SetKidsOutside(f, y, a, y, None);
      SetKidsTwice(f, y, a, Append(a, Leaf(x)));
    case Some(v) =>
      SetKidsInside(f, y, a, v, None);
      SetKidsThrough(f, y, a, v, Append(KidsOf(a, v), Leaf(x)));
  }

  lemma GraftLevel<D>(f: Forest<D>, y: D, a: Forest<D>, p: Option<D>)
    requires Fits(f, y, a) && KidsOf(f, y).Nil? && (p.Some? ==> p.value in Nodes(a))
    ensures Level(SetKids(f, y, a), Holder(y, p)) == Level(f, y) + if p.None? then 0 else 1 + Level(a, p.value)
  {
    match p
    case None => SetKidsOutside(f, y, a, y, None);
    case Some(v) => SetKidsInside(f, y, a, v, None);
  }

  lemma PruneDepth<D>(k: Forest<D>, m: nat)
    ensures Depth(Prune(k, m)) <= Depth(k)
  {
  }

  /** A parent in the first `m` nodes of `k` is at least one level above the last. */
  lemma ParentLevel<D>(k: Forest<D>, m: nat, x: D)
    requires Distinct(k) && Grows(k, m, x)
    ensures Depth(k) > 0
    ensures ParentOf(k, x, None).Some? ==> Level(Prune(k, m), ParentOf(k, x, None).value) + 1 < Depth(k)
  {
    var a, p := Prune(k, m), ParentOf(k, x, None);
    PruneDistinct(k, m);
    PruneDepth(k, m + 1);
    if p.Some? {
      AddChildAt(a, p.value, x, x);
      AddChildFits(a, p.value, x);
      LevelBelowDepth(Prune(k, m + 1), x);
    }
  }

  lemma RoomLeft<D>(h: Forest<D>, v: D, x: D, cap: nat)
    requires Distinct(h) && v in Nodes(h) && x !in Nodes(h) && Bounded(AddChild(h, v, x), cap)
    ensures Len(KidsOf(h, v)) < cap
  {
    AddChildAt(h, v, x, v);
    AddChildFits(h, v, x);
    KidsBounded(AddChild(h, v, x), v, cap);
    OrdersHoldNodes(KidsOf(h, v));
    OrdersHoldNodes(KidsOf(AddChild(h, v, x), v));
  }

  /** What the next step of filling in the graft finds. */
  lemma NextGraft<D>(f: Forest<D>, y: D, k: Forest<D>, m: nat, cap: nat, l: nat) returns (v: D, x: D)
    requires Graftable(f, y, k, cap) && m < Size(k)
    requires Narrow(SetKids(f, y, k), l) && Level(f, y) + Depth(k) <= l + 1
    ensures var h := SetKids(f, y, Prune(k, m));
            && v in Nodes(h) && v in Elems(Visit(h)) && Len(KidsOf(h, v)) < cap && x !in Nodes(h)
            && AddChild(h, v, x) == SetKids(f, y, Prune(k, m + 1))
  {
    hide Visit, Prune, SetKids, AddChild, Nodes, Distinct, Bounded, Narrow, Preorder, Depth, KidsOf, Level;
    var a := Prune(k, m);
    PruneStep(k, m);
    x := Preorder(k)[m];
    var p := ParentOf(k, x, None);
    v := Holder(y, p);
    GraftFits(f, y, k, m, cap);
    GraftFits(f, y, k, m + 1, cap);
    GraftGrows(f, y, a, p, x);
    RoomLeft(SetKids(f, y, a), v, x, cap);
    GraftLevel(f, y, a, p);
    ParentLevel(k, m, x);
    PruneThinner(k, m);
    ThinnerGraft(f, y, a, k);
    ThinnerNarrow(SetKids(f, y, a), SetKids(f, y, k), l);
    ShallowVisited(SetKids(f, y, a), l, v);
  }

  /** While the tree is narrow down to the parents, a run can fill in the subtree `k` below the leaf `y`. */
  lemma {:induction false} FillIn<R>(trace: seq<System<R>>, ops: seq<Op<R>>, cap: nat, f: Forest<R>, y: R,
                                     k: Forest<R>, m: nat, l: nat)
    returns (trace': seq<System<R>>, ops': seq<Op<R>>)
    requires Builds(trace, ops, cap, f) && Graftable(f, y, k, cap) && m <= Size(k) && Creations(ops) + Size(k) < TWO_64
    requires Narrow(SetKids(f, y, k), l) && Level(f, y) + Depth(k) <= l + 1
    ensures Builds(trace', ops', cap, SetKids(f, y, Prune(k, m))) && Creations(ops') == Creations(ops) + m
    decreases m
  {
    hide Builds, Graftable, Narrow, SetKids, Prune, Visit, Depth, AddChild, Creations, Nodes, KidsOf;
    if m == 0 {
      PruneNone(k);
      EmptyGraft(f, y, k, cap);
      trace', ops' := trace, ops;
    } else {
      trace', ops' := FillIn(trace, ops, cap, f, y, k, m - 1, l);
      var v, x := NextGraft(f, y, k, m - 1, cap, l);
      trace', ops' := CreateBelow(trace', ops', cap, SetKids(f, y, Prune(k, m - 1)), v, x);
    }
  }

  lemma EmptyGraft<D>(f: Forest<D>, y: D, k: Forest<D>, cap: nat)
    requires Graftable(f, y, k, cap)
    ensures SetKids(f, y, Nil) == f
  {
    SetKidsSame(f, y);
  }
}
