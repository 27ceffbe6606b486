/** Whole runs of creations and deletions, with the process-wide id counter: what holds of every state. */
module TreeRuns {
  import opened Forests
  import opened LevelOrder
  import opened IdentityTree
  import opened TreeLaws
  import opened DeletionLaws
  import opened NodeId

  /** `node` is the reference the allocator hands out: any not in use. */
  datatype Op<R> =
    | CreateOp(node: R, parentId: Option<string>, now: int, stamp: nat)
    | DeleteOp(key: string)

  datatype System<R> = System(tree: TreeState<R>, counter: nat)

  ghost predicate Enabled<R>(s: System<R>, op: Op<R>) {
    op.CreateOp? ==> op.node !in s.tree.info && op.stamp < TWO_64
  }

  ghost function NewInfo<R>(s: System<R>, op: Op<R>): Info
    requires op.CreateOp?
  {
    Info(FormatId(op.stamp, s.counter), op.now, false, true)
  }

  /** An operation that is refused changes nothing, but a refused creation still draws an id. */
  ghost function Step<R>(s: System<R>, op: Op<R>, cap: nat): System<R> {
    match op
    case CreateOp(node, parentId, now, stamp) =>
      System(if Accepts(s.tree, parentId, cap) then Create(s.tree, node, parentId, NewInfo(s, op)) else s.tree,
             (s.counter + 1) % TWO_64)
    case DeleteOp(key) =>
      System(match Delete(s.tree, key, cap) case None => s.tree case Some(t) => t, s.counter)
  }

  /** A run from any state: a new context, or one that has been loaded. */
  ghost predicate IsRun<R>(trace: seq<System<R>>, ops: seq<Op<R>>, cap: nat) {
    && |trace| == |ops| + 1
    && forall i :: 0 <= i < |ops| ==> Enabled(trace[i], ops[i]) && trace[i + 1] == Step(trace[i], ops[i], cap)
  }

  // ----- The forest invariant -----

  /** Every run from a new context starts in a state that meets what the invariants ask of it. */
  lemma EmptyStart<R>(cap: nat)
    ensures WellFormed(Empty<R>(), cap) && RootFlags(Empty<R>()) && IdsDrawn(Empty<R>(), 0)
  {
  }

  lemma StepKeepsForest<R>(s: System<R>, op: Op<R>, cap: nat)
    requires WellFormed(s.tree, cap) && Enabled(s, op)
    ensures WellFormed(Step(s, op, cap).tree, cap)
    ensures RootFlags(s.tree) ==> RootFlags(Step(s, op, cap).tree)
  {
    hide WellFormed, RootFlags, Create, Delete, Lookup;
    match op
    case CreateOp(node, parentId, now, stamp) =>
      if Accepts(s.tree, parentId, cap) {
        AllFacts(s.tree, cap);
        CreateKeepsForest(s.tree, node, parentId, NewInfo(s, op), cap);
        if RootFlags(s.tree) {
          CreateKeepsFlags(s.tree, node, parentId, NewInfo(s, op), cap);
        }
      }
    case DeleteOp(key) =>
      DeleteKeepsForest(s.tree, key, cap);
      if RootFlags(s.tree) {
        DeleteKeepsFlags(s.tree, key, cap);
      }
  }

  /** In every state of every run the live nodes form a forest, nobody has too many children and the counter
      equals the number of live nodes; and the root flags mark exactly the parentless nodes throughout when
      they do at the start. */
  lemma {:induction false} RunsKeepForest<R>(trace: seq<System<R>>, ops: seq<Op<R>>, cap: nat, i: nat)
    requires IsRun(trace, ops, cap) && i < |trace| && WellFormed(trace[0].tree, cap)
    ensures WellFormed(trace[i].tree, cap)
    ensures RootFlags(trace[0].tree) ==> RootFlags(trace[i].tree)
    ensures trace[i].tree.total == |trace[i].tree.info.Keys| >= |Nodes(trace[i].tree.reach)|
  {
    hide WellFormed, RootFlags, Step;
    if i > 0 {
      RunsKeepForest(trace, ops, cap, i - 1);
      StepKeepsForest(trace[i - 1], ops[i - 1], cap);
    }
    LiveCount(trace[i].tree, cap);
  }

  lemma LiveCount<R>(s: TreeState<R>, cap: nat)
    requires WellFormed(s, cap)
    ensures s.total == |s.info.Keys| >= |Nodes(s.reach)|
  {
    AllFacts(s, cap);
    NodeCount(All(s));
    NodeCount(s.reach);
  }

  // ----- Links, as a caller sees them -----

  /** In a well-formed state `n` is `p`'s child, exactly once, if and only if `p` is its parent. */
  lemma ParentAndChildrenAgree<R>(s: TreeState<R>, p: R, n: R, cap: nat)
    requires WellFormed(s, cap) && n in s.info
    ensures n in KidSeq(s, p) <==> Parent(s, n) == Some(p)
    ensures NoRepeats(KidSeq(s, p)) && (p in s.info ==> |KidSeq(s, p)| <= cap)
    ensures Parent(s, n) == Some(p) ==> p in s.info && p != n && !Ancestor(All(s), n, p)
  {
    var f := All(s);
    ParentIffChild(f, p, n, None);
    KidsFacts(f, p);
    if p in s.info {
      KidsBounded(f, p, cap);
    }
    RootsDistinct(KidsOf(f, p));
    OrdersHoldNodes(KidsOf(f, p));
    if Parent(s, n) == Some(p) {
      Below(f, p, n, None);
      KidsFacts(f, n);
      KidsFacts(KidsOf(f, p), n);
    }
  }

  // ----- Ids -----

  /** The id was drawn when the clock read `from` or later and the counter stood at `first` or later, before `n`. */
  ghost predicate Drawn(id: string, from: nat, first: nat, n: nat) {
    exists t: nat, c: nat :: from <= t < TWO_64 && first <= c < n && id == FormatId(t, c)
  }

  /** No two live nodes share an id, and each id is one of `kept` or was drawn since. */
  ghost predicate IdsFrom<R>(s: TreeState<R>, kept: set<string>, from: nat, first: nat, n: nat) {
    && UniqueIds(s)
    && forall m :: m in s.info ==> s.info[m].id in kept || Drawn(s.info[m].id, from, first, n)
  }

  /** Every live id was drawn among the first `n`, and no two live nodes share one. */
  ghost predicate IdsDrawn<R>(s: TreeState<R>, n: nat) {
    IdsFrom(s, {}, 0, 0, n)
  }

  /** None of these ids can still be drawn when the clock reads `from` or later and the counter is at `first`. */
  ghost predicate NoneAhead(ids: set<string>, from: nat, first: nat) {
    forall id :: id in ids ==> !Drawn(id, from, first, TWO_64)
  }

  /** The clock never reads less than `from`. */
  ghost predicate ClockFrom<R>(ops: seq<Op<R>>, from: nat) {
    forall i :: 0 <= i < |ops| && ops[i].CreateOp? ==> from <= ops[i].stamp
  }

  function Creations<R>(ops: seq<Op<R>>): nat {
    if ops == [] then 0 else (if ops[|ops| - 1].CreateOp? then 1 else 0) + Creations(ops[..|ops| - 1])
  }

  lemma NewIdIsNew(id: string, from: nat, first: nat, n: nat, t: nat)
    requires Drawn(id, from, first, n)
    ensures id != FormatId(t, n)
  {
    var t': nat, c: nat :| from <= t' < TWO_64 && first <= c < n && id == FormatId(t', c);
    if id == FormatId(t, n) {
      FormatIdInjective(t', c, t, n);
    }
  }

  /** Creation adds the one id just drawn; it differs from all the others. */
  lemma CreateKeepsIds<R>(s: TreeState<R>, s': TreeState<R>, x: R, kept: set<string>, from: nat, first: nat, n: nat,
                          stamp: nat)
    requires IdsFrom(s, kept, from, first, n) && NoneAhead(kept, from, first)
    requires from <= stamp < TWO_64 && first <= n < TWO_64 && x !in s.info
    requires s'.info.Keys == s.info.Keys + {x} && s'.info[x].id == FormatId(stamp, n)
    requires forall m :: m in s.info ==> s'.info[m] == s.info[m]
    ensures IdsFrom(s', kept, from, first, n + 1)
  {
    hide FormatId;
    assert Drawn(FormatId(stamp, n), from, first, TWO_64) && Drawn(FormatId(stamp, n), from, first, n + 1);
    forall m | m in s.info
      ensures s.info[m].id in kept || Drawn(s.info[m].id, from, first, n + 1)
      ensures s.info[m].id != FormatId(stamp, n)
    {
      if s.info[m].id !in kept {
        NewIdIsNew(s.info[m].id, from, first, n, stamp);
      }
    }
  }

  lemma FewerKeepIds<R>(s: TreeState<R>, s': TreeState<R>, kept: set<string>, from: nat, first: nat, n: nat)
    requires IdsFrom(s, kept, from, first, n)
    requires forall m :: m in s'.info ==> m in s.info && s'.info[m].id == s.info[m].id
    ensures IdsFrom(s', kept, from, first, n)
  {
  }

  lemma SameIdsDrawn<R>(s: TreeState<R>, kept: set<string>, from: nat, first: nat, n: nat, later: nat)
    requires IdsFrom(s, kept, from, first, n) && n <= later
    ensures IdsFrom(s, kept, from, first, later)
  {
    forall m | m in s.info && s.info[m].id !in kept ensures Drawn(s.info[m].id, from, first, later) {
    }
  }

  /** A step keeps ids unique, as long as the clock keeps to `from` and no id kept from before can come again. */
  lemma StepKeepsIds<R>(s: System<R>, op: Op<R>, cap: nat, kept: set<string>, from: nat, first: nat, n: nat)
    requires WellFormed(s.tree, cap) && Enabled(s, op)
    requires IdsFrom(s.tree, kept, from, first, n) && NoneAhead(kept, from, first)
    requires op.CreateOp? ==> from <= op.stamp && first <= n == s.counter < TWO_64
    ensures IdsFrom(Step(s, op, cap).tree, kept, from, first, n + if op.CreateOp? then 1 else 0)
  {
    hide FormatId, IdsFrom, NoneAhead, WellFormed, Lookup, KidsOf, SetKids, AddChild, ParentOf, Append;
    var s' := Step(s, op, cap);
    match op
    case CreateOp(node, parentId, now, stamp) =>
      if Accepts(s.tree, parentId, cap) {
        CreateKeepsIds(s.tree, s'.tree, node, kept, from, first, n, stamp);
      } else {
        SameIdsDrawn(s.tree, kept, from, first, n, n + 1);
      }
    case DeleteOp(key) =>
      FewerKeepIds(s.tree, s'.tree, kept, from, first, n);
  }

  lemma {:induction false} CounterWraps<R>(trace: seq<System<R>>, ops: seq<Op<R>>, cap: nat, i: nat)
    requires IsRun(trace, ops, cap) && i < |trace| && trace[0].counter < TWO_64
    ensures trace[i].counter == (trace[0].counter + Creations(ops[..i])) % TWO_64
  {
    hide Step;
    if i > 0 {
      assert ops[..i][..i - 1] == ops[..i - 1];
      CounterWraps(trace, ops, cap, i - 1);
      StepCounter(trace[i - 1], ops[i - 1], cap);
    } else {
      assert ops[..0] == [];
    }
  }

  lemma StepCounter<R>(s: System<R>, op: Op<R>, cap: nat)
    ensures Step(s, op, cap).counter == if op.CreateOp? then (s.counter + 1) % TWO_64 else s.counter
  {
  }

  lemma {:induction false} CreationsGrow<R>(ops: seq<Op<R>>, i: nat, j: nat)
    requires i < j <= |ops|
    ensures Creations(ops[..i]) + (if ops[i].CreateOp? then 1 else 0) <= Creations(ops[..j])
  {
    assert ops[..j][..j - 1] == ops[..j - 1];
    if i < j - 1 {
      CreationsGrow(ops, i, j - 1);
    }
  }

  /** From ids that cannot come again, a run that does not exhaust the counter keeps live ids unique. */
  lemma {:induction false} RunsKeepIdsFrom<R>(trace: seq<System<R>>, ops: seq<Op<R>>, cap: nat, kept: set<string>,
                                              from: nat, first: nat, i: nat)
    requires IsRun(trace, ops, cap) && i < |trace| && WellFormed(trace[0].tree, cap) && ClockFrom(ops, from)
    requires first <= trace[0].counter < TWO_64 && trace[0].counter + Creations(ops[..i]) <= TWO_64
    requires IdsFrom(trace[0].tree, kept, from, first, trace[0].counter) && NoneAhead(kept, from, first)
    ensures IdsFrom(trace[i].tree, kept, from, first, trace[0].counter + Creations(ops[..i]))
  {
    hide WellFormed, Step, Enabled, IdsFrom, NoneAhead;
    if i > 0 {
      assert ops[..i][..i - 1] == ops[..i - 1];
      var n := trace[0].counter + Creations(ops[..i - 1]);
      RunsKeepIdsFrom(trace, ops, cap, kept, from, first, i - 1);
      RunsKeepForest(trace, ops, cap, i - 1);
      CounterWraps(trace, ops, cap, i - 1);
      StepKeepsIds(trace[i - 1], ops[i - 1], cap, kept, from, first, n);
    }
  }

  /** Over any run of fewer than 2^64 creations live ids are pairwise different and fit their field. */
  lemma RunsKeepIdsUnique<R>(trace: seq<System<R>>, ops: seq<Op<R>>, cap: nat, i: nat)
    requires IsRun(trace, ops, cap) && i < |trace|
    requires WellFormed(trace[0].tree, cap) && IdsDrawn(trace[0].tree, trace[0].counter)
    requires trace[0].counter + Creations(ops[..i]) < TWO_64
    ensures trace[i].counter == trace[0].counter + Creations(ops[..i]) && IdsDrawn(trace[i].tree, trace[i].counter)
    ensures forall m :: m in trace[i].tree.info ==> |trace[i].tree.info[m].id| < ID_SIZE
  {
    hide WellFormed, Step, Drawn, Enabled, UniqueIds, Creations;
    RunsKeepIdsFrom(trace, ops, cap, {}, 0, 0, i);
    CounterWraps(trace, ops, cap, i);
    forall m | m in trace[i].tree.info ensures |trace[i].tree.info[m].id| < ID_SIZE {
      DrawnIdFits(trace[i].tree.info[m].id, 0, 0, trace[i].counter);
    }
  }

  /** Two ids drawn in any run, whether or not their creations succeeded or their nodes still live, are
      equal if and only if the clock read the same and the counter went full circle between them; so
      within 2^64 creations they differ. */
  lemma GeneratedIdsCollideIffWrapped<R>(trace: seq<System<R>>, ops: seq<Op<R>>, cap: nat, i: nat, j: nat)
    requires IsRun(trace, ops, cap) && trace[0].counter < TWO_64
    requires i < j < |ops| && ops[i].CreateOp? && ops[j].CreateOp?
    ensures NewInfo(trace[i], ops[i]).id == NewInfo(trace[j], ops[j]).id <==>
            ops[i].stamp == ops[j].stamp && (Creations(ops[..j]) - Creations(ops[..i])) % TWO_64 == 0
    ensures Creations(ops[..j]) - Creations(ops[..i]) < TWO_64 ==>
              NewInfo(trace[i], ops[i]).id != NewInfo(trace[j], ops[j]).id
  {
    hide FormatId, Creations, Step;
    CounterWraps(trace, ops, cap, i);
    CounterWraps(trace, ops, cap, j);
    CreationsGrow(ops, i, j);
    if NewInfo(trace[i], ops[i]).id == NewInfo(trace[j], ops[j]).id {
      FormatIdInjective(ops[i].stamp, trace[i].counter, ops[j].stamp, trace[j].counter);
    }
  }

  lemma DrawnIdFits(id: string, from: nat, first: nat, n: nat)
    requires Drawn(id, from, first, n) && n <= TWO_64
    ensures |id| < ID_SIZE
  {
    var t: nat, c: nat :| from <= t < TWO_64 && first <= c < n && id == FormatId(t, c);
    FormatIdFits(t, c);
  }

  /** So a node's id finds that very node, in every state reached whose tree fits the queue. */
  lemma RunsFindByIds<R>(trace: seq<System<R>>, ops: seq<Op<R>>, cap: nat, i: nat, n: R)
    requires IsRun(trace, ops, cap) && i < |trace|
    requires WellFormed(trace[0].tree, cap) && IdsDrawn(trace[0].tree, trace[0].counter)
    requires trace[0].counter + Creations(ops[..i]) < TWO_64
    requires n in Nodes(trace[i].tree.reach) && Size(trace[i].tree.reach) <= MAX_QUEUE_SIZE + 1
    ensures n in trace[i].tree.info && Lookup(trace[i].tree, trace[i].tree.info[n].id) == Some(n)
  {
    RunsKeepForest(trace, ops, cap, i);
    RunsKeepIdsUnique(trace, ops, cap, i);
    LiveIsPositive(trace[i].tree, cap, n);
    SmallPeakFits(trace[i].tree.reach);
    LookupReliableIffPeakFits(trace[i].tree, cap);
  }

  // ----- When trees come loose -----

  /** A deletion is tidy when it refuses, removes a childless root, or has every child adopted. */
  ghost predicate Tidy<R>(s: TreeState<R>, op: Op<R>, cap: nat) {
    op.CreateOp? || Lookup(s, op.key).None? ||
    var x := Lookup(s, op.key).value;
    match ParentOf(s.reach, x, None)
    case None => Len(KidsOf(s.reach, x)) == 0
    case Some(p) => Len(KidsOf(s.reach, x)) <= cap - (Len(KidsOf(s.reach, p)) - 1)
  }

  lemma StepDetaches<R>(s: System<R>, op: Op<R>, cap: nat)
    requires WellFormed(s.tree, cap)
    ensures Step(s, op, cap).tree.detached.Nil? <==> s.tree.detached.Nil? && Tidy(s.tree, op, cap)
  {
    if op.DeleteOp? && Lookup(s.tree, op.key).Some? {
      var x := Lookup(s.tree, op.key).value;
      LookupSound(s.tree, op.key, cap);
      AllFacts(s.tree, cap);
      RootOrChild(s.tree.reach, x);
      match ParentOf(s.tree.reach, x, None)
      case None =>
      case Some(p) =>
        KidsBounded(s.tree.reach, p, cap);
        TakeDrop(KidsOf(s.tree.reach, x), Room(s.tree.reach, p, cap));
    }
  }

  lemma {:induction false} NoneLooseIffTidy<R>(trace: seq<System<R>>, ops: seq<Op<R>>, cap: nat, n: nat)
    requires IsRun(trace, ops, cap) && n < |trace| && WellFormed(trace[0].tree, cap)
    ensures trace[n].tree.detached.Nil? <==>
            trace[0].tree.detached.Nil? && forall i :: 0 <= i < n ==> Tidy(trace[i].tree, ops[i], cap)
  {
    hide WellFormed, RootFlags, Step, Tidy;
    if n > 0 {
      NoneLooseIffTidy(trace, ops, cap, n - 1);
      RunsKeepForest(trace, ops, cap, n - 1);
      StepDetaches(trace[n - 1], ops[n - 1], cap);
    }
  }

  /** Destroying a context after a run that starts with nothing cut loose frees every live node, each once, if and
      only if every deletion so far was tidy. */
  lemma DestroyFreesAllIffTidy<R>(trace: seq<System<R>>, ops: seq<Op<R>>, cap: nat, n: nat)
    requires IsRun(trace, ops, cap) && n < |trace|
    requires WellFormed(trace[0].tree, cap) && trace[0].tree.detached.Nil?
    ensures NoRepeats(Postorder(trace[n].tree.reach))
    ensures Elems(Postorder(trace[n].tree.reach)) == trace[n].tree.info.Keys <==>
            forall i :: 0 <= i < n ==> Tidy(trace[i].tree, ops[i], cap)
  {
    hide WellFormed, Tidy, Step, IsRun, Postorder, Elems;
    RunsKeepForest(trace, ops, cap, n);
    DestroyFreesAllIffNoneLoose(trace[n].tree, cap);
    NoneLooseIffTidy(trace, ops, cap, n);
  }

  lemma CountsAgreeIffNoneLoose<R>(s: TreeState<R>, cap: nat)
    requires WellFormed(s, cap)
    ensures s.total == Size(s.reach) <==> s.detached.Nil?
  {
    AllFacts(s, cap);
  }

  /** The node counter equals the size of the tree in the root's reach, all through a run that starts with
      nothing cut loose, if and only if every deletion in it is tidy. */
  lemma CountIsReachIffTidy<R>(trace: seq<System<R>>, ops: seq<Op<R>>, cap: nat, n: nat)
    requires IsRun(trace, ops, cap) && n < |trace|
    requires WellFormed(trace[0].tree, cap) && trace[0].tree.detached.Nil?
    ensures trace[n].tree.total == Size(trace[n].tree.reach) <==>
            forall i :: 0 <= i < n ==> Tidy(trace[i].tree, ops[i], cap)
  {
    hide WellFormed, Tidy, Step, Size, IsRun;
    RunsKeepForest(trace, ops, cap, n);
    CountsAgreeIffNoneLoose(trace[n].tree, cap);
    NoneLooseIffTidy(trace, ops, cap, n);
  }
}
