/** Ids after a restart: the counter behind them starts again, so an id may be drawn that a loaded node has. */
module IdReuse {
  import opened Forests
  import opened LevelOrder
  import opened IdentityTree
  import opened TreeLaws
  import opened TreeRuns
  import opened NodeId
  import opened Persistence
  import opened Rebuilding
  import opened Restarts
  import opened Breadth
  import opened Growth

  ghost function LiveIds<R>(s: TreeState<R>): set<string> {
    set m | m in s.info :: s.info[m].id
  }

  /** A run from `s` in which the clock never reads less than `from` and the counter is not exhausted. */
  ghost predicate RunFrom<R>(s: System<R>, trace: seq<System<R>>, ops: seq<Op<R>>, from: nat, cap: nat) {
    IsRun(trace, ops, cap) && trace[0] == s && ClockFrom(ops, from) && s.counter + Creations(ops) <= TWO_64
  }

  // ----- Ids that cannot come again -----

  lemma RunKeepsIdsUnique<R>(s: System<R>, trace: seq<System<R>>, ops: seq<Op<R>>, from: nat, cap: nat)
    requires WellFormed(s.tree, cap) && UniqueIds(s.tree) && s.counter < TWO_64
    requires NoneAhead(LiveIds(s.tree), from, s.counter) && RunFrom(s, trace, ops, from, cap)
    ensures UniqueIds(Final(trace))
  {
    hide WellFormed, NoneAhead, ClockFrom, Creations, Step;
    assert ops[..|ops|] == ops;
    assert IdsFrom(s.tree, LiveIds(s.tree), from, s.counter, s.counter);
    RunsKeepIdsFrom(trace, ops, cap, LiveIds(s.tree), from, s.counter, |ops|);
  }

  // ----- An id that can -----

  lemma CreationsCons<R>(op: Op<R>, ops: seq<Op<R>>)
    ensures Creations([op] + ops) == Creations(ops) + if op.CreateOp? then 1 else 0
  {
    if ops != [] {
      assert ([op] + ops)[..|ops|] == [op] + ops[..|ops| - 1];
      CreationsCons(op, ops[..|ops| - 1]);
    } else {
      assert [op] + ops == [op];
    }
  }

  /** A run may be preceded by one more creation. */
  lemma RunEarlier<R>(s: System<R>, op: Op<R>, trace: seq<System<R>>, ops: seq<Op<R>>, from: nat, cap: nat)
    requires op.CreateOp? && Enabled(s, op) && from <= op.stamp && s.counter + 1 < TWO_64
    requires RunFrom(Step(s, op, cap), trace, ops, from, cap)
    ensures RunFrom(s, [s] + trace, [op] + ops, from, cap) && Final([s] + trace) == Final(trace)
  {
    hide Step, Enabled;
    CreationsCons(op, ops);
    StepCounter(s, op, cap);
    var t, o := [s] + trace, [op] + ops;
    forall i | 0 <= i < |o| ensures Enabled(t[i], o[i]) && t[i + 1] == Step(t[i], o[i], cap) {
      assert i > 0 ==> t[i] == trace[i - 1] && o[i] == ops[i - 1] && t[i + 1] == trace[i];
    }
  }

  lemma OneStepRun<R>(s: System<R>, op: Op<R>, from: nat, cap: nat)
    requires op.CreateOp? && Enabled(s, op) && from <= op.stamp && s.counter < TWO_64
    ensures RunFrom(s, [s, Step(s, op, cap)], [op], from, cap) && Final([s, Step(s, op, cap)]) == Step(s, op, cap).tree
  {
    hide Step, Enabled;
    CreationsCons(op, []);
    assert [op] + [] == [op];
  }

  /** A node that a creation can be made below, when nodes may have children at all. */
  lemma CreatableBelow<R>(s: TreeState<R>, cap: nat) returns (v: R)
    requires WellFormed(s, cap) && UniqueReachIds(s) && s.reach.Cons? && cap >= 1
    ensures v in s.info && Accepts(s, Some(s.info[v].id), cap)
  {
    hide Visit;
    AllFacts(s, cap);
    WithinSelf(s.reach);
    v := VisitedLeaf(s.reach, s.reach);
    VisitedIsFound(s, v, cap);
  }

  lemma RefusedStep<R>(s: System<R>, x: R, stamp: nat, cap: nat)
    requires s.tree.reach.Cons?
    ensures Step(s, CreateOp(x, None, 0, stamp), cap) == System(s.tree, (s.counter + 1) % TWO_64)
  {
  }

  lemma AcceptedStep<R>(s: System<R>, op: Op<R>, cap: nat)
    requires WellFormed(s.tree, cap) && op.CreateOp? && Enabled(s, op) && Accepts(s.tree, op.parentId, cap)
    ensures var t := Step(s, op, cap).tree;
            && t.info.Keys == s.tree.info.Keys + {op.node} && t.info[op.node].id == FormatId(op.stamp, s.counter)
            && (forall m :: m in s.tree.info ==> t.info[m] == s.tree.info[m]) && t.reach.Cons? && WellFormed(t, cap)
  {
    hide FormatId, Lookup;
    StepKeepsForest(s, op, cap);
  }

  /** If the id of a live node is still ahead of the counter, a run draws it for a second node: refused creations
      bring the counter to it.  `x` and `y` are free references. */
  lemma {:induction false} IdComesAgain<R>(s: System<R>, m: R, t: nat, c: nat, from: nat, cap: nat, x: R, y: R)
    returns (trace: seq<System<R>>, ops: seq<Op<R>>)
    requires WellFormed(s.tree, cap) && UniqueIds(s.tree) && cap >= 1
    requires m in s.tree.info && s.tree.info[m].id == FormatId(t, c) && from <= t < TWO_64 && s.counter <= c < TWO_64
    requires y !in s.tree.info && (s.tree.reach.Nil? ==> x !in s.tree.info && x != y)
    ensures RunFrom(s, trace, ops, from, cap) && !UniqueIds(Final(trace))
    decreases c - s.counter
  {
    hide FormatId, WellFormed, UniqueIds, UniqueReachIds, Step, Accepts, Lookup, RunFrom, Final;
    var op: Op<R>;
    if s.tree.reach.Nil? {
      op := CreateOp(x, None, 0, t);
      EmptyAccepts(s.tree, cap);
      AcceptedStep(s, op, cap);
    } else if s.counter < c {
      op := CreateOp(y, None, 0, t);
      RefusedStep(s, y, t, cap);
    } else {
      ReachIsUnique(s.tree, cap);
      var v := CreatableBelow(s.tree, cap);
      op := CreateOp(y, Some(s.tree.info[v].id), 0, t);
      AcceptedStep(s, op, cap);
    }
    var s' := Step(s, op, cap);
    StepCounter(s, op, cap);
    OneStepRun(s, op, from, cap);
    trace, ops := [s, s'], [op];
    if s.counter == c {
      SharedId(s'.tree, m, op.node);
    }
    if UniqueIds(s'.tree) {
      var trace', ops' := IdComesAgain(s', m, t, c, from, cap, x, y);
      RunEarlier(s, op, trace', ops', from, cap);
      trace, ops := [s] + trace', [op] + ops';
    }
  }

  lemma EmptyAccepts<R>(s: TreeState<R>, cap: nat)
    requires s.reach.Nil?
    ensures Accepts(s, None, cap)
  {
  }

  lemma ReachIsUnique<R>(s: TreeState<R>, cap: nat)
    requires UniqueIds(s)
    ensures UniqueReachIds(s)
  {
  }

  lemma SharedId<R>(s: TreeState<R>, m: R, n: R)
    requires m in s.info && n in s.info && m != n && s.info[m].id == s.info[n].id
    ensures !UniqueIds(s)
  {
  }

  /** From a state with unique ids, runs in which the clock reads `from` or later keep live ids unique if and only
      if every live id has an earlier clock reading or a count below the counter. */
  lemma IdsStayUniqueIffNoneAhead<R>(s: System<R>, from: nat, cap: nat, x: R, y: R)
    requires WellFormed(s.tree, cap) && UniqueIds(s.tree) && s.counter < TWO_64 && cap >= 1
    requires x != y && x !in s.tree.info && y !in s.tree.info
    ensures (forall trace: seq<System<R>>, ops: seq<Op<R>> ::
               RunFrom(s, trace, ops, from, cap) ==> UniqueIds(Final(trace)))
            <==> NoneAhead(LiveIds(s.tree), from, s.counter)
  {
    hide WellFormed, UniqueIds, RunFrom, FormatId, Final;
    if NoneAhead(LiveIds(s.tree), from, s.counter) {
      forall trace: seq<System<R>>, ops: seq<Op<R>> | RunFrom(s, trace, ops, from, cap)
        ensures UniqueIds(Final(trace))
      {
        RunKeepsIdsUnique(s, trace, ops, from, cap);
      }
    } else {
      var m :| m in s.tree.info && Drawn(s.tree.info[m].id, from, s.counter, TWO_64);
      var t: nat, c: nat :| from <= t < TWO_64 && s.counter <= c < TWO_64 && s.tree.info[m].id == FormatId(t, c);
      var trace, ops := IdComesAgain(s, m, t, c, from, cap, x, y);
    }
  }

  // ----- After a restart -----

  /** In a new process the counter starts at zero, and stands at the number of records when they have been loaded.
      From there runs keep live ids unique if and only if every saved id has a clock reading before `from` or a count
      below that number. */
  lemma IdsAfterRestartIff<R, Q>(s: TreeState<R>, refs: seq<Q>, n: nat, from: nat, cap: nat, x: Q, y: Q)
    requires WellFormed(s, cap) && RootFlags(s) && IdsDrawn(s, n) && n <= TWO_64 && Nodes(s.reach) <= s.info.Keys
    requires Size(s.reach) <= |refs| && NoRepeats(refs) && ParentsVisible(Contents(s)) && Size(s.reach) < TWO_64
    requires cap >= 1 && x != y && x !in Elems(refs) && y !in Elems(refs)
    ensures |Records(Contents(s), "")| == Size(s.reach)
    ensures var k := Size(s.reach);
            var t := LoadFirst(Empty<Q>(), refs, Records(Contents(s), ""), k, cap);
            (forall trace: seq<System<Q>>, ops: seq<Op<Q>> ::
               RunFrom(System(t, k), trace, ops, from, cap) ==> UniqueIds(Final(trace)))
            <==> forall m :: m in Nodes(s.reach) && m in s.info ==> !Drawn(s.info[m].id, from, k, TWO_64)
  {
    hide WellFormed, RootFlags, IdsFrom, RunFrom, Final, ParentsVisible, LoadFirst, Records, Drawn, UniqueIds;
    CountedRecords(s);
    RunsContinueAfterLoad(s, refs, n, n, cap);
    var k := Size(s.reach);
    var t := LoadFirst(Empty<Q>(), refs, Records(Contents(s), ""), k, cap);
    DrawnIsUnique(t, n);
    IdsStayUniqueIffNoneAhead(System(t, k), from, cap, x, y);
    SameIds(s, t, cap);
    forall m | m in Nodes(s.reach) && m in s.info ensures s.info[m].id in LiveIds(t) {
    }
  }

  lemma DrawnIsUnique<R>(s: TreeState<R>, n: nat)
    requires IdsDrawn(s, n)
    ensures UniqueIds(s)
  {
  }

  lemma SameIds<R, Q>(s: TreeState<R>, t: TreeState<Q>, cap: nat)
    requires WellFormed(s, cap) && WellFormed(t, cap) && t.detached.Nil?
    requires Nodes(s.reach) <= s.info.Keys && Nodes(t.reach) <= t.info.Keys && Contents(t) == Contents(s)
    ensures LiveIds(t) == set m | m in Nodes(s.reach) && m in s.info :: s.info[m].id
  {
    hide WellFormed;
    AllFacts(t, cap);
    IdsOfContents(s.reach, s.info);
    IdsOfContents(t.reach, t.info);
    assert t.info.Keys == Nodes(t.reach);
  }

  lemma IdsOfContents<R>(f: Forest<R>, info: map<R, Info>)
    requires Nodes(f) <= info.Keys
    ensures (set m | m in Nodes(f) && m in info :: info[m].id) == set d | d in Nodes(Erase(f, info)) :: d.id
  {
    EraseShape(f, info);
    forall m | m in Nodes(f) ensures info[m] in Nodes(Erase(f, info)) {
    }
    forall d | d in Nodes(Erase(f, info)) ensures exists m :: m in Nodes(f) && info[m] == d {
    }
  }

  // ----- An id that comes again -----

  /** Within one second: a root, two children of it, and the first child deleted. */
  function EarlierOps(now: nat): seq<Op<int>> {
    [CreateOp(0, None, 0, now), CreateOp(1, Some(FormatId(now, 0)), 0, now),
     CreateOp(2, Some(FormatId(now, 0)), 0, now), DeleteOp(FormatId(now, 1))]
  }

  ghost predicate HasIds(s: TreeState<int>, reach: Forest<int>, ids: map<int, string>) {
    && s.reach == reach && s.detached.Nil? && s.info.Keys == ids.Keys
    && forall n :: n in ids ==> HasId(s.info, n, ids[n])
  }

  lemma RootFound<R>(s: TreeState<R>, x: R, k: Forest<R>, key: string)
    requires s.reach == Cons(x, k, Nil) && HasId(s.info, x, key)
    ensures Lookup(s, key) == Some(x)
  {
    assert Visit(s.reach)[0] == x;
    assert MatchIndex(Visit(s.reach), s.info, key) == 0;
  }

  lemma ChildFound<R>(s: TreeState<R>, x: R, k: Forest<R>, key: string)
    requires s.reach == Cons(x, k, Nil) && k.Cons? && HasId(s.info, k.node, key) && !HasId(s.info, x, key)
    ensures Lookup(s, key) == Some(k.node)
  {
    hide Visit, PushAll;
    var q := PushAll(Nil, k);
    VisitFirst(s.reach);
    assert q == PushAll(Cons(k.node, k.kids, Nil), k.rest) by {
      FirstPush(k);
    }
    PushAllKeepsHead(Cons(k.node, k.kids, Nil), k.rest);
    VisitFirst(q);
    assert Visit(s.reach)[0] == x && Visit(s.reach)[1] == k.node;
    assert MatchIndex(Visit(s.reach), s.info, key) == 1;
  }

  lemma FirstPush<D>(k: Forest<D>)
    requires k.Cons?
    ensures PushAll(Nil, k) == PushAll(Cons(k.node, k.kids, Nil), k.rest)
  {
  }

  lemma EarlierCreations(now: nat, cap: nat) returns (trace: seq<System<int>>)
    requires now < TWO_64 && cap >= 2
    ensures IsRun(trace, EarlierOps(now)[..3], cap) && trace[0] == System(Empty(), 0) && trace[3].counter == 3
    ensures HasIds(trace[3].tree, Cons(0, Cons(1, Nil, Leaf(2)), Nil),
                   map[0 := FormatId(now, 0), 1 := FormatId(now, 1), 2 := FormatId(now, 2)])
  {
    hide FormatId, Lookup;
    var ops := EarlierOps(now);
    var s0: System<int> := System(Empty(), 0);
    var s1 := Step(s0, ops[0], cap);
    assert HasIds(s1.tree, Leaf(0), map[0 := FormatId(now, 0)]) && s1.counter == 1;
    RootFound(s1.tree, 0, Nil, FormatId(now, 0));
    var s2 := Step(s1, ops[1], cap);
    assert AddChild(Leaf(0), 0, 1) == Cons(0, Leaf(1), Nil);
    assert HasIds(s2.tree, Cons(0, Leaf(1), Nil), map[0 := FormatId(now, 0), 1 := FormatId(now, 1)]) && s2.counter == 2;
    RootFound(s2.tree, 0, Leaf(1), FormatId(now, 0));
    var s3 := Step(s2, ops[2], cap);
    assert Append(Leaf(1), Leaf(2)) == Cons(1, Nil, Leaf(2));
    assert AddChild(Cons(0, Leaf(1), Nil), 0, 2) == Cons(0, Cons(1, Nil, Leaf(2)), Nil);
    trace := [s0, s1, s2, s3];
  }

  lemma EarlierRun(now: nat, cap: nat) returns (trace: seq<System<int>>)
    requires now < TWO_64 && cap >= 2
    ensures IsRun(trace, EarlierOps(now), cap) && trace[0] == System(Empty(), 0) && trace[4].counter == 3
    ensures HasIds(trace[4].tree, Cons(0, Leaf(2), Nil), map[0 := FormatId(now, 0), 2 := FormatId(now, 2)])
  {
    hide FormatId, Lookup, Step, Enabled, HasIds;
    var ops := EarlierOps(now);
    var first := EarlierCreations(now, cap);
    var s := first[3];
    DeletedFirst(s, now, cap);
    StepCounter(s, ops[3], cap);
    trace := first + [Step(s, ops[3], cap)];
    assert ops == ops[..3] + [ops[3]];
  }

  lemma DeletedFirst(s: System<int>, now: nat, cap: nat)
    requires cap >= 2
    requires HasIds(s.tree, Cons(0, Cons(1, Nil, Leaf(2)), Nil),
                    map[0 := FormatId(now, 0), 1 := FormatId(now, 1), 2 := FormatId(now, 2)])
    ensures Enabled(s, EarlierOps(now)[3])
    ensures HasIds(Step(s, EarlierOps(now)[3], cap).tree, Cons(0, Leaf(2), Nil),
                   map[0 := FormatId(now, 0), 2 := FormatId(now, 2)])
  {
    hide FormatId, Lookup, Step, DeleteAt;
    var ids := map[0 := FormatId(now, 0), 1 := FormatId(now, 1), 2 := FormatId(now, 2)];
    assert 0 in ids && 1 in ids && 2 in ids;
    if FormatId(now, 0) == FormatId(now, 1) {
      FormatIdInjective(now, 0, now, 1);
    }
    ChildFound(s.tree, 0, Cons(1, Nil, Leaf(2)), FormatId(now, 1));
    DeleteStep(s, FormatId(now, 1), 1, cap);
    SiblingsLeft(s.tree, cap);
  }

  lemma SiblingsLeft(s: TreeState<int>, cap: nat)
    requires s.reach == Cons(0, Cons(1, Nil, Leaf(2)), Nil) && s.detached.Nil? && cap >= 2
    ensures var t := DeleteAt(s, 1, cap); t.reach == Cons(0, Leaf(2), Nil) && t.detached.Nil? && t.info == s.info - {1}
  {
    var k := Cons(1, Nil, Leaf(2));
    assert KidsOf(s.reach, 0) == k && KidsOf(s.reach, 1) == Nil && Remove(k, 1) == Leaf(2);
    assert ParentOf(s.reach, 1, None) == Some(0);
    AppendNil(Leaf(2));
    AppendNil(s.detached);
    assert Siblings(s.reach, 0, 1, cap) == Leaf(2) && LeftOut(s.reach, 0, 1, cap) == Nil;
    assert SetKids(s.reach, 0, Leaf(2)) == Cons(0, Leaf(2), Nil);
    assert MarkRoots(s.info - {1}, []) == s.info - {1};
  }

  lemma TwoIds(s: TreeState<int>, now: nat)
    requires HasIds(s, Cons(0, Leaf(2), Nil), map[0 := FormatId(now, 0), 2 := FormatId(now, 2)])
    ensures HasId(s.info, 0, FormatId(now, 0)) && HasId(s.info, 2, FormatId(now, 2)) && s.info[0] != s.info[2]
  {
    hide FormatId;
    if FormatId(now, 0) == FormatId(now, 2) {
      FormatIdInjective(now, 0, now, 2);
    }
  }

  lemma PairReloaded(s: TreeState<int>, now: nat, refs: seq<int>, cap: nat)
    returns (t: TreeState<int>, a: int, b: int)
    requires HasIds(s, Cons(0, Leaf(2), Nil), map[0 := FormatId(now, 0), 2 := FormatId(now, 2)])
    requires WellFormed(s, cap) && RootFlags(s) && IdsDrawn(s, 3) && |refs| == 2 && NoRepeats(refs)
    ensures Nodes(s.reach) <= s.info.Keys && |Records(Contents(s), "")| == 2
    ensures t == LoadFirst(Empty<int>(), refs, Records(Contents(s), ""), 2, cap)
    ensures WellFormed(t, cap) && UniqueIds(t) && t.reach == Cons(a, Leaf(b), Nil) && t.info.Keys <= Elems(refs)
    ensures HasId(t.info, a, FormatId(now, 0)) && HasId(t.info, b, FormatId(now, 2))
  {
    hide FormatId, WellFormed, RootFlags, IdsFrom, LoadFirst, Records, UniqueIds, ParentsVisible, Contents;
    TwoIds(s, now);
    SmallTreeVisible(s);
    RunsContinueAfterLoad(s, refs, 3, 3, cap);
    t := LoadFirst(Empty<int>(), refs, Records(Contents(s), ""), 2, cap);
    DrawnIsUnique(t, 3);
    a, b := PairLoaded(s, t, cap);
  }

  lemma NextIdTaken(t: TreeState<int>, a: int, b: int, now: nat, x: int, cap: nat)
    requires now < TWO_64 && cap >= 2 && WellFormed(t, cap) && t.reach == Cons(a, Leaf(b), Nil) && x !in t.info
    requires HasId(t.info, a, FormatId(now, 0)) && HasId(t.info, b, FormatId(now, 2))
    ensures var op := CreateOp(x, Some(FormatId(now, 0)), 0, now);
            Enabled(System(t, 2), op) && !UniqueIds(Step(System(t, 2), op, cap).tree)
  {
    hide FormatId, Lookup, WellFormed, Step, UniqueIds, Accepts;
    RootFound(t, a, Leaf(b), FormatId(now, 0));
    RoomBelow(t, a, b, FormatId(now, 0), cap);
    var op := CreateOp(x, Some(FormatId(now, 0)), 0, now);
    AcceptedStep(System(t, 2), op, cap);
    SharedId(Step(System(t, 2), op, cap).tree, b, x);
  }

  /** A restart within that second, or with the clock set back: after the two records left have been loaded the next
      node created gets the id that the remaining child has. */
  lemma RestartRepeatsId(now: nat, cap: nat, refs: seq<int>, x: int) returns (trace: seq<System<int>>)
    requires now < TWO_64 && cap >= 2 && |refs| == 2 && NoRepeats(refs) && x !in Elems(refs)
    ensures IsRun(trace, EarlierOps(now), cap) && trace[0] == System(Empty(), 0)
    ensures var s := trace[4].tree;
            && Nodes(s.reach) <= s.info.Keys && |Records(Contents(s), "")| == 2
            && var t := LoadFirst(Empty<int>(), refs, Records(Contents(s), ""), 2, cap);
               var op := CreateOp(x, Some(FormatId(now, 0)), 0, now);
               UniqueIds(t) && Enabled(System(t, 2), op) && !UniqueIds(Step(System(t, 2), op, cap).tree)
  {
    hide FormatId, WellFormed, RootFlags, IdsFrom, LoadFirst, Records, Step, Creations, UniqueIds, Contents, Enabled,
         HasIds;
    trace := EarlierRun(now, cap);
    EarlierFacts(trace, now, cap);
    var t, a, b := PairReloaded(trace[4].tree, now, refs, cap);
    NextIdTaken(t, a, b, now, x, cap);
  }

  lemma EarlierFacts(trace: seq<System<int>>, now: nat, cap: nat)
    requires IsRun(trace, EarlierOps(now), cap) && trace[0] == System(Empty(), 0) && trace[4].counter == 3
    ensures WellFormed(trace[4].tree, cap) && RootFlags(trace[4].tree) && IdsDrawn(trace[4].tree, 3)
  {
    hide FormatId, WellFormed, RootFlags, IdsFrom, Step, Creations, Enabled;
    var ops := EarlierOps(now);
    EmptyStart<int>(cap);
    assert ops[..4] == ops;
    FewCreations(now);
    RunsKeepForest(trace, ops, cap, 4);
    RunsKeepIdsUnique(trace, ops, cap, 4);
  }

  lemma NoCreations<R>()
    ensures Creations<R>([]) == 0
  {
  }

  lemma FewCreations(now: nat)
    ensures Creations(EarlierOps(now)) == 3
  {
    hide FormatId, Creations;
    var ops := EarlierOps(now);
    NoCreations<int>();
    CreationsCons(ops[3], []);
    CreationsCons(ops[2], [ops[3]] + []);
    CreationsCons(ops[1], [ops[2]] + ([ops[3]] + []));
    CreationsCons(ops[0], [ops[1]] + ([ops[2]] + ([ops[3]] + [])));
    assert ops == [ops[0]] + ([ops[1]] + ([ops[2]] + ([ops[3]] + [])));
  }

  lemma TwoNodes<D>(a: D, b: D)
    requires a != b
    ensures var f := Cons(a, Leaf(b), Nil);
            Nodes(f) == {a, b} && Size(f) == 2 && Len(f) == 1 && Distinct(f) && Nodes(Leaf(b)) == {b}
  {
    var k := Leaf(b);
    assert Nodes(k) == {b} && Size(k) == 1 && Distinct(k);
  }

  lemma SmallTreeVisible(s: TreeState<int>)
    requires s.reach == Cons(0, Leaf(2), Nil) && 0 in s.info && 2 in s.info && s.info[0] != s.info[2]
    ensures Nodes(s.reach) == {0, 2} && Size(s.reach) == 2
    ensures ParentsVisible(Contents(s)) && Contents(s) == Cons(s.info[0], Leaf(s.info[2]), Nil)
  {
    TwoNodes(0, 2);
    TwoNodes(s.info[0], s.info[2]);
    assert Erase(Leaf(2), s.info) == Leaf(s.info[2]);
    FittingParentsVisible(Cons(s.info[0], Leaf(s.info[2]), Nil));
  }

  lemma PairLoaded(s: TreeState<int>, t: TreeState<int>, cap: nat) returns (a: int, b: int)
    requires 0 in s.info && 2 in s.info && WellFormed(t, cap) && Nodes(t.reach) <= t.info.Keys
    requires Contents(t) == Cons(s.info[0], Leaf(s.info[2]), Nil)
    ensures t.reach == Cons(a, Leaf(b), Nil) && a in t.info && b in t.info && a != b
    ensures t.info[a].id == s.info[0].id && t.info[b].id == s.info[2].id
  {
    AllFacts(t, cap);
    var f := t.reach;
    assert f.Cons? && Erase(f.kids, t.info) == Leaf(s.info[2]) && Erase(f.rest, t.info) == Nil;
    assert f.rest.Nil? && f.kids.Cons? && f.kids.kids.Nil? && f.kids.rest.Nil?;
    a, b := f.node, f.kids.node;
  }

  lemma RoomBelow(t: TreeState<int>, a: int, b: int, key: string, cap: nat)
    requires t.reach == Cons(a, Leaf(b), Nil) && Lookup(t, key) == Some(a) && cap >= 2
    ensures Accepts(t, Some(key), cap)
  {
    assert KidsOf(t.reach, a) == Leaf(b) && Len(Leaf(b)) == 1;
  }
}
