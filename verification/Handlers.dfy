/** Messages acting on the tree: the handlers that create and delete nodes, and what no run of messages
    can do to the root. */
module Handlers {
  import opened Forests
  import opened LevelOrder
  import opened IdentityTree
  import opened TreeLaws
  import opened TreeRuns
  import opened TreeNodes
  import opened TreeContexts
  import opened NodeId
  import opened Persistence
  import opened Restarts
  import opened Effects

  datatype MessageKind = NodeCreated | NodeDeleted | Data | Network | Unknown

  datatype Message = Message(kind: MessageKind, source: string, target: string)

  /** A message names a source that is found and, if it names a target at all, one that is found too. */
  ghost predicate Parsed<R>(s: TreeState<R>, msg: Message) {
    && msg.source != ""
    && Lookup(s, msg.source).Some?
    && (msg.target != "" ==> Lookup(s, msg.target).Some?)
  }

  /** Deletion is refused for a root that still has children. */
  ghost predicate Deletable<R>(s: TreeState<R>, msg: Message) {
    && Parsed(s, msg)
    && var x := Lookup(s, msg.source).value;
       !(x in s.info && s.info[x].isRoot && Len(KidsOf(s.reach, x)) > 0)
  }

  /** The effect of a message on the tree; `node` is the reference of the node it may create. */
  ghost function Handle<R>(s: System<R>, msg: Message, node: R, now: int, stamp: nat, cap: nat): System<R> {
    match msg.kind
    case NodeCreated => if Parsed(s.tree, msg) then Step(s, CreateOp(node, Some(msg.source), now, stamp), cap) else s
    case NodeDeleted => if Deletable(s.tree, msg) then Step(s, DeleteOp(msg.source), cap) else s
    case _ => s
  }

  /** Looks up the nodes a message names: a source, and a target only if there is one. */
  method ParseContext(tree: TreeContext, msg: Message) returns (ok: bool, source: TreeNode?)
    requires tree.Valid()
    ensures ok <==> && msg.source != "" && Lookup(tree.state, msg.source).Some?
                    && (msg.target == "" || Lookup(tree.state, msg.target).Some?)
    ensures ok ==> source == OptionRef(Lookup(tree.state, msg.source))
  {
    hide Lookup, tree.Valid, tree.Agrees;
    source := null;
    if msg.source == "" {
      return false, null;
    }
    source := tree.FindNode(Some(msg.source));
    if msg.target != "" {
      var target := tree.FindNode(Some(msg.target));
      if target == null {
        return false, source;
      }
    }
    return source != null, source;
  }

  /** The source of a message, when there is one, by its own fields. */
  lemma SourceFields(tree: TreeContext, key: string)
    requires tree.Valid()
    ensures Lookup(tree.state, key).Some? ==>
              var x := Lookup(tree.state, key).value;
              && x.id == key && x in tree.state.info && x in Nodes(tree.state.reach)
              && tree.state.info[x].isRoot == x.isRoot
              && x.children[..x.childCount] == KidSeq(tree.state, x) && x.childCount == |KidSeq(tree.state, x)|
  {
    hide Lookup, KidsOf, ParentOf, Nodes, Roots, Len, WellFormed, tree.Valid, tree.Agrees;
    tree.CountsLive();
    LookupSound(tree.state, key, tree.cap);
    if Lookup(tree.state, key).Some? {
      tree.HeapShowsState(Lookup(tree.state, key).value);
    }
  }

  /** Creates a node below the source.  An id is drawn once both nodes are found, even when there is no room. */
  method HandleNodeCreated(tree: TreeContext, ids: IdSource, msg: Message, now: int, stamp: nat)
    returns (ok: bool, ghost made: TreeNode?)
    requires tree.Valid() && ids.Valid() && ids !in tree.Repr && stamp < TWO_64
    modifies tree.Repr, ids
    ensures tree.Valid() && ids.Valid() && ids !in tree.Repr && fresh(tree.Repr - old(tree.Repr))
    ensures var s := old(tree.state); var x := Lookup(s, msg.source);
            var found := msg.source != "" && x.Some? && (msg.target == "" || Lookup(s, msg.target).Some?);
            && (ok <==> found && |KidSeq(s, x.value)| < tree.cap)
            && (found <==> made != null)
            && ids.counter == (if found then (old(ids.counter) + 1) % TWO_64 else old(ids.counter))
            && (!ok ==> tree.state == s)
            && (found ==>
                  && made !in s.info
                  && var n: TreeNode := made;
                     System(tree.state, ids.counter) ==
                     Step(System(s, old(ids.counter)), CreateOp(n, Some(msg.source), now, stamp), tree.cap))
    ensures ok ==> && fresh(made) && Lookup(old(tree.state), msg.source).Some?
                   && tree.totalNodes == old(tree.totalNodes) + 1
                   && var x := Lookup(old(tree.state), msg.source).value;
                      && x in old(tree.Repr) && x.children in old(tree.Repr)
                      && x.childCount <= x.children.Length && old(x.childCount <= x.children.Length)
                      && x.children[..x.childCount] == old(x.children[..x.childCount]) + [made]
                      && made.parent == x && made.childCount == 0 && !made.isRoot && made.isActive
                      && made.id == FormatId(stamp, old(ids.counter)) && made.creationTime == now
  {
    hide Lookup, KidsOf, ParentOf, Nodes, KidSeq, Parent, WellFormed, tree.Valid, tree.Agrees, Create, Accepts, Roots,
         Len;
    made := null;
    ghost var s := tree.state;
    var parsed, source := ParseContext(tree, msg);
    if !parsed {
      return false, null;
    }
    SourceFields(tree, msg.source);
    tree.OwnsLive();
    tree.CountsLive();
    RefusedIff(s, Some(msg.source), tree.cap);
    SourceHasRoom(s, msg.source, tree.cap);
    tree.HeapShowsState(source);
    var node;
    node, made := tree.CreateNode(ids, Some(source.id), now, stamp);
    ok := node != null;
    if ok {
      ghost var info := Info(FormatId(stamp, old(ids.counter)), now, false, true);
      ghost var n: TreeNode := node;
      CreateDoes(s, n, Some(msg.source), info, tree.cap);
      tree.CountsLive();
      tree.HeapShowsState(source);
      tree.HeapShowsState(n);
    }
  }

  lemma SourceHasRoom<R>(s: TreeState<R>, key: string, cap: nat)
    requires WellFormed(s, cap) && Lookup(s, key).Some?
    ensures s.reach.Cons? && |KidSeq(s, Lookup(s, key).value)| <= cap
  {
    hide Lookup;
    var x := Lookup(s, key).value;
    LookupSound(s, key, cap);
    AllFacts(s, cap);
    LinksInAll(s, cap, x);
    KidsBounded(s.reach, x, cap);
    OrdersHoldNodes(KidsOf(s.reach, x));
  }

  /** Deletes the source, unless it is flagged as a root and has children. */
  method HandleNodeDeleted(tree: TreeContext, msg: Message) returns (ok: bool)
    requires tree.Valid()
    modifies tree.Repr
    ensures tree.Valid() && tree.Repr <= old(tree.Repr)
    ensures var s := old(tree.state); var x := Lookup(s, msg.source);
            && (x.Some? ==> x.value in s.info)
            && (ok <==> && msg.source != "" && x.Some? && (msg.target == "" || Lookup(s, msg.target).Some?)
                        && !(s.info[x.value].isRoot && KidSeq(s, x.value) != []))
            && (ok ==> && tree.state == DeleteAt(s, x.value, tree.cap)
                       && tree.state.info.Keys == s.info.Keys - {x.value}
                       && tree.totalNodes == old(tree.totalNodes) - 1)
            && (!ok ==> tree.state == s)
  {
    hide Lookup, KidsOf, ParentOf, Nodes, KidSeq, Parent, WellFormed, tree.Valid, tree.Agrees, DeleteAt, Roots, Len;
    ghost var s := tree.state;
    SourceFields(tree, msg.source);
    var parsed, source := ParseContext(tree, msg);
    if !parsed {
      return false;
    }
    if source.isRoot && source.childCount > 0 {
      return false;
    }
    tree.CountsLive();
    DeleteDoes(s, source, tree.cap);
    ok := tree.DeleteNode(Some(source.id));
    tree.CountsLive();
  }

  /** Dispatches on the kind of message; `otherwise` is what the handlers without an effect on the tree
      return. */
  method HandleMessage(tree: TreeContext, ids: IdSource, msg: Message, now: int, stamp: nat, otherwise: bool)
    returns (ok: bool, ghost made: TreeNode?)
    requires tree.Valid() && ids.Valid() && ids !in tree.Repr && stamp < TWO_64
    modifies tree.Repr, ids
    ensures tree.Valid() && ids.Valid() && ids !in tree.Repr && fresh(tree.Repr - old(tree.Repr))
    ensures var s := old(tree.state); var x := Lookup(s, msg.source);
            var found := msg.source != "" && x.Some? && (msg.target == "" || Lookup(s, msg.target).Some?);
            && (x.Some? ==> x.value in s.info)
            && (ok <==> match msg.kind
                        case NodeCreated => found && |KidSeq(s, x.value)| < tree.cap
                        case NodeDeleted => found && !(s.info[x.value].isRoot && KidSeq(s, x.value) != [])
                        case Data => otherwise
                        case Network => otherwise
                        case Unknown => false)
            && (!ok || msg.kind == Data || msg.kind == Network ==> tree.state == s)
            && ids.counter == (if msg.kind == NodeCreated && found then (old(ids.counter) + 1) % TWO_64
                               else old(ids.counter))
            && (ok && msg.kind == NodeDeleted ==>
                  tree.state.info.Keys == s.info.Keys - {x.value} && tree.totalNodes == old(tree.totalNodes) - 1)
    ensures ok && msg.kind == NodeCreated ==>
              && made != null && fresh(made) && Lookup(old(tree.state), msg.source).Some?
              && tree.totalNodes == old(tree.totalNodes) + 1
              && var x := Lookup(old(tree.state), msg.source).value;
                 && x in old(tree.Repr) && x.children in old(tree.Repr)
                 && x.childCount <= x.children.Length && old(x.childCount <= x.children.Length)
                 && x.children[..x.childCount] == old(x.children[..x.childCount]) + [made]
                 && made.parent == x && made.childCount == 0 && !made.isRoot && made.isActive
                 && made.id == FormatId(stamp, old(ids.counter)) && made.creationTime == now
    ensures made != null ==>
              && var n: TreeNode := made;
                 n !in old(tree.state).info && System(tree.state, ids.counter) ==
                 Handle(System(old(tree.state), old(ids.counter)), msg, n, now, stamp, tree.cap)
    ensures made == null ==>
              forall n: TreeNode :: System(tree.state, ids.counter) ==
                Handle(System(old(tree.state), old(ids.counter)), msg, n, now, stamp, tree.cap)
  {
    hide tree.Valid, tree.Agrees, DeleteAt, Accepts, Create, Lookup, KidSeq, KidsOf, WellFormed, Nodes, Deletable;
    made := null;
    ok := false;
    SourceFields(tree, msg.source);
    tree.CountsLive();
    DeletableIff(tree.state, msg, tree.cap);
    match msg.kind
    case NodeCreated =>
      ok, made := HandleNodeCreated(tree, ids, msg, now, stamp);
    case NodeDeleted =>
      ok := HandleNodeDeleted(tree, msg);
    case Data =>
      ok := otherwise;
    case Network =>
      ok := otherwise;
    case Unknown =>
  }

  lemma DeletableIff<R>(s: TreeState<R>, msg: Message, cap: nat)
    requires WellFormed(s, cap)
    ensures Lookup(s, msg.source).Some? ==> Lookup(s, msg.source).value in s.info
    ensures Deletable(s, msg) <==>
              && msg.source != "" && Lookup(s, msg.source).Some? && (msg.target == "" || Lookup(s, msg.target).Some?)
              && var x := Lookup(s, msg.source).value; !(s.info[x].isRoot && KidSeq(s, x) != [])
  {
    hide Lookup;
    LookupSound(s, msg.source, cap);
    if Lookup(s, msg.source).Some? {
      var x := Lookup(s, msg.source).value;
      AllFacts(s, cap);
      LinksInAll(s, cap, x);
      OrdersHoldNodes(KidsOf(s.reach, x));
    }
  }

  // ----- What each kind of message does -----

  /** A creation message without effect is one whose source or named target is not found.  Otherwise it draws an
      id, and unless the source has all the children it may have, the new node becomes its last child; nothing
      else changes. */
  lemma CreationMessageDoes<R>(s: System<R>, msg: Message, n: R, now: int, stamp: nat, cap: nat)
    requires WellFormed(s.tree, cap) && n !in s.tree.info && msg.kind == NodeCreated
    ensures var t, x := Handle(s, msg, n, now, stamp, cap), Lookup(s.tree, msg.source);
            if msg.source == "" || x.None? || (msg.target != "" && Lookup(s.tree, msg.target).None?) then t == s
            else if |KidSeq(s.tree, x.value)| == cap then t == System(s.tree, (s.counter + 1) % TWO_64)
            else
              && t.counter == (s.counter + 1) % TWO_64
              && t.tree.info == s.tree.info[n := Info(FormatId(stamp, s.counter), now, false, true)]
              && t.tree.total == s.tree.total + 1 && RootOf(t.tree) == RootOf(s.tree)
              && Nodes(t.tree.reach) == Nodes(s.tree.reach) + {n}
              && Nodes(t.tree.detached) == Nodes(s.tree.detached)
              && (forall m :: m in t.tree.info ==> Parent(t.tree, m) == if m == n then x else Parent(s.tree, m))
              && (forall m :: m in t.tree.info ==>
                    KidSeq(t.tree, m) == if m == n then [] else if m == x.value then KidSeq(s.tree, m) + [n]
                                         else KidSeq(s.tree, m))
  {
    hide Lookup, WellFormed, Create, KidSeq, Parent, Accepts, Nodes;
    var x := Lookup(s.tree, msg.source);
    if msg.source != "" && x.Some? && (msg.target == "" || Lookup(s.tree, msg.target).Some?) {
      RefusedIff(s.tree, Some(msg.source), cap);
      SourceHasRoom(s.tree, msg.source, cap);
      if |KidSeq(s.tree, x.value)| < cap {
        CreateDoes(s.tree, n, Some(msg.source), Info(FormatId(stamp, s.counter), now, false, true), cap);
      }
    }
  }

  /** A deletion message deletes its source if and only if source and named target are found and the source is not
      a flagged root with children.  Then just the source ceases to live; otherwise nothing changes. */
  lemma DeletionMessageIff<R>(s: System<R>, msg: Message, n: R, now: int, stamp: nat, cap: nat)
    requires WellFormed(s.tree, cap) && msg.kind == NodeDeleted
    ensures var t, x := Handle(s, msg, n, now, stamp, cap), Lookup(s.tree, msg.source);
            if x.None? then t == s
            else
              && x.value in s.tree.info
              && (x.value !in t.tree.info <==>
                    && msg.source != "" && (msg.target == "" || Lookup(s.tree, msg.target).Some?)
                    && !(s.tree.info[x.value].isRoot && KidSeq(s.tree, x.value) != []))
              && (x.value in t.tree.info ==> t == s)
              && (x.value !in t.tree.info ==>
                    && t.tree.info.Keys == s.tree.info.Keys - {x.value} && t.counter == s.counter
                    && t.tree.total == s.tree.total - 1 && t.tree == DeleteAt(s.tree, x.value, cap))
  {
    hide Lookup, DeleteAt, WellFormed, KidSeq, Deletable, Nodes, KidsOf;
    LookupSound(s.tree, msg.source, cap);
    DeletableIff(s.tree, msg, cap);
    if Lookup(s.tree, msg.source).Some? {
      DeleteDoes(s.tree, Lookup(s.tree, msg.source).value, cap);
    }
  }

  // ----- Runs of messages -----

  datatype Delivery<R> = Delivery(msg: Message, node: R, now: int, stamp: nat)

  /** A run from any state made by creations and deletions. */
  ghost predicate IsMessageRun<R>(trace: seq<System<R>>, ds: seq<Delivery<R>>, cap: nat) {
    && |trace| == |ds| + 1
    && WellFormed(trace[0].tree, cap) && RootFlags(trace[0].tree)
    && forall i :: 0 <= i < |ds| ==>
         && ds[i].node !in trace[i].tree.info && ds[i].stamp < TWO_64
         && trace[i + 1] == Handle(trace[i], ds[i].msg, ds[i].node, ds[i].now, ds[i].stamp, cap)
  }

  lemma HandleKeepsForest<R>(s: System<R>, d: Delivery<R>, cap: nat)
    requires WellFormed(s.tree, cap) && RootFlags(s.tree) && d.node !in s.tree.info && d.stamp < TWO_64
    ensures var t := Handle(s, d.msg, d.node, d.now, d.stamp, cap).tree; WellFormed(t, cap) && RootFlags(t)
  {
    hide WellFormed, RootFlags, Step, Parsed, Deletable;
    StepKeepsForest(s, CreateOp(d.node, Some(d.msg.source), d.now, d.stamp), cap);
    StepKeepsForest(s, DeleteOp(d.msg.source), cap);
  }

  /** No message reaches an empty tree. */
  lemma EmptyStaysEmpty<R>(s: System<R>, d: Delivery<R>, cap: nat)
    requires s.tree.reach.Nil?
    ensures Handle(s, d.msg, d.node, d.now, d.stamp, cap) == s
  {
    assert Visit(s.tree.reach) == [];
  }

  /** A message removes the root only when it has no children, and then nothing is cut loose. */
  lemma RootGoesOnlyChildless<R>(s: System<R>, d: Delivery<R>, cap: nat)
    requires WellFormed(s.tree, cap) && RootFlags(s.tree) && s.tree.reach.Cons?
    ensures var t := Handle(s, d.msg, d.node, d.now, d.stamp, cap).tree;
            && (t.reach.Cons? ==> t.reach.node == s.tree.reach.node)
            && (t.reach.Nil? ==>
                  d.msg.kind == NodeDeleted && s.tree.reach == Leaf(s.tree.reach.node) && t.detached == s.tree.detached)
  {
    AllFacts(s.tree, cap);
    if d.msg.kind == NodeDeleted && Deletable(s.tree, d.msg) {
      var x := Lookup(s.tree, d.msg.source).value;
      LookupSound(s.tree, d.msg.source, cap);
      RootOrChild(s.tree.reach, x);
      DeleteAtShape(s.tree, x, cap);
      if ParentOf(s.tree.reach, x, None).None? {
        LinksInAll(s.tree, cap, x);
        assert s.tree.info[x].isRoot;
        assert KidsOf(s.tree.reach, x).Nil?;
        AppendNil(s.tree.detached);
      }
    }
  }

  /** A message cuts trees loose only when the parent of a deleted node cannot adopt all its children. */
  lemma LooseOnlyByOverflow<R>(s: System<R>, d: Delivery<R>, cap: nat)
    requires WellFormed(s.tree, cap) && RootFlags(s.tree)
    requires Handle(s, d.msg, d.node, d.now, d.stamp, cap).tree.detached != s.tree.detached
    ensures d.msg.kind == NodeDeleted && Lookup(s.tree, d.msg.source).Some?
    ensures var x := Lookup(s.tree, d.msg.source).value; var p := ParentOf(s.tree.reach, x, None);
            p.Some? && Len(KidsOf(s.tree.reach, x)) > cap - (Len(KidsOf(s.tree.reach, p.value)) - 1)
  {
    var x := Lookup(s.tree, d.msg.source).value;
    LookupSound(s.tree, d.msg.source, cap);
    RootGoesOnlyChildless(s, d, cap);
    DeleteAtShape(s.tree, x, cap);
    match ParentOf(s.tree.reach, x, None)
    case None =>
    case Some(p) =>
      TakeDrop(KidsOf(s.tree.reach, x), Room(s.tree.reach, p, cap));
      AppendNil(s.tree.detached);
  }

  /** In every run of messages the root stays the node it was until it is deleted, childless; from then on
      the tree is empty for ever, whatever messages follow. */
  lemma {:induction false} RunsKeepRoot<R>(trace: seq<System<R>>, ds: seq<Delivery<R>>, cap: nat, i: nat, j: nat)
    requires IsMessageRun(trace, ds, cap) && i <= j < |trace|
    ensures WellFormed(trace[j].tree, cap) && RootFlags(trace[j].tree)
    ensures trace[i].tree.reach.Nil? ==> trace[j] == trace[i]
    ensures trace[j].tree.reach.Cons? ==>
              trace[i].tree.reach.Cons? && trace[j].tree.reach.node == trace[i].tree.reach.node
  {
    hide WellFormed, RootFlags, Handle;
    if j > 0 {
      RunsKeepRoot(trace, ds, cap, if i < j then i else j - 1, j - 1);
      HandleKeepsForest(trace[j - 1], ds[j - 1], cap);
      if trace[j - 1].tree.reach.Nil? {
        EmptyStaysEmpty(trace[j - 1], ds[j - 1], cap);
      } else {
        RootGoesOnlyChildless(trace[j - 1], ds[j - 1], cap);
      }
    }
  }

  /** A message deletes a root that has children if and only if its flag is not set, as a file may have it. */
  lemma RootGuardedIffFlagged<R>(s: System<R>, d: Delivery<R>, x: R, cap: nat)
    requires WellFormed(s.tree, cap) && d.msg.kind == NodeDeleted && Parsed(s.tree, d.msg)
    requires Lookup(s.tree, d.msg.source) == Some(x)
    requires ParentOf(s.tree.reach, x, None).None? && KidsOf(s.tree.reach, x).Cons?
    ensures x in s.tree.info
    ensures var t := Handle(s, d.msg, d.node, d.now, d.stamp, cap).tree;
            && (s.tree.info[x].isRoot ==> t == s.tree)
            && (!s.tree.info[x].isRoot ==>
                  t.reach.Nil? && Size(t.detached) == Size(s.tree.detached) + Size(s.tree.reach) - 1)
  {
    LookupSound(s.tree, d.msg.source, cap);
    AllFacts(s.tree, cap);
    RootOrChild(s.tree.reach, x);
    LenZero(KidsOf(s.tree.reach, x));
    AppendSizes(s.tree.detached, KidsOf(s.tree.reach, x));
  }

  /** There is such a file: two records, after whose loading a message deletes the root and cuts its child loose. */
  lemma UnflaggedRootIsDeleted(now: int, stamp: nat, counter: nat, cap: nat)
    requires cap >= 1
    ensures var s := System(LoadFirst(Empty<int>(), [0, 1], UnflaggedRecords(), 2, cap), counter);
            var t := Handle(s, Message(NodeDeleted, "a", ""), 2, now, stamp, cap).tree;
            s.tree.reach == Cons(0, Leaf(1), Nil) && t.reach.Nil? && Size(t.detached) == 1
  {
    hide LoadFirst, Lookup, WellFormed, Handle;
    UnflaggedFile(cap);
    var s := System(LoadFirst(Empty<int>(), [0, 1], UnflaggedRecords(), 2, cap), counter);
    RootGuardedIffFlagged(s, Delivery(Message(NodeDeleted, "a", ""), 2, now, stamp), 0, cap);
  }

  /** The guard is what protects the root's children: after deleting a root without it, no id finds anything
      any more, yet all the others live on, so that the counter exceeds the size of the tree in the root's reach
      exactly when the root had children (when nothing had been cut loose before). */
  lemma UnguardedRootDeletion<R>(s: TreeState<R>, key: string, cap: nat)
    requires WellFormed(s, cap) && Lookup(s, key).Some?
    requires ParentOf(s.reach, Lookup(s, key).value, None).None?
    ensures Delete(s, key, cap).Some?
    ensures var s', x := Delete(s, key, cap).value, Lookup(s, key).value;
            && (forall id :: Lookup(s', id).None?)
            && s'.info.Keys - Nodes(s'.reach) == s.info.Keys - {x}
            && (s'.total > Size(s'.reach) <==> s.detached.Cons? || KidsOf(s.reach, x).Cons?)
  {
    var x := Lookup(s, key).value;
    var s' := Delete(s, key, cap).value;
    LookupSound(s, key, cap);
    AllFacts(s, cap);
    RootOrChild(s.reach, x);
    DeleteAtShape(s, x, cap);
    LenZero(s.detached);
    LenZero(KidsOf(s.reach, x));
    assert Visit(s'.reach) == [];
  }
}
