/** The save file of a tree and the two operations on it. */
module StateFiles {
  import opened Forests
  import opened IdentityTree
  import opened TreeNodes
  import opened TreeContexts
  import opened Pruning
  import opened Persistence
  import opened Rebuilding
  import opened LossyLoads
  import opened NodeId

  const STATE_MAGIC: nat := 0x50484944
  const STATE_VERSION: nat := 1

  datatype Header = Header(magic: nat, version: nat, flags: nat, timestamp: int, nodeCount: nat)

  /** A file's header, if it holds a whole one, and the whole records that follow. */
  datatype StateFile = StateFile(header: Option<Header>, records: seq<Record>)

  ghost predicate Readable(file: StateFile) {
    file.header.Some? && file.header.value.magic == STATE_MAGIC && file.header.value.version <= STATE_VERSION
  }

  /** The record of one visited node, with its parent named by id. */
  method SaveNode(tree: TreeContext, node: TreeNode) returns (rec: Record)
    requires tree.Valid() && node in Nodes(tree.state.reach)
    ensures var s := tree.state; var p := ParentOf(s.reach, node, None);
            && node in s.info && (p.Some? ==> p.value in s.info)
            && rec == Record(Clip(s.info[node].id), if p.None? then "" else Clip(s.info[p.value].id),
                             s.info[node].created, s.info[node].isRoot, s.info[node].isActive,
                             Len(KidsOf(s.reach, node)))
    ensures rec == Record(Clip(node.id), if node.parent == null then "" else Clip(node.parent.id), node.creationTime,
                          node.isRoot, node.isActive, node.childCount)
  {
    hide KidsOf, ParentOf, Nodes, Distinct, Bounded, Size, Roots, WellFormed;
    tree.NodeLinks(node);
    tree.ReachableParent(node);
    var parentId := "";
    if node.parent != null {
      parentId := Clip(node.parent.id);
    }
    rec := Record(Clip(node.id), parentId, node.creationTime, node.isRoot, node.isActive, node.childCount);
  }

  lemma OverwrittenIsLoaded<R>(s: TreeState<R>, x: R, rec: Record, drawn: Info, cap: nat)
    requires Accepts(s, Some(rec.parentId), cap)
    ensures var t := Create(s, x, Some(rec.parentId), drawn);
            x in t.info && t.(info := t.info[x := Restored(rec)]) == LoadOne(s, x, rec, cap)
  {
    var t, u := Create(s, x, Some(rec.parentId), drawn), LoadOne(s, x, rec, cap);
    assert t.info[x := Restored(rec)] == u.info;
  }

  /** Replays one record: creates a node and, if that succeeds, has it take over the record's data. */
  method LoadRecord(tree: TreeContext, ids: IdSource, rec: Record, now: int, stamp: nat) returns (ghost made: TreeNode)
    requires tree.Valid() && ids !in tree.Repr && ids.Valid() && stamp < TWO_64
    modifies tree.Repr, ids
    ensures tree.Valid() && fresh(tree.Repr - old(tree.Repr)) && ids.Valid() && ids !in tree.Repr
    ensures fresh(made) && made !in old(tree.state).info
    ensures tree.state == LoadOne(old(tree.state), made, rec, tree.cap)
    ensures ids.counter == (old(ids.counter) + 1) % TWO_64
    ensures made in tree.state.info ==>
              && made.id == Clip(rec.id) && made.creationTime == rec.created
              && made.isRoot == rec.isRoot && made.isActive == rec.isActive
  {
    hide Lookup, Create, Accepts, KidsOf, Len, Nodes, WellFormed, tree.Valid, tree.Agrees;
    ghost var s := tree.state;
    var node;
    node, made := tree.CreateNode(ids, Some(rec.parentId), now, stamp);
    if node != null {
      tree.OwnsLive();
      OverwrittenIsLoaded(s, node, rec, Info(FormatId(stamp, old(ids.counter)), now, false, true), tree.cap);
      tree.Overwrite(node, Clip(rec.id), rec.created, rec.isRoot, rec.isActive);
      tree.HeapShowsState(node);
    }
  }

  lemma NextCount(counter: nat, i: nat)
    ensures ((counter + i) % TWO_64 + 1) % TWO_64 == (counter + i + 1) % TWO_64
  {
  }

  /** The first records give the same state whatever comes after them. */
  lemma LoadMore<R>(s: TreeState<R>, refs: seq<R>, recs: seq<Record>, i: nat, made: R, cap: nat)
    requires i == |refs| < |recs|
    ensures LoadFirst(s, refs + [made], recs[..i + 1], i + 1, cap) ==
            LoadOne(LoadFirst(s, refs, recs[..i], i, cap), made, recs[i], cap)
  {
    LoadPrefix(s, refs, refs + [made], recs[..i], recs[..i + 1], i, cap);
  }

  lemma LoadNone<R>(s: TreeState<R>, refs: seq<R>, recs: seq<Record>, cap: nat)
    requires |recs| <= |refs|
    ensures LoadFirst(s, refs, recs, 0, cap) == s
  {
  }

  lemma {:induction false} LoadPrefix<R>(s: TreeState<R>, refs: seq<R>, more: seq<R>, recs: seq<Record>,
                                         others: seq<Record>, m: nat, cap: nat)
    requires m <= |recs| && m <= |refs| && m <= |others| && m <= |more|
    requires refs[..m] == more[..m] && recs[..m] == others[..m]
    ensures LoadFirst(s, refs, recs, m, cap) == LoadFirst(s, more, others, m, cap)
  {
    hide LoadOne;
    if m > 0 {
      assert refs[m - 1] == refs[..m][m - 1] == more[m - 1] && recs[m - 1] == recs[..m][m - 1] == others[m - 1];
      assert refs[..m - 1] == refs[..m][..m - 1] && more[..m - 1] == more[..m][..m - 1];
      assert recs[..m - 1] == recs[..m][..m - 1] && others[..m - 1] == others[..m][..m - 1];
      LoadPrefix(s, refs, more, recs, others, m - 1, cap);
    }
  }

  /** The `i`th reading of the clock during a load: the time a new node takes, and the stamp its id takes. */
  datatype Reading = Reading(now: int, stamp: nat)

  class StateContext {
    var header: Header

    /** The header is that of a file this version can read: one's own, or one that was read. */
    ghost predicate Valid()
      reads this
    {
      header.magic == STATE_MAGIC && header.version <= STATE_VERSION
    }

    constructor (now: int)
      ensures Valid() && header == Header(STATE_MAGIC, STATE_VERSION, 0, now, 0)
    {
      header := Header(STATE_MAGIC, STATE_VERSION, 0, now, 0);
    }

    /** Counts the nodes in one traversal and writes their records in a second one, unless the file cannot
        be opened.  What is written is readable and complete. */
    method Save(tree: TreeContext, canOpen: bool, now: int) returns (file: Option<StateFile>)
      requires Valid() && tree.Valid() && this !in tree.Repr
      modifies this
      ensures Valid() && Nodes(tree.state.reach) <= tree.state.info.Keys
      ensures !canOpen ==> file.None? && header == old(header)
      ensures canOpen ==>
                && header == old(header).(timestamp := now, nodeCount := Size(tree.state.reach))
                && file == Some(StateFile(Some(header), Records(Contents(tree.state), "")))
                && Readable(file.value) && |file.value.records| == header.nodeCount
    {
      hide Records, Preorder, Size, Distinct, Nodes, WellFormed, Erase, KidsOf, ParentOf, tree.Valid, tree.Agrees;
      tree.ReachMatches();
      if !canOpen {
        return None;
      }
      ghost var s := tree.state;
      ghost var all := Records(Contents(s), "");
      OrdersHoldNodes(s.reach);
      SizeOfErased(s.reach, s.info);
      RecordCount(Contents(s), "");
      var counted := tree.TraverseDfs();
      var nodeCount := 0;
      for i := 0 to |counted|
        invariant nodeCount == i && header == old(header)
      {
        nodeCount := nodeCount + 1;
      }
      header := header.(timestamp := now, nodeCount := nodeCount);
      var visited := tree.TraverseDfs();
      var records: seq<Record> := [];
      for i := 0 to |visited|
        invariant header == old(header).(timestamp := now, nodeCount := nodeCount)
        invariant |records| == i && records == all[..i]
      {
        RecordOfNode(s.reach, s.info, "", i);
        var rec := SaveNode(tree, visited[i]);
        assert rec == all[i];
        records := records + [rec];
      }
      assert records == all;
      file := Some(StateFile(Some(header), records));
    }

    /** Replays the records of a readable file, as far as there are any: each creates a node below the node
        its parent id finds, which then takes over the record's data.  Succeeds when no record is missing;
        a readable header is kept in any case.  `refs` are the nodes made, one for each record replayed, and
        `states` are the states of the tree from before the first to after the last. */
    method Load(tree: TreeContext, ids: IdSource, file: Option<StateFile>, clock: nat -> Reading)
      returns (ok: bool, ghost refs: seq<TreeNode>, ghost states: seq<TreeState<TreeNode>>)
      requires Valid() && tree.Valid() && this !in tree.Repr && ids !in tree.Repr && ids.Valid()
      requires forall i :: clock(i).stamp < TWO_64
      modifies this, tree.Repr, ids
      ensures Valid() && tree.Valid() && fresh(tree.Repr - old(tree.Repr)) && ids.Valid()
      ensures file.None? || file.value.header.None? || file.value.header.value.magic != 0x50484944 ||
              file.value.header.value.version > 1 ==>
                !ok && header == old(header) && tree.state == old(tree.state) && ids.counter == old(ids.counter)
      ensures file.Some? && Readable(file.value) ==>
                && header == file.value.header.value && ok == (|file.value.records| >= header.nodeCount)
                && |refs| == (if ok then header.nodeCount else |file.value.records|) && FreshRefs(old(tree.state), refs)
                && ids.counter == (old(ids.counter) + |refs|) % TWO_64
                && |states| == |refs| + 1 && states[0] == old(tree.state) && states[|refs|] == tree.state
                && (forall i :: 0 <= i < |refs| ==>
                      states[i + 1] == LoadOne(states[i], refs[i], file.value.records[i], tree.cap))
                && tree.state == LoadFirst(old(tree.state), refs, file.value.records[..|refs|], |refs|, tree.cap)
    {
      hide LoadFirst, LoadOne, tree.Valid, tree.Agrees, WellFormed;
      refs, states := [], [tree.state];
      if file.None? || !(file.value.header.Some? && file.value.header.value.magic == STATE_MAGIC &&
                         file.value.header.value.version <= STATE_VERSION) {
        return false, [], states;
      }
      var StateFile(Some(saved), records) := file.value;
      header := saved;
      ghost var s := tree.state;
      LoadNone(s, refs, records[..0], tree.cap);
      var i := 0;
      while i < saved.nodeCount
        invariant i <= saved.nodeCount && i == |refs| <= |records|
        invariant tree.Valid() && fresh(tree.Repr - old(tree.Repr)) && this !in tree.Repr
        invariant ids.Valid() && ids !in tree.Repr
        invariant header == saved
        invariant fresh(set r | r in refs) && NoRepeats(refs)
        invariant ids.counter == (old(ids.counter) + i) % TWO_64
        invariant tree.state == LoadFirst(s, refs, records[..i], i, tree.cap)
        invariant |states| == i + 1 && states[0] == s && states[i] == tree.state
        invariant forall j :: 0 <= j < i ==> states[j + 1] == LoadOne(states[j], refs[j], records[j], tree.cap)
      {
        if i >= |records| {
          return false, refs, states;
        }
        ghost var made := LoadRecord(tree, ids, records[i], clock(i).now, clock(i).stamp);
        LoadMore(s, refs, records, i, made, tree.cap);
        NextCount(old(ids.counter), i);
        refs, states := refs + [made], states + [tree.state];
        i := i + 1;
      }
      return true, refs, states;
    }
  }

  /** What a save writes a load reads: after saving `tree` and loading the file into a context `other` without
      a tree, the two hold the same tree -- shape, child order, ids, times and flags -- if and only if every
      record's parent is visible when replayed; then the counter of `other` has grown by the node count saved.
      Each record replayed draws an id. */
  method SaveAndLoad(writer: StateContext, tree: TreeContext, other: TreeContext, ids: IdSource, now: int,
                     clock: nat -> Reading)
    returns (ok: bool)
    requires writer.Valid() && tree.Valid() && other.Valid() && ids.Valid() && tree.Repr !! other.Repr
    requires writer !in tree.Repr + other.Repr && ids !in tree.Repr + other.Repr
    requires WellNamed(tree.state) && other.root == null && other.cap == tree.cap
    requires forall i :: clock(i).stamp < TWO_64
    modifies writer, other.Repr, ids
    ensures writer.Valid() && tree.Valid() && tree.state == old(tree.state) && other.Valid() && ids.Valid()
    ensures ok && writer.header.nodeCount == Size(tree.state.reach)
    ensures ids.counter == (old(ids.counter) + writer.header.nodeCount) % TWO_64
    ensures Nodes(tree.state.reach) <= tree.state.info.Keys && Nodes(other.state.reach) <= other.state.info.Keys
    ensures Contents(other.state) == Contents(tree.state) <==> ParentsVisible(Contents(tree.state))
    ensures ParentsVisible(Contents(tree.state)) ==>
              && other.totalNodes == old(other.totalNodes) + writer.header.nodeCount
              && other.state.detached == old(other.state).detached
  {
    hide LoadFirst, LoadOne, Records, WellNamed, Savable, Nodes, Size, WellFormed, Erase, ParentsVisible, FreshRefs,
         tree.Agrees;
    ghost var s, t := tree.state, other.state;
    other.OwnsLive();
    other.CountsLive();
    WellNamedIsSavable(s, tree.cap);
    SizeOfErased(s.reach, s.info);
    var file := writer.Save(tree, true, now);
    var reader := new StateContext(now);
    ghost var refs, states;
    ok, refs, states := reader.Load(other, ids, file, clock);
    other.CountsLive();
    WholeOfSaved(Contents(s), t, refs, tree.cap);
  }

  /** Loading all the records of a saved tree. */
  lemma WholeOfSaved<R>(g: Forest<Info>, s: TreeState<R>, refs: seq<R>, cap: nat)
    requires Savable(g, cap) && |refs| == Size(g) == |Records(g, "")|
    requires WellFormed(s, cap) && s.reach.Nil? && FreshRefs(s, refs)
    ensures var t := LoadFirst(s, refs, Records(g, "")[..|refs|], |refs|, cap);
            && Nodes(t.reach) <= t.info.Keys && (Contents(t) == g <==> ParentsVisible(g)) && t.detached == s.detached
            && (ParentsVisible(g) ==> t.total == s.total + Size(g))
  {
    hide LoadFirst, Records, Savable, Nodes, Size, WellFormed, Erase, ParentsVisible, FreshRefs, AcceptedCount;
    var recs := Records(g, "");
    assert recs[..|refs|] == recs;
    SaveLoadIffParentsVisible(g, s, refs, cap);
    ReplayAny(s, refs, recs, |refs|, cap);
  }

  /** The file may lose its end: with `m` whole records left, the context `other` gets what is rebuilt of the first `m`
      nodes -- a node if and only if its parent was rebuilt and is visited when its turn comes -- and that is all of
      them, with their data, parents and order, if and only if all their parents are visible. */
  method LoadTruncated(writer: StateContext, tree: TreeContext, other: TreeContext, ids: IdSource, now: int,
                       clock: nat -> Reading, m: nat)
    returns (ok: bool)
    requires writer.Valid() && tree.Valid() && other.Valid() && ids.Valid() && tree.Repr !! other.Repr
    requires writer !in tree.Repr + other.Repr && ids !in tree.Repr + other.Repr
    requires WellNamed(tree.state) && other.root == null && other.cap == tree.cap
    requires forall i :: clock(i).stamp < TWO_64
    requires m <= Size(tree.state.reach)
    modifies writer, other.Repr, ids
    ensures writer.Valid() && tree.Valid() && tree.state == old(tree.state) && other.Valid() && ids.Valid()
    ensures ok <==> m == Size(tree.state.reach)
    ensures Nodes(tree.state.reach) <= tree.state.info.Keys && Nodes(other.state.reach) <= other.state.info.Keys
    ensures var g, h := Contents(tree.state), Contents(other.state);
            && |Preorder(g)| == Size(tree.state.reach) && Thinner(h, Prune(g, m))
            && (forall i :: 0 <= i < m ==> (Preorder(g)[i] in Nodes(h) <==> Kept(g, i)))
            && (h == Prune(g, m) <==> forall i :: 0 <= i < m ==> ParentVisible(g, i))
            && other.totalNodes == old(other.totalNodes) + Size(other.state.reach)
  {
    hide LoadFirst, Records, WellNamed, Savable, Nodes, Size, WellFormed, Erase, ParentVisible, FreshRefs, Thinner,
         Prune, Rebuilt, Kept, Preorder, tree.Agrees;
    ghost var s, t := tree.state, other.state;
    other.OwnsLive();
    other.CountsLive();
    WellNamedIsSavable(s, tree.cap);
    SizeOfErased(s.reach, s.info);
    var file := writer.Save(tree, true, now);
    var reader := new StateContext(now);
    ghost var refs, states;
    ok, refs, states := reader.Load(other, ids, Some(file.value.(records := file.value.records[..m])), clock);
    other.CountsLive();
    assert file.value.records[..m][..m] == file.value.records[..m];
    PrefixOfSaved(Contents(s), t, refs, m, tree.cap);
  }

  /** Loading the first `m` records of a saved tree, when only those are left. */
  lemma PrefixOfSaved<R>(g: Forest<Info>, s: TreeState<R>, refs: seq<R>, m: nat, cap: nat)
    requires Savable(g, cap) && m == |refs| <= Size(g) == |Records(g, "")|
    requires WellFormed(s, cap) && s.reach.Nil? && FreshRefs(s, refs)
    ensures |Preorder(g)| == Size(g)
    ensures var t := LoadFirst(s, refs, Records(g, "")[..m], m, cap);
            && Nodes(t.reach) <= t.info.Keys && t.total == s.total + Size(t.reach) && Thinner(Contents(t), Prune(g, m))
            && (forall i :: 0 <= i < m ==> (Preorder(g)[i] in Nodes(Contents(t)) <==> Kept(g, i)))
            && (Contents(t) == Prune(g, m) <==> forall i :: 0 <= i < m ==> ParentVisible(g, i))
  {
    hide LoadFirst, Records, Savable, Nodes, Size, WellFormed, Erase, ParentVisible, FreshRefs, Thinner, Prune,
         Rebuilt, Kept, Preorder;
    SavableShape(g, cap);
    var recs := Records(g, "");
    LoadPrefix(s, refs, refs, recs[..m], recs, m, cap);
    ReplayFirst(g, s, refs, m, cap);
    ReplayAny(s, refs, recs, m, cap);
    LoadedIsRebuilt(g, s, refs, m, cap);
    RebuiltThinner(g, m);
    var t := LoadFirst(s, refs, recs, m, cap);
    SizeOfErased(t.reach, t.info);
    PruneSize(g, m);
    forall i | 0 <= i < m ensures Preorder(g)[i] in Nodes(Rebuilt(g, m)) <==> Kept(g, i) {
      RebuiltIffKept(g, m, i);
    }
  }
}
