/** What loading does to the root flags, which a file may set at will, and what a context that was loaded
    from a saved tree can rely on afterwards. */
module Restarts {
  import opened Forests
  import opened IdentityTree
  import opened TreeLaws
  import opened TreeRuns
  import opened Pruning
  import opened Persistence
  import opened Rebuilding
  import opened NodeId

  /** If the record is accepted, it carries the root flag just when it makes the root. */
  ghost predicate FlagFits<R>(s: TreeState<R>, rec: Record, cap: nat) {
    Accepts(s, Some(rec.parentId), cap) ==> (rec.isRoot <==> s.reach.Nil?)
  }

  lemma LoadOneLinks<R>(s: TreeState<R>, x: R, rec: Record, cap: nat, n: R)
    requires WellFormed(s, cap) && x !in s.info && Accepts(s, Some(rec.parentId), cap) &&
        n in LoadOne(s, x, rec, cap).info
    ensures n != x ==> n in s.info && LoadOne(s, x, rec, cap).info[n] == s.info[n]
    ensures n != x ==> Parent(LoadOne(s, x, rec, cap), n) == Parent(s, n)
    ensures n == x ==> (Parent(LoadOne(s, x, rec, cap), n).None? <==> s.reach.Nil?)
  {
    hide KidSeq;
    AllFacts(s, cap);
    if s.reach.Nil? {
      CreateRootLinks(s, x, Some(rec.parentId), Restored(rec), cap, n);
    } else {
      CreateChildLinks(s, x, Some(rec.parentId), Restored(rec), cap, n);
    }
  }

  lemma LoadOneFlags<R>(s: TreeState<R>, x: R, rec: Record, cap: nat)
    requires WellFormed(s, cap) && x !in s.info
    ensures RootFlags(LoadOne(s, x, rec, cap)) <==> RootFlags(s) && FlagFits(s, rec, cap)
  {
    if Accepts(s, Some(rec.parentId), cap) {
      hide LoadOne, WellFormed, Accepts, Parent;
      LoadOneLinks(s, x, rec, cap, x);
      forall n | n in s.info
        ensures LoadOne(s, x, rec, cap).info[n] == s.info[n] && Parent(LoadOne(s, x, rec, cap), n) == Parent(s, n)
      {
        LoadOneLinks(s, x, rec, cap, n);
      }
    }
  }

  /** After loading any records whatever the root flags mark exactly the parentless nodes if and only if they
      did before and, of the records accepted, only the one that makes a root carries the flag. */
  lemma {:induction false} LoadKeepsFlagsIff<R>(s: TreeState<R>, refs: seq<R>, recs: seq<Record>, m: nat, cap: nat)
    requires WellFormed(s, cap) && m <= |recs| && m <= |refs| && FreshRefs(s, refs)
    ensures RootFlags(LoadFirst(s, refs, recs, m, cap)) <==>
            RootFlags(s) && forall i :: 0 <= i < m ==> FlagFits(LoadFirst(s, refs, recs, i, cap), recs[i], cap)
  {
    hide LoadOne, WellFormed, FlagFits, RootFlags, NoRepeats;
    if m > 0 {
      LoadKeepsFlagsIff(s, refs, recs, m - 1, cap);
      LoadKeepsForest(s, refs, recs, m - 1, cap);
      NextRefIsFresh(refs, m - 1);
      assert refs[m - 1] in Elems(refs);
      LoadOneFlags(LoadFirst(s, refs, recs, m - 1, cap), refs[m - 1], recs[m - 1], cap);
    }
  }

  /** Two records that leave the root unflagged above a child. */
  function UnflaggedRecords(): seq<Record> {
    [Record("a", "", 0, false, true, 1), Record("b", "a", 0, false, true, 0)]
  }

  lemma UnflaggedFile(cap: nat)
    requires cap >= 1
    ensures var t := LoadFirst(Empty<int>(), [0, 1], UnflaggedRecords(), 2, cap);
            && WellFormed(t, cap) && t.reach == Cons(0, Leaf(1), Nil) && t.detached.Nil?
            && Lookup(t, "a") == Some(0) && HasId(t.info, 0, "a") && !t.info[0].isRoot
  {
    var recs, refs := UnflaggedRecords(), [0, 1];
    EmptyStart<int>(cap);
    assert Elems(refs) !! Empty<int>().info.Keys;
    LoadKeepsForest(Empty<int>(), refs, recs, 2, cap);
    var s := LoadOne(Empty<int>(), 0, recs[0], cap);
    assert s == LoadFirst(Empty<int>(), refs, recs, 1, cap);
    assert s.reach == Leaf(0) && HasId(s.info, 0, "a") && s.detached.Nil?;
    var t := LoadOne(s, 1, recs[1], cap);
    assert t == LoadFirst(Empty<int>(), refs, recs, 2, cap);
    assert AddChild(Leaf(0), 0, 1) == Cons(0, Leaf(1), Nil);
  }

  /** In a saved tree only the first record carries the root flag. */
  lemma SavedFlag<R>(s: TreeState<R>, i: nat, cap: nat)
    requires WellFormed(s, cap) && RootFlags(s) && i < Size(s.reach)
    ensures Nodes(s.reach) <= s.info.Keys && |Records(Contents(s), "")| == Size(s.reach)
    ensures Records(Contents(s), "")[i].isRoot <==> i == 0
  {
    AllFacts(s, cap);
    RecordOfNode(s.reach, s.info, "", i);
    OnlyFirstIsTop(s.reach, i);
    LinksInAll(s, cap, Preorder(s.reach)[i]);
  }

  lemma {:induction false} LoadedHasRoot<R>(s: TreeState<R>, refs: seq<R>, recs: seq<Record>, m: nat, cap: nat)
    requires m <= |recs| && m <= |refs| && s.reach.Nil?
    ensures LoadFirst(s, refs, recs, m, cap).reach.Nil? <==> m == 0
  {
    if m > 1 {
      LoadedHasRoot(s, refs, recs, m - 1, cap);
    }
  }

  /** So loading the records of a context, all of them or as many as there are in a truncated file, keeps the
      flags right, even where it loses nodes. */
  lemma SavedFlagsAreKept<R, Q>(s: TreeState<R>, empty: TreeState<Q>, refs: seq<Q>, m: nat, cap: nat)
    requires WellFormed(s, cap) && RootFlags(s) && Nodes(s.reach) <= s.info.Keys && m <= Size(s.reach) && m <= |refs|
    requires WellFormed(empty, cap) && empty.reach.Nil? && RootFlags(empty) && FreshRefs(empty, refs)
    ensures |Records(Contents(s), "")| == Size(s.reach)
    ensures RootFlags(LoadFirst(empty, refs, Records(Contents(s), ""), m, cap))
  {
    hide LoadFirst, WellFormed, RootFlags, Records, Accepts, Contents, FreshRefs;
    var recs := Records(Contents(s), "");
    CountedRecords(s);
    LoadKeepsFlagsIff(empty, refs, recs, m, cap);
    forall i | 0 <= i < m ensures FlagFits(LoadFirst(empty, refs, recs, i, cap), recs[i], cap) {
      SavedFlag(s, i, cap);
      LoadedHasRoot(empty, refs, recs, i, cap);
    }
  }

  /** A context loaded from the whole tree of one that runs of creations and deletions have made meets all that
      those runs, and runs of messages, ask of the state they start in; and all its ids are drawn already when the
      counter has gone on, as it does within a process, from the `n` it had when the tree was saved. */
  lemma RunsContinueAfterLoad<R, Q>(s: TreeState<R>, refs: seq<Q>, n: nat, counter: nat, cap: nat)
    requires n <= counter
    requires WellFormed(s, cap) && RootFlags(s) && IdsDrawn(s, n) && n <= TWO_64 && Nodes(s.reach) <= s.info.Keys
    requires Size(s.reach) <= |refs| && NoRepeats(refs) && ParentsVisible(Contents(s))
    ensures |Records(Contents(s), "")| == Size(s.reach)
    ensures var t := LoadFirst(Empty<Q>(), refs, Records(Contents(s), ""), Size(s.reach), cap);
            && WellFormed(t, cap) && RootFlags(t) && IdsDrawn(t, counter) && t.detached.Nil?
            && Nodes(t.reach) <= t.info.Keys <= Elems(refs) && Contents(t) == Contents(s)
  {
    hide LoadFirst, WellFormed, RootFlags, Records, ParentsVisible, IdsFrom, Savable, UniqueReachIds;
    var recs := Records(Contents(s), "");
    CountedRecords(s);
    var t := LoadFirst(Empty<Q>(), refs, recs, Size(s.reach), cap);
    EmptyStart<Q>(cap);
    DrawnIsWellNamed(s, n, cap);
    WellNamedIsSavable(s, cap);
    EraseShape(s.reach, s.info);
    SaveLoadIffParentsVisible(Contents(s), Empty<Q>(), refs, cap);
    ReplayAny(Empty<Q>(), refs, recs, Size(s.reach), cap);
    SavedFlagsAreKept(s, Empty<Q>(), refs, Size(s.reach), cap);
    SameContentsDrawn(s, t, n, cap);
    SameIdsDrawn(t, {}, 0, 0, n, counter);
    LoadKeepsForest(Empty<Q>(), refs, recs, Size(s.reach), cap);
    ElemsOfPrefix(refs, Size(s.reach));
  }

  lemma ElemsOfPrefix<R>(refs: seq<R>, m: nat)
    requires m <= |refs|
    ensures Elems(refs[..m]) <= Elems(refs)
  {
  }

  lemma DrawnIsWellNamed<R>(s: TreeState<R>, n: nat, cap: nat)
    requires WellFormed(s, cap) && IdsDrawn(s, n) && n <= TWO_64
    ensures WellNamed(s)
  {
    AllFacts(s, cap);
    forall m | m in Nodes(s.reach) ensures |s.info[m].id| < ID_SIZE {
      DrawnIdFits(s.info[m].id, 0, 0, n);
    }
  }

  lemma SameContentsDrawn<R, Q>(s: TreeState<R>, t: TreeState<Q>, n: nat, cap: nat)
    requires WellFormed(s, cap) && WellFormed(t, cap) && t.detached.Nil? && IdsDrawn(s, n)
    requires Nodes(s.reach) <= s.info.Keys && Nodes(t.reach) <= t.info.Keys && Contents(t) == Contents(s)
    ensures IdsDrawn(t, n)
  {
    hide WellFormed, Drawn, Distinct;
    AllFacts(s, cap);
    AllFacts(t, cap);
    EraseShape(s.reach, s.info);
    EraseShape(t.reach, t.info);
    UniqueIdsIdentify(s, cap);
    DistinctIsInjective(t.reach, t.info);
    forall m | m in t.info ensures t.info[m] in Nodes(Contents(s)) && Drawn(t.info[m].id, 0, 0, n) {
      assert t.info[m] in Nodes(Contents(t));
      var l :| l in Nodes(s.reach) && s.info[l] == t.info[m];
    }
  }
}
