/** Saving a tree as node records and rebuilding it from them. */
module Persistence {
  import opened Forests
  import opened IdentityTree
  import opened TreeLaws
  import opened Pruning
  import opened NodeId

  /** A node as it is stored: identified by its id, with its parent named by id. */
  datatype Record = Record(id: string, parentId: string, created: int, isRoot: bool, isActive: bool, childCount: nat)

  // ----- Trees of node data -----

  /** The tree of node data behind a tree of references. */
  ghost function Erase<R>(f: Forest<R>, info: map<R, Info>): Forest<Info>
    requires Nodes(f) <= info.Keys
  {
    match f
    case Nil => Nil
    case Cons(n, k, r) => Cons(info[n], Erase(k, info), Erase(r, info))
  }

  ghost function Contents<R>(s: TreeState<R>): Forest<Info>
    requires Nodes(s.reach) <= s.info.Keys
  {
    Erase(s.reach, s.info)
  }

  /** Ids identify: nodes with the same id are the same, and none occurs twice. */
  ghost predicate Identified(g: Forest<Info>) {
    Distinct(g) && forall a, b :: a in Nodes(g) && b in Nodes(g) && a.id == b.id ==> a == b
  }

  // ----- Saving -----

  function ToRecord(n: Info, parentId: string, childCount: nat): Record {
    Record(Clip(n.id), parentId, n.created, n.isRoot, n.isActive, childCount)
  }

  /** The records of a depth-first traversal; `parentId` is the parent id of the top-level nodes. */
  function Records(g: Forest<Info>, parentId: string): seq<Record> {
    match g
    case Nil => []
    case Cons(n, k, r) => [ToRecord(n, parentId, Len(k))] + Records(k, Clip(n.id)) + Records(r, parentId)
  }

  lemma RecordCount(g: Forest<Info>, parentId: string)
    ensures |Records(g, parentId)| == Size(g)
  {
  }

  ghost function ParentIdOf(g: Forest<Info>, n: Info, top: string): string {
    match ParentOf(g, n, None)
    case None => top
    case Some(p) => Clip(p.id)
  }

  /** The record at position `i` describes the node at position `i` in depth-first order, whether or not the
      data tells the nodes apart. */
  lemma {:induction false} RecordOfNode<R>(f: Forest<R>, info: map<R, Info>, parentId: string, i: nat)
    requires Distinct(f) && Nodes(f) <= info.Keys && i < Size(f)
    ensures |Preorder(f)| == |Records(Erase(f, info), parentId)| == Size(f)
    ensures var n := Preorder(f)[i]; var p := ParentOf(f, n, None);
            && n in Nodes(f) && (p.Some? ==> p.value in info)
            && Records(Erase(f, info), parentId)[i] ==
               Record(Clip(info[n].id), if p.None? then parentId else Clip(info[p.value].id), info[n].created,
                      info[n].isRoot, info[n].isActive, Len(KidsOf(f, n)))
  {
    var Cons(d, k, r) := f;
    SizeOfErased(f, info);
    SizeOfErased(k, info);
    SizeOfErased(r, info);
    RecordCount(Erase(f, info), parentId);
    RecordCount(Erase(k, info), Clip(info[d].id));
    RecordCount(Erase(r, info), parentId);
    PreorderAt(d, k, r, i);
    OrdersHoldNodes(k);
    OrdersHoldNodes(r);
    var n := Preorder(f)[i];
    if i == 0 {
    } else if i <= Size(k) {
      RecordOfNode(k, info, Clip(info[d].id), i - 1);
      TopToSome(k, n, d);
    } else {
      RecordOfNode(r, info, parentId, i - 1 - Size(k));
      InRest(f, n);
    }
  }

  /** The same for a tree of node data. */
  lemma RecordAt(g: Forest<Info>, parentId: string, i: nat)
    requires Distinct(g) && i < Size(g)
    ensures |Records(g, parentId)| == |Preorder(g)| == Size(g)
    ensures var n := Preorder(g)[i];
            n in Nodes(g) && Records(g, parentId)[i] == ToRecord(n, ParentIdOf(g, n, parentId), Len(KidsOf(g, n)))
  {
    var itself := map n | n in Nodes(g) :: n;
    EraseSelf(g, itself);
    RecordOfNode(g, itself, parentId, i);
  }

  lemma EraseSelf(g: Forest<Info>, itself: map<Info, Info>)
    requires Nodes(g) <= itself.Keys && forall n :: n in Nodes(g) ==> itself[n] == n
    ensures Erase(g, itself) == g
  {
  }

  lemma SizeOfErased<R>(f: Forest<R>, info: map<R, Info>)
    requires Nodes(f) <= info.Keys
    ensures Size(Erase(f, info)) == Size(f) && Len(Erase(f, info)) == Len(f)
  {
  }

  // ----- Loading -----

  function Restored(rec: Record): Info {
    Info(Clip(rec.id), rec.created, rec.isRoot, rec.isActive)
  }

  /** One record is replayed as a creation whose node then takes over the record's data; `x` is the
      reference of the new node. */
  ghost function LoadOne<R>(s: TreeState<R>, x: R, rec: Record, cap: nat): TreeState<R> {
    if Accepts(s, Some(rec.parentId), cap) then
      var t := Create(s, x, Some(rec.parentId), Restored(rec));
      t.(info := t.info[x := Restored(rec)])
    else s
  }

  /** The state after the first `m` records. */
  ghost function LoadFirst<R>(s: TreeState<R>, refs: seq<R>, recs: seq<Record>, m: nat, cap: nat): TreeState<R>
    requires m <= |recs| && m <= |refs|
  {
    if m == 0 then s
    else LoadOne(LoadFirst(s, refs, recs, m - 1, cap), refs[m - 1], recs[m - 1], cap)
  }

  /** How many of the first `m` records are accepted. */
  ghost function AcceptedCount<R>(s: TreeState<R>, refs: seq<R>, recs: seq<Record>, m: nat, cap: nat): nat
    requires m <= |recs| && m <= |refs|
  {
    if m == 0 then 0
    else AcceptedCount(s, refs, recs, m - 1, cap) +
         if Accepts(LoadFirst(s, refs, recs, m - 1, cap), Some(recs[m - 1].parentId), cap) then 1 else 0
  }

  /** References handed out by the allocator: none in use, none twice. */
  ghost predicate FreshRefs<R>(s: TreeState<R>, refs: seq<R>) {
    NoRepeats(refs) && Elems(refs) !! s.info.Keys
  }

  lemma LoadOneKeepsForest<R>(s: TreeState<R>, x: R, rec: Record, cap: nat)
    requires WellFormed(s, cap) && x !in s.info
    ensures WellFormed(LoadOne(s, x, rec, cap), cap)
    ensures s.info.Keys <= LoadOne(s, x, rec, cap).info.Keys <= s.info.Keys + {x}
    ensures LoadOne(s, x, rec, cap).total == s.total + if Accepts(s, Some(rec.parentId), cap) then 1 else 0
    ensures LoadOne(s, x, rec, cap).detached == s.detached
  {
    if Accepts(s, Some(rec.parentId), cap) {
      CreateKeepsForest(s, x, Some(rec.parentId), Restored(rec), cap);
    }
  }

  /** Replaying any records whatever leaves a forest within its bounds, with one more live node for each
      accepted record and nothing cut loose. */
  lemma {:induction false} LoadKeepsForest<R>(s: TreeState<R>, refs: seq<R>, recs: seq<Record>, m: nat, cap: nat)
    requires WellFormed(s, cap) && m <= |recs| && m <= |refs| && FreshRefs(s, refs)
    ensures WellFormed(LoadFirst(s, refs, recs, m, cap), cap)
    ensures LoadFirst(s, refs, recs, m, cap).info.Keys <= s.info.Keys + Elems(refs[..m])
    ensures LoadFirst(s, refs, recs, m, cap).total == s.total + AcceptedCount(s, refs, recs, m, cap) <= s.total + m
    ensures LoadFirst(s, refs, recs, m, cap).detached == s.detached
  {
    hide LoadOne, WellFormed, Accepts;
    if m > 0 {
      LoadKeepsForest(s, refs, recs, m - 1, cap);
      var t := LoadFirst(s, refs, recs, m - 1, cap);
      assert refs[m - 1] !in refs[..m - 1];
      assert refs[m - 1] in Elems(refs);
      assert refs[..m] == refs[..m - 1] + [refs[m - 1]];
      ElemsJoin(refs[..m - 1], [refs[m - 1]]);
      LoadOneKeepsForest(t, refs[m - 1], recs[m - 1], cap);
    }
  }
}
