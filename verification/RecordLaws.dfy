/** Saved record lists agree with themselves. */
module RecordLaws {
  import opened Forests
  import opened IdentityTree
  import opened Pruning
  import opened Persistence
  import opened Rebuilding
  import opened NodeId

  /** How many records name `id` as their parent. */
  function Naming(recs: seq<Record>, id: string): nat {
    if recs == [] then 0 else (if recs[0].parentId == id then 1 else 0) + Naming(recs[1..], id)
  }

  lemma NamingJoin(a: seq<Record>, b: seq<Record>, id: string)
    ensures Naming(a + b, id) == Naming(a, id) + Naming(b, id)
  {
    if a == [] {
      assert a + b == b;
    } else {
      assert (a + b)[1..] == a[1..] + b;
    }
  }

  /** The children of the node with id `id`, or none when there is no such node. */
  ghost function ChildrenOfId(g: Forest<Info>, id: string): nat {
    match g
    case Nil => 0
    case Cons(n, k, r) => (if n.id == id then Len(k) else 0) + ChildrenOfId(k, id) + ChildrenOfId(r, id)
  }

  lemma {:induction false} NamingCounts(g: Forest<Info>, parentId: string, id: string)
    requires forall n :: n in Nodes(g) ==> |n.id| < ID_SIZE
    ensures Naming(Records(g, parentId), id) == (if parentId == id then Len(g) else 0) + ChildrenOfId(g, id)
  {
    match g
    case Nil =>
    case Cons(n, k, r) =>
      NamingCounts(k, Clip(n.id), id);
      NamingCounts(r, parentId, id);
      var first := [ToRecord(n, parentId, Len(k))];
      NamingJoin(first, Records(k, Clip(n.id)), id);
      NamingJoin(first + Records(k, Clip(n.id)), Records(r, parentId), id);
  }

  lemma NoSuchId(g: Forest<Info>, id: string)
    requires forall n :: n in Nodes(g) ==> n.id != id
    ensures ChildrenOfId(g, id) == 0
  {
  }

  lemma ChildrenOfNode(g: Forest<Info>, n: Info)
    requires Identified(g) && n in Nodes(g)
    ensures ChildrenOfId(g, n.id) == Len(KidsOf(g, n))
  {
    match g
    case Cons(d, k, r) =>
      if d == n {
        NoSuchId(k, n.id);
        NoSuchId(r, n.id);
      } else if n in Nodes(k) {
        ChildrenOfNode(k, n);
        NoSuchId(r, n.id);
      } else {
        ChildrenOfNode(r, n);
        NoSuchId(k, n.id);
      }
  }

  /** The saved list describes itself: there is one record per node, each record's child count is the
      number of records naming it as parent, only the first names no parent, and every other one names
      the record of an earlier node. */
  lemma RecordsAgree(g: Forest<Info>, cap: nat, i: nat)
    requires Savable(g, cap) && i < Size(g) && forall n :: n in Nodes(g) ==> n.id != ""
    ensures |Records(g, "")| == Size(g)
    ensures Records(g, "")[i].childCount == Naming(Records(g, ""), Records(g, "")[i].id)
    ensures Records(g, "")[i].parentId == "" <==> i == 0
    ensures i > 0 ==> exists j :: 0 <= j < i && Records(g, "")[j].id == Records(g, "")[i].parentId
  {
    RecordAt(g, "", i);
    NextNode(g, i, cap);
    var n := Preorder(g)[i];
    NamingCounts(g, "", n.id);
    ChildrenOfNode(g, n);
    PruneNone(g);
    PruneDistinct(g, i);
    if i > 0 {
      EarlierParent(g, i, cap);
    }
  }

  lemma EarlierParent(g: Forest<Info>, i: nat, cap: nat)
    requires Savable(g, cap) && 0 < i < Size(g)
    ensures |Records(g, "")| == Size(g)
    ensures exists j :: 0 <= j < i && Records(g, "")[j].id == Records(g, "")[i].parentId
  {
    RecordCount(g, "");
    NextNode(g, i, cap);
    PruneNodes(g, i);
    var p := ParentOf(g, Preorder(g)[i], None).value;
    assert p in Elems(Preorder(g)[..i]);
    var j :| 0 <= j < i && Preorder(g)[j] == p;
    RecordAt(g, "", j);
    assert Records(g, "")[j].id == Clip(p.id);
  }
}
