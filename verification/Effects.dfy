/** What the operations on the tree do, in terms of child lists, parents and node data only. */
module Effects {
  import opened Forests
  import opened IdentityTree
  import opened TreeLaws
  import opened NodeId
  import opened Persistence

  ghost function RootOf<R>(s: TreeState<R>): Option<R> {
    if s.reach.Nil? then None else Some(s.reach.node)
  }

  // ----- Creation -----

  /** Creation is refused when there is a root but the parent is not named, not found, or full. */
  lemma RefusedIff<R>(s: TreeState<R>, parentId: Option<string>, cap: nat)
    requires WellFormed(s, cap)
    ensures !Accepts(s, parentId, cap) <==>
            && RootOf(s).Some?
            && (parentId.None? || Lookup(s, parentId.value).None? ||
                |KidSeq(s, Lookup(s, parentId.value).value)| == cap)
  {
    hide Lookup;
    if parentId.Some? && Lookup(s, parentId.value).Some? {
      var p := Lookup(s, parentId.value).value;
      LookupSound(s, parentId.value, cap);
      AllFacts(s, cap);
      LinksInAll(s, cap, p);
      KidsBounded(s.reach, p, cap);
      OrdersHoldNodes(KidsOf(s.reach, p));
    }
  }

  lemma CreateNodes<R>(s: TreeState<R>, x: R, parentId: Option<string>, info: Info, cap: nat)
    requires WellFormed(s, cap) && x !in s.info && Accepts(s, parentId, cap)
    ensures Nodes(Create(s, x, parentId, info).reach) == Nodes(s.reach) + {x} && x !in Nodes(All(s))
    ensures RootOf(Create(s, x, parentId, info)) == if RootOf(s).None? then Some(x) else RootOf(s)
  {
    hide Lookup;
    AllFacts(s, cap);
    CreateKeepsForest(s, x, parentId, info, cap);
    if s.reach.Cons? {
      LookupSound(s, parentId.value, cap);
      AddChildFits(s.reach, Lookup(s, parentId.value).value, x);
    }
  }

  /** The new node is a root without children on an empty tree, and otherwise the last child of the parent; its data
      is as given, with the flag set just on a root; nothing else changes. */
  lemma CreateDoes<R>(s: TreeState<R>, x: R, parentId: Option<string>, info: Info, cap: nat)
    requires WellFormed(s, cap) && x !in s.info && Accepts(s, parentId, cap)
    ensures var t := Create(s, x, parentId, info);
            var parent := if RootOf(s).None? then None else Lookup(s, parentId.value);
            && t.info == s.info[x := Info(info.id, info.created, RootOf(s).None? || info.isRoot, info.isActive)]
            && t.total == s.total + 1 && RootOf(t) == (if RootOf(s).None? then Some(x) else RootOf(s))
            && Nodes(t.reach) == Nodes(s.reach) + {x} && Nodes(t.detached) == Nodes(s.detached)
            && (forall n :: n in t.info ==> Parent(t, n) == if n == x then parent else Parent(s, n))
            && (forall n :: n in t.info ==>
                  KidSeq(t, n) == if n == x then [] else if parent == Some(n) then KidSeq(s, n) + [x] else KidSeq(s, n))
  {
    hide Lookup, KidSeq, Parent, WellFormed, KidsOf, SetKids, Append, Nodes, Distinct, Bounded, Size, Len;
    var t := Create(s, x, parentId, info);
    AllFacts(s, cap);
    CreateNodes(s, x, parentId, info, cap);
    if s.reach.Cons? {
      LookupSound(s, parentId.value, cap);
    }
    forall n | n in t.info
      ensures Parent(t, n) ==
              if n == x then (if RootOf(s).None? then None else Lookup(s, parentId.value)) else Parent(s, n)
      ensures KidSeq(t, n) ==
              if n == x then []
              else if RootOf(s).Some? && Lookup(s, parentId.value) == Some(n) then KidSeq(s, n) + [x] else KidSeq(s, n)
    {
      if s.reach.Nil? {
        CreateRootLinks(s, x, parentId, info, cap, n);
      } else {
        CreateChildLinks(s, x, parentId, info, cap, n);
      }
    }
    assert t.info.Keys == s.info.Keys + {x};
  }

  // ----- Deletion -----

  lemma {:induction false} RemoveRoots<R>(f: Forest<R>, x: R) returns (i: nat)
    requires x in Roots(f)
    ensures i < |Roots(f)| && Roots(f)[i] == x && Roots(Remove(f, x)) == Roots(f)[..i] + Roots(f)[i + 1..]
  {
    if f.node == x {
      i := 0;
    } else {
      assert Roots(f) == [f.node] + Roots(f.rest);
      var j := RemoveRoots(f.rest, x);
      i := j + 1;
    }
  }

  lemma {:induction false} SplitRoots<R>(f: Forest<R>, n: nat)
    ensures |Roots(f)| == Len(f)
    ensures var m := if n < Len(f) then n else Len(f);
            Roots(Take(f, n)) == Roots(f)[..m] && Roots(Drop(f, n)) == Roots(f)[m..]
  {
    TakeDrop(f, n);
    AppendRoots(Take(f, n), Drop(f, n));
    OrdersHoldNodes(f);
    OrdersHoldNodes(Take(f, n));
  }

  /** How many children of `x` its parent has a place for. */
  ghost function AdoptedCount<R>(s: TreeState<R>, x: R, cap: nat): int {
    match Parent(s, x)
    case None => 0
    case Some(p) =>
      var places := cap - (|KidSeq(s, p)| - 1); if |KidSeq(s, x)| < places then |KidSeq(s, x)| else places
  }

  /** Deleting a root leaves an empty tree and makes its children parentless. */
  lemma DeleteRootDoes<R>(s: TreeState<R>, x: R, cap: nat, n: R)
    requires WellFormed(s, cap) && x in Nodes(s.reach) && Parent(s, x).None? && n in s.info && n != x
    ensures var t := DeleteAt(s, x, cap);
            && RootOf(s) == Some(x) && RootOf(t).None?
            && Parent(t, n) == (if n in KidSeq(s, x) then None else Parent(s, n)) && KidSeq(t, n) == KidSeq(s, n)
            && n in t.info && t.info[n] == s.info[n].(isRoot := s.info[n].isRoot || n in KidSeq(s, x))
  {
    AllFacts(s, cap);
    LinksInAll(s, cap, x);
    RootOrChild(s.reach, x);
    DeleteRootLinks(s, x, cap, n);
  }

  /** Deleting another node: its parent adopts the first children, as many as there are places, behind the siblings;
      the other children become parentless. */
  lemma DeleteChildDoes<R>(s: TreeState<R>, x: R, p: R, cap: nat, n: R)
    requires WellFormed(s, cap) && x in Nodes(s.reach) && Parent(s, x) == Some(p) && n in s.info && n != x
    ensures var t, m := DeleteAt(s, x, cap), AdoptedCount(s, x, cap);
            && m == (if |KidSeq(s, x)| + |KidSeq(s, p)| <= cap then |KidSeq(s, x)| else cap + 1 - |KidSeq(s, p)|)
            && 0 <= m <= |KidSeq(s, x)| && RootOf(t) == RootOf(s) != None
            && Parent(t, n) == (if n in KidSeq(s, x)[..m] then Some(p) else if n in KidSeq(s, x)[m..] then None
                                else Parent(s, n))
            && (n != p ==> KidSeq(t, n) == KidSeq(s, n))
            && n in t.info && t.info[n] == s.info[n].(isRoot := s.info[n].isRoot || n in KidSeq(s, x)[m..])
            && p in s.info && p != x
  {
    hide WellFormed, KidsOf, ParentOf, Nodes, Distinct, SetKids, Take, Drop, Append, Remove, Bounded, Len, Size;
    AllFacts(s, cap);
    LinksInAll(s, cap, x);
    ParentIsChild(s.reach, p, x);
    ChildFacts(s.reach, p, x);
    LinksInAll(s, cap, p);
    KidsBounded(s.reach, p, cap);
    SplitRoots(KidsOf(s.reach, x), Room(s.reach, p, cap));
    OrdersHoldNodes(KidsOf(s.reach, p));
    DeleteChildLinks(s, x, p, cap, n);
    DeleteAtShape(s, x, cap);
    ChildInReach(s.reach, p, x);
  }

  lemma ChildInReach<R>(f: Forest<R>, p: R, x: R)
    requires Child(f, p, x)
    ensures p in Nodes(f) && x in Nodes(f) && f.Cons?
    ensures Len(KidsOf(f, p)) >= 1
  {
    OrdersHoldNodes(KidsOf(f, p));
    ChildFacts(f, p, x);
  }

  /** The parent's list afterwards: the siblings in order, then the adopted children in order. */
  lemma ParentsListAfter<R>(s: TreeState<R>, x: R, p: R, cap: nat) returns (i: nat)
    requires WellFormed(s, cap) && x in Nodes(s.reach) && Parent(s, x) == Some(p)
    ensures var t, m := DeleteAt(s, x, cap), AdoptedCount(s, x, cap);
            && 0 <= m <= |KidSeq(s, x)| && i < |KidSeq(s, p)| && KidSeq(s, p)[i] == x
            && KidSeq(t, p) == KidSeq(s, p)[..i] + KidSeq(s, p)[i + 1..] + KidSeq(s, x)[..m]
  {
    hide WellFormed, KidsOf, ParentOf, Nodes, Distinct, SetKids, Take, Drop, Append, Remove, Bounded, Len, Size;
    AllFacts(s, cap);
    LinksInAll(s, cap, x);
    ParentIsChild(s.reach, p, x);
    ChildFacts(s.reach, p, x);
    ChildInReach(s.reach, p, x);
    LinksInAll(s, cap, p);
    KidsBounded(s.reach, p, cap);
    SplitRoots(KidsOf(s.reach, x), Room(s.reach, p, cap));
    OrdersHoldNodes(KidsOf(s.reach, p));
    DeleteChildLinks(s, x, p, cap, p);
    i := RemoveRoots(KidsOf(s.reach, p), x);
  }

  /** Exactly the node deleted ceases to live. */
  lemma DeleteDoes<R>(s: TreeState<R>, x: R, cap: nat)
    requires WellFormed(s, cap) && x in Nodes(s.reach)
    ensures DeleteAt(s, x, cap).info.Keys == s.info.Keys - {x} && DeleteAt(s, x, cap).total == s.total - 1
    ensures WellFormed(DeleteAt(s, x, cap), cap)
  {
    DeleteAtShape(s, x, cap);
    DeleteAtKeepsForest(s, x, cap);
  }

  // ----- Loading -----

  /** A record is refused, without effect, when there is a root but the parent it names is not found or full;
      otherwise it makes a node that has just the record's data, a root or the last child of the parent named. */
  lemma LoadOneDoes<R>(s: TreeState<R>, x: R, rec: Record, cap: nat)
    requires WellFormed(s, cap) && x !in s.info
    ensures var t, parent := LoadOne(s, x, rec, cap), Lookup(s, rec.parentId);
            if RootOf(s).Some? && (parent.None? || |KidSeq(s, parent.value)| == cap) then t == s
            else
              && t.info == s.info[x := Info(Clip(rec.id), rec.created, rec.isRoot, rec.isActive)]
              && t.total == s.total + 1 && RootOf(t) == (if RootOf(s).None? then Some(x) else RootOf(s))
              && Nodes(t.reach) == Nodes(s.reach) + {x} && Nodes(t.detached) == Nodes(s.detached)
              && (forall n :: n in t.info ==>
                    Parent(t, n) == if n != x then Parent(s, n) else if RootOf(s).None? then None else parent)
              && (forall n :: n in t.info ==>
                    KidSeq(t, n) == if n == x then []
                                    else if RootOf(s).Some? && parent == Some(n) then KidSeq(s, n) + [x]
                                    else KidSeq(s, n))
  {
    hide Lookup, WellFormed, Nodes, Create, KidsOf, ParentOf;
    RefusedIff(s, Some(rec.parentId), cap);
    if Accepts(s, Some(rec.parentId), cap) {
      CreateDoes(s, x, Some(rec.parentId), Restored(rec), cap);
      var u, t := Create(s, x, Some(rec.parentId), Restored(rec)), LoadOne(s, x, rec, cap);
      SameLinks(u, t);
      assert t.info == s.info[x := Info(Clip(rec.id), rec.created, rec.isRoot, rec.isActive)];
    }
  }

  lemma SameLinks<R>(s: TreeState<R>, t: TreeState<R>)
    requires s.reach == t.reach && s.detached == t.detached
    ensures forall n :: KidSeq(s, n) == KidSeq(t, n) && Parent(s, n) == Parent(t, n)
  {
  }
}
