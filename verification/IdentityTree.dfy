/** The identity tree as a value: the tree reachable from the context's root, the trees that were cut
    loose from it, the data of every live node, and the context's node counter.  `R` is the type of
    node references.  `Create` and `Delete` are the specifications the code on linked nodes is proved against. */
module IdentityTree {
  import opened Forests
  import opened LevelOrder

  datatype Info = Info(id: string, created: int, isRoot: bool, isActive: bool)

  datatype TreeState<R> = TreeState(reach: Forest<R>, detached: Forest<R>, info: map<R, Info>, total: int)

  ghost function Empty<R>(): TreeState<R> {
    TreeState(Nil, Nil, map[], 0)
  }

  /** All live trees. */
  ghost function All<R>(s: TreeState<R>): Forest<R> {
    Append(s.reach, s.detached)
  }

  ghost function KidSeq<R>(s: TreeState<R>, n: R): seq<R> {
    Roots(KidsOf(All(s), n))
  }

  ghost function Parent<R>(s: TreeState<R>, n: R): Option<R> {
    ParentOf(All(s), n, None)
  }

  /** Live nodes form a forest in which nobody has more than `cap` children, and the counter counts them. */
  ghost predicate WellFormed<R>(s: TreeState<R>, cap: nat) {
    && Len(s.reach) <= 1
    && Distinct(All(s))
    && Bounded(All(s), cap)
    && s.info.Keys == Nodes(All(s))
    && s.total == Size(All(s))
  }

  /** The root flag is set exactly on the nodes without a parent. */
  ghost predicate RootFlags<R>(s: TreeState<R>) {
    forall n :: n in s.info ==> (s.info[n].isRoot <==> Parent(s, n).None?)
  }

  // ----- Operations -----

  ghost function AddChild<R>(f: Forest<R>, p: R, x: R): Forest<R> {
    SetKids(f, p, Append(KidsOf(f, p), Leaf(x)))
  }

  ghost predicate HasId<R>(info: map<R, Info>, n: R, key: string) {
    n in info && info[n].id == key
  }

  /** The position of the first node with id `key`, or the length of `visited`. */
  ghost function MatchIndex<R>(visited: seq<R>, info: map<R, Info>, key: string): (i: nat)
    ensures i <= |visited|
    ensures i < |visited| ==> HasId(info, visited[i], key)
    ensures forall j :: 0 <= j < i ==> !HasId(info, visited[j], key)
  {
    if visited == [] || HasId(info, visited[0], key) then 0 else 1 + MatchIndex(visited[1..], info, key)
  }

  ghost function FirstMatch<R>(visited: seq<R>, info: map<R, Info>, key: string): Option<R> {
    var i := MatchIndex(visited, info, key);
    if i < |visited| then Some(visited[i]) else None
  }

  ghost function Lookup<R>(s: TreeState<R>, key: string): Option<R> {
    FirstMatch(Visit(s.reach), s.info, key)
  }

  /** Every reachable node is found by its id. */
  ghost predicate AllFound<R>(s: TreeState<R>) {
    forall n :: n in Nodes(s.reach) && n in s.info ==> Lookup(s, s.info[n].id) == Some(n)
  }

  /** Creation succeeds on an empty tree, whatever the parent named; otherwise the parent must be found
      and have room for another child. */
  ghost predicate Accepts<R>(s: TreeState<R>, parentId: Option<string>, cap: nat) {
    s.reach.Nil? ||
    (parentId.Some? && Lookup(s, parentId.value).Some? && Len(KidsOf(s.reach, Lookup(s, parentId.value).value)) < cap)
  }

  /** The new node has reference `x` and data `info`. */
  ghost function Create<R>(s: TreeState<R>, x: R, parentId: Option<string>, info: Info): TreeState<R>
    requires s.reach.Cons? ==> parentId.Some? && Lookup(s, parentId.value).Some?
  {
    if s.reach.Nil? then
      TreeState(Leaf(x), s.detached, s.info[x := info.(isRoot := true)], s.total + 1)
    else
      TreeState(AddChild(s.reach, Lookup(s, parentId.value).value, x), s.detached, s.info[x := info], s.total + 1)
  }

  ghost function MarkRoots<R>(info: map<R, Info>, ns: seq<R>): map<R, Info> {
    map n | n in info :: if n in ns then info[n].(isRoot := true) else info[n]
  }

  /** The places the parent of `x` has for adopting the children of `x`. */
  ghost function Room<R>(f: Forest<R>, p: R, cap: nat): nat {
    if cap + 1 < Len(KidsOf(f, p)) then 0 else cap + 1 - Len(KidsOf(f, p))
  }

  ghost function Adopted<R>(f: Forest<R>, p: R, x: R, cap: nat): Forest<R> {
    Take(KidsOf(f, x), Room(f, p, cap))
  }

  ghost function LeftOut<R>(f: Forest<R>, p: R, x: R, cap: nat): Forest<R> {
    Drop(KidsOf(f, x), Room(f, p, cap))
  }

  /** The children of `p` after the deletion of its child `x`. */
  ghost function Siblings<R>(f: Forest<R>, p: R, x: R, cap: nat): Forest<R> {
    Append(Remove(KidsOf(f, p), x), Adopted(f, p, x, cap))
  }

  ghost function DeleteAt<R>(s: TreeState<R>, x: R, cap: nat): TreeState<R>
  {
    match ParentOf(s.reach, x, None)
    case None =>
      var k := KidsOf(s.reach, x);
      TreeState(Nil, Append(s.detached, k), MarkRoots(s.info - {x}, Roots(k)), s.total - 1)
    case Some(p) =>
      var out := LeftOut(s.reach, p, x, cap);
      TreeState(SetKids(s.reach, p, Siblings(s.reach, p, x, cap)), Append(s.detached, out),
                MarkRoots(s.info - {x}, Roots(out)), s.total - 1)
  }

  ghost function Delete<R>(s: TreeState<R>, key: string, cap: nat): Option<TreeState<R>> {
    match Lookup(s, key)
    case None => None
    case Some(x) => Some(DeleteAt(s, x, cap))
  }

  // ----- Lookup -----

  /** Whatever lookup returns is reachable and carries the id asked for. */
  lemma LookupSound<R>(s: TreeState<R>, key: string, cap: nat)
    requires WellFormed(s, cap)
    ensures Lookup(s, key).Some? ==>
              Lookup(s, key).value in Nodes(s.reach) && HasId(s.info, Lookup(s, key).value, key) && s.total > 0
  {
    VisitSound(s.reach);
    AppendFacts(s.reach, s.detached);
  }

  /** While the peak fits the buffer, lookup returns nothing exactly when no reachable node has the id ... */
  lemma LookupComplete<R>(s: TreeState<R>, key: string, cap: nat)
    requires WellFormed(s, cap) && Peak(s.reach) <= MAX_QUEUE_SIZE
    ensures Lookup(s, key).None? <==> forall n :: n in Nodes(s.reach) ==> !HasId(s.info, n, key)
  {
    LookupSound(s, key, cap);
    VisitComplete(s.reach);
    var v := Visit(s.reach);
    forall n | n in Nodes(s.reach) && Lookup(s, key).None? ensures !HasId(s.info, n, key) {
      assert n in Elems(v);
      var k :| 0 <= k < |v| && v[k] == n;
    }
  }

  /** ... and what it returns then is a match of least level. */
  lemma LookupShallowest<R>(s: TreeState<R>, key: string, cap: nat, n: R)
    requires WellFormed(s, cap) && Peak(s.reach) <= MAX_QUEUE_SIZE
    requires n in Nodes(s.reach) && HasId(s.info, n, key)
    ensures Lookup(s, key).Some? && Level(s.reach, Lookup(s, key).value) <= Level(s.reach, n)
  {
    hide Visit, Level, Nodes, Distinct, Size, Bounded, Peak;
    var v := Visit(s.reach);
    VisitComplete(s.reach);
    AppendFacts(s.reach, s.detached);
    LevelsNeverDecrease(s.reach);
    assert n in Elems(v);
    var k :| 0 <= k < |v| && v[k] == n;
    assert MatchIndex(v, s.info, key) <= k;
  }

  /** Lookup can be relied on for every id in the tree if and only if the peak fits: otherwise, when its ids
      are unique, some reachable node's id is looked up in vain. */
  lemma LookupReliableIffPeakFits<R>(s: TreeState<R>, cap: nat)
    requires WellFormed(s, cap) && UniqueReachIds(s)
    ensures AllFound(s) <==> Peak(s.reach) <= MAX_QUEUE_SIZE
  {
    AppendFacts(s.reach, s.detached);
    VisitsAllIffPeakFits(s.reach);
    var v := Visit(s.reach);
    VisitSound(s.reach);
    if Peak(s.reach) <= MAX_QUEUE_SIZE {
      forall n | n in Nodes(s.reach) ensures Lookup(s, s.info[n].id) == Some(n) {
        LookupComplete(s, s.info[n].id, cap);
        LookupSound(s, s.info[n].id, cap);
      }
    } else {
      assert !(Nodes(s.reach) <= Elems(v));
      var n :| n in Nodes(s.reach) && n !in Elems(v);
    }
  }

  /** No two live nodes share an id ... */
  ghost predicate UniqueIds<R>(s: TreeState<R>) {
    forall m, n :: m in s.info && n in s.info && s.info[m].id == s.info[n].id ==> m == n
  }

  /** ... and no two reachable ones; detached nodes may repeat the ids of others. */
  ghost predicate UniqueReachIds<R>(s: TreeState<R>) {
    forall m, n :: m in Nodes(s.reach) && n in Nodes(s.reach) && m in s.info && HasId(s.info, n, s.info[m].id) ==>
                     m == n
  }
}
