/** The tree context and its operations on linked nodes, each proved to do to the heap what its
    specification function does to the value `state`. */
module TreeContexts {
  import opened Forests
  import opened LevelOrder
  import opened IdentityTree
  import opened TreeLaws
  import opened TreeRuns
  import opened TreeNodes
  import opened NodeId

  /** The child arrays below `f` hold the children `f` prescribes. */
  ghost predicate Matches(f: Forest<TreeNode>, repr: set<object>)
    reads repr
  {
    forall n: TreeNode :: n in Nodes(f) ==>
      n in repr && n.children in repr &&
      n.childCount <= n.children.Length && n.children[..n.childCount] == Roots(KidsOf(f, n))
  }

  /** The inner loop of both queue-driven traversals: every child of a node is offered to the queue. */
  method PushChildren(queue: NodeQueue, node: TreeNode, ghost waiting: Forest<TreeNode>, ghost kids: Forest<TreeNode>)
    requires queue.Valid() && queue.nodes != node.children && node.childCount <= node.children.Length
    requires queue.contents == Roots(waiting) && Roots(kids) == node.children[..node.childCount]
    modifies queue, queue.nodes
    ensures queue.Valid() && queue.contents == Roots(PushAll(waiting, kids))
  {
    ghost var q, rest := waiting, kids;
    var i := 0;
    while i < node.childCount
      invariant i <= node.childCount
      invariant queue.Valid() && queue.contents == Roots(q)
      invariant Roots(rest) == node.children[i..node.childCount]
      invariant PushAll(q, rest) == PushAll(waiting, kids)
    {
      NextRoot(rest, node.children[i..node.childCount]);
      PushRoots(q, rest.node, rest.kids);
      var _ := queue.Push(node.children[i]);
      q, rest := Push(q, rest.node, rest.kids), rest.rest;
      i := i + 1;
    }
  }

  /** The trees waiting after the first one has been taken out and its children pushed. */
  ghost function Next<D>(q: Forest<D>): Forest<D>
    requires q.Cons?
  {
    PushAll(q.rest, q.kids)
  }

  /** The queue holds trees of `f`, no more than fit. */
  ghost predicate Waiting<D>(q: Forest<D>, f: Forest<D>) {
    Within(q, f) && Len(q) <= MAX_QUEUE_SIZE
  }

  lemma StepWaiting<D>(q: Forest<D>, f: Forest<D>)
    requires Waiting(q, f) && q.Cons?
    ensures q.node in Nodes(f) && KidsOf(f, q.node) == q.kids
    ensures Waiting(Next(q), f) && Size(Next(q)) < Size(q)
    ensures Visit(q) == [q.node] + Visit(Next(q))
  {
    var m := MAX_QUEUE_SIZE - Len(q.rest);
    PushAllTakes(q.rest, q.kids);
    WithinTake(q.kids, m, f);
    WithinAppend(q.rest, Take(q.kids, m), f);
  }

  lemma StartWaiting<D>(f: Forest<D>, root: D)
    requires Distinct(f) && Roots(f) == [root]
    ensures Waiting(f, f)
  {
    WithinSelf(f);
    OrdersHoldNodes(f);
  }

  /** Lookup below `root`: the first node of the bounded level order that has the id, if any. */
  method Search(root: TreeNode, key: string, ghost f: Forest<TreeNode>, ghost repr: set<object>)
    returns (r: TreeNode?)
    requires Distinct(f) && Roots(f) == [root] && Matches(f, repr)
    ensures r == null ==> forall j :: 0 <= j < |Visit(f)| ==> Visit(f)[j].id != key
    ensures r != null ==> r.id == key
    ensures r != null ==> exists i :: 0 <= i < |Visit(f)| && Visit(f)[i] == r &&
                                      forall j :: 0 <= j < i ==> Visit(f)[j].id != key
  {
    hide Visit, Within, KidsOf, Nodes, Distinct, Roots, Size, Len, PushAll, Waiting;
    var queue := new NodeQueue();
    var _ := queue.Push(root);
    StartWaiting(f, root);
    ghost var q := f;
    ghost var passed: seq<TreeNode> := [];
    while queue.size > 0
      invariant queue.Valid() && fresh(queue) && fresh(queue.nodes) && queue.nodes !in repr
      invariant queue.contents == Roots(q) && Waiting(q, f)
      invariant Visit(f) == passed + Visit(q)
      invariant forall j :: 0 <= j < |passed| ==> passed[j].id != key
      decreases Size(q)
    {
      NextRoot(q, queue.contents);
      StepWaiting(q, f);
      assert passed + Visit(q) == passed + [q.node] + Visit(Next(q));
      var node := queue.Pop();
      if node.id == key {
        assert Visit(f)[|passed|] == node;
        return node;
      }
      PushChildren(queue, node, q.rest, q.kids);
      passed, q := passed + [node], Next(q);
    }
    NoRoots(q);
    return null;
  }

  lemma NoRoots<D>(q: Forest<D>)
    ensures |Roots(q)| == 0 ==> q.Nil? && Visit(q) == [] && Preorder(q) == [] && Postorder(q) == [] && Depth(q) == 0
  {
  }

  /** Breadth-first traversal below `root`; the visitor's calls are recorded in the log. */
  method BreadthFirst(root: TreeNode, ghost f: Forest<TreeNode>, ghost repr: set<object>)
    returns (log: seq<TreeNode>)
    requires Distinct(f) && Roots(f) == [root] && Matches(f, repr)
    ensures log == Visit(f)
  {
    hide Visit, Within, KidsOf, Nodes, Distinct, Roots, Size, Len, PushAll, Waiting;
    var queue := new NodeQueue();
    var _ := queue.Push(root);
    StartWaiting(f, root);
    ghost var q := f;
    log := [];
    while queue.size > 0
      invariant queue.Valid() && fresh(queue) && fresh(queue.nodes) && queue.nodes !in repr
      invariant queue.contents == Roots(q) && Waiting(q, f)
      invariant Visit(f) == log + Visit(q)
      decreases Size(q)
    {
      NextRoot(q, queue.contents);
      StepWaiting(q, f);
      assert log + Visit(q) == log + [q.node] + Visit(Next(q));
      var node := queue.Pop();
      log := log + [node];
      PushChildren(queue, node, q.rest, q.kids);
      q := Next(q);
    }
    NoRoots(q);
  }

  /** The first tree of a sublist: its root, what lies below it, and the trees after it. */
  lemma FirstTree<D>(rest: Forest<D>, f: Forest<D>)
    requires rest.Cons? && Within(rest, f)
    ensures rest.node in Nodes(f) && KidsOf(f, rest.node) == rest.kids
    ensures Within(rest.kids, f) && Within(rest.rest, f)
    ensures Size(rest.kids) < Size(rest) && Size(rest.rest) < Size(rest)
    ensures Preorder(rest) == [rest.node] + Preorder(rest.kids) + Preorder(rest.rest)
    ensures Depth(rest) == if 1 + Depth(rest.kids) > Depth(rest.rest) then 1 + Depth(rest.kids) else Depth(rest.rest)
  {
  }

  lemma FirstTreeApart<D>(rest: Forest<D>)
    requires rest.Cons? && Distinct(rest)
    ensures Nodes(rest) == {rest.node} + Nodes(rest.kids) + Nodes(rest.rest)
    ensures rest.node !in Nodes(rest.kids) + Nodes(rest.rest) && Nodes(rest.kids) !! Nodes(rest.rest)
    ensures Distinct(rest.kids) && Distinct(rest.rest)
  {
  }

  /** Depth-first traversal below `node`; the visitor's calls are appended to the log. */
  method DepthFirst(node: TreeNode, ghost f: Forest<TreeNode>, ghost repr: set<object>, ghost kids: Forest<TreeNode>,
                    before: seq<TreeNode>)
    returns (log: seq<TreeNode>)
    requires Matches(f, repr) && node in Nodes(f) && KidsOf(f, node) == kids && Within(kids, f)
    ensures log == before + ([node] + Preorder(kids))
    decreases Size(kids)
  {
    hide Within, KidsOf, Nodes, Roots, Size, Preorder;
    log := before + [node];
    ghost var goal := before + ([node] + Preorder(kids));
    ghost var rest := kids;
    var i := 0;
    while i < node.childCount
      invariant i <= node.childCount && Roots(rest) == node.children[i..node.childCount]
      invariant Within(rest, f) && Size(rest) <= Size(kids)
      invariant log + Preorder(rest) == goal
    {
      NextRoot(rest, node.children[i..node.childCount]);
      FirstTree(rest, f);
      log := DepthFirst(node.children[i], f, repr, rest.kids, log);
      rest := rest.rest;
      i := i + 1;
    }
    NoRoots(rest);
  }

  method DepthBelow(node: TreeNode, ghost f: Forest<TreeNode>, ghost repr: set<object>, ghost kids: Forest<TreeNode>)
    returns (depth: nat)
    requires Matches(f, repr) && node in Nodes(f) && KidsOf(f, node) == kids && Within(kids, f)
    ensures depth == 1 + Depth(kids)
    decreases Size(kids)
  {
    hide Within, KidsOf, Nodes, Roots, Size, Depth;
    var maxDepth := 0;
    ghost var rest := kids;
    var i := 0;
    while i < node.childCount
      invariant i <= node.childCount && Roots(rest) == node.children[i..node.childCount]
      invariant Within(rest, f) && Size(rest) <= Size(kids)
      invariant Depth(kids) == if maxDepth > Depth(rest) then maxDepth else Depth(rest)
    {
      NextRoot(rest, node.children[i..node.childCount]);
      FirstTree(rest, f);
      var d := DepthBelow(node.children[i], f, repr, rest.kids);
      if d > maxDepth {
        maxDepth := d;
      }
      rest := rest.rest;
      i := i + 1;
    }
    NoRoots(rest);
    return maxDepth + 1;
  }

  /** Frees `node` after everything below it; `freed` lists the nodes freed so far, and no node is read
      once it is listed. */
  method Cleanup(node: TreeNode, ghost f: Forest<TreeNode>, ghost repr: set<object>, ghost kids: Forest<TreeNode>,
                 before: seq<TreeNode>)
    returns (freed: seq<TreeNode>)
    requires Matches(f, repr) && node in Nodes(f) && KidsOf(f, node) == kids && Within(kids, f)
    requires node !in Nodes(kids) && Distinct(kids) && Elems(before) !! {node} + Nodes(kids)
    ensures freed == before + Postorder(kids) + [node]
    decreases Size(kids)
  {
    hide Within, KidsOf, Nodes, Distinct, Roots, Size, Postorder, Elems;
    freed := before;
    ghost var rest := kids;
    var i := 0;
    while i < node.childCount
      invariant i <= node.childCount && Roots(rest) == node.children[i..node.childCount]
      invariant Within(rest, f) && Size(rest) <= Size(kids) && Distinct(rest)
      invariant node !in Nodes(rest) && Elems(freed) !! {node} + Nodes(rest)
      invariant freed + Postorder(rest) == before + Postorder(kids)
    {
      NextRoot(rest, node.children[i..node.childCount]);
      FirstTree(rest, f);
      FirstTreeApart(rest);
      FreedTree(freed, rest);
      freed := Cleanup(node.children[i], f, repr, rest.kids, freed);
      rest := rest.rest;
      i := i + 1;
    }
    NoRoots(rest);
    assert node !in Elems(freed);
    freed := freed + [node];
  }

  lemma {:induction false} FreedTree<D>(freed: seq<D>, rest: Forest<D>)
    requires rest.Cons?
    ensures Elems(freed + Postorder(rest.kids) + [rest.node]) == Elems(freed) + Nodes(rest.kids) + {rest.node}
    ensures freed + Postorder(rest) == freed + Postorder(rest.kids) + [rest.node] + Postorder(rest.rest)
  {
    var s, d := Postorder(rest.kids), rest.node;
    assert freed + (s + [d] + Postorder(rest.rest)) == freed + s + [d] + Postorder(rest.rest);
    assert Elems(freed + s + [d]) == Elems(freed) + Nodes(rest.kids) + {d} by {
      OrdersElems(rest.kids);
      ElemsJoin(freed, s);
      ElemsJoin(freed + s, [d]);
      assert Elems([d]) == {d};
    }
  }

  ghost function Expected(s: TreeState<TreeNode>, n: TreeNode, cap: nat): NodeFields
    requires n in s.info
  {
    NodeFields(s.info[n], KidSeq(s, n), OptionRef(Parent(s, n)), cap, cap)
  }

  lemma SameShape(s: TreeState<TreeNode>, t: TreeState<TreeNode>, n: TreeNode)
    requires s.reach == t.reach && s.detached == t.detached
    ensures KidSeq(s, n) == KidSeq(t, n) && Parent(s, n) == Parent(t, n)
  {
  }

  lemma ExpectedAfterCreateRoot(s: TreeState<TreeNode>, x: TreeNode, parentId: Option<string>, info: Info, cap: nat,
                                n: TreeNode)
    requires WellFormed(s, cap) && x !in s.info && s.reach.Nil?
    requires n in s.info || n == x
    ensures var s' := Create(s, x, parentId, info);
            && n in s'.info
            && Expected(s', n, cap) ==
               if n == x then NodeFields(info.(isRoot := true), [], null, cap, cap) else Expected(s, n, cap)
  {
    AllFacts(s, cap);
    CreateRootLinks(s, x, parentId, info, cap, n);
  }

  lemma ExpectedAfterCreateChild(s: TreeState<TreeNode>, x: TreeNode, parentId: Option<string>, info: Info, cap: nat,
                                 n: TreeNode)
    requires WellFormed(s, cap) && x !in s.info && s.reach.Cons? && Accepts(s, parentId, cap)
    requires n in s.info || n == x
    ensures var s' := Create(s, x, parentId, info); var p := Lookup(s, parentId.value).value;
            && n in s'.info
            && Expected(s', n, cap) == if n == x then NodeFields(info, [], p, cap, cap)
               else if n == p then Expected(s, p, cap).(kids := Expected(s, p, cap).kids + [x]) else Expected(s, n, cap)
  {
    AllFacts(s, cap);
    LookupSound(s, parentId.value, cap);
    CreateChildLinks(s, x, parentId, info, cap, n);
  }

  ghost function Uprooted(e: NodeFields): NodeFields {
    e.(parent := null, info := e.info.(isRoot := true))
  }

  lemma ExpectedAfterDeleteRoot(s: TreeState<TreeNode>, x: TreeNode, cap: nat, n: TreeNode)
    requires WellFormed(s, cap) && x in Nodes(s.reach) && ParentOf(s.reach, x, None).None?
    requires n in s.info && n != x
    ensures var s' := DeleteAt(s, x, cap);
            && n in s'.info
            && Expected(s', n, cap) ==
               if n in Roots(KidsOf(s.reach, x)) then Uprooted(Expected(s, n, cap)) else Expected(s, n, cap)
  {
    DeleteRootLinks(s, x, cap, n);
  }

  /** What cutting `x` out from below `p` does to the fields `e` of node `n`, when the first `room` of the
      children `kids` of `x` are adopted. */
  ghost function AfterCut(e: NodeFields, n: TreeNode, x: TreeNode, p: TreeNode, kids: seq<TreeNode?>,
                          room: nat): NodeFields
    requires room <= |kids|
  {
    if n == p then e.(kids := Without(e.kids, x) + kids[..room])
    else if n in kids[..room] then e.(parent := p)
    else if n in kids[room..] then Uprooted(e)
    else e
  }

  /** How many children of `x` its parent `p` adopts. */
  ghost function Places(s: TreeState<TreeNode>, x: TreeNode, p: TreeNode, cap: nat): nat
    requires cap + 1 >= Len(KidsOf(s.reach, p))
  {
    Min(Len(KidsOf(s.reach, x)), cap + 1 - Len(KidsOf(s.reach, p)))
  }

  lemma PlacesLeft(s: TreeState<TreeNode>, x: TreeNode, p: TreeNode, cap: nat)
    requires cap + 1 >= Len(KidsOf(s.reach, p))
    ensures Places(s, x, p, cap) == Min(|Roots(KidsOf(s.reach, x))|, cap + 1 - Len(KidsOf(s.reach, p)))
  {
    OrdersHoldNodes(KidsOf(s.reach, x));
  }

  lemma RootsTakeDrop<D>(f: Forest<D>, n: nat)
    requires n <= Len(f)
    ensures |Roots(f)| == Len(f)
    ensures Roots(Take(f, n)) == Roots(f)[..n] && Roots(Drop(f, n)) == Roots(f)[n..]
  {
    TakeDrop(f, n);
    AppendFacts(Take(f, n), Drop(f, n));
    OrdersHoldNodes(f);
    OrdersHoldNodes(Take(f, n));
  }

  lemma TakeMin<D>(f: Forest<D>, n: nat)
    ensures Take(f, n) == Take(f, Min(Len(f), n)) && Drop(f, n) == Drop(f, Min(Len(f), n))
  {
    TakeDrop(f, n);
    TakeDrop(f, Len(f));
  }

  lemma ExpectedAfterDeleteChild(s: TreeState<TreeNode>, x: TreeNode, p: TreeNode, cap: nat, n: TreeNode)
    requires WellFormed(s, cap) && Child(s.reach, p, x) && Len(KidsOf(s.reach, p)) <= cap
    requires n in s.info && n != x
    ensures var s' := DeleteAt(s, x, cap);
            var kids, room := Roots(KidsOf(s.reach, x)), Places(s, x, p, cap);
            && n in s'.info && room <= |kids| && p in s.info && p !in kids
            && Expected(s', n, cap) == AfterCut(Expected(s, n, cap), n, x, p, kids, room)
  {
    hide DeleteAt, SetKids, KidsOf, Nodes, Distinct, Bounded, Without, Remove, Take, Drop, Roots;
    var k, kx := KidsOf(s.reach, p), KidsOf(s.reach, x);
    AllFacts(s, cap);
    ChildFacts(s.reach, p, x);
    DeleteChildNodes(s, x, p, cap);
    DeleteChildLinks(s, x, p, cap, n);
    LinksInAll(s, cap, p);
    RootsWithout(k, x);
    RootsTakeDrop(kx, Places(s, x, p, cap));
    TakeMin(kx, Room(s.reach, p, cap));
    OrdersHoldNodes(kx);
    RootsDistinct(kx);
    DeleteAtInfo(s, x, p, cap);
  }

  lemma DeleteAtInfo(s: TreeState<TreeNode>, x: TreeNode, p: TreeNode, cap: nat)
    requires Child(s.reach, p, x)
    ensures DeleteAt(s, x, cap).info == MarkRoots(s.info - {x}, Roots(LeftOut(s.reach, p, x, cap)))
  {
    ChildFacts(s.reach, p, x);
  }

  ghost predicate NoRepeatRefs(s: seq<TreeNode?>) {
    forall i, j :: 0 <= i < j < |s| ==> s[i] != s[j]
  }

  /** `s` without the first occurrence of `x`. */
  ghost function Without(s: seq<TreeNode?>, x: TreeNode): seq<TreeNode?> {
    if s == [] then [] else if s[0] == x then s[1..] else [s[0]] + Without(s[1..], x)
  }

  lemma WithoutAt(s: seq<TreeNode?>, x: TreeNode, i: nat)
    requires i < |s| && s[i] == x && x !in s[..i]
    ensures Without(s, x) == s[..i] + s[i + 1..]
  {
    if i > 0 {
      assert s[1..][..i - 1] == s[..i][1..];
      WithoutAt(s[1..], x, i - 1);
    }
  }

  lemma WithoutLength(s: seq<TreeNode?>, x: TreeNode)
    requires x in s
    ensures |Without(s, x)| == |s| - 1
  {
  }

  lemma RootsWithout(f: Forest<TreeNode>, x: TreeNode)
    ensures Without(Roots(f), x) == Roots(Remove(f, x))
  {
    if f.Cons? {
      RootsWithout(f.rest, x);
      assert Roots(f)[1..] == Roots(f.rest);
    }
  }

  /** Moves the elements after position `index` one place to the left. */
  method CloseGap(a: array<TreeNode?>, index: nat, count: nat)
    requires index < count <= a.Length
    modifies a
    ensures a[..count - 1] == old(a[..count])[..index] + old(a[..count])[index + 1..]
  {
    forall j | index <= j < count - 1 {
      a[j] := a[j + 1];
    }
  }

  /** Takes `node` out of its parent's child array; the later children move one place to the left. */
  method UnlinkChild(parent: TreeNode, node: TreeNode)
    requires parent.childCount <= parent.children.Length && node in parent.children[..parent.childCount]
    modifies parent`childCount, parent.children
    ensures parent.childCount <= parent.children.Length
    ensures parent.Fields() == old(parent.Fields()).(kids := Without(old(parent.Fields()).kids, node))
  {
    hide Without;
    ghost var kids := parent.children[..parent.childCount];
    var index := 0;
    while index < parent.childCount && parent.children[index] != node
      invariant index <= parent.childCount && node !in kids[..index]
    {
      index := index + 1;
    }
    assert kids[..|kids|] == kids;
    WithoutAt(kids, node, index);
    CloseGap(parent.children, index, parent.childCount);
    parent.childCount := parent.childCount - 1;
  }

  ghost function Min(a: nat, b: nat): nat {
    if a < b then a else b
  }

  /** The children of `node` are proper nodes, apart from each other, from `node` and from its parent. */
  ghost predicate Orphans(node: TreeNode)
    reads node, node.children
  {
    && node.childCount <= node.children.Length
    && (forall i :: 0 <= i < node.childCount ==>
          node.children[i] != null && node.children[i] != node && node.children[i] != node.parent)
    && NoRepeatRefs(node.children[..node.childCount])
  }

  ghost function KidSet(node: TreeNode): set<TreeNode>
    reads node, node.children
  {
    set c: TreeNode | node.childCount <= node.children.Length && c in node.children[..node.childCount]
  }

  /** Makes `child` the last child of `p`, or a root when `p` has no place for it. */
  method AdoptOrphan(p: TreeNode, child: TreeNode)
    requires child != p && p.childCount <= p.maxChildren == p.children.Length
    modifies p`childCount, p.children, child`parent, child`isRoot
    ensures var room := old(p.childCount) < p.maxChildren;
            && p.childCount == old(p.childCount) + (if room then 1 else 0) <= p.children.Length
            && p.children[..p.childCount] == old(p.children[..p.childCount]) + (if room then [child] else [])
            && child.parent == (if room then p else null) && child.isRoot == (!room || old(child.isRoot))
  {
    if p.childCount < p.maxChildren {
      child.parent := p;
      p.children[p.childCount] := child;
      p.childCount := p.childCount + 1;
    } else {
      child.parent := null;
      child.isRoot := true;
    }
  }

  /** Offers the children of `node` to its parent in order; those it has no place for become roots. */
  method AdoptOrphans(node: TreeNode, p: TreeNode)
    requires Orphans(node) && node.parent == p && p != node && p.children != node.children
    requires p.childCount <= p.maxChildren == p.children.Length
    modifies p`childCount, p.children, KidSet(node)`parent, KidSet(node)`isRoot
    ensures p.childCount <= p.children.Length
    ensures var kids := old(node.children[..node.childCount]);
            var room := Min(|kids|, p.maxChildren - old(p.childCount));
            && p.Fields() == old(p.Fields()).(kids := old(p.Fields()).kids + kids[..room])
            && (forall i :: 0 <= i < room ==> kids[i].parent == p && kids[i].isRoot == old(kids[i].isRoot))
            && (forall i :: room <= i < |kids| ==> kids[i].parent == null && kids[i].isRoot)
  {
    ghost var kids := node.children[..node.childCount];
    ghost var room := Min(|kids|, p.maxChildren - p.childCount);
    var i := 0;
    while i < node.childCount
      invariant i <= node.childCount == |kids| && node.children[..node.childCount] == kids
      invariant p.childCount == old(p.childCount) + Min(i, room) <= p.maxChildren
      invariant p.children[..p.childCount] == old(p.children[..p.childCount]) + kids[..Min(i, room)]
      invariant forall j :: 0 <= j < Min(i, room) ==> kids[j].parent == p && kids[j].isRoot == old(kids[j].isRoot)
      invariant forall j :: Min(i, room) <= j < i ==> kids[j].parent == null && kids[j].isRoot
      invariant forall j :: i <= j < |kids| ==> kids[j].isRoot == old(kids[j].isRoot)
    {
      AdoptOrphan(p, node.children[i]);
      i := i + 1;
    }
  }

  /** No two of the nodes share a child array. */
  ghost predicate Apart(live: set<TreeNode>) {
    forall m, n :: m in live && n in live && m != n ==> m.children != n.children
  }

  /** Cuts `node` out from below `p` and has `p` adopt what it can. */
  method CutOut(node: TreeNode, p: TreeNode, ghost live: set<TreeNode>, ghost kids: seq<TreeNode?>, ghost room: nat)
    requires Orphans(node) && node.parent == p && p != node && p.children != node.children
    requires p.childCount <= p.maxChildren == p.children.Length && node in p.children[..p.childCount]
    requires Apart(live) && p in live && KidSet(node) <= live
    requires forall m :: m in live ==> m.childCount <= m.children.Length
    requires kids == node.children[..node.childCount] && room == Min(|kids|, p.maxChildren + 1 - p.childCount)
    modifies p`childCount, p.children, KidSet(node)`parent, KidSet(node)`isRoot
    ensures forall m :: m in live ==> m.childCount <= m.children.Length
    ensures forall m :: m in live ==> m.Fields() == AfterCut(old(m.Fields()), m, node, p, kids, room)
  {
    hide Without;
    WithoutLength(p.children[..p.childCount], node);

    UnlinkChild(p, node);
    assert node.children[..node.childCount] == kids;

    AdoptOrphans(node, p);
    forall m | m in live ensures m.Fields() == AfterCut(old(m.Fields()), m, node, p, kids, room) {
    }
  }

  /** Makes the children of `node` roots. */
  method UprootOrphans(node: TreeNode)
    requires Orphans(node)
    modifies KidSet(node)`parent, KidSet(node)`isRoot
    ensures var kids := old(node.children[..node.childCount]);
            forall i :: 0 <= i < |kids| ==> kids[i].parent == null && kids[i].isRoot
  {
    ghost var kids := node.children[..node.childCount];
    var i := 0;
    while i < node.childCount
      invariant i <= node.childCount == |kids| && node.children[..node.childCount] == kids
      invariant forall j :: 0 <= j < i ==> kids[j].parent == null && kids[j].isRoot
    {
      var child := node.children[i];
      child.parent := null;
      child.isRoot := true;
      i := i + 1;
    }
  }

  /** Makes `child` the last child of `parent`. */
  method LinkChild(parent: TreeNode, child: TreeNode)
    requires child.childCount <= child.children.Length
    requires child != parent && parent.childCount < parent.children.Length && parent.children != child.children
    modifies parent`childCount, parent.children, child`parent
    ensures parent.childCount <= parent.children.Length
    ensures parent.Fields() == old(parent.Fields()).(kids := old(parent.Fields()).kids + [child])
    ensures child.Fields() == old(child.Fields()).(parent := parent)
  {
    child.parent := parent;
    parent.children[parent.childCount] := child;
    parent.childCount := parent.childCount + 1;
  }

  method SetInfo(node: TreeNode, id: string, created: int, isRoot: bool, isActive: bool)
    requires node.childCount <= node.children.Length
    modifies node`id, node`creationTime, node`isRoot, node`isActive
    ensures node.Fields() == old(node.Fields()).(info := Info(id, created, isRoot, isActive))
  {
    node.id := id;
    node.creationTime := created;
    node.isRoot := isRoot;
    node.isActive := isActive;
  }

  method MarkRoot(node: TreeNode)
    requires node.childCount <= node.children.Length
    modifies node`isRoot
    ensures node.Fields() == old(node.Fields()).(info := old(node.GetInfo()).(isRoot := true))
  {
    node.isRoot := true;
  }

  class TreeContext {
    var root: TreeNode?
    var totalNodes: nat
    const cap: nat
    ghost var state: TreeState<TreeNode>
    ghost var Repr: set<object>

    /** The fields of `n` are those `state` prescribes. */
    ghost predicate Agrees(n: TreeNode)
      requires n in state.info
      reads this, n, n.children
    {
      n.childCount <= n.children.Length && n.Fields() == Expected(state, n, cap)
    }

    ghost predicate Valid()
      reads this, Repr
      ensures Valid() ==> this in Repr
    {
      && this in Repr
      && WellFormed(state, cap)
      && totalNodes == state.total
      && root == (if state.reach.Nil? then null else state.reach.node)
      && (forall n :: n in state.info ==> n in Repr && n.children in Repr && Agrees(n))
      && Apart(state.info.Keys)
    }

    constructor (cap: nat)
      ensures Valid() && fresh(Repr) && this.cap == cap
      ensures state == Empty()
    {
      root := null;
      totalNodes := 0;
      this.cap := cap;
      state := Empty();
      Repr := {this};
    }

    lemma NodeLinks(n: TreeNode)
      requires Valid() && n in Nodes(state.reach)
      ensures n in state.info && Agrees(n)
      ensures n.children[..n.childCount] == Roots(KidsOf(state.reach, n)) && n.childCount == Len(KidsOf(state.reach, n))
      ensures n.parent == OptionRef(ParentOf(state.reach, n, None))
      ensures n.maxChildren == n.children.Length == cap && n.childCount <= cap
    {
      AllFacts(state, cap);
      LinksInAll(state, cap, n);
      OrdersHoldNodes(KidsOf(state.reach, n));
    }

    lemma ReachMatches()
      requires Valid()
      ensures Matches(state.reach, Repr) && Distinct(state.reach) && Nodes(state.reach) <= state.info.Keys
      ensures root == null <==> state.reach.Nil?
      ensures root != null ==> Roots(state.reach) == [root]
    {
      AllFacts(state, cap);
      if root != null {
        SingleTree(state.reach);
      }
      forall n: TreeNode | n in Nodes(state.reach)
        ensures n in Repr && n.children in Repr && n.childCount <= n.children.Length
        ensures n.children[..n.childCount] == Roots(KidsOf(state.reach, n))
      {
        NodeLinks(n);
      }
    }

    /** What a valid context means for a live node's own fields, and for the fields of the context. */
    lemma HeapShowsState(n: TreeNode)
      requires Valid() && n in state.info
      ensures var info := state.info[n];
              && n.id == info.id && n.creationTime == info.created
              && n.isRoot == info.isRoot && n.isActive == info.isActive
      ensures n.childCount <= n.children.Length == n.maxChildren == cap
      ensures n.children[..n.childCount] == KidSeq(state, n)
      ensures n.parent == match Parent(state, n) case None => null case Some(p) => p
      ensures totalNodes == state.total == |state.info.Keys|
      ensures root == if state.reach.Nil? then null else state.reach.node
    {
      LiveCount(state, cap);
    }

    lemma CountsLive()
      requires Valid()
      ensures totalNodes == state.total && WellFormed(state, cap)
    {
    }

    /** What traversals find at the root. */
    lemma RootTree()
      requires Valid() && root != null
      ensures Matches(state.reach, Repr)
      ensures state.reach.Cons? && root == state.reach.node && root in Nodes(state.reach)
      ensures var k := state.reach.kids;
              && KidsOf(state.reach, root) == k && Within(k, state.reach) && root !in Nodes(k) && Distinct(k)
              && Preorder(state.reach) == [root] + Preorder(k) && Depth(state.reach) == 1 + Depth(k)
              && Postorder(state.reach) == Postorder(k) + [root]
    {
      ReachMatches();
      SingleTree(state.reach);
    }

    /** Returns the first match in level order, as far as the bounded queue sees. */
    method FindNode(nodeId: Option<string>) returns (r: TreeNode?)
      requires Valid()
      ensures r == if nodeId.None? then null else OptionRef(Lookup(state, nodeId.value))
      ensures nodeId.Some? && r == null ==>
                forall j :: 0 <= j < |Visit(state.reach)| ==> Visit(state.reach)[j].id != nodeId.value
      ensures r != null ==> nodeId.Some? && r.id == nodeId.value && r in Nodes(state.reach)
    {
      VisitNothing(state.reach);
      if nodeId.None? || root == null {
        return null;
      }
      ReachMatches();
      r := Search(root, nodeId.value, state.reach, Repr);
      ghost var v := Visit(state.reach);
      VisitSound(state.reach);
      assert forall n :: n in v ==> n in Elems(v);
      MatchFound(v, state.info, nodeId.value, r);
    }

    method TraverseBfs() returns (log: seq<TreeNode>)
      requires Valid()
      ensures log == Visit(state.reach)
    {
      if root == null {
        return [];
      }
      ReachMatches();
      log := BreadthFirst(root, state.reach, Repr);
    }

    method TraverseDfs() returns (log: seq<TreeNode>)
      requires Valid()
      ensures log == Preorder(state.reach)
    {
      OwnsLive();
      if root == null {
        return [];
      }
      hide Preorder, Nodes, Within, KidsOf, Distinct, Roots, Valid, Matches;
      RootTree();
      log := DepthFirst(root, state.reach, Repr, state.reach.kids, []);
    }

    method GetDepth() returns (depth: nat)
      requires Valid()
      ensures depth == Depth(state.reach)
    {
      if root == null {
        return 0;
      }
      hide Depth, Nodes, Within, KidsOf, Distinct, Roots, Valid, Matches;
      RootTree();
      depth := DepthBelow(root, state.reach, Repr, state.reach.kids);
    }

    /** Frees the reachable nodes, children first; detached trees are not freed. */
    method Destroy() returns (freed: seq<TreeNode>)
      requires Valid()
      ensures freed == Postorder(state.reach)
    {
      OwnsLive();
      NoRoots(state.reach);
      hide Postorder, Nodes, Within, KidsOf, Distinct, Roots, Elems, Valid, Matches;
      if root == null {
        return [];
      }
      RootTree();
      NothingFreed(root, state.reach);
      freed := Cleanup(root, state.reach, Repr, state.reach.kids, []);
    }

    /** A freshly made node that no live node knows of. */
    ghost predicate Blank(n: TreeNode)
      reads this, n
    {
      && n !in Repr && n.children !in Repr
      && n.children.Length == n.maxChildren == cap
      && n.childCount == 0 && n.parent == null
    }

    /** What a valid context with room for the blank node `n` offers. */
    lemma Opened(n: TreeNode)
      requires Valid() && Blank(n)
      ensures this in Repr && WellFormed(state, cap) && totalNodes == state.total &&
          state.info.Keys == Nodes(All(state))
      ensures n !in Repr && n.children !in Repr
      ensures root == (if state.reach.Nil? then null else state.reach.node)
      ensures Apart(state.info.Keys) && Apart(state.info.Keys + {n}) && n !in state.info
      ensures n.childCount <= n.children.Length && n.Fields() == NodeFields(n.GetInfo(), [], null, cap, cap)
      ensures forall m: TreeNode :: m in state.info ==> m in Repr && m.children in Repr
      ensures forall m: TreeNode :: m in state.info ==>
                m.childCount <= m.children.Length && m.Fields() == Expected(state, m, cap)
    {
    }

    method AttachRoot(n: TreeNode, ghost parentId: Option<string>)
      requires Valid() && Blank(n) && root == null
      modifies this, n`isRoot
      ensures Valid() && Repr == old(Repr) + {n, n.children}
      ensures state == Create(old(state), n, parentId, old(n.GetInfo()))
    {
      hide KidsOf, ParentOf, Nodes, Distinct, Bounded, Len, Size, Roots, Append, KidSeq, Parent, Apart, WellFormed,
           Valid, Agrees, n.Fields, Blank, Expected;
      ghost var s, info := state, n.GetInfo();
      Opened(n);
      CreateKeepsForest(s, n, parentId, info, cap);
      MarkRoot(n);
      root := n;
      totalNodes := totalNodes + 1;
      state := Create(s, n, parentId, info);
      Repr := Repr + {n, n.children};
      assert state.info.Keys == s.info.Keys + {n};
      forall m | m in state.info
        ensures m.childCount <= m.children.Length && m.Fields() == Expected(state, m, cap)
      {
        ExpectedAfterCreateRoot(s, n, parentId, info, cap, m);
      }
      Establish();
    }

    method AttachChild(n: TreeNode, parent: TreeNode, ghost parentId: Option<string>)
      requires Valid() && Blank(n) && root != null && parentId.Some?
      requires Lookup(state, parentId.value) == Some(parent) && parent in Nodes(state.reach)
      requires parent.childCount < parent.maxChildren
      modifies this, parent`childCount, parent.children, n`parent
      ensures Valid() && Repr == old(Repr) + {n, n.children}
      ensures state == Create(old(state), n, parentId, old(n.GetInfo()))
    {
      hide KidsOf, ParentOf, Nodes, Distinct, Bounded, Len, Size, Roots, Append, SetKids, AddChild, Lookup, KidSeq,
           Parent, Apart, WellFormed, Valid, Agrees, n.Fields, Blank, Expected;
      ghost var s, info := state, n.GetInfo();
      NodeLinks(parent);
      Opened(n);
      CreateKeepsForest(s, n, parentId, info, cap);
      LinkChild(parent, n);
      totalNodes := totalNodes + 1;
      state := Create(s, n, parentId, info);
      Repr := Repr + {n, n.children};
      assert state.info.Keys == s.info.Keys + {n};
      forall m | m in state.info
        ensures m.childCount <= m.children.Length && m.Fields() == Expected(state, m, cap)
      {
        ExpectedAfterCreateChild(s, n, parentId, info, cap, m);
      }
      Establish();
    }

    /** Creates a node below the node with id `parentId`, or a root when there is none; null when refused.
        A node is made and an id is drawn in either case; `made` is that node. */
    method CreateNode(ids: IdSource, parentId: Option<string>, now: int, stamp: nat)
      returns (node: TreeNode?, ghost made: TreeNode)
      requires Valid() && ids.Valid() && ids !in Repr && stamp < TWO_64
      modifies Repr, ids
      ensures Valid() && ids.Valid() && ids !in Repr && ids.counter == (old(ids.counter) + 1) % TWO_64
      ensures node == null <==> !Accepts(old(state), parentId, cap)
      ensures fresh(made) && made !in old(state).info
      ensures node == null ==> state == old(state) && Repr == old(Repr)
      ensures node != null ==>
                && node == made && fresh(Repr - old(Repr))
                && state == Create(old(state), node, parentId,
                                   Info(FormatId(stamp, old(ids.counter)), now, false, true))
      ensures System(state, ids.counter) ==
              Step(System(old(state), old(ids.counter)), CreateOp(made, parentId, now, stamp), cap)
    {
      hide Valid, Create, Lookup, KidsOf, Len, Nodes;
      OwnsLive();
      node := new TreeNode(cap, now);
      var id := ids.Generate(stamp);
      node.id := id;
      made := node;
      if parentId.None? || root == null {
        if root != null {
          return null, made;
        }
        AttachRoot(node, parentId);
      } else {
        var parent := FindNode(parentId);
        FoundFacts(parentId.value);
        if parent == null || parent.childCount >= parent.maxChildren {
          return null, made;
        }
        AttachChild(node, parent, parentId);
      }
    }

    /** Overwrites the data of a live node, as loading does after it has created one. */
    method Overwrite(node: TreeNode, id: string, created: int, isRoot: bool, isActive: bool)
      requires Valid() && node in state.info
      modifies this`state, node`id, node`creationTime, node`isRoot, node`isActive
      ensures Valid()
      ensures state == old(state).(info := old(state).info[node := Info(id, created, isRoot, isActive)])
    {
      hide KidsOf, ParentOf, Nodes, Distinct, Bounded, Size, Roots, Append, KidSeq, Parent, Valid, Agrees, Apart,
           WellFormed, node.Fields;
      ghost var s := state;
      OthersStay(node);
      OwnsLive();
      SetInfo(node, id, created, isRoot, isActive);
      state := state.(info := state.info[node := Info(id, created, isRoot, isActive)]);
      forall m | m in state.info
        ensures m.childCount <= m.children.Length && m.Fields() == Expected(state, m, cap)
      {
        SameShape(s, state, m);
      }
      SameForest(s, state);
      Establish();
    }

    /** The context owns the live nodes and their arrays; the root field is null just on an empty tree. */
    lemma OwnsLive()
      requires Valid()
      ensures this in Repr && forall m: TreeNode :: m in state.info ==> m in Repr && m.children in Repr
      ensures root == (if state.reach.Nil? then null else state.reach.node)
      ensures root == null <==> state.reach.Nil?
    {
    }

    lemma SameForest(s: TreeState<TreeNode>, t: TreeState<TreeNode>)
      requires WellFormed(s, cap) && t.reach == s.reach && t.detached == s.detached && t.total == s.total
      requires t.info.Keys == s.info.Keys
      ensures WellFormed(t, cap)
    {
    }

    lemma FoundFacts(key: string)
      requires Valid()
      ensures Lookup(state, key).Some? ==>
                var x := Lookup(state, key).value;
                && x in Nodes(state.reach) && x in state.info && x in Repr && x.children in Repr
                && x.childCount == Len(KidsOf(state.reach, x)) && x.maxChildren == cap
    {
      LookupSound(state, key, cap);
      if Lookup(state, key).Some? {
        NodeLinks(Lookup(state, key).value);
      }
    }

    /** The children of a reachable node, as its child array shows them. */
    lemma ReachableKids(node: TreeNode)
      requires Valid() && node in Nodes(state.reach)
      ensures node in state.info && node in Repr && node.children in Repr && state.total > 0
      ensures node.children[..node.childCount] == Roots(KidsOf(state.reach, node))
      ensures KidSet(node) <= state.info.Keys && KidSet(node) <= Repr - {node, node.children}
      ensures NoRepeatRefs(node.children[..node.childCount])
    {
      hide KidsOf, Distinct, Nodes, Roots, Len, Append, ParentOf, Bounded;
      var k := KidsOf(state.reach, node);
      AllFacts(state, cap);
      NodeLinks(node);
      OrdersHoldNodes(k);
      KidsFacts(state.reach, node);
      RootsDistinct(k);
      LiveIsPositive(state, cap, node);
    }

    /** The parent of a reachable node, as its parent field shows it. */
    lemma ReachableParent(node: TreeNode)
      requires Valid() && node in Nodes(state.reach)
      ensures root == state.reach.node
      ensures node.parent == OptionRef(ParentOf(state.reach, node, None))
      ensures node.parent == null ==> root == node && ParentOf(state.reach, node, None).None?
      ensures node.parent != null ==>
                var p: TreeNode := node.parent;
                && Child(state.reach, p, node) && p in state.info && p in Repr && p.children in Repr
                && p != node && p.children != node.children && p !in KidSet(node) && node in p.children[..p.childCount]
                && p.children[..p.childCount] == KidSeq(state, p) && p.childCount == Len(KidsOf(state.reach, p)) <= cap
                && p.maxChildren == p.children.Length == cap
    {
      hide KidsOf, Distinct, Nodes, Roots, Len, Append, Bounded, Parent;
      AllFacts(state, cap);
      NodeLinks(node);
      if node.parent == null {
        RootOrChild(state.reach, node);
      } else {
        var p: TreeNode := node.parent;
        ParentIsChild(state.reach, p, node);
        ChildFacts(state.reach, p, node);
        NodeLinks(p);
        LinksInAll(state, cap, p);
        OrdersHoldNodes(KidsOf(state.reach, node));
      }
    }

    /** Giving up `node` takes nothing away that another live node uses. */
    lemma OthersStay(node: TreeNode)
      requires Valid() && node in state.info
      ensures totalNodes == state.total && this in Repr - {node, node.children} && WellFormed(state, cap)
      ensures Apart(state.info.Keys)
      ensures forall m: TreeNode :: m in state.info && m != node ==>
                m in Repr - {node, node.children} && m.children in Repr - {node, node.children}
      ensures forall m: TreeNode :: m in state.info ==>
                m.childCount <= m.children.Length && m.Fields() == Expected(state, m, cap)
    {
    }

    lemma Establish()
      requires this in Repr && WellFormed(state, cap) && totalNodes == state.total
      requires root == (if state.reach.Nil? then null else state.reach.node)
      requires forall m: TreeNode :: m in state.info ==> m in Repr && m.children in Repr
      requires forall m: TreeNode :: m in state.info ==>
                m.childCount <= m.children.Length && m.Fields() == Expected(state, m, cap)
      requires Apart(state.info.Keys)
      ensures Valid()
    {
    }

    lemma ReachableOrphans(node: TreeNode)
      requires Valid() && node in Nodes(state.reach)
      ensures Orphans(node)
    {
      hide KidsOf, Distinct, Nodes, Roots, Len, Append, ParentOf, Bounded, WellFormed;
      ReachableKids(node);
      ReachableParent(node);
      forall i | 0 <= i < node.childCount
        ensures node.children[i] != null && node.children[i] != node && node.children[i] != node.parent
      {
        assert node.children[i] == node.children[..node.childCount][i];
        assert node.children[i] in KidSet(node);
      }
    }

    /** Deletes the root: its children become roots of detached trees. */
    method DeleteRoot(node: TreeNode)
      requires Valid() && node == root && node in Nodes(state.reach) && node.parent == null
      modifies Repr
      ensures Valid() && Repr == old(Repr) - {node, node.children}
      ensures state == DeleteAt(old(state), node, cap)
    {
      hide KidsOf, ParentOf, Nodes, Distinct, Bounded, Len, Size, Roots, Append, SetKids, KidSeq, Parent, WellFormed,
           Orphans, DeleteAt, Valid, Agrees, Apart, Expected;
      ghost var s := state;
      ReachableKids(node);
      OthersStay(node);
      ReachableParent(node);
      ReachableOrphans(node);
      DeleteAtKeepsForest(s, node, cap);
      DeleteAtShape(s, node, cap);
      root := null;
      UprootOrphans(node);
      totalNodes := totalNodes - 1;
      state := DeleteAt(s, node, cap);
      Repr := Repr - {node, node.children};
      forall m | m in state.info
        ensures m.childCount <= m.children.Length && m.Fields() == Expected(state, m, cap)
      {
        ExpectedAfterDeleteRoot(s, node, cap, m);
      }
      Establish();
    }

    /** Deletes a node that has a parent: the parent adopts the children it has room for, in order; the
        others become roots of detached trees. */
    method DeleteChild(node: TreeNode, p: TreeNode)
      requires Valid() && node in Nodes(state.reach) && node.parent == p
      modifies Repr
      ensures Valid() && Repr == old(Repr) - {node, node.children}
      ensures state == DeleteAt(old(state), node, cap)
    {
      hide KidsOf, ParentOf, Nodes, Distinct, Bounded, Len, Size, Roots, Append, SetKids, KidSeq, Parent, WellFormed,
           Orphans, DeleteAt, Child, AfterCut, Apart, Valid, Agrees, KidSet, NoRepeatRefs, Places, node.Fields,
           Expected;
      ghost var s := state;
      ReachableKids(node);
      OthersStay(node);
      ReachableParent(node);
      ReachableOrphans(node);
      NodeLinks(node);
      DeleteAtKeepsForest(s, node, cap);
      DeleteAtShape(s, node, cap);
      ghost var kids, room := node.children[..node.childCount], Places(s, node, p, cap);
      PlacesLeft(s, node, p, cap);
      CutOut(node, p, s.info.Keys, kids, room);
      totalNodes := totalNodes - 1;
      state := DeleteAt(s, node, cap);
      Repr := Repr - {node, node.children};
      forall m | m in state.info
        ensures m.childCount <= m.children.Length && m.Fields() == Expected(state, m, cap)
      {
        ExpectedAfterDeleteChild(s, node, p, cap, m);
      }
      Establish();
    }

    method DeleteNode(nodeId: Option<string>) returns (ok: bool)
      requires Valid()
      modifies Repr
      ensures Valid() && Repr <= old(Repr)
      ensures ok == (nodeId.Some? && Lookup(old(state), nodeId.value).Some?)
      ensures !ok ==> state == old(state) && Repr == old(Repr)
      ensures ok ==> state == DeleteAt(old(state), Lookup(old(state), nodeId.value).value, cap)
      ensures nodeId.Some? ==> forall c: nat ::
                System(state, c) == Step(System(old(state), c), DeleteOp(nodeId.value), cap)
    {
      hide Valid, Lookup, KidsOf, Nodes, DeleteAt;
      if nodeId.None? {
        return false;
      }
      var node := FindNode(nodeId);
      FoundFacts(nodeId.value);
      if node == null {
        return false;
      }
      ReachableParent(node);
      if node.parent != null {
        DeleteChild(node, node.parent);
      } else {
        DeleteRoot(node);
      }
      return true;
    }
  }

  lemma VisitNothing<D>(f: Forest<D>)
    ensures f.Nil? ==> Visit(f) == []
  {
  }

  lemma NothingFreed(n: TreeNode, f: Forest<TreeNode>)
    requires f.Cons? && Postorder(f) == Postorder(f.kids) + [n]
    ensures Elems<TreeNode>([]) !! {n} + Nodes(f.kids)
    ensures [] + Postorder(f.kids) + [n] == Postorder(f)
  {
  }

  lemma MatchFound(v: seq<TreeNode>, info: map<TreeNode, Info>, key: string, r: TreeNode?)
    requires r == null ==> forall j :: 0 <= j < |v| ==> !HasId(info, v[j], key)
    requires r != null ==> HasId(info, r, key)
    requires r != null ==> exists i :: 0 <= i < |v| && v[i] == r && forall j :: 0 <= j < i ==> !HasId(info, v[j], key)
    ensures OptionRef(FirstMatch(v, info, key)) == r
  {
  }

  lemma SingleTree<D>(f: Forest<D>)
    requires Distinct(f) && f.Cons? && Len(f) <= 1
    ensures f == Cons(f.node, f.kids, Nil) && Roots(f) == [f.node] && f.node in Nodes(f)
    ensures KidsOf(f, f.node) == f.kids && Within(f.kids, f)
    ensures f.node !in Nodes(f.kids) && Distinct(f.kids)
    ensures Preorder(f) == [f.node] + Preorder(f.kids) && Depth(f) == 1 + Depth(f.kids)
    ensures Postorder(f) == Postorder(f.kids) + [f.node]
  {
    WithinSelf(f);
    assert f.rest == Nil;
  }

  lemma NextRoot(f: Forest<TreeNode>, s: seq<TreeNode?>)
    requires Roots(f) == s && s != []
    ensures f.Cons? && f.node == s[0] && Roots(f.rest) == s[1..]
  {
    assert Roots(f)[1..] == Roots(f.rest);
  }

  lemma PushRoots<D>(q: Forest<D>, d: D, k: Forest<D>)
    ensures Roots(Push(q, d, k)) == if |Roots(q)| < MAX_QUEUE_SIZE then Roots(q) + [d] else Roots(q)
  {
    OrdersHoldNodes(q);
    AppendFacts(q, Cons(d, k, Nil));
  }
}
