/** Trees level by level: as long as two neighbouring levels fit the queue together, everything down to there
    is visited; and a node that is pushed last below a level too wide for the queue is not. */
module Breadth {
  import opened Forests
  import opened LevelOrder
  import opened Pruning

  /** The children of all the roots, in order. */
  function AllKids<D>(f: Forest<D>): Forest<D> {
    match f
    case Nil => Nil
    case Cons(_, k, r) => Append(k, AllKids(r))
  }

  /** The trees `l` levels down. */
  function LevelAt<D>(f: Forest<D>, l: nat): Forest<D>
    decreases l
  {
    if l == 0 then f else LevelAt(AllKids(f), l - 1)
  }

  lemma {:induction false} AllKidsSize<D>(f: Forest<D>)
    ensures Size(AllKids(f)) + Len(f) == Size(f) && Len(f) <= Size(f)
  {
    if f.Cons? {
      AllKidsSize(f.rest);
      AppendSizes(f.kids, AllKids(f.rest));
    }
  }

  lemma {:induction false} AllKidsNodes<D>(f: Forest<D>)
    ensures Nodes(f) == Elems(Roots(f)) + Nodes(AllKids(f))
    ensures Distinct(f) ==> Distinct(AllKids(f)) && Elems(Roots(f)) !! Nodes(AllKids(f))
  {
    if f.Cons? {
      AllKidsNodes(f.rest);
      AppendNodes(f.kids, AllKids(f.rest));
      ElemsFacts(Roots(f.rest), f.node);
    }
  }

  lemma {:induction false} AllKidsAppend<D>(a: Forest<D>, b: Forest<D>)
    ensures AllKids(Append(a, b)) == Append(AllKids(a), AllKids(b))
  {
    if a.Cons? {
      AllKidsAppend(a.rest, b);
      AppendAssoc(a.kids, AllKids(a.rest), AllKids(b));
    }
  }

  lemma {:induction false} LevelAtAppend<D>(a: Forest<D>, b: Forest<D>, l: nat)
    ensures LevelAt(Append(a, b), l) == Append(LevelAt(a, l), LevelAt(b, l))
    decreases l
  {
    if l > 0 {
      AllKidsAppend(a, b);
      LevelAtAppend(AllKids(a), AllKids(b), l - 1);
    }
  }

  // ----- Narrow trees -----

  /** Down to level `l`, any two neighbouring levels fit the queue together. */
  ghost predicate Narrow<D>(f: Forest<D>, l: nat)
    decreases l
  {
    Len(f) <= MAX_QUEUE_SIZE && (l > 0 ==> Len(f) + Len(AllKids(f)) <= MAX_QUEUE_SIZE && Narrow(AllKids(f), l - 1))
  }

  /** With the level `a` and some of the next, `b`, waiting, the rest of the next comes to wait behind. */
  lemma {:induction false} VisitLevel<D>(a: Forest<D>, b: Forest<D>)
    requires Len(a) + Len(b) + Len(AllKids(a)) <= MAX_QUEUE_SIZE
    ensures Elems(Visit(Append(a, b))) == Elems(Roots(a)) + Elems(Visit(Append(b, AllKids(a))))
  {
    match a
    case Nil =>
      AppendNil(b);
    case Cons(d, k, r) =>
      AppendSizes(r, b);
      AppendSizes(b, k);
      AppendSizes(k, AllKids(r));
      PushAllTakes(Append(r, b), k);
      AppendAssoc(r, b, k);
      AppendAssoc(b, k, AllKids(r));
      ElemsFacts(Visit(Append(r, Append(b, k))), d);
      ElemsFacts(Roots(r), d);
      VisitLevel(r, Append(b, k));
  }

  lemma VisitRootLevel<D>(f: Forest<D>)
    requires Len(f) + Len(AllKids(f)) <= MAX_QUEUE_SIZE
    ensures Elems(Visit(f)) == Elems(Roots(f)) + Elems(Visit(AllKids(f)))
  {
    AppendNil(f);
    VisitLevel(f, Nil);
  }

  lemma {:induction false} RootsVisited<D>(q: Forest<D>)
    requires Len(q) <= MAX_QUEUE_SIZE
    ensures Elems(Roots(q)) <= Elems(Visit(q))
    decreases Size(q)
  {
    match q
    case Nil =>
    case Cons(d, k, r) =>
      PushAllTakes(r, k);
      AppendRoots(r, Take(k, MAX_QUEUE_SIZE - Len(r)));
      ElemsJoin(Roots(r), Roots(Take(k, MAX_QUEUE_SIZE - Len(r))));
      RootsVisited(PushAll(r, k));
      ElemsFacts(Roots(r), d);
      ElemsFacts(Visit(PushAll(r, k)), d);
  }

  lemma {:induction false} LevelDown<D>(f: Forest<D>, n: D)
    requires Distinct(f) && n in Nodes(f)
    ensures Level(f, n) == 0 ==> n in Roots(f)
    ensures Level(f, n) > 0 ==> n in Nodes(AllKids(f)) && Level(AllKids(f), n) == Level(f, n) - 1
  {
    var Cons(d, k, r) := f;
    AllKidsNodes(f);
    AppendNodes(k, AllKids(r));
    AppendAt(k, AllKids(r), n, None);
    if d != n && n !in Nodes(k) {
      LevelDown(r, n);
    }
  }

  /** The nodes of the levels that are narrow are all visited. */
  lemma {:induction false} ShallowVisited<D>(f: Forest<D>, l: nat, n: D)
    requires Distinct(f) && Narrow(f, l) && n in Nodes(f) && Level(f, n) <= l
    ensures n in Elems(Visit(f))
    decreases l
  {
    hide Visit, Nodes, Distinct, Len, AllKids, Roots, Level;
    LevelDown(f, n);
    if Level(f, n) == 0 {
      RootsVisited(f);
    } else {
      AllKidsNodes(f);
      VisitRootLevel(f);
      ShallowVisited(AllKids(f), l - 1, n);
    }
  }

  /** What is not visited when the queue holds the trees of level `l`, is not visited at all. */
  lemma {:induction false} DeepMissed<D>(f: Forest<D>, l: nat, n: D)
    requires Distinct(f) && Narrow(f, l) && n in Nodes(LevelAt(f, l)) && n !in Elems(Visit(LevelAt(f, l)))
    ensures n in Nodes(f) && n !in Elems(Visit(f))
    decreases l
  {
    hide Visit, Nodes, Distinct, Len, AllKids, Roots, Elems;
    if l > 0 {
      AllKidsNodes(f);
      VisitRootLevel(f);
      DeepMissed(AllKids(f), l - 1, n);
    }
  }

  lemma {:induction false} ThinnerAllKids<D>(a: Forest<D>, b: Forest<D>)
    requires Thinner(a, b)
    ensures Thinner(AllKids(a), AllKids(b))
  {
    match b
    case Nil =>
    case Cons(d, k, r) =>
      if a.Nil? {
        NilThinner(AllKids(b));
      } else if Thinner(a, r) {
        ThinnerAllKids(a, r);
        NilThinner(k);
        ThinnerAppend(Nil, k, AllKids(a), AllKids(r));
      } else {
        ThinnerAllKids(a.rest, r);
        ThinnerAppend(a.kids, k, AllKids(a.rest), AllKids(r));
      }
  }

  lemma {:induction false} ThinnerNarrow<D>(a: Forest<D>, b: Forest<D>, l: nat)
    requires Thinner(a, b) && Narrow(b, l)
    ensures Narrow(a, l)
    decreases l
  {
    ThinnerSize(a, b);
    if l > 0 {
      ThinnerAllKids(a, b);
      ThinnerSize(AllKids(a), AllKids(b));
      ThinnerNarrow(AllKids(a), AllKids(b), l - 1);
    }
  }

  lemma {:induction false} SmallNarrow<D>(f: Forest<D>, l: nat)
    requires Size(f) <= MAX_QUEUE_SIZE
    ensures Narrow(f, l)
    decreases l
  {
    AllKidsSize(f);
    AllKidsSize(AllKids(f));
    if l > 0 {
      SmallNarrow(AllKids(f), l - 1);
    }
  }

  /** `w` doubled `l` times. */
  function Doubled(w: nat, l: nat): nat
    decreases l
  {
    if l == 0 then w else Doubled(2 * w, l - 1)
  }

  lemma {:induction false} DoubledGrows(w: nat, l: nat)
    ensures w <= Doubled(w, l)
    decreases l
  {
    if l > 0 {
      DoubledGrows(2 * w, l - 1);
    }
  }

  lemma {:induction false} BinaryWidth<D>(f: Forest<D>)
    requires Bounded(f, 2)
    ensures Len(AllKids(f)) <= 2 * Len(f) && Bounded(AllKids(f), 2)
  {
    if f.Cons? {
      BinaryWidth(f.rest);
      AppendSizes(f.kids, AllKids(f.rest));
      AppendBounded(f.kids, AllKids(f.rest), 2);
    }
  }

  /** Binary trees beside a few more nodes are narrow down to the level that may have 512 nodes. */
  lemma {:induction false} BinaryNarrow<D>(a: Forest<D>, b: Forest<D>, w: nat, l: nat)
    requires Bounded(a, 2) && Len(a) <= w && Doubled(w, l) <= 512 && Size(b) <= 100
    ensures Narrow(Append(a, b), l)
    decreases l
  {
    DoubledGrows(w, l);
    AppendSizes(a, b);
    AllKidsSize(b);
    if l > 0 {
      DoubledGrows(2 * w, l - 1);
      BinaryWidth(a);
      AllKidsSize(AllKids(b));
      AllKidsAppend(a, b);
      AppendSizes(AllKids(a), AllKids(b));
      BinaryNarrow(AllKids(a), AllKids(b), 2 * w, l - 1);
    }
  }

  // ----- A level too wide -----

  /** Every tree has `h` levels, and every node above the last of them has two children. */
  ghost predicate Complete<D>(f: Forest<D>, h: nat) {
    match f
    case Nil => true
    case Cons(_, k, r) => h > 0 && Len(k) == (if h == 1 then 0 else 2) && Complete(k, h - 1) && Complete(r, h)
  }

  lemma CompleteAppend<D>(a: Forest<D>, b: Forest<D>, h: nat)
    requires Complete(a, h) && Complete(b, h)
    ensures Complete(Append(a, b), h)
  {
  }

  lemma {:induction false} CompleteDown<D>(f: Forest<D>, h: nat)
    requires Complete(f, h) && h > 1
    ensures Complete(AllKids(f), h - 1) && Len(AllKids(f)) == 2 * Len(f)
  {
    if f.Cons? {
      CompleteDown(f.rest, h);
      AppendSizes(f.kids, AllKids(f.rest));
      CompleteAppend(f.kids, AllKids(f.rest), h - 1);
    }
  }

  lemma {:induction false} CompleteAt<D>(f: Forest<D>, h: nat, l: nat)
    requires Complete(f, h) && l < h
    ensures Complete(LevelAt(f, l), h - l) && Len(LevelAt(f, l)) == Doubled(Len(f), l)
    decreases l
  {
    if l > 0 {
      CompleteDown(f, h);
      CompleteAt(AllKids(f), h - 1, l - 1);
    }
  }

  /** A node with two children, the second of which is `p`. */
  function Fork<D>(q: D, z: D, p: D, kp: Forest<D>): Forest<D> {
    Cons(q, Cons(z, Nil, Cons(p, kp, Nil)), Nil)
  }

  /** With a level of nodes that have two children each, half of the queue or more, waiting before some of
      the next level, the last child of the last of them finds the queue full. */
  lemma {:induction false} LastIsDropped<D>(a: Forest<D>, q: D, z: D, p: D, kp: Forest<D>, b: Forest<D>)
    requires Complete(a, 2) && Distinct(Append(Append(a, Fork(q, z, p, kp)), b))
    requires Len(a) + 1 + Len(b) <= MAX_QUEUE_SIZE < 2 * (Len(a) + 1) + Len(b)
    ensures p !in Elems(Visit(Append(Append(a, Fork(q, z, p, kp)), b)))
    decreases a
  {
    var last := Fork(q, z, p, kp);
    AppendNodes(Append(a, last), b);
    AppendNodes(a, last);
    match a
    case Nil =>
      var k := Cons(z, Nil, Cons(p, kp, Nil));
      PushAllTakes(b, k);
      assert Take(k, 1) == Leaf(z);
      AppendNodes(b, Leaf(z));
      VisitSound(PushAll(b, k));
      ElemsFacts(Visit(PushAll(b, k)), q);
    case Cons(d, k, r) =>
      var rest := Append(Append(r, last), b);
      AppendSizes(Append(r, last), b);
      AppendSizes(r, last);
      var t := Take(k, MAX_QUEUE_SIZE - Len(rest));
      PushAllTakes(rest, k);
      AppendAssoc(Append(r, last), b, t);
      LessDistinct(d, r, last, b, k, MAX_QUEUE_SIZE - Len(rest));
      TakeDrop(k, MAX_QUEUE_SIZE - Len(rest));
      AppendSizes(b, t);
      LastIsDropped(r, q, z, p, kp, Append(b, t));
      ElemsFacts(Visit(PushAll(rest, k)), d);
  }

  lemma LessDistinct<D>(d: D, r: Forest<D>, last: Forest<D>, b: Forest<D>, k: Forest<D>, n: nat)
    requires Distinct(Append(Append(Cons(d, k, r), last), b))
    ensures Distinct(Append(Append(r, last), Append(b, Take(k, n))))
  {
    TakeFacts(k, n);
    AppendNodes(Append(Cons(d, k, r), last), b);
    AppendNodes(Cons(d, k, r), last);
    AppendNodes(r, last);
    AppendNodes(b, Take(k, n));
    AppendNodes(Append(r, last), Append(b, Take(k, n)));
  }

  /** Some node without children is visited: of every node visited the first child is, too. */
  lemma {:induction false} VisitedLeaf<D>(q: Forest<D>, f: Forest<D>) returns (v: D)
    requires Within(q, f) && q.Cons? && Len(q) <= MAX_QUEUE_SIZE
    ensures v in Nodes(f) && KidsOf(f, v).Nil? && v in Elems(Visit(q))
    decreases Size(q)
  {
    hide Visit, KidsOf, Nodes, Elems;
    var Cons(d, k, r) := q;
    VisitFirst(q);
    ElemsFacts(Visit(PushAll(r, k)), d);
    v := d;
    if k.Cons? {
      var n := MAX_QUEUE_SIZE - Len(r);
      PushAllTakes(r, k);
      WithinTake(k, n, f);
      WithinAppend(r, Take(k, n), f);
      PushAllSizes(r, k);
      v := VisitedLeaf(PushAll(r, k), f);
    }
  }

  lemma PushAllSizes<D>(r: Forest<D>, k: Forest<D>)
    requires k.Cons? && Len(r) < MAX_QUEUE_SIZE
    ensures PushAll(r, k).Cons? && Size(PushAll(r, k)) <= Size(r) + Size(k) && Len(PushAll(r, k)) <= MAX_QUEUE_SIZE
  {
    var n := MAX_QUEUE_SIZE - Len(r);
    PushAllTakes(r, k);
    TakeDrop(k, n);
    AppendSizes(r, Take(k, n));
  }

  // ----- Below a single root -----

  lemma VisitFirst<D>(q: Forest<D>)
    requires q.Cons?
    ensures Visit(q) == [q.node] + Visit(PushAll(q.rest, q.kids)) && q.node in Elems(Visit(q))
  {
    ElemsFacts(Visit(PushAll(q.rest, q.kids)), q.node);
  }

  /** Below a single root only the first children that fit the queue are ever visited. */
  lemma RootWindow<D>(root: D, k: Forest<D>)
    ensures Elems(Visit(Cons(root, k, Nil))) <= {root} + Nodes(Take(k, MAX_QUEUE_SIZE))
  {
    hide Visit, Elems, PushAll;
    PushAllTakes(Nil, k);
    TakeDrop(k, MAX_QUEUE_SIZE);
    VisitFirst(Cons(root, k, Nil));
    VisitSound(Take(k, MAX_QUEUE_SIZE));
    ElemsFacts(Visit(PushAll(Nil, k)), root);
  }

  lemma {:induction false} PushAllKeepsHead<D>(q: Forest<D>, ts: Forest<D>)
    requires q.Cons?
    ensures PushAll(q, ts).Cons? && PushAll(q, ts).node == q.node
    decreases ts
  {
    if ts.Cons? {
      PushAllKeepsHead(Push(q, ts.node, ts.kids), ts.rest);
    }
  }

  lemma FirstChildVisited<D>(root: D, k: Forest<D>)
    requires k.Cons?
    ensures k.node in Elems(Visit(Cons(root, k, Nil)))
  {
    hide Visit, Elems;
    var first := PushAll(Nil, k);
    assert first == PushAll(Cons(k.node, k.kids, Nil), k.rest);
    PushAllKeepsHead(Cons(k.node, k.kids, Nil), k.rest);
    VisitFirst(first);
    VisitFirst(Cons(root, k, Nil));
    ElemsFacts(Visit(first), root);
  }

  lemma TakeBefore<D>(a: Forest<D>, b: Forest<D>)
    ensures Take(Append(a, b), Len(a)) == a
  {
  }
}
