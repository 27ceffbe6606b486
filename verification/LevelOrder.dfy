/** Level-order traversal through a queue of bounded capacity: what the loops of lookup and of
    breadth-first traversal visit, and exactly when the bound makes them miss a node. */
module LevelOrder {
  import opened Forests

  /** The number of slots of the ring buffer. */
  const MAX_QUEUE_SIZE: nat := 1000

  /** A push that finds the queue full is dropped. */
  function Push<D>(q: Forest<D>, d: D, k: Forest<D>): Forest<D> {
    if Len(q) < MAX_QUEUE_SIZE then Append(q, Cons(d, k, Nil)) else q
  }

  function PushAll<D>(q: Forest<D>, ts: Forest<D>): (r: Forest<D>)
    ensures Size(r) <= Size(q) + Size(ts)
    decreases ts
  {
    match ts
    case Nil => q
    case Cons(d, k, rest) =>
      AppendFacts(q, Cons(d, k, Nil));
      PushAll(Push(q, d, k), rest)
  }

  /** The nodes visited when the queue holds the trees `q`, in order. */
  function Visit<D>(q: Forest<D>): seq<D>
    decreases Size(q)
  {
    match q
    case Nil => []
    case Cons(d, k, r) => [d] + Visit(PushAll(r, k))
  }

  /** The greatest number of trees waiting at once when no push is ever dropped. */
  function Peak<D>(q: Forest<D>): nat
    decreases Size(q)
  {
    match q
    case Nil => 0
    case Cons(_, k, r) =>
      AppendFacts(r, k);
      var now, later := Len(r) + Len(k), Peak(Append(r, k));
      if now > later then now else later
  }

  // ----- What the queue holds -----

  /** Pushing a list keeps the prefix of it that fits. */
  lemma {:induction false} PushAllTakes<D>(q: Forest<D>, ts: Forest<D>)
    requires Len(q) <= MAX_QUEUE_SIZE
    ensures PushAll(q, ts) == Append(q, Take(ts, MAX_QUEUE_SIZE - Len(q)))
    ensures Len(PushAll(q, ts)) <= MAX_QUEUE_SIZE
    ensures Len(q) + Len(ts) <= MAX_QUEUE_SIZE ==> PushAll(q, ts) == Append(q, ts)
    decreases ts
  {
    AppendNil(q);
    match ts
    case Nil =>
    case Cons(d, k, rest) =>
      AppendFacts(q, Cons(d, k, Nil));
      PushAllTakes(Push(q, d, k), rest);
      if Len(q) < MAX_QUEUE_SIZE {
        AppendAssoc(q, Cons(d, k, Nil), Take(rest, MAX_QUEUE_SIZE - Len(q) - 1));
        AppendAssoc(q, Cons(d, k, Nil), rest);
      }
  }

  /** A visit is of the node that waits longest; behind the others then wait as many of its children, the first
      ones, as 1000 places leave room for. */
  lemma VisitStep<D>(q: Forest<D>, room: nat)
    requires q.Cons? && Len(q.rest) + room == 1000
    ensures Visit(q) == [q.node] + Visit(Append(q.rest, Take(q.kids, room)))
  {
    hide Len, Take, Append, PushAll;
    PushAllTakes(q.rest, q.kids);
  }

  lemma TakeFacts<D>(f: Forest<D>, n: nat)
    ensures Nodes(Take(f, n)) <= Nodes(f) && Nodes(Drop(f, n)) <= Nodes(f)
    ensures Size(Take(f, n)) + Size(Drop(f, n)) == Size(f)
    ensures n < Len(f) ==> Size(Take(f, n)) < Size(f)
    ensures Distinct(f) ==> Distinct(Take(f, n)) && Distinct(Drop(f, n)) && Nodes(Take(f, n)) !! Nodes(Drop(f, n))
  {
    TakeDrop(f, n);
    AppendFacts(Take(f, n), Drop(f, n));
    if n < Len(f) {
      assert Drop(f, n).Cons?;
    }
  }

  lemma TakeBounded<D>(f: Forest<D>, n: nat, cap: nat)
    requires Bounded(f, cap)
    ensures Bounded(Take(f, n), cap) && Bounded(Drop(f, n), cap)
  {
    TakeDrop(f, n);
    AppendBounded(Take(f, n), Drop(f, n), cap);
  }

  lemma PushAllFacts<D>(q: Forest<D>, ts: Forest<D>)
    requires Len(q) <= MAX_QUEUE_SIZE
    ensures Nodes(q) <= Nodes(PushAll(q, ts)) <= Nodes(q) + Nodes(ts)
    ensures Distinct(q) && Distinct(ts) && Nodes(q) !! Nodes(ts) ==> Distinct(PushAll(q, ts))
    ensures Len(PushAll(q, ts)) <= MAX_QUEUE_SIZE
  {
    var n := MAX_QUEUE_SIZE - Len(q);
    PushAllTakes(q, ts);
    TakeFacts(ts, n);
    AppendFacts(q, Take(ts, n));
  }

  // ----- Soundness: only nodes of the queue, each at most once -----

  lemma {:induction false} VisitSound<D>(q: Forest<D>)
    requires Len(q) <= MAX_QUEUE_SIZE
    ensures Elems(Visit(q)) <= Nodes(q)
    ensures |Visit(q)| <= Size(q)
    decreases Size(q)
  {
    match q
    case Nil =>
    case Cons(d, k, r) =>
      PushAllFacts(r, k);
      ElemsFacts(Visit(PushAll(r, k)), d);
      VisitSound(PushAll(r, k));
  }

  lemma {:induction false} VisitNoRepeats<D>(q: Forest<D>)
    requires Distinct(q) && Len(q) <= MAX_QUEUE_SIZE
    ensures NoRepeats(Visit(q))
    decreases Size(q)
  {
    match q
    case Nil =>
    case Cons(d, k, r) =>
      PushAllFacts(r, k);
      VisitSound(PushAll(r, k));
      VisitNoRepeats(PushAll(r, k));
      assert d !in Elems(Visit(PushAll(r, k)));
  }

  // ----- Completeness: exactly when the peak fits -----

  /** The number of visits is the number of nodes if and only if the peak fits. */
  lemma {:induction false} CountIffPeakFits<D>(q: Forest<D>)
    requires Len(q) <= MAX_QUEUE_SIZE
    ensures |Visit(q)| == Size(q) <==> Peak(q) <= MAX_QUEUE_SIZE
    decreases Size(q)
  {
    match q
    case Nil =>
    case Cons(d, k, r) =>
      PushAllTakes(r, k);
      if Len(r) + Len(k) <= MAX_QUEUE_SIZE {
        AppendFacts(r, k);
        CountIffPeakFits(Append(r, k));
      } else {
        var n := MAX_QUEUE_SIZE - Len(r);
        TakeFacts(k, n);
        AppendFacts(r, Take(k, n));
        VisitSound(PushAll(r, k));
      }
  }

  lemma {:induction false} VisitComplete<D>(q: Forest<D>)
    requires Len(q) <= MAX_QUEUE_SIZE && Peak(q) <= MAX_QUEUE_SIZE
    ensures Elems(Visit(q)) == Nodes(q)
    decreases Size(q)
  {
    match q
    case Nil =>
    case Cons(d, k, r) =>
      PushAllTakes(r, k);
      AppendFacts(r, k);
      VisitComplete(Append(r, k));
      ElemsFacts(Visit(Append(r, k)), d);
  }

  /** Every node is visited if and only if the waiting list never outgrows the buffer. */
  lemma {:induction false} VisitsAllIffPeakFits<D>(q: Forest<D>)
    requires Distinct(q) && Len(q) <= MAX_QUEUE_SIZE
    ensures Elems(Visit(q)) == Nodes(q) <==> Peak(q) <= MAX_QUEUE_SIZE
  {
    CountIffPeakFits(q);
    if Peak(q) > MAX_QUEUE_SIZE {
      VisitSound(q);
      SmallElems(q, Visit(q));
    } else {
      VisitComplete(q);
    }
  }

  lemma {:induction false} SmallElems<D>(q: Forest<D>, s: seq<D>)
    requires Distinct(q) && |s| < Size(q)
    ensures Elems(s) != Nodes(q)
  {
    NodeCount(q);
    ElemsFacts(s, q.node);
  }

  /** A tree of at most one node more than the buffer has slots never overflows it. */
  lemma {:induction false} SmallPeakFits<D>(q: Forest<D>)
    requires Size(q) <= MAX_QUEUE_SIZE + 1
    ensures Peak(q) <= MAX_QUEUE_SIZE
    decreases Size(q)
  {
    match q
    case Nil =>
    case Cons(d, k, r) =>
      AppendFacts(r, k);
      OrdersHoldNodes(Append(r, k));
      SmallPeakFits(Append(r, k));
  }

  // ----- Order: parents first, levels never decrease -----

  /** Every node of `q` has in `f` the children it has in `q`. */
  ghost predicate Within<D>(q: Forest<D>, f: Forest<D>) {
    match q
    case Nil => true
    case Cons(n, k, r) => n in Nodes(f) && KidsOf(f, n) == k && Within(k, f) && Within(r, f)
  }

  lemma WithinWider<D>(q: Forest<D>, g: Forest<D>, f: Forest<D>)
    requires Within(q, g)
    requires forall m :: m in Nodes(g) ==> m in Nodes(f) && KidsOf(f, m) == KidsOf(g, m)
    ensures Within(q, f)
  {
  }

  lemma {:induction false} WithinSelf<D>(f: Forest<D>)
    requires Distinct(f)
    ensures Within(f, f)
  {
    match f
    case Nil =>
    case Cons(d, k, r) =>
      WithinSelf(k);
      WithinSelf(r);
      WithinWider(k, k, f);
      WithinWider(r, r, f);
  }

  lemma WithinAppend<D>(a: Forest<D>, b: Forest<D>, f: Forest<D>)
    ensures Within(Append(a, b), f) <==> Within(a, f) && Within(b, f)
  {
  }

  lemma WithinTake<D>(q: Forest<D>, n: nat, f: Forest<D>)
    requires Within(q, f)
    ensures Within(Take(q, n), f)
  {
  }

  ghost predicate AllAt<D>(q: Forest<D>, f: Forest<D>, l: nat) {
    forall n :: n in Roots(q) ==> Level(f, n) == l
  }

  /** Levels along `s` start at `l` or deeper and never decrease. */
  ghost predicate Descends<D>(s: seq<D>, f: Forest<D>, l: nat) {
    && (forall i :: 0 <= i < |s| ==> l <= Level(f, s[i]))
    && (forall i, j :: 0 <= i < j < |s| ==> Level(f, s[i]) <= Level(f, s[j]))
  }

  lemma KidsLevel<D>(f: Forest<D>, n: D)
    requires Distinct(f) && n in Nodes(f)
    ensures AllAt(KidsOf(f, n), f, Level(f, n) + 1)
  {
    forall m | m in Roots(KidsOf(f, n)) ensures Level(f, m) == Level(f, n) + 1 {
      OrdersHoldNodes(KidsOf(f, n));
      Below(f, n, m, None);
      KidsFacts(f, n);
      RootLevel(KidsOf(f, n), m);
    }
  }

  lemma RootLevel<D>(f: Forest<D>, m: D)
    requires Distinct(f) && m in Roots(f)
    ensures Level(f, m) == 0
  {
    match f
    case Cons(d, k, r) =>
      OrdersHoldNodes(r);
  }

  lemma TakeRoots<D>(q: Forest<D>, n: nat)
    ensures forall m :: m in Roots(Take(q, n)) ==> m in Roots(q)
  {
  }

  lemma {:induction false} VisitDescends<D>(f: Forest<D>, a: Forest<D>, b: Forest<D>, l: nat)
    requires Distinct(f) && Len(a) + Len(b) <= MAX_QUEUE_SIZE
    requires Within(a, f) && Within(b, f) && AllAt(a, f, l) && AllAt(b, f, l + 1)
    ensures Descends(Visit(Append(a, b)), f, l)
    decreases Size(a) + Size(b), a.Nil?
  {
    hide Level, Nodes, Distinct, Take, Drop, Descends;
    AppendNil(b);
    match a
    case Nil =>
      if b.Cons? {
        VisitDescends(f, b, Nil, l + 1);
      }
      DescendsLower(Visit(b), f, l);
    case Cons(d, k, r) =>
      AppendFacts(r, b);
      var n := MAX_QUEUE_SIZE - Len(Append(r, b));
      PushAllTakes(Append(r, b), k);
      TakeFacts(k, n);
      TakeDrop(k, n);
      TakeRoots(k, n);
      KidsLevel(f, d);
      WithinTake(k, n, f);
      var b' := Append(b, Take(k, n));
      AppendFacts(b, Take(k, n));
      AppendAssoc(r, b, Take(k, n));
      WithinAppend(b, Take(k, n), f);
      assert Level(f, d) == l;
      VisitDescends(f, r, b', l);
      DescendsCons(d, Visit(Append(r, b')), f, l);
  }

  lemma DescendsCons<D>(d: D, s: seq<D>, f: Forest<D>, l: nat)
    requires Descends(s, f, l) && Level(f, d) == l
    ensures Descends([d] + s, f, l)
  {
  }

  lemma DescendsLower<D>(s: seq<D>, f: Forest<D>, l: nat)
    requires s == [] || Descends(s, f, l + 1)
    ensures Descends(s, f, l)
  {
  }

  /** Breadth-first order on a tree of any size visits levels in order. */
  lemma LevelsNeverDecrease<D>(f: Forest<D>)
    requires Distinct(f) && Len(f) <= MAX_QUEUE_SIZE
    ensures Descends(Visit(f), f, 0)
  {
    WithinSelf(f);
    forall n | n in Roots(f) ensures Level(f, n) == 0 {
      RootLevel(f, n);
    }
    AppendNil(f);
    VisitDescends(f, f, Nil, 0);
  }

  /** Each visited node's parent is in `seen` or visited earlier. */
  ghost predicate ParentsFirst<D>(s: seq<D>, f: Forest<D>, seen: set<D>) {
    forall i :: 0 <= i < |s| ==> ParentSeen(f, s[i], seen + Elems(s[..i]))
  }

  ghost predicate ParentSeen<D>(f: Forest<D>, n: D, seen: set<D>) {
    ParentOf(f, n, None).None? || ParentOf(f, n, None).value in seen
  }

  lemma ParentsFirstCons<D>(s: seq<D>, d: D, f: Forest<D>, seen: set<D>)
    requires ParentsFirst(s, f, seen + {d}) && ParentSeen(f, d, seen)
    ensures ParentsFirst([d] + s, f, seen)
  {
    var t := [d] + s;
    forall i | 0 <= i < |t| ensures ParentSeen(f, t[i], seen + Elems(t[..i])) {
      if i > 0 {
        assert t[..i] == [d] + s[..i - 1];
        ElemsFacts(s[..i - 1], d);
        assert seen + Elems(t[..i]) == seen + {d} + Elems(s[..i - 1]);
        assert t[i] == s[i - 1];
      } else {
        assert seen + Elems(t[..0]) == seen;
      }
    }
  }

  lemma {:induction false} KidsParentSeen<D>(f: Forest<D>, d: D, seen: set<D>)
    requires Distinct(f) && d in Nodes(f) && d in seen
    ensures forall n :: n in Roots(KidsOf(f, d)) ==> ParentSeen(f, n, seen)
  {
    forall n | n in Roots(KidsOf(f, d)) ensures ParentSeen(f, n, seen) {
      OrdersHoldNodes(KidsOf(f, d));
      KidsFacts(f, d);
      ParentIffChild(f, d, n, None);
    }
  }

  lemma {:induction false} VisitParentsFirst<D>(f: Forest<D>, q: Forest<D>, seen: set<D>)
    requires Distinct(f) && Within(q, f) && Len(q) <= MAX_QUEUE_SIZE
    requires forall n :: n in Roots(q) ==> ParentSeen(f, n, seen)
    ensures ParentsFirst(Visit(q), f, seen)
    decreases Size(q)
  {
    match q
    case Nil =>
    case Cons(d, k, r) =>
      var m := MAX_QUEUE_SIZE - Len(r);
      PushAllTakes(r, k);
      TakeRoots(k, m);
      WithinTake(k, m, f);
      WithinAppend(r, Take(k, m), f);
      AppendFacts(r, Take(k, m));
      KidsParentSeen(f, d, seen + {d});
      forall n | n in Roots(PushAll(r, k)) ensures ParentSeen(f, n, seen + {d}) {
        assert n in Roots(r) || n in Roots(Take(k, m));
        assert n in Roots(r) ==> n in Roots(q);
      }
      VisitParentsFirst(f, PushAll(r, k), seen + {d});
      ParentsFirstCons(Visit(PushAll(r, k)), d, f, seen);
  }

  lemma ParentsVisitedFirst<D>(f: Forest<D>)
    requires Distinct(f) && Len(f) <= MAX_QUEUE_SIZE
    ensures ParentsFirst(Visit(f), f, {})
  {
    WithinSelf(f);
    forall n | n in Roots(f) ensures ParentOf(f, n, None).None? {
      RootParent(f, n, None);
    }
    VisitParentsFirst(f, f, {});
  }

  lemma RootParent<D>(f: Forest<D>, m: D, top: Option<D>)
    requires Distinct(f) && m in Roots(f)
    ensures ParentOf(f, m, top) == top
  {
    match f
    case Cons(d, k, r) =>
      OrdersHoldNodes(r);
  }

  /** Breadth-first and depth-first traversal visit the same nodes if and only if the peak fits the queue;
      neither visits a node twice, on a tree of any size. */
  lemma TraversalsAgreeIffPeakFits<D>(f: Forest<D>)
    requires Distinct(f) && Len(f) <= MAX_QUEUE_SIZE
    ensures Elems(Visit(f)) == Elems(Preorder(f)) <==> Peak(f) <= MAX_QUEUE_SIZE
    ensures Elems(Visit(f)) <= Elems(Preorder(f)) == Nodes(f)
    ensures NoRepeats(Visit(f)) && NoRepeats(Preorder(f))
  {
    VisitsAllIffPeakFits(f);
    VisitSound(f);
    OrdersElems(f);
    VisitNoRepeats(f);
    PreorderDistinct(f);
  }
}
