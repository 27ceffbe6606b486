/** The part of a forest made of its first nodes in depth-first order: what has been rebuilt after that
    many records of a saved tree have been replayed. */
module Pruning {
  import opened Forests
  import opened Surgery
  import opened LevelOrder
  import opened IdentityTree

  /** The first `m` nodes of `f` in depth-first order, with their parents and order. */
  ghost function Prune<D>(f: Forest<D>, m: nat): Forest<D> {
    match f
    case Nil => Nil
    case Cons(d, k, r) =>
      if m == 0 then Nil else Cons(d, Prune(k, m - 1), Prune(r, if m - 1 > Size(k) then m - 1 - Size(k) else 0))
  }

  lemma PreorderAt<D>(d: D, k: Forest<D>, r: Forest<D>, i: nat)
    requires i < 1 + Size(k) + Size(r)
    ensures |Preorder(Cons(d, k, r))| == 1 + Size(k) + Size(r)
    ensures |Preorder(k)| == Size(k) && |Preorder(r)| == Size(r)
    ensures Preorder(Cons(d, k, r))[i] ==
            if i == 0 then d else if i <= Size(k) then Preorder(k)[i - 1] else Preorder(r)[i - 1 - Size(k)]
  {
    OrdersHoldNodes(k);
    OrdersHoldNodes(r);
  }

  lemma PruneAll<D>(f: Forest<D>, m: nat)
    requires m >= Size(f)
    ensures Prune(f, m) == f
  {
  }

  lemma PruneNone<D>(f: Forest<D>)
    ensures Prune(f, 0) == Nil
  {
  }

  lemma PruneSize<D>(f: Forest<D>, m: nat)
    ensures Size(Prune(f, m)) == if m < Size(f) then m else Size(f)
  {
  }

  lemma TakePreorder<D>(d: D, k: seq<D>, r: seq<D>, m: nat)
    requires 0 < m <= 1 + |k| + |r|
    ensures var a := if m - 1 <= |k| then m - 1 else |k|;
            Elems(([d] + k + r)[..m]) == {d} + Elems(k[..a]) + Elems(r[..m - 1 - a])
  {
    var a := if m - 1 <= |k| then m - 1 else |k|;
    assert ([d] + k + r)[..m] == [d] + k[..a] + r[..m - 1 - a];
    ElemsJoin([d], k[..a]);
    ElemsJoin([d] + k[..a], r[..m - 1 - a]);
    assert Elems([d]) == {d};
  }

  lemma {:induction false} PruneNodes<D>(f: Forest<D>, m: nat)
    requires m <= Size(f)
    ensures |Preorder(f)| == Size(f) && Nodes(Prune(f, m)) == Elems(Preorder(f)[..m])
  {
    hide Elems, Preorder;
    OrdersHoldNodes(f);
    if f.Cons? && m > 0 {
      var Cons(d, k, r) := f;
      OrdersHoldNodes(k);
      OrdersHoldNodes(r);
      var a := if m - 1 <= Size(k) then m - 1 else Size(k);
      PruneNodes(k, a);
      PruneNodes(r, m - 1 - a);
      PruneAll(k, Size(k));
      PruneAll(k, if m - 1 > Size(k) then m - 1 else Size(k));
      TakePreorder(d, Preorder(k), Preorder(r), m);
      PreorderCons(f);
    } else {
      NoElems(Preorder(f));
    }
  }

  lemma PreorderCons<D>(f: Forest<D>)
    requires f.Cons?
    ensures Preorder(f) == [f.node] + Preorder(f.kids) + Preorder(f.rest)
  {
  }

  lemma NoElems<D>(s: seq<D>)
    ensures Elems(s[..0]) == {}
  {
  }

  lemma PruneDistinct<D>(f: Forest<D>, m: nat)
    ensures Nodes(Prune(f, m)) <= Nodes(f)
    ensures Distinct(f) ==> Distinct(Prune(f, m))
    ensures Len(Prune(f, m)) <= Len(f)
  {
  }

  lemma PruneBounded<D>(f: Forest<D>, m: nat, cap: nat)
    requires Bounded(f, cap)
    ensures Bounded(Prune(f, m), cap)
  {
    if f.Cons? && m > 0 {
      PruneDistinct(f.kids, m - 1);
    }
  }

  /** A node that is already there when its descendants are pruned keeps what is left of them. */
  lemma PruneKids<D>(f: Forest<D>, m: nat, n: D, cap: nat)
    requires Distinct(f) && Bounded(f, cap) && n in Nodes(Prune(f, m))
    ensures Len(KidsOf(Prune(f, m), n)) <= cap
  {
    PruneBounded(f, m, cap);
    PruneDistinct(f, m);
    KidsFacts(Prune(f, m), n);
  }

  ghost function AddBelow<D>(f: Forest<D>, p: Option<D>, x: D): Forest<D> {
    match p
    case None => Append(f, Leaf(x))
    case Some(q) => AddChild(f, q, x)
  }

  /** `x` is the node after the first `i`: adding it below its parent, which is there already, gives the
      first `i + 1`. */
  ghost predicate Grows<D>(f: Forest<D>, i: nat, x: D) {
    var p := ParentOf(f, x, None);
    && Prune(f, i + 1) == AddBelow(Prune(f, i), p, x)
    && x in Nodes(f) && x !in Nodes(Prune(f, i)) && (p.Some? ==> p.value in Nodes(Prune(f, i)))
  }

  lemma {:induction false} PruneStep<D>(f: Forest<D>, i: nat)
    requires Distinct(f) && i < Size(f)
    ensures |Preorder(f)| == Size(f) && Grows(f, i, Preorder(f)[i])
  {
    hide Preorder, Grows, Prune;
    var Cons(d, k, r) := f;
    PreorderAt(d, k, r, i);
    OrdersHoldNodes(k);
    OrdersHoldNodes(r);
    if i == 0 {
      GrowsFirst(f);
    } else if i <= Size(k) {
      PruneStep(k, i - 1);
      GrowsInKids(f, i, Preorder(f)[i]);
    } else {
      PruneStep(r, i - 1 - Size(k));
      GrowsInRest(f, i, Preorder(f)[i]);
    }
  }

  lemma GrowsFirst<D>(f: Forest<D>)
    requires Distinct(f) && f.Cons?
    ensures Grows(f, 0, f.node)
  {
    PruneNone(f.kids);
    PruneNone(f.rest);
  }

  lemma GrowsInKids<D>(f: Forest<D>, i: nat, x: D)
    requires Distinct(f) && f.Cons? && 0 < i <= Size(f.kids) && Grows(f.kids, i - 1, x)
    ensures Grows(f, i, x)
  {
    var d, k := f.node, f.kids;
    PruneNone(f.rest);
    PruneDistinct(k, i - 1);
    TopToSome(k, x, d);
    var a := Prune(k, i - 1);
    assert Prune(f, i) == Cons(d, a, Nil) && Prune(f, i + 1) == Cons(d, Prune(k, i), Nil);
    match ParentOf(k, x, None)
    case None => AddInTree(d, a, d, x);
    case Some(v) => AddInTree(d, a, v, x);
  }

  lemma GrowsInRest<D>(f: Forest<D>, i: nat, x: D)
    requires Distinct(f) && f.Cons? && Size(f.kids) < i && Grows(f.rest, i - 1 - Size(f.kids), x)
    ensures Grows(f, i, x)
  {
    hide SetKids, AddChild, KidsOf, Prune, ParentOf, Distinct, Size;
    var Cons(d, k, r) := f;
    var j := i - 1 - Size(k);
    PrunePast(f, i);
    PrunePast(f, i + 1);
    PruneDistinct(r, j);
    InRest(f, x);
    match ParentOf(r, x, None)
    case None =>
    case Some(v) =>
      InRest(f, v);
      AddAfterTree(d, k, Prune(r, j), v, x);
  }

  lemma PrunePast<D>(f: Forest<D>, i: nat)
    requires f.Cons? && Size(f.kids) < i
    ensures Prune(f, i) == Cons(f.node, f.kids, Prune(f.rest, i - 1 - Size(f.kids)))
  {
    PruneAll(f.kids, i - 1);
    if i - 1 == Size(f.kids) {
      PruneNone(f.rest);
    }
  }

  lemma InRest<D>(f: Forest<D>, x: D)
    requires Distinct(f) && f.Cons? && x in Nodes(f.rest)
    ensures x in Nodes(f) && x != f.node && x !in Nodes(f.kids) && ParentOf(f, x, None) == ParentOf(f.rest, x, None)
  {
  }

  lemma AddAfterTree<D>(d: D, k: Forest<D>, r: Forest<D>, v: D, x: D)
    requires v != d && v !in Nodes(k)
    ensures AddChild(Cons(d, k, r), v, x) == Cons(d, k, AddChild(r, v, x))
  {
    SetKidsAbsent(k, v, Append(KidsOf(r, v), Leaf(x)));
  }

  lemma AddInTree<D>(d: D, a: Forest<D>, v: D, x: D)
    requires d !in Nodes(a)
    ensures v == d ==> AddChild(Cons(d, a, Nil), v, x) == Cons(d, Append(a, Leaf(x)), Nil)
    ensures v in Nodes(a) ==> AddChild(Cons(d, a, Nil), v, x) == Cons(d, AddChild(a, v, x), Nil)
  {
    var f := Cons(d, a, Nil);
    var g := Append(KidsOf(f, v), Leaf(x));
    assert SetKids(Nil, v, g) == Nil;
    assert SetKids(f, v, g) == Cons(d, if d == v then g else SetKids(a, v, g), Nil);
  }

  lemma TopToSome<D>(f: Forest<D>, n: D, d: D)
    requires Distinct(f) && n in Nodes(f)
    ensures ParentOf(f, n, Some(d)) == match ParentOf(f, n, None) case None => Some(d) case Some(q) => Some(q)
  {
    match f
    case Cons(m, k, r) =>
      if m != n && n in Nodes(k) {
        ParentInside(k, n, Some(m));
      } else if m != n {
        TopToSome(r, n, d);
      }
  }

  lemma {:induction false} OnlyFirstIsTop<R>(f: Forest<R>, i: nat)
    requires Distinct(f) && Len(f) <= 1 && i < Size(f)
    ensures |Preorder(f)| == Size(f) && (ParentOf(f, Preorder(f)[i], None).None? <==> i == 0)
  {
    hide Preorder;
    var Cons(d, k, r) := f;
    assert r.Nil? && Size(r) == 0;
    PreorderAt(d, k, r, i);
    OrdersHoldNodes(k);
    if i > 0 {
      var n := Preorder(k)[i - 1];
      OrdersElems(k);
      assert n in Elems(Preorder(k));
      ParentInside(k, n, Some(d));
    }
  }

  // ----- Pruning never raises the peak of the waiting list -----

  /** `a` is `b` with whole subtrees left out. */
  ghost predicate Thinner<D>(a: Forest<D>, b: Forest<D>) {
    match b
    case Nil => a.Nil?
    case Cons(d, k, r) =>
      a.Nil? || (a.node == d && Thinner(a.kids, k) && Thinner(a.rest, r)) || Thinner(a, r)
  }

  lemma ThinnerSize<D>(a: Forest<D>, b: Forest<D>)
    requires Thinner(a, b)
    ensures Len(a) <= Len(b)
  {
  }

  lemma ThinnerAppend<D>(a: Forest<D>, b: Forest<D>, c: Forest<D>, e: Forest<D>)
    requires Thinner(a, b) && Thinner(c, e)
    ensures Thinner(Append(a, c), Append(b, e))
  {
    match b
    case Nil =>
    case Cons(d, k, r) =>
      if a.Nil? {
        ThinnerAppend(Nil, r, c, e);
      } else if Thinner(a, r) {
        ThinnerAppend(a, r, c, e);
      } else {
        ThinnerAppend(a.rest, r, c, e);
      }
  }

  lemma NilThinner<D>(b: Forest<D>)
    ensures Thinner(Nil, b)
  {
  }

  lemma {:induction false} ThinnerPeak<D>(a: Forest<D>, b: Forest<D>)
    requires Thinner(a, b)
    ensures Peak(a) <= Peak(b)
    decreases Size(b)
  {
    match b
    case Nil =>
    case Cons(d, k, r) =>
      AppendFacts(r, k);
      if a.Nil? {
      } else if Thinner(a, r) {
        NilThinner(k);
        AppendNil(a);
        ThinnerAppend(a, r, Nil, k);
        ThinnerPeak(a, Append(r, k));
      } else {
        ThinnerSize(a.kids, k);
        ThinnerSize(a.rest, r);
        ThinnerAppend(a.rest, r, a.kids, k);
        ThinnerPeak(Append(a.rest, a.kids), Append(r, k));
      }
  }

  lemma PruneThinner<D>(f: Forest<D>, m: nat)
    ensures Thinner(Prune(f, m), f)
  {
    if f.Cons? && m > 0 {
      PruneThinner(f.kids, m - 1);
      PruneThinner(f.rest, if m - 1 > Size(f.kids) then m - 1 - Size(f.kids) else 0);
    }
  }
}
