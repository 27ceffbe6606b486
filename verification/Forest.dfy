/** Ordered forests in first-child / next-sibling form, the value that the linked nodes of the
    identity tree denotes.  The functions are the vocabulary of every specification in the project;
    the lemmas say how replacing the child list of one node changes each of them. */
module Forests {

  datatype Option<+T> = None | Some(value: T)

  /** `Cons(n, k, r)` is a tree with root `n` and children `k`, followed by the sibling trees `r`. */
  datatype Forest<+D> = Nil | Cons(node: D, kids: Forest<D>, rest: Forest<D>)

  function Leaf<D>(d: D): Forest<D> {
    Cons(d, Nil, Nil)
  }

  /** The number of trees. */
  function Len<D>(f: Forest<D>): nat {
    match f
    case Nil => 0
    case Cons(_, _, r) => 1 + Len(r)
  }

  /** The number of nodes. */
  function Size<D>(f: Forest<D>): nat {
    match f
    case Nil => 0
    case Cons(_, k, r) => 1 + Size(k) + Size(r)
  }

  /** The roots of the trees, in order. */
  function Roots<D>(f: Forest<D>): seq<D> {
    match f
    case Nil => []
    case Cons(d, _, r) => [d] + Roots(r)
  }

  /** Depth-first order, parents first. */
  function Preorder<D>(f: Forest<D>): seq<D> {
    match f
    case Nil => []
    case Cons(d, k, r) => [d] + Preorder(k) + Preorder(r)
  }

  /** Depth-first order, parents last. */
  function Postorder<D>(f: Forest<D>): seq<D> {
    match f
    case Nil => []
    case Cons(d, k, r) => Postorder(k) + [d] + Postorder(r)
  }

  /** The number of levels. */
  function Depth<D>(f: Forest<D>): nat {
    match f
    case Nil => 0
    case Cons(_, k, r) => var a, b := 1 + Depth(k), Depth(r); if a > b then a else b
  }

  ghost function Nodes<D>(f: Forest<D>): set<D> {
    match f
    case Nil => {}
    case Cons(d, k, r) => {d} + Nodes(k) + Nodes(r)
  }

  /** No node occurs twice. */
  ghost predicate Distinct<D>(f: Forest<D>) {
    match f
    case Nil => true
    case Cons(d, k, r) =>
      d !in Nodes(k) && d !in Nodes(r) && Nodes(k) !! Nodes(r) && Distinct(k) && Distinct(r)
  }

  /** Every node has at most `cap` children. */
  predicate Bounded<D>(f: Forest<D>, cap: nat) {
    match f
    case Nil => true
    case Cons(_, k, r) => Len(k) <= cap && Bounded(k, cap) && Bounded(r, cap)
  }

  function Append<D>(a: Forest<D>, b: Forest<D>): Forest<D> {
    match a
    case Nil => b
    case Cons(d, k, r) => Cons(d, k, Append(r, b))
  }

  /** The first `n` trees (all of them when there are fewer). */
  function Take<D>(f: Forest<D>, n: nat): Forest<D> {
    if f.Nil? || n == 0 then Nil else Cons(f.node, f.kids, Take(f.rest, n - 1))
  }

  function Drop<D>(f: Forest<D>, n: nat): Forest<D> {
    if f.Nil? || n == 0 then f else Drop(f.rest, n - 1)
  }

  /** Removes the whole tree rooted at `x` from the top level. */
  ghost function Remove<D>(f: Forest<D>, x: D): Forest<D> {
    match f
    case Nil => Nil
    case Cons(d, k, r) => if d == x then r else Cons(d, k, Remove(r, x))
  }

  ghost function KidsOf<D>(f: Forest<D>, n: D): Forest<D> {
    match f
    case Nil => Nil
    case Cons(d, k, r) => if d == n then k else if n in Nodes(k) then KidsOf(k, n) else KidsOf(r, n)
  }

  /** The parent of `n`; `top` stands for the parent of the top-level nodes. */
  ghost function ParentOf<D>(f: Forest<D>, n: D, top: Option<D>): Option<D> {
    match f
    case Nil => None
    case Cons(d, k, r) =>
      if d == n then top else if n in Nodes(k) then ParentOf(k, n, Some(d)) else ParentOf(r, n, top)
  }

  /** The distance of `n` from the top level. */
  ghost function Level<D>(f: Forest<D>, n: D): nat {
    match f
    case Nil => 0
    case Cons(d, k, r) => if d == n then 0 else if n in Nodes(k) then 1 + Level(k, n) else Level(r, n)
  }

  ghost predicate Ancestor<D>(f: Forest<D>, a: D, n: D) {
    n in Nodes(KidsOf(f, a))
  }

  /** Replaces the children of `p` by `g`. */
  ghost function SetKids<D>(f: Forest<D>, p: D, g: Forest<D>): Forest<D> {
    match f
    case Nil => Nil
    case Cons(d, k, r) => Cons(d, if d == p then g else SetKids(k, p, g), SetKids(r, p, g))
  }

  // ----- Sequences and sets of nodes -----

  lemma OrdersHoldNodes<D>(f: Forest<D>)
    ensures forall n :: n in Preorder(f) <==> n in Nodes(f)
    ensures forall n :: n in Postorder(f) <==> n in Nodes(f)
    ensures forall n :: n in Roots(f) ==> n in Nodes(f)
    ensures |Preorder(f)| == |Postorder(f)| == Size(f) && |Roots(f)| == Len(f) <= Size(f)
  {
  }

  ghost function Elems<D>(s: seq<D>): set<D> {
    set n | n in s
  }

  lemma ElemsFacts<D>(s: seq<D>, d: D)
    ensures |Elems(s)| <= |s|
    ensures Elems([d] + s) == {d} + Elems(s)
  {
    if s != [] {
      ElemsFacts(s[1..], s[0]);
      assert [s[0]] + s[1..] == s;
    }
  }

  lemma ElemsJoin<D>(s: seq<D>, t: seq<D>)
    ensures Elems(s + t) == Elems(s) + Elems(t)
  {
  }

  lemma OrdersElems<D>(f: Forest<D>)
    ensures Elems(Preorder(f)) == Nodes(f) && Elems(Postorder(f)) == Nodes(f)
  {
    match f
    case Nil =>
    case Cons(d, k, r) =>
      ElemsJoin([d], Preorder(k));
      ElemsJoin([d] + Preorder(k), Preorder(r));
      ElemsJoin(Postorder(k), [d]);
      ElemsJoin(Postorder(k) + [d], Postorder(r));
  }

  ghost predicate NoRepeats<D>(s: seq<D>) {
    forall i, j :: 0 <= i < j < |s| ==> s[i] != s[j]
  }

  ghost predicate Disjoint<D>(s: seq<D>, t: seq<D>) {
    forall x :: x in s ==> x !in t
  }

  lemma NoRepeatsJoin<D>(s: seq<D>, t: seq<D>)
    requires NoRepeats(s) && NoRepeats(t) && Disjoint(s, t)
    ensures NoRepeats(s + t)
  {
    forall i, j | 0 <= i < j < |s + t| ensures (s + t)[i] != (s + t)[j] {
      if i < |s| <= j {
        assert s[i] in s && t[j - |s|] in t;
      }
    }
  }

  lemma {:induction false} PreorderDistinct<D>(f: Forest<D>)
    requires Distinct(f)
    ensures NoRepeats(Preorder(f))
  {
    match f
    case Nil =>
    case Cons(d, k, r) =>
      PreorderDistinct(k);
      PreorderDistinct(r);
      OrdersHoldNodes(k);
      OrdersHoldNodes(r);
      assert Disjoint([d], Preorder(k)) && Disjoint([d], Preorder(r));
      assert Disjoint(Preorder(k), Preorder(r));
      NoRepeatsJoin([d], Preorder(k));
      NoRepeatsJoin([d] + Preorder(k), Preorder(r));
  }

  lemma {:induction false} PostorderDistinct<D>(f: Forest<D>)
    requires Distinct(f)
    ensures NoRepeats(Postorder(f))
  {
    match f
    case Nil =>
    case Cons(d, k, r) =>
      PostorderDistinct(k);
      PostorderDistinct(r);
      OrdersHoldNodes(k);
      OrdersHoldNodes(r);
      assert Disjoint(Postorder(k), [d]) && Disjoint([d], Postorder(r));
      assert Disjoint(Postorder(k), Postorder(r));
      NoRepeatsJoin(Postorder(k), [d]);
      NoRepeatsJoin(Postorder(k) + [d], Postorder(r));
  }

  lemma RootsDistinct<D>(f: Forest<D>)
    requires Distinct(f)
    ensures NoRepeats(Roots(f))
  {
    if f.Cons? {
      OrdersHoldNodes(f.rest);
      RootsDistinct(f.rest);
      NoRepeatsJoin([f.node], Roots(f.rest));
    }
  }

  lemma LenZero<D>(f: Forest<D>)
    ensures Len(f) == 0 <==> Size(f) == 0
    ensures Len(f) == 0 <==> f.Nil?
  {
  }

  lemma NodeCount<D>(f: Forest<D>)
    requires Distinct(f)
    ensures |Nodes(f)| == Size(f)
  {
  }

  // ----- Append, Take, Drop -----

  lemma AppendNodes<D>(a: Forest<D>, b: Forest<D>)
    ensures Nodes(Append(a, b)) == Nodes(a) + Nodes(b)
    ensures Distinct(Append(a, b)) <==> Distinct(a) && Distinct(b) && Nodes(a) !! Nodes(b)
  {
  }

  lemma AppendSizes<D>(a: Forest<D>, b: Forest<D>)
    ensures Size(Append(a, b)) == Size(a) + Size(b)
    ensures Len(Append(a, b)) == Len(a) + Len(b)
  {
  }

  lemma AppendRoots<D>(a: Forest<D>, b: Forest<D>)
    ensures Roots(Append(a, b)) == Roots(a) + Roots(b)
  {
  }

  lemma AppendFacts<D>(a: Forest<D>, b: Forest<D>)
    ensures Nodes(Append(a, b)) == Nodes(a) + Nodes(b)
    ensures Distinct(Append(a, b)) <==> Distinct(a) && Distinct(b) && Nodes(a) !! Nodes(b)
    ensures Size(Append(a, b)) == Size(a) + Size(b)
    ensures Len(Append(a, b)) == Len(a) + Len(b)
    ensures Roots(Append(a, b)) == Roots(a) + Roots(b)
  {
    AppendNodes(a, b);
    AppendSizes(a, b);
    AppendRoots(a, b);
  }

  lemma AppendBounded<D>(a: Forest<D>, b: Forest<D>, cap: nat)
    ensures Bounded(Append(a, b), cap) <==> Bounded(a, cap) && Bounded(b, cap)
  {
  }

  lemma AppendAssoc<D>(a: Forest<D>, b: Forest<D>, c: Forest<D>)
    ensures Append(Append(a, b), c) == Append(a, Append(b, c))
  {
  }

  /** Depth-first traversal takes sibling trees one after the other, in order ... */
  lemma {:induction false} PreorderOfSiblings<D>(a: Forest<D>, b: Forest<D>)
    ensures Preorder(Append(a, b)) == Preorder(a) + Preorder(b)
  {
    match a
    case Nil =>
    case Cons(d, k, r) =>
      PreorderOfSiblings(r, b);
      assert [d] + Preorder(k) + (Preorder(r) + Preorder(b)) == Preorder(a) + Preorder(b);
  }

  /** ... with the parents last, too. */
  lemma {:induction false} PostorderOfSiblings<D>(a: Forest<D>, b: Forest<D>)
    ensures Postorder(Append(a, b)) == Postorder(a) + Postorder(b)
  {
    match a
    case Nil =>
    case Cons(d, k, r) =>
      PostorderOfSiblings(r, b);
      assert Postorder(k) + [d] + (Postorder(r) + Postorder(b)) == Postorder(a) + Postorder(b);
  }

  lemma AppendNil<D>(a: Forest<D>)
    ensures Append(a, Nil) == a
  {
  }

  lemma TakeDrop<D>(f: Forest<D>, n: nat)
    ensures Append(Take(f, n), Drop(f, n)) == f
    ensures Len(Take(f, n)) == if n < Len(f) then n else Len(f)
    ensures Len(Drop(f, n)) == if n < Len(f) then Len(f) - n else 0
    ensures n >= Len(f) ==> Take(f, n) == f && Drop(f, n) == Nil
  {
  }

  /** Structure below an appended list is that of the list the node comes from. */
  lemma AppendAt<D>(a: Forest<D>, b: Forest<D>, n: D, top: Option<D>)
    requires Distinct(Append(a, b))
    ensures n in Nodes(a) ==> KidsOf(Append(a, b), n) == KidsOf(a, n) &&
                              ParentOf(Append(a, b), n, top) == ParentOf(a, n, top) &&
                              Level(Append(a, b), n) == Level(a, n)
    ensures n !in Nodes(a) ==> KidsOf(Append(a, b), n) == KidsOf(b, n) &&
                               ParentOf(Append(a, b), n, top) == ParentOf(b, n, top) &&
                               Level(Append(a, b), n) == Level(b, n)
  {
    match a
    case Nil =>
    case Cons(d, k, r) =>
      AppendFacts(r, b);
      AppendAt(r, b, n, top);
  }

  // ----- Children and parents -----

  /** What lies below a node of a forest is described by the node's children alone. */
  lemma KidsFacts<D>(f: Forest<D>, n: D)
    requires Distinct(f)
    ensures Nodes(KidsOf(f, n)) <= Nodes(f) - {n}
    ensures Distinct(KidsOf(f, n))
    ensures n in Nodes(f) ==> Size(KidsOf(f, n)) < Size(f)
  {
  }

  lemma KidsBounded<D>(f: Forest<D>, n: D, cap: nat)
    requires n in Nodes(f) && Bounded(f, cap)
    ensures Bounded(KidsOf(f, n), cap) && Len(KidsOf(f, n)) <= cap
  {
  }

  lemma Below<D>(f: Forest<D>, n: D, m: D, top: Option<D>)
    requires Distinct(f) && m in Nodes(KidsOf(f, n))
    ensures KidsOf(f, m) == KidsOf(KidsOf(f, n), m)
    ensures ParentOf(f, m, top) == ParentOf(KidsOf(f, n), m, Some(n))
    ensures Level(f, m) == Level(f, n) + 1 + Level(KidsOf(f, n), m)
    ensures m != n && m in Nodes(f)
  {
    match f
    case Nil =>
    case Cons(d, k, r) =>
      KidsFacts(k, n);
      KidsFacts(r, n);
      if d == n {
        BelowTop(k, m, Some(d), Some(n));
      } else if n in Nodes(k) {
        Below(k, n, m, Some(d));
      } else {
        Below(r, n, m, top);
      }
  }

  lemma BelowTop<D>(f: Forest<D>, m: D, t: Option<D>, u: Option<D>)
    requires t == u
    ensures ParentOf(f, m, t) == ParentOf(f, m, u)
  {
  }

  lemma TopParent<D>(f: Forest<D>, n: D, q: D)
    requires Distinct(f) && n in Nodes(f) && q !in Nodes(f)
    ensures ParentOf(f, n, Some(q)) == Some(q) <==> n in Roots(f)
  {
    match f
    case Cons(d, k, r) =>
      OrdersHoldNodes(r);
      if d != n && n in Nodes(k) {
        ParentInside(k, n, Some(d));
      }
  }

  lemma ParentInside<D>(f: Forest<D>, n: D, top: Option<D>)
    requires Distinct(f) && n in Nodes(f)
    ensures ParentOf(f, n, top) == top || (ParentOf(f, n, top).Some? && ParentOf(f, n, top).value in Nodes(f))
  {
  }

  /** A node's parent is `p` exactly when the node is among the children of `p`. */
  lemma {:induction false} ParentIffChild<D>(f: Forest<D>, p: D, n: D, top: Option<D>)
    requires Distinct(f) && n in Nodes(f) && top != Some(p)
    ensures ParentOf(f, n, top) == Some(p) <==> n in Roots(KidsOf(f, p))
    ensures ParentOf(f, n, top) == Some(p) ==> p in Nodes(f)
  {
    match f
    case Cons(d, k, r) =>
      KidsFacts(f, p);
      KidsFacts(k, p);
      KidsFacts(r, p);
      OrdersHoldNodes(KidsOf(f, p));
      if d == n {
      } else if n in Nodes(k) {
        if p == d {
          TopParent(k, n, d);
        } else {
          ParentIffChild(k, p, n, Some(d));
          ParentInside(k, n, Some(d));
        }
      } else {
        ParentIffChild(r, p, n, top);
        ParentInside(r, n, top);
      }
  }
}
