/** What replacing the children of one node does to the rest of a forest.  Creating a node and
    deleting one are both such a replacement, so these lemmas carry every structural result. */
module Surgery {
  import opened Forests

  lemma SetKidsAbsent<D>(f: Forest<D>, p: D, g: Forest<D>)
    requires p !in Nodes(f)
    ensures SetKids(f, p, g) == f
  {
  }

  lemma SetKidsShape<D>(f: Forest<D>, p: D, g: Forest<D>)
    ensures Roots(SetKids(f, p, g)) == Roots(f) && Len(SetKids(f, p, g)) == Len(f)
    ensures SetKids(f, p, g).Nil? <==> f.Nil?
  {
  }

  lemma ReplaceWithin<D>(a: set<D>, old_: set<D>, new_: set<D>, b: set<D>)
    requires old_ <= a && a !! b
    ensures a - old_ + new_ + b == a + b - old_ + new_
  {
  }

  lemma {:induction false} SetKidsNodes<D>(f: Forest<D>, p: D, g: Forest<D>)
    requires Distinct(f) && p in Nodes(f)
    ensures Nodes(SetKids(f, p, g)) == Nodes(f) - Nodes(KidsOf(f, p)) + Nodes(g)
  {
    match f
    case Cons(d, k, r) =>
      if d == p {
        SetKidsAbsent(r, p, g);
        ReplaceWithin(Nodes(k), Nodes(k), Nodes(g), {d} + Nodes(r));
      } else if p in Nodes(k) {
        KidsFacts(k, p);
        SetKidsNodes(k, p, g);
        SetKidsAbsent(r, p, g);
        ReplaceWithin(Nodes(k), Nodes(KidsOf(k, p)), Nodes(g), {d} + Nodes(r));
      } else {
        KidsFacts(r, p);
        SetKidsNodes(r, p, g);
        SetKidsAbsent(k, p, g);
        ReplaceWithin(Nodes(r), Nodes(KidsOf(r, p)), Nodes(g), {d} + Nodes(k));
      }
  }

  lemma {:induction false} SetKidsSize<D>(f: Forest<D>, p: D, g: Forest<D>)
    requires Distinct(f) && p in Nodes(f)
    ensures Size(SetKids(f, p, g)) == Size(f) - Size(KidsOf(f, p)) + Size(g)
  {
    match f
    case Cons(d, k, r) =>
      if d == p {
        SetKidsAbsent(r, p, g);
      } else if p in Nodes(k) {
        SetKidsSize(k, p, g);
        SetKidsAbsent(r, p, g);
      } else {
        SetKidsSize(r, p, g);
        SetKidsAbsent(k, p, g);
      }
  }

  /** The new children may use any names not in use outside the old ones. */
  ghost predicate Fits<D>(f: Forest<D>, p: D, g: Forest<D>) {
    Distinct(f) && p in Nodes(f) && Distinct(g) && Nodes(g) !! Nodes(f) - Nodes(KidsOf(f, p))
  }

  lemma FitsInside<D>(f: Forest<D>, p: D, g: Forest<D>)
    requires Fits(f, p, g) && f.node != p
    ensures p in Nodes(f.kids) ==> Fits(f.kids, p, g) && SetKids(f.rest, p, g) == f.rest
    ensures p !in Nodes(f.kids) ==> Fits(f.rest, p, g) && SetKids(f.kids, p, g) == f.kids
    ensures p in Nodes(f.kids) ==> Nodes(g) !! Nodes(f.rest)
    ensures p !in Nodes(f.kids) ==> Nodes(g) !! Nodes(f.kids)
    ensures f.node !in Nodes(g)
  {
    KidsFacts(f.kids, p);
    KidsFacts(f.rest, p);
    if p in Nodes(f.kids) {
      SetKidsAbsent(f.rest, p, g);
    } else {
      SetKidsAbsent(f.kids, p, g);
    }
    assert p in Nodes(f.kids) ==> Nodes(f.rest) <= Nodes(f) - Nodes(KidsOf(f, p));
    assert p !in Nodes(f.kids) ==> p in Nodes(f.rest) && Nodes(f.kids) <= Nodes(f) - Nodes(KidsOf(f, p));
  }

  lemma {:induction false} SetKidsDistinct<D>(f: Forest<D>, p: D, g: Forest<D>)
    requires Fits(f, p, g)
    ensures Distinct(SetKids(f, p, g))
  {
    match f
    case Cons(d, k, r) =>
      if d == p {
        SetKidsAbsent(r, p, g);
      } else {
        FitsInside(f, p, g);
        if p in Nodes(k) {
          SetKidsDistinct(k, p, g);
          SetKidsNodes(k, p, g);
        } else {
          SetKidsDistinct(r, p, g);
          SetKidsNodes(r, p, g);
        }
      }
  }

  lemma SetKidsBounded<D>(f: Forest<D>, p: D, g: Forest<D>, cap: nat)
    requires Bounded(f, cap) && Bounded(g, cap) && Len(g) <= cap
    ensures Bounded(SetKids(f, p, g), cap)
  {
    match f
    case Nil =>
    case Cons(d, k, r) =>
      SetKidsShape(k, p, g);
  }

  /** Outside the replaced children, a node keeps its parent and level; only `p` and its ancestors
      see different descendants. */
  lemma {:induction false} SetKidsOutside<D>(f: Forest<D>, p: D, g: Forest<D>, n: D, top: Option<D>)
    requires Fits(f, p, g) && n in Nodes(f) && n !in Nodes(KidsOf(f, p))
    ensures KidsOf(SetKids(f, p, g), n) == if n == p then g else SetKids(KidsOf(f, n), p, g)
    ensures ParentOf(SetKids(f, p, g), n, top) == ParentOf(f, n, top)
    ensures Level(SetKids(f, p, g), n) == Level(f, n)
    decreases f, 1
  {
    match f
    case Cons(d, k, r) =>
      if d == p {
        SetKidsAbsent(r, p, g);
        if n != d {
          KidsFacts(r, n);
          SetKidsAbsent(KidsOf(r, n), p, g);
        }
      } else {
        FitsInside(f, p, g);
        if n != d {
          SetKidsOutsideStep(f, p, g, n, top);
        }
      }
  }

  lemma {:induction false} SetKidsOutsideStep<D>(f: Forest<D>, p: D, g: Forest<D>, n: D, top: Option<D>)
    requires Fits(f, p, g) && n in Nodes(f) && n !in Nodes(KidsOf(f, p)) && f.node != p && f.node != n
    ensures KidsOf(SetKids(f, p, g), n) == if n == p then g else SetKids(KidsOf(f, n), p, g)
    ensures ParentOf(SetKids(f, p, g), n, top) == ParentOf(f, n, top)
    ensures Level(SetKids(f, p, g), n) == Level(f, n)
    decreases f, 0
  {
    var Cons(d, k, r) := f;
    FitsInside(f, p, g);
    KidsFacts(k, n);
    KidsFacts(r, n);
    if p in Nodes(k) {
      SetKidsNodes(k, p, g);
      if n in Nodes(k) {
        SetKidsOutside(k, p, g, n, Some(d));
      } else {
        SetKidsAbsent(KidsOf(r, n), p, g);
      }
    } else {
      SetKidsNodes(r, p, g);
      if n in Nodes(k) {
        SetKidsAbsent(KidsOf(k, n), p, g);
      } else {
        SetKidsOutside(r, p, g, n, top);
      }
    }
  }

  /** Inside the new children everything is as in `g`, hung below `p`. */
  lemma SetKidsInside<D>(f: Forest<D>, p: D, g: Forest<D>, n: D, top: Option<D>)
    requires Fits(f, p, g) && n in Nodes(g)
    ensures KidsOf(SetKids(f, p, g), n) == KidsOf(g, n)
    ensures ParentOf(SetKids(f, p, g), n, top) == ParentOf(g, n, Some(p))
    ensures Level(SetKids(f, p, g), n) == Level(f, p) + 1 + Level(g, n)
  {
    SetKidsNodes(f, p, g);
    SetKidsDistinct(f, p, g);
    KidsFacts(f, p);
    SetKidsOutside(f, p, g, p, top);
    Below(SetKids(f, p, g), p, n, top);
  }

  // ----- Taking one tree out of a list and putting its children at the end -----

  lemma RemoveFacts<D>(f: Forest<D>, x: D)
    requires Distinct(f) && x in Roots(f)
    ensures Nodes(f) == Nodes(Remove(f, x)) + {x} + Nodes(KidsOf(f, x))
    ensures x !in Nodes(Remove(f, x)) && Nodes(Remove(f, x)) !! Nodes(KidsOf(f, x))
    ensures Distinct(Remove(f, x)) && Len(Remove(f, x)) == Len(f) - 1
    ensures Size(Remove(f, x)) + 1 + Size(KidsOf(f, x)) == Size(f)
  {
    match f
    case Cons(d, k, r) =>
      if d != x {
        OrdersHoldNodes(r);
        RemoveFacts(r, x);
        KidsFacts(r, x);
      }
  }

  lemma RemoveBounded<D>(f: Forest<D>, x: D, cap: nat)
    requires Bounded(f, cap)
    ensures Bounded(Remove(f, x), cap)
  {
  }

  lemma RemoveAt<D>(f: Forest<D>, x: D, n: D, top: Option<D>)
    requires Distinct(f) && x in Roots(f) && n in Nodes(Remove(f, x))
    ensures KidsOf(f, n) == KidsOf(Remove(f, x), n)
    ensures ParentOf(f, n, top) == ParentOf(Remove(f, x), n, top)
    ensures Level(f, n) == Level(Remove(f, x), n)
  {
    match f
    case Cons(d, k, r) =>
      if d != x {
        OrdersHoldNodes(r);
        RemoveFacts(r, x);
        if n in Nodes(Remove(r, x)) {
          RemoveAt(r, x, n, top);
        }
      }
  }
}
