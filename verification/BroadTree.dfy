/** A binary tree broad enough that the queue drops a node which has a child. */
module BroadTrees {
  import opened Forests
  import opened LevelOrder
  import opened Pruning
  import opened Rebuilding
  import opened Breadth

  /** The number of nodes of a binary tree with `h` complete levels. */
  function Count(h: nat): nat {
    if h == 0 then 0 else 1 + 2 * Count(h - 1)
  }

  /** That tree, numbered from `i` in depth-first order. */
  function Full(i: int, h: nat): Forest<int>
    decreases h
  {
    if h == 0 then Nil else Cons(i, FullKids(i, h), Nil)
  }

  function FullKids(i: int, h: nat): Forest<int>
    requires h > 0
    decreases h, 0
  {
    Append(Full(i + 1, h - 1), Full(i + 1 + Count(h - 1), h - 1))
  }

  lemma {:induction false} FullFacts(i: int, h: nat)
    ensures Distinct(Full(i, h)) && forall n :: n in Nodes(Full(i, h)) ==> i <= n < i + Count(h)
    ensures Size(Full(i, h)) == Count(h) && Len(Full(i, h)) == (if h == 0 then 0 else 1)
    ensures h > 0 ==> Full(i, h) == Cons(i, FullKids(i, h), Nil)
    decreases h
  {
    hide Nodes, Distinct, Append, Size, Len, Bounded, AllKids;
    if h > 0 {
      var a, b := Full(i + 1, h - 1), Full(i + 1 + Count(h - 1), h - 1);
      FullFacts(i + 1, h - 1);
      FullFacts(i + 1 + Count(h - 1), h - 1);
      RangesApart(Nodes(a), Nodes(b), i + 1 + Count(h - 1));
      AppendNodes(a, b);
      AppendSizes(a, b);
      SingleFacts(i, Append(a, b));
      assert Full(i, h) == Cons(i, Append(a, b), Nil);
    } else {
      NoNodes<int>();
    }
  }

  lemma RangesApart(a: set<int>, b: set<int>, middle: int)
    requires (forall n :: n in a ==> n < middle) && forall n :: n in b ==> n >= middle
    ensures a !! b
  {
    forall n | n in a ensures n !in b {
    }
    assert a * b == {};
  }

  lemma NoNodes<D>()
    ensures Nodes<D>(Nil) == {} && Distinct<D>(Nil) && Size<D>(Nil) == Len<D>(Nil) == 0
  {
  }

  lemma SingleFacts<D>(d: D, k: Forest<D>)
    ensures Nodes(Cons(d, k, Nil)) == {d} + Nodes(k)
    ensures Size(Cons(d, k, Nil)) == 1 + Size(k) && Len(Cons(d, k, Nil)) == 1
    ensures Distinct(Cons(d, k, Nil)) <==> Distinct(k) && d !in Nodes(k)
    ensures forall cap: nat :: Bounded(Cons(d, k, Nil), cap) <==> Len(k) <= cap && Bounded(k, cap)
    ensures AllKids(Cons(d, k, Nil)) == k
  {
    AppendNil(k);
    assert AllKids<D>(Nil) == Nil && Size<D>(Nil) == 0;
  }

  lemma {:induction false} FullShape(i: int, h: nat)
    ensures Bounded(Full(i, h), 2) && Complete(Full(i, h), h) && Depth(Full(i, h)) == h
    decreases h
  {
    if h > 0 {
      var a, b := Full(i + 1, h - 1), Full(i + 1 + Count(h - 1), h - 1);
      FullShape(i + 1, h - 1);
      FullShape(i + 1 + Count(h - 1), h - 1);
      FullFacts(i + 1, h - 1);
      FullFacts(i + 1 + Count(h - 1), h - 1);
      AppendSizes(a, b);
      AppendBounded(a, b, 2);
      CompleteAppend(a, b, h - 1);
      AppendDepth(a, b);
    }
  }

  lemma AppendDepth<D>(a: Forest<D>, b: Forest<D>)
    ensures Depth(Append(a, b)) == if Depth(a) > Depth(b) then Depth(a) else Depth(b)
  {
  }

  /** A path of `n` nodes and a fork at its end, whose second child may have a child itself. */
  function Stalk(i: int, n: nat, tip: bool): Forest<int>
    decreases n
  {
    if n == 0 then Fork(i, i + 1, i + 2, Tip(i + 3, tip)) else Cons(i, Stalk(i + 1, n - 1, tip), Nil)
  }

  function Tip(i: int, tip: bool): Forest<int> {
    if tip then Leaf(i) else Nil
  }

  lemma TipShape(i: int, tip: bool)
    ensures Nodes(Tip(i, tip)) == (if tip then {i} else {}) && Distinct(Tip(i, tip)) && Bounded(Tip(i, tip), 2)
    ensures Size(Tip(i, tip)) == Len(Tip(i, tip)) == if tip then 1 else 0
  {
  }

  lemma ForkFacts<D>(q: D, z: D, p: D, kp: Forest<D>)
    ensures Nodes(Fork(q, z, p, kp)) == {q, z, p} + Nodes(kp)
    ensures Size(Fork(q, z, p, kp)) == 3 + Size(kp) && Len(Fork(q, z, p, kp)) == 1
    ensures q != z && q != p && z != p && Distinct(kp) && {q, z, p} !! Nodes(kp) ==> Distinct(Fork(q, z, p, kp))
    ensures Len(kp) <= 2 && Bounded(kp, 2) ==> Bounded(Fork(q, z, p, kp), 2)
  {
    var last := Cons(p, kp, Nil);
    SingleFacts(p, kp);
    SingleFacts(q, Cons(z, Nil, last));
    assert Nodes(Cons(z, Nil, last)) == {z} + Nodes(last) && Len(Cons(z, Nil, last)) == 2;
    assert Size(Cons(z, Nil, last)) == 1 + Size(last);
  }

  lemma {:induction false} StalkFacts(i: int, n: nat, tip: bool)
    ensures Distinct(Stalk(i, n, tip)) && forall m :: m in Nodes(Stalk(i, n, tip)) ==> i <= m <= i + n + 3
    ensures i + n + 2 in Nodes(Stalk(i, n, tip)) && (tip ==> i + n + 3 in Nodes(Stalk(i, n, tip)))
    ensures Size(Stalk(i, n, tip)) == n + (if tip then 4 else 3)
    ensures Len(Stalk(i, n, tip)) == 1 && Bounded(Stalk(i, n, tip), 2)
    decreases n
  {
    if n > 0 {
      StalkFacts(i + 1, n - 1, tip);
      SingleFacts(i, Stalk(i + 1, n - 1, tip));
    } else {
      TipShape(i + 3, tip);
      ForkFacts(i, i + 1, i + 2, Tip(i + 3, tip));
      assert Stalk(i, n, tip) == Fork(i, i + 1, i + 2, Tip(i + 3, tip));
    }
  }

  lemma {:induction false} StalkAt(i: int, n: nat, tip: bool)
    ensures LevelAt(Stalk(i, n, tip), n) == Fork(i + n, i + n + 1, i + n + 2, Tip(i + n + 3, tip))
    decreases n
  {
    if n > 0 {
      SingleFacts(i, Stalk(i + 1, n - 1, tip));
      StalkAt(i + 1, n - 1, tip);
    }
  }

  /** The nodes of a stalk with its tip are those without, and the tip, which hangs below the last of them. */
  lemma {:induction false} TipFacts(i: int, n: nat, top: Option<int>)
    ensures ParentOf(Stalk(i, n, true), i + n + 3, top) == Some(i + n + 2)
    ensures Nodes(Stalk(i, n, true)) == Nodes(Stalk(i, n, false)) + {i + n + 3}
    ensures Prune(Stalk(i, n, true), n + 3) == Stalk(i, n, false)
    decreases n
  {
    hide Nodes, ParentOf, Prune, Fork, Bounded, Size, Distinct, AllKids, Len;
    if n > 0 {
      StalkFacts(i + 1, n - 1, true);
      TipFacts(i + 1, n - 1, Some(i));
      PruneTree(i, Stalk(i + 1, n - 1, true), n + 2);
      SingleFacts(i, Stalk(i + 1, n - 1, true));
      SingleFacts(i, Stalk(i + 1, n - 1, false));
      TreeParent(i, Stalk(i + 1, n - 1, true), i + n + 3, top);
    } else {
      assert Stalk(i, n, true) == Fork(i, i + 1, i + 2, Leaf(i + 3));
      assert Stalk(i, n, false) == Fork(i, i + 1, i + 2, Nil);
      ForkTip(i, i + 1, i + 2, i + 3, top);
    }
  }

  lemma ForkTip<D>(q: D, z: D, p: D, e: D, top: Option<D>)
    requires q != e && z != e && p != e
    ensures ParentOf(Fork(q, z, p, Leaf(e)), e, top) == Some(p)
    ensures Nodes(Fork(q, z, p, Leaf(e))) == Nodes(Fork(q, z, p, Nil)) + {e}
    ensures Prune(Fork(q, z, p, Leaf(e)), 3) == Fork(q, z, p, Nil)
  {
    var last := Cons(p, Leaf(e), Nil);
    ForkFacts(q, z, p, Leaf(e));
    ForkFacts(q, z, p, Nil);
    SingleFacts(e, Nil);
    SingleFacts(p, Leaf(e));
    assert ParentOf(last, e, Some(q)) == Some(p);
    assert ParentOf(Cons(z, Nil, last), e, Some(q)) == Some(p);
    assert e in Nodes(Cons(z, Nil, last));
    PruneNone(Leaf(e));
    PruneTree(p, Leaf(e), 0);
    assert Prune(Cons(z, Nil, last), 2) == Cons(z, Nil, Leaf(p));
    PruneTree(q, Cons(z, Nil, last), 2);
  }

  lemma TreeParent<D>(d: D, k: Forest<D>, n: D, top: Option<D>)
    requires n in Nodes(k) && n != d
    ensures ParentOf(Cons(d, k, Nil), n, top) == ParentOf(k, n, Some(d))
  {
  }

  lemma PruneTree<D>(d: D, k: Forest<D>, m: nat)
    ensures Prune(Cons(d, k, Nil), m + 1) == Cons(d, Prune(k, m), Nil)
  {
  }

  lemma {:induction false} PruneBeside<D>(a: Forest<D>, b: Forest<D>, m: nat)
    ensures Prune(Append(a, b), Size(a) + m) == Append(a, Prune(b, m))
  {
    match a
    case Nil =>
    case Cons(d, k, r) =>
      PruneAll(k, Size(a) + m - 1);
      PruneBeside(r, b, m);
  }

  /** Below the root a complete binary tree with `h` levels, and a stalk whose fork is on the level of the last
      parents of that tree.  The second child of the fork has number `h + 1`. */
  function Broad(h: nat, tip: bool): Forest<int>
    requires h >= 2
  {
    Cons(0, Append(Full(h + 3, h), Stalk(1, h - 2, tip)), Nil)
  }

  lemma BroadParts(h: nat, tip: bool)
    requires h >= 2
    ensures var a, b := Full(h + 3, h), Stalk(1, h - 2, tip);
            && Distinct(Append(a, b)) && Nodes(Append(a, b)) == Nodes(a) + Nodes(b) && Len(Append(a, b)) == 2
            && 0 !in Nodes(Append(a, b)) && h + 2 !in Nodes(a) && h + 1 in Nodes(b) && (tip ==> h + 2 in Nodes(b))
            && (forall n :: n in Nodes(b) ==> 0 < n < h + 3)
            && Size(Append(a, b)) == Count(h) + h + (if tip then 2 else 1) && Bounded(Append(a, b), 2)
  {
    hide Full, Stalk, Count, Distinct, Nodes, Append, Len, Size, Bounded, Complete, Depth;
    var a, b := Full(h + 3, h), Stalk(1, h - 2, tip);
    FullFacts(h + 3, h);
    FullShape(h + 3, h);
    StalkFacts(1, h - 2, tip);
    RangesApart(Nodes(b), Nodes(a), h + 3);
    AppendNodes(a, b);
    AppendSizes(a, b);
    AppendBounded(a, b, 2);
  }

  lemma BroadShape(h: nat, tip: bool)
    requires h >= 2
    ensures Distinct(Broad(h, tip)) && Bounded(Broad(h, tip), 2) && Len(Broad(h, tip)) == 1
    ensures h + 1 in Nodes(Broad(h, tip))
    ensures Size(Broad(h, tip)) == Count(h) + h + (if tip then 3 else 2)
    ensures AllKids(Broad(h, tip)) == Append(Full(h + 3, h), Stalk(1, h - 2, tip))
  {
    hide Full, Stalk, Count, Append, Distinct, Nodes, Len, Size, Bounded, AllKids;
    BroadParts(h, tip);
    SingleFacts(0, Append(Full(h + 3, h), Stalk(1, h - 2, tip)));
  }

  lemma BroadNarrow(h: nat, tip: bool)
    requires h == 11
    ensures Narrow(Broad(h, tip), h - 1)
  {
    hide Full, Stalk, Count, Append, Size, Bounded, AllKids, Len, Broad;
    var a, b := Full(h + 3, h), Stalk(1, h - 2, tip);
    BroadShape(h, tip);
    BroadParts(h, tip);
    FullShape(h + 3, h);
    FullFacts(h + 3, h);
    StalkFacts(1, h - 2, tip);
    Doublings();
    BinaryNarrow(a, b, 1, h - 2);
  }

  lemma Doublings()
    ensures Doubled(1, 9) == 512 && Count(11) == 2047
  {
  }

  /** The second child of the fork is never visited. */
  lemma LastIsMissed(h: nat, tip: bool)
    requires h == 11
    ensures h + 1 in Nodes(Broad(h, tip)) && h + 1 !in Elems(Visit(Broad(h, tip)))
  {
    hide Full, Stalk, Count, Doubled, Visit, Narrow, Broad, LevelAt, Distinct, Nodes, Elems, Complete, Append,
         AllKids, Fork, Tip;
    var a, b := Full(h + 3, h), Stalk(1, h - 2, tip);
    BroadShape(h, tip);
    BroadNarrow(h, tip);
    FullShape(h + 3, h);
    FullFacts(h + 3, h);
    CompleteAt(a, h, h - 2);
    Doublings();
    StalkAt(1, h - 2, tip);
    LevelAtAppend(a, b, h - 2);
    LevelAtDown(Broad(h, tip), h - 1);
    LevelAtDistinct(Broad(h, tip), h - 1);
    var wide, kp := LevelAt(a, h - 2), Tip(h + 2, tip);
    AppendNil(Append(wide, Fork(h - 1, h, h + 1, kp)));
    LastIsDropped(wide, h - 1, h, h + 1, kp, Nil);
    ForkHolds(wide, h - 1, h, h + 1, kp);
    DeepMissed(Broad(h, tip), h - 1, h + 1);
  }

  lemma LevelAtDown<D>(f: Forest<D>, l: nat)
    requires l > 0
    ensures LevelAt(f, l) == LevelAt(AllKids(f), l - 1)
  {
  }

  lemma ForkHolds<D>(a: Forest<D>, q: D, z: D, p: D, kp: Forest<D>)
    ensures p in Nodes(Append(a, Fork(q, z, p, kp)))
  {
    AppendNodes(a, Fork(q, z, p, kp));
    ForkFacts(q, z, p, kp);
  }

  lemma {:induction false} LevelAtDistinct<D>(f: Forest<D>, l: nat)
    requires Distinct(f)
    ensures Distinct(LevelAt(f, l))
    decreases l
  {
    if l > 0 {
      AllKidsNodes(f);
      LevelAtDistinct(AllKids(f), l - 1);
    }
  }

  lemma BroadPruned(h: nat)
    requires h >= 2
    ensures Size(Broad(h, true)) > 0 && Prune(Broad(h, true), Size(Broad(h, true)) - 1) == Broad(h, false)
  {
    hide Full, Stalk, Count, Prune, Append, Size;
    var a, b := Full(h + 3, h), Stalk(1, h - 2, true);
    BroadShape(h, true);
    FullFacts(h + 3, h);
    PruneBeside(a, b, h + 1);
    TipFacts(1, h - 2, None);
    PruneTree(0, Append(a, b), Size(a) + h + 1);
  }

  lemma TipBelowLast(h: nat)
    requires h >= 2
    ensures Nodes(Broad(h, true)) == Nodes(Broad(h, false)) + {h + 2}
    ensures ParentOf(Broad(h, true), h + 2, None) == Some(h + 1)
  {
    hide Full, Stalk, Count, Distinct, Append, Nodes;
    var a := Full(h + 3, h);
    var b, c := Stalk(1, h - 2, true), Stalk(1, h - 2, false);
    BroadParts(h, true);
    BroadParts(h, false);
    TipFacts(1, h - 2, Some(0));
    AppendAt(a, b, h + 2, Some(0));
    SingleFacts(0, Append(a, b));
    SingleFacts(0, Append(a, c));
    TreeParent(0, Append(a, b), h + 2, None);
  }

  lemma NewcomerIs<D>(f: Forest<D>, m: nat, x: D, e: D)
    requires Grows(f, m, x) && Nodes(f) == Nodes(Prune(f, m)) + {e}
    ensures x == e
  {
  }

  /** The tip's parent is not visible when the tip's turn comes. */
  lemma TipIsHidden(h: nat)
    requires h == 11
    ensures !ParentsVisible(Broad(h, true))
  {
    hide Full, Stalk, Count, Visit, Elems, Preorder, ParentOf, Distinct, Nodes, Prune, Broad, Size, Grows, Append,
         AllKids;
    var f := Broad(h, true);
    var m := Size(f) - 1;
    BroadPruned(h);
    BroadShape(h, true);
    TipBelowLast(h);
    LastIsMissed(h, false);
    PruneStep(f, m);
    NewcomerIs(f, m, Preorder(f)[m], h + 2);
    assert !ParentVisible(f, m);
  }
}
