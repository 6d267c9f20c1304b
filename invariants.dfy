/** The structural invariant that `QuadTree::new` establishes and
    `QuadTree::insert_point` keeps, and what follows from it. */
module QuadTreeInvariants {
  import opened QuadTrees

  predicate NoChildren(t: QuadTree) {
    t.lt.None? && t.lb.None? && t.rt.None? && t.rb.None?
  }

  /** What a node promises on its own: a leaf has no children, holds at most
      `maxPoints` points and only points inside its inclusive bounds. An internal
      node stores no list at all (`points == None`). */
  predicate NodeOk(t: QuadTree) {
    t.points.Some? ==>
      NoChildren(t) && |t.points.value| <= t.maxPoints
      && forall pt :: pt in t.points.value ==> InBounds(t, pt)
  }

  /** Child `c` sits correctly in slot `q` of `parent`: it inherits the parent's
      capacity, covers the quadrant region the source creates for `q`, and every
      point below it is one the parent routes to `q`. */
  predicate Fits(parent: QuadTree, c: QuadTree, q: Quadrant) {
    c.maxPoints == parent.maxPoints
    && c.w == Half(parent.w) && c.h == Half(parent.h)
    && c.x == OriginX(parent, q) && c.y == OriginY(parent, q)
    && forall pt :: pt in Points(c) ==> Route(parent, pt) == q
  }

  /** The tree invariant, node by node. */
  predicate Valid(t: QuadTree)
    decreases t
  {
    NodeOk(t)
    && SlotOk(t, t.lt, LT) && SlotOk(t, t.lb, LB) && SlotOk(t, t.rt, RT) && SlotOk(t, t.rb, RB)
  }

  predicate SlotOk(parent: QuadTree, o: Option<QuadTree>, q: Quadrant)
    decreases o
  {
    o.Some? ==> Fits(parent, o.value, q) && Valid(o.value)
  }

  /** Replacing slot `q` swaps that child's points for the new child's. */
  lemma PointsSetChild(t: QuadTree, q: Quadrant, c: QuadTree)
    ensures Points(SetChild(t, q, c)) + SubPoints(Child(t, q)) == Points(t) + Points(c)
  {
    var r := SetChild(t, q, c);
    forall x ensures (Points(r) + SubPoints(Child(t, q)))[x] == (Points(t) + Points(c))[x] {
      assert Points(r)[x] + SubPoints(Child(t, q))[x] == Points(t)[x] + Points(c)[x] by {
        match q
        case LT => assert SubPoints(r.lt) == Points(c);
        case LB => assert SubPoints(r.lb) == Points(c);
        case RT => assert SubPoints(r.rt) == Points(c);
        case RB => assert SubPoints(r.rb) == Points(c);
      }
    }
  }

  lemma TargetPoints(t: QuadTree, q: Quadrant)
    ensures Points(Target(t, q)) == SubPoints(Child(t, q))
  {
    if Child(t, q).None? {
      assert Points(QuadrantLeaf(t, q)) == multiset{};
    }
  }

  /** Replacing the list of `t` by `pts` swaps its points for those of `pts`. */
  lemma PointsOfList(t: QuadTree, pts: seq<Point>)
    requires t.points.Some?
    ensures Points(t.(points := Some(pts))) + multiset(t.points.value) == Points(t) + multiset(pts)
    ensures Points(t.(points := None)) + multiset(t.points.value) == Points(t)
  {
  }

  /** Multiset bookkeeping for replacing one part `b` of a whole by `c`. */
  lemma SwapBound(a: multiset<Point>, b: multiset<Point>, t: multiset<Point>, c: multiset<Point>, p: Point)
    requires a + b == t + c
    requires c <= b + multiset{p}
    ensures a <= t + multiset{p}
  {
    forall x ensures a[x] <= (t + multiset{p})[x] {
      assert (a + b)[x] == (t + c)[x];
    }
  }

  /** The count is the number of stored points. */
  lemma {:induction false} CountIsSize(t: QuadTree)
    ensures Count(t) == |Points(t)|
    decreases t
  {
    SubCountIsSize(t.lt);
    SubCountIsSize(t.lb);
    SubCountIsSize(t.rt);
    SubCountIsSize(t.rb);
  }

  lemma {:induction false} SubCountIsSize(o: Option<QuadTree>)
    ensures SubCount(o) == |SubPoints(o)|
    decreases o
  {
    if o.Some? {
      CountIsSize(o.value);
    }
  }

  /** An insertion stores no point other than the one inserted: every point of
      the new tree was in the old tree or is `p`, counted with multiplicity. */
  lemma {:induction false} InsertStoresNothingElse(t: QuadTree, p: Point)
    ensures Points(Insert(t, p)) <= Points(t) + multiset{p}
    decreases Count(t), 1, Depth(t)
  {
    if t.points.None? {
      var q := Route(t, p);
      TargetDescends(t, q);
      TargetPoints(t, q);
      InsertStoresNothingElse(Target(t, q), p);
      var c := Insert(Target(t, q), p);
      PointsSetChild(t, q, c);
      SwapBound(Points(SetChild(t, q, c)), Points(Target(t, q)), Points(t), Points(c), p);
    } else if |t.points.value| >= t.maxPoints {
      PointsOfList(t, []);
      ReinsertStoresNothingElse(t.(points := None), t.points.value);
    } else if InBounds(t, p) {
      PointsOfList(t, t.points.value + [p]);
    }
  }

  lemma {:induction false} ReinsertStoresNothingElse(acc: QuadTree, pts: seq<Point>)
    ensures Points(Reinsert(acc, pts)) <= Points(acc) + multiset(pts)
    decreases Count(acc) + |pts|, 0, |pts|
  {
    if pts != [] {
      var next := Insert(acc, pts[0]);
      assert Reinsert(acc, pts) == Reinsert(next, pts[1..]);
      InsertStoresNothingElse(acc, pts[0]);
      ReinsertStoresNothingElse(next, pts[1..]);
      HeadTail(pts);
      SubsetChain(Points(Reinsert(next, pts[1..])), Points(next), Points(acc), multiset{pts[0]}, multiset(pts[1..]));
    }
  }

  lemma HeadTail(pts: seq<Point>)
    requires pts != []
    ensures multiset(pts) == multiset{pts[0]} + multiset(pts[1..])
  {
    assert pts == [pts[0]] + pts[1..];
  }

  lemma SubsetChain(r: multiset<Point>, n: multiset<Point>, a: multiset<Point>, x: multiset<Point>, y: multiset<Point>)
    requires r <= n + y && n <= a + x
    ensures r <= a + (x + y)
  {
  }

  lemma ValidChild(t: QuadTree, q: Quadrant)
    requires Valid(t)
    ensures SlotOk(t, Child(t, q), q)
  {
  }

  lemma ValidSetChild(t: QuadTree, q: Quadrant, c: QuadTree)
    requires Valid(t) && t.points.None?
    requires Fits(t, c, q) && Valid(c)
    ensures Valid(SetChild(t, q, c))
  {
    var r := SetChild(t, q, c);
    assert SameFrame(t, r) && r.points.None?;
    forall q' ensures SlotOk(r, Child(r, q'), q') {
      if q' == q {
        SlotOkSameFrame(t, r, Some(c), q);
      } else {
        ValidChild(t, q');
        SlotOkSameFrame(t, r, Child(t, q'), q');
      }
    }
    assert SlotOk(r, Child(r, LT), LT) && SlotOk(r, Child(r, LB), LB);
    assert SlotOk(r, Child(r, RT), RT) && SlotOk(r, Child(r, RB), RB);
  }

  /** Whether a slot is in order depends only on the parent's capacity and region. */
  lemma SlotOkSameFrame(a: QuadTree, b: QuadTree, o: Option<QuadTree>, q: Quadrant)
    requires SameFrame(a, b) && SlotOk(a, o, q)
    ensures SlotOk(b, o, q)
  {
    if o.Some? {
      forall pt | pt in Points(o.value) ensures Route(b, pt) == q {
        assert Route(a, pt) == q;
      }
    }
  }

  /** `QuadTree::new` builds an empty, valid leaf with exactly the given
      capacity and region. */
  lemma NewIsEmptyValidLeaf(maxPoints: nat, w: int, h: int, x: int, y: int)
    ensures var t := New(maxPoints, w, h, x, y);
      Valid(t) && t.points == Some([]) && NoChildren(t) && Points(t) == multiset{}
      && t.maxPoints == maxPoints && t.w == w && t.h == h && t.x == x && t.y == y
  {
  }

  /** An internal node never turns back into a leaf, and stores no list of its own. */
  lemma InsertKeepsInternal(t: QuadTree, p: Point)
    requires t.points.None?
    ensures Insert(t, p).points.None?
  {
  }

  /** Every insertion keeps the invariant: leaf XOR internal, the capacity
      bound, inherited capacity, quadrant geometry of every child, routing of
      every point to its slot, and containment of every leaf point. */
  lemma {:induction false} InsertValid(t: QuadTree, p: Point)
    requires Valid(t)
    ensures Valid(Insert(t, p))
    decreases Count(t), 1, Depth(t)
  {
    if t.points.None? {
      var q := Route(t, p);
      TargetDescends(t, q);
      TargetFits(t, q);
      InsertValid(Target(t, q), p);
      InsertedChildFits(t, q, p);
      ValidSetChild(t, q, Insert(Target(t, q), p));
    } else if |t.points.value| >= t.maxPoints {
      EmptyInternalValid(t);
      ReinsertValid(t.(points := None), t.points.value);
    } else if InBounds(t, p) {
      LeafPushValid(t, p);
    }
  }

  /** A childless node that drops its list is a valid internal node. */
  lemma EmptyInternalValid(t: QuadTree)
    requires Valid(t) && t.points.Some?
    ensures Valid(t.(points := None))
  {
    var r := t.(points := None);
    assert NoChildren(t) && NoChildren(r);
    assert SlotOk(r, r.lt, LT) && SlotOk(r, r.lb, LB) && SlotOk(r, r.rt, RT) && SlotOk(r, r.rb, RB);
  }

  lemma TargetFits(t: QuadTree, q: Quadrant)
    requires Valid(t) && t.points.None?
    ensures Fits(t, Target(t, q), q) && Valid(Target(t, q))
  {
    ValidChild(t, q);
    TargetPoints(t, q);
  }

  lemma InsertedChildFits(t: QuadTree, q: Quadrant, p: Point)
    requires Fits(t, Target(t, q), q) && Route(t, p) == q
    ensures Fits(t, Insert(Target(t, q), p), q)
  {
    var c := Insert(Target(t, q), p);
    InsertStoresNothingElse(Target(t, q), p);
    forall pt | pt in Points(c) ensures Route(t, pt) == q {
      assert pt in Points(Target(t, q)) + multiset{p};
    }
  }

  lemma LeafPushValid(t: QuadTree, p: Point)
    requires Valid(t) && t.points.Some? && |t.points.value| < t.maxPoints && InBounds(t, p)
    ensures Valid(t.(points := Some(t.points.value + [p])))
  {
    var r := t.(points := Some(t.points.value + [p]));
    assert NodeOk(r);
  }

  lemma {:induction false} ReinsertValid(acc: QuadTree, pts: seq<Point>)
    requires Valid(acc)
    ensures Valid(Reinsert(acc, pts))
    decreases Count(acc) + |pts|, 0, |pts|
  {
    if pts != [] {
      InsertValid(acc, pts[0]);
      ReinsertValid(Insert(acc, pts[0]), pts[1..]);
    }
  }
}
