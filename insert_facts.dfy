/** Facts about one call of `QuadTree::insert_point`: how an internal node
    routes, what a leaf with room does, what a split does, and where the
    stored points lie. */
module QuadTreeInsertFacts {
  import opened QuadTrees
  import opened QuadTreeInvariants

  /** At an internal node the point goes right exactly when `p.x` reaches
      `x + w/2` and bottom exactly when `p.y` reaches `y + h/2`; only that
      slot changes, and an empty slot is filled with the quadrant leaf of half
      the extents at the matching origin. */
  lemma InsertRoutes(t: QuadTree, p: Point)
    requires t.points.None?
    ensures var q := Route(t, p); var r := Insert(t, p);
      && (q == RT || q == RB <==> p.x >= t.x + Half(t.w))
      && (q == LB || q == RB <==> p.y >= t.y + Half(t.h))
      && r.points.None? && SameFrame(r, t)
      && Child(r, q) == Some(Insert(Target(t, q), p))
      && (forall q' :: q' != q ==> Child(r, q') == Child(t, q'))
      && (Child(t, q).None? ==>
            Target(t, q) == New(t.maxPoints, Half(t.w), Half(t.h),
                                if q == RT || q == RB then t.x + Half(t.w) else t.x,
                                if q == LB || q == RB then t.y + Half(t.h) else t.y))
  {
  }

  /** A leaf that is not full appends the point when it lies in its inclusive
      bounds, and is left exactly as it was otherwise. */
  lemma InsertLeafWithRoom(t: QuadTree, p: Point)
    requires t.points.Some? && |t.points.value| < t.maxPoints
    ensures var r := Insert(t, p);
      && r.points == Some(if InBounds(t, p) then t.points.value + [p] else t.points.value)
      && r == t.(points := r.points)
      && Points(r) == Points(t) + (if InBounds(t, p) then multiset{p} else multiset{})
  {
    if InBounds(t, p) {
      PointsOfList(t, t.points.value + [p]);
    }
  }

  lemma {:induction false} ReinsertKeepsInternal(acc: QuadTree, pts: seq<Point>)
    requires acc.points.None?
    ensures Reinsert(acc, pts).points.None?
    decreases |pts|
  {
    if pts != [] {
      InsertKeepsInternal(acc, pts[0]);
      ReinsertKeepsInternal(Insert(acc, pts[0]), pts[1..]);
    }
  }

  /** A full leaf always splits: it becomes internal, its old points are
      re-inserted in their original order, the incoming point takes no part
      (so the split happens even when it lies outside the region), and no point
      is stored that was not stored before. */
  lemma InsertSplits(t: QuadTree, p: Point, other: Point)
    requires t.points.Some? && |t.points.value| >= t.maxPoints
    ensures var r := Insert(t, p);
      && r.points.None? && SameFrame(r, t)
      && r == Reinsert(t.(points := None), t.points.value)
      && r == Insert(t, other)
      && Points(r) <= Points(t)
      && (NoChildren(t) && p !in t.points.value ==> p !in Points(r))
  {
    ReinsertKeepsInternal(t.(points := None), t.points.value);
    ReinsertStoresNothingElse(t.(points := None), t.points.value);
    PointsOfList(t, []);
  }

  /** Every point stored at or below a valid node with nonnegative extents
      lies in that node's inclusive region. */
  lemma {:induction false} AllPointsInRegion(t: QuadTree)
    requires Valid(t) && t.w >= 0 && t.h >= 0
    ensures forall pt :: pt in Points(t) ==> InBounds(t, pt)
    decreases t
  {
    SlotInRegion(t, t.lt, LT);
    SlotInRegion(t, t.lb, LB);
    SlotInRegion(t, t.rt, RT);
    SlotInRegion(t, t.rb, RB);
  }

  lemma {:induction false} SlotInRegion(t: QuadTree, o: Option<QuadTree>, q: Quadrant)
    requires SlotOk(t, o, q) && t.w >= 0 && t.h >= 0
    ensures forall pt :: pt in SubPoints(o) ==> InBounds(t, pt)
    decreases o
  {
    if o.Some? {
      AllPointsInRegion(o.value);
    }
  }

  /** With even, nonnegative extents a contained point lies in the region of
      the quadrant it is routed to. */
  lemma RoutedInBounds(t: QuadTree, p: Point)
    requires InBounds(t, p)
    requires t.w >= 0 && t.h >= 0 && t.w % 2 == 0 && t.h % 2 == 0
    ensures InBounds(QuadrantLeaf(t, Route(t, p)), p)
  {
  }

  /** The shape the re-insertion loop of a split works on: an internal node
      with even, nonnegative extents whose every slot holds (or would create)
      a childless leaf with the quadrant's region and the node's capacity. */
  predicate Feedable(acc: QuadTree) {
    acc.points.None? && acc.w >= 0 && acc.h >= 0 && acc.w % 2 == 0 && acc.h % 2 == 0
    && forall q :: TargetLeaf(acc, q)
  }

  predicate TargetLeaf(acc: QuadTree, q: Quadrant) {
    var c := Target(acc, q);
    c.points.Some? && NoChildren(c) && SameFrame(c, QuadrantLeaf(acc, q))
  }

  /** One step of the re-insertion loop: the point lands in a leaf child
      with room whose region contains it. */
  lemma LosslessStep(acc: QuadTree, p: Point)
    requires Feedable(acc) && Count(acc) < acc.maxPoints && InBounds(acc, p)
    ensures Feedable(Insert(acc, p)) && SameFrame(Insert(acc, p), acc)
    ensures Points(Insert(acc, p)) == Points(acc) + multiset{p}
    ensures Count(Insert(acc, p)) == Count(acc) + 1
  {
    var q := Route(acc, p);
    var c := Target(acc, q);
    TargetTakes(acc, p);
    var c' := c.(points := Some(c.points.value + [p]));
    InsertInternalUnfold(acc, p);
    SetChildFeedable(acc, q, c');
    TargetDescends(acc, q);
    TargetPoints(acc, q);
    CountSetChild(acc, q, c');
    PointsSetChild(acc, q, c');
    Cancel(Points(SetChild(acc, q, c')), Points(c), Points(acc), p);
  }

  lemma SetChildFeedable(acc: QuadTree, q: Quadrant, c: QuadTree)
    requires Feedable(acc)
    requires c.points.Some? && NoChildren(c) && SameFrame(c, QuadrantLeaf(acc, q))
    ensures Feedable(SetChild(acc, q, c)) && SameFrame(SetChild(acc, q, c), acc)
  {
    var next := SetChild(acc, q, c);
    forall q' ensures TargetLeaf(next, q') {
      assert TargetLeaf(acc, q');
    }
  }

  lemma Cancel(a: multiset<Point>, b: multiset<Point>, t: multiset<Point>, p: Point)
    requires a + b == t + (b + multiset{p})
    ensures a == t + multiset{p}
  {
    forall x ensures a[x] == (t + multiset{p})[x] {
      assert (a + b)[x] == (t + (b + multiset{p}))[x];
    }
  }

  lemma InsertInternalUnfold(t: QuadTree, p: Point)
    requires t.points.None?
    ensures Insert(t, p) == SetChild(t, Route(t, p), Insert(Target(t, Route(t, p)), p))
  {
  }

  /** The childless leaf an in-region point is routed to appends it. */
  lemma TargetTakes(acc: QuadTree, p: Point)
    requires Feedable(acc) && Count(acc) < acc.maxPoints && InBounds(acc, p)
    ensures var c := Target(acc, Route(acc, p));
      c.points.Some? && NoChildren(c) && SameFrame(c, QuadrantLeaf(acc, Route(acc, p)))
      && Points(c) == multiset(c.points.value) && Count(c) == |c.points.value|
      && Insert(c, p) == c.(points := Some(c.points.value + [p]))
      && Points(Insert(c, p)) == Points(c) + multiset{p}
  {
    var q := Route(acc, p);
    TargetDescends(acc, q);
    var c := Target(acc, q);
    assert TargetLeaf(acc, q);
    assert Points(c) == multiset(c.points.value);
    assert Count(c) == |c.points.value|;
    RoutedInBounds(acc, p);
    LeafAppends(c, p);
  }

  lemma LeafAppends(c: QuadTree, p: Point)
    requires c.points.Some? && NoChildren(c) && |c.points.value| < c.maxPoints && InBounds(c, p)
    ensures Insert(c, p) == c.(points := Some(c.points.value + [p]))
    ensures Points(Insert(c, p)) == Points(c) + multiset{p}
  {
    PointsOfList(c, c.points.value + [p]);
  }

  /** The re-insertion loop of a split loses nothing while the children it
      feeds are leaves with room, the extents are even and every point lies in
      the region. */
  lemma {:induction false} ReinsertLossless(acc: QuadTree, pts: seq<Point>)
    requires Feedable(acc) && Count(acc) + |pts| <= acc.maxPoints
    requires forall pt :: pt in pts ==> InBounds(acc, pt)
    ensures Points(Reinsert(acc, pts)) == Points(acc) + multiset(pts)
    decreases |pts|
  {
    if pts != [] {
      var p, rest := pts[0], pts[1..];
      ReinsertUnfold(acc, pts);
      var next := Insert(acc, p);
      LosslessStep(acc, p);
      ReinsertLossless(next, rest);
    }
  }

  lemma ReinsertUnfold(acc: QuadTree, pts: seq<Point>)
    requires pts != []
    ensures Reinsert(acc, pts) == Reinsert(Insert(acc, pts[0]), pts[1..])
    ensures multiset(pts) == multiset{pts[0]} + multiset(pts[1..])
    ensures forall pt :: pt in pts[1..] ==> pt in pts
  {
    assert pts == [pts[0]] + pts[1..];
  }

  /** When the splitting leaf's width and height are even (and nonnegative),
      every old point is redistributed into a child whose region contains it:
      the tree holds exactly the old points afterwards. The incoming point is
      still dropped. */
  lemma SplitLossless(t: QuadTree, p: Point)
    requires Valid(t) && t.points.Some? && |t.points.value| >= t.maxPoints
    requires t.w >= 0 && t.h >= 0 && t.w % 2 == 0 && t.h % 2 == 0
    ensures Points(Insert(t, p)) == Points(t) == multiset(t.points.value)
    ensures Valid(Insert(t, p))
  {
    var acc := t.(points := None);
    PointsOfList(t, []);
    assert Points(acc) == multiset{} && Count(acc) == 0;
    forall q ensures TargetLeaf(acc, q) {
    }
    ReinsertLossless(acc, t.points.value);
    InsertValid(t, p);
  }
}
