/** `QuadTree::insert_point` with the quadrant children made to cover their
    parent. The source gives every child the truncated half extents
    `w / 2` and `h / 2`, so with an odd extent the right or bottom child
    stops one unit short of the parent's inclusive edge, and a split drops
    any point stored on that edge. Here the right and bottom children take
    the rest of the extent, `w - w / 2` and `h - h / 2`; everything else is
    as in `QuadTrees.Insert`. With this change a split keeps every point for
    any nonnegative extents. */
module QuadTreeCorrected {
  import opened QuadTrees
  import opened QuadTreeInvariants
  import opened QuadTreeInsertFacts

  /** The leaf created for an empty slot `q`: same origin as the source's,
      but the right and bottom quadrants reach the parent's far edges. With
      nonnegative extents it lies inside the parent's region. */
  function CorrectedQuadrantLeaf(t: QuadTree, q: Quadrant): (r: QuadTree)
    ensures r.points == Some([]) && NoChildren(r) && Count(r) == 0 && r.maxPoints == t.maxPoints
    ensures r.x == OriginX(t, q) && r.y == OriginY(t, q)
    ensures 0 <= t.w ==> t.x <= r.x && r.x + r.w <= t.x + t.w && 0 <= r.w
    ensures 0 <= t.h ==> t.y <= r.y && r.y + r.h <= t.y + t.h && 0 <= r.h
  {
    New(t.maxPoints,
        if q == RT || q == RB then t.w - Half(t.w) else Half(t.w),
        if q == LB || q == RB then t.h - Half(t.h) else Half(t.h),
        OriginX(t, q), OriginY(t, q))
  }

  /** Every point inside a node with nonnegative extents, odd or even, lies
      inside the corrected quadrant leaf it is routed to. */
  lemma CorrectedRoutedInBounds(t: QuadTree, p: Point)
    requires InBounds(t, p) && t.w >= 0 && t.h >= 0
    ensures InBounds(CorrectedQuadrantLeaf(t, Route(t, p)), p)
  {
  }

  function CorrectedTarget(t: QuadTree, q: Quadrant): QuadTree {
    if Child(t, q).Some? then Child(t, q).value else CorrectedQuadrantLeaf(t, q)
  }

  lemma CorrectedTargetDescends(t: QuadTree, q: Quadrant)
    requires t.points.None?
    ensures Count(CorrectedTarget(t, q)) == SubCount(Child(t, q)) <= Count(t)
    ensures Points(CorrectedTarget(t, q)) == SubPoints(Child(t, q))
    ensures Depth(CorrectedTarget(t, q)) < Depth(t)
  {
    TargetDescends(t, q);
    if Child(t, q).None? {
      assert Depth(CorrectedQuadrantLeaf(t, q)) == 0;
      assert Points(CorrectedQuadrantLeaf(t, q)) == multiset{};
    }
  }

  /** `insert_point` with the corrected quadrant leaves. */
  function CorrectedInsert(t: QuadTree, p: Point): (r: QuadTree)
    ensures SameFrame(r, t)
    ensures Count(r) <= Count(t) + 1
    decreases Count(t), 1, Depth(t)
  {
    if t.points.None? then
      var q := Route(t, p);
      CorrectedTargetDescends(t, q);
      var c := CorrectedInsert(CorrectedTarget(t, q), p);
      CountSetChild(t, q, c);
      SetChild(t, q, c)
    else if |t.points.value| >= t.maxPoints then
      CorrectedReinsert(t.(points := None), t.points.value)
    else if !InBounds(t, p) then
      t
    else
      t.(points := Some(t.points.value + [p]))
  }

  function CorrectedReinsert(acc: QuadTree, pts: seq<Point>): (r: QuadTree)
    ensures SameFrame(r, acc)
    ensures Count(r) <= Count(acc) + |pts|
    decreases Count(acc) + |pts|, 0, |pts|
  {
    if pts == [] then
      acc
    else
      CorrectedReinsert(CorrectedInsert(acc, pts[0]), pts[1..])
  }

  /** The shape the corrected re-insertion loop works on: an internal node
      with nonnegative extents whose every slot holds (or would create) a
      childless leaf with the corrected quadrant's region and the node's
      capacity. */
  predicate Fed(acc: QuadTree) {
    acc.points.None? && acc.w >= 0 && acc.h >= 0 && forall q :: SlotLeaf(acc, q)
  }

  predicate SlotLeaf(acc: QuadTree, q: Quadrant) {
    var c := CorrectedTarget(acc, q);
    c.points.Some? && NoChildren(c) && SameFrame(c, CorrectedQuadrantLeaf(acc, q))
  }

  lemma SetChildFed(acc: QuadTree, q: Quadrant, c: QuadTree)
    requires Fed(acc)
    requires c.points.Some? && NoChildren(c) && SameFrame(c, CorrectedQuadrantLeaf(acc, q))
    ensures Fed(SetChild(acc, q, c)) && SameFrame(SetChild(acc, q, c), acc)
  {
    var next := SetChild(acc, q, c);
    forall q' ensures SlotLeaf(next, q') {
      assert SlotLeaf(acc, q');
    }
  }

  /** The corrected leaf an in-region point is routed to appends it. */
  lemma CorrectedTargetTakes(acc: QuadTree, p: Point)
    requires Fed(acc) && Count(acc) < acc.maxPoints && InBounds(acc, p)
    ensures var c := CorrectedTarget(acc, Route(acc, p));
      c.points.Some? && NoChildren(c) && SameFrame(c, CorrectedQuadrantLeaf(acc, Route(acc, p)))
      && CorrectedInsert(c, p) == c.(points := Some(c.points.value + [p]))
      && Points(CorrectedInsert(c, p)) == Points(c) + multiset{p}
  {
    var q := Route(acc, p);
    CorrectedTargetDescends(acc, q);
    var c := CorrectedTarget(acc, q);
    assert SlotLeaf(acc, q);
    assert Count(c) == |c.points.value|;
    CorrectedRoutedInBounds(acc, p);
    PointsOfList(c, c.points.value + [p]);
  }

  /** One step of the corrected re-insertion loop stores exactly its point. */
  lemma CorrectedLosslessStep(acc: QuadTree, p: Point)
    requires Fed(acc) && Count(acc) < acc.maxPoints && InBounds(acc, p)
    ensures Fed(CorrectedInsert(acc, p)) && SameFrame(CorrectedInsert(acc, p), acc)
    ensures Points(CorrectedInsert(acc, p)) == Points(acc) + multiset{p}
    ensures Count(CorrectedInsert(acc, p)) == Count(acc) + 1
  {
    var q := Route(acc, p);
    var c := CorrectedTarget(acc, q);
    CorrectedTargetTakes(acc, p);
    var c' := c.(points := Some(c.points.value + [p]));
    assert CorrectedInsert(acc, p) == SetChild(acc, q, c');
    SetChildFed(acc, q, c');
    CorrectedTargetDescends(acc, q);
    CountSetChild(acc, q, c');
    PointsSetChild(acc, q, c');
    Cancel(Points(SetChild(acc, q, c')), Points(c), Points(acc), p);
  }

  lemma {:induction false} CorrectedReinsertLossless(acc: QuadTree, pts: seq<Point>)
    requires Fed(acc) && Count(acc) + |pts| <= acc.maxPoints
    requires forall pt :: pt in pts ==> InBounds(acc, pt)
    ensures Points(CorrectedReinsert(acc, pts)) == Points(acc) + multiset(pts)
    decreases |pts|
  {
    if pts != [] {
      assert pts == [pts[0]] + pts[1..];
      assert forall pt :: pt in pts[1..] ==> pt in pts;
      CorrectedLosslessStep(acc, pts[0]);
      CorrectedReinsertLossless(CorrectedInsert(acc, pts[0]), pts[1..]);
    }
  }

  /** With the corrected quadrants, a valid full leaf with nonnegative extents
      keeps exactly its old points through the split, whatever the parity of
      its width and height. */
  lemma CorrectedSplitLossless(t: QuadTree, p: Point)
    requires Valid(t) && t.points.Some? && |t.points.value| >= t.maxPoints
    requires t.w >= 0 && t.h >= 0
    ensures Points(CorrectedInsert(t, p)) == Points(t) == multiset(t.points.value)
  {
    var acc := t.(points := None);
    PointsOfList(t, []);
    assert Points(acc) == multiset{} && Count(acc) == 0;
    forall q ensures SlotLeaf(acc, q) {
    }
    CorrectedReinsertLossless(acc, t.points.value);
  }
}
