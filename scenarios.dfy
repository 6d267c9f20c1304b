/** Concrete runs of `insert_point` and `find_quad` on small trees: the
    out-of-bounds drop, a split that drops its triggering point, the point
    lost at the far edge of an odd region, and two stored points that
    `find_quad` cannot find. */
module QuadTreeScenarios {
  import opened QuadTrees
  import opened QuadTreeInvariants
  import opened QuadTreeFind
  import opened QuadTreeInsertFacts

  /** A 640x640 field with capacity `m` and origin (x, y), as the source's
      driver builds it. */
  function Field(m: nat, x: int, y: int): QuadTree {
    New(m, 640, 640, x, y)
  }

  /** A point outside a fresh 640x640 field leaves the tree as it was, and
      neither lookup reports a node for it. */
  lemma OutOfFieldIsDropped(x: int, y: int)
    ensures var t := Field(4, x, y);
      Insert(t, Point(x + 700, y + 700)) == t
      && FindQuad(t, x + 700, y + 700) == None && Locate(t, x + 700, y + 700) == None
  {
  }

  /** A point outside a split field still creates the bottom-right quadrant
      leaf on its path; that leaf then rejects it and stays, empty. */
  lemma OutOfFieldCreatesLeaf(x: int, y: int)
    ensures var t := Field(4, x, y).(points := None);
      Insert(t, Point(x + 700, y + 700)) == t.(rb := Some(New(4, 320, 320, x + 320, y + 320)))
      && Points(Insert(t, Point(x + 700, y + 700))) == multiset{}
  {
    var t := Field(4, x, y).(points := None);
    var p := Point(x + 700, y + 700);
    assert Route(t, p) == RB;
    InsertInternalUnfold(t, p);
    InsertLeafWithRoom(New(4, 320, 320, x + 320, y + 320), p);
  }

  /** The field after its root split, with only the top-left child present,
      holding `pts`. */
  function TopLeft(x: int, y: int, pts: seq<Point>): QuadTree {
    Field(4, x, y).(points := None, lt := Some(New(4, 320, 320, x, y).(points := Some(pts))))
  }

  predicate InTopLeft(x: int, y: int, p: Point) {
    x <= p.x < x + 320 && y <= p.y < y + 320
  }

  lemma TopLeftTakes(x: int, y: int, pts: seq<Point>, p: Point)
    requires |pts| < 4 && InTopLeft(x, y, p)
    ensures Insert(TopLeft(x, y, pts), p) == TopLeft(x, y, pts + [p])
  {
    var t := TopLeft(x, y, pts);
    assert Route(t, p) == LT;
    InsertInternalUnfold(t, p);
    LeafAppends(New(4, 320, 320, x, y).(points := Some(pts)), p);
  }

  lemma TopLeftFirst(x: int, y: int, p: Point)
    requires InTopLeft(x, y, p)
    ensures Insert(Field(4, x, y).(points := None), p) == TopLeft(x, y, [p])
  {
    var t := Field(4, x, y).(points := None);
    assert Route(t, p) == LT;
    InsertInternalUnfold(t, p);
    LeafAppends(New(4, 320, 320, x, y), p);
    assert [] + [p] == [p];
  }

  lemma {:induction false} TopLeftReinsert(x: int, y: int, pts: seq<Point>, more: seq<Point>)
    requires |pts| + |more| <= 4 && forall p :: p in more ==> InTopLeft(x, y, p)
    ensures Reinsert(TopLeft(x, y, pts), more) == TopLeft(x, y, pts + more)
    decreases |more|
  {
    if more == [] {
      assert pts + more == pts;
    } else {
      ReinsertUnfold(TopLeft(x, y, pts), more);
      TopLeftTakes(x, y, pts, more[0]);
      TopLeftReinsert(x, y, pts + [more[0]], more[1..]);
      assert pts + [more[0]] + more[1..] == pts + more;
    }
  }

  lemma FourFitInRoot(x: int, y: int, a: Point, b: Point, c: Point, d: Point)
    requires InBounds(Field(4, x, y), a) && InBounds(Field(4, x, y), b)
    requires InBounds(Field(4, x, y), c) && InBounds(Field(4, x, y), d)
    ensures Insert(Insert(Insert(Insert(Field(4, x, y), a), b), c), d)
         == Field(4, x, y).(points := Some([a, b, c, d]))
  {
    var n := Field(4, x, y);
    LeafAppends(n, a);
    assert [] + [a] == [a];
    var t1 := n.(points := Some([a]));
    LeafAppends(t1, b);
    var t2 := n.(points := Some([a, b]));
    assert [a] + [b] == [a, b];
    LeafAppends(t2, c);
    var t3 := n.(points := Some([a, b, c]));
    assert [a, b] + [c] == [a, b, c];
    LeafAppends(t3, d);
    assert [a, b, c] + [d] == [a, b, c, d];
  }

  /** A full root whose four points lie in the top-left quadrant splits and
      moves them, in order, into a new top-left child; the incoming point is
      not stored. */
  lemma FullRootSplitsIntoTopLeft(x: int, y: int, pts: seq<Point>, e: Point)
    requires |pts| == 4 && forall p :: p in pts ==> InTopLeft(x, y, p)
    ensures Insert(Field(4, x, y).(points := Some(pts)), e) == TopLeft(x, y, pts)
  {
    var inner := Field(4, x, y).(points := None);
    assert Insert(Field(4, x, y).(points := Some(pts)), e) == Reinsert(inner, pts);
    ReinsertUnfold(inner, pts);
    TopLeftFirst(x, y, pts[0]);
    TopLeftReinsert(x, y, [pts[0]], pts[1..]);
    assert [pts[0]] + pts[1..] == pts;
  }

  lemma TopLeftPoints(x: int, y: int, pts: seq<Point>)
    ensures Points(TopLeft(x, y, pts)) == multiset(pts)
  {
    assert Points(New(4, 320, 320, x, y).(points := Some(pts))) == multiset(pts);
  }

  /** Five points inside the top-left quadrant of a 640x640 field with
      capacity 4: the fifth splits the root, the four old points move, in
      order, to the top-left child, and the fifth, unless it repeats one of
      them, is stored nowhere. */
  lemma FifthPointSplitsRoot(x: int, y: int, a: Point, b: Point, c: Point, d: Point, e: Point)
    requires InTopLeft(x, y, a) && InTopLeft(x, y, b) && InTopLeft(x, y, c) && InTopLeft(x, y, d)
    ensures var t := Insert(Insert(Insert(Insert(Insert(Field(4, x, y), a), b), c), d), e);
      t == TopLeft(x, y, [a, b, c, d]) && (e !in [a, b, c, d] ==> e !in Points(t))
  {
    FourFitInRoot(x, y, a, b, c, d);
    FullRootSplitsIntoTopLeft(x, y, [a, b, c, d], e);
    TopLeftPoints(x, y, [a, b, c, d]);
  }

  /** In a 3x3 region the point on the far corner is contained, but after a
      split it is routed to a 1x1 child that does not contain it, so it is
      lost: the tree ends up holding no point at all. */
  lemma OddRegionLosesPoint(x: int, y: int)
    ensures var t := Insert(New(1, 3, 3, x, y), Point(x + 3, y + 3));
      Points(t) == multiset{Point(x + 3, y + 3)} && Points(Insert(t, Point(x, y))) == multiset{}
  {
    var far := Point(x + 3, y + 3);
    var n := New(1, 3, 3, x, y);
    LeafAppends(n, far);
    assert [] + [far] == [far];
    var t := n.(points := Some([far]));
    OddRegionSplit(x, y);
    assert Points(t) == multiset{far};
    var leaf := New(1, 1, 1, x + 1, y + 1);
    assert Points(leaf) == multiset{};
    assert SubPoints(Some(leaf)) == multiset{};
    assert Points(n.(points := None, rb := Some(leaf))) == multiset{};
  }

  lemma OddRegionSplit(x: int, y: int)
    ensures var far := Point(x + 3, y + 3);
      Insert(New(1, 3, 3, x, y).(points := Some([far])), Point(x, y))
      == New(1, 3, 3, x, y).(points := None, rb := Some(New(1, 1, 1, x + 1, y + 1)))
  {
    var far := Point(x + 3, y + 3);
    var t := New(1, 3, 3, x, y).(points := Some([far]));
    InsertSplits(t, Point(x, y), Point(x, y));
    var inner := t.(points := None);
    ReinsertUnfold(inner, [far]);
    OddRegionReinsert(x, y);
    assert Reinsert(inner.(rb := Some(New(1, 1, 1, x + 1, y + 1))), []) == inner.(rb := Some(New(1, 1, 1, x + 1, y + 1)));
  }

  lemma OddRegionReinsert(x: int, y: int)
    ensures var far := Point(x + 3, y + 3); var inner := New(1, 3, 3, x, y).(points := None);
      Insert(inner, far) == inner.(rb := Some(New(1, 1, 1, x + 1, y + 1)))
  {
    var far := Point(x + 3, y + 3);
    var inner := New(1, 3, 3, x, y).(points := None);
    var rb := New(1, 1, 1, x + 1, y + 1);
    assert Route(inner, far) == RB;
    InsertInternalUnfold(inner, far);
    InsertLeafWithRoom(rb, far);
  }

  /** The tree after inserting o = (x, y), then q = (x + 400, y + 100) twice,
      into a 640x640 field of capacity 1: the second insertion splits the root
      and drops q, the third stores q in the top-right child. */
  function TwoQuadrantTree(x: int, y: int): QuadTree {
    Field(1, x, y).(points := None,
                    lt := Some(New(1, 320, 320, x, y).(points := Some([Point(x, y)]))),
                    rt := Some(New(1, 320, 320, x + 320, y).(points := Some([Point(x + 400, y + 100)]))))
  }

  lemma TwoQuadrantSplit(x: int, y: int)
    ensures var t1 := Field(1, x, y).(points := Some([Point(x, y)]));
      Insert(t1, Point(x + 400, y + 100))
      == Field(1, x, y).(points := None, lt := Some(New(1, 320, 320, x, y).(points := Some([Point(x, y)]))))
  {
    var o := Point(x, y);
    var t1 := Field(1, x, y).(points := Some([o]));
    var inner := t1.(points := None);
    assert Insert(t1, Point(x + 400, y + 100)) == Reinsert(inner, [o]);
    ReinsertUnfold(inner, [o]);
    assert Route(inner, o) == LT;
    InsertInternalUnfold(inner, o);
    LeafAppends(New(1, 320, 320, x, y), o);
    assert [] + [o] == [o];
    var t2 := inner.(lt := Some(New(1, 320, 320, x, y).(points := Some([o]))));
    assert Reinsert(t2, []) == t2;
  }

  lemma TwoQuadrantStore(x: int, y: int)
    ensures var t2 := Field(1, x, y).(points := None, lt := Some(New(1, 320, 320, x, y).(points := Some([Point(x, y)]))));
      Insert(t2, Point(x + 400, y + 100)) == TwoQuadrantTree(x, y)
  {
    var q := Point(x + 400, y + 100);
    var t2 := Field(1, x, y).(points := None, lt := Some(New(1, 320, 320, x, y).(points := Some([Point(x, y)]))));
    assert Route(t2, q) == RT;
    InsertInternalUnfold(t2, q);
    LeafAppends(New(1, 320, 320, x + 320, y), q);
    assert [] + [q] == [q];
  }

  lemma TwoQuadrantTreeIsReachable(x: int, y: int)
    ensures Insert(Insert(Insert(Field(1, x, y), Point(x, y)), Point(x + 400, y + 100)), Point(x + 400, y + 100))
         == TwoQuadrantTree(x, y)
    ensures Valid(TwoQuadrantTree(x, y))
  {
    var n := Field(1, x, y);
    LeafAppends(n, Point(x, y));
    assert [] + [Point(x, y)] == [Point(x, y)];
    TwoQuadrantSplit(x, y);
    TwoQuadrantStore(x, y);
    NewIsEmptyValidLeaf(1, 640, 640, x, y);
    InsertValid(n, Point(x, y));
    InsertValid(Insert(n, Point(x, y)), Point(x + 400, y + 100));
    InsertValid(Insert(Insert(n, Point(x, y)), Point(x + 400, y + 100)), Point(x + 400, y + 100));
  }

  /** `find_quad` misses a point stored in a valid tree: it descends into the
      top-left child, whose bounds exclude the query. The routed lookup finds
      the leaf that holds it. */
  lemma FindQuadMissesStoredPoint(x: int, y: int)
    ensures var t := TwoQuadrantTree(x, y);
      Valid(t) && Point(x + 400, y + 100) in Points(t)
      && FindQuad(t, x + 400, y + 100) == None
      && Locate(t, x + 400, y + 100) == Some(New(1, 320, 320, x + 320, y).(points := Some([Point(x + 400, y + 100)])))
  {
    TwoQuadrantTreeIsReachable(x, y);
    var t := TwoQuadrantTree(x, y);
    var rt := New(1, 320, 320, x + 320, y).(points := Some([Point(x + 400, y + 100)]));
    assert Point(x + 400, y + 100) in Points(rt);
    assert Route(t, Point(x + 400, y + 100)) == RT;
  }

  /** `find_quad` does find the leaf holding (x, y) in that tree: the
      first-present-child descent happens to reach the top-left leaf. */
  lemma FindQuadFindsTopLeft(x: int, y: int)
    ensures var t := TwoQuadrantTree(x, y);
      FindQuad(t, x, y) == Some(New(1, 320, 320, x, y).(points := Some([Point(x, y)])))
      && FindQuad(t, x, y) == FirstLeaf(t)
  {
  }

  /** The half-height bounds test of `find_quad`: a root leaf holding
      (x + 10, y + 500) in a 640x640 field is not reported for that point,
      while the routed lookup reports the root. */
  lemma FindQuadMissesLowerHalf(x: int, y: int)
    ensures var t := Insert(Field(4, x, y), Point(x + 10, y + 500));
      Point(x + 10, y + 500) in Points(t) && FindQuad(t, x + 10, y + 500) == None
      && Locate(t, x + 10, y + 500) == Some(t)
  {
    LeafAppends(Field(4, x, y), Point(x + 10, y + 500));
    assert [] + [Point(x + 10, y + 500)] == [Point(x + 10, y + 500)];
  }
}
