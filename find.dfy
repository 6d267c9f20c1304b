/** `QuadTree::find_quad` as written, and a quadrant-routed lookup that finds
    every stored point. */
module QuadTreeFind {
  import opened QuadTrees
  import opened QuadTreeInvariants
  import opened QuadTreeInsertFacts

  /** `s` is `t` itself or a node below it. */
  predicate IsSubtree(s: QuadTree, t: QuadTree)
    decreases t
  {
    s == t || SubtreeOf(s, t.lt) || SubtreeOf(s, t.lb) || SubtreeOf(s, t.rt) || SubtreeOf(s, t.rb)
  }

  predicate SubtreeOf(s: QuadTree, o: Option<QuadTree>)
    decreases o
  {
    o.Some? && IsSubtree(s, o.value)
  }

  /** `find_quad`, quirks kept: the bounds test stops at `y + h/2` instead of
      `y + h`, and an internal node hands the query to its first present child
      in the order lt, lb, rt, rb, whatever quadrant the point is in. Whatever
      it returns is a leaf of the tree, and the query passed the root's test. */
  function FindQuad(t: QuadTree, x: int, y: int): (r: Option<QuadTree>)
    ensures r.Some? ==> r.value.points.Some? && IsSubtree(r.value, t)
    ensures r.Some? ==> t.x <= x <= t.x + t.w && t.y <= y <= t.y + Half(t.h)
    decreases t
  {
    if (t.x > x || t.x + t.w < x) || (t.y > y || t.y + Half(t.h) < y) then
      None
    else if t.points.None? then
      if t.lt.Some? then FindQuad(t.lt.value, x, y)
      else if t.lb.Some? then FindQuad(t.lb.value, x, y)
      else if t.rt.Some? then FindQuad(t.rt.value, x, y)
      else if t.rb.Some? then FindQuad(t.rb.value, x, y)
      else None
    else
      Some(t)
  }

  /** The first-child quirk of `find_quad`: every query it answers at all gets
      the same leaf, the one reached by always taking the first present child
      in the order lt, lb, rt, rb, whatever quadrant the query lies in. */
  /** The leaf reached from `t` by always descending into the first present
      child in the order lt, lb, rt, rb; nothing when that descent ends at an
      internal node without children. No query takes part. */
  function FirstLeaf(t: QuadTree): (r: Option<QuadTree>)
    ensures r.Some? ==> r.value.points.Some? && IsSubtree(r.value, t)
    decreases t
  {
    if t.points.Some? then Some(t)
    else if t.lt.Some? then FirstLeaf(t.lt.value)
    else if t.lb.Some? then FirstLeaf(t.lb.value)
    else if t.rt.Some? then FirstLeaf(t.rt.value)
    else if t.rb.Some? then FirstLeaf(t.rb.value)
    else None
  }

  /** Whatever the query, `find_quad` answers either nothing or the leaf of
      the first-present-child descent. */
  lemma {:induction false} FindQuadIsFirstLeaf(t: QuadTree, x: int, y: int)
    ensures FindQuad(t, x, y) == None || FindQuad(t, x, y) == FirstLeaf(t)
    decreases t
  {
    if t.points.None? {
      if t.lt.Some? {
        FindQuadIsFirstLeaf(t.lt.value, x, y);
      } else if t.lb.Some? {
        FindQuadIsFirstLeaf(t.lb.value, x, y);
      } else if t.rt.Some? {
        FindQuadIsFirstLeaf(t.rt.value, x, y);
      } else if t.rb.Some? {
        FindQuadIsFirstLeaf(t.rb.value, x, y);
      }
    }
  }

  /** The nodes the first-present-child descent visits, from `t` down to
      the node where it stops. */
  function FirstPath(t: QuadTree): (r: seq<QuadTree>)
    ensures |r| >= 1 && r[0] == t
    ensures forall n :: n in r ==> IsSubtree(n, t)
    decreases t
  {
    [t] + (if t.points.Some? then []
           else if t.lt.Some? then FirstPath(t.lt.value)
           else if t.lb.Some? then FirstPath(t.lb.value)
           else if t.rt.Some? then FirstPath(t.rt.value)
           else if t.rb.Some? then FirstPath(t.rb.value)
           else [])
  }

  /** The bounds test of `find_quad` at node `n`, with its half-height
      bottom edge. */
  predicate HalfBox(n: QuadTree, x: int, y: int) {
    n.x <= x <= n.x + n.w && n.y <= y <= n.y + Half(n.h)
  }

  /** Exactly when `find_quad` answers: it returns the first-present-child
      leaf when the query passes the half-height test at every node of the
      descent, and nothing as soon as one node rejects it. */
  lemma {:induction false} FindQuadIsGuardedFirstLeaf(t: QuadTree, x: int, y: int)
    ensures FindQuad(t, x, y)
         == if forall n :: n in FirstPath(t) ==> HalfBox(n, x, y) then FirstLeaf(t) else None
    decreases t
  {
    var rest := FirstPath(t)[1..];
    assert FirstPath(t) == [t] + rest;
    assert (forall n :: n in FirstPath(t) ==> HalfBox(n, x, y))
       <==> HalfBox(t, x, y) && forall n :: n in rest ==> HalfBox(n, x, y);
    if t.points.None? {
      if t.lt.Some? {
        FindQuadIsGuardedFirstLeaf(t.lt.value, x, y);
      } else if t.lb.Some? {
        FindQuadIsGuardedFirstLeaf(t.lb.value, x, y);
      } else if t.rt.Some? {
        FindQuadIsGuardedFirstLeaf(t.rt.value, x, y);
      } else if t.rb.Some? {
        FindQuadIsGuardedFirstLeaf(t.rb.value, x, y);
      }
    }
  }

  /** Any two queries that `find_quad` answers get the same leaf: the
      quadrant of the query plays no part in the descent. */
  lemma FindQuadIgnoresQuery(t: QuadTree, x1: int, y1: int, x2: int, y2: int)
    requires FindQuad(t, x1, y1).Some? && FindQuad(t, x2, y2).Some?
    ensures FindQuad(t, x1, y1) == FindQuad(t, x2, y2)
  {
    FindQuadIsFirstLeaf(t, x1, y1);
    FindQuadIsFirstLeaf(t, x2, y2);
  }

  /** On a leaf, `find_quad` returns the leaf itself exactly when the query
      passes the bounds test with its half-height bottom edge. */
  lemma FindQuadOnLeaf(t: QuadTree, x: int, y: int)
    requires t.points.Some?
    ensures FindQuad(t, x, y) == Some(t) <==> t.x <= x <= t.x + t.w && t.y <= y <= t.y + Half(t.h)
    ensures FindQuad(t, x, y) != Some(t) ==> FindQuad(t, x, y) == None
  {
  }

  /** A lookup that routes like `insert_point` does: the full inclusive bounds
      at every node, and descent into the quadrant the point belongs to. */
  function Locate(t: QuadTree, x: int, y: int): (r: Option<QuadTree>)
    ensures r.Some? ==> r.value.points.Some? && IsSubtree(r.value, t) && InBounds(r.value, Point(x, y))
    decreases t
  {
    var p := Point(x, y);
    if !InBounds(t, p) then
      None
    else if t.points.Some? then
      Some(t)
    else
      match Route(t, p)
      case LT => if t.lt.Some? then Locate(t.lt.value, x, y) else None
      case LB => if t.lb.Some? then Locate(t.lb.value, x, y) else None
      case RT => if t.rt.Some? then Locate(t.rt.value, x, y) else None
      case RB => if t.rb.Some? then Locate(t.rb.value, x, y) else None
  }

  /** A point stored below an internal node is stored below one of its children. */
  lemma StoredInSomeSlot(t: QuadTree, pt: Point)
    requires t.points.None? && pt in Points(t)
    ensures exists q :: Child(t, q).Some? && pt in Points(Child(t, q).value)
  {
    if pt in SubPoints(t.lt) {
      assert Child(t, LT).Some? && pt in Points(Child(t, LT).value);
    } else if pt in SubPoints(t.lb) {
      assert Child(t, LB).Some? && pt in Points(Child(t, LB).value);
    } else if pt in SubPoints(t.rt) {
      assert Child(t, RT).Some? && pt in Points(Child(t, RT).value);
    } else {
      assert Child(t, RB).Some? && pt in Points(Child(t, RB).value);
    }
  }

  /** In a valid tree with nonnegative extents, the routed lookup of a stored
      point's coordinates reaches a leaf that holds that point. */
  lemma {:induction false} LocateFindsStored(t: QuadTree, pt: Point)
    requires Valid(t) && t.w >= 0 && t.h >= 0 && pt in Points(t)
    ensures var r := Locate(t, pt.x, pt.y); r.Some? && pt in r.value.points.value
    decreases t
  {
    AllPointsInRegion(t);
    assert InBounds(t, Point(pt.x, pt.y));
    if t.points.Some? {
      assert Points(t) == multiset(t.points.value);
    } else {
      StoredInSomeSlot(t, pt);
      var q :| Child(t, q).Some? && pt in Points(Child(t, q).value);
      ValidChild(t, q);
      var c := Child(t, q).value;
      assert Route(t, pt) == q;
      match q
      case LT => LocateFindsStored(c, pt);
      case LB => LocateFindsStored(c, pt);
      case RT => LocateFindsStored(c, pt);
      case RB => LocateFindsStored(c, pt);
    }
  }
}
