/** The integer point quadtree of src/main.rs: its nodes, `QuadTree::new` and
    `QuadTree::insert_point`.

    A node is modelled as a value that mirrors the Rust struct field for field.
    `insert_point(&mut self, ..)` is modelled by `InsertPoint`, which returns the
    updated node; every node is owned by exactly one parent (`Option<Box<..>>`),
    so nothing else can observe the difference between updating in place and
    replacing the node by its new value. `Insert` is the specification function
    that `InsertPoint` is proved against. */
module QuadTrees {

  datatype Option<T> = None | Some(value: T)

  /** A point with `i32` coordinates; coordinates are unbounded integers here. */
  datatype Point = Point(x: int, y: int)

  /** One node of the tree. `points == Some(..)` marks a leaf holding its points in
      insertion order; `points == None` marks an internal node, whose four child
      slots (top-left, bottom-left, top-right, bottom-right) fill lazily. */
  datatype QuadTree = QuadTree(
    maxPoints: nat,
    w: int,
    h: int,
    x: int,
    y: int,
    points: Option<seq<Point>>,
    lt: Option<QuadTree>,
    lb: Option<QuadTree>,
    rt: Option<QuadTree>,
    rb: Option<QuadTree>)

  /** The four child slots, in the order the source enumerates them. */
  datatype Quadrant = LT | LB | RT | RB

  /** Rust's `a / 2` on `i32`: the quotient truncated toward zero, so the
      remainder `a - 2 * r` has the sign of `a`. */
  function Half(a: int): (r: int)
    ensures 0 <= a ==> 0 <= r && 0 <= a - 2 * r <= 1
    ensures a < 0 ==> r <= 0 && -1 <= a - 2 * r <= 0
  {
    if a >= 0 then a / 2 else -((-a) / 2)
  }

  /** `QuadTree::new`: an empty leaf over the given region, holding no point
      at or below it, with exactly the given capacity, extents and origin. */
  function New(maxPoints: nat, w: int, h: int, x: int, y: int): (r: QuadTree)
    ensures r.points == Some([]) && Points(r) == multiset{} && Count(r) == 0 && Depth(r) == 0
    ensures r.maxPoints == maxPoints && r.w == w && r.h == h && r.x == x && r.y == y
  {
    QuadTree(maxPoints, w, h, x, y, Some([]), None, None, None, None)
  }

  /** The inclusive bounds test a leaf applies before storing a point. */
  predicate InBounds(t: QuadTree, p: Point) {
    t.x <= p.x <= t.x + t.w && t.y <= p.y <= t.y + t.h
  }

  /** The slot an internal node sends `p` to: right when `p.x` reaches the
      horizontal midpoint, bottom when `p.y` reaches the vertical one. */
  function Route(t: QuadTree, p: Point): (q: Quadrant)
    ensures (q == RT || q == RB) <==> p.x >= t.x + Half(t.w)
    ensures (q == LB || q == RB) <==> p.y >= t.y + Half(t.h)
  {
    if p.x >= t.x + Half(t.w) then
      if p.y >= t.y + Half(t.h) then RB else RT
    else
      if p.y >= t.y + Half(t.h) then LB else LT
  }

  function Child(t: QuadTree, q: Quadrant): Option<QuadTree> {
    match q
    case LT => t.lt
    case LB => t.lb
    case RT => t.rt
    case RB => t.rb
  }

  function SetChild(t: QuadTree, q: Quadrant, c: QuadTree): (r: QuadTree)
    ensures Child(r, q) == Some(c)
    ensures forall q' :: q' != q ==> Child(r, q') == Child(t, q')
    ensures r.(lt := t.lt, lb := t.lb, rt := t.rt, rb := t.rb) == t
  {
    match q
    case LT => t.(lt := Some(c))
    case LB => t.(lb := Some(c))
    case RT => t.(rt := Some(c))
    case RB => t.(rb := Some(c))
  }

  /** Left edge of the child region of slot `q`. */
  function OriginX(t: QuadTree, q: Quadrant): int {
    if q == RT || q == RB then t.x + Half(t.w) else t.x
  }

  /** Top edge of the child region of slot `q`. */
  function OriginY(t: QuadTree, q: Quadrant): int {
    if q == LB || q == RB then t.y + Half(t.h) else t.y
  }

  /** The leaf the source creates for an empty slot `q`: an empty leaf with
      the parent's capacity, half its extents (truncated) and the quadrant's
      origin. With nonnegative extents its region lies inside the parent's. */
  function QuadrantLeaf(t: QuadTree, q: Quadrant): (r: QuadTree)
    ensures r.points == Some([]) && Count(r) == 0 && r.maxPoints == t.maxPoints
    ensures r.w == Half(t.w) && r.h == Half(t.h)
    ensures r.x == (if q == RT || q == RB then t.x + Half(t.w) else t.x)
    ensures r.y == (if q == LB || q == RB then t.y + Half(t.h) else t.y)
    ensures 0 <= t.w ==> t.x <= r.x && r.x + r.w <= t.x + t.w
    ensures 0 <= t.h ==> t.y <= r.y && r.y + r.h <= t.y + t.h
  {
    New(t.maxPoints, Half(t.w), Half(t.h), OriginX(t, q), OriginY(t, q))
  }

  /** The node an insertion into slot `q` recurses into: the existing child,
      or the quadrant leaf the source creates for an empty slot. */
  function Target(t: QuadTree, q: Quadrant): QuadTree {
    if Child(t, q).Some? then Child(t, q).value else QuadrantLeaf(t, q)
  }

  /** All points stored at or below `t`, leaves and (ill-shaped) internal lists alike. */
  function Points(t: QuadTree): multiset<Point>
    decreases t
  {
    (if t.points.Some? then multiset(t.points.value) else multiset{})
    + SubPoints(t.lt) + SubPoints(t.lb) + SubPoints(t.rt) + SubPoints(t.rb)
  }

  function SubPoints(o: Option<QuadTree>): multiset<Point>
    decreases o
  {
    match o
    case None => multiset{}
    case Some(c) => Points(c)
  }

  /** How many points are stored at or below `t`. */
  function Count(t: QuadTree): nat
    decreases t
  {
    (if t.points.Some? then |t.points.value| else 0)
    + SubCount(t.lt) + SubCount(t.lb) + SubCount(t.rt) + SubCount(t.rb)
  }

  function SubCount(o: Option<QuadTree>): nat
    decreases o
  {
    match o
    case None => 0
    case Some(c) => Count(c)
  }

  function Max(a: nat, b: nat): nat {
    if a < b then b else a
  }

  /** Height of the tree, with internal nodes weighing one more than leaves, so
      that even a fresh leaf is lower than the internal node creating it. */
  function Depth(t: QuadTree): nat
    decreases t
  {
    (if t.points.None? then 1 else 0)
    + Max(Max(SubDepth(t.lt), SubDepth(t.lb)), Max(SubDepth(t.rt), SubDepth(t.rb)))
  }

  function SubDepth(o: Option<QuadTree>): nat
    decreases o
  {
    match o
    case None => 0
    case Some(c) => Depth(c) + 1
  }

  /** Region and capacity of a node; no operation ever changes them. */
  predicate SameFrame(a: QuadTree, b: QuadTree) {
    a.maxPoints == b.maxPoints && a.w == b.w && a.h == b.h && a.x == b.x && a.y == b.y
  }

  /** Replacing slot `q` swaps that child's count for the new child's. */
  lemma CountSetChild(t: QuadTree, q: Quadrant, c: QuadTree)
    ensures Count(SetChild(t, q, c)) + SubCount(Child(t, q)) == Count(t) + Count(c)
  {
  }

  /** The recursion into slot `q` of an internal node descends. */
  lemma TargetDescends(t: QuadTree, q: Quadrant)
    requires t.points.None?
    ensures Count(Target(t, q)) == SubCount(Child(t, q)) <= Count(t)
    ensures Depth(Target(t, q)) < Depth(t)
  {
    CountSetChild(t, q, New(0, 0, 0, 0, 0));
    if Child(t, q).None? {
      assert Depth(QuadrantLeaf(t, q)) == 0;
    }
  }

  /** `insert_point`, as a function. An internal node routes the point to one
      slot, creating the quadrant leaf if the slot is empty. A full leaf becomes
      internal and re-inserts its old points in order; the incoming point is not
      stored. A leaf with room stores the point if it lies in its bounds and
      otherwise stays unchanged. Region and capacity never change, and the
      tree gains at most one point. */
  function Insert(t: QuadTree, p: Point): (r: QuadTree)
    ensures SameFrame(r, t)
    ensures Count(r) <= Count(t) + 1
    decreases Count(t), 1, Depth(t)
  {
    if t.points.None? then
      var q := Route(t, p);
      TargetDescends(t, q);
      var c := Insert(Target(t, q), p);
      CountSetChild(t, q, c);
      SetChild(t, q, c)
    else if |t.points.value| >= t.maxPoints then
      Reinsert(t.(points := None), t.points.value)
    else if !InBounds(t, p) then
      t
    else
      t.(points := Some(t.points.value + [p]))
  }

  /** The re-insertion loop of a split: each old point, in order, inserted into
      the node that has just become internal. */
  function Reinsert(acc: QuadTree, pts: seq<Point>): (r: QuadTree)
    ensures SameFrame(r, acc)
    ensures Count(r) <= Count(acc) + |pts|
    decreases Count(acc) + |pts|, 0, |pts|
  {
    if pts == [] then
      acc
    else
      Reinsert(Insert(acc, pts[0]), pts[1..])
  }

  /** `insert_point` as the source runs it: recursion into one child, or a loop
      that re-inserts the cloned points of a full leaf into the node itself. */
  method InsertPoint(t: QuadTree, p: Point) returns (r: QuadTree)
    ensures r == Insert(t, p)
    decreases Count(t), 1, Depth(t)
  {
    if t.points.None? {
      var half_w, half_h := Half(t.w), Half(t.h);
      if p.x >= t.x + half_w {
        if p.y >= t.y + half_h {
          assert Route(t, p) == RB;
          TargetDescends(t, RB);
          var rb := if t.rb.Some? then t.rb.value else New(t.maxPoints, half_w, half_h, t.x + half_w, t.y + half_h);
          rb := InsertPoint(rb, p);
          r := t.(rb := Some(rb));
          assert r == Insert(t, p);
        } else {
          assert Route(t, p) == RT;
          TargetDescends(t, RT);
          var rt := if t.rt.Some? then t.rt.value else New(t.maxPoints, half_w, half_h, t.x + half_w, t.y);
          rt := InsertPoint(rt, p);
          r := t.(rt := Some(rt));
          assert r == Insert(t, p);
        }
      } else {
        if p.y >= t.y + half_h {
          assert Route(t, p) == LB;
          TargetDescends(t, LB);
          var lb := if t.lb.Some? then t.lb.value else New(t.maxPoints, half_w, half_h, t.x, t.y + half_h);
          lb := InsertPoint(lb, p);
          r := t.(lb := Some(lb));
          assert r == Insert(t, p);
        } else {
          assert Route(t, p) == LT;
          TargetDescends(t, LT);
          var lt := if t.lt.Some? then t.lt.value else New(t.maxPoints, half_w, half_h, t.x, t.y);
          lt := InsertPoint(lt, p);
          r := t.(lt := Some(lt));
          assert r == Insert(t, p);
        }
      }
    } else {
      var pts := t.points.value;
      if |pts| >= t.maxPoints {
        var cloned := pts;
        r := t.(points := None);
        var i := 0;
        assert cloned[i..] == cloned;
        while i < |cloned|
          invariant i <= |cloned|
          invariant Reinsert(r, cloned[i..]) == Insert(t, p)
          invariant Count(r) + (|cloned| - i) <= Count(t)
        {
          assert cloned[i..][1..] == cloned[i + 1..];
          r := InsertPoint(r, cloned[i]);
          i := i + 1;
        }
        assert cloned[i..] == [];
        assert r == Insert(t, p);
      } else if !InBounds(t, p) {
        r := t;
        assert r == Insert(t, p);
      } else {
        r := t.(points := Some(pts + [p]));
        assert r == Insert(t, p);
      }
    }
  }
}
