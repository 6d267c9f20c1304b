# Integer point quadtree

A model of the point quadtree in `src/main.rs`. A `QuadTree` node covers the
inclusive region `x ..= x + w` by `y ..= y + h` and has a capacity
`max_points`. It is either a leaf holding a list of points, or an internal
node without a list, whose four child slots (top-left, bottom-left,
top-right, bottom-right) are filled lazily. The model covers:

- the node and point records;
- `QuadTree::new`;
- `QuadTree::insert_point`, with its routing, its bounds test and the split
  of a full leaf;
- `QuadTree::find_quad`, with both of its quirks kept.

The modules are:

- `QuadTrees` (quadtree.dfy): the data model and Rust's truncating `/ 2`.
  It defines `New` and `Insert`, the specification function of
  `insert_point` (with `Reinsert`, the re-insertion loop of a split), and the
  method `InsertPoint`, which follows the source's recursion and loop and is
  proved equal to `Insert`.
- `QuadTreeInvariants` (invariants.dfy): the tree invariant `Valid`, which
  `new` establishes and every insertion keeps, and accounting of the stored
  points.
- `QuadTreeInsertFacts` (insert_facts.dfy): what one insertion does at an
  internal node, at a leaf with room and at a full leaf; where stored points
  lie; when a split loses nothing.
- `QuadTreeFind` (find.dfy): `find_quad` as written, and a lookup routed the
  way `insert_point` routes. In a valid tree with nonnegative extents the
  routed lookup is proved to find every stored point; `NewIsEmptyValidLeaf`
  and `InsertValid` show that every tree built by `new` and insertions is
  valid.
- `QuadTreeCorrected` (corrected.dfy): `insert_point` with quadrant children
  whose right and bottom extents are `w - w/2` and `h - h/2`, so that they
  cover the parent's inclusive region; with this change a split keeps every
  point for any nonnegative extents.
- `QuadTreeScenarios` (scenarios.dfy): concrete insertion sequences over a
  symbolic origin `(x, y)` that show the drop, the split and the two ways
  `find_quad` misses a stored point.

## Model

| member | source | states |
|---|---|---|
| QuadTrees.Half | src/main.rs:42-55 | Rust's `/ 2` on `i32` truncates toward zero: for `a >= 0` the remainder `a - 2r` is 0 or 1; for `a < 0` it is 0 or -1 |
| QuadTrees.New | src/main.rs:25-38 | `new` gives a leaf with an empty list, no stored points, depth 0, and exactly the given capacity, extents and origin |
| QuadTrees.Route | src/main.rs:42-44 | the slot is a right one iff `p.x >= x + w/2` and a bottom one iff `p.y >= y + h/2` |
| QuadTrees.QuadrantLeaf | src/main.rs:49-55 | the child created for an empty slot is an empty leaf with the parent's capacity, half its extents and the quadrant's origin, and with nonnegative extents its region lies inside the parent's |
| QuadTrees.SetChild | src/main.rs:57 | filling slot `q` puts the child there and leaves every other slot and every other field as it was |
| QuadTrees.TargetDescends | src/main.rs:46-100 | the recursion into a slot of an internal node reaches a node with no more stored points and a strictly smaller depth, so `insert_point` terminates |
| QuadTrees.Insert | src/main.rs:40-123 | region and capacity of the node never change, and the tree gains at most one stored point per insertion |
| QuadTrees.Reinsert | src/main.rs:107-111 | the re-insertion loop keeps region and capacity and stores at most as many points as it feeds in |
| QuadTrees.InsertPoint | src/main.rs:40-123 | `insert_point`, with its four routing branches, its recursion into the lazily created child and its re-insertion loop, leaves exactly the tree given by the specification `Insert` |
| QuadTreeInvariants.NewIsEmptyValidLeaf | src/main.rs:25-38 | `new` yields a valid leaf with an empty list, no children, no stored points and exactly the given capacity, extents and origin |
| QuadTreeInvariants.InsertKeepsInternal | src/main.rs:41-108 | an internal node stays internal after an insertion; it never reverts to a leaf |
| QuadTreeInvariants.InsertValid | src/main.rs:40-123 | every insertion keeps the invariant: a leaf has no children, holds at most `max_points` points and only points in its inclusive region; an internal node has no list; each child has the parent's capacity, half its extents, its quadrant's origin, and only points the parent routes to that slot |
| QuadTreeInvariants.ReinsertValid | src/main.rs:107-111 | the re-insertion loop keeps the invariant |
| QuadTreeInvariants.CountIsSize | src/main.rs:42-55 | the point count used for the growth bound is the number of stored points, counted with multiplicity |
| QuadTreeInvariants.InsertStoresNothingElse | src/main.rs:40-123 | after an insertion the stored points are contained, with multiplicity, in the old ones plus the inserted point |
| QuadTreeInvariants.ReinsertStoresNothingElse | src/main.rs:107-111 | re-insertion stores nothing but the old contents and the re-inserted points |
| QuadTreeInvariants.PointsSetChild | src/main.rs:46-100 | replacing one child swaps exactly that child's points for the new child's |
| QuadTreeInsertFacts.InsertRoutes | src/main.rs:42-102 | at an internal node the point goes right iff `p.x >= x + w/2` and bottom iff `p.y >= y + h/2`; it is inserted into that child, or into a fresh leaf of half the extents at the matching origin when the slot is empty; every other slot is unchanged |
| QuadTreeInsertFacts.InsertLeafWithRoom | src/main.rs:112-120 | a leaf that is not full appends the point when it is in the inclusive region, and otherwise is left exactly as it was |
| QuadTreeInsertFacts.InsertSplits | src/main.rs:105-111 | a full leaf always becomes internal and re-inserts its old points in order; the incoming point does not matter (the result is the same for any point, even one outside the region) and is stored nowhere unless it was stored before |
| QuadTreeInsertFacts.AllPointsInRegion | src/main.rs:113-119 | in a valid tree with nonnegative extents every stored point lies in the inclusive region of every node above it |
| QuadTreeInsertFacts.RoutedInBounds | src/main.rs:42-102 | with even, nonnegative extents a point inside a node lies inside the region of the quadrant it is routed to |
| QuadTreeInsertFacts.LosslessStep | src/main.rs:109-110 | during a split with even extents, re-inserting one in-region point stores exactly that point |
| QuadTreeInsertFacts.ReinsertLossless | src/main.rs:107-111 | during a split with even extents the re-insertion loop stores exactly the fed-in points |
| QuadTreeInsertFacts.SplitLossless | src/main.rs:105-113 | when a valid full leaf with even, nonnegative width and height splits, the tree holds exactly its old points afterwards, and is valid |
| QuadTreeFind.FindQuad | src/main.rs:126-142 | `find_quad` as written; any node it returns is a leaf and a subtree of the queried node, and the query passed the half-height bounds test |
| QuadTreeFind.FirstLeaf | src/main.rs:131-137 | the descent that always takes the first present child in the order lt, lb, rt, rb ends, if anywhere, at a leaf below the node |
| QuadTreeFind.FindQuadIsFirstLeaf | src/main.rs:128-141 | for every query, `find_quad` answers nothing or the leaf of the first-present-child descent, whatever quadrant the query lies in |
| QuadTreeFind.FindQuadIsGuardedFirstLeaf | src/main.rs:128-141 | `find_quad` returns the first-present-child leaf exactly when the query passes the half-height bounds test at every node of that descent, and nothing as soon as one node rejects it |
| QuadTreeFind.FindQuadOnLeaf | src/main.rs:128-140 | on a leaf, `find_quad` returns the leaf itself exactly when the query lies in `x ..= x + w` by `y ..= y + h/2`, and nothing otherwise |
| QuadTreeFind.FindQuadIgnoresQuery | src/main.rs:131-137 | any two queries that `find_quad` answers get the same leaf, so the answer never depends on the query's quadrant |
| QuadTreeFind.Locate | src/main.rs:42-102 | the routed lookup returns only a leaf below the queried node whose inclusive region holds the queried point |
| QuadTreeFind.LocateFindsStored | src/main.rs:42-119 | in a valid tree with nonnegative extents the routed lookup of a stored point reaches the leaf that holds it |
| QuadTreeScenarios.OutOfFieldIsDropped | src/main.rs:113-118 | a point outside a fresh 640 by 640 field leaves it unchanged, and no lookup reports a node for it |
| QuadTreeScenarios.OutOfFieldCreatesLeaf | src/main.rs:44-57 | a point outside a split 640 by 640 field still creates the empty bottom-right quadrant leaf on its path, which rejects it and stays, so the tree changes but stores no point |
| QuadTreeScenarios.FourFitInRoot | src/main.rs:112-120 | four in-region points fill a root of capacity 4 in insertion order |
| QuadTreeScenarios.FullRootSplitsIntoTopLeft | src/main.rs:105-111 | a full root whose points lie in the top-left quadrant splits into a single top-left child that holds them in order |
| QuadTreeScenarios.FifthPointSplitsRoot | src/main.rs:105-120 | the fifth top-left point into a 640 by 640 root of capacity 4 splits it; the top-left child holds the first four in order, and the fifth is stored nowhere unless it repeats one of them |
| QuadTreeScenarios.OddRegionLosesPoint | src/main.rs:51-114 | in a 3 by 3 region of capacity 1 the far corner is stored, but the next insertion splits the leaf and re-inserts it into a 1 by 1 child that excludes it, so the tree holds no point at all |
| QuadTreeScenarios.TwoQuadrantTreeIsReachable | src/main.rs:40-123 | inserting `(x, y)` and then `(x + 400, y + 100)` twice into a 640 by 640 field of capacity 1 gives a valid tree with a top-left and a top-right leaf |
| QuadTreeScenarios.FindQuadMissesStoredPoint | src/main.rs:131-137 | in that valid tree `find_quad` does not find the stored point `(x + 400, y + 100)`, while the routed lookup reaches the top-right leaf holding it |
| QuadTreeScenarios.FindQuadFindsTopLeft | src/main.rs:131-140 | in that tree `find_quad` for `(x, y)` returns the top-left leaf holding it, which is the first-present-child leaf |
| QuadTreeScenarios.FindQuadMissesLowerHalf | src/main.rs:128 | a root leaf holding `(x + 10, y + 500)` in a 640 by 640 field is not reported by `find_quad` for that point, but is by the routed lookup |
| QuadTreeCorrected.CorrectedQuadrantLeaf | src/main.rs:49-55 | the corrected child of slot `q` is an empty childless leaf with the parent's capacity and the quadrant's origin, and with nonnegative extents it lies inside the parent's region |
| QuadTreeCorrected.CorrectedRoutedInBounds | src/main.rs:42-55 | with nonnegative extents of any parity, a point inside a node lies inside the corrected child it is routed to |
| QuadTreeCorrected.CorrectedInsert | src/main.rs:40-123 | the corrected insertion keeps the region and capacity of the node and gains at most one stored point |
| QuadTreeCorrected.CorrectedReinsert | src/main.rs:107-111 | the corrected re-insertion loop keeps region and capacity and stores at most as many points as it feeds in |
| QuadTreeCorrected.CorrectedLosslessStep | src/main.rs:109-110 | during a corrected split, re-inserting one in-region point stores exactly that point |
| QuadTreeCorrected.CorrectedReinsertLossless | src/main.rs:107-111 | the corrected re-insertion loop stores exactly the fed-in points |
| QuadTreeCorrected.CorrectedSplitLossless | src/main.rs:105-113 | with the corrected children, a valid full leaf with nonnegative width and height, odd or even, holds exactly its old points after the split |

## Left out

- `draw` and `main` are rendering and driver code (raylib calls, random `f64` points, the frame loop); they are not part of this model.
- The two `println!` diagnostics are output only. A leaf with room that rejects an out-of-region point is left unchanged, but the insertion as a whole can still change the tree, in the model as in the source. An internal node first creates the empty quadrant leaf on the point's path and keeps it after the drop. A full leaf splits whatever the incoming point is, even one outside its region.
- A per-tick motion or collision updater has no code in `src/main.rs`, so there is nothing to model.
- `i32` overflow of `x + w`, `x + w / 2` and the like is not modelled: coordinates and extents are unbounded integers. Rust's truncating division is modelled exactly, for any sign.
- `usize` for `max_points` is a `nat`.
- QuadTrees.InsertPoint: in-place update through `&mut self` and the heap-allocated `Box` children are not modelled; the method returns the updated node as a value. Children are `Option<Box<..>>`, owned by exactly one parent, so no other part of the program can observe the difference. The re-insertion loop of a split becomes a `while` loop in `InsertPoint` over a copy of the old list, as in the source.
- `find_quad` takes `&self` and changes nothing, so repeated calls agree. The model gets this for free by being a function and no separate lemma states it.
- On a split the source itself does not store the incoming point. The model follows the code, and `InsertSplits` and `FifthPointSplitsRoot` state this.
- QuadTrees.Insert: the growth bound is stated through `Count`. `CountIsSize` states that `Count` is the number of stored points, and `InsertStoresNothingElse` gives the multiset form of the bound.

## Findings

| source | as written | input that shows it | evidently intended | confidence | as-written member | corrected member |
|---|---|---|---|---|---|---|
| src/main.rs:128-137 | `find_quad` tests `y <= self.y + self.h / 2` and, at an internal node, descends into the first present child whatever quadrant the query lies in | a 640 by 640 field of capacity 1 after inserting `(x, y)`, `(x + 400, y + 100)`, `(x + 400, y + 100)`: the query `(x + 400, y + 100)` descends into the top-left leaf and gets `None`; a root leaf holding `(x + 10, y + 500)` gets `None` for that point | test the full height and descend into the quadrant `insert_point` routes the query to, so that the leaf holding a stored point is found | not executed | QuadTreeScenarios.FindQuadMissesStoredPoint | QuadTreeFind.LocateFindsStored |
| src/main.rs:51-54 | a split re-inserts each old point into a child of half the extents, truncated, so with an odd width or height a point on the far edge, stored before the split, is routed to a child whose bounds exclude it and is dropped | a 3 by 3 region of capacity 1 holding `(x + 3, y + 3)`: inserting `(x, y)` splits it, and the tree then holds no point at all | the right and bottom children take the rest of the extent, `w - w/2` and `h - h/2`, so that a split keeps every stored point for any width and height (the code as written keeps them only for even ones, `QuadTreeInsertFacts.SplitLossless`) | not executed | QuadTreeScenarios.OddRegionLosesPoint | QuadTreeCorrected.CorrectedSplitLossless |
