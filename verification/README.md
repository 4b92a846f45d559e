# Space-partitioning tree, modelled in Dafny

This project models a small spatial-partitioning structure. The structure has three parts.

- A `Range` is the half-open interval `[low, high)`. It has a membership test and a bisection into two equal halves.
- A `Rectangle` is a box made of one `Range` per axis. Its membership test checks each axis. Its split gives four quadrants: the Cartesian product of the axis halves, with x outermost.
- A `Tree` is a fixed-depth partition tree. Its constructor builds every child eagerly, one per piece of `region.split()`, until `depth == max_depth`. `add(point)` appends the point to a node's `data` when the node's region contains it, then passes the point to every child.

Coordinates are exact `real`s, so `(high - low) / 2` is exact.

The project has four modules:

- `Geometry` (`geometry.dfy`): the value types `Range`, `Rectangle`, `Point` and `Region`, as functions and lemmas. `Region` is the choice between a range and a rectangle that a tree node holds; the source accepts either by duck typing.
- `PartitionModel` (`model.dfy`): the value a tree stands for, as a `Node` datatype. `Build` is what construction produces and `Insert` is what one `add` does. The lemmas state the shape and insertion properties.
- `PartitionTree` (`tree.dfy`): the tree as a class. `children` and `data` are fields that the methods reassign. A ghost `Model` mirrors each subtree as a `Node`, and a ghost `Repr` holds each subtree's nodes. `Add` is a recursive method with `modifies Repr`. It is proved to turn `Model` into `Insert(old(Model), p)`.
- `Scenarios` (`scenarios.dfy`): the module's own demonstration, as concrete facts.

The code raises no errors of its own, and the model keeps that behaviour:

- Building a rectangle from bound lists of different lengths, or testing a point with the wrong number of coordinates, raises no error in the code. `zip` silently truncates. `FromBounds` and `Rectangle.Contains` model that truncation.
- The code has no depth check. A negative `max_depth` gives a single leaf (`BuildPastMaxDepth`).

## Model

| member | source | states |
|---|---|---|
| Geometry.Range.Contains | tree.py:10-11 | a range contains a point only if it is non-empty (`low < high`) |
| Geometry.RangeContainsBounds | tree.py:10-11 | the boundary behaviour of half-open membership: `high` is never a member, and `low` is a member iff `low < high` (its first clause only spells membership out) |
| Geometry.Range.Split | tree.py:16-19 | exactly two halves in order: the first starts at `low`, the second ends at `high`, they meet at the midpoint, and each is `(high - low) / 2` wide |
| Geometry.RangeSplitPartition | tree.py:10-19 | a point is in the range iff it is in one of the halves, never in both; the midpoint goes to the upper half |
| Geometry.Rectangle.Contains | tree.py:38-39 | only the common prefix of point and ranges is checked (`zip` truncation): a point with no coordinates, or a rectangle with no ranges, contains everything; a contained point implies every checked axis is non-empty |
| Geometry.Region.Contains | tree.py:87 | membership dispatched to the region's kind: for a range it is `low <= x < high`; for a two-axis rectangle and a two-coordinate point it is the conjunction of the two axis tests |
| Geometry.FromBounds | tree.py:27-30 | one `Range(lows[i], highs[i])` per position, as many as the shorter bound list has (zip truncation) |
| Geometry.RectangleContainsAxes | tree.py:38-39 | for two axes and two coordinates, membership is the conjunction of the two axis memberships |
| Geometry.Rectangle.Split | tree.py:41-51 | exactly four quadrants, in the order (x-low, y-low), (x-low, y-high), (x-high, y-low), (x-high, y-high), each made of the corresponding axis halves |
| Geometry.Quadrant | tree.py:48-51 | the rectangle built from the corners of two axis halves has exactly those halves as its ranges |
| Geometry.RectangleSplitPartition | tree.py:38-51 | a two-coordinate point is in the rectangle iff it is in some quadrant, and it is never in two |
| Geometry.Region.Split | tree.py:74 | the tree's call to `region.split()` gives 2 pieces for a range and 4 for a rectangle, each of the parent's kind and splittable again |
| Geometry.SplitPartition | tree.py:10-51 | for either kind, a point with the right number of coordinates lies in exactly one piece of the split if the parent contains it, and in none otherwise |
| PartitionModel.Build | tree.py:60-81 | a freshly built tree has the given region and depths, `Arity` children below `max_depth` and none otherwise, is well-formed (children in split order, one level deeper) and has every `data` list empty |
| PartitionModel.BuildPastMaxDepth | tree.py:72-73 | with `max_depth <= depth` (a negative `max_depth`, say) the tree is a single leaf at its own depth |
| PartitionModel.LeavesAtMaxDepth | tree.py:72-81 | every leaf of a well-formed tree that starts at or above `max_depth` sits at depth `max_depth` |
| PartitionModel.NodeCount | tree.py:72-81 | a well-formed tree from depth `d` has `b^0 + ... + b^(max_depth-d)` nodes, with `b` = 2 for ranges and 4 for rectangles |
| PartitionModel.Insert | tree.py:89-96 | an insertion changes no region, depth, maximum depth or child count anywhere in the tree |
| PartitionModel.InsertChanges | tree.py:89-96 | an insertion changes the tree iff the root region contains the point; when it does, the root's `data` becomes the old `data` plus the point at the end |
| PartitionModel.InsertWellFormed | tree.py:89-96 | an insertion keeps the tree well-formed |
| PartitionModel.OutsideStaysOutside | tree.py:72-81 | in a well-formed tree, a point with one coordinate per axis that lies outside a node's region is outside every descendant's region |
| PartitionModel.InsertRecordsWhereContained | tree.py:89-96 | for a point with one coordinate per axis, an insertion appends the point at exactly the nodes whose region contains it and changes no other `data` |
| PartitionModel.InsertOnePerDepth | tree.py:89-96 | a point inside the node's region is recorded exactly once at each depth from the node's own to `max_depth`; a point outside it is recorded nowhere |
| PartitionModel.InsertTotal | tree.py:89-96 | an insertion adds `max_depth - depth + 1` records when the region contains the point and none otherwise; nothing is deduplicated |
| PartitionTree.Tree.constructor | tree.py:60-70 | the new tree is valid, consists of fresh nodes, keeps the given region and depths, and its model is `Build(region, depth, max_depth)` |
| PartitionTree.Tree.AddChildren | tree.py:72-81 | starting from a childless node, it leaves the node linked with fresh children whose models are the built subtrees of the split pieces, in split order |
| PartitionTree.Tree.AddChild | tree.py:75-81 | one loop step: a fresh child is appended to `children` after the earlier children, which are kept; the footprint only grows, by fresh nodes; the child's model, the subtree built from the piece one level deeper, is appended to the node's model |
| PartitionTree.Tree.Adopt | tree.py:75-81 | appending a separate tree to `children` keeps the structure linked, grows the footprint by the child's, and appends the child's model |
| PartitionTree.Tree.Contains | tree.py:83-87 | the root region contains the point iff `add` of that point would change the tree |
| PartitionTree.Tree.Add | tree.py:89-96 | the tree stays valid; its footprint and `children` are unchanged; its new model is `Insert(old model, p)` |
| PartitionTree.Tree.Record | tree.py:94 | the point is appended to the end of this node's `data`; nothing else changes |
| PartitionTree.Tree.AddToChild | tree.py:95-96 | `add` on one child replaces only that child's model by its insertion and leaves the node linked |
| Scenarios.RangeScenario | tree.py:113-114 | `Range(0, 8)` with `max_depth` 2 has 7 nodes: the halves `[0,4)`, `[4,8)` and then the four quarters, in order |
| Scenarios.RangeInsertScenario | tree.py:115-118 | adding 1 records it at `[0,8)`, `[0,4)` and `[0,2)` only; 3 is contained and 10 is not |
| Scenarios.RectangleScenario | tree.py:120-121 | the 8-by-8 square with `max_depth` 2 has 21 nodes |
| Scenarios.SquareQuadrants | tree.py:120-121 | the square's quadrants come in x-outer order: lower-left, upper-left, lower-right, upper-right |
| Scenarios.Demo | tree.py:113-121 | the demonstration run on the class gives trees whose models are the ones the two scenario lemmas describe |

## Left out

- `Tree.print_to_screen` and both `__repr__` methods only format text for the console. They are not modelled.
- The `__main__` block's console output is not modelled. Its checks are kept as `Scenarios`.
- Floating point: coordinates are exact reals. With IEEE doubles the midpoint can round. Then the second half's upper bound `low + 2 * incr` need not equal `high`, and the partition lemmas need not hold.
- The two `split` methods are generators in the code. Here they return a finished sequence, because construction always consumes them fully.
- A point of the wrong kind for its region (a number for a rectangle, a tuple for a range) raises `TypeError` in the code. Here it is a precondition (`Region.Accepts`).
- Splitting a rectangle that does not have exactly two ranges raises `ValueError` in the code. Here it is a precondition of `Rectangle.Split` and, below `max_depth`, of the tree constructor.
- The partition and counting lemmas (`RectangleSplitPartition`, `SplitPartition`, `InsertOnePerDepth`, `InsertTotal`) assume a point with one coordinate per axis. With fewer coordinates, `zip` checks only the leading axes, so a short point can lie in several quadrants at once.
- `OutsideStaysOutside` and `InsertRecordsWhereContained` also assume one coordinate per axis. They plausibly hold for any point of the right kind, since a child's ranges lie within the parent's on every axis, but that general case is not proved.
- The code never reassigns `region`, `depth` or `max_depth` after construction. They are `const` fields here.
