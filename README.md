# rust-bvh: spatial index model

This project models the spatial index of rust-bvh in Dafny and proves its properties. The index has two parts:

- **The bounds algebra.** `Range` is a closed interval on one axis. `Bounds` is a pair of ranges. `BoundingBox` is either `Empty` or `Valid(Bounds)`. Union is written `|` and `|=` in the source. `from_items` folds over a slice of items. Points, coordinate pairs and 2D triangles each get their bounds.
- **Two build-once trees.**
  - `KDTreeNode` is a binary tree split on one axis. A node that holds at least 32 items splits at the midpoint of the wider axis of its items' bounds. Items wholly below go to child 0. Items wholly at or above go to child 1. Items straddling the line stay at the node.
  - `OctreeNode` is a tree split into four quadrants. Each node caches the bounds of its input. A node with more than 32 items splits at both midpoints into exactly four children. Items straddling either midpoint stay at the node.

Modules:

- `Primitives` (`primitives.dfy`): the bounds algebra and the two `from_items` folds.
  - Each fold is a specification function plus a method with the source's loop.
  - The `|=` operators are methods on small classes that hold the value being updated.
- `Tree` (`tree.dfy`): what both trees share.
  - The leaf threshold `MaxItemsPerNode`.
  - The per-axis three-way comparison `SideOf`.
  - `Bucket`, the vector a construction loop pushes matching items into.
  - `Buildable`, the precondition of the model's constructors: every item's bounds are proper, and fewer items than the limit share one point as their bounds.
- `KDTree` (`kdtree.dfy`):
  - The node datatypes.
  - `KDBuild`, the constructor as a function.
  - `NewKDTreeNode`, the constructor as a recursive method whose classification loop is the method `Partition`.
  - The bounds queries and the tree invariants.
- `Octree` (`octree.dfy`): the same for the quad-splitting tree.

Modelling choices:

- Coordinates are `real`.
- The item type is a type parameter `T`. The `Bounded2D` trait becomes a function `bnd: T -> Bounds` passed alongside the items.
- A `Vec<T>` becomes a `seq<T>`.
- The fixed arrays of two and four children become named datatype fields, in the source's order.

Two points of the code the model follows exactly:

- **Split axis on a tie.** `src/lib.rs:45` compares the widths with a strict `>`, so equal widths split on **Y**. `KDTree.ChooseAxis` and `KDTree.KDBuildSplit` state this.
- **Quadrant names.** The quad tree's vector names do not match its comparisons. `items_tr` receives low-x, high-y items and `items_bl` receives high-x, low-y items. The model names the quadrants after the comparisons (`LowXLowY`, `LowXHighY`, `HighXLowY`, `HighXHighY`), in the source's child order.

## Model

| member | source | states |
|---|---|---|
| Primitives.Range.Midpoint | src/lib.rs:193-194 | the split coordinate is equidistant from both ends of the range; it lies within a proper range, strictly inside when the range is not a point |
| Primitives.Range.Size | src/primitives.rs:101-103 | `size` is the length that takes `min` to `max`; it is non-negative exactly when the range is proper |
| Primitives.Min | src/primitives.rs:83 | `f64::min` on finite values: at most both operands, and equal to one of them |
| Primitives.Max | src/primitives.rs:84 | `f64::max` on finite values: at least both operands, and equal to one of them |
| Primitives.Range.Union | src/primitives.rs:81-86 | the union contains both operands, and each of its ends is an end of one operand |
| Primitives.NewRange | src/primitives.rs:97-103 | `Range::new(v)` is proper, has size 0, and contains exactly the point `v` |
| Primitives.RangeUnionLaws | src/primitives.rs:81-86 | range union is the least upper bound; it is commutative, associative and idempotent; it keeps ranges proper |
| Primitives.Bounds.Union | src/primitives.rs:137-146 | `Bounds \| Bounds` contains both operands and is contained in every box that contains both |
| Primitives.BoundsUnionLaws | src/primitives.rs:137-146 | box union is commutative and associative |
| Primitives.BoundingBox.Width | src/primitives.rs:198-203 | the width of `Empty` is 0; a valid box's width is `x.max - x.min`, non-negative exactly when its x-range is proper |
| Primitives.BoundingBox.Height | src/primitives.rs:205-210 | the height of `Empty` is 0; a valid box's height is `y.max - y.min`, non-negative exactly when its y-range is proper |
| Primitives.BoundingBox.Union | src/primitives.rs:222-235 | the union is `Empty` exactly when both operands are, and it includes both |
| Primitives.BoundingBox.UnionBounds | src/primitives.rs:237-246 | `BoundingBox \| Bounds` is never `Empty`; it covers the bounds and includes the box |
| Primitives.BoxUnionLaws | src/primitives.rs:222-235 | `Empty` is a two-sided identity; two valid boxes unite axis by axis; the union is commutative and associative |
| Primitives.UnionBoundsIsUnion | src/primitives.rs:237-246 | uniting with bounds is uniting with the valid box around them |
| Primitives.PointBounds | src/primitives.rs:8-15 | a point's bounds are a proper single-point box that contains exactly that point |
| Primitives.PairBounds | src/primitives.rs:153-160 | a coordinate pair has the same bounds as the point it denotes |
| Primitives.TriangleBounds | src/primitives.rs:66-70 | a triangle's bounds are proper, contain all three vertices, and lie inside every box that contains them |
| Primitives.BoundsFold | src/primitives.rs:120-134 | `Bounds::from_items` is `None` exactly for an empty slice; otherwise it contains every item's bounds |
| Primitives.BoxFold | src/primitives.rs:186-196 | `BoundingBox::from_items` is `Empty` exactly for an empty slice; otherwise it covers every item's bounds |
| Primitives.BoxFoldAgreesWithBoundsFold | src/primitives.rs:186-196 | the two folds agree: `None` gives `Empty`, and `Some(b)` gives `Valid(b)` |
| Primitives.BoxFoldAppend | src/primitives.rs:190-193 | the fold of a concatenation is the union of the folds of its parts |
| Primitives.BoxFoldPermutation | src/primitives.rs:190-193 | the fold does not depend on the order of the items |
| Primitives.BoxFoldTight | src/primitives.rs:190-193 | each side of a non-empty fold is the matching side of some item |
| Primitives.BoundsFromItems | src/primitives.rs:120-134 | the loop that starts from the first item's bounds computes `BoundsFold` |
| Primitives.BoundingBoxFromItems | src/primitives.rs:186-196 | the loop that starts from `Empty` computes `BoxFold` |
| Primitives.RangeCell.OrAssign | src/primitives.rs:89-94 | `r \|= s` leaves `r` equal to the old `r \| s` |
| Primitives.BoundsCell.OrAssign | src/primitives.rs:112-117 | `b \|= c` leaves `b` equal to the old `b \| c` |
| Primitives.BoundingBoxCell.OrAssign | src/primitives.rs:213-220 | `bb \|= rhs`, computed as `rhs \| bounds`, leaves `bb` equal to the old `bb \| rhs` |
| Tree.SideOf | src/lib.rs:53-62 | an item goes negative exactly when its max is below the split, positive exactly when it lies at or above the split, and stays exactly when it straddles the split |
| Tree.Bucket | src/lib.rs:47-63 | the vector the loop pushes one class of items into is never longer than the input; `Tree.BucketMembers` and `Tree.BucketMultiplicity` state exactly what it holds |
| Tree.BucketMembers | src/lib.rs:51-63 | a pushed-to vector holds exactly the input items with its classification |
| Tree.BucketMultiplicity | src/lib.rs:51-63 | a pushed-to vector holds every copy of each item with its classification, and no copy of any other item |
| Tree.BucketBuildable | src/lib.rs:70-71 | each bucket of a buildable input is buildable, so every recursive call meets the precondition again |
| KDTree.KDTreeNode.OwnBoundingBox | src/lib.rs:108-110 | `bounding_box` is `Empty` exactly when the node owns no items; otherwise it covers each owned item, and each of its sides is a side of an owned item, so it is the smallest such box |
| KDTree.KDTreeNode.RecursiveBoundingBox | src/lib.rs:112-119 | `bounding_box_recursive` equals `BoundingBox::from_items` of every item in the subtree |
| KDTree.KDSplitShrinks | src/lib.rs:70-71 | both child inputs of a splitting node are strictly smaller and still buildable, so construction ends |
| KDTree.Partition | src/lib.rs:51-63 | the classification loop fills the three vectors with exactly the items of each class, in input order |
| KDTree.NewKDTreeNode | src/lib.rs:35-106 | `KDTreeNode::new` builds exactly the tree `KDBuild` describes |
| KDTree.SidePartition | src/lib.rs:51-63 | the three buckets together are a permutation of the input |
| KDTree.KDAllItemsMultiset | src/lib.rs:64-74 | a subdivided node's items are its own items plus those of both children |
| KDTree.ChooseAxis | src/lib.rs:45 | the split axis is X exactly when the x-width is strictly greater than the y-width; equal widths give Y |
| KDTree.KDBuild | src/lib.rs:35-106 | `KDTreeNode::new` as a value: with fewer than 32 items a leaf holding the input in order; the node is subdivided exactly when it has 32 or more |
| KDTree.KDBuildSplit | src/lib.rs:45-46 | the axis is X exactly when the x-width is strictly greater (ties go to Y); the position is the midpoint of that axis and lies within it |
| KDTree.KDBuildPermutation | src/lib.rs:64-74 | flattening the tree gives a permutation of the input: no item is lost or duplicated |
| KDTree.KDBuildWellFormed | src/lib.rs:35-106 | at every node: leaves hold fewer than 32 items; axis and position come from the subtree's bounds; kept items straddle the split; child 0 lies wholly below it and child 1 wholly at or above it |
| KDTree.KDRootBounds | src/lib.rs:112-119 | at the root, `bounding_box_recursive` is the bounds of the whole input |
| Octree.QuadrantOf | src/lib.rs:203-227 | an item stays at the node exactly when it straddles a midpoint; each quadrant gets exactly the items its two comparisons select |
| Octree.OctreeSplitShrinks | src/lib.rs:233-238 | all four child inputs of a splitting node are strictly smaller and still buildable |
| Octree.QuadrantShrinks | src/lib.rs:233-238 | each single quadrant bucket of a splitting node is strictly smaller than the input and still buildable |
| Octree.Partition | src/lib.rs:201-228 | the nested classification loop fills the five vectors with exactly the items of each quadrant, plus the crossing items, in input order |
| Octree.NewOctreeNode | src/lib.rs:187-253 | `OctreeNode::new` builds exactly the tree `OctreeBuild` describes |
| Octree.QuadrantPartition | src/lib.rs:201-228 | the crossing bucket and the four quadrant buckets together are a permutation of the input |
| Octree.OctreeAllItemsMultiset | src/lib.rs:230-239 | a subdivided node's items are its own items plus those of its four children |
| Octree.OctreeBuild | src/lib.rs:187-253 | the cached bounds are `from_items` of the input; they are `Empty` exactly for empty input; at most 32 items give a leaf keeping them all; more give four children |
| Octree.OctreeBuildPermutation | src/lib.rs:230-239 | flattening the tree gives a permutation of the input |
| Octree.ChildInQuadrant | src/lib.rs:233-238 | every item of a child's subtree was classified into that child's quadrant |
| Octree.OctreeBuildNodeWellFormed | src/lib.rs:189-246 | the root's cached bounds are the bounds of its subtree; a leaf holds at most 32 items; a split node keeps exactly the items straddling a midpoint, and each child's subtree lies wholly in its quadrant |
| Octree.OctreeBuildWellFormed | src/lib.rs:187-253 | every node of a built tree satisfies the node invariant |

## Left out

- `src/obj.rs` (`parse_obj`) is not part of this model. It reads files and parses numbers through the standard library.
- `src/main.rs` is not part of this model. It renders PDF output and normalises coordinates into a viewport.
- `draw_recursive`, `print_stats_recursive` and the `CairoDrawable` impls are left out. They only render and print.
- IEEE-754 behaviour is left out: NaN and infinities in `f64::min`/`f64::max`, and rounding of `(min + max) / 2.0`. Coordinates are exact reals.
- `Vec2`, `Ray`, `Pos3`, `Triangle<Pos3>::remove_z` and `BoundingBox::new` are left out. The trees never use them.
- The commented-out `extend_by` and `shrink_bounds_recursive` are left out, because they are not compiled.
- KDTree.KDBuild requires `Buildable(items, bnd, 32)`, and so do `NewKDTreeNode` and the KD lemmas. The source has no such check, and the model says nothing about inputs that are not `Buildable`. `Buildable` has two halves:
  - No single point is the bounds of 32 or more items. The source does loop on such inputs: those items always go to the same child, so `KDTreeNode::new` recurses without end.
  - Every item's bounds have `min <= max`. The `Bounded2D` impls of the source's item types always give such bounds. The model excludes every input that breaks this. The source finishes on some of them: one item with an x-range of (1, 0) becomes a leaf. It loops on others: 32 copies of an item whose x- and y-ranges are both (1, 0) split on Y at 0.5 and all go to child 0, forever.
- Octree.OctreeBuild requires `Buildable(items, bnd, 33)`, and so do `NewOctreeNode` and the quad-tree lemmas. The same two halves apply. The source loops on more than 32 items sharing one point. Of the inputs with improper bounds, it loops on 33 copies of an item whose ranges are both (1, 0), which all go to child 0.
- KDTree.KDTreeNode.RecursiveBoundingBox writes the two `|=` steps as the pure union. The in-place update they perform is stated separately by `Primitives.BoundingBoxCell.OrAssign`.
- Primitives.BoundsFromItems writes the loop's `res |= &item.bounds()` as the pure `res := res.Union(...)` on a local value. The in-place update is stated separately by `Primitives.BoundsCell.OrAssign`.
- Heap boxing (`Box`) and moving out of the input `Vec` are left out. Children are plain datatype values.
