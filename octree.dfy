/** The quad-splitting tree (`OctreeNode`): each node caches the bounds of the
    items handed to it; a node with more than `MaxItemsPerNode` items splits at
    both midpoints of those bounds into exactly four children, keeping at the
    node the items that straddle either midpoint. */
module Octree {
  import opened Primitives
  import opened Tree

  /** Where an item lies relative to the two midpoints. The source vector
      names do not match the comparisons (its `items_tr` receives low-x,
      high-y items and its `items_bl` high-x, low-y items), so the quadrants
      are named by the comparisons. */
  datatype Quadrant = LowXLowY | LowXHighY | HighXLowY | HighXHighY | Crossing

  datatype OctreeChildren<T> = OctreeChildren(
    lowXLowY: OctreeNode<T>,     // children[0]
    lowXHighY: OctreeNode<T>,    // children[1]
    highXLowY: OctreeNode<T>,    // children[2]
    highXHighY: OctreeNode<T>)   // children[3]

  datatype OctreeNode<T> = OctreeNode(bounds: BoundingBox, items: seq<T>, children: Option<OctreeChildren<T>>) {

    /** Every item in the subtree: this node's own, then the children's in order. */
    function AllItems(): seq<T>
    {
      items + match children
              case None => []
              case Some(c) => c.lowXLowY.AllItems() + c.lowXHighY.AllItems()
                              + c.highXLowY.AllItems() + c.highXHighY.AllItems()
    }
  }

  /** The nested comparisons of the classification loop: an item straddling
      either midpoint crosses, all others fall in one quadrant. */
  function QuadrantOf(b: Bounds, midX: real, midY: real): (q: Quadrant)
    ensures q == Crossing <==> (b.x.min < midX <= b.x.max) || (b.y.min < midY <= b.y.max)
    ensures q == LowXLowY <==> b.x.max < midX && b.y.max < midY
    ensures q == LowXHighY <==> b.x.max < midX && midY <= b.y.min && midY <= b.y.max
    ensures q == HighXLowY <==> midX <= b.x.min && midX <= b.x.max && b.y.max < midY
    ensures q == HighXHighY <==> midX <= b.x.min && midX <= b.x.max && midY <= b.y.min && midY <= b.y.max
  {
    match (SideOf(b.x, midX), SideOf(b.y, midY))
    case (Negative, Negative) => LowXLowY
    case (Negative, Positive) => LowXHighY
    case (Positive, Negative) => HighXLowY
    case (Positive, Positive) => HighXHighY
    case _ => Crossing
  }

  function QuadrantKey<T>(bnd: T -> Bounds, midX: real, midY: real): T -> Quadrant
  {
    (item: T) => QuadrantOf(bnd(item), midX, midY)
  }

  /** `OctreeNode::new` as a value. The node stores the bounds of its input;
      an empty input or at most `MaxItemsPerNode` items make a leaf; otherwise
      the node keeps the crossing items and recurses on the four quadrants. */
  function OctreeBuild<T>(items: seq<T>, bnd: T -> Bounds): (r: OctreeNode<T>)
    requires Buildable(items, bnd, MaxItemsPerNode + 1)
    ensures r.bounds == BoxFold(items, bnd)
    ensures r.bounds.Empty? <==> |items| == 0
    ensures |items| <= MaxItemsPerNode ==> r == OctreeNode(BoxFold(items, bnd), items, None)
    ensures r.children.Some? <==> |items| > MaxItemsPerNode
    decreases |items|
  {
    var bounds := BoxFold(items, bnd);
    match bounds
    case Empty => OctreeNode(bounds, items, None)
    case Valid(rect) =>
      if |items| > MaxItemsPerNode then
        var key := QuadrantKey(bnd, rect.x.Midpoint(), rect.y.Midpoint());
        OctreeSplitShrinks(items, bnd);
        OctreeNode(bounds, Bucket(items, key, Crossing),
                   Some(OctreeChildren(OctreeBuild(Bucket(items, key, LowXLowY), bnd),
                                       OctreeBuild(Bucket(items, key, LowXHighY), bnd),
                                       OctreeBuild(Bucket(items, key, HighXLowY), bnd),
                                       OctreeBuild(Bucket(items, key, HighXHighY), bnd))))
      else
        OctreeNode(bounds, items, None)
  }

  /** Each quadrant bucket of a node that splits is strictly smaller than its
      input and still buildable, so the construction ends. */
  lemma OctreeSplitShrinks<T>(items: seq<T>, bnd: T -> Bounds)
    requires Buildable(items, bnd, MaxItemsPerNode + 1)
    requires |items| > MaxItemsPerNode
    ensures var rect := BoxFold(items, bnd).rect;
            var key := QuadrantKey(bnd, rect.x.Midpoint(), rect.y.Midpoint());
            && |Bucket(items, key, LowXLowY)| < |items| && Buildable(Bucket(items, key, LowXLowY), bnd, MaxItemsPerNode + 1)
            && |Bucket(items, key, LowXHighY)| < |items| && Buildable(Bucket(items, key, LowXHighY), bnd, MaxItemsPerNode + 1)
            && |Bucket(items, key, HighXLowY)| < |items| && Buildable(Bucket(items, key, HighXLowY), bnd, MaxItemsPerNode + 1)
            && |Bucket(items, key, HighXHighY)| < |items| && Buildable(Bucket(items, key, HighXHighY), bnd, MaxItemsPerNode + 1)
  {
    QuadrantShrinks(items, bnd, LowXLowY);
    QuadrantShrinks(items, bnd, LowXHighY);
    QuadrantShrinks(items, bnd, HighXLowY);
    QuadrantShrinks(items, bnd, HighXHighY);
  }

  /** One quadrant bucket of a node that splits is strictly smaller than its
      input and still buildable: it misses an item attaining a side of the
      node's bounds. */
  lemma QuadrantShrinks<T>(items: seq<T>, bnd: T -> Bounds, q: Quadrant)
    requires Buildable(items, bnd, MaxItemsPerNode + 1)
    requires |items| > MaxItemsPerNode && q != Crossing
    ensures var rect := BoxFold(items, bnd).rect;
            var key := QuadrantKey(bnd, rect.x.Midpoint(), rect.y.Midpoint());
            |Bucket(items, key, q)| < |items| && Buildable(Bucket(items, key, q), bnd, MaxItemsPerNode + 1)
  {
    var rect := BoxFold(items, bnd).rect;
    var key := QuadrantKey(bnd, rect.x.Midpoint(), rect.y.Midpoint());
    BucketBuildable(items, bnd, MaxItemsPerNode + 1, key, q);
    BoxFoldTight(items, bnd);
    if q == LowXLowY || q == LowXHighY {
      var i :| 0 <= i < |items| && bnd(items[i]).x.max == rect.x.max;
      assert key(items[i]) != q;
      BucketMisses(items, key, q, i);
    } else if q == HighXLowY {
      var i :| 0 <= i < |items| && bnd(items[i]).y.max == rect.y.max;
      assert key(items[i]) != q;
      BucketMisses(items, key, q, i);
    } else if rect.x.min < rect.x.max {
      var i :| 0 <= i < |items| && bnd(items[i]).x.min == rect.x.min;
      assert bnd(items[i]).IsProper();
      assert key(items[i]) != q;
      BucketMisses(items, key, q, i);
    } else if rect.y.min < rect.y.max {
      var i :| 0 <= i < |items| && bnd(items[i]).y.min == rect.y.min;
      assert bnd(items[i]).IsProper();
      assert key(items[i]) != q;
      BucketMisses(items, key, q, i);
    } else {
      var i :| 0 <= i < |items| && bnd(items[i]).x.min == rect.x.min;
      assert bnd(items[i]).IsProper();
      DegenerateIsSmall(items, bnd, MaxItemsPerNode + 1, rect);
      assert false;
    }
  }

  /** The classification loop of `OctreeNode::new`: every item is pushed into
      one of the four quadrant vectors or the crossing vector. */
  method Partition<T>(items: seq<T>, bnd: T -> Bounds, midX: real, midY: real)
    returns (crossing: seq<T>, q0: seq<T>, q1: seq<T>, q2: seq<T>, q3: seq<T>)
    ensures crossing == Bucket(items, QuadrantKey(bnd, midX, midY), Crossing)
    ensures q0 == Bucket(items, QuadrantKey(bnd, midX, midY), LowXLowY)
    ensures q1 == Bucket(items, QuadrantKey(bnd, midX, midY), LowXHighY)
    ensures q2 == Bucket(items, QuadrantKey(bnd, midX, midY), HighXLowY)
    ensures q3 == Bucket(items, QuadrantKey(bnd, midX, midY), HighXHighY)
  {
    ghost var key := QuadrantKey(bnd, midX, midY);
    crossing, q0, q1, q2, q3 := [], [], [], [], [];
    for i := 0 to |items|
      invariant crossing == Bucket(items[..i], key, Crossing)
      invariant q0 == Bucket(items[..i], key, LowXLowY)
      invariant q1 == Bucket(items[..i], key, LowXHighY)
      invariant q2 == Bucket(items[..i], key, HighXLowY)
      invariant q3 == Bucket(items[..i], key, HighXHighY)
    {
      var item := items[i];
      var b := bnd(item);
      ghost var q := key(item);
      assert q == QuadrantOf(b, midX, midY);
      BucketSnoc(items, key, Crossing, i);
      BucketSnoc(items, key, LowXLowY, i);
      BucketSnoc(items, key, LowXHighY, i);
      BucketSnoc(items, key, HighXLowY, i);
      BucketSnoc(items, key, HighXHighY, i);
      if b.x.max < midX {
        if b.y.max < midY {
          assert q == LowXLowY;
          q0 := q0 + [item];
        } else if b.y.min >= midY {
          assert q == LowXHighY;
          q1 := q1 + [item];
        } else {
          assert q == Crossing;
          crossing := crossing + [item];
        }
      } else if b.x.min >= midX {
        if b.y.max < midY {
          assert q == HighXLowY;
          q2 := q2 + [item];
        } else if b.y.min >= midY {
          assert q == HighXHighY;
          q3 := q3 + [item];
        } else {
          assert q == Crossing;
          crossing := crossing + [item];
        }
      } else {
        assert q == Crossing;
        crossing := crossing + [item];
      }
    }
    assert items[..|items|] == items;
  }

  /** `OctreeNode::new`. */
  method NewOctreeNode<T>(items: seq<T>, bnd: T -> Bounds) returns (node: OctreeNode<T>)
    requires Buildable(items, bnd, MaxItemsPerNode + 1)
    ensures node == OctreeBuild(items, bnd)
    decreases |items|
  {
    var bounds := BoundingBoxFromItems(items, bnd);
    if bounds.Valid? {
      var rect := bounds.rect;
      if |items| > MaxItemsPerNode {
        var midX := rect.x.Midpoint();
        var midY := rect.y.Midpoint();
        var crossing, q0, q1, q2, q3 := Partition(items, bnd, midX, midY);
        OctreeSplitShrinks(items, bnd);
        var child0 := NewOctreeNode(q0, bnd);
        var child1 := NewOctreeNode(q1, bnd);
        var child2 := NewOctreeNode(q2, bnd);
        var child3 := NewOctreeNode(q3, bnd);
        node := OctreeNode(bounds, crossing, Some(OctreeChildren(child0, child1, child2, child3)));
      } else {
        node := OctreeNode(bounds, items, None);
      }
    } else {
      node := OctreeNode(bounds, items, None);
    }
  }

  /** The five buckets together hold exactly the input, counting repeats. */
  lemma QuadrantPartition<T>(items: seq<T>, key: T -> Quadrant)
    ensures multiset(Bucket(items, key, Crossing)) + multiset(Bucket(items, key, LowXLowY))
            + multiset(Bucket(items, key, LowXHighY)) + multiset(Bucket(items, key, HighXLowY))
            + multiset(Bucket(items, key, HighXHighY)) == multiset(items)
  {
    var mc, m0, m1 := multiset(Bucket(items, key, Crossing)), multiset(Bucket(items, key, LowXLowY)),
                      multiset(Bucket(items, key, LowXHighY));
    var m2, m3 := multiset(Bucket(items, key, HighXLowY)), multiset(Bucket(items, key, HighXHighY));
    var all := mc + m0 + m1 + m2 + m3;
    forall t ensures all[t] == multiset(items)[t] {
      BucketMultiplicity(items, key, Crossing, t);
      BucketMultiplicity(items, key, LowXLowY, t);
      BucketMultiplicity(items, key, LowXHighY, t);
      BucketMultiplicity(items, key, HighXLowY, t);
      BucketMultiplicity(items, key, HighXHighY, t);
      match key(t)
      case Crossing => assert m0[t] == 0 && m1[t] == 0 && m2[t] == 0 && m3[t] == 0;
      case LowXLowY => assert mc[t] == 0 && m1[t] == 0 && m2[t] == 0 && m3[t] == 0;
      case LowXHighY => assert mc[t] == 0 && m0[t] == 0 && m2[t] == 0 && m3[t] == 0;
      case HighXLowY => assert mc[t] == 0 && m0[t] == 0 && m1[t] == 0 && m3[t] == 0;
      case HighXHighY => assert mc[t] == 0 && m0[t] == 0 && m1[t] == 0 && m2[t] == 0;
    }
    MultisetPointwise(all, multiset(items));
  }

  /** The items of a subdivided node: its own, then those of the four children. */
  lemma OctreeAllItemsMultiset<T>(node: OctreeNode<T>)
    requires node.children.Some?
    ensures var c := node.children.value;
            multiset(node.AllItems())
            == multiset(node.items) + multiset(c.lowXLowY.AllItems()) + multiset(c.lowXHighY.AllItems())
               + multiset(c.highXLowY.AllItems()) + multiset(c.highXHighY.AllItems())
  {
  }

  /** No item is lost or duplicated: the items of the whole tree are a
      permutation of the input. */
  lemma {:induction false} OctreeBuildPermutation<T>(items: seq<T>, bnd: T -> Bounds)
    requires Buildable(items, bnd, MaxItemsPerNode + 1)
    ensures multiset(OctreeBuild(items, bnd).AllItems()) == multiset(items)
    decreases |items|
  {
    var node := OctreeBuild(items, bnd);
    if node.children.Some? {
      var rect := BoxFold(items, bnd).rect;
      var key := QuadrantKey(bnd, rect.x.Midpoint(), rect.y.Midpoint());
      var q0, q1 := Bucket(items, key, LowXLowY), Bucket(items, key, LowXHighY);
      var q2, q3 := Bucket(items, key, HighXLowY), Bucket(items, key, HighXHighY);
      OctreeSplitShrinks(items, bnd);
      var c := node.children.value;
      assert node.items == Bucket(items, key, Crossing);
      assert c.lowXLowY == OctreeBuild(q0, bnd) && c.lowXHighY == OctreeBuild(q1, bnd);
      assert c.highXLowY == OctreeBuild(q2, bnd) && c.highXHighY == OctreeBuild(q3, bnd);
      OctreeBuildPermutation(q0, bnd);
      OctreeBuildPermutation(q1, bnd);
      OctreeBuildPermutation(q2, bnd);
      OctreeBuildPermutation(q3, bnd);
      QuadrantPartition(items, key);
      OctreeAllItemsMultiset(node);
    } else {
      assert node.AllItems() == items + [];
    }
  }

  /** The invariant of one node of a built tree: the cached bounds are those
      of the whole subtree (`Empty` for an empty one); a leaf holds at most
      `MaxItemsPerNode` items; a node with children has more than that in its
      subtree, keeps exactly the items straddling a midpoint of its bounds,
      and each child's subtree lies wholly in its quadrant. */
  ghost predicate OctreeNodeWellFormed<T>(node: OctreeNode<T>, bnd: T -> Bounds)
  {
    && node.bounds == BoxFold(node.AllItems(), bnd)
    && match node.children
       case None => |node.items| <= MaxItemsPerNode
       case Some(c) =>
         && |node.AllItems()| > MaxItemsPerNode
         && node.bounds.Valid?
         && var midX, midY := node.bounds.rect.x.Midpoint(), node.bounds.rect.y.Midpoint();
         && (forall x :: x in node.items ==>
               (bnd(x).x.min < midX <= bnd(x).x.max) || (bnd(x).y.min < midY <= bnd(x).y.max))
         && (forall x :: x in c.lowXLowY.AllItems() ==> bnd(x).x.max < midX && bnd(x).y.max < midY)
         && (forall x :: x in c.lowXHighY.AllItems() ==> bnd(x).x.max < midX && bnd(x).y.min >= midY)
         && (forall x :: x in c.highXLowY.AllItems() ==> bnd(x).x.min >= midX && bnd(x).y.max < midY)
         && (forall x :: x in c.highXHighY.AllItems() ==> bnd(x).x.min >= midX && bnd(x).y.min >= midY)
  }

  /** Every node of the subtree satisfies `OctreeNodeWellFormed`. */
  ghost predicate OctreeWellFormed<T>(node: OctreeNode<T>, bnd: T -> Bounds)
  {
    && OctreeNodeWellFormed(node, bnd)
    && match node.children
       case None => true
       case Some(c) =>
         && OctreeWellFormed(c.lowXLowY, bnd)
         && OctreeWellFormed(c.lowXHighY, bnd)
         && OctreeWellFormed(c.highXLowY, bnd)
         && OctreeWellFormed(c.highXHighY, bnd)
  }

  /** A child built from a quadrant bucket has all its items in that quadrant. */
  lemma ChildInQuadrant<T>(items: seq<T>, key: T -> Quadrant, q: Quadrant, child: OctreeNode<T>)
    requires multiset(child.AllItems()) == multiset(Bucket(items, key, q))
    ensures forall x :: x in child.AllItems() ==> key(x) == q
  {
    BucketMembers(items, key, q);
    forall x | x in child.AllItems() ensures key(x) == q {
      assert x in multiset(child.AllItems());
    }
  }

  /** The root node `OctreeNode::new` builds satisfies the node invariant. */
  lemma OctreeBuildNodeWellFormed<T>(items: seq<T>, bnd: T -> Bounds)
    requires Buildable(items, bnd, MaxItemsPerNode + 1)
    ensures OctreeNodeWellFormed(OctreeBuild(items, bnd), bnd)
  {
    var node := OctreeBuild(items, bnd);
    OctreeBuildPermutation(items, bnd);
    BoxFoldPermutation(node.AllItems(), items, bnd);
    if node.children.Some? {
      var rect := BoxFold(items, bnd).rect;
      var key := QuadrantKey(bnd, rect.x.Midpoint(), rect.y.Midpoint());
      var q0, q1 := Bucket(items, key, LowXLowY), Bucket(items, key, LowXHighY);
      var q2, q3 := Bucket(items, key, HighXLowY), Bucket(items, key, HighXHighY);
      OctreeSplitShrinks(items, bnd);
      var c := node.children.value;
      assert c.lowXLowY == OctreeBuild(q0, bnd) && c.lowXHighY == OctreeBuild(q1, bnd);
      assert c.highXLowY == OctreeBuild(q2, bnd) && c.highXHighY == OctreeBuild(q3, bnd);
      OctreeBuildPermutation(q0, bnd);
      OctreeBuildPermutation(q1, bnd);
      OctreeBuildPermutation(q2, bnd);
      OctreeBuildPermutation(q3, bnd);
      ChildInQuadrant(items, key, LowXLowY, c.lowXLowY);
      ChildInQuadrant(items, key, LowXHighY, c.lowXHighY);
      ChildInQuadrant(items, key, HighXLowY, c.highXLowY);
      ChildInQuadrant(items, key, HighXHighY, c.highXHighY);
      BucketMembers(items, key, Crossing);
      assert |multiset(node.AllItems())| == |multiset(items)|;
    }
  }

  /** Every tree `OctreeNode::new` builds is well formed. */
  lemma {:induction false} OctreeBuildWellFormed<T>(items: seq<T>, bnd: T -> Bounds)
    requires Buildable(items, bnd, MaxItemsPerNode + 1)
    ensures OctreeWellFormed(OctreeBuild(items, bnd), bnd)
    decreases |items|
  {
    var node := OctreeBuild(items, bnd);
    OctreeBuildNodeWellFormed(items, bnd);
    if node.children.Some? {
      var rect := BoxFold(items, bnd).rect;
      var key := QuadrantKey(bnd, rect.x.Midpoint(), rect.y.Midpoint());
      var q0, q1 := Bucket(items, key, LowXLowY), Bucket(items, key, LowXHighY);
      var q2, q3 := Bucket(items, key, HighXLowY), Bucket(items, key, HighXHighY);
      OctreeSplitShrinks(items, bnd);
      OctreeBuildWellFormed(q0, bnd);
      OctreeBuildWellFormed(q1, bnd);
      OctreeBuildWellFormed(q2, bnd);
      OctreeBuildWellFormed(q3, bnd);
    }
  }
}
