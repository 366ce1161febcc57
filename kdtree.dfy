/** The binary axis-splitting tree (`KDTreeNode`): a node with at least
    `MaxItemsPerNode` items splits at the midpoint of the wider axis of its
    items' bounds; items wholly below go to child 0, items wholly at or above
    go to child 1, and items straddling the split stay at the node. */
module KDTree {
  import opened Primitives
  import opened Tree

  datatype Axis = X | Y

  datatype KDTreeNodeSubdivision<T> = KDTreeNodeSubdivision(
    axis: Axis,
    position: real,
    negative: KDTreeNode<T>,   // child_nodes[0]
    positive: KDTreeNode<T>)   // child_nodes[1]

  datatype KDTreeNode<T> = KDTreeNode(children: seq<T>, subdivision: Option<KDTreeNodeSubdivision<T>>) {

    /** Every item in the subtree: this node's own, then child 0's, then child 1's. */
    function AllItems(): seq<T>
    {
      children + match subdivision
                 case None => []
                 case Some(sub) => sub.negative.AllItems() + sub.positive.AllItems()
    }

    /** `bounding_box`: the bounds of this node's own items only; each side
        of the box is attained by one of them. */
    function OwnBoundingBox(bnd: T -> Bounds): (r: BoundingBox)
      ensures r.Empty? <==> |children| == 0
      ensures forall i :: 0 <= i < |children| ==> r.Covers(bnd(children[i]))
      ensures r.Valid? ==> Attained(children, bnd, r.rect)
    {
      if |children| == 0 then BoxFold(children, bnd)
      else
        BoxFoldTight(children, bnd);
        BoxFold(children, bnd)
    }

    /** `bounding_box_recursive`: the own bounds, then `|=` the recursive bounds
        of child 0 and of child 1. It equals the bounds of every item in the
        subtree. */
    function RecursiveBoundingBox(bnd: T -> Bounds): (r: BoundingBox)
      ensures r == BoxFold(AllItems(), bnd)
    {
      var res := BoxFold(children, bnd);
      match subdivision
      case None =>
        assert AllItems() == children;
        res
      case Some(sub) =>
        var neg, pos := sub.negative.AllItems(), sub.positive.AllItems();
        BoxFoldAppend(neg, pos, bnd);
        BoxFoldAppend(children, neg + pos, bnd);
        BoxUnionLaws(res, BoxFold(neg, bnd), BoxFold(pos, bnd));
        res.Union(sub.negative.RecursiveBoundingBox(bnd)).Union(sub.positive.RecursiveBoundingBox(bnd))
    }
  }

  function AxisRange(b: Bounds, axis: Axis): Range
  {
    match axis
    case X => b.x
    case Y => b.y
  }

  /** X when the x-range is strictly wider, else Y: equal widths split on Y. */
  function ChooseAxis(b: Bounds): (a: Axis)
    ensures a == X <==> b.x.Size() > b.y.Size()
    ensures b.x.Size() == b.y.Size() ==> a == Y
  {
    if b.x.Size() > b.y.Size() then X else Y
  }

  /** Classifies an item against the split line of `axis` at `position`. */
  function SideKey<T>(bnd: T -> Bounds, axis: Axis, position: real): T -> Side
  {
    (item: T) => SideOf(AxisRange(bnd(item), axis), position)
  }

  /** `KDTreeNode::new` as a value. Fewer than `MaxItemsPerNode` items make a
      leaf; otherwise the node keeps the straddling items and recurses on the
      two half-spaces. */
  function KDBuild<T>(items: seq<T>, bnd: T -> Bounds): (r: KDTreeNode<T>)
    requires Buildable(items, bnd, MaxItemsPerNode)
    ensures |items| < MaxItemsPerNode ==> r == KDTreeNode(items, None)
    ensures r.subdivision.Some? <==> |items| >= MaxItemsPerNode
    decreases |items|
  {
    if |items| < MaxItemsPerNode then KDTreeNode(items, None)
    else
      var b := BoundsFold(items, bnd).value;
      var axis := ChooseAxis(b);
      var position := AxisRange(b, axis).Midpoint();
      var key := SideKey(bnd, axis, position);
      KDSplitShrinks(items, bnd);
      KDTreeNode(Bucket(items, key, Here),
                 Some(KDTreeNodeSubdivision(axis, position,
                                            KDBuild(Bucket(items, key, Negative), bnd),
                                            KDBuild(Bucket(items, key, Positive), bnd))))
  }

  /** Both half-space buckets of a node that splits are strictly smaller than
      its input and still buildable, so the construction ends. */
  lemma KDSplitShrinks<T>(items: seq<T>, bnd: T -> Bounds)
    requires Buildable(items, bnd, MaxItemsPerNode)
    requires |items| >= MaxItemsPerNode
    ensures var b := BoundsFold(items, bnd).value;
            var axis := ChooseAxis(b);
            var key := SideKey(bnd, axis, AxisRange(b, axis).Midpoint());
            && |Bucket(items, key, Negative)| < |items| && Buildable(Bucket(items, key, Negative), bnd, MaxItemsPerNode)
            && |Bucket(items, key, Positive)| < |items| && Buildable(Bucket(items, key, Positive), bnd, MaxItemsPerNode)
  {
    var b := BoundsFold(items, bnd).value;
    var axis := ChooseAxis(b);
    var r := AxisRange(b, axis);
    var position := r.Midpoint();
    var key := SideKey(bnd, axis, position);
    BucketBuildable(items, bnd, MaxItemsPerNode, key, Negative);
    BucketBuildable(items, bnd, MaxItemsPerNode, key, Positive);
    BoxFoldAgreesWithBoundsFold(items, bnd);
    BoxFoldTight(items, bnd);
    var ixmin :| 0 <= ixmin < |items| && bnd(items[ixmin]).x.min == b.x.min;
    var ixmax :| 0 <= ixmax < |items| && bnd(items[ixmax]).x.max == b.x.max;
    var iymin :| 0 <= iymin < |items| && bnd(items[iymin]).y.min == b.y.min;
    var iymax :| 0 <= iymax < |items| && bnd(items[iymax]).y.max == b.y.max;
    assert bnd(items[ixmin]).IsProper() && bnd(items[iymin]).IsProper();
    assert b.IsProper();
    var imin, imax := if axis == X then ixmin else iymin, if axis == X then ixmax else iymax;
    assert AxisRange(bnd(items[imax]), axis).max == r.max;
    assert key(items[imax]) != Negative;
    BucketMisses(items, key, Negative, imax);
    if r.min < r.max {
      assert AxisRange(bnd(items[imin]), axis).min == r.min;
      assert key(items[imin]) != Positive;
      BucketMisses(items, key, Positive, imin);
    } else if axis == X {
      assert false;
    } else {
      DegenerateIsSmall(items, bnd, MaxItemsPerNode, b);
      assert false;
    }
  }

  /** The classification loop of `KDTreeNode::new`: every item is pushed into
      the negative, the positive or the "here" vector. */
  method Partition<T>(items: seq<T>, bnd: T -> Bounds, axis: Axis, position: real)
    returns (here: seq<T>, negative: seq<T>, positive: seq<T>)
    ensures negative == Bucket(items, SideKey(bnd, axis, position), Negative)
    ensures positive == Bucket(items, SideKey(bnd, axis, position), Positive)
    ensures here == Bucket(items, SideKey(bnd, axis, position), Here)
  {
    ghost var key := SideKey(bnd, axis, position);
    here, negative, positive := [], [], [];
    for i := 0 to |items|
      invariant negative == Bucket(items[..i], key, Negative)
      invariant positive == Bucket(items[..i], key, Positive)
      invariant here == Bucket(items[..i], key, Here)
    {
      var item := items[i];
      var range := AxisRange(bnd(item), axis);
      BucketSnoc(items, key, Negative, i);
      BucketSnoc(items, key, Positive, i);
      BucketSnoc(items, key, Here, i);
      if range.max < position {
        negative := negative + [item];
      } else if range.min >= position {
        positive := positive + [item];
      } else {
        here := here + [item];
      }
    }
    assert items[..|items|] == items;
  }

  /** `KDTreeNode::new`. */
  method NewKDTreeNode<T>(items: seq<T>, bnd: T -> Bounds) returns (node: KDTreeNode<T>)
    requires Buildable(items, bnd, MaxItemsPerNode)
    ensures node == KDBuild(items, bnd)
    decreases |items|
  {
    if |items| < MaxItemsPerNode {
      return KDTreeNode(items, None);
    }
    var bounds := BoundsFromItems(items, bnd);
    var b := bounds.value;
    var axis := if b.x.Size() > b.y.Size() then X else Y;
    var position := AxisRange(b, axis).Midpoint();
    var here, negative, positive := Partition(items, bnd, axis, position);
    KDSplitShrinks(items, bnd);
    var child0 := NewKDTreeNode(negative, bnd);
    var child1 := NewKDTreeNode(positive, bnd);
    node := KDTreeNode(here, Some(KDTreeNodeSubdivision(axis, position, child0, child1)));
  }

  /** The three buckets together hold exactly the input, counting repeats. */
  lemma SidePartition<T>(items: seq<T>, key: T -> Side)
    ensures multiset(Bucket(items, key, Here)) + multiset(Bucket(items, key, Negative))
            + multiset(Bucket(items, key, Positive)) == multiset(items)
  {
    var mh, mn, mp := multiset(Bucket(items, key, Here)), multiset(Bucket(items, key, Negative)),
                      multiset(Bucket(items, key, Positive));
    var all := mh + mn + mp;
    forall t ensures all[t] == multiset(items)[t] {
      BucketMultiplicity(items, key, Here, t);
      BucketMultiplicity(items, key, Negative, t);
      BucketMultiplicity(items, key, Positive, t);
      match key(t)
      case Here => assert mn[t] == 0 && mp[t] == 0;
      case Negative => assert mh[t] == 0 && mp[t] == 0;
      case Positive => assert mh[t] == 0 && mn[t] == 0;
    }
    MultisetPointwise(all, multiset(items));
  }

  /** The items of a subdivided node: its own, then those of both children. */
  lemma KDAllItemsMultiset<T>(node: KDTreeNode<T>)
    requires node.subdivision.Some?
    ensures multiset(node.AllItems())
            == multiset(node.children) + multiset(node.subdivision.value.negative.AllItems())
               + multiset(node.subdivision.value.positive.AllItems())
  {
  }

  /** A subdivided node splits on X exactly when the x-width of the items'
      bounds is strictly greater than the y-width (equal widths split on Y),
      at the midpoint of that axis's range. */
  lemma KDBuildSplit<T>(items: seq<T>, bnd: T -> Bounds)
    requires Buildable(items, bnd, MaxItemsPerNode)
    requires |items| >= MaxItemsPerNode
    ensures var sub := KDBuild(items, bnd).subdivision.value;
            var b := BoxFold(items, bnd).rect;
            && (sub.axis == X <==> b.x.Size() > b.y.Size())
            && sub.position == AxisRange(b, sub.axis).Midpoint()
            && AxisRange(b, sub.axis).min <= sub.position <= AxisRange(b, sub.axis).max
  {
    BoxFoldAgreesWithBoundsFold(items, bnd);
    BoxFoldTight(items, bnd);
    var b := BoxFold(items, bnd).rect;
    var i :| 0 <= i < |items| && bnd(items[i]).x.min == b.x.min;
    var j :| 0 <= j < |items| && bnd(items[j]).y.min == b.y.min;
    assert bnd(items[i]).IsProper() && bnd(items[j]).IsProper();
  }

  /** No item is lost or duplicated: the items of the whole tree are a
      permutation of the input. */
  lemma {:induction false} KDBuildPermutation<T>(items: seq<T>, bnd: T -> Bounds)
    requires Buildable(items, bnd, MaxItemsPerNode)
    ensures multiset(KDBuild(items, bnd).AllItems()) == multiset(items)
    decreases |items|
  {
    if |items| >= MaxItemsPerNode {
      var b := BoundsFold(items, bnd).value;
      var axis := ChooseAxis(b);
      var key := SideKey(bnd, axis, AxisRange(b, axis).Midpoint());
      var neg, pos, here := Bucket(items, key, Negative), Bucket(items, key, Positive), Bucket(items, key, Here);
      KDSplitShrinks(items, bnd);
      var node := KDBuild(items, bnd);
      var sub := node.subdivision.value;
      assert node.children == here && sub.negative == KDBuild(neg, bnd) && sub.positive == KDBuild(pos, bnd);
      KDBuildPermutation(neg, bnd);
      KDBuildPermutation(pos, bnd);
      SidePartition(items, key);
      KDAllItemsMultiset(node);
    } else {
      assert KDBuild(items, bnd).AllItems() == items + [];
    }
  }

  /** The invariant of every node of a built tree: a leaf holds fewer than
      `MaxItemsPerNode` items; a subdivided node with at least that many in its
      subtree splits on the axis and at the position chosen from the bounds of
      its subtree, keeps exactly the items straddling the split, and has only
      wholly-below items under child 0 and wholly-at-or-above items under
      child 1. */
  ghost predicate KDWellFormed<T>(node: KDTreeNode<T>, bnd: T -> Bounds)
  {
    match node.subdivision
    case None => |node.children| < MaxItemsPerNode
    case Some(sub) =>
      var box := BoxFold(node.AllItems(), bnd);
      && |node.AllItems()| >= MaxItemsPerNode
      && box.Valid?
      && sub.axis == ChooseAxis(box.rect)
      && sub.position == AxisRange(box.rect, sub.axis).Midpoint()
      && (forall x :: x in node.children ==>
            AxisRange(bnd(x), sub.axis).min < sub.position <= AxisRange(bnd(x), sub.axis).max)
      && (forall x :: x in sub.negative.AllItems() ==> AxisRange(bnd(x), sub.axis).max < sub.position)
      && (forall x :: x in sub.positive.AllItems() ==> AxisRange(bnd(x), sub.axis).min >= sub.position)
      && KDWellFormed(sub.negative, bnd)
      && KDWellFormed(sub.positive, bnd)
  }

  /** Every tree `KDTreeNode::new` builds is well formed. */
  lemma {:induction false} KDBuildWellFormed<T>(items: seq<T>, bnd: T -> Bounds)
    requires Buildable(items, bnd, MaxItemsPerNode)
    ensures KDWellFormed(KDBuild(items, bnd), bnd)
    decreases |items|
  {
    var node := KDBuild(items, bnd);
    if |items| >= MaxItemsPerNode {
      var b := BoundsFold(items, bnd).value;
      var axis := ChooseAxis(b);
      var position := AxisRange(b, axis).Midpoint();
      var key := SideKey(bnd, axis, position);
      var neg, pos := Bucket(items, key, Negative), Bucket(items, key, Positive);
      KDSplitShrinks(items, bnd);
      KDBuildWellFormed(neg, bnd);
      KDBuildWellFormed(pos, bnd);
      KDBuildPermutation(neg, bnd);
      KDBuildPermutation(pos, bnd);
      KDBuildPermutation(items, bnd);
      BoxFoldPermutation(node.AllItems(), items, bnd);
      BoxFoldAgreesWithBoundsFold(items, bnd);
      assert |multiset(node.AllItems())| == |multiset(items)|;
      var sub := node.subdivision.value;
      BucketMembers(items, key, Negative);
      BucketMembers(items, key, Positive);
      BucketMembers(items, key, Here);
      forall x | x in sub.negative.AllItems()
        ensures AxisRange(bnd(x), axis).max < position
      {
        assert x in multiset(sub.negative.AllItems());
        assert x in neg;
      }
      forall x | x in sub.positive.AllItems()
        ensures AxisRange(bnd(x), axis).min >= position
      {
        assert x in multiset(sub.positive.AllItems());
        assert x in pos;
      }
    }
  }

  /** At the root, `bounding_box_recursive` is the bounds of the whole input. */
  lemma KDRootBounds<T>(items: seq<T>, bnd: T -> Bounds)
    requires Buildable(items, bnd, MaxItemsPerNode)
    ensures KDBuild(items, bnd).RecursiveBoundingBox(bnd) == BoxFold(items, bnd)
  {
    KDBuildPermutation(items, bnd);
    BoxFoldPermutation(KDBuild(items, bnd).AllItems(), items, bnd);
  }
}
