/** What the two spatial trees share: the leaf threshold, the three-way
    comparison of a range with a split coordinate, the buckets the
    construction loops push items into, and the condition under which the
    recursive construction ends. */
module Tree {
  import opened Primitives

  /** `MAX_ITEMS_PER_NODE`. */
  const MaxItemsPerNode: nat := 32

  /** Where a range lies relative to a split coordinate. */
  datatype Side = Negative | Positive | Here

  /** The comparison both trees make per axis: entirely below the coordinate,
      else entirely at or above it, else straddling it. */
  function SideOf(r: Range, position: real): (s: Side)
    ensures s == Negative <==> r.max < position
    ensures s == Positive <==> position <= r.max && position <= r.min
    ensures s == Here <==> r.min < position <= r.max
  {
    if r.max < position then Negative
    else if r.min >= position then Positive
    else Here
  }

  /** The items whose key is `k`, in input order: the `Vec` a construction
      loop pushes them into. */
  function Bucket<T, K(==)>(items: seq<T>, key: T -> K, k: K): (r: seq<T>)
    ensures |r| <= |items|
  {
    if |items| == 0 then []
    else
      var n := |items| - 1;
      Bucket(items[..n], key, k) + (if key(items[n]) == k then [items[n]] else [])
  }

  /** The bucket of `k` holds exactly the items whose key is `k`. */
  lemma {:induction false} BucketMembers<T, K>(items: seq<T>, key: T -> K, k: K)
    ensures forall x :: x in Bucket(items, key, k) ==> x in items && key(x) == k
    ensures forall x :: x in items && key(x) == k ==> x in Bucket(items, key, k)
  {
    if |items| > 0 {
      var n := |items| - 1;
      BucketMembers(items[..n], key, k);
      assert items == items[..n] + [items[n]];
    }
  }

  /** The multiset of a bucket grows by the last item exactly when its key is `k`. */
  lemma BucketLastMultiset<T, K>(items: seq<T>, key: T -> K, k: K)
    requires |items| > 0
    ensures key(items[|items| - 1]) == k ==>
              multiset(Bucket(items, key, k)) == multiset(Bucket(items[..|items| - 1], key, k)) + multiset{items[|items| - 1]}
    ensures key(items[|items| - 1]) != k ==>
              multiset(Bucket(items, key, k)) == multiset(Bucket(items[..|items| - 1], key, k))
  {
  }

  /** A bucket holds every copy of an item whose key is `k`, and none of any other. */
  lemma {:induction false} BucketMultiplicity<T, K>(items: seq<T>, key: T -> K, k: K, t: T)
    ensures multiset(Bucket(items, key, k))[t] == if key(t) == k then multiset(items)[t] else 0
  {
    if |items| > 0 {
      var n := |items| - 1;
      BucketMultiplicity(items[..n], key, k, t);
      assert items == items[..n] + [items[n]];
      BucketLastMultiset(items, key, k);
    }
  }

  /** Multisets with the same multiplicities are equal. */
  lemma MultisetPointwise<T>(a: multiset<T>, b: multiset<T>)
    requires forall t :: a[t] == b[t]
    ensures a == b
  {
  }

  /** One push: the bucket of a longer prefix. */
  lemma BucketSnoc<T, K>(items: seq<T>, key: T -> K, k: K, i: nat)
    requires i < |items|
    ensures Bucket(items[..i + 1], key, k)
         == Bucket(items[..i], key, k) + (if key(items[i]) == k then [items[i]] else [])
  {
    assert items[..i + 1][..i] == items[..i];
  }

  /** An item whose key is not `k` makes the bucket strictly shorter. */
  lemma {:induction false} BucketMisses<T, K>(items: seq<T>, key: T -> K, k: K, i: nat)
    requires i < |items| && key(items[i]) != k
    ensures |Bucket(items, key, k)| < |items|
  {
    var n := |items| - 1;
    if i < n {
      assert items[..n][i] == items[i];
      BucketMisses(items[..n], key, k, i);
    }
  }

  /** The number of items whose bounds are exactly `b`. */
  ghost function CountAt<T>(items: seq<T>, bnd: T -> Bounds, b: Bounds): nat
  {
    if |items| == 0 then 0
    else CountAt(items[..|items| - 1], bnd, b) + (if bnd(items[|items| - 1]) == b then 1 else 0)
  }

  /** A bucket holds no more items with given bounds than its input does. */
  lemma {:induction false} BucketCountAt<T, K>(items: seq<T>, key: T -> K, k: K, bnd: T -> Bounds, b: Bounds)
    ensures CountAt(Bucket(items, key, k), bnd, b) <= CountAt(items, bnd, b)
  {
    if |items| > 0 {
      var n := |items| - 1;
      var prev := Bucket(items[..n], key, k);
      BucketCountAt(items[..n], key, k, bnd, b);
      if key(items[n]) == k {
        var bucket := prev + [items[n]];
        assert Bucket(items, key, k) == bucket;
        assert bucket[..|bucket| - 1] == prev;
        assert CountAt(bucket, bnd, b) == CountAt(prev, bnd, b) + (if bnd(items[n]) == b then 1 else 0);
      } else {
        assert Bucket(items, key, k) == prev;
      }
    }
  }

  /** When every item has bounds `b`, all of them are counted. */
  lemma {:induction false} CountAtAll<T>(items: seq<T>, bnd: T -> Bounds, b: Bounds)
    requires forall x :: x in items ==> bnd(x) == b
    ensures CountAt(items, bnd, b) == |items|
  {
    if |items| > 0 {
      var n := |items| - 1;
      assert items[n] in items;
      assert forall x :: x in items[..n] ==> x in items;
      CountAtAll(items[..n], bnd, b);
    }
  }

  /** The precondition of both constructors: every item's bounds are proper
      (as the bounds of points and triangles are), and fewer than `limit`
      items share one point as their bounds. Such point items always move
      together into the same child, so `limit` of them would be split
      forever. */
  ghost predicate Buildable<T>(items: seq<T>, bnd: T -> Bounds, limit: nat)
  {
    && (forall x :: x in items ==> bnd(x).IsProper())
    && (forall x :: x in items && bnd(x).IsPoint() ==> CountAt(items, bnd, bnd(x)) < limit)
  }

  /** A bucket of a buildable input is buildable. */
  lemma BucketBuildable<T, K>(items: seq<T>, bnd: T -> Bounds, limit: nat, key: T -> K, k: K)
    requires Buildable(items, bnd, limit)
    ensures Buildable(Bucket(items, key, k), bnd, limit)
  {
    BucketMembers(items, key, k);
    forall x | x in Bucket(items, key, k) && bnd(x).IsPoint()
      ensures CountAt(Bucket(items, key, k), bnd, bnd(x)) < limit
    {
      assert x in items;
      BucketCountAt(items, key, k, bnd, bnd(x));
    }
  }

  /** If all items lie in box `b`, have proper bounds and `b` is a point, the
      items are all at that point, so a buildable input has fewer than `limit`
      of them. */
  lemma DegenerateIsSmall<T>(items: seq<T>, bnd: T -> Bounds, limit: nat, b: Bounds)
    requires Buildable(items, bnd, limit)
    requires |items| > 0 && b.IsPoint()
    requires forall i :: 0 <= i < |items| ==> b.Contains(bnd(items[i]))
    ensures |items| < limit
  {
    forall x | x in items ensures bnd(x) == b {
      var i :| 0 <= i < |items| && items[i] == x;
      assert b.Contains(bnd(items[i]));
    }
    var x0 := items[0];
    assert x0 in items && bnd(x0) == b;
    CountAtAll(items, bnd, b);
  }
}
