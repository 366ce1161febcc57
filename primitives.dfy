/** Geometric primitives and the bounds algebra both spatial trees rest on:
    closed intervals, axis-aligned boxes, the possibly-empty bounding box,
    and the folds that compute the bounds of a sequence of items.
    Coordinates are `real`; IEEE-754 rounding and NaN are not modelled. */
module Primitives {

  datatype Option<T> = None | Some(value: T)

  /** `f64::min` and `f64::max` on finite values. */
  function Min(a: real, b: real): (r: real)
    ensures r <= a && r <= b && (r == a || r == b)
  {
    if a <= b then a else b
  }

  function Max(a: real, b: real): (r: real)
    ensures r >= a && r >= b && (r == a || r == b)
  {
    if a >= b then a else b
  }

  datatype Pos2 = Pos2(x: real, y: real)

  datatype Triangle<T> = Triangle(v1: T, v2: T, v3: T)

  /** A closed interval `[min, max]` on one axis. */
  datatype Range = Range(min: real, max: real) {

    /** The interval is non-empty. */
    predicate IsProper() { min <= max }

    /** `Range::size`: the length of the interval, negative when it is improper. */
    function Size(): (s: real)
      ensures min + s == max
      ensures s >= 0.0 <==> IsProper()
    {
      max - min
    }

    predicate Contains(r: Range) { min <= r.min && r.max <= max }

    /** The split coordinate both trees use: `(min + max) / 2`. */
    function Midpoint(): (m: real)
      ensures m - min == max - m
      ensures IsProper() ==> min <= m <= max
      ensures min < max ==> min < m < max
    {
      (min + max) / 2.0
    }

    /** `Range | Range`: the smallest interval holding both operands; each
        end of the result is an end of one of the operands. */
    function Union(rhs: Range): (r: Range)
      ensures r.Contains(this) && r.Contains(rhs)
      ensures r.min == min || r.min == rhs.min
      ensures r.max == max || r.max == rhs.max
    {
      Range(Min(min, rhs.min), Max(max, rhs.max))
    }
  }

  /** `Range::new(v)`: the degenerate interval at `v`. */
  function NewRange(v: real): (r: Range)
    ensures r.IsProper() && r.Size() == 0.0
    ensures forall w: real :: r.Contains(Range(w, w)) <==> w == v
  {
    Range(v, v)
  }

  /** The range union is the least upper bound of its operands, and it is
      commutative, associative and idempotent, and keeps intervals proper. */
  lemma RangeUnionLaws(a: Range, b: Range, c: Range)
    ensures c.Contains(a) && c.Contains(b) ==> c.Contains(a.Union(b))
    ensures a.Union(b) == b.Union(a)
    ensures a.Union(b).Union(c) == a.Union(b.Union(c))
    ensures a.Union(a) == a
    ensures a.IsProper() && b.IsProper() ==> a.Union(b).IsProper()
  {
  }

  /** An axis-aligned box: one range per axis. */
  datatype Bounds = Bounds(x: Range, y: Range) {

    predicate IsProper() { x.IsProper() && y.IsProper() }

    /** Both ranges are single points. */
    predicate IsPoint() { x.min == x.max && y.min == y.max }

    predicate Contains(b: Bounds) { x.Contains(b.x) && y.Contains(b.y) }

    predicate ContainsPoint(p: Pos2) { x.min <= p.x <= x.max && y.min <= p.y <= y.max }

    /** `Bounds | Bounds`: the axis-wise range union. */
    function Union(rhs: Bounds): (r: Bounds)
      ensures r.Contains(this) && r.Contains(rhs)
      ensures forall c: Bounds :: c.Contains(this) && c.Contains(rhs) ==> c.Contains(r)
    {
      Bounds(x.Union(rhs.x), y.Union(rhs.y))
    }
  }

  /** The box union is commutative and associative. */
  lemma BoundsUnionLaws(a: Bounds, b: Bounds, c: Bounds)
    ensures a.Union(b) == b.Union(a)
    ensures a.Union(b).Union(c) == a.Union(b.Union(c))
  {
    RangeUnionLaws(a.x, b.x, c.x);
    RangeUnionLaws(a.y, b.y, c.y);
  }

  /** `BoundingBox`: `Empty` (no item seen yet) or `Valid` bounds. */
  datatype BoundingBox = Empty | Valid(rect: Bounds) {

    /** This box is valid and holds `b`. */
    predicate Covers(b: Bounds) { Valid? && rect.Contains(b) }

    /** Everything `other` holds, this box holds. */
    predicate Includes(other: BoundingBox) { other.Empty? || Covers(other.rect) }

    /** `BoundingBox::width`: 0 for `Empty`, the x-range size otherwise. */
    function Width(): (w: real)
      ensures Empty? ==> w == 0.0
      ensures Valid? ==> w == rect.x.max - rect.x.min
      ensures Valid? ==> (w >= 0.0 <==> rect.x.IsProper())
    {
      match this
      case Empty => 0.0
      case Valid(r) => r.x.Size()
    }

    /** `BoundingBox::height`: 0 for `Empty`, the y-range size otherwise. */
    function Height(): (h: real)
      ensures Empty? ==> h == 0.0
      ensures Valid? ==> h == rect.y.max - rect.y.min
      ensures Valid? ==> (h >= 0.0 <==> rect.y.IsProper())
    {
      match this
      case Empty => 0.0
      case Valid(r) => r.y.Size()
    }

    /** `BoundingBox | BoundingBox`: empty only when both are. */
    function Union(other: BoundingBox): (r: BoundingBox)
      ensures r.Empty? <==> Empty? && other.Empty?
      ensures r.Includes(this) && r.Includes(other)
    {
      match (this, other)
      case (a, Empty) => a
      case (Empty, b) => b
      case (Valid(lhs), Valid(rhs)) => Valid(Bounds(lhs.x.Union(rhs.x), lhs.y.Union(rhs.y)))
    }

    /** `BoundingBox | Bounds`: never empty. */
    function UnionBounds(rhs: Bounds): (r: BoundingBox)
      ensures r.Valid? && r.Covers(rhs) && r.Includes(this)
    {
      match this
      case Empty => Valid(rhs)
      case Valid(lhs) => Valid(lhs.Union(rhs))
    }
  }

  /** `Empty` is a two-sided identity, two valid boxes unite axis-wise, and
      the union is commutative and associative. */
  lemma BoxUnionLaws(a: BoundingBox, b: BoundingBox, c: BoundingBox)
    ensures Empty.Union(a) == a && a.Union(Empty) == a
    ensures a.Valid? && b.Valid? ==> a.Union(b) == Valid(a.rect.Union(b.rect))
    ensures a.Union(b) == b.Union(a)
    ensures a.Union(b).Union(c) == a.Union(b.Union(c))
  {
    if a.Valid? && b.Valid? {
      BoundsUnionLaws(a.rect, b.rect, a.rect);
      if c.Valid? {
        BoundsUnionLaws(a.rect, b.rect, c.rect);
      }
    }
  }

  /** Uniting with bare bounds is uniting with the valid box around them. */
  lemma UnionBoundsIsUnion(a: BoundingBox, b: Bounds)
    ensures a.UnionBounds(b) == a.Union(Valid(b))
  {
  }

  // Bounded2D for the point types and the 2D triangle.

  /** Bounds of a `Pos2`: the degenerate box holding exactly that point. */
  function PointBounds(p: Pos2): (b: Bounds)
    ensures b.IsProper() && b.IsPoint()
    ensures forall q: Pos2 :: b.ContainsPoint(q) <==> q == p
  {
    Bounds(NewRange(p.x), NewRange(p.y))
  }

  /** Bounds of an `(f64, f64)` pair: those of the point it denotes. */
  function PairBounds(p: (real, real)): (b: Bounds)
    ensures b == PointBounds(Pos2(p.0, p.1))
  {
    Bounds(NewRange(p.0), NewRange(p.1))
  }

  /** Bounds of a 2D triangle: the smallest box holding its three vertices. */
  function TriangleBounds(t: Triangle<Pos2>): (b: Bounds)
    ensures b.IsProper()
    ensures b.ContainsPoint(t.v1) && b.ContainsPoint(t.v2) && b.ContainsPoint(t.v3)
    ensures forall c: Bounds :: c.ContainsPoint(t.v1) && c.ContainsPoint(t.v2) && c.ContainsPoint(t.v3) ==> c.Contains(b)
  {
    PointBounds(t.v1).Union(PointBounds(t.v2)).Union(PointBounds(t.v3))
  }

  // The folds over a sequence of items; `bnd` is the item type's bounds accessor.

  /** `Bounds::from_items` as a value: `None` for no items, otherwise the left
      fold of the item bounds under union, which holds every item's bounds. */
  function BoundsFold<T>(items: seq<T>, bnd: T -> Bounds): (r: Option<Bounds>)
    ensures r.None? <==> |items| == 0
    ensures r.Some? ==> forall i :: 0 <= i < |items| ==> r.value.Contains(bnd(items[i]))
  {
    if |items| == 0 then None
    else if |items| == 1 then Some(bnd(items[0]))
    else
      var prefix := items[..|items| - 1];
      assert forall i :: 0 <= i < |prefix| ==> prefix[i] == items[i];
      Some(BoundsFold(prefix, bnd).value.Union(bnd(items[|items| - 1])))
  }

  /** `BoundingBox::from_items` as a value: `Empty` exactly for no items, and a
      box that covers every item's bounds otherwise. */
  function BoxFold<T>(items: seq<T>, bnd: T -> Bounds): (r: BoundingBox)
    ensures r.Empty? <==> |items| == 0
    ensures forall i :: 0 <= i < |items| ==> r.Covers(bnd(items[i]))
  {
    if |items| == 0 then Empty
    else
      var prefix := items[..|items| - 1];
      assert forall i :: 0 <= i < |prefix| ==> prefix[i] == items[i];
      BoxFold(prefix, bnd).UnionBounds(bnd(items[|items| - 1]))
  }

  /** The two folds agree: `BoundingBox::from_items` is `Valid(b)` exactly when
      `Bounds::from_items` is `Some(b)`, and `Empty` exactly when it is `None`. */
  lemma {:induction false} BoxFoldAgreesWithBoundsFold<T>(items: seq<T>, bnd: T -> Bounds)
    ensures BoundsFold(items, bnd).None? ==> BoxFold(items, bnd) == Empty
    ensures BoundsFold(items, bnd).Some? ==> BoxFold(items, bnd) == Valid(BoundsFold(items, bnd).value)
  {
    if |items| > 1 {
      BoxFoldAgreesWithBoundsFold(items[..|items| - 1], bnd);
    } else if |items| == 1 {
      assert items[..0] == [];
    }
  }

  /** The box of a sequence is a sum of item bounds: folding a concatenation
      unites the folds of its parts. */
  lemma {:induction false} BoxFoldAppend<T>(a: seq<T>, b: seq<T>, bnd: T -> Bounds)
    ensures BoxFold(a + b, bnd) == BoxFold(a, bnd).Union(BoxFold(b, bnd))
    decreases |b|
  {
    if |b| == 0 {
      assert a + b == a;
      BoxUnionLaws(BoxFold(a, bnd), Empty, Empty);
    } else {
      var p, x := b[..|b| - 1], b[|b| - 1];
      assert (a + b)[..|a + b| - 1] == a + p;
      assert (a + b)[|a + b| - 1] == x;
      BoxFoldAppend(a, p, bnd);
      UnionBoundsIsUnion(BoxFold(a + p, bnd), bnd(x));
      UnionBoundsIsUnion(BoxFold(p, bnd), bnd(x));
      BoxUnionLaws(BoxFold(a, bnd), BoxFold(p, bnd), Valid(bnd(x)));
    }
  }

  /** The box of a sequence does not depend on the order of its items. */
  lemma {:induction false} BoxFoldPermutation<T>(a: seq<T>, b: seq<T>, bnd: T -> Bounds)
    requires multiset(a) == multiset(b)
    ensures BoxFold(a, bnd) == BoxFold(b, bnd)
    decreases |a|
  {
    if |a| == 0 {
      assert |multiset(b)| == 0;
    } else {
      var n := |a|;
      var x, a' := a[n - 1], a[..n - 1];
      assert a == a' + [x];
      assert x in multiset(b);
      var j :| 0 <= j < |b| && b[j] == x;
      var left, right := b[..j], b[j + 1..];
      assert b == left + [x] + right;
      RemoveOne(a', left, x, right);
      BoxFoldPermutation(a', left + right, bnd);
      BoxFoldMoveLast(left, x, right, bnd);
      assert (left + right + [x])[..|left + right|] == left + right;
    }
  }

  /** Taking `x` out of both sides of a multiset equation. */
  lemma RemoveOne<T>(a': seq<T>, left: seq<T>, x: T, right: seq<T>)
    requires multiset(a' + [x]) == multiset(left + [x] + right)
    ensures multiset(a') == multiset(left + right)
  {
    assert multiset(left + [x] + right) == multiset(left) + multiset{x} + multiset(right);
    assert multiset(a' + [x]) == multiset(a') + multiset{x};
    assert multiset(a') == multiset(a' + [x]) - multiset{x};
    assert multiset(left + right) == multiset(left) + multiset(right);
  }

  /** Moving one item to the end does not change the box. */
  lemma BoxFoldMoveLast<T>(left: seq<T>, x: T, right: seq<T>, bnd: T -> Bounds)
    ensures BoxFold(left + [x] + right, bnd) == BoxFold(left + right + [x], bnd)
  {
    var fl, fx, fr := BoxFold(left, bnd), BoxFold([x], bnd), BoxFold(right, bnd);
    BoxFoldAppend(left + [x], right, bnd);
    BoxFoldAppend(left, [x], bnd);
    BoxFoldAppend(left + right, [x], bnd);
    BoxFoldAppend(left, right, bnd);
    BoxUnionLaws(fl, fx, fr);
    BoxUnionLaws(fx, fr, fl);
    BoxUnionLaws(fl, fr, fx);
  }

  /** Each side of a non-empty fold is the matching side of some item. */
  ghost predicate Attained<T>(items: seq<T>, bnd: T -> Bounds, b: Bounds)
  {
    && (exists i :: 0 <= i < |items| && bnd(items[i]).x.min == b.x.min)
    && (exists i :: 0 <= i < |items| && bnd(items[i]).x.max == b.x.max)
    && (exists i :: 0 <= i < |items| && bnd(items[i]).y.min == b.y.min)
    && (exists i :: 0 <= i < |items| && bnd(items[i]).y.max == b.y.max)
  }

  /** The box of a non-empty sequence is tight: each of its four sides
      touches some item, so it is the smallest box holding them all. */
  lemma {:induction false} BoxFoldTight<T>(items: seq<T>, bnd: T -> Bounds)
    requires |items| > 0
    ensures Attained(items, bnd, BoxFold(items, bnd).rect)
  {
    var n := |items|;
    var r := BoxFold(items, bnd).rect;
    var last := bnd(items[n - 1]);
    if n == 1 {
      assert items[..0] == [];
      assert r == last;
      assert bnd(items[0]).x.min == r.x.min && bnd(items[0]).x.max == r.x.max;
      assert bnd(items[0]).y.min == r.y.min && bnd(items[0]).y.max == r.y.max;
    } else {
      var p := items[..n - 1];
      BoxFoldTight(p, bnd);
      var pr := BoxFold(p, bnd).rect;
      assert r == pr.Union(last);
      if r.x.min == pr.x.min {
        var i :| 0 <= i < |p| && bnd(p[i]).x.min == pr.x.min;
        assert p[i] == items[i];
      } else {
        assert bnd(items[n - 1]).x.min == r.x.min;
      }
      if r.x.max == pr.x.max {
        var i :| 0 <= i < |p| && bnd(p[i]).x.max == pr.x.max;
        assert p[i] == items[i];
      } else {
        assert bnd(items[n - 1]).x.max == r.x.max;
      }
      if r.y.min == pr.y.min {
        var i :| 0 <= i < |p| && bnd(p[i]).y.min == pr.y.min;
        assert p[i] == items[i];
      } else {
        assert bnd(items[n - 1]).y.min == r.y.min;
      }
      if r.y.max == pr.y.max {
        var i :| 0 <= i < |p| && bnd(p[i]).y.max == pr.y.max;
        assert p[i] == items[i];
      } else {
        assert bnd(items[n - 1]).y.max == r.y.max;
      }
    }
  }

  /** `Bounds::from_items`: the first item's bounds, united in turn with the
      bounds of each later item. */
  method BoundsFromItems<T>(items: seq<T>, bnd: T -> Bounds) returns (r: Option<Bounds>)
    ensures r == BoundsFold(items, bnd)
  {
    if |items| == 0 {
      return None;
    }
    var res := bnd(items[0]);
    for i := 1 to |items|
      invariant BoundsFold(items[..i], bnd) == Some(res)
    {
      assert items[..i + 1][..i] == items[..i];
      res := res.Union(bnd(items[i]));
    }
    assert items[..|items|] == items;
    return Some(res);
  }

  /** `BoundingBox::from_items`: start from `Empty` and unite with the bounds
      of each item in turn. */
  method BoundingBoxFromItems<T>(items: seq<T>, bnd: T -> Bounds) returns (r: BoundingBox)
    ensures r == BoxFold(items, bnd)
  {
    r := Empty;
    for i := 0 to |items|
      invariant r == BoxFold(items[..i], bnd)
    {
      assert items[..i + 1][..i] == items[..i];
      r := r.UnionBounds(bnd(items[i]));
    }
    assert items[..|items|] == items;
  }

  // The `|=` operators, which overwrite their left operand in place.

  /** A `Range` place updated by `Range |= Range`. */
  class RangeCell {
    var min: real
    var max: real

    function Value(): Range
      reads this
    {
      Range(min, max)
    }

    constructor (r: Range)
      ensures Value() == r
    {
      min, max := r.min, r.max;
    }

    method OrAssign(rhs: Range)
      modifies this
      ensures Value() == old(Value()).Union(rhs)
    {
      min := Min(min, rhs.min);
      max := Max(max, rhs.max);
    }
  }

  /** A `Bounds` place updated by `Bounds |= &Bounds`, range by range. */
  class BoundsCell {
    var x: Range
    var y: Range

    function Value(): Bounds
      reads this
    {
      Bounds(x, y)
    }

    constructor (b: Bounds)
      ensures Value() == b
    {
      x, y := b.x, b.y;
    }

    method OrAssign(rhs: Bounds)
      modifies this
      ensures Value() == old(Value()).Union(rhs)
    {
      x := x.Union(rhs.x);
      y := y.Union(rhs.y);
    }
  }

  /** A `BoundingBox` place updated by `BoundingBox |= BoundingBox`. The
      source unites `rhs` with the old bounds in that order; by commutativity
      the new value is the old value united with `rhs`. */
  class BoundingBoxCell {
    var value: BoundingBox

    constructor (b: BoundingBox)
      ensures value == b
    {
      value := b;
    }

    method OrAssign(rhs: BoundingBox)
      modifies this
      ensures value == old(value).Union(rhs)
    {
      match value
      case Empty =>
        value := rhs;
      case Valid(b) =>
        UnionBoundsIsUnion(rhs, b);
        BoxUnionLaws(rhs, value, value);
        value := rhs.UnionBounds(b);
    }
  }
}
