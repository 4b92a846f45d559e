/**
  Regions of the space-partitioning tree: the half-open interval `Range`,
  the two-axis `Rectangle` built from two of them, and `Region`, the choice
  between the two that a tree node holds (the source accepts either by duck
  typing). Coordinates are exact reals, so bisection is exact.
 */
module Geometry {

  /** A half-open interval `[low, high)`. No relation between the bounds is
      enforced: when `high <= low` the interval contains nothing. */
  datatype Range = Range(low: real, high: real) {

    /** Half-open membership: the lower bound is in, the upper bound is out. */
    predicate Contains(p: real)
      ensures Contains(p) ==> low < high
    {
      low <= p < high
    }

    /** Bisection into two halves of width `(high - low) / 2`, lower half
        first; the i-th half starts `i` half-widths above `low`. */
    function Split(): (halves: seq<Range>)
      ensures |halves| == 2
      ensures halves[0].low == low && halves[1].high == high
      ensures halves[0].high == halves[1].low == (low + high) / 2.0
      ensures halves[0].high - halves[0].low == halves[1].high - halves[1].low == (high - low) / 2.0
    {
      var incr := (high - low) / 2.0;
      seq(2, i requires 0 <= i < 2 => Range(low + incr * i as real, low + incr * (i + 1) as real))
    }
  }

  /** Membership is exactly `low <= p < high`: the upper bound is never a
      member, the lower bound is one exactly when the range is non-empty. */
  lemma RangeContainsBounds(r: Range, p: real)
    ensures r.Contains(p) <==> r.low <= p && p < r.high
    ensures !r.Contains(r.high)
    ensures r.Contains(r.low) <==> r.low < r.high
  {
  }

  /** The two halves of a range cover it with no gap and no overlap; the
      midpoint belongs to the upper half only. */
  lemma RangeSplitPartition(r: Range, p: real)
    ensures var h := r.Split(); r.Contains(p) <==> h[0].Contains(p) || h[1].Contains(p)
    ensures var h := r.Split(); !(h[0].Contains(p) && h[1].Contains(p))
    ensures var h := r.Split(); r.low < r.high ==> h[1].Contains(h[0].high) && !h[0].Contains(h[0].high)
  {
  }

  /** The `Range` built from the i-th lower and i-th upper bound, for every
      position both bound lists have; the longer list's excess is dropped, as
      pairing two lists up with `zip` does. */
  function FromBounds(lows: seq<real>, highs: seq<real>): (rect: Rectangle)
    ensures |rect.ranges| <= |lows| && |rect.ranges| <= |highs|
    ensures |rect.ranges| == |lows| || |rect.ranges| == |highs|
    ensures forall i :: 0 <= i < |rect.ranges| ==> rect.ranges[i] == Range(lows[i], highs[i])
  {
    var n := if |lows| <= |highs| then |lows| else |highs|;
    Rectangle(seq(n, i requires 0 <= i < n => Range(lows[i], highs[i])))
  }

  /** An axis-aligned box, one `Range` per axis (x first). */
  datatype Rectangle = Rectangle(ranges: seq<Range>) {

    /** Every coordinate lies in the range of its axis. Coordinates and
        ranges are paired up position by position and the surplus of the
        longer one is ignored, so only the common prefix is checked. */
    predicate Contains(point: seq<real>)
      ensures |point| == 0 || |ranges| == 0 ==> Contains(point)
      ensures Contains(point) ==> forall i :: 0 <= i < |point| && i < |ranges| ==> ranges[i].low < ranges[i].high
    {
      forall i :: 0 <= i < |point| && i < |ranges| ==> ranges[i].Contains(point[i])
    }

    /** The four quadrants: the Cartesian product of the halves of the x
        range and the halves of the y range, with x outermost. Only a
        two-axis rectangle can be split. */
    function Split(): (quads: seq<Rectangle>)
      requires |ranges| == 2
      ensures |quads| == 4
      ensures var xs, ys := ranges[0].Split(), ranges[1].Split();
        && quads[0].ranges == [xs[0], ys[0]]
        && quads[1].ranges == [xs[0], ys[1]]
        && quads[2].ranges == [xs[1], ys[0]]
        && quads[3].ranges == [xs[1], ys[1]]
    {
      var xs, ys := ranges[0].Split(), ranges[1].Split();
      [Quadrant(xs[0], ys[0]), Quadrant(xs[0], ys[1]), Quadrant(xs[1], ys[0]), Quadrant(xs[1], ys[1])]
    }
  }

  /** The rectangle with x range `sx` and y range `sy`, built from its lower
      and upper corners. */
  function Quadrant(sx: Range, sy: Range): (rect: Rectangle)
    ensures rect.ranges == [sx, sy]
  {
    var rect := FromBounds([sx.low, sy.low], [sx.high, sy.high]);
    assert rect.ranges[0] == sx && rect.ranges[1] == sy;
    rect
  }

  /** On a two-axis rectangle and a two-coordinate point, membership is the
      conjunction of the two per-axis memberships. */
  lemma RectangleContainsAxes(rect: Rectangle, point: seq<real>)
    requires |rect.ranges| == 2 && |point| == 2
    ensures rect.Contains(point) <==> rect.ranges[0].Contains(point[0]) && rect.ranges[1].Contains(point[1])
  {
    if rect.ranges[0].Contains(point[0]) && rect.ranges[1].Contains(point[1]) {
      forall i | 0 <= i < |point| && i < |rect.ranges|
        ensures rect.ranges[i].Contains(point[i])
      {
        assert i == 0 || i == 1;
      }
    }
  }

  /** The four quadrants of a two-axis rectangle cover it with no gap and
      no overlap. */
  lemma {:induction false} RectangleSplitPartition(rect: Rectangle, point: seq<real>)
    requires |rect.ranges| == 2 && |point| == 2
    ensures var q := rect.Split();
      rect.Contains(point) <==> exists k :: 0 <= k < 4 && q[k].Contains(point)
    ensures var q := rect.Split();
      forall k, l :: 0 <= k < l < 4 ==> !(q[k].Contains(point) && q[l].Contains(point))
  {
    var q := rect.Split();
    var xs, ys := rect.ranges[0].Split(), rect.ranges[1].Split();
    RectangleContainsAxes(rect, point);
    RangeSplitPartition(rect.ranges[0], point[0]);
    RangeSplitPartition(rect.ranges[1], point[1]);
    RectangleContainsAxes(q[0], point);
    RectangleContainsAxes(q[1], point);
    RectangleContainsAxes(q[2], point);
    RectangleContainsAxes(q[3], point);
  }

  /** A point handed to a tree: a bare number for a `Range` region, a tuple
      of coordinates for a `Rectangle` region. */
  datatype Point = Scalar(x: real) | Tuple(coords: seq<real>)

  /** The region a tree node covers. */
  datatype Region = OfRange(range: Range) | OfRectangle(rectangle: Rectangle) {

    /** The kinds of region and point agree; any other pairing fails with a
        type error in the source. */
    predicate Accepts(p: Point)
    {
      match this
      case OfRange(_) => p.Scalar?
      case OfRectangle(_) => p.Tuple?
    }

    /** The point also has one coordinate per axis of the region. */
    predicate Matches(p: Point)
    {
      Accepts(p) && (OfRectangle? ==> |p.coords| == |rectangle.ranges|)
    }

    predicate SameKind(other: Region)
    {
      OfRange? == other.OfRange?
    }

    predicate Contains(p: Point)
      requires Accepts(p)
      ensures OfRange? ==> (Contains(p) <==> range.low <= p.x < range.high)
      ensures OfRectangle? && |p.coords| == |rectangle.ranges| == 2 ==>
        (Contains(p) <==> rectangle.ranges[0].Contains(p.coords[0]) && rectangle.ranges[1].Contains(p.coords[1]))
    {
      match this
      case OfRange(r) => r.Contains(p.x)
      case OfRectangle(rect) => rect.Contains(p.coords)
    }

    /** Splitting a rectangle unpacks exactly two axis ranges. */
    predicate Splittable()
    {
      OfRectangle? ==> |rectangle.ranges| == 2
    }

    /** Number of pieces a split yields. */
    function Arity(): nat
    {
      if OfRange? then 2 else 4
    }

    /** The pieces of the region in split order, each of the same kind and
        again splittable. */
    function Split(): (pieces: seq<Region>)
      requires Splittable()
      ensures |pieces| == Arity()
      ensures forall i :: 0 <= i < |pieces| ==> pieces[i].SameKind(this) && pieces[i].Splittable()
    {
      match this
      case OfRange(r) =>
        var h := r.Split();
        seq(|h|, i requires 0 <= i < |h| => OfRange(h[i]))
      case OfRectangle(rect) =>
        var q := rect.Split();
        seq(|q|, i requires 0 <= i < |q| => OfRectangle(q[i]))
    }
  }

  /** How many of the regions contain the point. */
  function CountIn(rs: seq<Region>, p: Point): nat
    requires forall i :: 0 <= i < |rs| ==> rs[i].Accepts(p)
  {
    if rs == [] then 0 else Hit(rs[0], p) + CountIn(rs[1..], p)
  }

  /** Counting over the pieces of one split, position by position. */
  lemma CountInUnfold(rs: seq<Region>, p: Point)
    requires forall i :: 0 <= i < |rs| ==> rs[i].Accepts(p)
    requires |rs| == 2 || |rs| == 4
    ensures |rs| == 2 ==> CountIn(rs, p) == Hit(rs[0], p) + Hit(rs[1], p)
    ensures |rs| == 4 ==> CountIn(rs, p) == Hit(rs[0], p) + Hit(rs[1], p) + Hit(rs[2], p) + Hit(rs[3], p)
  {
    assert rs[1..][1..] == rs[2..];
    assert CountIn(rs[1..], p) == Hit(rs[1], p) + CountIn(rs[2..], p);
    if |rs| == 4 {
      assert rs[2..][1..] == rs[3..] && rs[3..][1..] == [];
      assert CountIn(rs[2..], p) == Hit(rs[2], p) + CountIn(rs[3..], p);
      assert CountIn(rs[3..], p) == Hit(rs[3], p) + CountIn([], p);
    } else {
      assert rs[2..] == [];
    }
  }

  function Hit(g: Region, p: Point): nat
    requires g.Accepts(p)
  {
    if g.Contains(p) then 1 else 0
  }

  /** Split partitions a region: a point of the right dimension lies in
      exactly one piece when the region contains it, and in none otherwise. */
  lemma SplitPartition(g: Region, p: Point)
    requires g.Splittable() && g.Matches(p)
    ensures CountIn(g.Split(), p) == if g.Contains(p) then 1 else 0
  {
    var s := g.Split();
    CountInUnfold(s, p);
    match g
    case OfRange(r) =>
      RangeSplitPartition(r, p.x);
    case OfRectangle(rect) =>
      var q := rect.Split();
      RectangleSplitPartition(rect, p.coords);
      assert s[0].Contains(p) == q[0].Contains(p.coords);
      assert s[1].Contains(p) == q[1].Contains(p.coords);
      assert s[2].Contains(p) == q[2].Contains(p.coords);
      assert s[3].Contains(p) == q[3].Contains(p.coords);
  }
}
