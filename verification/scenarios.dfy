/**
  The two trees the module's demonstration builds: `[0, 8)` and the square
  `[0, 8) x [0, 8)`, both with maximum depth 2.
 */
module Scenarios {
  import opened Geometry
  import opened PartitionModel
  import opened PartitionTree

  /** The interval tree: 1 + 2 + 4 nodes, halves `[0, 4)`, `[4, 8)`, then
      quarters. */
  lemma {:induction false} RangeScenario()
    ensures var t := Build(OfRange(Range(0.0, 8.0)), 0, 2);
      && Size(t) == 7
      && t.kids[0].region == OfRange(Range(0.0, 4.0))
      && t.kids[1].region == OfRange(Range(4.0, 8.0))
      && t.kids[0].kids[0].region == OfRange(Range(0.0, 2.0))
      && t.kids[0].kids[1].region == OfRange(Range(2.0, 4.0))
      && t.kids[1].kids[0].region == OfRange(Range(4.0, 6.0))
      && t.kids[1].kids[1].region == OfRange(Range(6.0, 8.0))
  {
    var t := Build(OfRange(Range(0.0, 8.0)), 0, 2);
    NodeCount(t);
    assert GeomSum(2, 2) == 7 by {
      assert Pow(2, 2) == 4 && Pow(2, 1) == 2;
    }
  }

  /** Adding 1 to the interval tree records it at the root, at `[0, 4)` and
      at `[0, 2)` only; 3 is inside the root region, 10 is not. */
  lemma RangeInsertScenario()
    ensures var t := Build(OfRange(Range(0.0, 8.0)), 0, 2);
      && t.region.Contains(Scalar(3.0)) && !t.region.Contains(Scalar(10.0))
      && var u := Insert(t, Scalar(1.0));
      && u.data == [Scalar(1.0)]
      && u.kids[0].data == [Scalar(1.0)] && u.kids[1].data == []
      && u.kids[0].kids[0].data == [Scalar(1.0)] && u.kids[0].kids[1].data == []
      && u.kids[1].kids[0].data == [] && u.kids[1].kids[1].data == []
  {
  }

  /** The square tree: 1 + 4 + 16 nodes. */
  lemma {:induction false} RectangleScenario()
    ensures Size(Build(OfRectangle(FromBounds([0.0, 0.0], [8.0, 8.0])), 0, 2)) == 21
  {
    var t := Build(OfRectangle(FromBounds([0.0, 0.0], [8.0, 8.0])), 0, 2);
    NodeCount(t);
    assert GeomSum(4, 2) == 21 by {
      assert Pow(4, 2) == 16 && Pow(4, 1) == 4;
    }
  }

  /** The square's quadrants, in the order its children are built:
      lower-left, upper-left, lower-right, upper-right. */
  lemma SquareQuadrants()
    ensures var q := FromBounds([0.0, 0.0], [8.0, 8.0]).Split();
      && q[0].ranges == [Range(0.0, 4.0), Range(0.0, 4.0)]
      && q[1].ranges == [Range(0.0, 4.0), Range(4.0, 8.0)]
      && q[2].ranges == [Range(4.0, 8.0), Range(0.0, 4.0)]
      && q[3].ranges == [Range(4.0, 8.0), Range(4.0, 8.0)]
  {
    var square := FromBounds([0.0, 0.0], [8.0, 8.0]);
    assert square.ranges == [Range(0.0, 8.0), Range(0.0, 8.0)];
    assert Range(0.0, 8.0).Split() == [Range(0.0, 4.0), Range(4.0, 8.0)];
  }

  /** The demonstration run on the object structure: build the interval
      tree, add 1, ask about 3 and 10; then build the square tree. */
  method Demo() returns (tree: Tree, other: Tree)
    ensures tree.Valid() && tree.Model == Insert(Build(OfRange(Range(0.0, 8.0)), 0, 2), Scalar(1.0))
    ensures other.Valid() && other.Model == Build(OfRectangle(FromBounds([0.0, 0.0], [8.0, 8.0])), 0, 2)
  {
    tree := new Tree(OfRange(Range(0.0, 8.0)), maxDepth := 2);
    tree.Add(Scalar(1.0));
    assert tree.Contains(Scalar(3.0));
    assert !tree.Contains(Scalar(10.0));
    other := new Tree(OfRectangle(FromBounds([0.0, 0.0], [8.0, 8.0])), maxDepth := 2);
  }
}
