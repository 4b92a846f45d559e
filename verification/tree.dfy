/**
  The partition tree as the mutable object structure it is: every node owns
  its region, its depth, the maximum depth, a list of children built once
  by the constructor and a list of points that `Add` appends to in place.
  `Model` is the value (see `PartitionModel`) the subtree stands for and
  `Repr` the set of nodes it consists of.
 */
module PartitionTree {
  import opened Geometry
  import opened PartitionModel

  class Tree {
    const region: Region
    const depth: int
    const maxDepth: int
    var children: seq<Tree>
    var data: seq<Point>

    ghost var Model: Node
    ghost var Repr: set<object>

    /** The nodes form a tree (children own disjoint parts of the footprint)
        and `Model` mirrors the fields of every node. */
    ghost predicate Linked()
      reads this, Repr
      decreases Repr
    {
      && this in Repr
      && Model.region == region && Model.depth == depth && Model.maxDepth == maxDepth
      && Model.data == data
      && |Model.kids| == |children|
      && (forall i :: 0 <= i < |children| ==>
            && children[i] in Repr
            && children[i].Repr <= Repr
            && this !in children[i].Repr
            && children[i].Linked()
            && children[i].Model == Model.kids[i])
      && (forall i, j :: 0 <= i < j < |children| ==> children[i].Repr !! children[j].Repr)
    }

    /** A linked tree with the shape construction gives it. */
    ghost predicate Valid()
      reads this, Repr
    {
      Linked() && WellFormed(Model)
    }

    /** Builds the node and, eagerly, its whole subtree down to `maxDepth`;
        every list of recorded points starts empty. */
    constructor (region: Region, depth: int := 0, maxDepth: int := 2)
      requires depth < maxDepth ==> region.Splittable()
      ensures Valid() && fresh(Repr)
      ensures this.region == region && this.depth == depth && this.maxDepth == maxDepth
      ensures Model == Build(region, depth, maxDepth)
      decreases maxDepth - depth, 2
    {
      this.region := region;
      this.depth := depth;
      this.maxDepth := maxDepth;
      children := [];
      data := [];
      Model := Node(region, depth, maxDepth, [], []);
      Repr := {this};
      new;
      AddChildren();
      assert WellFormed(Model);
    }

    /** Appends one child per piece of the region's split, in split order,
        one level deeper, while the node is above the maximum depth. */
    method AddChildren()
      requires Linked() && Repr == {this} && children == [] && data == []
      requires Model == Node(region, depth, maxDepth, [], [])
      requires depth < maxDepth ==> region.Splittable()
      modifies this
      ensures Linked() && fresh(Repr - old(Repr))
      ensures Model == Build(region, depth, maxDepth)
      decreases maxDepth - depth, 1
    {
      ghost var full := Build(region, depth, maxDepth);
      if depth < maxDepth {
        var pieces := region.Split();
        var i := 0;
        while i < |pieces|
          invariant 0 <= i <= |pieces| == |full.kids|
          invariant Linked() && fresh(Repr - {this})
          invariant data == [] && |children| == i
          invariant Model == Node(region, depth, maxDepth, [], full.kids[..i])
        {
          AddChild(pieces[i]);
          BuildKidsPrefix(region, depth, maxDepth, i);
          i := i + 1;
        }
        assert full.kids[..i] == full.kids;
      }
    }

    /** Builds the subtree of one piece, one level deeper, and appends it. */
    method AddChild(piece: Region)
      requires Linked() && depth < maxDepth
      requires depth + 1 < maxDepth ==> piece.Splittable()
      modifies this
      ensures Linked() && data == old(data) && old(Repr) <= Repr && fresh(Repr - old(Repr))
      ensures |children| == |old(children)| + 1 && children[..|old(children)|] == old(children)
      ensures fresh(children[|old(children)|])
      ensures Model == old(Model).(kids := old(Model.kids) + [Build(piece, depth + 1, maxDepth)])
      decreases maxDepth - depth, 0
    {
      var child := new Tree(piece, depth := depth + 1, maxDepth := maxDepth);
      Adopt(child);
    }

    /** Appends `child`, a separate tree, to the children. */
    method Adopt(child: Tree)
      requires Linked() && child.Linked() && child.Repr !! Repr
      modifies this
      ensures Linked() && data == old(data)
      ensures children == old(children) + [child] && Repr == old(Repr) + child.Repr
      ensures Model == old(Model).(kids := old(Model.kids) + [child.Model])
    {
      children := children + [child];
      Repr := Repr + child.Repr;
      Model := Model.(kids := Model.kids + [child.Model]);
      assert forall j :: 0 <= j < |children| - 1 ==> children[j] == old(children[j]);
    }

    /** Whether the node's region contains the point; it does exactly when
        `Add` would record the point. */
    function Contains(p: Point): (b: bool)
      reads this, Repr
      requires Valid() && region.Accepts(p)
      ensures AllAccept(Model, p)
      ensures b <==> Insert(Model, p) != Model
    {
      WellFormedAccepts(Model, p);
      InsertChanges(Model, p);
      region.Contains(p)
    }

    /** Records the point at this node when its region contains it and
        passes it on to every child in order; otherwise does nothing. */
    method Add(p: Point)
      requires Valid() && region.Accepts(p)
      modifies Repr
      ensures Valid() && Repr == old(Repr) && children == old(children)
      ensures AllAccept(old(Model), p) && Model == Insert(old(Model), p)
      decreases Repr, 1
    {
      WellFormedAccepts(Model, p);
      if Contains(p) {
        ghost var before := Model;
        KidsAccept(before, p);
        Record(p);
        var i := 0;
        while i < |children|
          invariant 0 <= i <= |children|
          invariant Linked() && Repr == old(Repr) && children == old(children)
          invariant Model.data == before.data + [p] && |Model.kids| == |before.kids|
          invariant forall j :: 0 <= j < i ==> Model.kids[j] == Insert(before.kids[j], p)
          invariant forall j :: i <= j < |children| ==> Model.kids[j] == before.kids[j]
        {
          AddToChild(i, p);
          i := i + 1;
        }
        InsertInside(before, p, Model.kids);
        InsertWellFormed(before, p);
      }
    }

    /** Appends the point to this node's own list. */
    method Record(p: Point)
      requires Linked()
      modifies this
      ensures Linked() && children == old(children) && Repr == old(Repr)
      ensures data == old(data) + [p] && Model == old(Model).(data := old(data) + [p])
    {
      data := data + [p];
      Model := Model.(data := data);
    }

    /** `Add` on the `i`-th child, with this node's `Model` brought up to
        date; nothing else of this node changes. */
    method AddToChild(i: nat, p: Point)
      requires Linked() && i < |children|
      requires WellFormed(Model.kids[i]) && Model.kids[i].region.Accepts(p)
      modifies Repr
      ensures Linked() && Repr == old(Repr) && children == old(children) && data == old(data)
      ensures AllAccept(old(Model.kids[i]), p)
      ensures Model == old(Model).(kids := old(Model.kids)[i := Insert(old(Model.kids[i]), p)])
      decreases Repr, 0
    {
      var child := children[i];
      child.Add(p);
      forall j | 0 <= j < |children| && j != i
        ensures children[j].Linked()
        ensures children[j].Repr == old(children[j].Repr)
        ensures children[j].Model == old(children[j].Model)
      {
        assert children[j].Repr !! child.Repr;
      }
      Model := Model.(kids := Model.kids[i := child.Model]);
    }
  }
}
