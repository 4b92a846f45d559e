/**
  The value a partition tree denotes: every node's region, depth, maximum
  depth, recorded points and children, as one immutable `Node`. `Build` is
  what construction produces, `Insert` what one `add` does; the lemmas here
  are the shape and insertion properties of the tree.
 */
module PartitionModel {
  import opened Geometry

  datatype Node = Node(region: Region, depth: int, maxDepth: int, data: seq<Point>, kids: seq<Node>)

  /** The shape construction gives: below the maximum depth a node has one
      child per piece of its region's split, in split order, one level
      deeper and with the same maximum depth; at or past it, none. */
  predicate WellFormed(n: Node)
    decreases n
  {
    if n.depth < n.maxDepth then
      && n.region.Splittable()
      && var pieces := n.region.Split();
      && |n.kids| == |pieces|
      && forall i :: 0 <= i < |n.kids| ==>
           && n.kids[i].region == pieces[i]
           && n.kids[i].depth == n.depth + 1
           && n.kids[i].maxDepth == n.maxDepth
           && WellFormed(n.kids[i])
    else
      n.kids == []
  }

  /** No node of the subtree has recorded a point. */
  predicate NoData(n: Node)
    decreases n
  {
    n.data == [] && forall i :: 0 <= i < |n.kids| ==> NoData(n.kids[i])
  }

  /** The tree that construction at `depth` produces: children are built
      eagerly, one per piece of the split, until `maxDepth` is reached. */
  function Build(region: Region, depth: int, maxDepth: int): (n: Node)
    requires depth < maxDepth ==> region.Splittable()
    ensures n.region == region && n.depth == depth && n.maxDepth == maxDepth
    ensures |n.kids| == if depth < maxDepth then region.Arity() else 0
    ensures WellFormed(n) && NoData(n)
    decreases maxDepth - depth
  {
    if depth < maxDepth then
      var pieces := region.Split();
      Node(region, depth, maxDepth, [],
           seq(|pieces|, i requires 0 <= i < |pieces| => Build(pieces[i], depth + 1, maxDepth)))
    else
      Node(region, depth, maxDepth, [], [])
  }

  /** Below the maximum depth, the first `i + 1` children are the first `i`
      followed by the tree built from the i-th piece of the split, one level
      deeper. */
  lemma BuildKidsPrefix(region: Region, depth: int, maxDepth: int, i: nat)
    requires depth < maxDepth && region.Splittable() && i < region.Arity()
    ensures var kids := Build(region, depth, maxDepth).kids;
      kids[..i + 1] == kids[..i] + [Build(region.Split()[i], depth + 1, maxDepth)]
  {
    var kids := Build(region, depth, maxDepth).kids;
    assert kids[i] == Build(region.Split()[i], depth + 1, maxDepth);
    assert kids[..i + 1] == kids[..i] + [kids[i]];
  }

  /** Every region of the subtree is of the point's kind. */
  predicate AllAccept(n: Node, p: Point)
    decreases n
  {
    n.region.Accepts(p) && forall i :: 0 <= i < |n.kids| ==> AllAccept(n.kids[i], p)
  }

  /** The two trees agree everywhere except possibly in recorded points. */
  predicate SameShape(a: Node, b: Node)
    decreases a
  {
    && a.region == b.region && a.depth == b.depth && a.maxDepth == b.maxDepth
    && |a.kids| == |b.kids|
    && forall i :: 0 <= i < |a.kids| ==> SameShape(a.kids[i], b.kids[i])
  }

  /** One insertion: a node whose region does not contain the point is left
      as it is; otherwise the point is appended to its records and inserted
      into every child in turn. */
  function Insert(n: Node, p: Point): (r: Node)
    requires AllAccept(n, p)
    ensures SameShape(r, n)
    decreases n
  {
    if n.region.Contains(p) then
      n.(data := n.data + [p],
         kids := seq(|n.kids|, i requires 0 <= i < |n.kids| => Insert(n.kids[i], p)))
    else
      SameShapeReflexive(n);
      n
  }

  lemma {:induction false} SameShapeReflexive(n: Node)
    ensures SameShape(n, n)
    decreases n
  {
    forall i | 0 <= i < |n.kids|
      ensures SameShape(n.kids[i], n.kids[i])
    {
      SameShapeReflexive(n.kids[i]);
    }
  }

  /** The regions of a well-formed tree are all of one kind, so a point the
      root accepts is accepted everywhere. */
  lemma {:induction false} WellFormedAccepts(n: Node, p: Point)
    requires WellFormed(n) && n.region.Accepts(p)
    ensures AllAccept(n, p)
    decreases n
  {
    forall i | 0 <= i < |n.kids|
      ensures AllAccept(n.kids[i], p)
    {
      WellFormedAccepts(n.kids[i], p);
    }
  }

  /** Well-formedness does not look at recorded points. */
  lemma {:induction false} SameShapeWellFormed(a: Node, b: Node)
    requires SameShape(a, b) && WellFormed(b)
    ensures WellFormed(a)
    decreases a
  {
    forall i | 0 <= i < |a.kids|
      ensures WellFormed(a.kids[i])
    {
      SameShapeWellFormed(a.kids[i], b.kids[i]);
    }
  }

  /** Insertion keeps the tree well-formed. */
  lemma InsertWellFormed(n: Node, p: Point)
    requires WellFormed(n) && AllAccept(n, p)
    ensures WellFormed(Insert(n, p))
  {
    SameShapeWellFormed(Insert(n, p), n);
  }

  /** `add` changes the tree exactly when the root's region contains the
      point; otherwise it is a silent no-op. */
  lemma InsertChanges(n: Node, p: Point)
    requires AllAccept(n, p)
    ensures Insert(n, p) != n <==> n.region.Contains(p)
    ensures n.region.Contains(p) ==> Insert(n, p).data == n.data + [p]
  {
    if n.region.Contains(p) {
      assert |Insert(n, p).data| == |n.data| + 1;
    }
  }

  /** Insertion at a node whose region contains the point, given the
      children as they are after insertion into each of them. */
  lemma InsertInside(n: Node, p: Point, kids: seq<Node>)
    requires AllAccept(n, p) && n.region.Contains(p)
    requires |kids| == |n.kids| && forall j :: 0 <= j < |kids| ==> kids[j] == Insert(n.kids[j], p)
    ensures Insert(n, p) == n.(data := n.data + [p], kids := kids)
  {
  }

  /** What a well-formed node passes on to each child: the child is
      well-formed and accepts every point its parent accepts. */
  lemma KidsAccept(n: Node, p: Point)
    requires WellFormed(n) && n.region.Accepts(p)
    ensures forall j :: 0 <= j < |n.kids| ==> WellFormed(n.kids[j]) && n.kids[j].region.Accepts(p)
  {
  }

  // ---------------------------------------------------------------------
  // Shape of a constructed tree

  /** Every leaf of the subtree sits at depth `k`. */
  predicate LeavesAt(n: Node, k: int)
    decreases n
  {
    if n.kids == [] then n.depth == k
    else forall i :: 0 <= i < |n.kids| ==> LeavesAt(n.kids[i], k)
  }

  /** In a well-formed tree that starts at or above its maximum depth, every
      leaf is at the maximum depth. */
  lemma {:induction false} LeavesAtMaxDepth(n: Node)
    requires WellFormed(n) && n.depth <= n.maxDepth
    ensures LeavesAt(n, n.maxDepth)
    decreases n
  {
    if n.depth < n.maxDepth {
      forall i | 0 <= i < |n.kids|
        ensures LeavesAt(n.kids[i], n.maxDepth)
      {
        LeavesAtMaxDepth(n.kids[i]);
      }
    }
  }

  /** A tree built with a maximum depth at or below its own depth (a
      negative maximum depth, say) is a single leaf. */
  lemma BuildPastMaxDepth(region: Region, depth: int, maxDepth: int)
    requires maxDepth <= depth
    ensures Build(region, depth, maxDepth).kids == []
    ensures LeavesAt(Build(region, depth, maxDepth), depth)
  {
  }

  function Size(n: Node): nat
    decreases n, 1
  {
    1 + SizeAll(n.kids)
  }

  function SizeAll(ns: seq<Node>): nat
    decreases ns, 0
  {
    if ns == [] then 0 else Size(ns[0]) + SizeAll(ns[1..])
  }

  function Pow(b: nat, k: nat): nat
  {
    if k == 0 then 1 else b * Pow(b, k - 1)
  }

  /** `b^0 + b^1 + ... + b^k`. */
  function GeomSum(b: nat, k: nat): nat
  {
    if k == 0 then 1 else GeomSum(b, k - 1) + Pow(b, k)
  }

  /** Horner's form of the geometric sum: one root plus `b` subtrees. */
  lemma {:induction false} GeomSumStep(b: nat, k: nat)
    requires 0 < k
    ensures GeomSum(b, k) == 1 + b * GeomSum(b, k - 1)
  {
    if k == 1 {
      assert Pow(b, 1) == b * Pow(b, 0);
    } else {
      GeomSumStep(b, k - 1);
      calc {
        GeomSum(b, k);
        GeomSum(b, k - 1) + Pow(b, k);
        1 + b * GeomSum(b, k - 2) + b * Pow(b, k - 1);
        1 + b * (GeomSum(b, k - 2) + Pow(b, k - 1));
        1 + b * GeomSum(b, k - 1);
      }
    }
  }

  /** Sibling subtrees of equal size `s` add up to `|ns| * s` nodes. */
  lemma {:induction false} SizeAllUniform(ns: seq<Node>, s: nat)
    requires forall i :: 0 <= i < |ns| ==> Size(ns[i]) == s
    ensures SizeAll(ns) == |ns| * s
  {
    if ns != [] {
      SizeAllUniform(ns[1..], s);
    }
  }

  /** A well-formed tree from depth `d` to maximum depth `m` has
      `b^0 + ... + b^(m-d)` nodes, `b` being 2 for ranges, 4 for rectangles. */
  lemma {:induction false} NodeCount(n: Node)
    requires WellFormed(n) && n.depth <= n.maxDepth
    ensures Size(n) == GeomSum(n.region.Arity(), n.maxDepth - n.depth)
    decreases n
  {
    var b, k := n.region.Arity(), n.maxDepth - n.depth;
    if k == 0 {
      assert SizeAll(n.kids) == 0;
    } else {
      var s := GeomSum(b, k - 1);
      forall i | 0 <= i < |n.kids|
        ensures Size(n.kids[i]) == s
      {
        NodeCount(n.kids[i]);
      }
      SizeAllUniform(n.kids, s);
      GeomSumStep(b, k);
    }
  }

  // ---------------------------------------------------------------------
  // Where an inserted point is recorded

  /** `after` is `before` with `p` appended to exactly the nodes whose
      region contains `p`. */
  predicate RecordedWhereContained(before: Node, after: Node, p: Point)
    requires AllAccept(before, p)
    decreases before
  {
    && after.data == (if before.region.Contains(p) then before.data + [p] else before.data)
    && |after.kids| == |before.kids|
    && forall i :: 0 <= i < |before.kids| ==> RecordedWhereContained(before.kids[i], after.kids[i], p)
  }

  /** No region of the subtree contains `p`. */
  predicate NoneContain(n: Node, p: Point)
    requires AllAccept(n, p)
    decreases n
  {
    !n.region.Contains(p) && forall i :: 0 <= i < |n.kids| ==> NoneContain(n.kids[i], p)
  }

  /** In a well-formed tree a child's region lies inside its parent's: a
      point outside a node is outside all of its descendants. */
  lemma {:induction false} OutsideStaysOutside(n: Node, p: Point)
    requires WellFormed(n) && AllAccept(n, p) && n.region.Matches(p)
    requires !n.region.Contains(p)
    ensures NoneContain(n, p)
    decreases n
  {
    if n.depth < n.maxDepth {
      forall i | 0 <= i < |n.kids|
        ensures NoneContain(n.kids[i], p)
      {
        KidsPartition(n, p);
        CountInZero(n.region.Split(), p, i);
        OutsideStaysOutside(n.kids[i], p);
      }
    }
  }

  lemma {:induction false} CountInZero(rs: seq<Region>, p: Point, i: nat)
    requires forall j :: 0 <= j < |rs| ==> rs[j].Accepts(p)
    requires CountIn(rs, p) == 0 && i < |rs|
    ensures !rs[i].Contains(p)
  {
    if i > 0 {
      CountInZero(rs[1..], p, i - 1);
    }
  }

  /** The children of a well-formed node partition its region, and a point
      of the root's dimension has the dimension of every child. */
  lemma KidsPartition(n: Node, p: Point)
    requires WellFormed(n) && n.depth < n.maxDepth && n.region.Matches(p)
    ensures forall i :: 0 <= i < |n.kids| ==> n.kids[i].region.Matches(p)
    ensures CountIn(n.region.Split(), p) == if n.region.Contains(p) then 1 else 0
  {
    SplitPartition(n.region, p);
  }

  lemma {:induction false} NoneContainUnchanged(n: Node, p: Point)
    requires AllAccept(n, p) && NoneContain(n, p)
    ensures RecordedWhereContained(n, Insert(n, p), p)
    decreases n
  {
    forall i | 0 <= i < |n.kids|
      ensures RecordedWhereContained(n.kids[i], n.kids[i], p)
    {
      NoneContainUnchanged(n.kids[i], p);
    }
  }

  /** Insertion into a well-formed tree records the point at every node
      whose region contains it and at no other. */
  lemma {:induction false} InsertRecordsWhereContained(n: Node, p: Point)
    requires WellFormed(n) && AllAccept(n, p) && n.region.Matches(p)
    ensures RecordedWhereContained(n, Insert(n, p), p)
    decreases n
  {
    if !n.region.Contains(p) {
      OutsideStaysOutside(n, p);
      NoneContainUnchanged(n, p);
    } else if n.depth < n.maxDepth {
      KidsPartition(n, p);
      forall i | 0 <= i < |n.kids|
        ensures RecordedWhereContained(n.kids[i], Insert(n, p).kids[i], p)
      {
        InsertRecordsWhereContained(n.kids[i], p);
      }
    }
  }

  // ---------------------------------------------------------------------
  // How many copies one insertion records

  /** Number of points recorded at the nodes of depth `k`. */
  function DataAt(n: Node, k: int): nat
    decreases n, 1
  {
    (if n.depth == k then |n.data| else 0) + DataAtAll(n.kids, k)
  }

  function DataAtAll(ns: seq<Node>, k: int): nat
    decreases ns, 0
  {
    if ns == [] then 0 else DataAt(ns[0], k) + DataAtAll(ns[1..], k)
  }

  /** Number of points recorded in the whole subtree. */
  function Stored(n: Node): nat
    decreases n, 1
  {
    |n.data| + StoredAll(n.kids)
  }

  function StoredAll(ns: seq<Node>): nat
    decreases ns, 0
  {
    if ns == [] then 0 else Stored(ns[0]) + StoredAll(ns[1..])
  }

  /** Summing over siblings that gain `c` records when their region contains
      `p`: the siblings as a whole gain `c` per containing region. */
  lemma {:induction false} DataAtAllGain(ns: seq<Node>, ms: seq<Node>, rs: seq<Region>, p: Point, k: int, c: nat)
    requires |ns| == |ms| == |rs|
    requires forall i :: 0 <= i < |rs| ==> rs[i].Accepts(p)
    requires forall i :: 0 <= i < |ns| ==>
      DataAt(ms[i], k) == DataAt(ns[i], k) + (if rs[i].Contains(p) then c else 0)
    ensures DataAtAll(ms, k) == DataAtAll(ns, k) + c * CountIn(rs, p)
  {
    if ns != [] {
      var hit := if rs[0].Contains(p) then c else 0;
      assert DataAtAll(ms[1..], k) == DataAtAll(ns[1..], k) + c * CountIn(rs[1..], p) by {
        forall i | 0 <= i < |ns| - 1
          ensures DataAt(ms[1..][i], k) == DataAt(ns[1..][i], k) + (if rs[1..][i].Contains(p) then c else 0)
        {
          assert ms[1..][i] == ms[i + 1] && ns[1..][i] == ns[i + 1] && rs[1..][i] == rs[i + 1];
        }
        DataAtAllGain(ns[1..], ms[1..], rs[1..], p, k, c);
      }
      assert DataAt(ms[0], k) == DataAt(ns[0], k) + hit;
      ScaleCount(rs, p, c);
    }
  }

  /** `c` per containing region, counted one region at a time. */
  lemma ScaleCount(rs: seq<Region>, p: Point, c: nat)
    requires rs != [] && forall i :: 0 <= i < |rs| ==> rs[i].Accepts(p)
    ensures c * CountIn(rs, p) == (if rs[0].Contains(p) then c else 0) + c * CountIn(rs[1..], p)
  {
    var head, tail := Hit(rs[0], p), CountIn(rs[1..], p);
    Distribute(c, head, tail, CountIn(rs, p));
    assert c * head == if rs[0].Contains(p) then c else 0;
  }

  lemma Distribute(c: nat, x: nat, y: nat, z: nat)
    requires z == x + y
    ensures c * z == c * x + c * y
  {
  }

  lemma {:induction false} StoredAllGain(ns: seq<Node>, ms: seq<Node>, rs: seq<Region>, p: Point, c: nat)
    requires |ns| == |ms| == |rs|
    requires forall i :: 0 <= i < |rs| ==> rs[i].Accepts(p)
    requires forall i :: 0 <= i < |ns| ==>
      Stored(ms[i]) == Stored(ns[i]) + (if rs[i].Contains(p) then c else 0)
    ensures StoredAll(ms) == StoredAll(ns) + c * CountIn(rs, p)
  {
    if ns != [] {
      var hit := if rs[0].Contains(p) then c else 0;
      assert StoredAll(ms[1..]) == StoredAll(ns[1..]) + c * CountIn(rs[1..], p) by {
        forall i | 0 <= i < |ns| - 1
          ensures Stored(ms[1..][i]) == Stored(ns[1..][i]) + (if rs[1..][i].Contains(p) then c else 0)
        {
          assert ms[1..][i] == ms[i + 1] && ns[1..][i] == ns[i + 1] && rs[1..][i] == rs[i + 1];
        }
        StoredAllGain(ns[1..], ms[1..], rs[1..], p, c);
      }
      assert Stored(ms[0]) == Stored(ns[0]) + hit;
      ScaleCount(rs, p, c);
    }
  }

  /** One point per level: inserting a point into a well-formed tree adds
      exactly one record at each depth from the node's own to the maximum
      when the node's region contains it, and none anywhere otherwise. */
  lemma {:induction false} InsertOnePerDepth(n: Node, p: Point, k: int)
    requires WellFormed(n) && AllAccept(n, p) && n.region.Matches(p) && n.depth <= n.maxDepth
    ensures DataAt(Insert(n, p), k)
         == DataAt(n, k) + (if n.region.Contains(p) && n.depth <= k <= n.maxDepth then 1 else 0)
    decreases n
  {
    var r := Insert(n, p);
    if n.region.Contains(p) {
      if n.depth < n.maxDepth {
        var c := if n.depth + 1 <= k <= n.maxDepth then 1 else 0;
        KidsPartition(n, p);
        forall i | 0 <= i < |n.kids|
          ensures DataAt(r.kids[i], k) == DataAt(n.kids[i], k) + (if n.region.Split()[i].Contains(p) then c else 0)
        {
          InsertOnePerDepth(n.kids[i], p, k);
        }
        DataAtAllGain(n.kids, r.kids, n.region.Split(), p, k, c);
      } else {
        assert DataAtAll(n.kids, k) == 0 && DataAtAll(r.kids, k) == 0;
      }
    }
  }

  /** Altogether an insertion whose point lies in the region of a node at
      depth `d` is recorded `maxDepth - d + 1` times; no deduplication. */
  lemma {:induction false} InsertTotal(n: Node, p: Point)
    requires WellFormed(n) && AllAccept(n, p) && n.region.Matches(p) && n.depth <= n.maxDepth
    ensures Stored(Insert(n, p))
         == Stored(n) + (if n.region.Contains(p) then n.maxDepth - n.depth + 1 else 0)
    decreases n
  {
    var r := Insert(n, p);
    if n.region.Contains(p) {
      if n.depth < n.maxDepth {
        var c := n.maxDepth - n.depth;
        KidsPartition(n, p);
        forall i | 0 <= i < |n.kids|
          ensures Stored(r.kids[i]) == Stored(n.kids[i]) + (if n.region.Split()[i].Contains(p) then c else 0)
        {
          InsertTotal(n.kids[i], p);
        }
        StoredAllGain(n.kids, r.kids, n.region.Split(), p, c);
      } else {
        assert StoredAll(n.kids) == 0 && StoredAll(r.kids) == 0;
      }
    }
  }
}
