/** The branch-and-bound search for the distance between two disc trees. */
module CircTreeSearch {
  import opened Common
  import opened CircDiscs
  import opened CircShapes
  import opened CircTree
  import opened Sorting

  /** The nodes of one tree.  Searching reorders children in place. */
  class CircNodes {
    const nodes: seq<Node>
    const contains: (nat, Geo) -> bool
    const children: array<seq<nat>>

    constructor (tree: Tree)
      requires WellShaped(tree)
      ensures Valid(tree) && fresh(children)
    {
      nodes, contains := tree.nodes, tree.contains;
      children := new seq<nat>[|tree.kids|](i requires 0 <= i < |tree.kids| => tree.kids[i]);
    }

    /** These are the nodes of `tree`, with children in some order. */
    ghost predicate Valid(tree: Tree)
      reads this, children
    {
      && WellShaped(tree)
      && nodes == tree.nodes && contains == tree.contains && children.Length == |tree.kids|
      && forall k :: 0 <= k < children.Length ==> multiset(children[k]) == multiset(tree.kids[k])
    }

    /** A vertex of the shape below a node: the one reached first. */
    method GetPoint(k: nat, ghost tree: Tree) returns (v: Geo)
      requires Valid(tree) && k < |nodes|
      ensures VertexOf(tree, k, v)
      decreases k
    {
      SameMembers(children[k], tree.kids[k]);
      if children[k] == [] {
        v := nodes[k].p1;
      } else {
        assert children[k][0] in tree.kids[k];
        v := GetPoint(children[k][0], tree);
      }
    }

    /** Orders the children of a node by the distance of their centers to the target. */
    method SortChildren(k: nat, target: Geo, sp: Space, ghost tree: Tree)
      requires Valid(tree) && k < |nodes|
      modifies children
      ensures Valid(tree)
      ensures forall j :: 0 <= j < children.Length && j != k ==> children[j] == old(children[j])
      ensures forall i :: 0 <= i < |children[k]| ==> children[k][i] < |nodes|
      ensures forall i, j :: 0 <= i <= j < |children[k]| ==>
                sp.dist(nodes[children[k][i]].center, target) <= sp.dist(nodes[children[k][j]].center, target)
    {
      SameMembers(children[k], tree.kids[k]);
      assert forall i :: 0 <= i < |children[k]| ==> children[k][i] in tree.kids[k];
      var sorted := SortByCenter(nodes, sp, target, children[k]);
      children[k] := sorted;
    }
  }

  /** How far the center of a node is from the target. */
  function CenterDistance(nodes: seq<Node>, sp: Space, target: Geo, i: nat): real {
    if i < |nodes| then sp.dist(nodes[i].center, target) else 0.0
  }

  method SortByCenter(nodes: seq<Node>, sp: Space, target: Geo, given: seq<nat>) returns (sorted: seq<nat>)
    requires forall i :: 0 <= i < |given| ==> given[i] < |nodes|
    ensures multiset(sorted) == multiset(given)
    ensures forall i :: 0 <= i < |sorted| ==> sorted[i] < |nodes|
    ensures forall i, j :: 0 <= i <= j < |sorted| ==>
              sp.dist(nodes[sorted[i]].center, target) <= sp.dist(nodes[sorted[j]].center, target)
  {
    var nearerFirst := (i: nat, j: nat) =>
      CenterDistance(nodes, sp, target, i) <= CenterDistance(nodes, sp, target, j);
    sorted := Sort(nearerFirst, given);
    SameMembers(sorted, given);
    assert forall i :: 0 <= i < |sorted| ==> sorted[i] in given;
    assert forall i, j :: 0 <= i < j < |sorted| ==> nearerFirst(sorted[i], sorted[j]);
  }

  lemma SameMembers(a: seq<nat>, b: seq<nat>)
    requires multiset(a) == multiset(b)
    ensures |a| == |b| && forall x: nat :: x in a <==> x in b
  {
    assert |multiset(a)| == |a| && |multiset(b)| == |b|;
    forall x: nat
      ensures x in a <==> x in b
    {
      assert x in a <==> x in multiset(a);
    }
  }

  /** What the search has found so far. */
  class Search {
    var minDist: real
    var maxDist: real
    var closest1: Geo
    var closest2: Geo

    constructor (closest1: Geo, closest2: Geo)
      ensures minDist == maxDist == FLT_MAX
      ensures this.closest1 == closest1 && this.closest2 == closest2
    {
      minDist, maxDist := FLT_MAX, FLT_MAX;
      this.closest1, this.closest2 := closest1, closest2;
    }

    ghost function Found(): Found
      reads this
    {
      Pair(minDist, closest1, closest2)
    }
  }

  datatype Found = Pair(d: real, p: Geo, q: Geo)

  /** A search below a pair leaves what was found, or finds something nearer there. */
  ghost predicate Improved(w: Scene, n1: nat, n2: nat, before: Found, after: Found)
    requires InRange(w, n1, n2)
  {
    || after == before
    || (after.d < before.d && after.d == w.space.dist(after.p, after.q) && Attained(w, n1, n2, after.p, after.q))
  }

  /** The pair is settled: the search may stop, or has found no more than the least distance
      below the pair, or nothing there is as near as `m`.  Nothing is promised of trees that
      do not cover what is below them. */
  ghost predicate Settled(w: Scene, n1: nat, n2: nat, threshold: real, m: real, d: real)
    requires InRange(w, n1, n2)
  {
    Ready(w) ==> d < threshold || d <= Least(w, n1, n2) || Least(w, n1, n2) > m
  }

  // ----- steps of the search

  lemma ZeroSettles(w: Scene, n1: nat, n2: nat, threshold: real, m: real)
    requires InRange(w, n1, n2)
    ensures Settled(w, n1, n2, threshold, m, 0.0)
  {
    if Ready(w) {
      LeastIsBounded(w, n1, n2);
    }
  }

  /** A pair further apart than the bound holds nothing as near as `m`. */
  lemma PruningSettles(w: Scene, n1: nat, n2: nat, threshold: real, m: real, d: real, maxDist: real)
    requires InRange(w, n1, n2) && (Ready(w) ==> m <= maxDist)
    requires MinDistance(w.space, w.t1.nodes[n1], w.t2.nodes[n2]) > maxDist
    ensures Settled(w, n1, n2, threshold, m, d)
  {
    hide Least;
    if Ready(w) {
      LeastIsBounded(w, n1, n2);
    }
  }

  /** The reach of two discs bounds the least distance below them. */
  lemma ReachIsBound(w: Scene, n1: nat, n2: nat)
    requires InRange(w, n1, n2)
    ensures Ready(w) ==> Least(w, n1, n2) <= MaxDistance(w.space, w.t1.nodes[n1], w.t2.nodes[n2])
  {
    hide Least;
    if Ready(w) {
      LeastIsBounded(w, n1, n2);
    }
  }

  /** When no polygon test succeeds and every child pair is settled, so is the pair. */
  lemma FirstSettles(w: Scene, n1: nat, n2: nat, threshold: real, m: real, d: real)
    requires InRange(w, n1, n2) && !MustHit(w, n1, n2) && StepAt(w, n1, n2) == First
    requires forall i :: 0 <= i < |w.t1.kids[n1]| ==> Settled(w, w.t1.kids[n1][i], n2, threshold, m, d)
    ensures Settled(w, n1, n2, threshold, m, d)
  {
    hide Ready, MustHit, LeastFirst;
    if Ready(w) {
      LeastIsBounded(w, n1, n2);
      BoundedIsSmall(w, n1, n2, Least(w, n1, n2));
      LeastFirstIsMinimum(w, n1, n2, |w.t1.kids[n1]|);
      var j :| 0 <= j < |w.t1.kids[n1]| && Least(w, n1, n2) == Least(w, w.t1.kids[n1][j], n2);
      assert Settled(w, w.t1.kids[n1][j], n2, threshold, m, d);
    }
  }

  lemma SecondSettles(w: Scene, n1: nat, n2: nat, threshold: real, m: real, d: real)
    requires InRange(w, n1, n2) && !MustHit(w, n1, n2) && StepAt(w, n1, n2) == Second
    requires forall i :: 0 <= i < |w.t2.kids[n2]| ==> Settled(w, n1, w.t2.kids[n2][i], threshold, m, d)
    ensures Settled(w, n1, n2, threshold, m, d)
  {
    hide Ready, MustHit, LeastSecond;
    if Ready(w) {
      LeastIsBounded(w, n1, n2);
      BoundedIsSmall(w, n1, n2, Least(w, n1, n2));
      LeastSecondIsMinimum(w, n1, n2, |w.t2.kids[n2]|);
      var j :| 0 <= j < |w.t2.kids[n2]| && Least(w, n1, n2) == Least(w, n1, w.t2.kids[n2][j]);
      assert Settled(w, n1, w.t2.kids[n2][j], threshold, m, d);
    }
  }

  /** What holds of a child pair passes to the pair, and back. */
  lemma FirstChild(w: Scene, n1: nat, n2: nat, c: nat, m: real, before: Found, middle: Found, after: Found)
    requires InRange(w, n1, n2) && !MustHit(w, n1, n2) && StepAt(w, n1, n2) == First && c in w.t1.kids[n1]
    ensures c < n1
    ensures m <= Least(w, n1, n2) ==> m <= Least(w, c, n2)
    ensures Improved(w, n1, n2, before, middle) && Improved(w, c, n2, middle, after) ==>
              Improved(w, n1, n2, before, after)
  {
    hide MustHit, LeastFirst;
    var i :| 0 <= i < |w.t1.kids[n1]| && w.t1.kids[n1][i] == c;
    LeastFirstIsMinimum(w, n1, n2, |w.t1.kids[n1]|);
  }

  lemma SecondChild(w: Scene, n1: nat, n2: nat, c: nat, m: real, before: Found, middle: Found, after: Found)
    requires InRange(w, n1, n2) && !MustHit(w, n1, n2) && StepAt(w, n1, n2) == Second && c in w.t2.kids[n2]
    ensures c < n2
    ensures m <= Least(w, n1, n2) ==> m <= Least(w, n1, c)
    ensures Improved(w, n1, n2, before, middle) && Improved(w, n1, c, middle, after) ==>
              Improved(w, n1, n2, before, after)
  {
    hide MustHit, LeastSecond;
    var i :| 0 <= i < |w.t2.kids[n2]| && w.t2.kids[n2][i] == c;
    LeastSecondIsMinimum(w, n1, n2, |w.t2.kids[n2]|);
  }

  lemma StillSettled(w: Scene, n1: nat, n2: nat, threshold: real, m: real, d: real, nearer: real)
    requires InRange(w, n1, n2) && Settled(w, n1, n2, threshold, m, d) && nearer <= d
    ensures Settled(w, n1, n2, threshold, m, nearer)
  {
  }

  // ----- the search

  ghost predicate Searching(w: Scene, a: CircNodes, b: CircNodes, s: Search, m: real)
    reads a, a.children, b, b.children, s
  {
    && IsMetric(w.space.dist) && a.Valid(w.t1) && b.Valid(w.t2) && a.children != b.children
    && (Ready(w) ==> m <= s.maxDist) && 0.0 <= s.minDist <= FLT_MAX
  }

  /** One visit to a pair of nodes. */
  method DistanceTreeInternal(sp: Space, a: CircNodes, n1: nat, b: CircNodes, n2: nat, threshold: real, s: Search,
    ghost w: Scene, ghost m: real) returns (d: real)
    requires Searching(w, a, b, s, m) && w.space == sp && InRange(w, n1, n2) && m <= Least(w, n1, n2)
    modifies a.children, b.children, s
    ensures Searching(w, a, b, s, m)
    ensures forall k :: n1 < k < a.children.Length ==> a.children[k] == old(a.children[k])
    ensures forall k :: n2 < k < b.children.Length ==> b.children[k] == old(b.children[k])
    ensures Improved(w, n1, n2, old(s.Found()), s.Found())
    ensures Settled(w, n1, n2, threshold, m, s.minDist)
    ensures s.minDist <= d
    ensures old(s.minDist) < threshold ==> s.Found() == old(s.Found())
    decreases n1 + n2, 2
  {
    hide Attained, Least, IsMetric, Covering, Settled, MinDistance, MaxDistance, Improved;
    if s.minDist < threshold || s.minDist == 0.0 {
      ZeroSettles(w, n1, n2, threshold, m);
      Unchanged(w, n1, n2, threshold, m, s.Found());
      return s.minDist;
    }
    if MinDistance(sp, a.nodes[n1], b.nodes[n2]) > s.maxDist {
      PruningSettles(w, n1, n2, threshold, m, s.minDist, s.maxDist);
      Unchanged(w, n1, n2, threshold, m, s.Found());
      return FLT_MAX;
    }
    ReachIsBound(w, n1, n2);
    var max := MaxDistance(sp, a.nodes[n1], b.nodes[n2]);
    if max < s.maxDist {
      s.maxDist := max;
    }
    var hit := TestContainment(sp, a, n1, b, n2, threshold, s, w, m);
    if hit {
      return s.minDist;
    }
    d := CompareOrDescend(sp, a, n1, b, n2, threshold, s, w, m);
  }

  lemma Unchanged(w: Scene, n1: nat, n2: nat, threshold: real, m: real, found: Found)
    requires InRange(w, n1, n2)
    ensures Improved(w, n1, n2, found, found)
    ensures found.d < threshold ==> Settled(w, n1, n2, threshold, m, found.d)
  {
  }

  /** The point-in-polygon short circuit, either way round. */
  method TestContainment(sp: Space, a: CircNodes, n1: nat, b: CircNodes, n2: nat, threshold: real, s: Search,
    ghost w: Scene, ghost m: real) returns (hit: bool)
    requires Searching(w, a, b, s, m) && w.space == sp && InRange(w, n1, n2) && s.minDist > 0.0
    modifies s
    ensures Searching(w, a, b, s, m) && s.maxDist == old(s.maxDist)
    ensures Improved(w, n1, n2, old(s.Found()), s.Found())
    ensures hit ==> s.minDist == 0.0 && Settled(w, n1, n2, threshold, m, 0.0)
    ensures !hit ==> s.Found() == old(s.Found()) && !MustHit(w, n1, n2)
  {
    hide Covering, Least, Settled, VertexOf;
    ZeroSettles(w, n1, n2, threshold, m);
    if Eligible(a.nodes[n1], b.nodes[n2]) {
      var pt := b.GetPoint(n2, w.t2);
      if a.contains(n1, pt) {
        s.minDist := 0.0;
        s.closest1, s.closest2 := pt, pt;
        return true;
      }
    }
    if Eligible(b.nodes[n2], a.nodes[n1]) {
      var pt := a.GetPoint(n1, w.t1);
      if b.contains(n2, pt) {
        s.closest1, s.closest2 := pt, pt;
        s.minDist := 0.0;
        return true;
      }
    }
    return false;
  }

  /** Two leaves are compared; otherwise one node gives way to its children. */
  method CompareOrDescend(sp: Space, a: CircNodes, n1: nat, b: CircNodes, n2: nat, threshold: real, s: Search,
    ghost w: Scene, ghost m: real) returns (d: real)
    requires Searching(w, a, b, s, m) && w.space == sp && InRange(w, n1, n2) && m <= Least(w, n1, n2)
    requires !MustHit(w, n1, n2)
    modifies a.children, b.children, s
    ensures Searching(w, a, b, s, m)
    ensures forall k :: n1 < k < a.children.Length ==> a.children[k] == old(a.children[k])
    ensures forall k :: n2 < k < b.children.Length ==> b.children[k] == old(b.children[k])
    ensures Improved(w, n1, n2, old(s.Found()), s.Found())
    ensures Settled(w, n1, n2, threshold, m, s.minDist)
    ensures s.minDist <= d
    decreases n1 + n2, 1
  {
    hide Attained, Least, Covering, IsMetric, Settled, Improved, LeafDistance, LeafPoints, MustHit;
    SameMembers(a.children[n1], w.t1.kids[n1]);
    SameMembers(b.children[n2], w.t2.kids[n2]);
    var step := NextStep(a.nodes[n1].geomType, a.children[n1] == [], b.nodes[n2].geomType, b.children[n2] == []);
    assert step == StepAt(w, n1, n2);
    match step
    case Compare =>
      var close := LeafPoints(sp, a.nodes[n1], b.nodes[n2]);
      d := sp.dist(close.0, close.1);
      LeafSettles(w, n1, n2, threshold, m, s.Found(), close.0, close.1);
      if d < s.minDist {
        s.minDist := d;
        s.closest1, s.closest2 := close.0, close.1;
      }
    case First =>
      d := DescendFirst(sp, a, n1, b, n2, threshold, s, w, m);
    case Second =>
      d := DescendSecond(sp, a, n1, b, n2, threshold, s, w, m);
  }

  lemma LeafSettles(w: Scene, n1: nat, n2: nat, threshold: real, m: real, found: Found, p: Geo, q: Geo)
    requires IsMetric(w.space.dist) && InRange(w, n1, n2) && StepAt(w, n1, n2) == Compare && !MustHit(w, n1, n2)
    requires LeafPoints(w.space, w.t1.nodes[n1], w.t2.nodes[n2]) == (p, q)
    ensures 0.0 <= w.space.dist(p, q) < FLT_MAX
    ensures w.space.dist(p, q) < found.d ==>
              && Improved(w, n1, n2, found, Pair(w.space.dist(p, q), p, q))
              && Settled(w, n1, n2, threshold, m, w.space.dist(p, q))
    ensures w.space.dist(p, q) >= found.d ==>
              Improved(w, n1, n2, found, found) && Settled(w, n1, n2, threshold, m, found.d)
  {
    hide LeafPoints, Covering, MustHit;
    Triangle(w.space.dist, p, q, q);
  }

  /** Visits the children of the first node, nearest center first. */
  method DescendFirst(sp: Space, a: CircNodes, n1: nat, b: CircNodes, n2: nat, threshold: real, s: Search,
    ghost w: Scene, ghost m: real) returns (d: real)
    requires Searching(w, a, b, s, m) && w.space == sp && InRange(w, n1, n2) && m <= Least(w, n1, n2)
    requires !MustHit(w, n1, n2) && StepAt(w, n1, n2) == First
    modifies a.children, b.children, s
    ensures Searching(w, a, b, s, m)
    ensures forall k :: n1 < k < a.children.Length ==> a.children[k] == old(a.children[k])
    ensures forall k :: n2 < k < b.children.Length ==> b.children[k] == old(b.children[k])
    ensures Improved(w, n1, n2, old(s.Found()), s.Found())
    ensures Settled(w, n1, n2, threshold, m, s.minDist)
    ensures s.minDist <= d
    decreases n1 + n2, 0
  {
    hide Attained, Least, Ready, Settled, Improved, MustHit, StepAt;
    d := FLT_MAX;
    Unchanged(w, n1, n2, threshold, m, s.Found());
    a.SortChildren(n1, b.nodes[n2].center, sp, w.t1);
    ghost var kids := a.children[n1];
    SameMembers(kids, w.t1.kids[n1]);
    for i := 0 to |a.children[n1]|
      invariant Searching(w, a, b, s, m) && a.children[n1] == kids
      invariant forall k :: n1 < k < a.children.Length ==> a.children[k] == old(a.children[k])
      invariant forall k :: n2 < k < b.children.Length ==> b.children[k] == old(b.children[k])
      invariant Improved(w, n1, n2, old(s.Found()), s.Found())
      invariant s.minDist <= d
      invariant forall j :: 0 <= j < i ==> Settled(w, kids[j], n2, threshold, m, s.minDist)
    {
      ghost var before := s.Found();
      assert kids[i] in w.t1.kids[n1];
      FirstChild(w, n1, n2, kids[i], m, before, before, before);
      var dist := DistanceTreeInternal(sp, a, a.children[n1][i], b, n2, threshold, s, w, m);
      FirstChild(w, n1, n2, kids[i], m, old(s.Found()), before, s.Found());
      ImprovedIsNearer(w, kids[i], n2, before, s.Found());
      forall j | 0 <= j < i
        ensures Settled(w, kids[j], n2, threshold, m, s.minDist)
      {
        StillSettled(w, kids[j], n2, threshold, m, before.d, s.minDist);
      }
      d := Min(d, dist);
    }
    forall i | 0 <= i < |w.t1.kids[n1]|
      ensures Settled(w, w.t1.kids[n1][i], n2, threshold, m, s.minDist)
    {
      assert w.t1.kids[n1][i] in kids;
    }
    FirstSettles(w, n1, n2, threshold, m, s.minDist);
  }

  lemma ImprovedIsNearer(w: Scene, n1: nat, n2: nat, before: Found, after: Found)
    requires InRange(w, n1, n2) && Improved(w, n1, n2, before, after)
    ensures after.d <= before.d
  {
  }

  /** Visits the children of the second node, nearest center first. */
  method DescendSecond(sp: Space, a: CircNodes, n1: nat, b: CircNodes, n2: nat, threshold: real, s: Search,
    ghost w: Scene, ghost m: real) returns (d: real)
    requires Searching(w, a, b, s, m) && w.space == sp && InRange(w, n1, n2) && m <= Least(w, n1, n2)
    requires !MustHit(w, n1, n2) && StepAt(w, n1, n2) == Second
    modifies a.children, b.children, s
    ensures Searching(w, a, b, s, m)
    ensures forall k :: n1 < k < a.children.Length ==> a.children[k] == old(a.children[k])
    ensures forall k :: n2 < k < b.children.Length ==> b.children[k] == old(b.children[k])
    ensures Improved(w, n1, n2, old(s.Found()), s.Found())
    ensures Settled(w, n1, n2, threshold, m, s.minDist)
    ensures s.minDist <= d
    decreases n1 + n2, 0
  {
    hide Attained, Least, Ready, Settled, Improved, MustHit, StepAt;
    d := FLT_MAX;
    Unchanged(w, n1, n2, threshold, m, s.Found());
    b.SortChildren(n2, a.nodes[n1].center, sp, w.t2);
    ghost var kids := b.children[n2];
    SameMembers(kids, w.t2.kids[n2]);
    for i := 0 to |b.children[n2]|
      invariant Searching(w, a, b, s, m) && b.children[n2] == kids
      invariant forall k :: n1 < k < a.children.Length ==> a.children[k] == old(a.children[k])
      invariant forall k :: n2 < k < b.children.Length ==> b.children[k] == old(b.children[k])
      invariant Improved(w, n1, n2, old(s.Found()), s.Found())
      invariant s.minDist <= d
      invariant forall j :: 0 <= j < i ==> Settled(w, n1, kids[j], threshold, m, s.minDist)
    {
      ghost var before := s.Found();
      assert kids[i] in w.t2.kids[n2];
      SecondChild(w, n1, n2, kids[i], m, before, before, before);
      var dist := DistanceTreeInternal(sp, a, n1, b, b.children[n2][i], threshold, s, w, m);
      SecondChild(w, n1, n2, kids[i], m, old(s.Found()), before, s.Found());
      ImprovedIsNearer(w, n1, kids[i], before, s.Found());
      forall j | 0 <= j < i
        ensures Settled(w, n1, kids[j], threshold, m, s.minDist)
      {
        StillSettled(w, n1, kids[j], threshold, m, before.d, s.minDist);
      }
      d := Min(d, dist);
    }
    forall i | 0 <= i < |w.t2.kids[n2]|
      ensures Settled(w, n1, w.t2.kids[n2][i], threshold, m, s.minDist)
    {
      assert w.t2.kids[n2][i] in kids;
    }
    SecondSettles(w, n1, n2, threshold, m, s.minDist);
  }

  /** A spheroid, and the distance of two points on it. */
  datatype Spheroid = Spheroid(a: real, b: real, radius: real, distance: (Geo, Geo) -> real)

  /** The distance of two shapes.  The points it is measured between are real, or those given
      when nothing was found.  Where discs cover what is below them and the threshold is in
      range something is always found, and the points are no further apart than any pair of
      leaves or nearer than the threshold; of geometries whose polygons are regions, they are
      points of the two shapes, and no others are nearer unless these are below the threshold. */
  method DistanceTree(sp: Space, a: CircNodes, n1: nat, b: CircNodes, n2: nat, spheroid: Spheroid, threshold: real,
    closest1: Geo, closest2: Geo, ghost w: Scene) returns (d: real, p: Geo, q: Geo)
    requires IsMetric(sp.dist) && a.Valid(w.t1) && b.Valid(w.t2) && a.children != b.children
    requires w.space == sp && InRange(w, n1, n2) && spheroid.radius > 0.0
    modifies a.children, b.children
    ensures a.Valid(w.t1) && b.Valid(w.t2)
    ensures d == if spheroid.a == spheroid.b then spheroid.radius * sp.dist(p, q) else spheroid.distance(p, q)
    ensures Attained(w, n1, n2, p, q) || (p, q) == (closest1, closest2)
    ensures Ready(w) && 95.0 / 100.0 * threshold / spheroid.radius <= FLT_MAX ==>
              && Attained(w, n1, n2, p, q)
              && (sp.dist(p, q) < 95.0 / 100.0 * threshold / spheroid.radius || sp.dist(p, q) <= Least(w, n1, n2))
    ensures Solid(w, n1, n2) && 95.0 / 100.0 * threshold / spheroid.radius <= FLT_MAX ==>
              && OnShape(sp, w.t1, n1, p) && OnShape(sp, w.t2, n2, q)
              && (sp.dist(p, q) < 95.0 / 100.0 * threshold / spheroid.radius || Nearest(w, n1, n2, p, q))
    ensures 95.0 / 100.0 * threshold / spheroid.radius > FLT_MAX ==> (p, q) == (closest1, closest2)
  {
    var s := new Search(closest1, closest2);
    var thresholdRadians := 95.0 / 100.0 * threshold / spheroid.radius;
    LeastIsSmall(w, n1, n2);
    hide Attained, Least, Ready, MustHit, StepAt, Solid, Nearest, OnShape;
    var _ := DistanceTreeInternal(sp, a, n1, b, n2, thresholdRadians, s, w, Least(w, n1, n2));
    p, q := s.closest1, s.closest2;
    NearestIfSolid(w, n1, n2, p, q, thresholdRadians);
    if spheroid.a == spheroid.b {
      d := spheroid.radius * sp.dist(p, q);
    } else {
      d := spheroid.distance(p, q);
    }
  }

  lemma NearestIfSolid(w: Scene, n1: nat, n2: nat, p: Geo, q: Geo, threshold: real)
    requires InRange(w, n1, n2)
    requires Ready(w) && threshold <= FLT_MAX ==>
               Attained(w, n1, n2, p, q) && (w.space.dist(p, q) < threshold || w.space.dist(p, q) <= Least(w, n1, n2))
    ensures Solid(w, n1, n2) && threshold <= FLT_MAX ==>
              && OnShape(w.space, w.t1, n1, p) && OnShape(w.space, w.t2, n2, q)
              && (w.space.dist(p, q) < threshold || Nearest(w, n1, n2, p, q))
  {
    hide Attained, Least, Ready, OnShape, Nearest;
    if Solid(w, n1, n2) && threshold <= FLT_MAX {
      FoundIsNearest(w, n1, n2, p, q, threshold);
    }
  }

  lemma LeastIsSmall(w: Scene, n1: nat, n2: nat)
    requires InRange(w, n1, n2)
    ensures Ready(w) ==> Least(w, n1, n2) < FLT_MAX
  {
    if Ready(w) {
      LeastIsBounded(w, n1, n2);
      BoundedIsSmall(w, n1, n2, Least(w, n1, n2));
    }
  }
}
