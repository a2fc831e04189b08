/** Building the packed interval tree of a multipolygon, and asking it about points. */
module IntervalTrees {
  import opened Common
  import opened IntervalTreeIndex

  type Poly = seq<Ring>

  // ----- the answer, scanning polygons and rings in order

  /** A hole that holds the point, or its boundary, whichever comes first. */
  ghost function ScanHoles(holes: seq<Ring>, pt: Spot): Result {
    if holes == [] then Outside
    else if LinearScan(holes[0], pt) != Outside then LinearScan(holes[0], pt)
    else ScanHoles(holes[1..], pt)
  }

  ghost function ScanPolygon(poly: Poly, pt: Spot): Result {
    if poly == [] then Outside
    else if LinearScan(poly[0], pt) != Inside then LinearScan(poly[0], pt)
    else
      match ScanHoles(poly[1..], pt)
      case Boundary => Boundary
      case Outside => Inside
      case _ => Outside
  }

  ghost function ScanPolygons(polys: seq<Poly>, pt: Spot): Result {
    if polys == [] then Outside
    else if ScanPolygon(polys[0], pt) != Outside then ScanPolygon(polys[0], pt)
    else ScanPolygons(polys[1..], pt)
  }

  lemma {:induction false} HolesAllMissed(holes: seq<Ring>, pt: Spot)
    ensures ScanHoles(holes, pt) == Outside <==> forall h :: 0 <= h < |holes| ==> LinearScan(holes[h], pt) == Outside
  {
    if holes != [] {
      HolesAllMissed(holes[1..], pt);
      forall h | 1 <= h < |holes|
        ensures LinearScan(holes[h], pt) == LinearScan(holes[1..][h - 1], pt)
      {
      }
    }
  }

  /** A point is inside a polygon exactly when it is inside the shell and outside every hole. */
  lemma PolygonInside(poly: Poly, pt: Spot)
    ensures ScanPolygon(poly, pt) == Inside <==>
            && poly != [] && LinearScan(poly[0], pt) == Inside
            && forall h :: 1 <= h < |poly| ==> LinearScan(poly[h], pt) == Outside
  {
    if poly != [] {
      var holes := poly[1..];
      HolesAllMissed(holes, pt);
      forall h | 1 <= h < |poly|
        ensures poly[h] == holes[h - 1]
      {
      }
      if ScanHoles(holes, pt) == Outside {
        forall h | 1 <= h < |poly|
          ensures LinearScan(poly[h], pt) == Outside
        {
          assert poly[h] == holes[h - 1];
        }
      } else {
        var h :| 0 <= h < |holes| && LinearScan(holes[h], pt) != Outside;
        assert poly[h + 1] == holes[h];
      }
      HolesNeverContinue(holes, pt);
    }
  }

  lemma {:induction false} HolesNeverContinue(holes: seq<Ring>, pt: Spot)
    ensures ScanHoles(holes, pt) != Continue
  {
    if holes != [] {
      HolesNeverContinue(holes[1..], pt);
    }
  }

  /** The polygon that decides is the first one that the point is not outside of. */
  lemma {:induction false} FirstHitDecides(polys: seq<Poly>, pt: Spot)
    ensures ScanPolygons(polys, pt) == Outside <==>
            forall p :: 0 <= p < |polys| ==> ScanPolygon(polys[p], pt) == Outside
    ensures ScanPolygons(polys, pt) != Outside ==>
      exists p :: && 0 <= p < |polys| && ScanPolygon(polys[p], pt) == ScanPolygons(polys, pt)
                  && forall q :: 0 <= q < p ==> ScanPolygon(polys[q], pt) == Outside
  {
    if polys != [] {
      var rest := polys[1..];
      FirstHitDecides(rest, pt);
      assert forall p :: 1 <= p < |polys| ==> polys[p] == rest[p - 1];
      if ScanPolygon(polys[0], pt) == Outside {
        if ScanPolygons(rest, pt) != Outside {
          var p :| && 0 <= p < |rest| && ScanPolygon(rest[p], pt) == ScanPolygons(rest, pt)
                   && forall q :: 0 <= q < p ==> ScanPolygon(rest[q], pt) == Outside;
          assert polys[p + 1] == rest[p];
          assert forall q :: 0 <= q < p + 1 ==> ScanPolygon(polys[q], pt) == Outside;
        }
      }
    }
  }

  // ----- which rings are indexed

  /** The rings of a polygon that get an index. */
  function Usable(poly: Poly): (r: Poly)
    ensures |r| <= |poly|
  {
    if poly == [] then []
    else
      var rest := Usable(poly[..|poly| - 1]);
      if |poly[|poly| - 1]| < 4 then rest else rest + [poly[|poly| - 1]]
  }

  predicate IsEmpty(poly: Poly) {
    |poly| < 1 || |poly[0]| < 1
  }

  function UsablePolys(mpoly: seq<Poly>): (r: seq<Poly>)
    ensures |r| <= |mpoly|
  {
    if mpoly == [] then []
    else
      var rest := UsablePolys(mpoly[..|mpoly| - 1]);
      if IsEmpty(mpoly[|mpoly| - 1]) then rest else rest + [Usable(mpoly[|mpoly| - 1])]
  }

  /** A polygon whose shell has points but too few of them is not empty; its first hole is then
      taken for the shell. */
  lemma ShortShell(shell: Ring, hole: Ring, pt: Spot)
    requires 1 <= |shell| <= 3 && |hole| >= 4
    ensures UsablePolys([[shell, hole]]) == [[hole]]
    ensures ScanPolygons(UsablePolys([[shell, hole]]), pt) == LinearScan(hole, pt)
  {
    var poly := [shell, hole];
    var noRings: Poly, noPolys: seq<Poly> := [], [];
    assert poly[..1] == [shell] && [shell][..0] == noRings;
    assert Usable([shell]) == noRings;
    assert Usable(poly) == [hole];
    assert [poly][..0] == noPolys;
    assert UsablePolys([poly]) == [[hole]];
    hide LinearScan, UsablePolys, Usable;
    assert [hole][1..] == noRings && [[hole]][1..] == noPolys;
  }

  /** All rings in one row, as the index arrays hold them. */
  function Flatten(polys: seq<Poly>): seq<Ring> {
    if polys == [] then [] else Flatten(polys[..|polys| - 1]) + polys[|polys| - 1]
  }

  /** Ring `r` of polygon `p` lies `r` places after all rings of the polygons before it. */
  lemma {:induction false} FlattenAt(polys: seq<Poly>, p: nat, r: nat)
    requires p < |polys| && r < |polys[p]|
    ensures |Flatten(polys[..p])| + r < |Flatten(polys)|
    ensures Flatten(polys)[|Flatten(polys[..p])| + r] == polys[p][r]
  {
    var init := polys[..|polys| - 1];
    if p < |polys| - 1 {
      FlattenAt(init, p, r);
      assert init[..p] == polys[..p];
    }
  }

  lemma FlattenStep(polys: seq<Poly>, p: nat)
    requires p < |polys|
    ensures |Flatten(polys[..p + 1])| == |Flatten(polys[..p])| + |polys[p]|
  {
    assert polys[..p + 1][..p] == polys[..p];
  }

  lemma FlattenAppend(polys: seq<Poly>, poly: Poly)
    ensures Flatten(polys + [poly]) == Flatten(polys) + poly
  {
    assert (polys + [poly])[..|polys|] == polys;
  }

  // ----- space

  function ReservedPolygon(poly: Poly): nat {
    if poly == [] then 0 else ReservedPolygon(poly[..|poly| - 1]) + Reserved(|poly[|poly| - 1]|)
  }

  function ReservedMultipolygon(mpoly: seq<Poly>): nat {
    if mpoly == [] then 0
    else ReservedMultipolygon(mpoly[..|mpoly| - 1]) + ReservedPolygon(mpoly[|mpoly| - 1])
  }

  function CountRings(mpoly: seq<Poly>): nat {
    if mpoly == [] then 0
    else
      CountRings(mpoly[..|mpoly| - 1]) + (if IsEmpty(mpoly[|mpoly| - 1]) then 0 else |mpoly[|mpoly| - 1]|)
  }

  /** What the counting loop adds up: every level above one node, then the root. */
  method NumNodesPointarray(npoints: nat) returns (n: nat)
    ensures n == Reserved(npoints)
  {
    if npoints < 4 {
      return 0;
    }
    n := 0;
    var level := npoints - 1;
    while level > 1
      invariant level >= 1 && n + Allocated(level) == Allocated(npoints - 1)
    {
      var next := level / ITREE_MAX_NODES;
      next := next + (if level % ITREE_MAX_NODES > 0 then 1 else 0);
      n := n + level;
      level := next;
    }
    n := n + 1;
  }

  method NumNodesPolygon(poly: Poly) returns (n: nat)
    ensures n == ReservedPolygon(poly)
  {
    n := 0;
    for i := 0 to |poly|
      invariant n == ReservedPolygon(poly[..i])
    {
      var m := NumNodesPointarray(|poly[i]|);
      n := n + m;
      assert poly[..i + 1][..i] == poly[..i];
    }
    assert poly[..|poly|] == poly;
  }

  method NumNodesMultipolygon(mpoly: seq<Poly>) returns (n: nat)
    ensures n == ReservedMultipolygon(mpoly)
  {
    n := 0;
    for i := 0 to |mpoly|
      invariant n == ReservedMultipolygon(mpoly[..i])
    {
      var m := NumNodesPolygon(mpoly[i]);
      n := n + m;
      assert mpoly[..i + 1][..i] == mpoly[..i];
    }
    assert mpoly[..|mpoly|] == mpoly;
  }

  method NumRings(mpoly: seq<Poly>) returns (n: nat)
    ensures n == CountRings(mpoly)
  {
    n := 0;
    for i := 0 to |mpoly|
      invariant n == CountRings(mpoly[..i])
    {
      if !IsEmpty(mpoly[i]) {
        n := n + |mpoly[i]|;
      }
      assert mpoly[..i + 1][..i] == mpoly[..i];
    }
    assert mpoly[..|mpoly|] == mpoly;
  }

  lemma {:induction false} ReservedPrefix(mpoly: seq<Poly>, i: nat)
    requires i < |mpoly|
    ensures ReservedMultipolygon(mpoly[..i]) + ReservedPolygon(mpoly[i]) <= ReservedMultipolygon(mpoly)
    ensures CountRings(mpoly[..i]) + (if IsEmpty(mpoly[i]) then 0 else |mpoly[i]|) <= CountRings(mpoly)
  {
    var init := mpoly[..|mpoly| - 1];
    if i < |mpoly| - 1 {
      ReservedPrefix(init, i);
      assert init[..i] == mpoly[..i];
    }
  }

  lemma PrefixStep(mpoly: seq<Poly>, i: nat)
    requires i < |mpoly|
    ensures ReservedMultipolygon(mpoly[..i + 1]) == ReservedMultipolygon(mpoly[..i]) + ReservedPolygon(mpoly[i])
    ensures CountRings(mpoly[..i + 1]) == CountRings(mpoly[..i]) + (if IsEmpty(mpoly[i]) then 0 else |mpoly[i]|)
    ensures UsablePolys(mpoly[..i + 1]) ==
            if IsEmpty(mpoly[i]) then UsablePolys(mpoly[..i]) else UsablePolys(mpoly[..i]) + [Usable(mpoly[i])]
  {
    assert mpoly[..i + 1][..i] == mpoly[..i];
  }

  lemma NoPolygons()
    ensures UsablePolys([]) == [] && Flatten([]) == [] && WellFormed([])
  {
  }

  lemma {:induction false} ReservedRing(poly: Poly, i: nat)
    requires i < |poly|
    ensures ReservedPolygon(poly[..i]) + Reserved(|poly[i]|) <= ReservedPolygon(poly)
  {
    var init := poly[..|poly| - 1];
    if i < |poly| - 1 {
      ReservedRing(init, i);
      assert init[..i] == poly[..i];
    }
  }

  // ----- the tree

  /** The winding number a search adds up. */
  class Winding {
    var number: int

    constructor ()
      ensures number == 0
    {
      number := 0;
    }
  }

  class IntervalTree {
    const nodes: array<Node>
    const indexes: array<Option<nat>>
    const indexArrays: array<Ring>
    const ringCounts: array<nat>
    var numNodes: nat
    var numIndexes: nat
    var numPolys: nat

    constructor (maxNodes: nat, maxIndexes: nat, maxPolys: nat)
      ensures fresh(nodes) && fresh(indexes) && fresh(indexArrays) && fresh(ringCounts)
      ensures nodes.Length == maxNodes && ringCounts.Length == maxPolys
      ensures indexes.Length == indexArrays.Length == maxIndexes
      ensures numNodes == numIndexes == numPolys == 0 && Represents([])
      ensures forall p :: 0 <= p < maxPolys ==> ringCounts[p] == 0
    {
      nodes := new Node[maxNodes](_ => EMPTY_NODE);
      indexes := new Option<nat>[maxIndexes](_ => None);
      indexArrays := new Ring[maxIndexes](_ => []);
      ringCounts := new nat[maxPolys](_ => 0);
      numNodes, numIndexes, numPolys := 0, 0, 0;
    }

    ghost function Nodes(): seq<Node>
      requires numNodes <= nodes.Length
      reads this, nodes
    {
      nodes[..numNodes]
    }

    /** The rings indexed so far. */
    ghost function Rings(): seq<Ring>
      requires numIndexes <= indexArrays.Length
      reads this, indexArrays
    {
      indexArrays[..numIndexes]
    }

    /** Every index entry is the tree of its ring. */
    ghost predicate Valid()
      reads this, nodes, indexes, indexArrays
    {
      && numNodes <= nodes.Length
      && numIndexes <= indexes.Length == indexArrays.Length
      && WellFormed(Nodes()) && AllIndexed(Nodes(), indexes[..numIndexes], Rings())
    }

    /** The tree holds these polygons. */
    ghost predicate Represents(polys: seq<Poly>)
      reads this, nodes, indexes, indexArrays, ringCounts
    {
      && Valid()
      && numPolys == |polys| <= ringCounts.Length
      && (forall p :: 0 <= p < |polys| ==> ringCounts[p] == |polys[p]|)
      && Rings() == Flatten(polys)
    }

    // ----- building

    method NewNode() returns (k: nat)
      requires numNodes < nodes.Length
      modifies this`numNodes, nodes
      ensures k == old(numNodes) && numNodes == k + 1
      ensures Nodes() == old(Nodes()) + [EMPTY_NODE]
    {
      k := numNodes;
      numNodes := numNodes + 1;
      nodes[k] := EMPTY_NODE;
    }

    /** Puts the nodes `a` to `b` below the fresh node `k`. */
    method AdoptChildren(k: nat, a: nat, b: nat)
      requires a <= b <= k < numNodes <= nodes.Length && nodes[k] == EMPTY_NODE
      modifies nodes
      ensures Nodes() == old(Nodes())[k := ParentOf(old(Nodes()), a, b)]
    {
      ghost var before := Nodes();
      for j := a to b
        invariant numNodes <= nodes.Length && Nodes() == before[k := ParentOf(before, a, j)]
      {
        var parent, child := nodes[k], nodes[j];
        assert parent == Nodes()[k] && child == before[j];
        nodes[k] := Node(Min(child.min, parent.min), Max(child.max, parent.max),
                         if child.edgeIndex < parent.edgeIndex then child.edgeIndex else parent.edgeIndex,
                         parent.children + [j]);
      }
    }

    /** Adds the parent of group `i` among the first `end` nodes. */
    method AddParent(start: nat, end: nat, i: nat)
      requires end + i == numNodes < nodes.Length
      requires HasGroups(Nodes()[..end], start, i) && HasGroups(Nodes()[..end], start, i + 1)
      requires Nodes() == Nodes()[..end] + Parents(Nodes()[..end], start, i)
      modifies this`numNodes, nodes
      ensures numNodes == end + i + 1
      ensures Nodes() == old(Nodes()[..end]) + Parents(old(Nodes()[..end]), start, i + 1)
    {
      hide Parents, ParentOf;
      ghost var before := Nodes()[..end];
      var first := start + i * ITREE_MAX_NODES;
      var last := start + (i + 1) * ITREE_MAX_NODES;
      last := if last > end then end else last;
      var k := NewNode();
      assert nodes[k] == Nodes()[k];
      AdoptChildren(k, first, last);
      NextGroup(before, start, i);
    }

    method MergeNodes(remaining: nat) returns (parents: nat)
      requires 0 < remaining <= numNodes && numNodes + NumParents(remaining) <= nodes.Length
      modifies this`numNodes, nodes
      ensures parents == NumParents(remaining)
      ensures numNodes <= nodes.Length && Nodes() == Merge(old(Nodes()), remaining)
    {
      hide Parents, HasGroups;
      var end := numNodes;
      var start := end - remaining;
      parents := remaining / ITREE_MAX_NODES;
      parents := parents + (if remaining % ITREE_MAX_NODES > 0 then 1 else 0);
      ghost var before := Nodes();
      GroupExists(before, remaining, 0);
      NoParents(before, start);
      for i := 0 to parents
        invariant numNodes == end + i && HasGroups(before, start, i)
        invariant numNodes <= nodes.Length && Nodes() == before + Parents(before, start, i)
      {
        GroupExists(before, remaining, i + 1);
        assert Nodes()[..end] == before;
        AddParent(start, end, i);
      }
    }

    method AddLeaves(ring: Ring) returns (leaves: nat)
      requires |ring| >= 4 && numNodes + |ring| - 1 <= nodes.Length
      modifies this`numNodes, nodes
      ensures leaves == |Leaves(ring, |ring| - 1)|
      ensures numNodes <= nodes.Length && Nodes() == old(Nodes()) + Leaves(ring, |ring| - 1)
    {
      leaves := 0;
      ghost var before := Nodes();
      for i := 0 to |ring| - 1
        invariant leaves == |Leaves(ring, i)| && numNodes == |before| + leaves
        invariant numNodes <= nodes.Length && Nodes() == before + Leaves(ring, i)
      {
        if EdgeInvalid(ring[i], ring[i + 1]) {
          continue;
        }
        var k := NewNode();
        var y1, y2 := ring[i].y.value, ring[i + 1].y.value;
        nodes[k] := Node(Min(y1, y2), Max(y1, y2), i, []);
        leaves := leaves + 1;
      }
    }

    method MergeLevels(leaves: nat)
      requires leaves <= numNodes && numNodes - leaves + Allocated(leaves) <= nodes.Length
      modifies this`numNodes, nodes
      ensures numNodes <= nodes.Length && Nodes() == MergeAll(old(Nodes()), leaves)
    {
      var remaining: nat := leaves;
      while remaining > 1
        invariant remaining <= numNodes && numNodes - remaining + Allocated(remaining) <= nodes.Length
        invariant numNodes <= nodes.Length && MergeAll(Nodes(), remaining) == MergeAll(old(Nodes()), leaves)
      {
        remaining := MergeNodes(remaining);
      }
    }

    /** Builds the nodes of one ring.  The space that `NumNodesPointarray` reserves is enough. */
    method BuildNodes(ring: Ring) returns (root: Option<nat>)
      requires |ring| >= 4 && numNodes + Reserved(|ring|) <= nodes.Length
      modifies this`numNodes, nodes
      ensures old(numNodes) <= numNodes <= old(numNodes) + Reserved(|ring|)
      ensures Nodes() == IndexRing(old(Nodes()), ring)
      ensures root == if Leaves(ring, |ring| - 1) == [] then None else Some(numNodes - 1)
    {
      ghost var before := Nodes();
      SpaceSuffices(before, ring);
      AllocatedGrows(|Leaves(ring, |ring| - 1)|, |ring| - 1);
      hide MergeAll, Leaves;
      var leaves := AddLeaves(ring);
      MergeLevels(leaves);
      root := if leaves > 0 then Some(numNodes - 1) else None;
    }

    /** Indexes one more ring. */
    method AddPointarray(ring: Ring)
      requires Valid() && |ring| >= 4
      requires numNodes + Reserved(|ring|) <= nodes.Length && numIndexes < indexes.Length
      modifies this`numNodes, this`numIndexes, nodes, indexes, indexArrays
      ensures Valid() && Rings() == old(Rings()) + [ring] && numIndexes == old(numIndexes) + 1
      ensures Nodes() == IndexRing(old(Nodes()), ring)
      ensures numNodes <= old(numNodes) + Reserved(|ring|)
    {
      hide AllIndexed, WellFormed, Indexes, IndexRing, Reserved, Leaves;
      ghost var before := Nodes();
      ghost var roots, rings := indexes[..numIndexes], Rings();
      var root := BuildNodes(ring);
      RingIsIndexed(before, ring);
      IndexAdded(before, Nodes(), roots, rings, root, ring);
      indexes[numIndexes] := root;
      indexArrays[numIndexes] := ring;
      numIndexes := numIndexes + 1;
      assert indexes[..numIndexes] == roots + [root];
      assert indexArrays[..numIndexes] == rings + [ring];
    }

    /** Indexes the usable rings of one polygon, as the rings of polygon `p`. */
    method AddPolygon(poly: Poly, p: nat)
      requires Valid() && p < ringCounts.Length && ringCounts[p] == 0
      requires numNodes + ReservedPolygon(poly) <= nodes.Length && numIndexes + |poly| <= indexes.Length
      modifies this`numNodes, this`numIndexes, nodes, indexes, indexArrays, ringCounts
      ensures Valid() && Rings() == old(Rings()) + Usable(poly)
      ensures ringCounts[..] == old(ringCounts[..])[p := |Usable(poly)|]
      ensures numNodes <= old(numNodes) + ReservedPolygon(poly) && numIndexes <= old(numIndexes) + |poly|
    {
      hide AllIndexed, WellFormed, IndexRing, Reserved;
      for j := 0 to |poly|
        invariant Valid() && Rings() == old(Rings()) + Usable(poly[..j])
        invariant ringCounts[..] == old(ringCounts[..])[p := |Usable(poly[..j])|]
        invariant numNodes <= old(numNodes) + ReservedPolygon(poly[..j]) && numIndexes <= old(numIndexes) + j
      {
        assert poly[..j + 1][..j] == poly[..j];
        if |poly[j]| < 4 {
          continue;
        }
        ReservedRing(poly, j);
        assert ringCounts[p] == ringCounts[..][p];
        AddPointarray(poly[j]);
        ringCounts[p] := ringCounts[p] + 1;
      }
      assert poly[..|poly|] == poly;
    }

    /** Indexes one more polygon. */
    method AppendPolygon(poly: Poly, ghost polys: seq<Poly>)
      requires Represents(polys) && numPolys < ringCounts.Length
      requires forall p :: numPolys <= p < ringCounts.Length ==> ringCounts[p] == 0
      requires numNodes + ReservedPolygon(poly) <= nodes.Length && numIndexes + |poly| <= indexes.Length
      modifies this, nodes, indexes, indexArrays, ringCounts
      ensures Represents(polys + [Usable(poly)]) && numPolys == old(numPolys) + 1
      ensures forall p :: numPolys <= p < ringCounts.Length ==> ringCounts[p] == 0
      ensures numNodes <= old(numNodes) + ReservedPolygon(poly) && numIndexes <= old(numIndexes) + |poly|
    {
      hide Usable, ReservedPolygon, Flatten, WellFormed, AllIndexed;
      ghost var counts := ringCounts[..];
      AddPolygon(poly, numPolys);
      assert forall p :: 0 <= p < ringCounts.Length && p != numPolys ==>
                           ringCounts[p] == ringCounts[..][p] == counts[p];
      assert ringCounts[numPolys] == ringCounts[..][numPolys];
      numPolys := numPolys + 1;
      FlattenAppend(polys, Usable(poly));
    }

    // ----- asking

    /** Adds up the winding of the edges below a node, and stops at a boundary. */
    method PointInRingRecursive(node: Option<nat>, ring: Ring, pt: Spot, winding: Winding) returns (r: Result)
      requires numNodes <= nodes.Length && WellFormed(Nodes())
      requires node.Some? ==> node.value < numNodes && TreeOf(Nodes(), ring, node.value)
      modifies winding
      ensures node.None? ==> r == Outside && winding.number == old(winding.number)
      ensures node.Some? ==> r == if Touches(ring, Edges(Nodes(), node.value), pt) then Boundary else Continue
      ensures node.Some? && r != Boundary ==>
                winding.number == old(winding.number) + WindingSum(ring, Edges(Nodes(), node.value), pt)
      decreases if node.Some? then node.value + 1 else 0, 1
    {
      if node.None? {
        return Outside;
      }
      ghost var all := Nodes();
      var k := node.value;
      var n := nodes[k];
      assert n == all[k];
      if !MayContain(n, pt.y) {
        PrunedIsIrrelevant(all, ring, k, pt);
        return Continue;
      }
      if n.children == [] {
        r := PointAtLeaf(n.edgeIndex, ring, pt, winding);
        OneEdge(ring, n.edgeIndex, pt);
      } else {
        r := PointInChildren(k, ring, pt, winding);
      }
    }

    method PointAtLeaf(e: nat, ring: Ring, pt: Spot, winding: Winding) returns (r: Result)
      requires ValidEdge(ring, e)
      modifies winding
      ensures r == if OnEdge(ring, e, pt) then Boundary else Continue
      ensures r != Boundary ==> winding.number == old(winding.number) + Contribution(ring, e, pt)
    {
      var seg1, seg2 := At(ring, e), At(ring, e + 1);
      var side := Side(seg1, seg2, pt);
      hide Side;
      if side == 0.0 && InBox(seg1, seg2, pt) {
        return Boundary;
      }
      if seg1.y <= pt.y && pt.y < seg2.y && side > 0.0 {
        winding.number := winding.number + 1;
      } else if seg2.y <= pt.y && pt.y < seg1.y && side < 0.0 {
        winding.number := winding.number - 1;
      }
      return Continue;
    }

    method PointInChildren(k: nat, ring: Ring, pt: Spot, winding: Winding) returns (r: Result)
      requires numNodes <= nodes.Length && WellFormed(Nodes())
      requires k < numNodes && TreeOf(Nodes(), ring, k) && nodes[k].children != []
      modifies winding
      ensures r == if Touches(ring, Edges(Nodes(), k), pt) then Boundary else Continue
      ensures r != Boundary ==> winding.number == old(winding.number) + WindingSum(ring, Edges(Nodes(), k), pt)
      decreases k + 1, 0
    {
      hide Touches, WindingSum;
      ghost var all := Nodes();
      var n := nodes[k];
      assert n == all[k];
      NoEdges(ring, pt);
      for i := 0 to |n.children|
        invariant !Touches(ring, ChildEdges(all, k, i), pt)
        invariant winding.number == old(winding.number) + WindingSum(ring, ChildEdges(all, k, i), pt)
      {
        var result := PointInRingRecursive(Some(n.children[i]), ring, pt, winding);
        WindingConcat(ring, ChildEdges(all, k, i), Edges(all, n.children[i]), pt);
        TouchesConcat(ring, ChildEdges(all, k, i), Edges(all, n.children[i]), pt);
        if result == Boundary {
          LaterChildren(all, k, i + 1, ring, pt);
          return result;
        }
      }
      return Continue;
    }

    /** A search of the index answers as a scan of the whole ring does. */
    method PointInRing(i: nat, pt: Spot) returns (r: Result)
      requires Valid() && i < numIndexes
      ensures r == LinearScan(indexArrays[i], pt)
    {
      var root, ring := indexes[i], indexArrays[i];
      assert root == indexes[..numIndexes][i] && ring == Rings()[i];
      assert Indexes(Nodes(), root, ring);
      var winding := new Winding();
      ghost var all := Nodes();
      hide TreeOf, Edges, Touches, WellFormed, AllIndexed, LinearScan;
      ScanOfValidEdges(ring, pt);
      NoEdges(ring, pt);
      var result := PointInRingRecursive(root, ring, pt, winding);
      assert Nodes() == all;
      if result == Boundary {
        return result;
      }
      if winding.number == 0 {
        return Outside;
      } else {
        return Inside;
      }
    }

    /** Looks for a hole, or its boundary, around the point. */
    method PointInHoles(first: nat, count: nat, pt: Spot, ghost poly: Poly) returns (r: Result)
      requires Valid() && first + count <= numIndexes && count == |poly| > 0
      requires indexArrays[first..first + count] == poly
      ensures r == ScanHoles(poly[1..], pt)
    {
      hide LinearScan, AllIndexed, WellFormed;
      for r := 1 to count
        invariant ScanHoles(poly[1..], pt) == ScanHoles(poly[r..], pt)
      {
        assert indexArrays[first + r] == indexArrays[first..first + count][r];
        var result := PointInRing(first + r, pt);
        assert poly[r..][0] == poly[r] && poly[r..][1..] == poly[r + 1..];
        if result != Outside {
          return result;
        }
      }
      return Outside;
    }

    /** Tests the shell, and when inside it the holes. */
    method PointInPolygon(first: nat, count: nat, pt: Spot, ghost poly: Poly) returns (r: Result)
      requires Valid() && first + count <= numIndexes && count == |poly| > 0
      requires indexArrays[first..first + count] == poly
      ensures r == ScanPolygon(poly, pt)
    {
      hide LinearScan, AllIndexed, WellFormed;
      r := PointInRing(first, pt);
      assert indexArrays[first] == indexArrays[first..first + count][0];
      if r == Inside {
        var hole := PointInHoles(first, count, pt, poly);
        r := if hole == Boundary then Boundary else if hole == Outside then Inside else Outside;
      }
    }

    /** The walk over all rings, hopping from shell to shell, answers as a scan of the
        polygons in order does. */
    method PointInMultipolygon(point: Option<Point>, ghost polys: seq<Poly>) returns (r: Result)
      requires Represents(polys)
      ensures point.None? || !IsFinite(point.value) ==> r == Outside
      ensures point.Some? && IsFinite(point.value) ==>
                r == ScanPolygons(polys, Spot(point.value.x.value, point.value.y.value))
    {
      hide ScanPolygon, Flatten, AllIndexed, WellFormed;
      if point.None? || !IsFinite(point.value) {
        return Outside;
      }
      var pt := Spot(point.value.x.value, point.value.y.value);
      var i := 0;
      NoPolygons();
      assert polys[0..] == polys && polys[..0] == [];
      for p := 0 to numPolys
        invariant i == |Flatten(polys[..p])|
        invariant ScanPolygons(polys, pt) == ScanPolygons(polys[p..], pt)
      {
        var ringCount := ringCounts[p];
        FlattenStep(polys, p);
        assert polys[p..][0] == polys[p] && polys[p..][1..] == polys[p + 1..];
        NoRings(pt);
        if ringCount == 0 {
          continue;
        }
        ShellAndHoles(polys, p);
        assert indexArrays[i..i + ringCount] == Rings()[i..i + ringCount];
        var result := PointInPolygon(i, ringCount, pt, polys[p]);
        if result != Outside {
          return result;
        }
        i := i + ringCount;
      }
      return Outside;
    }
  }

  lemma NoRings(pt: Spot)
    ensures ScanPolygon([], pt) == Outside
  {
  }

  /** The tree of a multipolygon holds its usable rings. */
  method FromMultipolygon(mpoly: seq<Poly>) returns (tree: IntervalTree)
    ensures fresh(tree) && tree.Represents(UsablePolys(mpoly))
  {
    if mpoly == [] {
      tree := new IntervalTree(0, 0, 0);
      return;
    }
    var maxNodes := NumNodesMultipolygon(mpoly);
    var maxRings := NumRings(mpoly);
    hide *;
    NoPolygons();
    tree := new IntervalTree(maxNodes, maxRings, |mpoly|);
    for i := 0 to |mpoly|
      invariant fresh(tree.nodes) && fresh(tree.indexes) && fresh(tree.indexArrays) && fresh(tree.ringCounts)
      invariant tree.Represents(UsablePolys(mpoly[..i])) && tree.numPolys <= i
      invariant forall p :: tree.numPolys <= p < |mpoly| ==> tree.ringCounts[p] == 0
      invariant tree.numNodes <= ReservedMultipolygon(mpoly[..i]) && tree.numIndexes <= CountRings(mpoly[..i])
    {
      ReservedPrefix(mpoly, i);
      PrefixStep(mpoly, i);
      if IsEmpty(mpoly[i]) {
        continue;
      }
      tree.AppendPolygon(mpoly[i], UsablePolys(mpoly[..i]));
    }
    assert mpoly[..|mpoly|] == mpoly;
  }

  /** The tree of a polygon holds its usable rings, even below an empty shell. */
  method FromPolygon(poly: Poly) returns (tree: IntervalTree)
    ensures fresh(tree) && tree.Represents(if poly == [] then [] else [Usable(poly)])
  {
    if poly == [] {
      tree := new IntervalTree(0, 0, 0);
      return;
    }
    var maxNodes := NumNodesPolygon(poly);
    tree := new IntervalTree(maxNodes, |poly|, 1);
    tree.AddPolygon(poly, 0);
    tree.numPolys := 1;
    FlattenAppend([], Usable(poly));
  }

  /** Once a child touches the point, so do all the children together. */
  lemma {:induction false} LaterChildren(nodes: seq<Node>, k: nat, j: nat, ring: Ring, pt: Spot)
    requires WellFormed(nodes) && k < |nodes| && j <= |nodes[k].children|
    requires nodes[k].children != [] && Touches(ring, ChildEdges(nodes, k, j), pt)
    ensures Touches(ring, Edges(nodes, k), pt)
    decreases |nodes[k].children| - j
  {
    hide Touches;
    if j < |nodes[k].children| {
      TouchesConcat(ring, ChildEdges(nodes, k, j), Edges(nodes, nodes[k].children[j]), pt);
      LaterChildren(nodes, k, j + 1, ring, pt);
    }
  }

  /** Where the rings of polygon `p` lie in the row of all rings. */
  lemma ShellAndHoles(polys: seq<Poly>, p: nat)
    requires p < |polys|
    ensures |Flatten(polys[..p])| + |polys[p]| <= |Flatten(polys)|
    ensures var at := |Flatten(polys[..p])|; Flatten(polys)[at..at + |polys[p]|] == polys[p]
  {
    if polys[p] == [] {
      FlattenPrefix(polys, p);
    } else {
      FlattenAt(polys, p, |polys[p]| - 1);
    }
    forall r | 0 <= r < |polys[p]|
      ensures |Flatten(polys[..p])| + r < |Flatten(polys)|
      ensures Flatten(polys)[|Flatten(polys[..p])| + r] == polys[p][r]
    {
      FlattenAt(polys, p, r);
    }
  }

  lemma {:induction false} FlattenPrefix(polys: seq<Poly>, p: nat)
    requires p <= |polys|
    ensures |Flatten(polys[..p])| <= |Flatten(polys)|
  {
    if p == |polys| {
      assert polys[..p] == polys;
    } else {
      var init := polys[..|polys| - 1];
      FlattenPrefix(init, p);
      assert init[..p] == polys[..p];
    }
  }

  /** Filling in one more parent completes one more group. */
  lemma NextGroup(nodes: seq<Node>, start: nat, i: nat)
    requires HasGroups(nodes, start, i) && HasGroups(nodes, start, i + 1)
    ensures var now := nodes + Parents(nodes, start, i) + [EMPTY_NODE];
      var a, b := start + i * ITREE_MAX_NODES, GroupEnd(nodes, start, i + 1);
      now[|now| - 1 := ParentOf(now, a, b)] == nodes + Parents(nodes, start, i + 1)
  {
    var now := nodes + Parents(nodes, start, i) + [EMPTY_NODE];
    var a, b := start + i * ITREE_MAX_NODES, GroupEnd(nodes, start, i + 1);
    assert nodes <= now;
    ParentLocal(nodes, now, a, b);
  }

  lemma NoParents(nodes: seq<Node>, start: nat)
    ensures HasGroups(nodes, start, 0) && nodes + Parents(nodes, start, 0) == nodes
  {
  }

  lemma GroupExists(nodes: seq<Node>, remaining: nat, i: nat)
    requires remaining <= |nodes| && i <= NumParents(remaining)
    ensures HasGroups(nodes, |nodes| - remaining, i)
  {
  }

  lemma {:induction false} ParentLocal(nodes: seq<Node>, more: seq<Node>, a: nat, b: nat)
    requires a <= b <= |nodes| && nodes <= more
    ensures ParentOf(nodes, a, b) == ParentOf(more, a, b)
  {
    if a < b {
      ParentLocal(nodes, more, a, b - 1);
    }
  }
}
