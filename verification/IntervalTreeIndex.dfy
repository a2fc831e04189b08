/** The packed interval tree over the edges of a ring, as values. */
module IntervalTreeIndex {
  import opened Common

  /** A coordinate, or an infinity or a NaN. */
  datatype Num = Finite(value: real) | NonFinite

  datatype Point = Point(x: Num, y: Num)

  /** A finite point. */
  datatype Spot = Spot(x: real, y: real)

  type Ring = seq<Point>

  const ITREE_MAX_NODES: nat := 4
  const FP_TOLERANCE: real := 0.000000000001

  /** The smallest positive normal single-precision number, two to the power -126. */
  const FLT_MIN: real := 1.0 / 85070591730234615865843651857942052864.0

  // ----- edges

  predicate IsFinite(p: Point) {
    p.x.Finite? && p.y.Finite?
  }

  predicate EdgeInvalid(p: Point, q: Point) {
    if p.x == q.x && p.y == q.y then true else !(IsFinite(p) && IsFinite(q))
  }

  /** Edge `e` of the ring exists, is finite and has a length. */
  predicate ValidEdge(ring: Ring, e: nat) {
    e + 1 < |ring| && !EdgeInvalid(ring[e], ring[e + 1])
  }

  function At(ring: Ring, i: nat): Spot
    requires i < |ring| && IsFinite(ring[i])
  {
    Spot(ring[i].x.value, ring[i].y.value)
  }

  /** Positive when `pt` is left of the segment, negative when right, zero on its line. */
  function Side(p: Spot, q: Spot, pt: Spot): real {
    (q.x - p.x) * (pt.y - p.y) - (pt.x - p.x) * (q.y - p.y)
  }

  predicate InBox(p: Spot, q: Spot, pt: Spot) {
    && Min(p.x, q.x) <= pt.x <= Max(p.x, q.x)
    && Min(p.y, q.y) <= pt.y <= Max(p.y, q.y)
  }

  function Crossing(p: Spot, q: Spot, pt: Spot): int {
    if p.y <= pt.y && pt.y < q.y && Side(p, q, pt) > 0.0 then 1
    else if q.y <= pt.y && pt.y < p.y && Side(p, q, pt) < 0.0 then -1
    else 0
  }

  /** The point of a segment at fraction `t`. */
  function Along(p: Spot, q: Spot, t: real): Spot {
    Spot(p.x + t * (q.x - p.x), p.y + t * (q.y - p.y))
  }

  /** Where the line of a segment that is not level meets the height of `pt`. */
  function MeetsAt(p: Spot, q: Spot, y: real): real
    requires p.y != q.y
  {
    p.x + (y - p.y) / (q.y - p.y) * (q.x - p.x)
  }

  lemma Product(a: real, b: real)
    ensures a > 0.0 && b > 0.0 ==> a * b > 0.0
    ensures a < 0.0 && b > 0.0 ==> a * b < 0.0
    ensures a > 0.0 && b < 0.0 ==> a * b < 0.0
    ensures a < 0.0 && b < 0.0 ==> a * b > 0.0
    ensures a == 0.0 || b == 0.0 ==> a * b == 0.0
  {
  }

  /** The side and box tests together find exactly the points of the segment. */
  lemma BoundaryIsSegment(p: Spot, q: Spot, pt: Spot)
    requires p != q
    ensures Side(p, q, pt) == 0.0 && InBox(p, q, pt) <==> exists t :: 0.0 <= t <= 1.0 && pt == Along(p, q, t)
  {
    if Side(p, q, pt) == 0.0 && InBox(p, q, pt) {
      var t := FractionOf(p, q, pt);
      assert 0.0 <= t <= 1.0 && pt == Along(p, q, t);
    }
    if t :| 0.0 <= t <= 1.0 && pt == Along(p, q, t) {
      AlongIsOn(p, q, t);
    }
  }

  lemma FractionOf(p: Spot, q: Spot, pt: Spot) returns (t: real)
    requires p != q && Side(p, q, pt) == 0.0 && InBox(p, q, pt)
    ensures 0.0 <= t <= 1.0 && pt == Along(p, q, t)
  {
    if p.y != q.y {
      t := FractionOfRise(p, q, pt);
    } else {
      hide Side;
      t := FractionInRange(p.x, q.x, pt.x);
    }
  }

  lemma FractionOfRise(p: Spot, q: Spot, pt: Spot) returns (t: real)
    requires p.y != q.y && Side(p, q, pt) == 0.0 && InBox(p, q, pt)
    ensures 0.0 <= t <= 1.0 && pt == Along(p, q, t)
  {
    var dx, dy, ux, uy := q.x - p.x, q.y - p.y, pt.x - p.x, pt.y - p.y;
    assert dx * uy - ux * dy == 0.0;
    hide Side;
    t := FractionInRange(p.y, q.y, pt.y);
    hide InBox;
    Proportional(dx, dy, ux, uy, t);
  }

  lemma AlongIsOn(p: Spot, q: Spot, t: real)
    requires 0.0 <= t <= 1.0
    ensures Side(p, q, Along(p, q, t)) == 0.0 && InBox(p, q, Along(p, q, t))
  {
    Between(p.x, q.x, t);
    Between(p.y, q.y, t);
    var dx, dy := q.x - p.x, q.y - p.y;
    assert dx * (t * dy) == t * dx * dy;
  }

  lemma FractionInRange(a: real, b: real, c: real) returns (t: real)
    requires a != b && Min(a, b) <= c <= Max(a, b)
    ensures 0.0 <= t <= 1.0 && c - a == t * (b - a)
  {
    var d := b - a;
    t := (c - a) / d;
    var u, v := t * d, (1.0 - t) * d;
    assert u == c - a && v == b - c;
    Product(t, d);
    Product(1.0 - t, d);
  }

  lemma Proportional(dx: real, dy: real, ux: real, uy: real, t: real)
    requires dy != 0.0 && dx * uy - ux * dy == 0.0 && uy == t * dy
    ensures ux == t * dx
  {
    var gap := t * dx - ux;
    assert gap * dy == 0.0;
    Product(gap, dy);
  }

  lemma Between(a: real, b: real, t: real)
    requires 0.0 <= t <= 1.0
    ensures Min(a, b) <= a + t * (b - a) <= Max(a, b)
  {
    var d := b - a;
    var u, v := t * d, (1.0 - t) * d;
    assert u + v == d;
    Product(t, d);
    Product(1.0 - t, d);
    assert a + u == b - v;
  }

  /** A crossing counts the segments that pass strictly to the right of the point at its
      height, upwards or downwards, the lower end included and the upper one not. */
  lemma CrossingIsToTheRight(p: Spot, q: Spot, pt: Spot)
    ensures Crossing(p, q, pt) == 1 <==> p.y <= pt.y < q.y && MeetsAt(p, q, pt.y) > pt.x
    ensures Crossing(p, q, pt) == -1 <==> q.y <= pt.y < p.y && MeetsAt(p, q, pt.y) > pt.x
  {
    if p.y != q.y {
      var s, dy := (pt.y - p.y) / (q.y - p.y), q.y - p.y;
      assert s * dy == pt.y - p.y;
      var gap := MeetsAt(p, q, pt.y) - pt.x;
      assert gap * dy == Side(p, q, pt) by {
        assert gap * dy == (s * dy) * (q.x - p.x) - (pt.x - p.x) * dy;
      }
      Product(gap, dy);
    }
  }

  // ----- the linear scan

  predicate OnEdge(ring: Ring, e: nat, pt: Spot) {
    && ValidEdge(ring, e)
    && Side(At(ring, e), At(ring, e + 1), pt) == 0.0 && InBox(At(ring, e), At(ring, e + 1), pt)
  }

  function Contribution(ring: Ring, e: nat, pt: Spot): int {
    if ValidEdge(ring, e) then Crossing(At(ring, e), At(ring, e + 1), pt) else 0
  }

  datatype Result = Inside | Boundary | Outside | Continue

  /** The winding sum over the first `n` edges of the ring. */
  function LinearWinding(ring: Ring, n: nat, pt: Spot): int {
    if n == 0 then 0 else LinearWinding(ring, n - 1, pt) + Contribution(ring, n - 1, pt)
  }

  /** What the index has to answer: a scan over every edge of the ring. */
  ghost function LinearScan(ring: Ring, pt: Spot): Result {
    if exists e: nat :: OnEdge(ring, e, pt) then Boundary
    else if LinearWinding(ring, |ring|, pt) == 0 then Outside
    else Inside
  }

  // ----- edges without length

  ghost predicate AllFinite(ring: Ring) {
    forall i :: 0 <= i < |ring| ==> IsFinite(ring[i])
  }

  /** The point is on edge `e`, of whatever length. */
  predicate OnAnyEdge(ring: Ring, e: nat, pt: Spot)
    requires AllFinite(ring)
  {
    e + 1 < |ring| && Side(At(ring, e), At(ring, e + 1), pt) == 0.0 && InBox(At(ring, e), At(ring, e + 1), pt)
  }

  /** Between two different points of a ring lies a valid edge that starts or ends at the first. */
  lemma {:induction false} EdgeAtPoint(ring: Ring, i: nat, j: nat) returns (e: nat)
    requires AllFinite(ring) && i < |ring| && j < |ring| && ring[i] != ring[j]
    ensures ValidEdge(ring, e) && (ring[e] == ring[i] || ring[e + 1] == ring[i])
    decreases if i < j then j - i else i - j
  {
    var next := if i < j then i + 1 else i - 1;
    if ring[next] != ring[i] {
      e := if i < j then i else next;
    } else {
      e := EdgeAtPoint(ring, next, j);
    }
  }

  lemma EndsAreOn(p: Spot, q: Spot)
    ensures Side(p, q, p) == 0.0 && InBox(p, q, p) && Side(p, q, q) == 0.0 && InBox(p, q, q)
  {
  }

  /** Leaving out edges without length changes no answer, unless the whole ring is one point. */
  lemma ZeroLengthEdgesDoNotMatter(ring: Ring, pt: Spot, i: nat, j: nat)
    requires AllFinite(ring) && i < |ring| && j < |ring| && ring[i] != ring[j]
    ensures (exists e: nat :: OnEdge(ring, e, pt)) <==> exists e: nat :: OnAnyEdge(ring, e, pt)
    ensures forall e: nat :: e + 1 < |ring| ==> Contribution(ring, e, pt) == Crossing(At(ring, e), At(ring, e + 1), pt)
  {
    if e: nat :| OnEdge(ring, e, pt) {
      assert OnAnyEdge(ring, e, pt);
    }
    if e: nat :| OnAnyEdge(ring, e, pt) {
      if ValidEdge(ring, e) {
        assert OnEdge(ring, e, pt);
      } else {
        assert ring[e] == ring[e + 1] && pt == At(ring, e);
        var f := EdgeAtPoint(ring, e, if ring[e] != ring[i] then i else j);
        EndsAreOn(At(ring, f), At(ring, f + 1));
        assert OnEdge(ring, f, pt);
      }
    }
  }

  // ----- sums over a list of edges

  predicate Touches(ring: Ring, edges: seq<nat>, pt: Spot) {
    exists j :: 0 <= j < |edges| && OnEdge(ring, edges[j], pt)
  }

  function WindingSum(ring: Ring, edges: seq<nat>, pt: Spot): int {
    if edges == [] then 0
    else WindingSum(ring, edges[..|edges| - 1], pt) + Contribution(ring, edges[|edges| - 1], pt)
  }

  lemma {:induction false} WindingConcat(ring: Ring, a: seq<nat>, b: seq<nat>, pt: Spot)
    ensures WindingSum(ring, a + b, pt) == WindingSum(ring, a, pt) + WindingSum(ring, b, pt)
  {
    if b == [] {
      assert a + b == a;
    } else {
      WindingConcat(ring, a, b[..|b| - 1], pt);
      assert (a + b)[..|a + b| - 1] == a + b[..|b| - 1];
    }
  }

  lemma TouchesConcat(ring: Ring, a: seq<nat>, b: seq<nat>, pt: Spot)
    ensures Touches(ring, a + b, pt) <==> Touches(ring, a, pt) || Touches(ring, b, pt)
  {
    if j :| 0 <= j < |a| && OnEdge(ring, a[j], pt) {
      assert (a + b)[j] == a[j];
    }
    if j :| 0 <= j < |b| && OnEdge(ring, b[j], pt) {
      assert (a + b)[|a| + j] == b[j];
    }
  }

  /** The edges that get a leaf, among the first `n`. */
  function ValidEdges(ring: Ring, n: nat): seq<nat> {
    if n == 0 then []
    else if ValidEdge(ring, n - 1) then ValidEdges(ring, n - 1) + [n - 1]
    else ValidEdges(ring, n - 1)
  }

  lemma {:induction false} ValidEdgesAreAll(ring: Ring, n: nat)
    ensures forall e: nat :: e in ValidEdges(ring, n) <==> e < n && ValidEdge(ring, e)
  {
    if n > 0 {
      ValidEdgesAreAll(ring, n - 1);
    }
  }

  lemma {:induction false} WindingIsLinear(ring: Ring, n: nat, pt: Spot)
    ensures WindingSum(ring, ValidEdges(ring, n), pt) == LinearWinding(ring, n, pt)
  {
    hide Crossing, EdgeInvalid, At, WindingSum;
    if n == 0 {
      NoEdges(ring, pt);
    } else {
      WindingIsLinear(ring, n - 1, pt);
      WindingConcat(ring, ValidEdges(ring, n - 1), [n - 1], pt);
      OneEdge(ring, n - 1, pt);
    }
  }

  /** Scanning the listed edges is scanning the whole ring. */
  lemma ScanOfValidEdges(ring: Ring, pt: Spot)
    requires ring != []
    ensures var edges := ValidEdges(ring, |ring| - 1);
            LinearScan(ring, pt) ==
            if Touches(ring, edges, pt) then Boundary
            else if WindingSum(ring, edges, pt) == 0 then Outside
            else Inside
  {
    var edges := ValidEdges(ring, |ring| - 1);
    ValidEdgesAreAll(ring, |ring| - 1);
    WindingIsLinear(ring, |ring| - 1, pt);
    if e: nat :| OnEdge(ring, e, pt) {
      assert e in edges;
    }
  }

  // ----- nodes

  /** A node; `children` are positions in the node array. */
  datatype Node = Node(min: real, max: real, edgeIndex: nat, children: seq<nat>)

  const EMPTY_NODE := Node(FLT_MAX, FLT_MIN, UINT32_LIMIT - 1, [])

  function Leaf(ring: Ring, e: nat): Node
    requires ValidEdge(ring, e)
  {
    var y1, y2 := At(ring, e).y, At(ring, e + 1).y;
    Node(Min(y1, y2), Max(y1, y2), e, [])
  }

  function Leaves(ring: Ring, n: nat): (leaves: seq<Node>)
    ensures |leaves| == |ValidEdges(ring, n)| <= n
  {
    if n == 0 then []
    else if ValidEdge(ring, n - 1) then Leaves(ring, n - 1) + [Leaf(ring, n - 1)]
    else Leaves(ring, n - 1)
  }

  /** A parent takes in the node at position `j`. */
  function Adopt(parent: Node, nodes: seq<Node>, j: nat): Node
    requires j < |nodes|
  {
    var child := nodes[j];
    Node(Min(child.min, parent.min), Max(child.max, parent.max),
         if child.edgeIndex < parent.edgeIndex then child.edgeIndex else parent.edgeIndex, parent.children + [j])
  }

  function ParentOf(nodes: seq<Node>, a: nat, b: nat): Node
    requires a <= b <= |nodes|
  {
    if a == b then EMPTY_NODE else Adopt(ParentOf(nodes, a, b - 1), nodes, b - 1)
  }

  function NumParents(remaining: nat): nat {
    remaining / ITREE_MAX_NODES + (if remaining % ITREE_MAX_NODES > 0 then 1 else 0)
  }

  /** Every parent takes in up to four nodes. */
  lemma QuarterOfNodes(remaining: nat)
    ensures NumParents(remaining) == (remaining + 3) / 4
  {
  }

  function GroupEnd(nodes: seq<Node>, start: nat, i: nat): nat {
    var end := start + i * ITREE_MAX_NODES;
    if end > |nodes| then |nodes| else end
  }

  /** Group `i` of the level that starts at `start` has a member. */
  predicate HasGroups(nodes: seq<Node>, start: nat, i: nat) {
    i == 0 || start + (i - 1) * ITREE_MAX_NODES < |nodes|
  }

  function Parents(nodes: seq<Node>, start: nat, i: nat): (parents: seq<Node>)
    requires HasGroups(nodes, start, i)
    ensures |parents| == i
  {
    if i == 0 then []
    else Parents(nodes, start, i - 1) + [ParentOf(nodes, start + (i - 1) * ITREE_MAX_NODES, GroupEnd(nodes, start, i))]
  }

  /** One round of merging the last `remaining` nodes. */
  function Merge(nodes: seq<Node>, remaining: nat): (r: seq<Node>)
    requires remaining <= |nodes|
    ensures |r| == |nodes| + NumParents(remaining)
  {
    nodes + Parents(nodes, |nodes| - remaining, NumParents(remaining))
  }

  function MergeAll(nodes: seq<Node>, remaining: nat): (r: seq<Node>)
    requires remaining <= |nodes|
    ensures |r| >= |nodes|
    decreases remaining
  {
    if remaining <= 1 then nodes else MergeAll(Merge(nodes, remaining), NumParents(remaining))
  }

  /** The node array after indexing one more ring. */
  function IndexRing(nodes: seq<Node>, ring: Ring): seq<Node>
    requires ring != []
  {
    var leaves := Leaves(ring, |ring| - 1);
    MergeAll(nodes + leaves, |leaves|)
  }

  // ----- node space

  /** Nodes allocated for a ring of `m` leaves: every level, down to the root. */
  function Allocated(m: nat): nat {
    if m <= 1 then m else m + Allocated(NumParents(m))
  }

  /** Nodes reserved for a ring of `npoints` points. */
  function Reserved(npoints: nat): nat {
    if npoints < 4 then 0 else Allocated(npoints - 1)
  }

  lemma {:induction false} AllocatedGrows(m: nat, n: nat)
    requires m <= n
    ensures Allocated(m) <= Allocated(n)
    decreases n
  {
    if m > 1 {
      AllocatedGrows(NumParents(m), NumParents(n));
    }
  }

  lemma {:induction false} MergedSize(nodes: seq<Node>, remaining: nat)
    requires remaining <= |nodes|
    ensures |MergeAll(nodes, remaining)| == |nodes| - remaining + Allocated(remaining)
    decreases remaining
  {
    if remaining > 1 {
      MergedSize(Merge(nodes, remaining), NumParents(remaining));
    }
  }

  /** The space reserved for a ring is enough for its index, whichever edges are skipped. */
  lemma SpaceSuffices(nodes: seq<Node>, ring: Ring)
    requires |ring| >= 4
    ensures |nodes| <= |IndexRing(nodes, ring)| <= |nodes| + Reserved(|ring|)
  {
    var leaves := Leaves(ring, |ring| - 1);
    MergedSize(nodes + leaves, |leaves|);
    AllocatedGrows(|leaves|, |ring| - 1);
  }

  // ----- what a tree indexes

  predicate WellFormed(nodes: seq<Node>) {
    forall k, j :: 0 <= k < |nodes| && 0 <= j < |nodes[k].children| ==> nodes[k].children[j] < k
  }

  predicate Spans(parent: Node, child: Node) {
    parent.min <= child.min && child.max <= parent.max
  }

  /** The tree at `k` has true edges at its leaves and covering ranges, of at most four
      nodes each, above them. */
  predicate TreeOf(nodes: seq<Node>, ring: Ring, k: nat)
    requires WellFormed(nodes) && k < |nodes|
    decreases k
  {
    if nodes[k].children == [] then
      ValidEdge(ring, nodes[k].edgeIndex) && nodes[k] == Leaf(ring, nodes[k].edgeIndex)
    else
      && |nodes[k].children| <= 4
      && forall j :: 0 <= j < |nodes[k].children| ==>
        TreeOf(nodes, ring, nodes[k].children[j]) && Spans(nodes[k], nodes[nodes[k].children[j]])
  }

  /** The edges at the leaves of a tree, left to right. */
  function Edges(nodes: seq<Node>, k: nat): seq<nat>
    requires WellFormed(nodes) && k < |nodes|
    decreases k, |nodes[k].children| + 1
  {
    if nodes[k].children == [] then [nodes[k].edgeIndex] else ChildEdges(nodes, k, |nodes[k].children|)
  }

  /** Those below the first `j` children. */
  function ChildEdges(nodes: seq<Node>, k: nat, j: nat): seq<nat>
    requires WellFormed(nodes) && k < |nodes| && j <= |nodes[k].children|
    decreases k, j
  {
    if j == 0 then [] else ChildEdges(nodes, k, j - 1) + Edges(nodes, nodes[k].children[j - 1])
  }

  /** Those below the nodes `a` to `b` of one level. */
  function LevelEdges(nodes: seq<Node>, a: nat, b: nat): seq<nat>
    requires WellFormed(nodes) && b <= |nodes|
    decreases b
  {
    if a >= b then [] else LevelEdges(nodes, a, b - 1) + Edges(nodes, b - 1)
  }

  ghost predicate LevelOf(nodes: seq<Node>, ring: Ring, a: nat) {
    WellFormed(nodes) && forall k :: a <= k < |nodes| ==> TreeOf(nodes, ring, k)
  }

  // ----- what is already built stays as it is

  lemma {:induction false} EdgesKept(nodes: seq<Node>, more: seq<Node>, k: nat)
    requires WellFormed(nodes) && WellFormed(nodes + more) && k < |nodes|
    ensures Edges(nodes + more, k) == Edges(nodes, k)
    decreases k, |nodes[k].children| + 1
  {
    ChildEdgesKept(nodes, more, k, |nodes[k].children|);
  }

  lemma {:induction false} ChildEdgesKept(nodes: seq<Node>, more: seq<Node>, k: nat, j: nat)
    requires WellFormed(nodes) && WellFormed(nodes + more) && k < |nodes| && j <= |nodes[k].children|
    ensures ChildEdges(nodes + more, k, j) == ChildEdges(nodes, k, j)
    decreases k, j
  {
    if j > 0 {
      ChildEdgesKept(nodes, more, k, j - 1);
      EdgesKept(nodes, more, nodes[k].children[j - 1]);
    }
  }

  lemma {:induction false} LevelKept(nodes: seq<Node>, more: seq<Node>, a: nat, b: nat)
    requires WellFormed(nodes) && WellFormed(nodes + more) && b <= |nodes|
    ensures LevelEdges(nodes + more, a, b) == LevelEdges(nodes, a, b)
    decreases b
  {
    if a < b {
      LevelKept(nodes, more, a, b - 1);
      EdgesKept(nodes, more, b - 1);
    }
  }

  lemma {:induction false} TreeKept(nodes: seq<Node>, more: seq<Node>, ring: Ring, k: nat)
    requires WellFormed(nodes) && WellFormed(nodes + more) && k < |nodes| && TreeOf(nodes, ring, k)
    ensures TreeOf(nodes + more, ring, k)
    decreases k
  {
    var all := nodes + more;
    forall j | 0 <= j < |all[k].children|
      ensures TreeOf(all, ring, all[k].children[j]) && Spans(all[k], all[all[k].children[j]])
    {
      TreeKept(nodes, more, ring, nodes[k].children[j]);
    }
  }

  // ----- merging keeps the edges in order

  /** The node takes in exactly the nodes from `a` to `b`. */
  predicate TakesIn(p: Node, nodes: seq<Node>, a: nat, b: nat)
    requires a <= b <= |nodes|
  {
    |p.children| == b - a && forall j :: 0 <= j < b - a ==> p.children[j] == a + j && Spans(p, nodes[a + j])
  }

  lemma {:induction false} ParentTakesIn(nodes: seq<Node>, a: nat, b: nat)
    requires a <= b <= |nodes|
    ensures TakesIn(ParentOf(nodes, a, b), nodes, a, b)
  {
    if a < b {
      ParentTakesIn(nodes, a, b - 1);
      AdoptedTakesIn(ParentOf(nodes, a, b - 1), nodes, a, b - 1);
    }
  }

  lemma AdoptedTakesIn(p: Node, nodes: seq<Node>, a: nat, b: nat)
    requires a <= b < |nodes| && TakesIn(p, nodes, a, b)
    ensures TakesIn(Adopt(p, nodes, b), nodes, a, b + 1)
  {
    var r := Adopt(p, nodes, b);
    AdoptedSpans(p, nodes, b);
    forall j | 0 <= j < b + 1 - a
      ensures r.children[j] == a + j && Spans(r, nodes[a + j])
    {
      if j < b - a {
        assert p.children[j] == a + j && Spans(p, nodes[a + j]);
      }
    }
  }

  lemma AdoptedSpans(parent: Node, nodes: seq<Node>, j: nat)
    requires j < |nodes|
    ensures var p := Adopt(parent, nodes, j);
      && Spans(p, nodes[j]) && (forall child :: Spans(parent, child) ==> Spans(p, child))
      && p.children == parent.children + [j]
  {
  }

  lemma {:induction false} ChildEdgesAreLevel(nodes: seq<Node>, k: nat, a: nat, j: nat)
    requires WellFormed(nodes) && k < |nodes| && j <= |nodes[k].children| && a + j <= |nodes|
    requires forall i :: 0 <= i < j ==> nodes[k].children[i] == a + i
    ensures ChildEdges(nodes, k, j) == LevelEdges(nodes, a, a + j)
    decreases j
  {
    hide Edges;
    if j > 0 {
      ChildEdgesAreLevel(nodes, k, a, j - 1);
    }
  }

  lemma {:induction false} LevelSplits(nodes: seq<Node>, a: nat, b: nat, c: nat)
    requires WellFormed(nodes) && a <= b <= c <= |nodes|
    ensures LevelEdges(nodes, a, c) == LevelEdges(nodes, a, b) + LevelEdges(nodes, b, c)
    decreases c
  {
    hide Edges, WellFormed;
    if b < c {
      LevelSplits(nodes, a, b, c - 1);
      var first, middle, last := LevelEdges(nodes, a, b), LevelEdges(nodes, b, c - 1), Edges(nodes, c - 1);
      assert first + middle + last == first + (middle + last);
    } else {
      assert LevelEdges(nodes, b, c) == [];
    }
  }

  lemma EdgesAbove(nodes: seq<Node>, k: nat)
    requires k < |nodes| && nodes[k].children != [] && WellFormed(nodes)
    ensures Edges(nodes, k) == ChildEdges(nodes, k, |nodes[k].children|)
  {
  }

  /** One parent above the nodes `a` to `b` stands for them. */
  lemma ParentStandsFor(nodes: seq<Node>, between: seq<Node>, ring: Ring, a: nat, b: nat)
    requires LevelOf(nodes, ring, a) && a < b <= |nodes| && b - a <= ITREE_MAX_NODES && WellFormed(nodes + between)
    ensures var all := nodes + between + [ParentOf(nodes, a, b)];
      && WellFormed(all)
      && Edges(all, |all| - 1) == LevelEdges(nodes, a, b)
      && TreeOf(all, ring, |all| - 1)
  {
    hide ParentOf, Edges;
    var parent := ParentOf(nodes, a, b);
    var all := nodes + between + [parent];
    ParentTakesIn(nodes, a, b);
    assert TakesIn(parent, nodes, a, b);
    EdgesAbove(all, |all| - 1);
    assert all == nodes + (between + [parent]);
    ChildEdgesAreLevel(all, |all| - 1, a, b - a);
    LevelKept(nodes, between + [parent], a, b);
    forall j | 0 <= j < b - a
      ensures TreeOf(all, ring, parent.children[j])
    {
      TreeKept(nodes, between + [parent], ring, a + j);
    }
  }

  /** The first `i` parents stand for the first `i` groups. */
  lemma {:induction false} ParentsStandFor(nodes: seq<Node>, ring: Ring, start: nat, i: nat)
    requires LevelOf(nodes, ring, start) && start <= |nodes| && HasGroups(nodes, start, i)
    ensures var all := nodes + Parents(nodes, start, i);
      && LevelOf(all, ring, |nodes|)
      && LevelEdges(all, |nodes|, |nodes| + i) == LevelEdges(nodes, start, GroupEnd(nodes, start, i))
    decreases i
  {
    if i == 0 {
      assert nodes + Parents(nodes, start, 0) == nodes;
    } else {
      ParentsStandFor(nodes, ring, start, i - 1);
      NextParent(nodes, ring, start, i);
    }
  }

  lemma LaterLevel(nodes: seq<Node>, ring: Ring, start: nat, a: nat)
    requires LevelOf(nodes, ring, start) && start <= a
    ensures LevelOf(nodes, ring, a) && WellFormed(nodes)
  {
    hide TreeOf, WellFormed;
  }

  /** One more tree on a level. */
  lemma LevelGrows(nodes: seq<Node>, node: Node, ring: Ring, a: nat)
    requires LevelOf(nodes, ring, a) && WellFormed(nodes + [node]) && TreeOf(nodes + [node], ring, |nodes|)
    ensures LevelOf(nodes + [node], ring, a)
  {
    hide TreeOf, WellFormed;
    forall k | a <= k < |nodes|
      ensures TreeOf(nodes + [node], ring, k)
    {
      TreeKept(nodes, [node], ring, k);
    }
  }

  lemma LevelEdgesGrow(nodes: seq<Node>, node: Node, a: nat)
    requires WellFormed(nodes) && WellFormed(nodes + [node]) && a <= |nodes|
    ensures LevelEdges(nodes + [node], a, |nodes| + 1) == LevelEdges(nodes, a, |nodes|) + Edges(nodes + [node], |nodes|)
  {
    hide Edges, WellFormed;
    LevelKept(nodes, [node], a, |nodes|);
  }

  /** One more parent, above the nodes from `a` to `b`. */
  lemma OneMoreParent(nodes: seq<Node>, between: seq<Node>, ring: Ring, start: nat, a: nat, b: nat)
    requires LevelOf(nodes, ring, start) && start <= a < b <= |nodes| && b - a <= ITREE_MAX_NODES
    requires LevelOf(nodes + between, ring, |nodes|)
    requires LevelEdges(nodes + between, |nodes|, |nodes| + |between|) == LevelEdges(nodes, start, a)
    ensures var all := nodes + between + [ParentOf(nodes, a, b)];
      && LevelOf(all, ring, |nodes|)
      && LevelEdges(all, |nodes|, |nodes| + |between| + 1) == LevelEdges(nodes, start, b)
  {
    hide TreeOf, Edges, WellFormed, LevelOf, LevelEdges, ParentOf;
    LaterLevel(nodes, ring, start, a);
    LaterLevel(nodes + between, ring, |nodes|, |nodes|);
    ParentStandsFor(nodes, between, ring, a, b);
    LevelGrows(nodes + between, ParentOf(nodes, a, b), ring, |nodes|);
    LevelEdgesGrow(nodes + between, ParentOf(nodes, a, b), |nodes|);
    LaterLevel(nodes, ring, start, start);
    LevelSplits(nodes, start, a, b);
  }

  lemma GroupStep(nodes: seq<Node>, start: nat, i: nat)
    requires i > 0 && HasGroups(nodes, start, i)
    ensures HasGroups(nodes, start, i - 1)
    ensures var a, b := GroupEnd(nodes, start, i - 1), GroupEnd(nodes, start, i);
      && start <= a < b <= |nodes| && b - a <= ITREE_MAX_NODES
      && Parents(nodes, start, i) == Parents(nodes, start, i - 1) + [ParentOf(nodes, a, b)]
  {
    hide ParentOf;
  }

  lemma NextParent(nodes: seq<Node>, ring: Ring, start: nat, i: nat)
    requires i > 0 && LevelOf(nodes, ring, start) && HasGroups(nodes, start, i)
    requires var all := nodes + Parents(nodes, start, i - 1);
      && LevelOf(all, ring, |nodes|)
      && LevelEdges(all, |nodes|, |nodes| + i - 1) == LevelEdges(nodes, start, GroupEnd(nodes, start, i - 1))
    ensures var all := nodes + Parents(nodes, start, i);
      && LevelOf(all, ring, |nodes|)
      && LevelEdges(all, |nodes|, |nodes| + i) == LevelEdges(nodes, start, GroupEnd(nodes, start, i))
  {
    GroupStep(nodes, start, i);
    var a, b := GroupEnd(nodes, start, i - 1), GroupEnd(nodes, start, i);
    var between := Parents(nodes, start, i - 1);
    hide LevelOf, LevelEdges, ParentOf, Parents, GroupEnd;
    OneMoreParent(nodes, between, ring, start, a, b);
    assert nodes + between + [ParentOf(nodes, a, b)] == nodes + Parents(nodes, start, i);
  }

  /** The groups of a level reach exactly to its end. */
  lemma GroupsCover(nodes: seq<Node>, remaining: nat)
    requires 0 < remaining <= |nodes|
    ensures HasGroups(nodes, |nodes| - remaining, NumParents(remaining))
    ensures GroupEnd(nodes, |nodes| - remaining, NumParents(remaining)) == |nodes|
    ensures remaining > 1 ==> 0 < NumParents(remaining) < remaining
  {
  }

  /** A round of merging lists the same edges in the same order. */
  lemma MergeKeepsEdges(nodes: seq<Node>, ring: Ring, remaining: nat)
    requires 0 < remaining <= |nodes| && LevelOf(nodes, ring, |nodes| - remaining)
    ensures var all := Merge(nodes, remaining);
      && LevelOf(all, ring, |nodes|)
      && LevelEdges(all, |nodes|, |all|) == LevelEdges(nodes, |nodes| - remaining, |nodes|)
  {
    hide LevelOf, LevelEdges, Parents, NumParents, HasGroups, GroupEnd;
    GroupsCover(nodes, remaining);
    ParentsStandFor(nodes, ring, |nodes| - remaining, NumParents(remaining));
  }

  lemma OneNodeLevel(nodes: seq<Node>, ring: Ring)
    requires nodes != [] && LevelOf(nodes, ring, |nodes| - 1)
    ensures WellFormed(nodes) && TreeOf(nodes, ring, |nodes| - 1)
    ensures LevelEdges(nodes, |nodes| - 1, |nodes|) == Edges(nodes, |nodes| - 1)
  {
    hide TreeOf, Edges;
    assert LevelEdges(nodes, |nodes| - 1, |nodes| - 1) == [];
  }

  lemma {:induction false} MergeAllKeepsEdges(nodes: seq<Node>, ring: Ring, remaining: nat)
    requires 0 < remaining <= |nodes| && LevelOf(nodes, ring, |nodes| - remaining)
    ensures var all := MergeAll(nodes, remaining);
      && |all| > 0 && WellFormed(all) && nodes <= all
      && TreeOf(all, ring, |all| - 1)
      && Edges(all, |all| - 1) == LevelEdges(nodes, |nodes| - remaining, |nodes|)
    decreases remaining
  {
    hide LevelOf, LevelEdges, TreeOf, Edges, WellFormed, NumParents, Parents;
    if remaining == 1 {
      OneNodeLevel(nodes, ring);
    } else {
      GroupsCover(nodes, remaining);
      MergeKeepsEdges(nodes, ring, remaining);
      MergeAllKeepsEdges(Merge(nodes, remaining), ring, NumParents(remaining));
    }
  }

  lemma {:induction false} LeavesAreEdges(nodes: seq<Node>, ring: Ring, n: nat)
    requires WellFormed(nodes) && n < |ring|
    ensures var all := nodes + Leaves(ring, n);
      LevelOf(all, ring, |nodes|) && LevelEdges(all, |nodes|, |all|) == ValidEdges(ring, n)
  {
    if n == 0 {
      assert nodes + Leaves(ring, 0) == nodes;
      assert LevelEdges(nodes, |nodes|, |nodes|) == [];
    } else {
      var before := nodes + Leaves(ring, n - 1);
      LeavesAreEdges(nodes, ring, n - 1);
      if ValidEdge(ring, n - 1) {
        NextLeaf(before, ring, |nodes|, n - 1);
        assert before + [Leaf(ring, n - 1)] == nodes + Leaves(ring, n);
      }
    }
  }

  lemma NextLeaf(nodes: seq<Node>, ring: Ring, a: nat, e: nat)
    requires LevelOf(nodes, ring, a) && a <= |nodes| && ValidEdge(ring, e)
    ensures var all := nodes + [Leaf(ring, e)];
      LevelOf(all, ring, a) && LevelEdges(all, a, |all|) == LevelEdges(nodes, a, |nodes|) + [e]
  {
    var all := nodes + [Leaf(ring, e)];
    LevelKept(nodes, [Leaf(ring, e)], a, |nodes|);
    forall k | a <= k < |nodes|
      ensures TreeOf(all, ring, k)
    {
      TreeKept(nodes, [Leaf(ring, e)], ring, k);
    }
  }

  /** The last node `root` of an index tells which ring it indexes. */
  ghost predicate Indexes(nodes: seq<Node>, root: Option<nat>, ring: Ring) {
    && WellFormed(nodes) && |ring| >= 4
    && match root
       case None => ValidEdges(ring, |ring| - 1) == []
       case Some(k) => k < |nodes| && TreeOf(nodes, ring, k) && Edges(nodes, k) == ValidEdges(ring, |ring| - 1)
  }

  /** Indexing a ring makes a tree whose leaves are the valid edges in order, and touches
      nothing built before. */
  lemma RingIsIndexed(nodes: seq<Node>, ring: Ring)
    requires WellFormed(nodes) && |ring| >= 4
    ensures var all, leaves := IndexRing(nodes, ring), Leaves(ring, |ring| - 1);
      && nodes <= all && WellFormed(all)
      && (leaves != [] ==> |all| > 0)
      && Indexes(all, if leaves == [] then None else Some(|all| - 1), ring)
  {
    hide TreeOf, Edges, MergeAll;
    var leaves := Leaves(ring, |ring| - 1);
    LeavesAreEdges(nodes, ring, |ring| - 1);
    if leaves == [] {
      MergeAllNone(nodes + leaves);
      assert nodes + leaves == nodes;
    } else {
      MergeAllKeepsEdges(nodes + leaves, ring, |leaves|);
    }
  }

  lemma MergeAllNone(nodes: seq<Node>)
    ensures MergeAll(nodes, 0) == nodes
  {
  }

  lemma IndexKept(nodes: seq<Node>, more: seq<Node>, root: Option<nat>, ring: Ring)
    requires Indexes(nodes, root, ring) && WellFormed(nodes + more)
    ensures Indexes(nodes + more, root, ring)
  {
    if root.Some? {
      TreeKept(nodes, more, ring, root.value);
      EdgesKept(nodes, more, root.value);
    }
  }

  ghost predicate AllIndexed(nodes: seq<Node>, roots: seq<Option<nat>>, rings: seq<Ring>) {
    |roots| == |rings| && forall i :: 0 <= i < |rings| ==> Indexes(nodes, roots[i], rings[i])
  }

  lemma IndexAdded(
    before: seq<Node>, after: seq<Node>, roots: seq<Option<nat>>, rings: seq<Ring>, root: Option<nat>, ring: Ring)
    requires WellFormed(before) && WellFormed(after) && before <= after
    requires AllIndexed(before, roots, rings) && Indexes(after, root, ring)
    ensures AllIndexed(after, roots + [root], rings + [ring])
  {
    hide Indexes;
    assert after == before + after[|before|..];
    forall i | 0 <= i < |rings|
      ensures Indexes(after, roots[i], rings[i])
    {
      IndexKept(before, after[|before|..], roots[i], rings[i]);
    }
  }

  // ----- pruning

  /** The test that lets a search into a node. */
  predicate MayContain(node: Node, y: real) {
    node.min - FP_TOLERANCE <= y && y - FP_TOLERANCE <= node.max
  }

  lemma OutOfRangeEdge(ring: Ring, e: nat, pt: Spot)
    requires ValidEdge(ring, e) && !(Leaf(ring, e).min <= pt.y <= Leaf(ring, e).max)
    ensures !OnEdge(ring, e, pt) && Contribution(ring, e, pt) == 0
  {
  }

  /** A node that the test rejects has no edge that matters to the point. */
  lemma {:induction false} PrunedIsIrrelevant(nodes: seq<Node>, ring: Ring, k: nat, pt: Spot)
    requires WellFormed(nodes) && k < |nodes| && TreeOf(nodes, ring, k)
    requires !(nodes[k].min <= pt.y <= nodes[k].max)
    ensures !Touches(ring, Edges(nodes, k), pt) && WindingSum(ring, Edges(nodes, k), pt) == 0
    decreases k, |nodes[k].children| + 1
  {
    hide ValidEdge, OnEdge, Contribution;
    if nodes[k].children == [] {
      OutOfRangeEdge(ring, nodes[k].edgeIndex, pt);
      OneEdge(ring, nodes[k].edgeIndex, pt);
    } else {
      PrunedChildren(nodes, ring, k, |nodes[k].children|, pt);
    }
  }

  lemma OneEdge(ring: Ring, e: nat, pt: Spot)
    ensures WindingSum(ring, [e], pt) == Contribution(ring, e, pt)
    ensures Touches(ring, [e], pt) <==> OnEdge(ring, e, pt)
  {
    assert [e][..0] == [];
    assert [e][0] == e;
  }

  lemma {:induction false} PrunedChildren(nodes: seq<Node>, ring: Ring, k: nat, j: nat, pt: Spot)
    requires WellFormed(nodes) && k < |nodes| && j <= |nodes[k].children| && TreeOf(nodes, ring, k)
    requires !(nodes[k].min <= pt.y <= nodes[k].max)
    ensures !Touches(ring, ChildEdges(nodes, k, j), pt) && WindingSum(ring, ChildEdges(nodes, k, j), pt) == 0
    decreases k, j
  {
    hide Touches, WindingSum, ValidEdge;
    if j == 0 {
      NoEdges(ring, pt);
    } else {
      PrunedChildren(nodes, ring, k, j - 1, pt);
      PrunedIsIrrelevant(nodes, ring, nodes[k].children[j - 1], pt);
      WindingConcat(ring, ChildEdges(nodes, k, j - 1), Edges(nodes, nodes[k].children[j - 1]), pt);
      TouchesConcat(ring, ChildEdges(nodes, k, j - 1), Edges(nodes, nodes[k].children[j - 1]), pt);
    }
  }

  lemma NoEdges(ring: Ring, pt: Spot)
    ensures !Touches(ring, [], pt) && WindingSum(ring, [], pt) == 0
  {
  }
}
