/** Trees of discs over an abstract metric, and the distance between two of them. */
module CircTree {
  import opened Common
  import opened CircDiscs

  /** A disc and, for a leaf, the ends of the edge inside it (equal for a point). */
  datatype Node = Node(center: Geo, radius: real, geomType: nat, p1: Geo, p2: Geo)

  /** Node `k` has the children `kids[k]`, all at earlier positions.  `contains` is the
      point-in-polygon test of a node. */
  datatype Tree = Tree(nodes: seq<Node>, kids: seq<seq<nat>>, contains: (nat, Geo) -> bool)

  /** The metric, the points of an edge between two ends, the closest point of an edge to a
      point, the common point of two edges, and the closest points of two edges. */
  datatype Space = Space(
    dist: (Geo, Geo) -> real,
    onEdge: (Geo, Geo, Geo) -> bool,
    foot: (Geo, Geo, Geo) -> Geo,
    crossing: (Geo, Geo, Geo, Geo) -> Option<Geo>,
    feet: (Geo, Geo, Geo, Geo) -> (Geo, Geo))

  /** What a search works on. */
  datatype Scene = Scene(space: Space, t1: Tree, t2: Tree)

  /** The edge routines do what they are for: an edge has its ends, and nothing else if these
      are equal; the closest point of an edge is one of its nearest; edges cross at a common
      point, exactly when there is one, and otherwise their closest points are nearest. */
  ghost predicate ValidSpace(sp: Space) {
    && IsMetric(sp.dist)
    && (forall p, q :: sp.onEdge(p, q, p) && sp.onEdge(p, q, q))
    && (forall p, g :: sp.onEdge(p, p, g) ==> g == p)
    && (forall p, q, c :: sp.onEdge(p, q, sp.foot(p, q, c)))
    && (forall p, q, c, g :: sp.onEdge(p, q, g) ==> sp.dist(c, sp.foot(p, q, c)) <= sp.dist(c, g))
    && (forall a, b, c, d :: CrossesRight(sp, a, b, c, d))
  }

  ghost predicate CrossesRight(sp: Space, a: Geo, b: Geo, c: Geo, d: Geo) {
    match sp.crossing(a, b, c, d)
    case Some(g) => sp.onEdge(a, b, g) && sp.onEdge(c, d, g)
    case None =>
      var close := sp.feet(a, b, c, d);
      && sp.onEdge(a, b, close.0) && sp.onEdge(c, d, close.1)
      && forall g, h :: sp.onEdge(a, b, g) && sp.onEdge(c, d, h) ==>
                          g != h && sp.dist(close.0, close.1) <= sp.dist(g, h)
  }

  /** The closest points of two leaves. */
  function LeafPoints(sp: Space, a: Node, b: Node): (Geo, Geo) {
    if a.p1 == a.p2 || b.p1 == b.p2 then
      if a.p1 == a.p2 && b.p1 == b.p2 then (a.p1, b.p1)
      else if a.p1 == a.p2 then (a.p1, sp.foot(b.p1, b.p2, a.p1))
      else (sp.foot(a.p1, a.p2, b.p1), b.p1)
    else
      match sp.crossing(a.p1, a.p2, b.p1, b.p2)
      case Some(g) => (g, g)
      case None => sp.feet(a.p1, a.p2, b.p1, b.p2)
  }

  function LeafDistance(sp: Space, a: Node, b: Node): real {
    var close := LeafPoints(sp, a, b);
    sp.dist(close.0, close.1)
  }

  predicate Holds(sp: Space, n: Node, g: Geo) {
    sp.dist(n.center, g) <= n.radius
  }

  /** The disc of a leaf holds its edge. */
  ghost predicate LeafInDisc(sp: Space, n: Node) {
    forall g :: sp.onEdge(n.p1, n.p2, g) ==> Holds(sp, n, g)
  }

  /** The points chosen lie on the two edges, and no others are nearer. */
  lemma LeafPointsAreNearest(sp: Space, a: Node, b: Node)
    requires ValidSpace(sp)
    ensures var close := LeafPoints(sp, a, b);
      && sp.onEdge(a.p1, a.p2, close.0) && sp.onEdge(b.p1, b.p2, close.1)
      && forall g, h :: sp.onEdge(a.p1, a.p2, g) && sp.onEdge(b.p1, b.p2, h) ==> LeafDistance(sp, a, b) <= sp.dist(g, h)
  {
    var close := LeafPoints(sp, a, b);
    assert CrossesRight(sp, a.p1, a.p2, b.p1, b.p2);
    forall g, h | sp.onEdge(a.p1, a.p2, g) && sp.onEdge(b.p1, b.p2, h)
      ensures LeafDistance(sp, a, b) <= sp.dist(g, h)
    {
      Triangle(sp.dist, g, h, h);
      Triangle(sp.dist, close.0, close.0, close.1);
      if b.p1 == b.p2 && a.p1 != a.p2 {
        Triangle(sp.dist, close.0, b.p1, b.p1);
      }
    }
  }

  predicate WellShaped(t: Tree) {
    && |t.nodes| == |t.kids|
    && forall k, i :: 0 <= k < |t.kids| && 0 <= i < |t.kids[k]| ==> t.kids[k][i] < k
  }

  predicate IsLeaf(t: Tree, k: nat)
    requires k < |t.kids|
  {
    t.kids[k] == []
  }

  /** A parent's disc covers its child's. */
  predicate Nested(sp: Space, parent: Node, child: Node) {
    Covers(sp.dist, Disc(parent.center, parent.radius), Disc(child.center, child.radius))
  }

  /** Discs cover what is below them, no leaf is a collection, and what a polygon contains
      lies in its disc. */
  ghost predicate Covering(sp: Space, t: Tree) {
    && WellShaped(t)
    && (forall k :: 0 <= k < |t.nodes| ==> t.nodes[k].radius >= 0.0)
    && (forall k, i :: 0 <= k < |t.nodes| && 0 <= i < |t.kids[k]| ==> Nested(sp, t.nodes[k], t.nodes[t.kids[k][i]]))
    && (forall k :: 0 <= k < |t.nodes| && IsLeaf(t, k) ==>
          LeafInDisc(sp, t.nodes[k]) && !IsCollection(t.nodes[k].geomType))
    && (forall k, g :: 0 <= k < |t.nodes| && t.nodes[k].geomType == POLYGONTYPE && t.contains(k, g) ==>
          Holds(sp, t.nodes[k], g))
  }

  function MinDistance(sp: Space, a: Node, b: Node): real {
    var d := sp.dist(a.center, b.center);
    if d < a.radius + b.radius then 0.0 else d - a.radius - b.radius
  }

  function MaxDistance(sp: Space, a: Node, b: Node): real {
    sp.dist(a.center, b.center) + a.radius + b.radius
  }

  // ----- pairs of nodes

  ghost predicate Ready(w: Scene) {
    ValidSpace(w.space) && Covering(w.space, w.t1) && Covering(w.space, w.t2)
  }

  predicate InRange(w: Scene, n1: nat, n2: nat) {
    WellShaped(w.t1) && WellShaped(w.t2) && n1 < |w.t1.nodes| && n2 < |w.t2.nodes|
  }

  datatype Step = Compare | First | Second

  /** Which node of a pair gives way to its children. */
  function NextStep(type1: nat, leaf1: bool, type2: nat, leaf2: bool): Step {
    if leaf1 && leaf2 then Compare
    else if IsCollection(type1) then First
    else if IsCollection(type2) then Second
    else if !leaf1 then First
    else Second
  }

  function StepAt(w: Scene, n1: nat, n2: nat): Step
    requires InRange(w, n1, n2)
  {
    NextStep(w.t1.nodes[n1].geomType, IsLeaf(w.t1, n1), w.t2.nodes[n2].geomType, IsLeaf(w.t2, n2))
  }

  /** Some leaf below `k` starts at `v`. */
  ghost predicate VertexOf(t: Tree, k: nat, v: Geo)
    requires WellShaped(t) && k < |t.nodes|
    decreases k
  {
    if IsLeaf(t, k) then v == t.nodes[k].p1 else exists i :: 0 <= i < |t.kids[k]| && VertexOf(t, t.kids[k][i], v)
  }

  /** A polygon on one side, a single geometry on the other. */
  predicate Eligible(polygon: Node, other: Node) {
    polygon.geomType == POLYGONTYPE && other.geomType != 0 && !IsCollection(other.geomType)
  }

  /** Testing whether the polygon of one node contains the vertex `v` of the other finds it does. */
  ghost predicate HitBy(w: Scene, n1: nat, n2: nat, v: Geo)
    requires InRange(w, n1, n2)
  {
    || (Eligible(w.t1.nodes[n1], w.t2.nodes[n2]) && VertexOf(w.t2, n2, v) && w.t1.contains(n1, v))
    || (Eligible(w.t2.nodes[n2], w.t1.nodes[n1]) && VertexOf(w.t1, n1, v) && w.t2.contains(n2, v))
  }

  /** Whichever vertex is tested, one of the two tests succeeds. */
  ghost predicate MustHit(w: Scene, n1: nat, n2: nat)
    requires InRange(w, n1, n2)
  {
    || (Eligible(w.t1.nodes[n1], w.t2.nodes[n2]) && forall v :: VertexOf(w.t2, n2, v) ==> w.t1.contains(n1, v))
    || (Eligible(w.t2.nodes[n2], w.t1.nodes[n1]) && forall v :: VertexOf(w.t1, n1, v) ==> w.t2.contains(n2, v))
  }

  /** The points `p` and `q` are the closest points of some pair of leaves below, or one
      vertex that a polygon contains. */
  ghost predicate Attained(w: Scene, n1: nat, n2: nat, p: Geo, q: Geo)
    requires InRange(w, n1, n2)
    decreases n1 + n2
  {
    || (p == q && HitBy(w, n1, n2, p))
    || match StepAt(w, n1, n2)
       case Compare => LeafPoints(w.space, w.t1.nodes[n1], w.t2.nodes[n2]) == (p, q)
       case First => exists i :: 0 <= i < |w.t1.kids[n1]| && Attained(w, w.t1.kids[n1][i], n2, p, q)
       case Second => exists i :: 0 <= i < |w.t2.kids[n2]| && Attained(w, n1, w.t2.kids[n2][i], p, q)
  }

  /** The least distance that an exhaustive descent is sure to find. */
  ghost function Least(w: Scene, n1: nat, n2: nat): real
    requires InRange(w, n1, n2)
    decreases n1 + n2, |w.t1.kids[n1]| + |w.t2.kids[n2]| + 1
  {
    if MustHit(w, n1, n2) then 0.0
    else
      match StepAt(w, n1, n2)
      case Compare => LeafDistance(w.space, w.t1.nodes[n1], w.t2.nodes[n2])
      case First => LeastFirst(w, n1, n2, |w.t1.kids[n1]|)
      case Second => LeastSecond(w, n1, n2, |w.t2.kids[n2]|)
  }

  /** The least over the first `i` children of the first node. */
  ghost function LeastFirst(w: Scene, n1: nat, n2: nat, i: nat): real
    requires InRange(w, n1, n2) && i <= |w.t1.kids[n1]|
    decreases n1 + n2, i
  {
    if i == 0 then FLT_MAX else Min(LeastFirst(w, n1, n2, i - 1), Least(w, w.t1.kids[n1][i - 1], n2))
  }

  ghost function LeastSecond(w: Scene, n1: nat, n2: nat, i: nat): real
    requires InRange(w, n1, n2) && i <= |w.t2.kids[n2]|
    decreases n1 + n2, i
  {
    if i == 0 then FLT_MAX else Min(LeastSecond(w, n1, n2, i - 1), Least(w, n1, w.t2.kids[n2][i - 1]))
  }

  // ----- distances

  /** Children are no nearer than their parents, on either side. */
  lemma ChildDistances(sp: Space, parent: Node, child: Node, other: Node)
    requires IsMetric(sp.dist) && Nested(sp, parent, child)
    ensures MinDistance(sp, parent, other) <= MinDistance(sp, child, other)
    ensures MaxDistance(sp, child, other) <= MaxDistance(sp, parent, other)
    ensures MinDistance(sp, other, parent) <= MinDistance(sp, other, child)
    ensures MaxDistance(sp, other, child) <= MaxDistance(sp, other, parent)
  {
    var p, c, o := parent.center, child.center, other.center;
    Triangle(sp.dist, p, c, o);
    Triangle(sp.dist, c, p, o);
    Triangle(sp.dist, o, p, c);
    Triangle(sp.dist, o, c, p);
  }

  /** Points of two discs are no nearer than the discs and no further than they reach. */
  lemma PointsBetween(sp: Space, a: Node, b: Node, p: Geo, q: Geo)
    requires IsMetric(sp.dist) && Holds(sp, a, p) && Holds(sp, b, q)
    ensures MinDistance(sp, a, b) <= sp.dist(p, q) <= MaxDistance(sp, a, b)
  {
    var c, d := a.center, b.center;
    Triangle(sp.dist, c, p, d);
    Triangle(sp.dist, p, q, d);
    Triangle(sp.dist, p, c, q);
    Triangle(sp.dist, c, d, q);
    Triangle(sp.dist, d, q, p);
  }

  function OnLine(a: Geo, b: Geo): real {
    if a.lon < b.lon then b.lon - a.lon else a.lon - b.lon
  }

  /** No better bounds hold of discs in general: along a line both are reached. */
  lemma BoundsAreReached(sp: Space, a: Node, b: Node) returns (p: Geo, q: Geo, p': Geo, q': Geo)
    requires a.radius >= 0.0 && b.radius >= 0.0 && forall g, h :: sp.dist(g, h) == OnLine(g, h)
    ensures Holds(sp, a, p) && Holds(sp, b, q) && sp.dist(p, q) == MinDistance(sp, a, b)
    ensures Holds(sp, a, p') && Holds(sp, b, q') && sp.dist(p', q') == MaxDistance(sp, a, b)
  {
    var c, d := a.center.lon, b.center.lon;
    var apart := sp.dist(a.center, b.center);
    var toB, toA := if c < d then 1.0 else -1.0, if c < d then -1.0 else 1.0;
    p' := Geo(c + toA * a.radius, 0.0);
    q' := Geo(d + toB * b.radius, 0.0);
    p := Geo(c + toB * Min(a.radius, apart), 0.0);
    q := if apart < a.radius + b.radius then p else Geo(d + toA * b.radius, 0.0);
  }

  lemma HeldByParent(sp: Space, parent: Node, child: Node, g: Geo)
    requires IsMetric(sp.dist) && Nested(sp, parent, child) && Holds(sp, child, g)
    ensures Holds(sp, parent, g)
  {
    Triangle(sp.dist, parent.center, child.center, g);
  }

  lemma ChildIsNested(sp: Space, t: Tree, k: nat, i: nat)
    requires Covering(sp, t) && k < |t.nodes| && i < |t.kids[k]|
    ensures t.kids[k][i] < k && Nested(sp, t.nodes[k], t.nodes[t.kids[k][i]])
  {
  }

  lemma LeafIsInDisc(sp: Space, t: Tree, k: nat)
    requires Covering(sp, t) && k < |t.nodes| && IsLeaf(t, k)
    ensures LeafInDisc(sp, t.nodes[k]) && !IsCollection(t.nodes[k].geomType)
  {
  }

  lemma {:induction false} VertexInDisc(sp: Space, t: Tree, k: nat, v: Geo)
    requires ValidSpace(sp) && WellShaped(t) && Covering(sp, t) && k < |t.nodes| && VertexOf(t, k, v)
    ensures Holds(sp, t.nodes[k], v)
    decreases k
  {
    assert IsMetric(sp.dist);
    hide ValidSpace, IsMetric, Covering, Holds, Nested, LeafInDisc;
    if IsLeaf(t, k) {
      LeafIsInDisc(sp, t, k);
      LeafEnd(sp, t.nodes[k]);
    } else {
      var i :| 0 <= i < |t.kids[k]| && VertexOf(t, t.kids[k][i], v);
      VertexInDisc(sp, t, t.kids[k][i], v);
      ChildIsNested(sp, t, k, i);
      HeldByParent(sp, t.nodes[k], t.nodes[t.kids[k][i]], v);
    }
  }

  lemma LeafEnd(sp: Space, n: Node)
    requires ValidSpace(sp) && LeafInDisc(sp, n)
    ensures Holds(sp, n, n.p1)
  {
  }

  lemma {:induction false} HasVertex(t: Tree, k: nat) returns (v: Geo)
    requires WellShaped(t) && k < |t.nodes|
    ensures VertexOf(t, k, v)
    decreases k
  {
    if IsLeaf(t, k) {
      v := t.nodes[k].p1;
    } else {
      v := HasVertex(t, t.kids[k][0]);
    }
  }

  /** A contained vertex lies in both discs. */
  lemma HitMeansNear(w: Scene, n1: nat, n2: nat, v: Geo)
    requires Ready(w) && InRange(w, n1, n2) && HitBy(w, n1, n2, v)
    ensures MinDistance(w.space, w.t1.nodes[n1], w.t2.nodes[n2]) <= 0.0
  {
    var sp := w.space;
    hide VertexOf, LeafInDisc, MinDistance;
    if VertexOf(w.t2, n2, v) && w.t1.contains(n1, v) && Eligible(w.t1.nodes[n1], w.t2.nodes[n2]) {
      VertexInDisc(sp, w.t2, n2, v);
    } else {
      VertexInDisc(sp, w.t1, n1, v);
    }
    PointsBetween(sp, w.t1.nodes[n1], w.t2.nodes[n2], v, v);
  }

  lemma LeafPointsBetween(w: Scene, n1: nat, n2: nat)
    requires Ready(w) && InRange(w, n1, n2) && IsLeaf(w.t1, n1) && IsLeaf(w.t2, n2)
    ensures var a, b := w.t1.nodes[n1], w.t2.nodes[n2];
      && MinDistance(w.space, a, b) <= LeafDistance(w.space, a, b) <= MaxDistance(w.space, a, b)
      && 0.0 <= LeafDistance(w.space, a, b) < FLT_MAX
  {
    assert IsMetric(w.space.dist);
    hide ValidSpace, IsMetric, Covering, MinDistance, MaxDistance, LeafPoints;
    var a, b := w.t1.nodes[n1], w.t2.nodes[n2];
    var close := LeafPoints(w.space, a, b);
    LeafPointsAreNearest(w.space, a, b);
    LeafIsInDisc(w.space, w.t1, n1);
    LeafIsInDisc(w.space, w.t2, n2);
    PointsBetween(w.space, a, b, close.0, close.1);
    Triangle(w.space.dist, close.0, close.1, close.1);
  }

  // ----- bounds on what a descent finds

  ghost predicate Bounded(w: Scene, n1: nat, n2: nat, d: real)
    requires InRange(w, n1, n2)
  {
    && MinDistance(w.space, w.t1.nodes[n1], w.t2.nodes[n2]) <= d <= MaxDistance(w.space, w.t1.nodes[n1], w.t2.nodes[n2])
    && 0.0 <= d < FLT_MAX
  }

  /** A bound of a child pair is one of the parent pair. */
  lemma BoundedAbove(w: Scene, n1: nat, n2: nat, i: nat, d: real)
    requires Ready(w) && InRange(w, n1, n2)
    ensures i < |w.t1.kids[n1]| && Bounded(w, w.t1.kids[n1][i], n2, d) ==> Bounded(w, n1, n2, d)
    ensures i < |w.t2.kids[n2]| && Bounded(w, n1, w.t2.kids[n2][i], d) ==> Bounded(w, n1, n2, d)
  {
    hide IsMetric, Covering, MinDistance, MaxDistance;
    if i < |w.t1.kids[n1]| {
      ChildIsNested(w.space, w.t1, n1, i);
      ChildDistances(w.space, w.t1.nodes[n1], w.t1.nodes[w.t1.kids[n1][i]], w.t2.nodes[n2]);
    }
    if i < |w.t2.kids[n2]| {
      ChildIsNested(w.space, w.t2, n2, i);
      ChildDistances(w.space, w.t2.nodes[n2], w.t2.nodes[w.t2.kids[n2][i]], w.t1.nodes[n1]);
    }
  }

  lemma ZeroIsBounded(w: Scene, n1: nat, n2: nat)
    requires Ready(w) && InRange(w, n1, n2) && MustHit(w, n1, n2)
    ensures Bounded(w, n1, n2, 0.0)
  {
    hide VertexOf, LeafInDisc, Covering;
    var v1 := HasVertex(w.t1, n1);
    var v2 := HasVertex(w.t2, n2);
    var v := if HitBy(w, n1, n2, v2) then v2 else v1;
    HitMeansNear(w, n1, n2, v);
    NonNegative(w, n1, n2);
  }

  lemma NonNegative(w: Scene, n1: nat, n2: nat)
    requires Ready(w) && InRange(w, n1, n2)
    ensures MaxDistance(w.space, w.t1.nodes[n1], w.t2.nodes[n2]) >= 0.0
  {
  }

  /** A collection that gives way has children. */
  lemma StepHasChildren(w: Scene, n1: nat, n2: nat)
    requires Ready(w) && InRange(w, n1, n2)
    ensures StepAt(w, n1, n2) == Compare ==> IsLeaf(w.t1, n1) && IsLeaf(w.t2, n2)
    ensures StepAt(w, n1, n2) == First ==> !IsLeaf(w.t1, n1)
    ensures StepAt(w, n1, n2) == Second ==> !IsLeaf(w.t2, n2)
  {
    hide LeafInDisc, IsCollection;
    if IsLeaf(w.t1, n1) {
      LeafIsInDisc(w.space, w.t1, n1);
    }
    if IsLeaf(w.t2, n2) {
      LeafIsInDisc(w.space, w.t2, n2);
    }
  }

  /** The least distance lies between those of the two discs. */
  lemma {:induction false} LeastIsBounded(w: Scene, n1: nat, n2: nat)
    requires Ready(w) && InRange(w, n1, n2)
    ensures Bounded(w, n1, n2, Least(w, n1, n2))
    decreases n1 + n2, |w.t1.kids[n1]| + |w.t2.kids[n2]| + 1
  {
    hide IsMetric, Covering, Bounded, LeafDistance, MustHit;
    StepHasChildren(w, n1, n2);
    if MustHit(w, n1, n2) {
      ZeroIsBounded(w, n1, n2);
    } else if StepAt(w, n1, n2) == Compare {
      LeafPointsBetween(w, n1, n2);
      LeafIsBounded(w, n1, n2);
    } else if StepAt(w, n1, n2) == First {
      LeastFirstIsBounded(w, n1, n2, |w.t1.kids[n1]|);
    } else {
      LeastSecondIsBounded(w, n1, n2, |w.t2.kids[n2]|);
    }
  }

  lemma LeafIsBounded(w: Scene, n1: nat, n2: nat)
    requires Ready(w) && InRange(w, n1, n2) && IsLeaf(w.t1, n1) && IsLeaf(w.t2, n2)
    ensures Bounded(w, n1, n2, LeafDistance(w.space, w.t1.nodes[n1], w.t2.nodes[n2]))
  {
    LeafPointsBetween(w, n1, n2);
  }

  lemma BoundedIsSmall(w: Scene, n1: nat, n2: nat, d: real)
    requires InRange(w, n1, n2) && Bounded(w, n1, n2, d)
    ensures 0.0 <= d < FLT_MAX
  {
  }

  lemma {:induction false} LeastFirstIsBounded(w: Scene, n1: nat, n2: nat, i: nat)
    requires Ready(w) && InRange(w, n1, n2) && 0 < i <= |w.t1.kids[n1]|
    ensures Bounded(w, n1, n2, LeastFirst(w, n1, n2, i))
    decreases n1 + n2, i
  {
    hide Ready, Bounded, Least;
    var child := w.t1.kids[n1][i - 1];
    LeastIsBounded(w, child, n2);
    BoundedAbove(w, n1, n2, i - 1, Least(w, child, n2));
    BoundedIsSmall(w, child, n2, Least(w, child, n2));
    if i > 1 {
      LeastFirstIsBounded(w, n1, n2, i - 1);
    } else {
      assert LeastFirst(w, n1, n2, 0) == FLT_MAX;
    }
  }

  lemma {:induction false} LeastSecondIsBounded(w: Scene, n1: nat, n2: nat, i: nat)
    requires Ready(w) && InRange(w, n1, n2) && 0 < i <= |w.t2.kids[n2]|
    ensures Bounded(w, n1, n2, LeastSecond(w, n1, n2, i))
    decreases n1 + n2, i
  {
    hide Ready, Bounded, Least;
    var child := w.t2.kids[n2][i - 1];
    LeastIsBounded(w, n1, child);
    BoundedAbove(w, n1, n2, i - 1, Least(w, n1, child));
    BoundedIsSmall(w, n1, child, Least(w, n1, child));
    if i > 1 {
      LeastSecondIsBounded(w, n1, n2, i - 1);
    } else {
      assert LeastSecond(w, n1, n2, 0) == FLT_MAX;
    }
  }

  /** The least over children is the least of one of them, and of none is smaller. */
  lemma {:induction false} LeastFirstIsMinimum(w: Scene, n1: nat, n2: nat, i: nat)
    requires InRange(w, n1, n2) && i <= |w.t1.kids[n1]|
    ensures forall j :: 0 <= j < i ==> LeastFirst(w, n1, n2, i) <= Least(w, w.t1.kids[n1][j], n2)
    ensures LeastFirst(w, n1, n2, i) < FLT_MAX ==>
              exists j :: 0 <= j < i && LeastFirst(w, n1, n2, i) == Least(w, w.t1.kids[n1][j], n2)
    decreases i
  {
    hide Least;
    if i > 0 {
      LeastFirstIsMinimum(w, n1, n2, i - 1);
    }
  }

  lemma {:induction false} LeastSecondIsMinimum(w: Scene, n1: nat, n2: nat, i: nat)
    requires InRange(w, n1, n2) && i <= |w.t2.kids[n2]|
    ensures forall j :: 0 <= j < i ==> LeastSecond(w, n1, n2, i) <= Least(w, n1, w.t2.kids[n2][j])
    ensures LeastSecond(w, n1, n2, i) < FLT_MAX ==>
              exists j :: 0 <= j < i && LeastSecond(w, n1, n2, i) == Least(w, n1, w.t2.kids[n2][j])
    decreases i
  {
    hide Least;
    if i > 0 {
      LeastSecondIsMinimum(w, n1, n2, i - 1);
    }
  }

  // ----- leaves

  /** Leaf `l` is `k` or lies below it. */
  ghost predicate LeafBelow(t: Tree, k: nat, l: nat)
    requires WellShaped(t) && k < |t.nodes|
    decreases k
  {
    if IsLeaf(t, k) then l == k
    else exists i :: 0 <= i < |t.kids[k]| && LeafBelow(t, t.kids[k][i], l)
  }

  lemma {:induction false} LeafBelowIsLeaf(t: Tree, k: nat, l: nat)
    requires WellShaped(t) && k < |t.nodes| && LeafBelow(t, k, l)
    ensures l <= k && IsLeaf(t, l)
    decreases k
  {
    if !IsLeaf(t, k) {
      var i :| 0 <= i < |t.kids[k]| && LeafBelow(t, t.kids[k][i], l);
      LeafBelowIsLeaf(t, t.kids[k][i], l);
    }
  }

  /** No pair of leaves is nearer than the least distance. */
  lemma {:induction false} LeastIsBelowLeaves(w: Scene, n1: nat, n2: nat, a: nat, b: nat)
    requires Ready(w) && InRange(w, n1, n2) && LeafBelow(w.t1, n1, a) && LeafBelow(w.t2, n2, b)
    ensures a <= n1 && b <= n2 && Least(w, n1, n2) <= LeafDistance(w.space, w.t1.nodes[a], w.t2.nodes[b])
    decreases n1 + n2
  {
    hide Ready, LeafDistance, MustHit, LeastFirst, LeastSecond;
    LeafBelowIsLeaf(w.t1, n1, a);
    LeafBelowIsLeaf(w.t2, n2, b);
    StepHasChildren(w, n1, n2);
    if MustHit(w, n1, n2) {
      LeafPointsBetween(w, a, b);
    } else if StepAt(w, n1, n2) == First {
      var i :| 0 <= i < |w.t1.kids[n1]| && LeafBelow(w.t1, w.t1.kids[n1][i], a);
      LeastIsBelowLeaves(w, w.t1.kids[n1][i], n2, a, b);
      LeastFirstIsMinimum(w, n1, n2, |w.t1.kids[n1]|);
    } else if StepAt(w, n1, n2) == Second {
      var i :| 0 <= i < |w.t2.kids[n2]| && LeafBelow(w.t2, w.t2.kids[n2][i], b);
      LeastIsBelowLeaves(w, n1, w.t2.kids[n2][i], a, b);
      LeastSecondIsMinimum(w, n1, n2, |w.t2.kids[n2]|);
    }
  }

  /** What a descent finds is the distance of a pair of leaves, or zero at a vertex that a
      polygon contains. */
  lemma {:induction false} AttainedIsReal(w: Scene, n1: nat, n2: nat, p: Geo, q: Geo)
    requires InRange(w, n1, n2) && Attained(w, n1, n2, p, q)
    ensures || (p == q && exists k1: nat, k2: nat :: k1 <= n1 && k2 <= n2 && InRange(w, k1, k2) && HitBy(w, k1, k2, p))
            || exists a: nat, b: nat :: LeafBelow(w.t1, n1, a) && LeafBelow(w.t2, n2, b) && a <= n1 && b <= n2
                              && (p, q) == LeafPoints(w.space, w.t1.nodes[a], w.t2.nodes[b])
    decreases n1 + n2
  {
    hide HitBy, LeafPoints;
    if p == q && HitBy(w, n1, n2, p) {
    } else if StepAt(w, n1, n2) == Compare {
      assert LeafBelow(w.t1, n1, n1) && LeafBelow(w.t2, n2, n2);
    } else if StepAt(w, n1, n2) == First {
      var i :| 0 <= i < |w.t1.kids[n1]| && Attained(w, w.t1.kids[n1][i], n2, p, q);
      AttainedIsReal(w, w.t1.kids[n1][i], n2, p, q);
    } else {
      var i :| 0 <= i < |w.t2.kids[n2]| && Attained(w, n1, w.t2.kids[n2][i], p, q);
      AttainedIsReal(w, n1, w.t2.kids[n2][i], p, q);
    }
  }

  // ----- the least distance as a brute-force minimum

  /** The least distance is the distance of points that a descent can find. */
  lemma {:induction false} LeastIsAttained(w: Scene, n1: nat, n2: nat) returns (p: Geo, q: Geo)
    requires Ready(w) && InRange(w, n1, n2)
    ensures Attained(w, n1, n2, p, q) && w.space.dist(p, q) == Least(w, n1, n2)
    decreases n1 + n2
  {
    hide IsMetric, Covering, LeafPoints, VertexOf, LeastFirst, LeastSecond;
    LeastIsBounded(w, n1, n2);
    BoundedIsSmall(w, n1, n2, Least(w, n1, n2));
    if MustHit(w, n1, n2) {
      var v1 := HasVertex(w.t1, n1);
      var v2 := HasVertex(w.t2, n2);
      p := if HitBy(w, n1, n2, v2) then v2 else v1;
      q := p;
      Triangle(w.space.dist, p, p, p);
    } else if StepAt(w, n1, n2) == Compare {
      var close := LeafPoints(w.space, w.t1.nodes[n1], w.t2.nodes[n2]);
      p, q := close.0, close.1;
    } else if StepAt(w, n1, n2) == First {
      LeastFirstIsMinimum(w, n1, n2, |w.t1.kids[n1]|);
      var j :| 0 <= j < |w.t1.kids[n1]| && Least(w, n1, n2) == Least(w, w.t1.kids[n1][j], n2);
      p, q := LeastIsAttained(w, w.t1.kids[n1][j], n2);
    } else {
      LeastSecondIsMinimum(w, n1, n2, |w.t2.kids[n2]|);
      var j :| 0 <= j < |w.t2.kids[n2]| && Least(w, n1, n2) == Least(w, n1, w.t2.kids[n2][j]);
      p, q := LeastIsAttained(w, n1, w.t2.kids[n2][j]);
    }
  }

  /** The outcome of a polygon test does not depend on the vertex that is tested. */
  ghost predicate Decisive(w: Scene)
    requires WellShaped(w.t1) && WellShaped(w.t2)
  {
    forall k1: nat, k2: nat, v :: InRange(w, k1, k2) && HitBy(w, k1, k2, v) ==> MustHit(w, k1, k2)
  }

  /** When polygon tests are decisive nothing is nearer than the least distance, so that it is
      the brute-force minimum. */
  lemma {:induction false} NothingIsNearer(w: Scene, n1: nat, n2: nat, p: Geo, q: Geo)
    requires Ready(w) && InRange(w, n1, n2) && Decisive(w) && Attained(w, n1, n2, p, q)
    ensures Least(w, n1, n2) <= w.space.dist(p, q)
    decreases n1 + n2
  {
    hide IsMetric, Covering, LeafPoints, HitBy, MustHit, LeastFirst, LeastSecond;
    Triangle(w.space.dist, p, q, q);
    if MustHit(w, n1, n2) {
    } else if StepAt(w, n1, n2) == Compare {
    } else if StepAt(w, n1, n2) == First {
      var i :| 0 <= i < |w.t1.kids[n1]| && Attained(w, w.t1.kids[n1][i], n2, p, q);
      NothingIsNearer(w, w.t1.kids[n1][i], n2, p, q);
      LeastFirstIsMinimum(w, n1, n2, |w.t1.kids[n1]|);
    } else {
      var i :| 0 <= i < |w.t2.kids[n2]| && Attained(w, n1, w.t2.kids[n2][i], p, q);
      NothingIsNearer(w, n1, w.t2.kids[n2][i], p, q);
      LeastSecondIsMinimum(w, n1, n2, |w.t2.kids[n2]|);
    }
  }

  /** What a search that ends with `p` and `q` has found: a distance below the threshold, or one
      that no pair of leaves is below; and when polygon tests are decisive, the least there is. */
  lemma FoundIsMinimum(w: Scene, n1: nat, n2: nat, p: Geo, q: Geo, threshold: real)
    requires Ready(w) && InRange(w, n1, n2) && Attained(w, n1, n2, p, q)
    requires w.space.dist(p, q) < threshold || w.space.dist(p, q) <= Least(w, n1, n2)
    ensures || w.space.dist(p, q) < threshold
            || forall a: nat, b: nat :: LeafBelow(w.t1, n1, a) && LeafBelow(w.t2, n2, b) && a <= n1 && b <= n2 ==>
                 w.space.dist(p, q) <= LeafDistance(w.space, w.t1.nodes[a], w.t2.nodes[b])
    ensures Decisive(w) ==> w.space.dist(p, q) < threshold || w.space.dist(p, q) == Least(w, n1, n2)
  {
    hide Ready, Attained, Least, Decisive, LeafDistance;
    if w.space.dist(p, q) >= threshold {
      forall a: nat, b: nat | LeafBelow(w.t1, n1, a) && LeafBelow(w.t2, n2, b) && a <= n1 && b <= n2
        ensures w.space.dist(p, q) <= LeafDistance(w.space, w.t1.nodes[a], w.t2.nodes[b])
      {
        LeastIsBelowLeaves(w, n1, n2, a, b);
      }
    }
    if Decisive(w) {
      NothingIsNearer(w, n1, n2, p, q);
    }
  }

  // ----- leaves that carry a collection type

  /** A leaf of the first tree that carries a collection type hides everything from the search,
      unless the other node is a leaf too: it gives way to children it does not have. */
  lemma CollectionLeafFirst(w: Scene, n1: nat, n2: nat)
    requires InRange(w, n1, n2) && IsLeaf(w.t1, n1) && IsCollection(w.t1.nodes[n1].geomType)
    ensures (exists p, q :: Attained(w, n1, n2, p, q)) <==> IsLeaf(w.t2, n2)
    ensures Least(w, n1, n2) ==
            if IsLeaf(w.t2, n2) then LeafDistance(w.space, w.t1.nodes[n1], w.t2.nodes[n2]) else FLT_MAX
  {
    hide LeafPoints;
    assert LeastFirst(w, n1, n2, 0) == FLT_MAX;
    if IsLeaf(w.t2, n2) {
      var close := LeafPoints(w.space, w.t1.nodes[n1], w.t2.nodes[n2]);
      assert Attained(w, n1, n2, close.0, close.1);
    }
  }

  /** A leaf can be reached from `k` through collections alone. */
  ghost predicate Reaches(t: Tree, k: nat)
    requires WellShaped(t) && k < |t.nodes|
    decreases k
  {
    || IsLeaf(t, k)
    || (IsCollection(t.nodes[k].geomType) && exists i :: 0 <= i < |t.kids[k]| && Reaches(t, t.kids[k][i]))
  }

  /** A leaf of the second tree that carries a collection type is found exactly from nodes that
      reach a leaf through collections: any other node makes it give way to children it does
      not have. */
  lemma {:induction false} CollectionLeafSecond(w: Scene, n1: nat, n2: nat)
    requires InRange(w, n1, n2) && IsLeaf(w.t2, n2) && IsCollection(w.t2.nodes[n2].geomType)
    ensures (exists p, q :: Attained(w, n1, n2, p, q)) <==> Reaches(w.t1, n1)
    decreases n1
  {
    hide LeafPoints;
    if IsLeaf(w.t1, n1) {
      var close := LeafPoints(w.space, w.t1.nodes[n1], w.t2.nodes[n2]);
      assert Attained(w, n1, n2, close.0, close.1);
    } else if IsCollection(w.t1.nodes[n1].geomType) {
      forall i | 0 <= i < |w.t1.kids[n1]|
        ensures (exists p, q :: Attained(w, w.t1.kids[n1][i], n2, p, q)) <==> Reaches(w.t1, w.t1.kids[n1][i])
      {
        CollectionLeafSecond(w, w.t1.kids[n1][i], n2);
      }
      if i :| 0 <= i < |w.t1.kids[n1]| && Reaches(w.t1, w.t1.kids[n1][i]) {
        var p, q :| Attained(w, w.t1.kids[n1][i], n2, p, q);
        assert Attained(w, n1, n2, p, q);
      }
    }
  }

  /** A line of two edges: two untyped leaves below a node of the line. */
  function TwoEdges(a: Node, b: Node, top: Node): Tree {
    Tree([a, b, top.(geomType := LINETYPE)], [[], [], [0, 1]], (_, _) => false)
  }

  /** A collection with one point that is not empty: merging one node makes no parent, and the
      node itself is given the type of the collection. */
  function RetypedPoint(g: Geo): Tree {
    Tree([Node(g, 0.0, COLLECTIONTYPE, g, g)], [[]], (_, _) => false)
  }

  /** Against a line of two edges, either way round, such a collection is never found. */
  lemma RetypedPointIsHidden(sp: Space, a: Node, b: Node, top: Node, g: Geo, p: Geo, q: Geo)
    ensures var w := Scene(sp, RetypedPoint(g), TwoEdges(a, b, top)); InRange(w, 0, 2) && !Attained(w, 0, 2, p, q)
    ensures var w := Scene(sp, TwoEdges(a, b, top), RetypedPoint(g)); InRange(w, 2, 0) && !Attained(w, 2, 0, p, q)
  {
    CollectionLeafFirst(Scene(sp, RetypedPoint(g), TwoEdges(a, b, top)), 0, 2);
    CollectionLeafSecond(Scene(sp, TwoEdges(a, b, top), RetypedPoint(g)), 2, 0);
  }
}
