/** The shapes that two disc trees stand for, and the least distance between them. */
module CircShapes {
  import opened Common
  import opened CircDiscs
  import opened CircTree

  /** The point lies on an edge below the node. */
  ghost predicate OnEdges(sp: Space, t: Tree, k: nat, g: Geo)
    requires WellShaped(t) && k < |t.nodes|
    decreases k
  {
    if IsLeaf(t, k) then sp.onEdge(t.nodes[k].p1, t.nodes[k].p2, g)
    else exists i :: 0 <= i < |t.kids[k]| && OnEdges(sp, t, t.kids[k][i], g)
  }

  /** The point belongs to the geometry of the node: to a member of a collection, to the inside
      of a polygon, or to an edge. */
  ghost predicate OnShape(sp: Space, t: Tree, k: nat, g: Geo)
    requires WellShaped(t) && k < |t.nodes|
    decreases k
  {
    if IsCollection(t.nodes[k].geomType) then exists i :: 0 <= i < |t.kids[k]| && OnShape(sp, t, t.kids[k][i], g)
    else OnEdges(sp, t, k, g) || (t.nodes[k].geomType == POLYGONTYPE && t.contains(k, g))
  }

  /** A part of a single geometry: neither it nor anything below is a collection or a polygon. */
  ghost predicate Plain(t: Tree, k: nat)
    requires WellShaped(t) && k < |t.nodes|
    decreases k
  {
    && !IsCollection(t.nodes[k].geomType) && t.nodes[k].geomType != POLYGONTYPE
    && forall i :: 0 <= i < |t.kids[k]| ==> Plain(t, t.kids[k][i])
  }

  /** Collections hold geometries, and these their own parts. */
  ghost predicate Typed(t: Tree, k: nat)
    requires WellShaped(t) && k < |t.nodes|
    decreases k
  {
    if IsCollection(t.nodes[k].geomType) then forall i :: 0 <= i < |t.kids[k]| ==> Typed(t, t.kids[k][i])
    else t.nodes[k].geomType != 0 && forall i :: 0 <= i < |t.kids[k]| ==> Plain(t, t.kids[k][i])
  }

  // ----- what polygons are

  /** The way from the inside of a polygon to a point of neither its inside nor its boundary
      crosses the boundary. */
  ghost predicate Enclosed(sp: Space, t: Tree)
    requires WellShaped(t)
  {
    forall k, g, h ::
      0 <= k < |t.nodes| && t.nodes[k].geomType == POLYGONTYPE && t.contains(k, g) && !OnShape(sp, t, k, h) ==>
        WayOut(sp, t, k, g, h)
  }

  ghost predicate WayOut(sp: Space, t: Tree, k: nat, g: Geo, h: Geo)
    requires WellShaped(t) && k < |t.nodes|
  {
    exists b :: OnEdges(sp, t, k, b) && sp.dist(b, h) <= sp.dist(g, h)
  }

  /** A polygon contains every vertex of the other geometry. */
  ghost predicate Inside(outer: Tree, k: nat, inner: Tree, l: nat)
    requires WellShaped(outer) && k < |outer.nodes| && WellShaped(inner) && l < |inner.nodes|
  {
    outer.nodes[k].geomType == POLYGONTYPE && forall v :: VertexOf(inner, l, v) ==> outer.contains(k, v)
  }

  ghost predicate EdgesMeet(w: Scene, n1: nat, n2: nat)
    requires InRange(w, n1, n2)
  {
    exists b :: OnEdges(w.space, w.t1, n1, b) && OnEdges(w.space, w.t2, n2, b)
  }

  /** If the two geometries share a point their edges meet, unless one lies inside the other. */
  ghost predicate Apart(w: Scene, n1: nat, n2: nat)
    requires InRange(w, n1, n2)
  {
    (exists g :: OnShape(w.space, w.t1, n1, g) && OnShape(w.space, w.t2, n2, g)) ==>
      EdgesMeet(w, n1, n2) || Inside(w.t1, n1, w.t2, n2) || Inside(w.t2, n2, w.t1, n1)
  }

  /** That is so for any two geometries that are no collections. */
  ghost predicate AllApart(w: Scene)
    requires WellShaped(w.t1) && WellShaped(w.t2)
  {
    forall k1: nat, k2: nat ::
      InRange(w, k1, k2) && !IsCollection(w.t1.nodes[k1].geomType) && !IsCollection(w.t2.nodes[k2].geomType) ==>
        Apart(w, k1, k2)
  }

  /** Two trees of geometries whose polygons are regions of the sphere. */
  ghost predicate Solid(w: Scene, n1: nat, n2: nat) {
    && Ready(w) && InRange(w, n1, n2)
    && Typed(w.t1, n1) && Typed(w.t2, n2)
    && Enclosed(w.space, w.t1) && Enclosed(w.space, w.t2)
    && AllApart(w)
  }

  // ----- nothing of the shapes is nearer than the least distance

  lemma {:induction false} LeafOfEdge(sp: Space, t: Tree, k: nat, g: Geo) returns (l: nat)
    requires WellShaped(t) && k < |t.nodes| && OnEdges(sp, t, k, g)
    ensures LeafBelow(t, k, l) && l <= k && sp.onEdge(t.nodes[l].p1, t.nodes[l].p2, g)
    decreases k
  {
    if IsLeaf(t, k) {
      l := k;
    } else {
      var i :| 0 <= i < |t.kids[k]| && OnEdges(sp, t, t.kids[k][i], g);
      l := LeafOfEdge(sp, t, t.kids[k][i], g);
    }
  }

  lemma EdgesAreNoNearer(w: Scene, n1: nat, n2: nat, g: Geo, h: Geo)
    requires Ready(w) && InRange(w, n1, n2) && OnEdges(w.space, w.t1, n1, g) && OnEdges(w.space, w.t2, n2, h)
    ensures Least(w, n1, n2) <= w.space.dist(g, h)
  {
    hide Least, LeafPoints, LeafBelow, OnEdges, Covering;
    var a := LeafOfEdge(w.space, w.t1, n1, g);
    var b := LeafOfEdge(w.space, w.t2, n2, h);
    LeastIsBelowLeaves(w, n1, n2, a, b);
    LeafPointsAreNearest(w.space, w.t1.nodes[a], w.t2.nodes[b]);
  }

  /** Two geometries, one of which is inside the other, are found to touch. */
  lemma InsideMustHit(w: Scene, n1: nat, n2: nat)
    requires InRange(w, n1, n2) && w.t1.nodes[n1].geomType != 0 && w.t2.nodes[n2].geomType != 0
    requires !IsCollection(w.t1.nodes[n1].geomType) && !IsCollection(w.t2.nodes[n2].geomType)
    requires Inside(w.t1, n1, w.t2, n2) || Inside(w.t2, n2, w.t1, n1)
    ensures MustHit(w, n1, n2)
  {
    hide VertexOf, IsCollection;
  }

  /** A point of a geometry has a point on its edges that is no further from a point outside. */
  lemma ToTheEdge(sp: Space, t: Tree, k: nat, g: Geo, h: Geo) returns (b: Geo)
    requires WellShaped(t) && k < |t.nodes| && Enclosed(sp, t) && !IsCollection(t.nodes[k].geomType)
    requires OnShape(sp, t, k, g) && !OnShape(sp, t, k, h)
    ensures OnEdges(sp, t, k, b) && sp.dist(b, h) <= sp.dist(g, h)
  {
    if OnEdges(sp, t, k, g) {
      b := g;
    } else {
      assert WayOut(sp, t, k, g, h);
      b :| OnEdges(sp, t, k, b) && sp.dist(b, h) <= sp.dist(g, h);
    }
  }

  lemma SinglesAreNoNearer(w: Scene, n1: nat, n2: nat, g: Geo, h: Geo)
    requires Solid(w, n1, n2)
    requires !IsCollection(w.t1.nodes[n1].geomType) && !IsCollection(w.t2.nodes[n2].geomType)
    requires OnShape(w.space, w.t1, n1, g) && OnShape(w.space, w.t2, n2, h)
    ensures Least(w, n1, n2) <= w.space.dist(g, h)
  {
    var sp := w.space;
    hide Covering, OnEdges, IsCollection, Least;
    assert 0.0 <= sp.dist(g, h);
    assert Apart(w, n1, n2);
    if exists x :: OnShape(sp, w.t1, n1, x) && OnShape(sp, w.t2, n2, x) {
      if EdgesMeet(w, n1, n2) {
        var b :| OnEdges(sp, w.t1, n1, b) && OnEdges(sp, w.t2, n2, b);
        EdgesAreNoNearer(w, n1, n2, b, b);
        assert sp.dist(b, b) == 0.0;
      } else {
        InsideMustHit(w, n1, n2);
        HitIsZero(w, n1, n2);
      }
    } else {
      var b := ToTheEdge(sp, w.t1, n1, g, h);
      assert OnShape(sp, w.t1, n1, b);
      var c := ToTheEdge(sp, w.t2, n2, h, b);
      assert sp.dist(c, b) == sp.dist(b, c) && sp.dist(h, b) == sp.dist(b, h);
      EdgesAreNoNearer(w, n1, n2, b, c);
    }
  }

  lemma HitIsZero(w: Scene, n1: nat, n2: nat)
    requires InRange(w, n1, n2) && MustHit(w, n1, n2)
    ensures Least(w, n1, n2) == 0.0
  {
  }

  /** No two points of the two shapes are nearer than the least distance. */
  lemma {:induction false} ShapesAreNoNearer(w: Scene, n1: nat, n2: nat, g: Geo, h: Geo)
    requires Solid(w, n1, n2)
    requires OnShape(w.space, w.t1, n1, g) && OnShape(w.space, w.t2, n2, h)
    ensures Least(w, n1, n2) <= w.space.dist(g, h)
    decreases n1 + n2
  {
    hide Ready, Enclosed, AllApart, LeastFirst, LeastSecond;
    if IsCollection(w.t1.nodes[n1].geomType) {
      var i :| 0 <= i < |w.t1.kids[n1]| && OnShape(w.space, w.t1, w.t1.kids[n1][i], g);
      ShapesAreNoNearer(w, w.t1.kids[n1][i], n2, g, h);
      LeastFirstIsMinimum(w, n1, n2, |w.t1.kids[n1]|);
    } else if IsCollection(w.t2.nodes[n2].geomType) {
      var i :| 0 <= i < |w.t2.kids[n2]| && OnShape(w.space, w.t2, w.t2.kids[n2][i], h);
      ShapesAreNoNearer(w, n1, w.t2.kids[n2][i], g, h);
      LeastSecondIsMinimum(w, n1, n2, |w.t2.kids[n2]|);
    } else {
      SinglesAreNoNearer(w, n1, n2, g, h);
    }
  }

  // ----- what is found belongs to the shapes

  lemma {:induction false} VertexOnEdges(sp: Space, t: Tree, k: nat, v: Geo)
    requires ValidSpace(sp) && WellShaped(t) && k < |t.nodes| && VertexOf(t, k, v)
    ensures OnEdges(sp, t, k, v)
    decreases k
  {
    if !IsLeaf(t, k) {
      hide ValidSpace;
      var i :| 0 <= i < |t.kids[k]| && VertexOf(t, t.kids[k][i], v);
      VertexOnEdges(sp, t, t.kids[k][i], v);
    }
  }

  /** Edges below a geometry belong to it, as far as no leaf is a collection. */
  lemma {:induction false} EdgesOnShape(sp: Space, t: Tree, k: nat, g: Geo)
    requires Covering(sp, t) && k < |t.nodes| && OnEdges(sp, t, k, g)
    ensures OnShape(sp, t, k, g)
    decreases k
  {
    hide LeafInDisc, Nested;
    if IsCollection(t.nodes[k].geomType) {
      var i :| 0 <= i < |t.kids[k]| && OnEdges(sp, t, t.kids[k][i], g);
      EdgesOnShape(sp, t, t.kids[k][i], g);
    }
  }

  /** A child's shape is part of its parent's, for geometries and for their parts. */
  lemma ChildOnShape(sp: Space, t: Tree, k: nat, i: nat, g: Geo)
    requires WellShaped(t) && k < |t.nodes| && i < |t.kids[k]| && (Typed(t, k) || Plain(t, k))
    ensures Typed(t, t.kids[k][i]) || Plain(t, t.kids[k][i])
    ensures OnShape(sp, t, t.kids[k][i], g) ==> OnShape(sp, t, k, g)
  {
    var c := t.kids[k][i];
    if Plain(t, c) {
      assert OnShape(sp, t, c, g) <==> OnEdges(sp, t, c, g);
    }
  }

  /** The points that a descent finds are points of the two shapes. */
  lemma {:induction false} FoundOnShapes(w: Scene, n1: nat, n2: nat, p: Geo, q: Geo)
    requires Ready(w) && InRange(w, n1, n2) && Attained(w, n1, n2, p, q)
    requires (Typed(w.t1, n1) || Plain(w.t1, n1)) && (Typed(w.t2, n2) || Plain(w.t2, n2))
    ensures OnShape(w.space, w.t1, n1, p) && OnShape(w.space, w.t2, n2, q)
    decreases n1 + n2
  {
    if p == q && HitBy(w, n1, n2, p) {
      HitOnShapes(w, n1, n2, p);
    } else if StepAt(w, n1, n2) == Compare {
      LeavesOnShapes(w, n1, n2);
    } else if StepAt(w, n1, n2) == First {
      hide Ready, OnShape, Typed, Plain;
      var i :| 0 <= i < |w.t1.kids[n1]| && Attained(w, w.t1.kids[n1][i], n2, p, q);
      ChildOnShape(w.space, w.t1, n1, i, p);
      FoundOnShapes(w, w.t1.kids[n1][i], n2, p, q);
    } else {
      hide Ready, OnShape, Typed, Plain;
      var i :| 0 <= i < |w.t2.kids[n2]| && Attained(w, n1, w.t2.kids[n2][i], p, q);
      ChildOnShape(w.space, w.t2, n2, i, q);
      FoundOnShapes(w, n1, w.t2.kids[n2][i], p, q);
    }
  }

  lemma HitOnShapes(w: Scene, n1: nat, n2: nat, p: Geo)
    requires Ready(w) && InRange(w, n1, n2) && HitBy(w, n1, n2, p)
    ensures OnShape(w.space, w.t1, n1, p) && OnShape(w.space, w.t2, n2, p)
  {
    hide ValidSpace, Covering, VertexOf, OnEdges;
    if VertexOf(w.t2, n2, p) {
      VertexOnEdges(w.space, w.t2, n2, p);
      EdgesOnShape(w.space, w.t2, n2, p);
    }
    if VertexOf(w.t1, n1, p) {
      VertexOnEdges(w.space, w.t1, n1, p);
      EdgesOnShape(w.space, w.t1, n1, p);
    }
  }

  lemma LeavesOnShapes(w: Scene, n1: nat, n2: nat)
    requires Ready(w) && InRange(w, n1, n2) && IsLeaf(w.t1, n1) && IsLeaf(w.t2, n2)
    ensures var close := LeafPoints(w.space, w.t1.nodes[n1], w.t2.nodes[n2]);
      OnShape(w.space, w.t1, n1, close.0) && OnShape(w.space, w.t2, n2, close.1)
  {
    hide ValidSpace, Covering, LeafPoints;
    var close := LeafPoints(w.space, w.t1.nodes[n1], w.t2.nodes[n2]);
    LeafPointsAreNearest(w.space, w.t1.nodes[n1], w.t2.nodes[n2]);
    EdgesOnShape(w.space, w.t1, n1, close.0);
    EdgesOnShape(w.space, w.t2, n2, close.1);
  }

  /** No two points of the shapes are nearer than these two, which belong to them. */
  ghost predicate Nearest(w: Scene, n1: nat, n2: nat, p: Geo, q: Geo)
    requires InRange(w, n1, n2)
  {
    && OnShape(w.space, w.t1, n1, p) && OnShape(w.space, w.t2, n2, q)
    && forall g, h :: OnShape(w.space, w.t1, n1, g) && OnShape(w.space, w.t2, n2, h) ==>
                        w.space.dist(p, q) <= w.space.dist(g, h)
  }

  /** What a search ends with: points of the shapes whose distance is below the threshold, or
      of which none are nearer. */
  lemma FoundIsNearest(w: Scene, n1: nat, n2: nat, p: Geo, q: Geo, threshold: real)
    requires Solid(w, n1, n2) && Attained(w, n1, n2, p, q)
    requires w.space.dist(p, q) < threshold || w.space.dist(p, q) <= Least(w, n1, n2)
    ensures OnShape(w.space, w.t1, n1, p) && OnShape(w.space, w.t2, n2, q)
    ensures w.space.dist(p, q) < threshold || Nearest(w, n1, n2, p, q)
    ensures Nearest(w, n1, n2, p, q) ==> w.space.dist(p, q) == Least(w, n1, n2)
  {
    hide Ready, Enclosed, AllApart, Attained, OnShape, Least, Typed;
    FoundOnShapes(w, n1, n2, p, q);
    if w.space.dist(p, q) <= Least(w, n1, n2) {
      forall g, h | OnShape(w.space, w.t1, n1, g) && OnShape(w.space, w.t2, n2, h)
        ensures w.space.dist(p, q) <= w.space.dist(g, h)
      {
        ShapesAreNoNearer(w, n1, n2, g, h);
      }
    }
    var g, h := LeastIsAttained(w, n1, n2);
    FoundOnShapes(w, n1, n2, g, h);
    ShapesAreNoNearer(w, n1, n2, p, q);
  }

  // ----- what the type of a collection hides

  /** A line of two edges that the type of a collection has been given to is never found inside
      a polygon, whatever that contains: its edges are no geometries. */
  lemma RetypedLineIsNeverInside(sp: Space, a: Node, b: Node, top: Node, t: Tree, n1: nat, n2: nat, v: Geo)
    requires a.geomType == b.geomType == 0 && WellShaped(t) && n2 < |t.nodes| && n1 < 3
    ensures var line := Tree([a, b, top.(geomType := COLLECTIONTYPE)], [[], [], [0, 1]], (_, _) => false);
      && InRange(Scene(sp, line, t), n1, n2) && !HitBy(Scene(sp, line, t), n1, n2, v)
      && !Typed(line, 2)
  {
    var line := Tree([a, b, top.(geomType := COLLECTIONTYPE)], [[], [], [0, 1]], (_, _) => false);
    assert line.kids[2][0] == 0 && !Typed(line, 0);
  }
}
