/** Packing a list of disc nodes into one tree, in place. */
module CircPacking {
  import opened Common
  import opened CircDiscs

  const CIRC_NODE_SIZE: nat := 8
  const FP_TOLERANCE: real := 0.00000000000005

  /** A leaf has the ends of an edge, equal for a point. */
  datatype Circ = Circ(center: Geo, radius: real, geomType: nat, ends: Option<(Geo, Geo)>, children: seq<Circ>)

  /** Distances, the point at an offset from one point towards another (which may fail), and
      the straight-line approximation of it. */
  datatype Sphere = Sphere(
    dist: (Geo, Geo) -> real,
    project: (Geo, Geo, real, real) -> Option<Geo>,
    lerp: (Geo, Geo, real, real) -> Geo)

  // ----- merging two discs

  function Abs(x: real): real {
    if x < 0.0 then -x else x
  }

  function NewRadius(dist: real, r1: real, ri: real): real {
    (dist + r1 + ri) / 2.0
  }

  function Offset(dist: real, r1: real, ri: real): real {
    ri + (dist + r1 + ri - (2.0 * r1 + 2.0 * ri)) / 2.0
  }

  /** The disc grown by one more disc. */
  function Grow(sp: Sphere, d: Disc, next: Disc): Disc {
    var dist := sp.dist(d.center, next.center);
    var r1, ri := d.radius, next.radius;
    if Abs(dist) <= FP_TOLERANCE then Disc(d.center, r1 + 2.0 * dist)
    else if dist < Abs(r1 - ri) then
      if r1 > ri then d else next
    else
      match sp.project(d.center, next.center, dist, Offset(dist, r1, ri))
      case Some(center) => Disc(center, NewRadius(dist, r1, ri))
      case None => Disc(sp.lerp(d.center, next.center, dist, Offset(dist, r1, ri)), NewRadius(dist, r1, ri) * 1.1)
  }

  /** Projection, where it succeeds, goes along the shortest way. */
  ghost predicate ProjectsStraight(sp: Sphere) {
    forall a, b, dist, offset ::
      dist == sp.dist(a, b) && 0.0 <= offset <= dist && sp.project(a, b, dist, offset).Some? ==>
        var c := sp.project(a, b, dist, offset).value;
        sp.dist(a, c) == offset && sp.dist(c, b) == dist - offset
  }

  /** The new center has to be projected. */
  predicate NeedsCenter(sp: Sphere, d: Disc, next: Disc) {
    var dist := sp.dist(d.center, next.center);
    Abs(dist) > FP_TOLERANCE && dist >= Abs(d.radius - next.radius)
  }

  predicate Projected(sp: Sphere, d: Disc, next: Disc) {
    var dist := sp.dist(d.center, next.center);
    sp.project(d.center, next.center, dist, Offset(dist, d.radius, next.radius)).Some?
  }

  /** A disc of about the same center that is larger is taken in without growing to it. */
  predicate SwallowsLarger(sp: Sphere, d: Disc, next: Disc) {
    var dist := sp.dist(d.center, next.center);
    Abs(dist) <= FP_TOLERANCE && next.radius > d.radius + dist
  }

  /** Growing covers both discs exactly when it does not swallow a larger one. */
  lemma GrowCovers(sp: Sphere, d: Disc, next: Disc)
    requires IsMetric(sp.dist) && ProjectsStraight(sp) && d.radius >= 0.0 && next.radius >= 0.0
    requires NeedsCenter(sp, d, next) ==> Projected(sp, d, next)
    ensures var r := Grow(sp, d, next);
      && Covers(sp.dist, r, d) && r.radius >= d.radius
      && (Covers(sp.dist, r, next) <==> !SwallowsLarger(sp, d, next))
  {
    var dist := sp.dist(d.center, next.center);
    assert sp.dist(d.center, d.center) == 0.0 && sp.dist(next.center, next.center) == 0.0;
    assert dist == sp.dist(next.center, d.center);
    if NeedsCenter(sp, d, next) {
      var offset := Offset(dist, d.radius, next.radius);
      assert 0.0 <= offset <= dist;
      var c := sp.project(d.center, next.center, dist, offset).value;
      assert sp.dist(c, d.center) == sp.dist(d.center, c) == offset && sp.dist(c, next.center) == dist - offset;
    }
  }

  /** Where the new center cannot be projected the larger radius makes up for a center that is
      off by up to a tenth of it. */
  lemma PaddingCovers(sp: Sphere, d: Disc, next: Disc)
    requires IsMetric(sp.dist) && NeedsCenter(sp, d, next) && !Projected(sp, d, next)
    requires var dist := sp.dist(d.center, next.center);
      var offset, slack := Offset(dist, d.radius, next.radius), NewRadius(dist, d.radius, next.radius) / 10.0;
      var center := sp.lerp(d.center, next.center, dist, offset);
      sp.dist(center, d.center) <= offset + slack && sp.dist(center, next.center) <= dist - offset + slack
    ensures Covers(sp.dist, Grow(sp, d, next), d) && Covers(sp.dist, Grow(sp, d, next), next)
    ensures 20.0 * Grow(sp, d, next).radius == 11.0 * (sp.dist(d.center, next.center) + d.radius + next.radius)
  {
  }

  /** No disc that covers both is smaller than the grown one, but for the tolerance within which
      centers count as the same. */
  lemma GrowIsSmallest(sp: Sphere, d: Disc, next: Disc, other: Disc)
    requires IsMetric(sp.dist) && (NeedsCenter(sp, d, next) ==> Projected(sp, d, next))
    requires Covers(sp.dist, other, d) && Covers(sp.dist, other, next)
    ensures Abs(sp.dist(d.center, next.center)) > FP_TOLERANCE ==> Grow(sp, d, next).radius <= other.radius
    ensures Grow(sp, d, next).radius <= other.radius + 0.0000000000001
  {
    Triangle(sp.dist, d.center, other.center, next.center);
    Triangle(sp.dist, other.center, d.center, d.center);
    Triangle(sp.dist, other.center, next.center, next.center);
  }

  /** A disc of twice the radius about the same center is swallowed and sticks out. */
  lemma LargerDiscSticksOut(sp: Sphere, c: Geo)
    requires IsMetric(sp.dist)
    ensures Grow(sp, Disc(c, 1.0), Disc(c, 2.0)) == Disc(c, 1.0) && !Covers(sp.dist, Disc(c, 1.0), Disc(c, 2.0))
  {
    Triangle(sp.dist, c, c, c);
  }

  // ----- types roll up

  function RollUp(kind: nat, next: nat): nat {
    if kind == 0 then next
    else if !IsCollection(kind) then (if kind != next then COLLECTIONTYPE else CollectionTypeOf(kind))
    else if kind != CollectionTypeOf(next) then COLLECTIONTYPE
    else kind
  }

  // ----- internal nodes

  function DiscOf(c: Circ): Disc {
    Disc(c.center, c.radius)
  }

  /** Disc and type of the first `n` nodes together. */
  function MergedDisc(sp: Sphere, c: seq<Circ>, n: nat): Disc
    requires 0 < n <= |c|
  {
    if n == 1 then DiscOf(c[0]) else Grow(sp, MergedDisc(sp, c, n - 1), DiscOf(c[n - 1]))
  }

  function MergedType(c: seq<Circ>, n: nat): nat
    requires 0 < n <= |c|
  {
    if n == 1 then c[0].geomType else RollUp(MergedType(c, n - 1), c[n - 1].geomType)
  }

  function Parent(sp: Sphere, c: seq<Circ>): Circ
    requires c != []
  {
    var disc := MergedDisc(sp, c, |c|);
    Circ(disc.center, disc.radius, MergedType(c, |c|), None, c)
  }

  /** Step `n` of a merge projects its center and swallows nothing larger. */
  predicate CleanStep(sp: Sphere, c: seq<Circ>, n: nat)
    requires 0 < n < |c|
  {
    var d, next := MergedDisc(sp, c, n), DiscOf(c[n]);
    (NeedsCenter(sp, d, next) ==> Projected(sp, d, next)) && !SwallowsLarger(sp, d, next)
  }

  /** A parent covers all its children when every step of the merge was clean. */
  lemma {:induction false} ParentCovers(sp: Sphere, c: seq<Circ>, n: nat)
    requires IsMetric(sp.dist) && ProjectsStraight(sp) && 0 < n <= |c|
    requires forall i :: 0 <= i < |c| ==> c[i].radius >= 0.0
    requires forall i :: 0 < i < n ==> CleanStep(sp, c, i)
    ensures MergedDisc(sp, c, n).radius >= 0.0
    ensures forall i :: 0 <= i < n ==> Covers(sp.dist, MergedDisc(sp, c, n), DiscOf(c[i]))
  {
    if n == 1 {
      assert sp.dist(c[0].center, c[0].center) == 0.0;
    } else {
      ParentCovers(sp, c, n - 1);
      NextIsCovered(sp, c, n - 1);
    }
  }

  lemma NextIsCovered(sp: Sphere, c: seq<Circ>, n: nat)
    requires IsMetric(sp.dist) && ProjectsStraight(sp) && 0 < n < |c| && CleanStep(sp, c, n)
    requires MergedDisc(sp, c, n).radius >= 0.0 && c[n].radius >= 0.0
    requires forall i :: 0 <= i < n ==> Covers(sp.dist, MergedDisc(sp, c, n), DiscOf(c[i]))
    ensures MergedDisc(sp, c, n + 1).radius >= 0.0
    ensures forall i :: 0 <= i < n + 1 ==> Covers(sp.dist, MergedDisc(sp, c, n + 1), DiscOf(c[i]))
  {
    hide IsMetric, ProjectsStraight, Covers, Grow, NeedsCenter, Projected, SwallowsLarger;
    var d, grown := MergedDisc(sp, c, n), MergedDisc(sp, c, n + 1);
    GrowCovers(sp, d, DiscOf(c[n]));
    forall i | 0 <= i < n
      ensures Covers(sp.dist, grown, DiscOf(c[i]))
    {
      CoversTrans(sp.dist, grown, d, DiscOf(c[i]));
    }
  }

  /** Two or more typed nodes make a collection, and untyped ones stay untyped. */
  lemma {:induction false} ParentType(c: seq<Circ>, n: nat)
    requires 0 < n <= |c|
    ensures (forall i :: 0 <= i < n ==> c[i].geomType == 0) ==> MergedType(c, n) == 0
    ensures (forall i :: 0 <= i < n ==> c[i].geomType != 0) ==>
              MergedType(c, n) != 0 && (n >= 2 ==> IsCollection(MergedType(c, n)))
  {
    if n > 1 {
      ParentType(c, n - 1);
    }
  }

  /** Untyped nodes in front do not count. */
  lemma {:induction false} UntypedAreSkipped(c: seq<Circ>, n: nat)
    requires n < |c| && forall i :: 0 <= i < n ==> c[i].geomType == 0
    ensures MergedType(c, n + 1) == c[n].geomType
  {
    if n > 0 {
      UntypedAreSkipped(c, n - 1);
    }
  }

  /** The type of a parent of single geometries allows them all, and is their homogeneous
      collection when they are of one type. */
  lemma {:induction false} ParentHoldsTypes(c: seq<Circ>, n: nat)
    requires 2 <= n <= |c| && forall i :: 0 <= i < n ==> c[i].geomType != 0 && !IsCollection(c[i].geomType)
    ensures forall i :: 0 <= i < n ==> AllowsSubtype(MergedType(c, n), c[i].geomType)
    ensures (forall i :: 0 <= i < n ==> c[i].geomType == c[0].geomType) ==>
              MergedType(c, n) == CollectionTypeOf(c[0].geomType)
  {
    assert MergedType(c, 1) == c[0].geomType;
    if n > 2 {
      ParentHoldsTypes(c, n - 1);
    }
  }

  method InternalNew(sp: Sphere, c: seq<Circ>) returns (node: Circ)
    requires c != []
    ensures node == Parent(sp, c)
  {
    hide Grow, RollUp;
    var newCenter, newRadius, newGeomType := c[0].center, c[0].radius, c[0].geomType;
    for i := 1 to |c|
      invariant Disc(newCenter, newRadius) == MergedDisc(sp, c, i) && newGeomType == MergedType(c, i)
    {
      newGeomType := RollUp(newGeomType, c[i].geomType);
      var grown := Grow(sp, Disc(newCenter, newRadius), DiscOf(c[i]));
      newCenter, newRadius := grown.center, grown.radius;
    }
    return Circ(newCenter, newRadius, newGeomType, None, c);
  }

  // ----- packing

  /** One round: groups of eight, the rest merged, a single node left over promoted. */
  function PackLevel(sp: Sphere, s: seq<Circ>): (r: seq<Circ>)
    ensures s != [] ==> r != []
    ensures |s| > 1 ==> |r| < |s|
    ensures |r| <= |s|
  {
    if |s| <= 1 then s
    else if |s| < CIRC_NODE_SIZE then [Parent(sp, s)]
    else [Parent(sp, s[..CIRC_NODE_SIZE])] + PackLevel(sp, s[CIRC_NODE_SIZE..])
  }

  function Pack(sp: Sphere, s: seq<Circ>): Circ
    requires s != []
    decreases |s|
  {
    if |s| == 1 then s[0] else Pack(sp, PackLevel(sp, s))
  }

  function Concat(parts: seq<seq<Circ>>): seq<Circ> {
    if parts == [] then [] else parts[0] + Concat(parts[1..])
  }

  /** The tree grew from the given nodes: it is one of them, or a parent of two to eight trees
      that grew from consecutive stretches of them. */
  ghost predicate GrownFrom(t: Circ, given: seq<Circ>) {
    || given == [t]
    || (2 <= |t.children| <= 8
        && exists parts :: AllGrownFrom(t.children, parts) && Concat(parts) == given)
  }

  ghost predicate AllGrownFrom(s: seq<Circ>, parts: seq<seq<Circ>>) {
    |s| == |parts| && forall i :: 0 <= i < |s| ==> GrownFrom(s[i], parts[i])
  }

  function LeavesOf(t: Circ): seq<Circ> {
    if t.children == [] then [t] else LeavesOfAll(t.children)
  }

  function LeavesOfAll(s: seq<Circ>): seq<Circ> {
    if s == [] then [] else LeavesOf(s[0]) + LeavesOfAll(s[1..])
  }

  lemma {:induction false} ConcatSplits(a: seq<seq<Circ>>, b: seq<seq<Circ>>)
    ensures Concat(a + b) == Concat(a) + Concat(b)
  {
    if a == [] {
      assert a + b == b;
    } else {
      ConcatSplits(a[1..], b);
      assert (a + b)[1..] == a[1..] + b && (a + b)[0] == a[0];
      assert a[0] + (Concat(a[1..]) + Concat(b)) == a[0] + Concat(a[1..]) + Concat(b);
    }
  }

  lemma ParentGrows(sp: Sphere, s: seq<Circ>, parts: seq<seq<Circ>>)
    requires 2 <= |s| <= CIRC_NODE_SIZE && AllGrownFrom(s, parts)
    ensures AllGrownFrom([Parent(sp, s)], [Concat(parts)]) && Concat([Concat(parts)]) == Concat(parts)
  {
    assert Parent(sp, s).children == s;
    assert [Concat(parts)][1..] == [];
  }

  /** A round keeps the trees grown, from the same nodes in the same order. */
  lemma {:induction false} LevelGrows(sp: Sphere, s: seq<Circ>, parts: seq<seq<Circ>>) returns (r: seq<seq<Circ>>)
    requires AllGrownFrom(s, parts)
    ensures AllGrownFrom(PackLevel(sp, s), r) && Concat(r) == Concat(parts)
  {
    hide GrownFrom, Parent;
    if |s| <= 1 {
      r := parts;
    } else if |s| < CIRC_NODE_SIZE {
      ParentGrows(sp, s, parts);
      r := [Concat(parts)];
    } else {
      var head, tail := parts[..CIRC_NODE_SIZE], parts[CIRC_NODE_SIZE..];
      ParentGrows(sp, s[..CIRC_NODE_SIZE], head);
      var rest := LevelGrows(sp, s[CIRC_NODE_SIZE..], tail);
      r := [Concat(head)] + rest;
      ConcatSplits(head, tail);
      assert parts == head + tail;
      assert r[1..] == rest;
    }
  }

  lemma {:induction false} PackGrows(sp: Sphere, s: seq<Circ>, parts: seq<seq<Circ>>)
    requires s != [] && AllGrownFrom(s, parts)
    ensures GrownFrom(Pack(sp, s), Concat(parts))
    decreases |s|
  {
    hide GrownFrom, PackLevel;
    if |s| == 1 {
      assert parts[1..] == [];
      assert Concat(parts) == parts[0];
    } else {
      var r := LevelGrows(sp, s, parts);
      PackGrows(sp, PackLevel(sp, s), r);
    }
  }

  /** A round leaves an eighth of the nodes, rounded up. */
  lemma {:induction false} LevelCount(sp: Sphere, s: seq<Circ>)
    ensures |PackLevel(sp, s)| == (|s| + 7) / 8
  {
    if |s| >= CIRC_NODE_SIZE {
      LevelCount(sp, s[CIRC_NODE_SIZE..]);
    }
  }

  function Singles(s: seq<Circ>): (parts: seq<seq<Circ>>)
    ensures |parts| == |s| && forall i :: 0 <= i < |s| ==> parts[i] == [s[i]]
    ensures Concat(parts) == s
  {
    if s == [] then [] else
    var rest := Singles(s[1..]);
    assert ([[s[0]]] + rest)[1..] == rest;
    [[s[0]]] + rest
  }

  /** Packing makes one tree out of all nodes, in order, and every new node has two to eight
      children. */
  lemma PackingConserves(sp: Sphere, s: seq<Circ>)
    requires s != []
    ensures GrownFrom(Pack(sp, s), s)
    ensures LeavesOf(Pack(sp, s)) == LeavesOfAll(s)
  {
    hide Pack;
    PackGrows(sp, s, Singles(s));
    GrownLeaves(Pack(sp, s), s);
  }

  lemma {:induction false} LeavesSplit(a: seq<Circ>, b: seq<Circ>)
    ensures LeavesOfAll(a + b) == LeavesOfAll(a) + LeavesOfAll(b)
  {
    if a == [] {
      assert a + b == b;
    } else {
      hide LeavesOf;
      LeavesSplit(a[1..], b);
      assert (a + b)[1..] == a[1..] + b && (a + b)[0] == a[0];
      var first, rest, more := LeavesOf(a[0]), LeavesOfAll(a[1..]), LeavesOfAll(b);
      assert first + (rest + more) == first + rest + more;
    }
  }

  /** A grown tree has the leaves of the given nodes, left to right. */
  lemma {:induction false} GrownLeaves(t: Circ, given: seq<Circ>)
    requires GrownFrom(t, given)
    ensures LeavesOf(t) == LeavesOfAll(given)
    decreases t, 1
  {
    if given == [t] {
      assert given[1..] == [];
    } else {
      var parts :| AllGrownFrom(t.children, parts) && Concat(parts) == given;
      AllGrownLeaves(t, 0, parts);
    }
  }

  lemma {:induction false} AllGrownLeaves(t: Circ, i: nat, parts: seq<seq<Circ>>)
    requires i <= |t.children| && AllGrownFrom(t.children, parts)
    ensures LeavesOfAll(t.children[i..]) == LeavesOfAll(Concat(parts[i..]))
    decreases t, 0, |t.children| - i
  {
    if i < |t.children| {
      var rest, restParts := t.children[i..], parts[i..];
      assert rest[0] == t.children[i] && rest[1..] == t.children[i + 1..];
      assert restParts[0] == parts[i] && restParts[1..] == parts[i + 1..];
      GrownLeaves(t.children[i], parts[i]);
      AllGrownLeaves(t, i + 1, parts);
      LeavesSplit(parts[i], Concat(parts[i + 1..]));
    }
  }

  // ----- covering

  /** All steps of all merges of a round are clean. */
  predicate CleanLevel(sp: Sphere, s: seq<Circ>) {
    if |s| <= 1 then true
    else if |s| < CIRC_NODE_SIZE then CleanMerge(sp, s)
    else CleanMerge(sp, s[..CIRC_NODE_SIZE]) && CleanLevel(sp, s[CIRC_NODE_SIZE..])
  }

  predicate CleanMerge(sp: Sphere, c: seq<Circ>) {
    forall i :: 0 < i < |c| ==> CleanStep(sp, c, i)
  }

  predicate CleanPack(sp: Sphere, s: seq<Circ>)
    decreases |s|
  {
    |s| <= 1 || (CleanLevel(sp, s) && CleanPack(sp, PackLevel(sp, s)))
  }

  /** Every node of the tree covers its children. */
  predicate CoversBelow(dist: Distance, t: Circ) {
    && t.radius >= 0.0
    && forall i :: 0 <= i < |t.children| ==>
                     Covers(dist, DiscOf(t), DiscOf(t.children[i])) && CoversBelow(dist, t.children[i])
  }

  predicate AllCoverBelow(dist: Distance, s: seq<Circ>) {
    forall i :: 0 <= i < |s| ==> CoversBelow(dist, s[i])
  }

  lemma ParentCoversBelow(sp: Sphere, c: seq<Circ>)
    requires IsMetric(sp.dist) && ProjectsStraight(sp) && c != []
    requires AllCoverBelow(sp.dist, c) && CleanMerge(sp, c)
    ensures CoversBelow(sp.dist, Parent(sp, c))
  {
    hide IsMetric, ProjectsStraight, MergedDisc, MergedType, CleanStep, Covers;
    ParentCovers(sp, c, |c|);
  }

  lemma {:induction false} LevelCoversBelow(sp: Sphere, s: seq<Circ>)
    requires IsMetric(sp.dist) && ProjectsStraight(sp)
    requires AllCoverBelow(sp.dist, s) && CleanLevel(sp, s)
    ensures AllCoverBelow(sp.dist, PackLevel(sp, s))
  {
    hide IsMetric, ProjectsStraight, CoversBelow, CleanMerge, Parent;
    if 1 < |s| < CIRC_NODE_SIZE {
      ParentCoversBelow(sp, s);
    } else if |s| >= CIRC_NODE_SIZE {
      ParentCoversBelow(sp, s[..CIRC_NODE_SIZE]);
      LevelCoversBelow(sp, s[CIRC_NODE_SIZE..]);
    }
  }

  /** When every step of every merge is clean, all nodes of the packed tree cover their
      children. */
  lemma {:induction false} PackCovers(sp: Sphere, s: seq<Circ>)
    requires IsMetric(sp.dist) && ProjectsStraight(sp) && s != []
    requires AllCoverBelow(sp.dist, s) && CleanPack(sp, s)
    ensures CoversBelow(sp.dist, Pack(sp, s))
    decreases |s|
  {
    hide IsMetric, ProjectsStraight, CoversBelow, CleanLevel, PackLevel;
    if |s| > 1 {
      LevelCoversBelow(sp, s);
      PackCovers(sp, PackLevel(sp, s));
    }
  }

  // ----- geometries and their parts

  /** A part of a single geometry: neither it nor anything below is a collection or a polygon. */
  predicate PlainTree(t: Circ) {
    && !IsCollection(t.geomType) && t.geomType != POLYGONTYPE
    && forall i :: 0 <= i < |t.children| ==> PlainTree(t.children[i])
  }

  /** Collections hold geometries, and these their own parts. */
  predicate TypedTree(t: Circ) {
    if IsCollection(t.geomType) then forall i :: 0 <= i < |t.children| ==> TypedTree(t.children[i])
    else t.geomType != 0 && forall i :: 0 <= i < |t.children| ==> PlainTree(t.children[i])
  }

  predicate AllEdges(s: seq<Circ>) {
    forall i :: 0 <= i < |s| ==> s[i].geomType == 0 && PlainTree(s[i])
  }

  predicate AllTyped(s: seq<Circ>) {
    forall i :: 0 <= i < |s| ==> TypedTree(s[i])
  }

  /** Parents of untyped parts are untyped parts, and parents of geometries are collections. */
  lemma ParentKeepsTypes(sp: Sphere, c: seq<Circ>)
    requires |c| >= 2
    ensures AllEdges(c) ==> Parent(sp, c).geomType == 0 && PlainTree(Parent(sp, c))
    ensures AllTyped(c) ==> IsCollection(Parent(sp, c).geomType) && TypedTree(Parent(sp, c))
  {
    hide MergedDisc, MergedType;
    ParentType(c, |c|);
    if AllTyped(c) {
      assert forall i :: 0 <= i < |c| ==> TypedTree(c[i]) && c[i].geomType != 0;
    }
  }

  lemma {:induction false} LevelKeepsTypes(sp: Sphere, s: seq<Circ>)
    ensures AllEdges(s) ==> AllEdges(PackLevel(sp, s))
    ensures AllTyped(s) ==> AllTyped(PackLevel(sp, s))
  {
    hide Parent, PlainTree, TypedTree;
    if 1 < |s| < CIRC_NODE_SIZE {
      ParentKeepsTypes(sp, s);
    } else if |s| >= CIRC_NODE_SIZE {
      var head, tail := s[..CIRC_NODE_SIZE], s[CIRC_NODE_SIZE..];
      assert AllEdges(s) ==> AllEdges(head) && AllEdges(tail);
      assert AllTyped(s) ==> AllTyped(head) && AllTyped(tail);
      ParentKeepsTypes(sp, head);
      LevelKeepsTypes(sp, tail);
    }
  }

  lemma OneGroup(sp: Sphere, s: seq<Circ>)
    requires 2 <= |s| <= 8
    ensures PackLevel(sp, s) == [Parent(sp, s)]
  {
    hide Parent;
    assert |s| == 8 ==> s[..CIRC_NODE_SIZE] == s;
  }

  /** Packing untyped edges makes an untyped part; packing several geometries a collection. */
  lemma {:induction false} PackKeepsTypes(sp: Sphere, s: seq<Circ>)
    requires s != []
    ensures AllEdges(s) ==> Pack(sp, s).geomType == 0 && PlainTree(Pack(sp, s))
    ensures AllTyped(s) ==> TypedTree(Pack(sp, s)) && (|s| > 1 ==> IsCollection(Pack(sp, s).geomType))
    decreases |s|
  {
    hide Parent, PlainTree, TypedTree;
    if |s| > 1 {
      LevelKeepsTypes(sp, s);
      PackKeepsTypes(sp, PackLevel(sp, s));
      LevelCount(sp, s);
      if |s| <= 8 {
        OneGroup(sp, s);
        ParentKeepsTypes(sp, s);
      }
    }
  }

  /** The tree of a geometry: packed from its edges and given its type, or packed from those of
      its members and given the type of the collection.  Only when one member is left does the
      type of the collection hide that of a geometry. */
  lemma BuiltIsTyped(sp: Sphere, s: seq<Circ>, kind: nat)
    requires s != []
    ensures AllEdges(s) && kind != 0 && !IsCollection(kind) ==> TypedTree(Pack(sp, s).(geomType := kind))
    ensures AllTyped(s) && IsCollection(kind) && (|s| > 1 || IsCollection(s[0].geomType)) ==>
              TypedTree(Pack(sp, s).(geomType := kind))
  {
    PackKeepsTypes(sp, s);
  }

  // ----- in place

  /** After `j` of the given nodes there are parents for the full groups, and the rest is in
      `inodes`. */
  ghost predicate Taken(sp: Sphere, given: seq<Circ>, parents: seq<Circ>, inodes: seq<Circ>, j: nat) {
    && CIRC_NODE_SIZE * |parents| + |inodes| == j <= |given| && |inodes| < CIRC_NODE_SIZE
    && inodes == given[CIRC_NODE_SIZE * |parents|..j]
    && PackLevel(sp, given) == parents + PackLevel(sp, given[CIRC_NODE_SIZE * |parents|..])
  }

  lemma NothingTaken(sp: Sphere, given: seq<Circ>)
    ensures Taken(sp, given, [], [], 0)
  {
    hide PackLevel;
    assert given[0..] == given && [] + PackLevel(sp, given) == PackLevel(sp, given);
  }

  lemma TakeOne(sp: Sphere, given: seq<Circ>, parents: seq<Circ>, inodes: seq<Circ>, j: nat)
    requires Taken(sp, given, parents, inodes, j) && j < |given|
    ensures var more := inodes + [given[j]];
      if |more| < CIRC_NODE_SIZE then Taken(sp, given, parents, more, j + 1)
      else Taken(sp, given, parents + [Parent(sp, more)], [], j + 1)
  {
    hide PackLevel, Parent;
    var more, rest := inodes + [given[j]], given[CIRC_NODE_SIZE * |parents|..];
    assert more == given[CIRC_NODE_SIZE * |parents|..j + 1];
    if |more| == CIRC_NODE_SIZE {
      assert rest[..CIRC_NODE_SIZE] == more && rest[CIRC_NODE_SIZE..] == given[j + 1..];
      FullGroup(sp, rest);
      var parent, others := [Parent(sp, more)], PackLevel(sp, given[j + 1..]);
      assert parents + (parent + others) == parents + parent + others;
    }
  }

  lemma AllTaken(sp: Sphere, given: seq<Circ>, parents: seq<Circ>, inodes: seq<Circ>)
    requires Taken(sp, given, parents, inodes, |given|)
    ensures PackLevel(sp, given) == parents + PackLevel(sp, inodes)
    ensures CIRC_NODE_SIZE * |parents| + |inodes| == |given| && |inodes| < CIRC_NODE_SIZE
  {
    hide PackLevel;
    var rest := given[CIRC_NODE_SIZE * |parents|..];
    assert inodes == rest;
  }

  lemma TakenCount(sp: Sphere, given: seq<Circ>, parents: seq<Circ>, inodes: seq<Circ>, j: nat)
    requires Taken(sp, given, parents, inodes, j)
    ensures |inodes| == j % CIRC_NODE_SIZE && |parents| == j / CIRC_NODE_SIZE
  {
  }

  /** Reads the slots in groups of eight and puts a parent for every full group over the slots
      already read; what is left is in `inodes`. */
  method TakeGroups(sp: Sphere, nodes: array<Circ>, numChildren: nat) returns (numParents: nat, inodes: seq<Circ>)
    requires 1 < numChildren <= nodes.Length
    modifies nodes
    ensures CIRC_NODE_SIZE * numParents + |inodes| == numChildren && |inodes| < CIRC_NODE_SIZE
    ensures PackLevel(sp, old(nodes[..numChildren])) == nodes[..numParents] + PackLevel(sp, inodes)
  {
    hide Parent, PackLevel, Taken;
    ghost var given := nodes[..numChildren];
    inodes := [];
    numParents := 0;
    NothingTaken(sp, given);
    for j := 0 to numChildren
      invariant numParents <= j && Taken(sp, given, nodes[..numParents], inodes, j)
      invariant nodes[j..numChildren] == given[j..]
    {
      TakenCount(sp, given, nodes[..numParents], inodes, j);
      TakeOne(sp, given, nodes[..numParents], inodes, j);
      assert nodes[j] == nodes[j..numChildren][0] == given[j];
      assert nodes[j + 1..numChildren] == nodes[j..numChildren][1..] == given[j + 1..];
      inodes := inodes + [nodes[j]];
      if j % CIRC_NODE_SIZE == CIRC_NODE_SIZE - 1 {
        var parent := InternalNew(sp, inodes);
        PutParent(nodes, numParents, parent, j + 1, numChildren);
        numParents := numParents + 1;
        inodes := [];
      }
    }
    AllTaken(sp, given, nodes[..numParents], inodes);
  }

  /** One round over the first `numChildren` slots. */
  method MergeLevel(sp: Sphere, nodes: array<Circ>, numChildren: nat) returns (numParents: nat)
    requires 1 < numChildren <= nodes.Length
    modifies nodes
    ensures numParents <= nodes.Length && nodes[..numParents] == PackLevel(sp, old(nodes[..numChildren]))
  {
    hide Parent, PackLevel;
    var inodes: seq<Circ>;
    numParents, inodes := TakeGroups(sp, nodes, numChildren);
    var inodeNum := (numChildren - 1) % CIRC_NODE_SIZE;
    LastGroup(sp, inodes);
    if inodeNum == 0 {
      PutParent(nodes, numParents, inodes[0], numChildren, numChildren);
      numParents := numParents + 1;
    } else if inodeNum < CIRC_NODE_SIZE - 1 {
      var parent := InternalNew(sp, inodes);
      PutParent(nodes, numParents, parent, numChildren, numChildren);
      numParents := numParents + 1;
    }
  }

  /** Writes a parent over a slot that is not needed any more. */
  method PutParent(nodes: array<Circ>, at: nat, parent: Circ, next: nat, end: nat)
    requires at < next <= end <= nodes.Length
    modifies nodes
    ensures nodes[..at + 1] == old(nodes[..at]) + [parent]
    ensures nodes[next..end] == old(nodes[next..end])
  {
    nodes[at] := parent;
  }

  lemma LastGroup(sp: Sphere, s: seq<Circ>)
    requires |s| < CIRC_NODE_SIZE
    ensures PackLevel(sp, s) == if s == [] then [] else if |s| == 1 then [s[0]] else [Parent(sp, s)]
  {
  }

  lemma FullGroup(sp: Sphere, s: seq<Circ>)
    requires |s| >= CIRC_NODE_SIZE
    ensures PackLevel(sp, s) == [Parent(sp, s[..CIRC_NODE_SIZE])] + PackLevel(sp, s[CIRC_NODE_SIZE..])
  {
  }

  /** Packs the first `numNodes` slots, overwriting them. */
  method NodesMerge(sp: Sphere, nodes: array<Circ>, numNodes: nat) returns (tree: Circ)
    requires 1 <= numNodes <= nodes.Length
    modifies nodes
    ensures tree == Pack(sp, old(nodes[..numNodes]))
  {
    hide PackLevel;
    var numChildren := numNodes;
    while numChildren > 1
      invariant 1 <= numChildren <= nodes.Length
      invariant Pack(sp, nodes[..numChildren]) == Pack(sp, old(nodes[..numNodes]))
    {
      numChildren := MergeLevel(sp, nodes, numChildren);
    }
    return nodes[0];
  }
}
