/** A packed tree, laid out as the positions that the search works on. */
module CircArena {
  import opened Common
  import opened CircDiscs
  import CircPacking
  import opened CircShapes
  import opened CircTree

  type Circ = CircPacking.Circ

  /** Nodes and their children, as positions from some base on. */
  datatype Arena = Arena(nodes: seq<Node>, kids: seq<seq<nat>>)

  function NodeOf(t: Circ): Node {
    var ends := if t.ends.Some? then t.ends.value else (t.center, t.center);
    Node(t.center, t.radius, t.geomType, ends.0, ends.1)
  }

  /** Children first, so that every node comes after what is below it. */
  function Lay(t: Circ, base: nat): (a: Arena)
    ensures |a.nodes| == |a.kids| > 0 && a.nodes[|a.nodes| - 1] == NodeOf(t)
    decreases t
  {
    var (below, roots) := LayAll(t.children, base);
    Arena(below.nodes + [NodeOf(t)], below.kids + [roots])
  }

  function LayAll(s: seq<Circ>, base: nat): (r: (Arena, seq<nat>))
    ensures |r.0.nodes| == |r.0.kids| && |r.1| == |s|
    decreases s
  {
    if s == [] then (Arena([], []), [])
    else
      var first := Lay(s[0], base);
      Beside(first, LayAll(s[1..], base + |first.nodes|), base)
  }

  /** One tree and then others, with their roots. */
  function Beside(first: Arena, others: (Arena, seq<nat>), base: nat): (r: (Arena, seq<nat>))
    requires |first.nodes| == |first.kids| > 0 && |others.0.nodes| == |others.0.kids|
    ensures |r.0.nodes| == |r.0.kids| && |r.1| == 1 + |others.1|
  {
    (Arena(first.nodes + others.0.nodes, first.kids + others.0.kids), [base + |first.nodes| - 1] + others.1)
  }

  /** The whole tree, with its root in the last position. */
  function Laid(t: Circ, contains: (nat, Geo) -> bool): Tree {
    var a := Lay(t, 0);
    Tree(a.nodes, a.kids, contains)
  }

  /** The disc of a leaf holds its edge, and its type is none of a collection. */
  ghost predicate LeafFits(sp: Space, n: Node) {
    LeafInDisc(sp, n) && !IsCollection(n.geomType)
  }

  ghost predicate LeavesFit(sp: Space, t: Circ)
    decreases t
  {
    if t.children == [] then LeafFits(sp, NodeOf(t))
    else forall i :: 0 <= i < |t.children| ==> LeavesFit(sp, t.children[i])
  }

  /** What position `k` has to promise. */
  ghost predicate Fits(sp: Space, a: Arena, base: nat, k: nat)
    requires k < |a.nodes| == |a.kids|
  {
    && a.nodes[k].radius >= 0.0
    && (forall i :: 0 <= i < |a.kids[k]| ==>
          base <= a.kids[k][i] < base + k && Nested(sp, a.nodes[k], a.nodes[a.kids[k][i] - base]))
    && (a.kids[k] == [] ==> LeafFits(sp, a.nodes[k]))
  }

  ghost predicate Arranged(sp: Space, a: Arena, base: nat) {
    && |a.nodes| == |a.kids|
    && forall k :: 0 <= k < |a.nodes| ==> Fits(sp, a, base, k)
  }

  lemma {:induction false} LayIsArranged(sp: Space, t: Circ, base: nat)
    requires CircPacking.CoversBelow(sp.dist, t) && LeavesFit(sp, t)
    ensures Arranged(sp, Lay(t, base), base)
    decreases t
  {
    hide LeafFits, Covers, LayAll;
    var (below, roots) := LayAll(t.children, base);
    LayAllIsArranged(sp, t.children, base);
    var a := Lay(t, base);
    forall k | 0 <= k < |a.nodes|
      ensures Fits(sp, a, base, k)
    {
      if k < |below.nodes| {
        assert Fits(sp, below, base, k);
      } else {
        forall i | 0 <= i < |roots|
          ensures base <= roots[i] < base + k && Nested(sp, a.nodes[k], a.nodes[roots[i] - base])
        {
          assert a.nodes[roots[i] - base] == NodeOf(t.children[i]);
        }
      }
    }
  }

  /** The arena of some trees, with their roots in order. */
  ghost predicate Rooted(sp: Space, r: (Arena, seq<nat>), base: nat, s: seq<Circ>) {
    && Arranged(sp, r.0, base)
    && |r.1| == |s|
    && forall i :: 0 <= i < |s| ==>
                     base <= r.1[i] < base + |r.0.nodes| && r.0.nodes[r.1[i] - base] == NodeOf(s[i])
  }

  lemma {:induction false} LayAllIsArranged(sp: Space, s: seq<Circ>, base: nat)
    requires forall i :: 0 <= i < |s| ==> CircPacking.CoversBelow(sp.dist, s[i]) && LeavesFit(sp, s[i])
    ensures Rooted(sp, LayAll(s, base), base, s)
    decreases s
  {
    if s != [] {
      hide Rooted, LeavesFit, Beside, Lay, Arranged, CircPacking.CoversBelow;
      var first := Lay(s[0], base);
      var others := LayAll(s[1..], base + |first.nodes|);
      LayIsArranged(sp, s[0], base);
      LayAllIsArranged(sp, s[1..], base + |first.nodes|);
      BesideIsRooted(sp, first, s[0], others, base, s[1..]);
      assert [s[0]] + s[1..] == s;
    }
  }

  lemma BesideIsRooted(sp: Space, first: Arena, t: Circ, others: (Arena, seq<nat>), base: nat, s: seq<Circ>)
    requires |first.nodes| > 0 && first.nodes[|first.nodes| - 1] == NodeOf(t) && Arranged(sp, first, base)
    requires |first.nodes| == |first.kids| && |others.0.nodes| == |others.0.kids|
    requires Rooted(sp, others, base + |first.nodes|, s)
    ensures Rooted(sp, Beside(first, others, base), base, [t] + s)
  {
    hide Arranged, NodeOf;
    Joined(sp, first, others.0, base);
    var r := Beside(first, others, base);
    forall i | 0 <= i < |[t] + s|
      ensures base <= r.1[i] < base + |r.0.nodes| && r.0.nodes[r.1[i] - base] == NodeOf(([t] + s)[i])
    {
      if i > 0 {
        assert r.1[i] == others.1[i - 1] && ([t] + s)[i] == s[i - 1];
      }
    }
  }

  lemma Joined(sp: Space, a: Arena, b: Arena, base: nat)
    requires Arranged(sp, a, base) && Arranged(sp, b, base + |a.nodes|)
    ensures Arranged(sp, Arena(a.nodes + b.nodes, a.kids + b.kids), base)
  {
    hide LeafFits, Nested;
    var r := Arena(a.nodes + b.nodes, a.kids + b.kids);
    forall k | 0 <= k < |r.nodes|
      ensures Fits(sp, r, base, k)
    {
      if k < |a.nodes| {
        assert Fits(sp, a, base, k);
      } else {
        assert Fits(sp, b, base + |a.nodes|, k - |a.nodes|);
      }
    }
  }

  /** A polygon contains only what lies in its disc. */
  ghost predicate ContainedInDisc(sp: Space, t: Tree) {
    forall k, g :: 0 <= k < |t.nodes| && t.nodes[k].geomType == POLYGONTYPE && t.contains(k, g) ==>
                     Holds(sp, t.nodes[k], g)
  }

  /** A tree whose nodes cover their children and whose leaves fit is one that the search
      finds the least distance in. */
  lemma LaidIsCovering(sp: Space, t: Circ, contains: (nat, Geo) -> bool)
    requires CircPacking.CoversBelow(sp.dist, t) && LeavesFit(sp, t)
    requires ContainedInDisc(sp, Laid(t, contains))
    ensures Covering(sp, Laid(t, contains))
  {
    hide LeafInDisc, Nested, Lay;
    LayIsArranged(sp, t, 0);
    var a, tree := Lay(t, 0), Laid(t, contains);
    forall k | 0 <= k < |tree.nodes|
      ensures tree.nodes[k].radius >= 0.0
      ensures forall i :: 0 <= i < |tree.kids[k]| ==>
                            tree.kids[k][i] < k && Nested(sp, tree.nodes[k], tree.nodes[tree.kids[k][i]])
      ensures IsLeaf(tree, k) ==> LeafFits(sp, tree.nodes[k])
    {
      assert Fits(sp, a, 0, k);
    }
  }

  // ----- packing

  lemma {:induction false} FitFromLeaves(sp: Space, t: Circ)
    requires forall l :: l in CircPacking.LeavesOf(t) ==> LeafFits(sp, NodeOf(l))
    ensures LeavesFit(sp, t)
    decreases t, 1
  {
    hide LeafFits;
    if t.children != [] {
      AllFitFromLeaves(sp, t, 0);
      assert t.children[0..] == t.children;
    } else {
      assert t in CircPacking.LeavesOf(t);
    }
  }

  lemma {:induction false} AllFitFromLeaves(sp: Space, t: Circ, i: nat)
    requires i <= |t.children|
    requires forall l :: l in CircPacking.LeavesOfAll(t.children[i..]) ==> LeafFits(sp, NodeOf(l))
    ensures forall j :: i <= j < |t.children| ==> LeavesFit(sp, t.children[j])
    decreases t, 0, |t.children| - i
  {
    hide LeafFits, LeavesFit;
    if i < |t.children| {
      var rest := t.children[i..];
      assert rest[0] == t.children[i] && rest[1..] == t.children[i + 1..];
      FitFromLeaves(sp, t.children[i]);
      AllFitFromLeaves(sp, t, i + 1);
    }
  }

  /** The type of a leaf does not matter to its disc. */
  lemma RetypedFits(sp: Space, t: Circ, kind: nat)
    requires CircPacking.CoversBelow(sp.dist, t) && LeavesFit(sp, t)
    requires t.children == [] ==> !IsCollection(kind)
    ensures CircPacking.CoversBelow(sp.dist, t.(geomType := kind)) && LeavesFit(sp, t.(geomType := kind))
  {
    hide IsCollection, Covers;
  }

  /** Packing trees that cover what is below them, with clean merges, and giving the result
      the type of the geometry makes a tree for the search, unless a single leaf gets the type
      of a collection. */
  lemma PackedIsCovering(sphere: CircPacking.Sphere, sp: Space, s: seq<Circ>, kind: nat, contains: (nat, Geo) -> bool)
    requires sp.dist == sphere.dist && IsMetric(sp.dist) && CircPacking.ProjectsStraight(sphere)
    requires s != [] && CircPacking.AllCoverBelow(sp.dist, s) && CircPacking.CleanPack(sphere, s)
    requires forall l :: l in CircPacking.LeavesOfAll(s) ==> LeafFits(sp, NodeOf(l))
    requires CircPacking.Pack(sphere, s).children == [] ==> !IsCollection(kind)
    requires ContainedInDisc(sp, Laid(CircPacking.Pack(sphere, s).(geomType := kind), contains))
    ensures Covering(sp, Laid(CircPacking.Pack(sphere, s).(geomType := kind), contains))
  {
    hide CircPacking.Pack, CircPacking.LeavesOfAll, Laid, LeafFits, Covering, ContainedInDisc;
    var packed := CircPacking.Pack(sphere, s);
    CircPacking.PackCovers(sphere, s);
    CircPacking.PackingConserves(sphere, s);
    FitFromLeaves(sp, packed);
    RetypedFits(sp, packed, kind);
    LaidIsCovering(sp, packed.(geomType := kind), contains);
  }

  // ----- types

  /** The arena lies in the tree, from its base on. */
  ghost predicate LiesIn(tree: Tree, a: Arena, base: nat) {
    && WellShaped(tree) && |a.nodes| == |a.kids| && base + |a.nodes| <= |tree.nodes|
    && forall k :: 0 <= k < |a.nodes| ==> tree.nodes[base + k] == a.nodes[k] && tree.kids[base + k] == a.kids[k]
  }

  lemma BesideLiesIn(tree: Tree, first: Arena, others: (Arena, seq<nat>), base: nat)
    requires |first.nodes| == |first.kids| > 0 && |others.0.nodes| == |others.0.kids|
    requires LiesIn(tree, Beside(first, others, base).0, base)
    ensures LiesIn(tree, first, base) && LiesIn(tree, others.0, base + |first.nodes|)
  {
    var r := Beside(first, others, base).0;
    assert forall k :: 0 <= k < |first.nodes| ==> r.nodes[k] == first.nodes[k] && r.kids[k] == first.kids[k];
    forall k | 0 <= k < |others.0.nodes|
      ensures tree.nodes[base + |first.nodes| + k] == others.0.nodes[k]
      ensures tree.kids[base + |first.nodes| + k] == others.0.kids[k]
    {
      assert r.nodes[|first.nodes| + k] == others.0.nodes[k] && r.kids[|first.nodes| + k] == others.0.kids[k];
    }
  }

  /** The root of a tree laid out, where the tree lies in another one. */
  lemma LaidRoot(tree: Tree, t: Circ, base: nat)
    requires LiesIn(tree, Lay(t, base), base)
    ensures var k := base + |Lay(t, base).nodes| - 1;
      && WellShaped(tree) && k < |tree.nodes|
      && tree.nodes[k] == NodeOf(t) && tree.kids[k] == LayAll(t.children, base).1
      && LiesIn(tree, LayAll(t.children, base).0, base)
  {
    hide LayAll;
    var a, below := Lay(t, base), LayAll(t.children, base);
    assert forall k :: 0 <= k < |below.0.nodes| ==> a.nodes[k] == below.0.nodes[k] && a.kids[k] == below.0.kids[k];
  }

  lemma {:induction false} LaidIsTypedAt(tree: Tree, t: Circ, base: nat)
    requires LiesIn(tree, Lay(t, base), base)
    ensures var k := base + |Lay(t, base).nodes| - 1;
      && k < |tree.nodes|
      && (CircPacking.PlainTree(t) ==> Plain(tree, k)) && (CircPacking.TypedTree(t) ==> Typed(tree, k))
    decreases t
  {
    hide LiesIn, Lay, LayAll;
    LaidRoot(tree, t, base);
    AllLaidAreTyped(tree, t.children, base);
  }

  lemma {:induction false} AllLaidAreTyped(tree: Tree, s: seq<Circ>, base: nat)
    requires WellShaped(tree) && LiesIn(tree, LayAll(s, base).0, base)
    ensures var roots := LayAll(s, base).1;
      forall i :: 0 <= i < |s| ==>
                    && roots[i] < |tree.nodes|
                    && (CircPacking.PlainTree(s[i]) ==> Plain(tree, roots[i]))
                    && (CircPacking.TypedTree(s[i]) ==> Typed(tree, roots[i]))
    decreases s
  {
    if s != [] {
      hide LiesIn, Lay, Plain, Typed, CircPacking.PlainTree, CircPacking.TypedTree;
      var first := Lay(s[0], base);
      var others := LayAll(s[1..], base + |first.nodes|);
      BesideLiesIn(tree, first, others, base);
      LaidIsTypedAt(tree, s[0], base);
      AllLaidAreTyped(tree, s[1..], base + |first.nodes|);
      forall i | 0 < i < |s|
        ensures LayAll(s, base).1[i] == others.1[i - 1] && s[i] == s[1..][i - 1]
      {
      }
    }
  }

  /** A tree of geometries is one for the search, at its root. */
  lemma LaidIsTyped(t: Circ, contains: (nat, Geo) -> bool)
    requires WellShaped(Laid(t, contains)) && CircPacking.TypedTree(t)
    ensures Typed(Laid(t, contains), |Laid(t, contains).nodes| - 1)
  {
    hide Lay, CircPacking.TypedTree, Typed;
    LaidIsTypedAt(Laid(t, contains), t, 0);
  }
}
