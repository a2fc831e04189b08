/** The union-find with path compression and union by size. */
module UnionFind {

  /** Parent links without cycles: every link that leaves its node lowers `depth`. */
  ghost predicate Forest(links: seq<nat>, depth: seq<nat>) {
    && |links| == |depth|
    && (forall i :: 0 <= i < |links| ==> links[i] < |links|)
    && (forall i :: 0 <= i < |links| ==> links[i] == i || depth[links[i]] < depth[i])
  }

  /** The end of the path of links from `i`. */
  ghost function Root(links: seq<nat>, depth: seq<nat>, i: nat): (r: nat)
    requires Forest(links, depth) && i < |links|
    ensures r < |links| && links[r] == r
    ensures r == i || depth[r] < depth[i]
    decreases depth[i]
  {
    if links[i] == i then i else Root(links, depth, links[i])
  }

  /** The representative of every element. */
  ghost function Representatives(links: seq<nat>, depth: seq<nat>): (reps: seq<nat>)
    requires Forest(links, depth)
    ensures |reps| == |links|
    ensures forall i :: 0 <= i < |reps| ==> reps[i] == Root(links, depth, i)
  {
    seq(|links|, i requires 0 <= i < |links| => Root(links, depth, i))
  }

  ghost function RootsOf(links: seq<nat>): set<nat> {
    set r | 0 <= r < |links| && links[r] == r
  }

  lemma {:induction false} AllRoots(n: nat)
    ensures |RootsOf(seq(n, i => i))| == n
  {
    if n > 0 {
      AllRoots(n - 1);
      assert RootsOf(seq(n, i => i)) == RootsOf(seq(n - 1, i => i)) + {n - 1};
    }
  }

  ghost function Class(reps: seq<nat>, r: nat): set<nat> {
    set x | 0 <= x < |reps| && reps[x] == r
  }

  /** The larger class keeps its representative, the lower one on a tie. */
  ghost function Winner(reps: seq<nat>, i: nat, j: nat): nat
    requires i < |reps| && j < |reps|
  {
    var a, b := reps[i], reps[j];
    if |Class(reps, a)| < |Class(reps, b)| || (|Class(reps, a)| == |Class(reps, b)| && a > b) then b else a
  }

  /** The partition after the classes of `i` and `j` have been joined under `w`. */
  ghost function Merged(reps: seq<nat>, i: nat, j: nat, w: nat): (r: seq<nat>)
    requires i < |reps| && j < |reps|
    ensures |r| == |reps|
    ensures forall x :: 0 <= x < |reps| ==> r[x] == if reps[x] == reps[i] || reps[x] == reps[j] then w else reps[x]
  {
    seq(|reps|, x requires 0 <= x < |reps| => if reps[x] == reps[i] || reps[x] == reps[j] then w else reps[x])
  }

  /** The partition after `UF_union(i, j)`. */
  ghost function Unioned(reps: seq<nat>, i: nat, j: nat): (r: seq<nat>)
    requires i < |reps| && j < |reps|
    ensures |r| == |reps|
  {
    if reps[i] == reps[j] then reps else Merged(reps, i, j, Winner(reps, i, j))
  }

  /** A union joins the two classes and nothing else. */
  lemma UnionJoinsTwoClasses(reps: seq<nat>, i: nat, j: nat, x: nat, y: nat)
    requires i < |reps| && j < |reps| && x < |reps| && y < |reps|
    ensures var r := Unioned(reps, i, j);
      r[x] == r[y] <==>
        || reps[x] == reps[y]
        || (reps[x] == reps[i] && reps[y] == reps[j])
        || (reps[x] == reps[j] && reps[y] == reps[i])
  {
  }

  /** Hanging `i` directly under its root changes no representative. */
  lemma {:induction false} CompressKeepsRoot(links: seq<nat>, depth: seq<nat>, i: nat, x: nat)
    requires Forest(links, depth) && i < |links| && x < |links|
    ensures var links' := links[i := Root(links, depth, i)];
      Forest(links', depth) && Root(links', depth, x) == Root(links, depth, x)
    decreases depth[x]
  {
    if links[x] != x {
      CompressKeepsRoot(links, depth, i, links[x]);
      if x == i && Root(links, depth, i) != i {
        CompressKeepsRoot(links, depth, i, Root(links, depth, i));
      }
    }
  }

  /** Depths for the forest in which root `a` has been hung under root `b`. */
  ghost function Deepened(links: seq<nat>, depth: seq<nat>, a: nat, b: nat): (d: seq<nat>)
    requires Forest(links, depth) && a < |links| && b < |links|
    ensures |d| == |depth|
  {
    seq(|depth|, x requires 0 <= x < |depth| =>
      if Root(links, depth, x) == a then depth[x] + depth[b] + 1 else depth[x])
  }

  lemma LinkKeepsForest(links: seq<nat>, depth: seq<nat>, a: nat, b: nat)
    requires Forest(links, depth) && a < |links| && b < |links| && a != b
    requires links[a] == a && links[b] == b
    ensures Forest(links[a := b], Deepened(links, depth, a, b))
  {
    assert Root(links, depth, b) == b;
  }

  /** Hanging root `a` under root `b` moves exactly the class of `a`. */
  lemma {:induction false} LinkMovesClass(links: seq<nat>, depth: seq<nat>, a: nat, b: nat, x: nat)
    requires Forest(links, depth) && a < |links| && b < |links| && a != b && x < |links|
    requires links[a] == a && links[b] == b
    ensures Forest(links[a := b], Deepened(links, depth, a, b))
    ensures Root(links[a := b], Deepened(links, depth, a, b), x)
         == if Root(links, depth, x) == a then b else Root(links, depth, x)
    decreases depth[x]
  {
    LinkKeepsForest(links, depth, a, b);
    if links[x] != x {
      LinkMovesClass(links, depth, a, b, links[x]);
    }
  }

  lemma LinkMerges(links: seq<nat>, depth: seq<nat>, a: nat, b: nat, i: nat, j: nat)
    requires Forest(links, depth) && a < |links| && b < |links| && a != b && i < |links| && j < |links|
    requires links[a] == a && links[b] == b
    requires {a, b} == {Root(links, depth, i), Root(links, depth, j)}
    ensures var depth' := Deepened(links, depth, a, b);
      && Forest(links[a := b], depth')
      && Representatives(links[a := b], depth') == Merged(Representatives(links, depth), i, j, b)
  {
    LinkKeepsForest(links, depth, a, b);
    var reps, reps' := Representatives(links, depth), Representatives(links[a := b], Deepened(links, depth, a, b));
    var ri, rj := Root(links, depth, i), Root(links, depth, j);
    assert (ri == a && rj == b) || (ri == b && rj == a) by {
      assert a in {ri, rj} && b in {ri, rj};
    }
    forall x | 0 <= x < |links|
      ensures reps'[x] == Merged(reps, i, j, b)[x]
    {
      LinkMovesClass(links, depth, a, b, x);
    }
  }

  lemma MergedClasses(reps: seq<nat>, i: nat, j: nat, r: nat)
    requires i < |reps| && j < |reps| && reps[i] != reps[j]
    ensures var w := Winner(reps, i, j); var m := Merged(reps, i, j, w);
      if r == w then
        Class(m, r) == Class(reps, reps[i]) + Class(reps, reps[j])
         && |Class(m, r)| == |Class(reps, reps[i])| + |Class(reps, reps[j])|
      else if r == reps[i] || r == reps[j] then Class(m, r) == {}
      else Class(m, r) == Class(reps, r)
  {
    assert Class(reps, reps[i]) !! Class(reps, reps[j]);
  }

  /** `sizes` holds the class size at every root. */
  ghost predicate SizesRight(links: seq<nat>, sizes: seq<nat>, reps: seq<nat>) {
    && |sizes| == |links|
    && forall r :: 0 <= r < |links| && links[r] == r ==> sizes[r] == |Class(reps, r)|
  }

  lemma LinkKeepsSizes(links: seq<nat>, sizes: seq<nat>, reps: seq<nat>, i: nat, j: nat, a: nat, b: nat)
    requires |links| == |reps| && i < |reps| && j < |reps| && a < |reps| && b < |reps| && a != b
    requires links[a] == a && links[b] == b && {a, b} == {reps[i], reps[j]} && Winner(reps, i, j) == b
    requires SizesRight(links, sizes, reps)
    ensures SizesRight(links[a := b], sizes[b := sizes[a] + sizes[b]][a := 0], Merged(reps, i, j, b))
  {
    assert (reps[i] == a && reps[j] == b) || (reps[i] == b && reps[j] == a) by {
      assert a in {reps[i], reps[j]} && b in {reps[i], reps[j]};
    }
    forall r | 0 <= r < |links| && links[a := b][r] == r
      ensures sizes[b := sizes[a] + sizes[b]][a := 0][r] == |Class(Merged(reps, i, j, b), r)|
    {
      assert links[r] == r && r != a;
      MergedClasses(reps, i, j, r);
    }
  }

  /** A root that is hung under another is the only one that stops being a root. */
  lemma LinkRemovesRoot(links: seq<nat>, a: nat, b: nat)
    requires a < |links| && b < |links| && a != b && links[a] == a
    ensures RootsOf(links[a := b]) == RootsOf(links) - {a}
    ensures |RootsOf(links[a := b])| == |RootsOf(links)| - 1
  {
    assert a in RootsOf(links);
  }

  class UnionFind {
    const N: nat
    const clusters: array<nat>
    const clusterSizes: array<nat>
    var numClusters: nat
    ghost var depth: seq<nat>

    ghost predicate Valid()
      reads this, clusters, clusterSizes
    {
      && clusters.Length == clusterSizes.Length == N && clusters != clusterSizes
      && Forest(clusters[..], depth)
      && SizesRight(clusters[..], clusterSizes[..], Reps())
      && numClusters == |Roots()|
    }

    /** The partition this object stands for: the representative of every element. */
    ghost function Reps(): (reps: seq<nat>)
      requires Forest(clusters[..], depth)
      reads this, clusters
    {
      Representatives(clusters[..], depth)
    }

    /** Every element starts out alone. */
    constructor (n: nat)
      ensures Valid() && N == n && numClusters == n
      ensures fresh(clusters) && fresh(clusterSizes)
      ensures Reps() == seq(n, i => i)
    {
      N := n;
      clusters := new nat[n](i => i);
      clusterSizes := new nat[n](_ => 1);
      numClusters := n;
      depth := seq(n, _ => 0);
      new;
      forall r | 0 <= r < n
        ensures |Class(Reps(), r)| == 1
      {
        assert Class(Reps(), r) == {r};
      }
      AllRoots(n);
      assert clusters[..] == seq(n, i => i);
    }

    ghost function Roots(): set<nat>
      reads this, clusters
    {
      RootsOf(clusters[..])
    }

    /** Hangs `i` directly under its root. */
    method Compress(i: nat, base: nat)
      requires Valid() && i < N && Reps()[i] == base && i != base
      modifies clusters
      ensures Valid() && Reps() == old(Reps())
    {
      ghost var links := clusters[..];
      clusters[i] := base;
      assert clusters[..] == links[i := Root(links, depth, i)];
      forall x | 0 <= x < N
        ensures Forest(clusters[..], depth) && Root(clusters[..], depth, x) == Root(links, depth, x)
      {
        CompressKeepsRoot(links, depth, i, x);
      }
      assert Reps() == Representatives(links, depth);
      assert Roots() == old(Roots());
    }

    /** Follows the links to the root, then hangs every node on the way under it. */
    method Find(i0: nat) returns (i: nat)
      requires Valid() && i0 < N
      modifies clusters
      ensures Valid() && Reps() == old(Reps())
      ensures i == Reps()[i0]
    {
      i := i0;
      var base: nat := i;
      while clusters[base] != base
        invariant clusters[..] == old(clusters[..])
        invariant base < N && Reps()[base] == Reps()[i0]
        decreases depth[base]
      {
        base := clusters[base];
      }
      while i != base
        invariant Valid() && Reps() == old(Reps())
        invariant i < N && Reps()[i] == base
        decreases depth[i]
      {
        var next: nat := clusters[i];
        Compress(i, base);
        i := next;
      }
    }

    /** Joins two classes; the larger keeps its representative, the lower one on a tie. */
    method Union(i: nat, j: nat)
      requires Valid() && i < N && j < N
      modifies this, clusters, clusterSizes
      ensures Valid()
      ensures Reps() == Unioned(old(Reps()), i, j)
      ensures numClusters == old(numClusters) - if old(Reps()[i] == Reps()[j]) then 0 else 1
    {
      var a := Find(i);
      var b := Find(j);
      if a == b {
        return;
      }
      if clusterSizes[a] < clusterSizes[b] || (clusterSizes[a] == clusterSizes[b] && a > b) {
        Link(a, b, i, j);
      } else {
        Link(b, a, i, j);
      }
    }

    /** Hangs root `a` under root `b`; they represent `i` and `j`, one each. */
    method Link(a: nat, b: nat, ghost i: nat, ghost j: nat)
      requires Valid() && i < N && j < N && a < N && b < N && a != b
      requires {a, b} == {Reps()[i], Reps()[j]} && Winner(Reps(), i, j) == b
      modifies this, clusters, clusterSizes
      ensures Valid()
      ensures Reps() == Merged(old(Reps()), i, j, b) && numClusters == old(numClusters) - 1
    {
      ghost var links, reps, was, sizes := clusters[..], Reps(), depth, clusterSizes[..];
      assert Root(links, was, a) == a && Root(links, was, b) == b;
      LinkRemovesRoot(links, a, b);
      hide Root, Representatives, Deepened, Merged, Class, Winner, SizesRight, RootsOf;
      clusters[a] := clusters[b];
      clusterSizes[b] := clusterSizes[b] + clusterSizes[a];
      clusterSizes[a] := 0;
      numClusters := numClusters - 1;
      depth := Deepened(links, was, a, b);
      assert clusters[..] == links[a := b];
      assert clusterSizes[..] == sizes[b := sizes[a] + sizes[b]][a := 0];
      hide Forest;
      LinkMerges(links, was, a, b, i, j);
      LinkKeepsSizes(links, sizes, reps, i, j, a, b);
    }
  }
}
