/** Density-based clustering of points over a union-find. */
module Dbscan {
  import opened Common
  import opened UF = UnionFind

  /** What the clustering sees of its geometries.  `mindist` is FLT_MAX when a distance
      cannot be computed; `query` lists candidates for the neighbours of a geometry and
      may fail. */
  datatype Input = Input(n: nat, isEmpty: nat -> bool, mindist: (nat, nat) -> real, eps: real,
                         query: nat -> Option<seq<nat>>)

  ghost predicate Within(inp: Input, p: nat, q: nat) {
    inp.mindist(p, q) != FLT_MAX && inp.mindist(p, q) <= inp.eps
  }

  ghost predicate Distinct(s: seq<nat>) {
    forall a, b :: 0 <= a < b < |s| ==> s[a] != s[b]
  }

  /** Being within the distance is symmetric, holds of every non-empty geometry and itself
      and never of an empty one; a query that succeeds lists no geometry twice and misses
      none that is within the distance. */
  ghost predicate ValidInput(inp: Input) {
    && (forall p, q :: 0 <= p < inp.n && 0 <= q < inp.n && Within(inp, p, q) ==> Within(inp, q, p) && !inp.isEmpty(p))
    && (forall p :: 0 <= p < inp.n && !inp.isEmpty(p) ==> Within(inp, p, p))
    && forall p :: 0 <= p < inp.n && inp.query(p).Some? ==> Answers(inp, p, inp.query(p).value)
  }

  ghost predicate Answers(inp: Input, p: nat, items: seq<nat>) {
    && Distinct(items)
    && (forall k :: 0 <= k < |items| ==> items[k] < inp.n)
    && (forall q :: 0 <= q < inp.n && Within(inp, p, q) ==> q in items)
  }

  /** The candidates of a geometry cannot be listed, or its distance to one of them cannot be
      computed. */
  ghost predicate Unavailable(inp: Input, p: nat) {
    && p < inp.n && !inp.isEmpty(p)
    && (inp.query(p).None? || exists q :: q in inp.query(p).value && inp.mindist(p, q) == FLT_MAX)
  }

  ghost function Neighbours(inp: Input, p: nat): set<nat> {
    set q | 0 <= q < inp.n && Within(inp, p, q)
  }

  /** A core point has at least `minPoints` points within the distance, itself included. */
  ghost predicate Core(inp: Input, minPoints: nat, p: nat) {
    |Neighbours(inp, p)| >= minPoints
  }

  ghost function Cores(inp: Input, minPoints: nat, bound: nat): set<nat> {
    set c | 0 <= c < bound && Core(inp, minPoints, c)
  }

  ghost predicate Hop(inp: Input, path: seq<nat>, k: nat)
    requires 0 < k < |path|
  {
    Within(inp, path[k - 1], path[k])
  }

  ghost predicate Path(inp: Input, K: set<nat>, path: seq<nat>, x: nat, y: nat) {
    && |path| > 0 && path[0] == x && path[|path| - 1] == y
    && (forall k :: 0 <= k < |path| ==> path[k] in K)
    && (forall k :: 0 < k < |path| ==> Hop(inp, path, k))
  }

  /** A chain of points of `K`, each within the distance of the next, joins `x` to `y`. */
  ghost predicate Connected(inp: Input, K: set<nat>, x: nat, y: nat) {
    exists path :: Path(inp, K, path, x, y)
  }

  lemma ConnectedSelf(inp: Input, K: set<nat>, x: nat)
    requires x in K
    ensures Connected(inp, K, x, x)
  {
    assert Path(inp, K, [x], x, x);
  }

  lemma ConnectedHop(inp: Input, K: set<nat>, x: nat, y: nat)
    requires x in K && y in K && Within(inp, x, y)
    ensures Connected(inp, K, x, y)
  {
    var path := [x, y];
    assert Hop(inp, path, 1);
    assert Path(inp, K, path, x, y);
  }

  lemma ConnectedTrans(inp: Input, K: set<nat>, x: nat, y: nat, z: nat)
    requires Connected(inp, K, x, y) && Connected(inp, K, y, z)
    ensures Connected(inp, K, x, z)
  {
    var a :| Path(inp, K, a, x, y);
    var b :| Path(inp, K, b, y, z);
    var path := a + b[1..];
    forall k | 0 < k < |path|
      ensures Hop(inp, path, k)
    {
      if k < |a| {
        assert Hop(inp, a, k);
      } else {
        assert Hop(inp, b, k - |a| + 1);
      }
    }
    assert Path(inp, K, path, x, z);
  }

  lemma ConnectedGrows(inp: Input, K: set<nat>, K': set<nat>, x: nat, y: nat)
    requires K <= K' && Connected(inp, K, x, y)
    ensures Connected(inp, K', x, y)
  {
    var path :| Path(inp, K, path, x, y);
    assert Path(inp, K', path, x, y);
  }

  lemma ConnectedSym(inp: Input, K: set<nat>, x: nat, y: nat)
    requires ValidInput(inp) && (forall c :: c in K ==> c < inp.n)
    requires Connected(inp, K, x, y)
    ensures Connected(inp, K, y, x)
  {
    var path :| Path(inp, K, path, x, y);
    var back := seq(|path|, k requires 0 <= k < |path| => path[|path| - 1 - k]);
    forall k | 0 < k < |back|
      ensures Hop(inp, back, k)
    {
      assert Hop(inp, path, |path| - k);
      assert path[|path| - k] in K && path[|path| - k - 1] in K;
    }
    assert Path(inp, K, back, y, x);
  }

  /** Points whose neighbouring pairs agree on a value agree along every chain. */
  lemma {:induction false} AgreeAlongPath(inp: Input, K: set<nat>, reps: seq<nat>, path: seq<nat>, x: nat, y: nat)
    requires (forall c :: c in K ==> c < |reps|) && Path(inp, K, path, x, y)
    requires forall a, b :: a in K && b in K && Within(inp, a, b) ==> reps[a] == reps[b]
    ensures x in K && y in K && reps[x] == reps[y]
    decreases |path|
  {
    if |path| > 1 {
      var m := |path| - 1;
      var init := path[..m];
      forall k | 0 < k < |init|
        ensures Hop(inp, init, k)
      {
        assert Hop(inp, path, k);
      }
      assert Hop(inp, path, m);
      AgreeAlongPath(inp, K, reps, init, x, path[m - 1]);
    }
  }

  /** Some core of `K` within the distance of `x` lies in the class of `x`. */
  ghost predicate Attached(inp: Input, K: set<nat>, reps: seq<nat>, x: nat)
    requires x < |reps|
  {
    exists c :: c in K && c < |reps| && Within(inp, c, x) && reps[c] == reps[x]
  }

  ghost predicate Shaped(inp: Input, K: set<nat>, inC: seq<bool>, reps: seq<nat>) {
    && |inC| == |reps| == inp.n
    && forall c :: c in K ==> c < inp.n && Within(inp, c, c)
  }

  /** What a partition owes to the cores `K` whatever has been compared so far: members
      hang on a core, cores share a class only along a chain, and the rest are alone. */
  ghost predicate Sound(inp: Input, K: set<nat>, inC: seq<bool>, reps: seq<nat>)
    requires Shaped(inp, K, inC, reps)
  {
    && (forall x :: 0 <= x < inp.n && inC[x] ==> Attached(inp, K, reps, x))
    && Separated(inp, K, reps)
    && (forall x, y :: 0 <= x < inp.n && 0 <= y < inp.n && !inC[x] && reps[x] == reps[y] ==> x == y)
  }

  /** Cores share a class only along a chain. */
  ghost predicate Separated(inp: Input, K: set<nat>, reps: seq<nat>) {
    forall a, b :: a in K && b in K && a < |reps| && b < |reps| && reps[a] == reps[b] ==> Connected(inp, K, a, b)
  }

  /** The clustering by the cores `K` alone. */
  ghost predicate Clustered(inp: Input, K: set<nat>, inC: seq<bool>, reps: seq<nat>) {
    && Shaped(inp, K, inC, reps) && Sound(inp, K, inC, reps)
    && (forall c, x :: c in K && 0 <= x < inp.n && Within(inp, c, x) ==> inC[x])
    && (forall a, b :: a in K && b in K && Within(inp, a, b) ==> reps[a] == reps[b])
  }

  /** The clustering while core `p` is being compared with its neighbours, of which those
      in `done` have been dealt with. */
  ghost predicate Partial(inp: Input, K: set<nat>, p: nat, done: set<nat>, inC: seq<bool>, reps: seq<nat>) {
    && Shaped(inp, K, inC, reps) && Sound(inp, K, inC, reps)
    && p in K && inC[p]
    && (forall c, x :: c in K && 0 <= x < inp.n && Within(inp, c, x) && (c != p || x in done) ==> inC[x])
    && (forall a, b :: a in K && b in K && Within(inp, a, b) && a != p && b != p ==> reps[a] == reps[b])
    && (forall b :: b in K && Within(inp, p, b) && b in done ==> reps[p] == reps[b])
  }

  lemma NothingClustered(inp: Input)
    ensures Clustered(inp, {}, seq(inp.n, _ => false), seq(inp.n, i => i))
  {
  }

  /** A chain to a neighbour of `p` extends to `p`. */
  lemma ConnectedNext(inp: Input, K: set<nat>, p: nat, c: nat, a: nat)
    requires ValidInput(inp) && (forall x :: x in K ==> x < inp.n) && p < inp.n
    requires Connected(inp, K, a, c) && c in K && Within(inp, c, p)
    ensures Connected(inp, K + {p}, a, p) && Connected(inp, K + {p}, p, a)
  {
    ConnectedGrows(inp, K, K + {p}, a, c);
    ConnectedHop(inp, K + {p}, c, p);
    ConnectedTrans(inp, K + {p}, a, c, p);
    ConnectedSym(inp, K + {p}, a, p);
  }

  lemma NewCoreSeparated(inp: Input, K: set<nat>, p: nat, inC: seq<bool>, reps: seq<nat>)
    requires ValidInput(inp) && Shaped(inp, K, inC, reps) && Sound(inp, K, inC, reps)
    requires forall a :: a in K ==> inC[a]
    requires p < inp.n && p !in K && Within(inp, p, p)
    ensures Separated(inp, K + {p}, reps)
  {
    var K' := K + {p};
    assert inC[p] ==> Attached(inp, K, reps, p);
    hide ValidInput, Connected;
    forall a, b | a in K' && b in K' && reps[a] == reps[b]
      ensures Connected(inp, K', a, b)
    {
      if a == b {
        ConnectedSelf(inp, K', a);
      } else if a != p && b != p {
        ConnectedGrows(inp, K, K', a, b);
      } else {
        assert inC[p];
        var c :| c in K && c < |reps| && Within(inp, c, p) && reps[c] == reps[p];
        ConnectedNext(inp, K, p, c, if a == p then b else a);
      }
    }
  }

  /** A point found to be a core joins the cores; nothing else needs to change. */
  lemma CoreFound(inp: Input, K: set<nat>, p: nat, inC: seq<bool>, reps: seq<nat>)
    requires ValidInput(inp) && Clustered(inp, K, inC, reps)
    requires p < inp.n && p !in K && Within(inp, p, p)
    ensures Partial(inp, K + {p}, p, {}, inC[p := true], reps)
  {
    hide ValidInput, Clustered, Sound, Within, Shaped, Partial;
    ClusteredShape(inp, K, inC, reps);
    CoreIsSound(inp, K, p, inC, reps);
    OthersCompared(inp, K, p, inC, reps);
    NothingCompared(inp, K + {p}, p, inC[p := true], reps);
  }

  lemma ClusteredShape(inp: Input, K: set<nat>, inC: seq<bool>, reps: seq<nat>)
    requires Clustered(inp, K, inC, reps)
    ensures |inC| == |reps| == inp.n
  {
  }

  /** The neighbours of every core but `p` have been dealt with. */
  ghost predicate ComparedBut(inp: Input, K: set<nat>, p: nat, inC: seq<bool>, reps: seq<nat>)
    requires Shaped(inp, K, inC, reps)
  {
    && (forall c, x :: c in K && 0 <= x < inp.n && Within(inp, c, x) && c != p ==> inC[x])
    && (forall a, b :: a in K && b in K && Within(inp, a, b) && a != p && b != p ==> reps[a] == reps[b])
  }

  lemma OthersCompared(inp: Input, K: set<nat>, p: nat, inC: seq<bool>, reps: seq<nat>)
    requires Clustered(inp, K, inC, reps) && p < inp.n && Within(inp, p, p)
    ensures ComparedBut(inp, K + {p}, p, inC[p := true], reps)
  {
    hide Sound, Within;
  }

  lemma NothingCompared(inp: Input, K: set<nat>, p: nat, inC: seq<bool>, reps: seq<nat>)
    requires Shaped(inp, K, inC, reps) && Sound(inp, K, inC, reps) && p in K && inC[p]
    requires ComparedBut(inp, K, p, inC, reps)
    ensures Partial(inp, K, p, {}, inC, reps)
  {
    hide Sound, Within;
  }

  lemma CoreIsSound(inp: Input, K: set<nat>, p: nat, inC: seq<bool>, reps: seq<nat>)
    requires ValidInput(inp) && Clustered(inp, K, inC, reps)
    requires p < inp.n && p !in K && Within(inp, p, p)
    ensures Shaped(inp, K + {p}, inC[p := true], reps) && Sound(inp, K + {p}, inC[p := true], reps)
  {
    hide ValidInput, Connected, Separated;
    var K', inC' := K + {p}, inC[p := true];
    NewCoreSeparated(inp, K, p, inC, reps);
    forall x | 0 <= x < inp.n && inC'[x]
      ensures Attached(inp, K', reps, x)
    {
      if x == p {
        assert p in K' && Within(inp, p, p);
      } else {
        AttachedGrows(inp, K, K', reps, x);
      }
    }
  }

  lemma AttachedGrows(inp: Input, K: set<nat>, K': set<nat>, reps: seq<nat>, x: nat)
    requires x < |reps| && Attached(inp, K, reps, x) && K <= K'
    ensures Attached(inp, K', reps, x)
  {
  }

  /** A neighbour that needs no union. */
  lemma NeighbourSkipped(inp: Input, K: set<nat>, p: nat, done: set<nat>, q: nat, inC: seq<bool>, reps: seq<nat>)
    requires Partial(inp, K, p, done, inC, reps) && q < inp.n
    requires !Within(inp, p, q) || reps[p] == reps[q] || (inC[q] && q !in K)
    ensures Partial(inp, K, p, done + {q}, inC, reps)
  {
  }

  /** `reps'` is `reps` with the classes of `p` and `q` joined. */
  ghost predicate Joins(reps: seq<nat>, p: nat, q: nat, reps': seq<nat>)
    requires p < |reps| && q < |reps|
  {
    && |reps'| == |reps|
    && forall x, y :: 0 <= x < |reps| && 0 <= y < |reps| ==>
         (reps'[x] == reps'[y] <==>
           || reps[x] == reps[y]
           || (reps[x] == reps[p] && reps[y] == reps[q])
           || (reps[x] == reps[q] && reps[y] == reps[p]))
  }

  lemma UnionedJoins(reps: seq<nat>, p: nat, q: nat)
    requires p < |reps| && q < |reps|
    ensures Joins(reps, p, q, Unioned(reps, p, q))
  {
    forall x, y | 0 <= x < |reps| && 0 <= y < |reps| {
      UnionJoinsTwoClasses(reps, p, q, x, y);
    }
  }

  lemma JoinedAttached(inp: Input, K: set<nat>, p: nat, q: nat, inC: seq<bool>, reps: seq<nat>, reps': seq<nat>, x: nat)
    requires Shaped(inp, K, inC, reps) && Sound(inp, K, inC, reps)
    requires p in K && q < inp.n && Within(inp, p, q)
    requires Joins(reps, p, q, reps')
    requires x < inp.n && inC[q := true][x]
    ensures Attached(inp, K, reps', x)
  {
    if inC[x] {
      assert Attached(inp, K, reps, x);
    } else {
      assert Within(inp, p, x) && reps'[p] == reps'[x];
    }
  }

  lemma JoinedSeparated(inp: Input, K: set<nat>, p: nat, q: nat, inC: seq<bool>, reps: seq<nat>, reps': seq<nat>)
    requires ValidInput(inp) && Shaped(inp, K, inC, reps) && Sound(inp, K, inC, reps)
    requires forall a :: a in K ==> inC[a]
    requires p in K && q < inp.n && Within(inp, p, q) && (inC[q] ==> q in K)
    requires Joins(reps, p, q, reps')
    ensures Separated(inp, K, reps')
  {
    forall a, b | a in K && b in K && reps[a] == reps[p] && reps[b] == reps[q]
      ensures Connected(inp, K, a, b) && Connected(inp, K, b, a)
    {
      assert inC[q] by {
        assert !inC[q] ==> q == b;
      }
      ConnectedHop(inp, K, p, q);
      ConnectedTrans(inp, K, a, p, q);
      ConnectedTrans(inp, K, a, q, b);
      ConnectedSym(inp, K, a, b);
    }
  }

  /** Joining `p` with a neighbour that is a known core or was still alone. */
  lemma NeighbourJoined(inp: Input, K: set<nat>, p: nat, done: set<nat>, q: nat, inC: seq<bool>, reps: seq<nat>)
    requires ValidInput(inp) && Partial(inp, K, p, done, inC, reps) && q < inp.n
    requires Within(inp, p, q) && (inC[q] ==> q in K)
    ensures Partial(inp, K, p, done + {q}, inC[q := true], Unioned(reps, p, q))
  {
    hide ValidInput, Connected, Separated, Unioned, Attached;
    var inC', reps' := inC[q := true], Unioned(reps, p, q);
    forall a | a in K
      ensures inC[a]
    {
      assert Within(inp, a, a);
    }
    UnionedJoins(reps, p, q);
    JoinedSeparated(inp, K, p, q, inC, reps, reps');
    forall x | 0 <= x < inp.n && inC'[x]
      ensures Attached(inp, K, reps', x)
    {
      JoinedAttached(inp, K, p, q, inC, reps, reps', x);
    }
  }

  lemma AllCompared(inp: Input, K: set<nat>, p: nat, done: set<nat>, inC: seq<bool>, reps: seq<nat>)
    requires ValidInput(inp) && Partial(inp, K, p, done, inC, reps)
    requires forall q :: 0 <= q < inp.n && Within(inp, p, q) ==> q in done
    ensures Clustered(inp, K, inC, reps)
  {
  }

  /** The clusters promised: chains of cores, the points hanging on them, and the rest. */
  ghost predicate DensityClusters(inp: Input, minPoints: nat, inC: seq<bool>, reps: seq<nat>) {
    var K := Cores(inp, minPoints, inp.n);
    && |inC| == |reps| == inp.n
    && (forall a, b :: a in K && b in K ==> (reps[a] == reps[b] <==> Connected(inp, K, a, b)))
    && (forall x :: 0 <= x < inp.n ==> (inC[x] <==> exists c :: c in K && Within(inp, c, x)))
    && (forall x :: 0 <= x < inp.n && inC[x] ==> Attached(inp, K, reps, x))
    && (forall x, y :: 0 <= x < inp.n && 0 <= y < inp.n && !inC[x] && reps[x] == reps[y] ==> x == y)
  }

  lemma ClusteredByAllCores(inp: Input, minPoints: nat, inC: seq<bool>, reps: seq<nat>)
    requires ValidInput(inp) && Clustered(inp, Cores(inp, minPoints, inp.n), inC, reps)
    ensures DensityClusters(inp, minPoints, inC, reps)
  {
    var K := Cores(inp, minPoints, inp.n);
    forall a, b | a in K && b in K && Connected(inp, K, a, b)
      ensures reps[a] == reps[b]
    {
      var path :| Path(inp, K, path, a, b);
      AgreeAlongPath(inp, K, reps, path, a, b);
    }
    forall x | 0 <= x < inp.n && inC[x]
      ensures exists c :: c in K && Within(inp, c, x)
    {
      assert Attached(inp, K, reps, x);
    }
  }

  ghost function Elems(s: seq<nat>): set<nat> {
    set x | x in s
  }

  lemma {:induction false} DistinctCount(s: seq<nat>)
    requires Distinct(s)
    ensures |Elems(s)| == |s|
  {
    if s != [] {
      var init := s[..|s| - 1];
      DistinctCount(init);
      assert Elems(s) == Elems(init) + {s[|s| - 1]};
    }
  }

  lemma SubsetCount(a: set<nat>, b: set<nat>)
    requires a <= b
    ensures |a| <= |b|
  {
    assert b == a + (b - a);
  }

  /** `found` lists the neighbours of `p` among `seen`, each once. */
  ghost predicate Collected(inp: Input, p: nat, seen: seq<nat>, found: seq<nat>) {
    && Distinct(found)
    && (forall k :: 0 <= k < |found| ==> found[k] in seen && found[k] < inp.n && Within(inp, p, found[k]))
    && (forall q :: q in seen && Within(inp, p, q) ==> q in found)
  }

  lemma CollectedEnough(inp: Input, minPoints: nat, p: nat, seen: seq<nat>, found: seq<nat>)
    requires Collected(inp, p, seen, found) && |found| >= minPoints
    ensures Core(inp, minPoints, p)
  {
    DistinctCount(found);
    SubsetCount(Elems(found), Neighbours(inp, p));
  }

  lemma CollectedTooFew(inp: Input, minPoints: nat, p: nat, items: seq<nat>, found: seq<nat>)
    requires Answers(inp, p, items) && Collected(inp, p, items, found) && |found| < minPoints
    ensures !Core(inp, minPoints, p)
  {
    DistinctCount(found);
    SubsetCount(Neighbours(inp, p), Elems(found));
  }

  lemma TooFewCandidates(inp: Input, minPoints: nat, p: nat, items: seq<nat>)
    requires Answers(inp, p, items) && |items| < minPoints
    ensures !Core(inp, minPoints, p)
  {
    DistinctCount(items);
    SubsetCount(Neighbours(inp, p), Elems(items));
  }

  lemma EmptyIsNoCore(inp: Input, minPoints: nat, p: nat)
    requires ValidInput(inp) && p < inp.n && inp.isEmpty(p) && minPoints > 0
    ensures !Core(inp, minPoints, p)
  {
    assert Neighbours(inp, p) == {};
  }

  lemma CoresNext(inp: Input, minPoints: nat, p: nat)
    ensures Cores(inp, minPoints, p + 1) ==
            if Core(inp, minPoints, p) then Cores(inp, minPoints, p) + {p} else Cores(inp, minPoints, p)
  {
  }

  /** `core` flags exactly the points of `K`. */
  ghost predicate Flagged(n: nat, core: seq<bool>, K: set<nat>) {
    |core| == n && forall x :: 0 <= x < n ==> (core[x] <==> x in K)
  }

  /** The union-find and the flag arrays of a run are separate objects over `n` points. */
  ghost predicate Separate(
    n: nat, uf: UnionFind, neighbours: array<nat>, isInCore: array<bool>, inACluster: array<bool>)
    reads uf
  {
    && uf.N == isInCore.Length == inACluster.Length == n
    && isInCore != inACluster
    && neighbours != uf.clusters && neighbours != uf.clusterSizes
  }

  /** Joins the classes of `p` and `q` unless `q` is a border point of another cluster. */
  method UnionIfAvailable(uf: UnionFind, p: nat, q: nat, isInCore: array<bool>, inACluster: array<bool>)
    requires uf.Valid() && uf.N == isInCore.Length == inACluster.Length && isInCore != inACluster
    requires p < uf.N && q < uf.N
    modifies uf, uf.clusters, uf.clusterSizes, inACluster
    ensures uf.Valid()
    ensures if old(inACluster[q]) && !isInCore[q] then
              uf.Reps() == old(uf.Reps()) && inACluster[..] == old(inACluster[..])
            else
              uf.Reps() == Unioned(old(uf.Reps()), p, q) && inACluster[..] == old(inACluster[..])[q := true]
  {
    if inACluster[q] {
      if isInCore[q] {
        uf.Union(p, q);
      }
    } else {
      uf.Union(p, q);
      inACluster[q] := true;
    }
  }

  /** Deals with one neighbour of a known core. */
  method TakeNeighbour(inp: Input, ghost K: set<nat>, uf: UnionFind, p: nat, q: nat, ghost done: set<nat>,
                       isInCore: array<bool>, inACluster: array<bool>)
    requires ValidInput(inp) && uf.Valid() && uf.N == isInCore.Length == inACluster.Length == inp.n
    requires isInCore != inACluster && p < inp.n && q < inp.n && Within(inp, p, q)
    requires Flagged(inp.n, isInCore[..], K)
    requires Partial(inp, K, p, done, inACluster[..], uf.Reps())
    modifies uf, uf.clusters, uf.clusterSizes, inACluster
    ensures uf.Valid() && Partial(inp, K, p, done + {q}, inACluster[..], uf.Reps())
  {
    hide ValidInput, Within;
    if inACluster[q] && !isInCore[q] {
      NeighbourSkipped(inp, K, p, done, q, inACluster[..], uf.Reps());
    } else {
      NeighbourJoined(inp, K, p, done, q, inACluster[..], uf.Reps());
    }
    UnionIfAvailable(uf, p, q, isInCore, inACluster);
  }

  /** Flags `p` as a core and as a member of a cluster. */
  method MarkCore(inp: Input, ghost K: set<nat>, uf: UnionFind, p: nat, isInCore: array<bool>, inACluster: array<bool>)
    requires ValidInput(inp) && uf.Valid() && uf.N == isInCore.Length == inACluster.Length == inp.n
    requires isInCore != inACluster && p < inp.n && p !in K && Within(inp, p, p)
    requires Clustered(inp, K, inACluster[..], uf.Reps())
    modifies inACluster, isInCore
    ensures Partial(inp, K + {p}, p, {}, inACluster[..], uf.Reps())
    ensures isInCore[..] == old(isInCore[..])[p := true]
  {
    CoreFound(inp, K, p, inACluster[..], uf.Reps());
    isInCore[p] := true;
    inACluster[p] := true;
  }

  /** `p` has turned out to be a core: joins the neighbours set aside so far. */
  method FlushNeighbours(inp: Input, ghost K: set<nat>, uf: UnionFind, p: nat, neighbours: array<nat>, num: nat,
                         isInCore: array<bool>, inACluster: array<bool>)
    requires ValidInput(inp) && uf.Valid() && Separate(inp.n, uf, neighbours, isInCore, inACluster)
    requires p < inp.n && p !in K && num <= neighbours.Length && Within(inp, p, p)
    requires forall j :: 0 <= j < num ==> neighbours[j] < inp.n && Within(inp, p, neighbours[j])
    requires Flagged(inp.n, isInCore[..], K)
    requires Clustered(inp, K, inACluster[..], uf.Reps())
    modifies uf, uf.clusters, uf.clusterSizes, inACluster, isInCore
    ensures uf.Valid() && Partial(inp, K + {p}, p, Elems(neighbours[..num]), inACluster[..], uf.Reps())
    ensures isInCore[..] == old(isInCore[..])[p := true] && neighbours[..] == old(neighbours[..])
  {
    hide Partial, Clustered, ValidInput, Within;
    MarkCore(inp, K, uf, p, isInCore, inACluster);
    assert Elems(neighbours[..0]) == {};
    for j := 0 to num
      invariant uf.Valid() && isInCore[..] == old(isInCore[..])[p := true]
      invariant neighbours[..] == old(neighbours[..])
      invariant Partial(inp, K + {p}, p, Elems(neighbours[..j]), inACluster[..], uf.Reps())
    {
      assert Elems(neighbours[..j + 1]) == Elems(neighbours[..j]) + {neighbours[j]};
      TakeNeighbour(inp, K + {p}, uf, p, neighbours[j], Elems(neighbours[..j]), isInCore, inACluster);
    }
  }

  /** One more candidate of a point already known to be a core.  A candidate in the same
      class, or on the border of another cluster, needs no distance. */
  method CompareCore(inp: Input, ghost K: set<nat>, uf: UnionFind, p: nat, q: nat, ghost done: set<nat>,
                     isInCore: array<bool>, inACluster: array<bool>) returns (success: bool)
    requires ValidInput(inp) && uf.Valid() && uf.N == isInCore.Length == inACluster.Length == inp.n
    requires isInCore != inACluster && p < inp.n && q < inp.n
    requires Flagged(inp.n, isInCore[..], K)
    requires Partial(inp, K, p, done, inACluster[..], uf.Reps())
    modifies uf, uf.clusters, uf.clusterSizes, inACluster
    ensures uf.Valid()
    ensures success ==> Partial(inp, K, p, done + {q}, inACluster[..], uf.Reps())
    ensures !success ==> inp.mindist(p, q) == FLT_MAX
  {
    var rp := uf.Find(p);
    var rq := uf.Find(q);
    NeighbourSkippable(inp, K, p, done, q, inACluster[..], uf.Reps());
    if rp == rq {
      return true;
    }
    if inACluster[q] && !isInCore[q] {
      return true;
    }
    var mindist := inp.mindist(p, q);
    if mindist == FLT_MAX {
      return false;
    }
    if mindist <= inp.eps {
      TakeNeighbour(inp, K, uf, p, q, done, isInCore, inACluster);
    }
    return true;
  }

  lemma NeighbourSkippable(inp: Input, K: set<nat>, p: nat, done: set<nat>, q: nat, inC: seq<bool>, reps: seq<nat>)
    requires Partial(inp, K, p, done, inC, reps) && q < inp.n
    ensures !Within(inp, p, q) || reps[p] == reps[q] || (inC[q] && q !in K) ==>
              Partial(inp, K, p, done + {q}, inC, reps)
  {
    if !Within(inp, p, q) || reps[p] == reps[q] || (inC[q] && q !in K) {
      NeighbourSkipped(inp, K, p, done, q, inC, reps);
    }
  }

  lemma CollectedMembers(inp: Input, p: nat, seen: seq<nat>, found: seq<nat>)
    requires Collected(inp, p, seen, found)
    ensures forall k :: 0 <= k < |found| ==> found[k] < inp.n && Within(inp, p, found[k])
  {
  }

  lemma CollectedOther(inp: Input, p: nat, seen: seq<nat>, found: seq<nat>, q: nat)
    requires Collected(inp, p, seen, found) && !Within(inp, p, q)
    ensures Collected(inp, p, seen + [q], found)
  {
  }

  lemma CollectedNext(inp: Input, p: nat, seen: seq<nat>, found: seq<nat>, q: nat)
    requires Collected(inp, p, seen, found) && Within(inp, p, q) && q !in seen && q < inp.n
    ensures Collected(inp, p, seen + [q], found + [q])
  {
    assert (found + [q])[|found|] == q && (seen + [q])[|seen|] == q;
    forall x | x in found
      ensures x in found + [q] && x in seen + [q]
    {
    }
  }

  /** Once every neighbour met so far has been joined, every candidate met so far has been
      dealt with. */
  lemma CollectedDone(inp: Input, K: set<nat>, p: nat, seen: seq<nat>, found: seq<nat>, inC: seq<bool>, reps: seq<nat>)
    requires Collected(inp, p, seen, found) && Partial(inp, K, p, Elems(found), inC, reps)
    ensures Partial(inp, K, p, Elems(seen), inC, reps)
  {
  }

  /** The state of the candidate loop for `p` after the candidates `seen`: while too few
      neighbours are found they are only set aside. */
  ghost predicate Candidates(inp: Input, minPoints: nat, K: set<nat>, p: nat, seen: seq<nat>, found: seq<nat>,
                             inC: seq<bool>, core: seq<bool>, core0: seq<bool>, reps: seq<nat>)
    requires p < |core0|
  {
    && |found| <= minPoints
    && if |found| < minPoints then
         Collected(inp, p, seen, found) && Clustered(inp, K, inC, reps) && core == core0
       else
         Core(inp, minPoints, p) && Partial(inp, K + {p}, p, Elems(seen), inC, reps) && core == core0[p := true]
  }

  /** One candidate while too few neighbours of `p` are known. */
  method CompareCandidate(inp: Input, minPoints: nat, ghost K: set<nat>, uf: UnionFind, p: nat, q: nat,
                          ghost seen: seq<nat>, neighbours: array<nat>, num0: nat,
                          isInCore: array<bool>, inACluster: array<bool>) returns (success: bool, num: nat)
    requires ValidInput(inp) && uf.Valid() && Separate(inp.n, uf, neighbours, isInCore, inACluster)
    requires p < inp.n && p !in K && Within(inp, p, p) && q < inp.n && q !in seen
    requires num0 < minPoints == neighbours.Length
    requires Flagged(inp.n, isInCore[..], K)
    requires Collected(inp, p, seen, neighbours[..num0]) && Clustered(inp, K, inACluster[..], uf.Reps())
    modifies uf, uf.clusters, uf.clusterSizes, inACluster, isInCore, neighbours
    ensures uf.Valid() && num <= minPoints
    ensures success ==> Candidates(inp, minPoints, K, p, seen + [q], neighbours[..num],
                                   inACluster[..], isInCore[..], old(isInCore[..]), uf.Reps())
    ensures success <==> inp.mindist(p, q) != FLT_MAX
  {
    hide ValidInput, Clustered, Partial, Collected, Core;
    num := num0;
    var mindist := inp.mindist(p, q);
    if mindist == FLT_MAX {
      return false, num;
    }
    if mindist <= inp.eps {
      CollectedNext(inp, p, seen, neighbours[..num], q);
      neighbours[num] := q;
      num := num + 1;
      assert neighbours[..num] == old(neighbours[..num0]) + [q];
      if num == minPoints {
        CollectedMembers(inp, p, seen + [q], neighbours[..num]);
        CollectedEnough(inp, minPoints, p, seen + [q], neighbours[..num]);
        FlushNeighbours(inp, K, uf, p, neighbours, num, isInCore, inACluster);
        CollectedDone(inp, K + {p}, p, seen + [q], neighbours[..num], inACluster[..], uf.Reps());
      }
    } else {
      CollectedOther(inp, p, seen, neighbours[..num], q);
    }
    return true, num;
  }

  /** One candidate of `p`, whether or not `p` is known to be a core by now. */
  method Advance(inp: Input, minPoints: nat, ghost K: set<nat>, uf: UnionFind, p: nat, q: nat,
                 ghost seen: seq<nat>, neighbours: array<nat>, num0: nat,
                 isInCore: array<bool>, inACluster: array<bool>, ghost core0: seq<bool>)
    returns (success: bool, num: nat)
    requires ValidInput(inp) && uf.Valid() && Separate(inp.n, uf, neighbours, isInCore, inACluster)
    requires p < inp.n && p !in K && Within(inp, p, p) && q < inp.n && q !in seen
    requires num0 <= minPoints == neighbours.Length && Flagged(inp.n, core0, K)
    requires Candidates(inp, minPoints, K, p, seen, neighbours[..num0], inACluster[..], isInCore[..], core0, uf.Reps())
    modifies uf, uf.clusters, uf.clusterSizes, inACluster, isInCore, neighbours
    ensures uf.Valid() && num <= minPoints
    ensures success ==> Candidates(inp, minPoints, K, p, seen + [q], neighbours[..num],
                                   inACluster[..], isInCore[..], core0, uf.Reps())
    ensures !success ==> inp.mindist(p, q) == FLT_MAX
  {
    hide ValidInput, Clustered, Partial, Collected, Core;
    if num0 >= minPoints {
      num := num0;
      assert Elems(seen + [q]) == Elems(seen) + {q};
      success := CompareCore(inp, K + {p}, uf, p, q, Elems(seen), isInCore, inACluster);
    } else {
      success, num := CompareCandidate(inp, minPoints, K, uf, p, q, seen, neighbours, num0, isInCore, inACluster);
    }
  }

  /** Compares `p` with its candidates and clusters around it if it is a core. */
  method ExpandPoint(inp: Input, minPoints: nat, ghost K: set<nat>, uf: UnionFind, p: nat, items: seq<nat>,
                     neighbours: array<nat>, isInCore: array<bool>, inACluster: array<bool>) returns (success: bool)
    requires ValidInput(inp) && uf.Valid() && Separate(inp.n, uf, neighbours, isInCore, inACluster)
    requires p < inp.n && p !in K && !inp.isEmpty(p) && 0 < minPoints == neighbours.Length
    requires Answers(inp, p, items)
    requires Flagged(inp.n, isInCore[..], K)
    requires Clustered(inp, K, inACluster[..], uf.Reps())
    modifies uf, uf.clusters, uf.clusterSizes, inACluster, isInCore, neighbours
    ensures uf.Valid()
    ensures success && Core(inp, minPoints, p) ==>
              Clustered(inp, K + {p}, inACluster[..], uf.Reps()) && isInCore[..] == old(isInCore[..])[p := true]
    ensures success && !Core(inp, minPoints, p) ==>
              Clustered(inp, K, inACluster[..], uf.Reps()) && isInCore[..] == old(isInCore[..])
    ensures !success ==> exists q :: q in items && inp.mindist(p, q) == FLT_MAX
  {
    AnswersDistinct(inp, p, items);
    var num: nat := 0;
    NothingSeen(inp, minPoints, K, p, inACluster[..], isInCore[..], uf.Reps());
    assert items[..0] == [] && neighbours[..0] == [];
    hide ValidInput, Answers, Collected, Clustered, Partial, Core, Candidates, Flagged, Within;
    for i := 0 to |items|
      invariant uf.Valid() && num <= minPoints
      invariant Candidates(inp, minPoints, K, p, items[..i], neighbours[..num],
                           inACluster[..], isInCore[..], old(isInCore[..]), uf.Reps())
    {
      assert items[..i + 1] == items[..i] + [items[i]];
      success, num := Advance(inp, minPoints, K, uf, p, items[i], items[..i], neighbours, num,
                              isInCore, inACluster, old(isInCore[..]));
      if !success {
        assert items[i] in items;
        return;
      }
    }
    assert items[..|items|] == items;
    CandidatesDone(inp, minPoints, K, p, items, neighbours[..num], inACluster[..], isInCore[..], old(isInCore[..]),
                   uf.Reps());
    return true;
  }

  lemma CandidatesDone(inp: Input, minPoints: nat, K: set<nat>, p: nat, items: seq<nat>, found: seq<nat>,
                       inC: seq<bool>, core: seq<bool>, core0: seq<bool>, reps: seq<nat>)
    requires ValidInput(inp) && p < inp.n && p < |core0| && Answers(inp, p, items)
    requires Candidates(inp, minPoints, K, p, items, found, inC, core, core0, reps)
    ensures Core(inp, minPoints, p) ==> Clustered(inp, K + {p}, inC, reps) && core == core0[p := true]
    ensures !Core(inp, minPoints, p) ==> Clustered(inp, K, inC, reps) && core == core0
  {
    hide ValidInput, Answers, Collected, Clustered, Partial, Core;
    if |found| >= minPoints {
      AnswersCompared(inp, K + {p}, p, items, inC, reps);
    } else {
      CollectedTooFew(inp, minPoints, p, items, found);
    }
  }

  lemma NothingSeen(inp: Input, minPoints: nat, K: set<nat>, p: nat, inC: seq<bool>, core: seq<bool>, reps: seq<nat>)
    requires p < |core| && 0 < minPoints && Clustered(inp, K, inC, reps)
    ensures Candidates(inp, minPoints, K, p, [], [], inC, core, core, reps)
  {
    hide Clustered;
  }

  lemma AnswersDistinct(inp: Input, p: nat, items: seq<nat>)
    requires ValidInput(inp) && p < inp.n && !inp.isEmpty(p) && Answers(inp, p, items)
    ensures Within(inp, p, p) && Distinct(items) && forall k :: 0 <= k < |items| ==> items[k] < inp.n
  {
  }

  lemma AnswersCompared(inp: Input, K: set<nat>, p: nat, items: seq<nat>, inC: seq<bool>, reps: seq<nat>)
    requires ValidInput(inp) && Answers(inp, p, items) && Partial(inp, K, p, Elems(items), inC, reps)
    ensures Clustered(inp, K, inC, reps)
  {
    AllCompared(inp, K, p, Elems(items), inC, reps);
  }

  /** Processes point `p`: the clustering by the cores below `p` becomes the one by those
      up to `p`. */
  method VisitPoint(inp: Input, minPoints: nat, uf: UnionFind, p: nat,
                    neighbours: array<nat>, isInCore: array<bool>, inACluster: array<bool>) returns (success: bool)
    requires ValidInput(inp) && uf.Valid() && Separate(inp.n, uf, neighbours, isInCore, inACluster)
    requires p < inp.n && 0 < minPoints == neighbours.Length
    requires Flagged(inp.n, isInCore[..], Cores(inp, minPoints, p))
    requires Clustered(inp, Cores(inp, minPoints, p), inACluster[..], uf.Reps())
    modifies uf, uf.clusters, uf.clusterSizes, inACluster, isInCore, neighbours
    ensures uf.Valid()
    ensures success ==> Flagged(inp.n, isInCore[..], Cores(inp, minPoints, p + 1))
    ensures success ==> Clustered(inp, Cores(inp, minPoints, p + 1), inACluster[..], uf.Reps())
    ensures !success ==> Unavailable(inp, p)
  {
    hide ValidInput, Clustered, Answers, Core;
    CoresNext(inp, minPoints, p);
    if inp.isEmpty(p) {
      EmptyIsNoCore(inp, minPoints, p);
      return true;
    }
    var answer := inp.query(p);
    if answer.None? {
      return false;
    }
    QueryAnswers(inp, p);
    if |answer.value| < minPoints {
      TooFewCandidates(inp, minPoints, p, answer.value);
      return true;
    }
    success := ExpandPoint(inp, minPoints, Cores(inp, minPoints, p), uf, p, answer.value,
                           neighbours, isInCore, inACluster);
  }

  /** Clustering with `minPoints` of at least two.  The flags returned say which points
      belong to a cluster; the union-find holds the clusters. */
  method UnionDbscanGeneral(inp: Input, uf: UnionFind, minPoints: nat) returns (success: bool, inACluster: array<bool>)
    requires ValidInput(inp) && uf.Valid() && uf.N == inp.n && minPoints >= 2
    requires uf.Reps() == seq(inp.n, i => i)
    modifies uf, uf.clusters, uf.clusterSizes
    ensures uf.Valid()
    ensures success ==> DensityClusters(inp, minPoints, inACluster[..], uf.Reps())
    ensures !success ==> exists p :: Unavailable(inp, p)
  {
    inACluster := new bool[inp.n](_ => false);
    NothingClustered(inp);
    assert inACluster[..] == seq(inp.n, _ => false);
    assert Cores(inp, minPoints, 0) == {};
    hide ValidInput, Clustered, DensityClusters, Core, Unavailable;
    if inp.n < minPoints {
      NoCores(inp, minPoints);
      ClusteredByAllCores(inp, minPoints, inACluster[..], uf.Reps());
      return true, inACluster;
    }
    var isInCore := new bool[inp.n](_ => false);
    var neighbours := new nat[minPoints](_ => 0);
    for p := 0 to inp.n
      invariant uf.Valid()
      invariant Flagged(inp.n, isInCore[..], Cores(inp, minPoints, p))
      invariant Clustered(inp, Cores(inp, minPoints, p), inACluster[..], uf.Reps())
    {
      success := VisitPoint(inp, minPoints, uf, p, neighbours, isInCore, inACluster);
      if !success {
        return;
      }
    }
    ClusteredByAllCores(inp, minPoints, inACluster[..], uf.Reps());
    return true, inACluster;
  }

  lemma QueryAnswers(inp: Input, p: nat)
    requires ValidInput(inp) && p < inp.n && inp.query(p).Some?
    ensures Answers(inp, p, inp.query(p).value)
  {
  }

  /** Fewer points than `minPoints` cannot make a core. */
  lemma NoCores(inp: Input, minPoints: nat)
    requires inp.n < minPoints
    ensures Cores(inp, minPoints, inp.n) == {}
  {
    forall c | 0 <= c < inp.n
      ensures !Core(inp, minPoints, c)
    {
      var all := seq(inp.n, i => i);
      DistinctCount(all);
      forall q | q in Neighbours(inp, c)
        ensures q in Elems(all)
      {
        assert all[q] == q;
      }
      SubsetCount(Neighbours(inp, c), Elems(all));
    }
  }

  ghost function AllPoints(n: nat): (all: set<nat>)
    ensures forall x: nat :: x in all <==> x < n
  {
    if n == 0 then {} else AllPoints(n - 1) + {n - 1}
  }

  /** Two points share a class exactly when a chain of points, each within the distance of
      the next, joins them. */
  ghost predicate Components(inp: Input, reps: seq<nat>) {
    && |reps| == inp.n
    && forall x, y :: 0 <= x < inp.n && 0 <= y < inp.n ==>
         (reps[x] == reps[y] <==> Connected(inp, AllPoints(inp.n), x, y))
  }

  /** The components of the pairs compared so far: those of points below `p`, and of `p`
      with the candidates in `done`. */
  ghost predicate PartComponents(inp: Input, p: nat, done: set<nat>, reps: seq<nat>) {
    && |reps| == inp.n
    && Separated(inp, AllPoints(inp.n), reps)
    && (forall a, b :: 0 <= a < p && a < inp.n && 0 <= b < inp.n && Within(inp, a, b) ==> reps[a] == reps[b])
    && (p < inp.n ==> forall b :: b in done && b < inp.n && Within(inp, p, b) ==> reps[p] == reps[b])
  }

  /** The state of the comparisons.  They are no longer complete once a distance could not be
      computed, but no class joins points that no chain joins. */
  ghost predicate Comparing(inp: Input, complete: bool, p: nat, done: set<nat>, reps: seq<nat>) {
    && |reps| == inp.n
    && Separated(inp, AllPoints(inp.n), reps)
    && (complete ==> PartComponents(inp, p, done, reps))
  }

  lemma PairSeparated(inp: Input, p: nat, q: nat, reps: seq<nat>)
    requires ValidInput(inp) && |reps| == inp.n && Separated(inp, AllPoints(inp.n), reps)
    requires p < inp.n && q < inp.n && Within(inp, p, q)
    ensures Separated(inp, AllPoints(inp.n), Unioned(reps, p, q))
  {
    var all := AllPoints(inp.n);
    UnionedJoins(reps, p, q);
    hide ValidInput, Connected, Unioned;
    forall a, b | a in all && b in all && reps[a] == reps[p] && reps[b] == reps[q]
      ensures Connected(inp, all, a, b) && Connected(inp, all, b, a)
    {
      ConnectedHop(inp, all, p, q);
      ConnectedTrans(inp, all, a, p, q);
      ConnectedTrans(inp, all, a, q, b);
      ConnectedSym(inp, all, a, b);
    }
  }

  lemma PairJoined(inp: Input, complete: bool, p: nat, done: set<nat>, q: nat, reps: seq<nat>)
    requires ValidInput(inp) && Comparing(inp, complete, p, done, reps)
    requires p < inp.n && q < inp.n && Within(inp, p, q)
    ensures Comparing(inp, complete, p, done + {q}, Unioned(reps, p, q))
  {
    PairSeparated(inp, p, q, reps);
    UnionedJoins(reps, p, q);
    hide ValidInput, Separated, Unioned;
  }

  lemma PairPassed(inp: Input, complete: bool, p: nat, done: set<nat>, q: nat, reps: seq<nat>)
    requires Comparing(inp, complete, p, done, reps) && p < inp.n && q < inp.n
    ensures Comparing(inp, false, p, done + {q}, reps)
    ensures reps[p] == reps[q] || !Within(inp, p, q) ==> Comparing(inp, complete, p, done + {q}, reps)
  {
    hide Separated;
  }

  lemma SinglesArePart(inp: Input)
    ensures Comparing(inp, true, 0, {}, seq(inp.n, i => i))
  {
    var all := AllPoints(inp.n);
    forall a | a in all
      ensures Connected(inp, all, a, a)
    {
      ConnectedSelf(inp, all, a);
    }
  }

  lemma PartIsWhole(inp: Input, p: nat, reps: seq<nat>)
    requires ValidInput(inp) && Comparing(inp, true, p, {}, reps)
    requires p >= inp.n || inp.n <= 1
    ensures Components(inp, reps)
  {
    var all := AllPoints(inp.n);
    forall x, y | 0 <= x < inp.n && 0 <= y < inp.n && Connected(inp, all, x, y)
      ensures reps[x] == reps[y]
    {
      if inp.n > 1 {
        var path :| Path(inp, all, path, x, y);
        AgreeAlongPath(inp, all, reps, path, x, y);
      }
    }
  }

  /** Clustering for `minPoints` of one or less, where distances inside a class are never
      computed.  A distance that cannot be computed ends the comparisons of one point, not
      those of the points after it. */
  method UnionDbscanMinpoints1(inp: Input, uf: UnionFind) returns (success: bool, inACluster: array<bool>)
    requires ValidInput(inp) && uf.Valid() && uf.N == inp.n
    requires uf.Reps() == seq(inp.n, i => i)
    modifies uf, uf.clusters, uf.clusterSizes
    ensures uf.Valid()
    ensures inACluster[..] == seq(inp.n, _ => true)
    ensures Separated(inp, AllPoints(inp.n), uf.Reps())
    ensures success ==> Components(inp, uf.Reps())
    ensures !success ==> exists p :: Unavailable(inp, p)
  {
    success, inACluster := true, new bool[inp.n](_ => true);
    SinglesArePart(inp);
    if inp.n <= 1 {
      PartIsWhole(inp, 0, uf.Reps());
      return;
    }
    hide ValidInput, PartComponents, Components, Separated, Unavailable;
    for p := 0 to inp.n
      invariant uf.Valid() && Comparing(inp, success, p, {}, uf.Reps())
      invariant inACluster[..] == seq(inp.n, _ => true)
      invariant !success ==> exists a :: Unavailable(inp, a)
    {
      var found, joined := JoinCandidates(inp, uf, p, success);
      if !found {
        return false, inACluster;
      }
      if !joined {
        success := false;
      }
    }
    if success {
      PartIsWhole(inp, inp.n, uf.Reps());
    }
  }

  method JoinCandidate(inp: Input, uf: UnionFind, p: nat, q: nat, ghost complete: bool, ghost done: set<nat>)
    returns (joined: bool)
    requires ValidInput(inp) && uf.Valid() && uf.N == inp.n && p < inp.n && q < inp.n
    requires Comparing(inp, complete, p, done, uf.Reps())
    modifies uf, uf.clusters, uf.clusterSizes
    ensures uf.Valid()
    ensures Comparing(inp, complete && joined, p, done + {q}, uf.Reps())
    ensures !joined ==> inp.mindist(p, q) == FLT_MAX
  {
    hide PartComponents, Unioned, Separated, Comparing;
    PairPassed(inp, complete, p, done, q, uf.Reps());
    var rp := uf.Find(p);
    var rq := uf.Find(q);
    if rp != rq {
      var mindist := inp.mindist(p, q);
      if mindist == FLT_MAX {
        return false;
      }
      if mindist <= inp.eps {
        PairJoined(inp, complete, p, done, q, uf.Reps());
        hide ValidInput;
        uf.Union(p, q);
      }
    }
    return true;
  }

  /** Compares a point with its candidates, as far as distances can be computed. */
  method JoinCandidates(inp: Input, uf: UnionFind, p: nat, ghost complete: bool) returns (found: bool, joined: bool)
    requires ValidInput(inp) && uf.Valid() && uf.N == inp.n && p < inp.n
    requires Comparing(inp, complete, p, {}, uf.Reps())
    modifies uf, uf.clusters, uf.clusterSizes
    ensures uf.Valid()
    ensures Comparing(inp, complete && found && joined, p + 1, {}, uf.Reps())
    ensures !found || !joined ==> Unavailable(inp, p)
  {
    hide PartComponents, Separated;
    found, joined := true, true;
    PartNext(inp, complete, p, uf.Reps());
    if inp.isEmpty(p) {
      return;
    }
    var answer := inp.query(p);
    if answer.None? {
      return false, true;
    }
    var items := answer.value;
    QueryAnswers(inp, p);
    assert Elems(items[..0]) == {};
    hide ValidInput;
    for i := 0 to |items|
      invariant uf.Valid() && Comparing(inp, complete, p, Elems(items[..i]), uf.Reps())
    {
      assert Elems(items[..i + 1]) == Elems(items[..i]) + {items[i]};
      joined := JoinCandidate(inp, uf, p, items[i], complete, Elems(items[..i]));
      if !joined {
        assert items[i] in items;
        return;
      }
    }
    assert items[..|items|] == items;
    PartAnswered(inp, complete, p, items, uf.Reps());
    return true, true;
  }

  /** An empty geometry has no pairs to compare. */
  lemma PartNext(inp: Input, complete: bool, p: nat, reps: seq<nat>)
    requires ValidInput(inp) && p < inp.n && Comparing(inp, complete, p, {}, reps)
    ensures inp.isEmpty(p) ==> Comparing(inp, complete, p + 1, {}, reps)
    ensures Comparing(inp, false, p + 1, {}, reps)
  {
    hide Connected;
    forall a, b | complete && 0 <= a < p + 1 && 0 <= b < inp.n && Within(inp, a, b) && inp.isEmpty(p)
      ensures reps[a] == reps[b]
    {
      assert a != p;
    }
  }

  lemma PartAnswered(inp: Input, complete: bool, p: nat, items: seq<nat>, reps: seq<nat>)
    requires ValidInput(inp) && p < inp.n && Answers(inp, p, items) && Comparing(inp, complete, p, Elems(items), reps)
    ensures Comparing(inp, complete, p + 1, {}, reps)
  {
    hide Connected;
    forall a, b | complete && 0 <= a < p + 1 && 0 <= b < inp.n && Within(inp, a, b)
      ensures reps[a] == reps[b]
    {
      assert a == p ==> b in items;
    }
  }

  /** The entry point. */
  method UnionDbscan(inp: Input, uf: UnionFind, minPoints: nat) returns (success: bool, inACluster: array<bool>)
    requires ValidInput(inp) && uf.Valid() && uf.N == inp.n
    requires uf.Reps() == seq(inp.n, i => i)
    modifies uf, uf.clusters, uf.clusterSizes
    ensures uf.Valid()
    ensures success && minPoints <= 1 ==> Components(inp, uf.Reps()) && inACluster[..] == seq(inp.n, _ => true)
    ensures success && minPoints > 1 ==> DensityClusters(inp, minPoints, inACluster[..], uf.Reps())
    ensures minPoints <= 1 ==> Separated(inp, AllPoints(inp.n), uf.Reps())
    ensures !success ==> exists p :: Unavailable(inp, p)
  {
    if minPoints <= 1 {
      success, inACluster := UnionDbscanMinpoints1(inp, uf);
    } else {
      success, inACluster := UnionDbscanGeneral(inp, uf, minPoints);
    }
  }
}
