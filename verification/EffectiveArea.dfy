/** Visvalingam-Whyatt effective areas of the points of a line or ring. */
module EffectiveArea {
  import opened AreaHeap
  import opened Common

  /** The line or ring: `n` points, `tri` the triangle area of three of them (2D or 3D),
      `avoid` the number of points that must survive. */
  datatype Config = Config(n: nat, tri: (nat, nat, nat) -> real, avoid: int)

  /** With `setArea` every point gets its area; without, the loop stops at `threshold`. */
  datatype Mode = Mode(setArea: bool, threshold: real)

  /** Every caller passes 0, 2 or 4 points to keep, and lines of at least three points. */
  ghost predicate ValidConfig(cfg: Config) {
    && cfg.n >= 3
    && cfg.avoid <= 4
    && forall a, b, c :: 0.0 <= cfg.tri(a, b, c) < FLT_MAX
  }

  /** The state at the head of the elimination loop: the heap and links, the results so
      far, the chain of points that remain, the area popped last and the loop counter. */
  datatype State = State(heap: MinHeap, res: seq<real>, rem: seq<nat>, lo: real, i: nat)

  ghost predicate Increasing(s: seq<nat>) {
    forall a, b :: 0 <= a < b < |s| ==> s[a] < s[b]
  }

  /** `prev` and `next` name each other across the link into the `j`-th chain point. */
  ghost predicate Joined(h: MinHeap, rem: seq<nat>, j: nat)
    requires 0 < j < |rem|
  {
    && rem[j - 1] < |h.nodes| && rem[j] < |h.nodes|
    && h.nodes[rem[j - 1]].next == rem[j]
    && h.nodes[rem[j]].prev == rem[j - 1]
  }

  /** `prev` and `next` run along `rem` in both directions. */
  ghost predicate Linked(h: MinHeap, rem: seq<nat>) {
    forall j :: 0 < j < |rem| ==> Joined(h, rem, j)
  }

  /** Effective area of the `j`-th remaining point in the plain algorithm: the triangle
      with its remaining neighbours, but never less than the area eliminated before. */
  function Eff(cfg: Config, rem: seq<nat>, lo: real, j: nat): real
    requires 0 < j < |rem| - 1
  {
    Max(cfg.tri(rem[j - 1], rem[j], rem[j + 1]), lo)
  }

  /** One strictly increasing chain from the first to the last point holds exactly the
      live points. */
  ghost predicate Chained(n: nat, h: MinHeap, rem: seq<nat>) {
    && |h.nodes| == n
    && |rem| == h.used >= 2
    && Increasing(rem)
    && rem[0] == 0 && rem[|rem| - 1] == n - 1
    && (forall q :: 0 <= q < n ==> (Live(h, q) <==> q in rem))
    && Linked(h, rem)
  }

  /** The ends never compete; every interior point carries its plain effective area. */
  ghost predicate Areas(cfg: Config, h: MinHeap, rem: seq<nat>, lo: real) {
    && |h.nodes| == cfg.n >= 2
    && (forall j :: 0 <= j < |rem| ==> rem[j] < cfg.n)
    && h.nodes[0].area == FLT_MAX
    && h.nodes[cfg.n - 1].area == FLT_MAX
    && forall j {:trigger Eff(cfg, rem, lo, j)} :: 0 < j < |rem| - 1 ==>
         h.nodes[rem[j]].area == Eff(cfg, rem, lo, j)
  }

  /** What holds between two rounds of the loop. */
  ghost predicate Settled(cfg: Config, s: State) {
    && cfg.n >= 3
    && BackPointers(s.heap) && Ordered(s.heap)
    && Chained(cfg.n, s.heap, s.rem)
    && Areas(cfg, s.heap, s.rem, s.lo)
    && s.i + s.heap.used == cfg.n
    && 0.0 <= s.lo <= FLT_MAX
    && |s.res| == cfg.n
    && (forall q :: 0 <= q < cfg.n && q in s.rem ==> s.res[q] == FLT_MAX)
    && (forall q :: 0 <= q < cfg.n && q !in s.rem ==> 0.0 <= s.res[q] <= s.lo)
  }

  /** The loop goes round again: some interior point is left, and ties with the ends
      (which carry FLT_MAX) cannot bring an end to the root. */
  ghost predicate Good(cfg: Config, s: State) {
    && Settled(cfg, s)
    && s.heap.used >= 3
    && ((s.i <= cfg.n - cfg.avoid && s.lo < FLT_MAX) || (s.heap.used == 3 && s.heap.keys[0] == s.rem[1]))
  }

  /** The position of `q` in the chain. */
  ghost function Position(rem: seq<nat>, q: nat): (j: nat)
    requires q in rem
    ensures j < |rem| && rem[j] == q
  {
    if rem[0] == q then 0 else 1 + Position(rem[1..], q)
  }

  function RemoveAt(rem: seq<nat>, j: nat): seq<nat>
    requires j < |rem|
  {
    rem[..j] + rem[j + 1..]
  }

  /** The root of the heap is an interior point, and no interior point has a smaller
      plain effective area. */
  lemma RootIsLeastInterior(cfg: Config, s: State)
    requires ValidConfig(cfg) && Good(cfg, s)
    ensures Live(s.heap, s.heap.keys[0]) && s.heap.keys[0] in s.rem
    ensures var j := Position(s.rem, s.heap.keys[0]);
      && 0 < j < |s.rem| - 1
      && forall k :: 0 < k < |s.rem| - 1 ==> Eff(cfg, s.rem, s.lo, j) <= Eff(cfg, s.rem, s.lo, k)
  {
    var h := s.heap;
    assert Live(h, h.keys[0]);
    var j := Position(s.rem, h.keys[0]);
    if s.heap.used > 3 || s.heap.keys[0] != s.rem[1] {
      var q := s.rem[1];
      assert 0 < q < cfg.n - 1;
      assert Live(h, q);
      RootIsLeast(h, h.nodes[q].treeindex);
      assert h.nodes[q].area == Eff(cfg, s.rem, s.lo, 1) < FLT_MAX;
    }
    assert h.nodes[s.rem[j]].area == Eff(cfg, s.rem, s.lo, j);
    forall k | 0 < k < |s.rem| - 1
      ensures Eff(cfg, s.rem, s.lo, j) <= Eff(cfg, s.rem, s.lo, k)
    {
      assert h.nodes[s.rem[k]].area == Eff(cfg, s.rem, s.lo, k);
      assert Live(h, s.rem[k]);
      RootIsLeast(h, h.nodes[s.rem[k]].treeindex);
    }
  }

  /** The result recorded for the point popped in round `i`. */
  function Recorded(cfg: Config, i: nat, area: real): real {
    if i < cfg.n - cfg.avoid then area else FLT_MAX
  }

  /** Joins the neighbours of an eliminated point. */
  function Relink(h: MinHeap, before: nat, after: nat): (r: MinHeap)
    requires before < |h.nodes| && after < |h.nodes|
    ensures r.keys == h.keys && r.used == h.used && |r.nodes| == |h.nodes|
    ensures forall q :: 0 <= q < |h.nodes| ==>
              && r.nodes[q].area == h.nodes[q].area
              && r.nodes[q].treeindex == h.nodes[q].treeindex
              && r.nodes[q].prev == (if q == after then before else h.nodes[q].prev)
              && r.nodes[q].next == (if q == before then after else h.nodes[q].next)
  {
    var nodes := h.nodes[before := h.nodes[before].(next := after)];
    h.(nodes := nodes[after := nodes[after].(prev := before)])
  }

  /** The neighbours' areas, recomputed as if `cur` were already gone. */
  ghost function Retuned(cfg: Config, h: MinHeap, before: nat, after: nat, val: real): (r: MinHeap)
    requires BackPointers(h) && |h.nodes| == cfg.n
    requires before > 0 ==> Live(h, before)
    requires after < cfg.n - 1 ==> Live(h, after)
    ensures BackPointers(r) && r.used == h.used && |r.nodes| == |h.nodes|
    ensures forall q :: 0 <= q < cfg.n ==>
              && r.nodes[q].prev == h.nodes[q].prev
              && r.nodes[q].next == h.nodes[q].next
              && (Live(r, q) <==> Live(h, q))
    ensures before != after ==> forall q :: 0 <= q < cfg.n ==>
              r.nodes[q].area ==
              if q == before > 0 then Max(cfg.tri(h.nodes[q].prev, before, after), val)
              else if q == after < cfg.n - 1 then Max(cfg.tri(before, after, h.nodes[q].next), val)
              else h.nodes[q].area
  {
    var h1 := if before > 0 then
                RefreshF(h, before, Max(cfg.tri(h.nodes[before].prev, before, after), val))
              else h;
    if after < cfg.n - 1 then
      RefreshF(h1, after, Max(cfg.tri(before, after, h1.nodes[after].next), val))
    else h1
  }

  /** The heap after the root point `rem[j]` has been eliminated with result `val`. */
  ghost function Eliminated(cfg: Config, h: MinHeap, rem: seq<nat>, j: nat, val: real): (r: MinHeap)
    requires BackPointers(h) && Chained(cfg.n, h, rem)
    requires 0 < j < |rem| - 1 && h.keys[0] == rem[j]
    ensures r.used == h.used - 1 && |r.nodes| == cfg.n
  {
    assert Joined(h, rem, j) && Joined(h, rem, j + 1);
    var before, after := h.nodes[rem[j]].prev, h.nodes[rem[j]].next;
    assert before in rem && after in rem;
    Relink(Retuned(cfg, PopF(h), before, after, val), before, after)
  }

  /** One round of the elimination loop. */
  ghost function StepF(cfg: Config, s: State): (r: State)
    requires ValidConfig(cfg) && Good(cfg, s)
    ensures r.heap.used == s.heap.used - 1
  {
    RootIsLeastInterior(cfg, s);
    var cur := s.heap.keys[0];
    var j := Position(s.rem, cur);
    var val := Recorded(cfg, s.i, s.heap.nodes[cur].area);
    State(Eliminated(cfg, s.heap, s.rem, j, val), s.res[cur := val], RemoveAt(s.rem, j), val, s.i + 1)
  }

  lemma RemovedMembers(n: nat, rem: seq<nat>, j: nat)
    requires j < |rem| && Increasing(rem)
    ensures Increasing(RemoveAt(rem, j))
    ensures forall q :: q in RemoveAt(rem, j) <==> q in rem && q != rem[j]
  {
    var r := RemoveAt(rem, j);
    forall q | q in rem && q != rem[j]
      ensures q in r
    {
      var k := Position(rem, q);
      assert r[if k < j then k else k - 1] == q;
    }
  }

  lemma RetunedKeepsOrder(cfg: Config, h: MinHeap, before: nat, after: nat, val: real)
    requires BackPointers(h) && Ordered(h) && |h.nodes| == cfg.n
    requires before > 0 ==> Live(h, before)
    requires after < cfg.n - 1 ==> Live(h, after)
    ensures Ordered(Retuned(cfg, h, before, after, val))
  {
    var h1 := h;
    if before > 0 {
      var area := Max(cfg.tri(h.nodes[before].prev, before, after), val);
      RefreshKeepsOrder(h, before, area);
      h1 := RefreshF(h, before, area);
    }
    if after < cfg.n - 1 {
      RefreshKeepsOrder(h1, after, Max(cfg.tri(before, after, h1.nodes[after].next), val));
    }
  }

  lemma RelinkKeepsOrder(h: MinHeap, before: nat, after: nat)
    requires BackPointers(h) && Ordered(h)
    requires before < |h.nodes| && after < |h.nodes|
    ensures BackPointers(Relink(h, before, after)) && Ordered(Relink(h, before, after))
  {
    var r := Relink(h, before, after);
    assert forall k :: 0 <= k < r.used ==> AreaAt(r, k) == AreaAt(h, k);
  }

  /** Relinking the neighbours of an eliminated point closes the chain over it. */
  lemma RelinkKeepsLinks(h: MinHeap, h2: MinHeap, rem: seq<nat>, j: nat)
    requires Linked(h, rem) && Increasing(rem) && 0 < j < |rem| - 1
    requires |h2.nodes| == |h.nodes|
    requires forall q :: 0 <= q < |h.nodes| ==>
               h2.nodes[q].prev == h.nodes[q].prev && h2.nodes[q].next == h.nodes[q].next
    ensures rem[j - 1] < |h.nodes| && rem[j + 1] < |h.nodes|
    ensures Linked(Relink(h2, rem[j - 1], rem[j + 1]), RemoveAt(rem, j))
  {
    assert Joined(h, rem, j) && Joined(h, rem, j + 1);
    var h' := Relink(h2, rem[j - 1], rem[j + 1]);
    var r := RemoveAt(rem, j);
    forall k | 0 < k < |r|
      ensures Joined(h', r, k)
    {
      assert Joined(h, rem, if k < j then k else k + 1);
      assert r[k] == rem[if k < j then k else k + 1];
      assert r[k - 1] == rem[if k - 1 < j then k - 1 else k];
    }
  }

  lemma RelinkKeepsChain(n: nat, h: MinHeap, h2: MinHeap, rem: seq<nat>, j: nat)
    requires Chained(n, h, rem) && 0 < j < |rem| - 1
    requires BackPointers(h2) && h2.used == h.used - 1 && |h2.nodes| == n
    requires forall q :: 0 <= q < n ==> h2.nodes[q].prev == h.nodes[q].prev && h2.nodes[q].next == h.nodes[q].next
    requires forall q :: 0 <= q < n ==> (Live(h2, q) <==> Live(h, q) && q != rem[j])
    ensures rem[j - 1] < n && rem[j + 1] < n
    ensures Chained(n, Relink(h2, rem[j - 1], rem[j + 1]), RemoveAt(rem, j))
  {
    RelinkKeepsLinks(h, h2, rem, j);
    RemovedMembers(n, rem, j);
    var r := Relink(h2, rem[j - 1], rem[j + 1]);
    assert forall q :: 0 <= q < n ==> (Live(r, q) <==> Live(h2, q));
  }

  lemma EliminatedKeepsOrder(cfg: Config, h: MinHeap, rem: seq<nat>, j: nat, val: real)
    requires BackPointers(h) && Chained(cfg.n, h, rem) && Ordered(h)
    requires 0 < j < |rem| - 1 && h.keys[0] == rem[j]
    ensures var r := Eliminated(cfg, h, rem, j, val);
      BackPointers(r) && Ordered(r)
  {
    assert Joined(h, rem, j) && Joined(h, rem, j + 1);
    var before, after := rem[j - 1], rem[j + 1];
    assert before in rem && after in rem;
    var h0 := PopF(h);
    PopKeepsOrder(h);
    RetunedKeepsOrder(cfg, h0, before, after, val);
    RelinkKeepsOrder(Retuned(cfg, h0, before, after, val), before, after);
  }

  /** The neighbours of the popped root are its links, and are still in the heap. */
  lemma NeighboursStayLive(n: nat, h: MinHeap, rem: seq<nat>, j: nat)
    requires BackPointers(h) && Chained(n, h, rem)
    requires 0 < j < |rem| - 1 && h.keys[0] == rem[j]
    ensures rem[j - 1] < rem[j] < rem[j + 1] < n
    ensures InRange(h) && h.used >= 2
    ensures h.nodes[rem[j]].prev == rem[j - 1] && h.nodes[rem[j]].next == rem[j + 1]
    ensures var r := PopF(h);
      && BackPointers(r) && |r.nodes| == n && r.used == h.used - 1
      && Live(r, rem[j - 1]) && Live(r, rem[j + 1])
      && (forall q :: 0 <= q < n ==> r.nodes[q].prev == h.nodes[q].prev && r.nodes[q].next == h.nodes[q].next)
      && (forall q :: 0 <= q < n ==> r.nodes[q].area == h.nodes[q].area)
      && (forall q :: 0 <= q < n ==> (Live(r, q) <==> Live(h, q) && q != rem[j]))
  {
    assert Joined(h, rem, j) && Joined(h, rem, j + 1);
    assert rem[j - 1] in rem && rem[j + 1] in rem;
    assert rem[j - 1] < rem[j] < rem[j + 1];
  }

  lemma RetunedLinks(cfg: Config, h: MinHeap, before: nat, after: nat, val: real, q: nat)
    requires BackPointers(h) && |h.nodes| == cfg.n && q < cfg.n
    requires before > 0 ==> Live(h, before)
    requires after < cfg.n - 1 ==> Live(h, after)
    ensures var r := Retuned(cfg, h, before, after, val);
      && InRange(r) && |r.nodes| == cfg.n
      && r.nodes[q].prev == h.nodes[q].prev && r.nodes[q].next == h.nodes[q].next
  {
  }

  /** What a round needs of the popped point and its neighbours. */
  lemma PoppedNeighbours(n: nat, h: MinHeap, rem: seq<nat>, j: nat)
    requires BackPointers(h) && Chained(n, h, rem)
    requires 0 < j < |rem| - 1 && h.keys[0] == rem[j]
    ensures InRange(h) && h.used >= 2 && rem[j] < n == |PopF(h).nodes| == |h.nodes|
    ensures var before, after := h.nodes[rem[j]].prev, h.nodes[rem[j]].next;
      && before < n && after < n && before != rem[j]
      && BackPointers(PopF(h)) && Live(PopF(h), before) && Live(PopF(h), after)
      && PopF(h).nodes[rem[j]].prev == before && PopF(h).nodes[rem[j]].next == after
      && PopF(h).nodes[rem[j]].area == h.nodes[rem[j]].area
  {
    hide PopF, BackPointers, Chained, Live;
    NeighboursStayLive(n, h, rem, j);
  }

  lemma EliminatedUnfolds(cfg: Config, h: MinHeap, rem: seq<nat>, j: nat, val: real)
    requires BackPointers(h) && Chained(cfg.n, h, rem)
    requires 0 < j < |rem| - 1 && h.keys[0] == rem[j]
    ensures InRange(h) && h.used >= 2 && rem[j] < cfg.n
    ensures var before, after := h.nodes[rem[j]].prev, h.nodes[rem[j]].next;
      && before < cfg.n && after < cfg.n
      && BackPointers(PopF(h)) && Live(PopF(h), before) && Live(PopF(h), after)
      && Eliminated(cfg, h, rem, j, val) == Relink(Retuned(cfg, PopF(h), before, after, val), before, after)
  {
    hide PopF, Retuned, Relink, BackPointers, Chained, Live;
    NeighboursStayLive(cfg.n, h, rem, j);
  }

  lemma EliminatedKeepsChain(cfg: Config, h: MinHeap, rem: seq<nat>, j: nat, val: real)
    requires BackPointers(h) && Chained(cfg.n, h, rem)
    requires 0 < j < |rem| - 1 && h.keys[0] == rem[j]
    ensures Chained(cfg.n, Eliminated(cfg, h, rem, j, val), RemoveAt(rem, j))
  {
    hide PopF, Retuned, Relink, BackPointers, Chained, Live, RemoveAt;
    NeighboursStayLive(cfg.n, h, rem, j);
    RelinkKeepsChain(cfg.n, h, Retuned(cfg, PopF(h), rem[j - 1], rem[j + 1], val), rem, j);
  }

  /** `h'` carries the areas of `h` except at the neighbours of the eliminated `rem[j]`,
      which have been recomputed over the gap. */
  ghost predicate Tuned(cfg: Config, h: MinHeap, h': MinHeap, rem: seq<nat>, j: nat, val: real)
    requires 0 < j < |rem| - 1
  {
    && |h.nodes| == |h'.nodes| == cfg.n
    && forall q :: 0 <= q < cfg.n ==>
         h'.nodes[q].area ==
         if q == rem[j - 1] > 0 then Max(cfg.tri(h.nodes[q].prev, q, rem[j + 1]), val)
         else if q == rem[j + 1] < cfg.n - 1 then Max(cfg.tri(rem[j - 1], q, h.nodes[q].next), val)
         else h.nodes[q].area
  }

  lemma EliminatedIsTuned(cfg: Config, h: MinHeap, rem: seq<nat>, j: nat, val: real)
    requires BackPointers(h) && Chained(cfg.n, h, rem)
    requires 0 < j < |rem| - 1 && h.keys[0] == rem[j]
    ensures Tuned(cfg, h, Eliminated(cfg, h, rem, j, val), rem, j, val)
  {
    assert Joined(h, rem, j) && Joined(h, rem, j + 1);
    assert rem[j - 1] in rem && rem[j + 1] in rem;
    assert rem[j - 1] < rem[j] < rem[j + 1];
  }

  lemma TunedAreaAt(cfg: Config, h: MinHeap, h': MinHeap, rem: seq<nat>, lo: real, j: nat, val: real, k: nat)
    requires 0 < j < |rem| - 1 && rem[|rem| - 1] == cfg.n - 1
    requires Increasing(rem) && Linked(h, rem) && lo <= val && Tuned(cfg, h, h', rem, j, val)
    requires 0 < k < |rem| - 1 && k != j
    requires h.nodes[rem[k]].area == Eff(cfg, rem, lo, k)
    requires k != j - 1 && k != j + 1 ==> val <= h.nodes[rem[k]].area
    ensures h'.nodes[rem[k]].area == Eff(cfg, RemoveAt(rem, j), val, if k < j then k else k - 1)
  {
    var r := RemoveAt(rem, j);
    var k' := if k < j then k else k - 1;
    assert Joined(h, rem, k) && Joined(h, rem, k + 1);
    assert 0 <= rem[0] < rem[k] < rem[|rem| - 1];
    assert r[k'] == rem[k];
    assert r[k' - 1] == rem[if k' - 1 < j then k' - 1 else k'];
    assert r[k' + 1] == rem[if k' + 1 < j then k' + 1 else k' + 2];
  }

  lemma TunedEnds(cfg: Config, h: MinHeap, h': MinHeap, rem: seq<nat>, j: nat, val: real)
    requires 0 < j < |rem| - 1 && Tuned(cfg, h, h', rem, j, val)
    requires rem[j - 1] < rem[j] < rem[j + 1] < cfg.n
    ensures h'.nodes[0].area == h.nodes[0].area
    ensures h'.nodes[cfg.n - 1].area == h.nodes[cfg.n - 1].area
  {
  }

  /** Elimination leaves every remaining interior point with its plain effective area
      under the new floor `val`. */
  lemma TunedAreas(cfg: Config, h: MinHeap, h': MinHeap, rem: seq<nat>, lo: real, j: nat, val: real)
    requires 0 < j < |rem| - 1 && rem[|rem| - 1] == cfg.n - 1 && cfg.n >= 2
    requires Areas(cfg, h, rem, lo) && Increasing(rem) && Linked(h, rem) && lo <= val
    requires Tuned(cfg, h, h', rem, j, val)
    requires forall k :: 0 < k < |rem| - 1 && k != j - 1 && k != j && k != j + 1 ==> val <= h.nodes[rem[k]].area
    ensures Areas(cfg, h', RemoveAt(rem, j), val)
  {
    assert rem[j - 1] < rem[j] < rem[j + 1];
    TunedEnds(cfg, h, h', rem, j, val);
    var r := RemoveAt(rem, j);
    assert |r| == |rem| - 1;
    assert forall k :: 0 <= k < |r| ==> r[k] == rem[if k < j then k else k + 1] < cfg.n;
    assert |h'.nodes| == cfg.n;
    hide Tuned, Linked, Increasing, RemoveAt;
    forall k | 0 < k < |r| - 1
      ensures h'.nodes[r[k]].area == Eff(cfg, r, val, k)
    {
      var k' := if k < j then k else k + 1;
      assert h.nodes[rem[k']].area == Eff(cfg, rem, lo, k');
      TunedAreaAt(cfg, h, h', rem, lo, j, val, k');
    }
  }

  /** Nothing sinks below a root that no slot undercuts. */
  lemma RefreshedRootStays(h: MinHeap, area: real)
    requires BackPointers(h) && h.used >= 1
    requires forall k :: 0 < k < h.used ==> area <= AreaAt(h, k)
    ensures Live(h, h.keys[0]) && RefreshF(h, h.keys[0], area).keys == h.keys
  {
    var q := h.keys[0];
    var r := h.(nodes := h.nodes[q := h.nodes[q].(area := area)]);
    assert forall k :: 0 <= k < h.used ==> AreaAt(r, k) == if k == 0 then area else AreaAt(h, k);
    assert DownTarget(r, 0) == 0;
  }

  /** With two interior points left, popping one brings the other to the root. */
  lemma OtherPointIsRoot(cfg: Config, h: MinHeap, rem: seq<nat>, j: nat)
    requires BackPointers(h) && Ordered(h) && Chained(cfg.n, h, rem)
    requires |rem| == 4 && 0 < j < 3 && h.keys[0] == rem[j]
    requires h.nodes[0].area == FLT_MAX && h.nodes[cfg.n - 1].area == FLT_MAX
    requires h.nodes[rem[3 - j]].area < FLT_MAX
    ensures PopF(h).keys[0] == rem[3 - j]
  {
    var r, b := PopF(h), rem[3 - j];
    PopKeepsOrder(h);
    assert Live(h, b) && Live(r, b);
    RootIsLeast(r, r.nodes[b].treeindex);
    assert Live(r, r.keys[0]);
    assert r.keys[0] in rem;
  }

  lemma OthersAreEnds(cfg: Config, h: MinHeap, rem: seq<nat>, j: nat)
    requires BackPointers(h) && Ordered(h) && Chained(cfg.n, h, rem)
    requires |rem| == 4 && 0 < j < 3 && h.keys[0] == rem[j]
    requires h.nodes[0].area == FLT_MAX && h.nodes[cfg.n - 1].area == FLT_MAX
    requires h.nodes[rem[3 - j]].area < FLT_MAX
    ensures forall k :: 0 < k < PopF(h).used ==> AreaAt(PopF(h), k) == FLT_MAX
  {
    var r := PopF(h);
    OtherPointIsRoot(cfg, h, rem, j);
    forall k | 0 < k < r.used
      ensures AreaAt(r, k) == FLT_MAX
    {
      assert Live(r, r.keys[k]) && r.keys[k] in rem;
      assert r.keys[k] != rem[j] && r.keys[k] != r.keys[0];
    }
  }

  /** With two interior points left, eliminating one refreshes the other only. */
  lemma OnlyOtherRefreshed(cfg: Config, h: MinHeap, rem: seq<nat>, j: nat, val: real) returns (area: real)
    requires BackPointers(h) && Chained(cfg.n, h, rem)
    requires forall a, b, c :: 0.0 <= cfg.tri(a, b, c) < FLT_MAX
    requires |rem| == 4 && 0 < j < 3 && h.keys[0] == rem[j]
    ensures Live(PopF(h), rem[3 - j]) && area >= val && (area == val || area < FLT_MAX)
    ensures Eliminated(cfg, h, rem, j, val).keys == RefreshF(PopF(h), rem[3 - j], area).keys
  {
    var r, b := PopF(h), rem[3 - j];
    assert Joined(h, rem, j) && Joined(h, rem, j + 1);
    assert b in rem && Live(h, b) && 0 < b < cfg.n - 1;
    area := if j == 2 then Max(cfg.tri(r.nodes[b].prev, b, rem[3]), val)
            else Max(cfg.tri(0, b, r.nodes[b].next), val);
  }

  lemma HasInteriorRoot(cfg: Config, h: MinHeap, rem: seq<nat>)
    requires BackPointers(h) && Chained(cfg.n, h, rem) && |rem| == 4
    ensures InRange(h) && h.used >= 2
  {
  }

  /** Once FLT_MAX is recorded at most one interior point is left, and it stays the root. */
  lemma LastPointIsRoot(cfg: Config, h: MinHeap, rem: seq<nat>, j: nat)
    requires BackPointers(h) && Ordered(h) && Chained(cfg.n, h, rem)
    requires forall a, b, c :: 0.0 <= cfg.tri(a, b, c) < FLT_MAX
    requires |rem| == 4 && 0 < j < 3 && h.keys[0] == rem[j]
    requires h.nodes[0].area == FLT_MAX && h.nodes[cfg.n - 1].area == FLT_MAX
    requires h.nodes[rem[3 - j]].area < FLT_MAX
    ensures Eliminated(cfg, h, rem, j, FLT_MAX).keys[0] == rem[3 - j]
  {
    hide *;
    HasInteriorRoot(cfg, h, rem);
    var r := PopF(h);
    var area := OnlyOtherRefreshed(cfg, h, rem, j, FLT_MAX);
    assert r.keys[0] == rem[3 - j] by {
      OtherPointIsRoot(cfg, h, rem, j);
    }
    assert RefreshF(r, rem[3 - j], area).keys == r.keys by {
      OthersAreEnds(cfg, h, rem, j);
      RefreshedRootStays(r, area);
    }
  }

  /** The heap half of the loop invariant after the root `rem[j]` has been eliminated. */
  lemma EliminatedIsSettled(cfg: Config, h: MinHeap, rem: seq<nat>, lo: real, j: nat, val: real)
    requires BackPointers(h) && Ordered(h) && Chained(cfg.n, h, rem) && Areas(cfg, h, rem, lo)
    requires 0 < j < |rem| - 1 && h.keys[0] == rem[j] && lo <= val
    requires forall k :: 0 < k < |rem| - 1 && k != j - 1 && k != j && k != j + 1 ==> val <= h.nodes[rem[k]].area
    ensures var r := Eliminated(cfg, h, rem, j, val);
      && BackPointers(r) && Ordered(r)
      && Chained(cfg.n, r, RemoveAt(rem, j))
      && Areas(cfg, r, RemoveAt(rem, j), val)
  {
    assert Increasing(rem) && Linked(h, rem) && rem[|rem| - 1] == cfg.n - 1;
    hide *;
    EliminatedKeepsOrder(cfg, h, rem, j, val);
    EliminatedKeepsChain(cfg, h, rem, j, val);
    EliminatedIsTuned(cfg, h, rem, j, val);
    TunedAreas(cfg, h, Eliminated(cfg, h, rem, j, val), rem, lo, j, val);
  }

  /** What one round pops, and with which result. */
  lemma StepPops(cfg: Config, s: State) returns (j: nat, val: real)
    requires ValidConfig(cfg) && Good(cfg, s)
    ensures 0 < j < |s.rem| - 1 && s.heap.keys[0] == s.rem[j]
    ensures val == Recorded(cfg, s.i, Eff(cfg, s.rem, s.lo, j)) && s.lo <= val <= FLT_MAX
    ensures forall k :: 0 < k < |s.rem| - 1 ==> Eff(cfg, s.rem, s.lo, j) <= Eff(cfg, s.rem, s.lo, k)
    ensures val == FLT_MAX && s.heap.used > 3 ==> |s.rem| == 4 && Eff(cfg, s.rem, s.lo, 3 - j) < FLT_MAX
    ensures val < FLT_MAX ==> s.i < cfg.n - cfg.avoid && val == Eff(cfg, s.rem, s.lo, j)
    ensures s.heap.used > 4 ==> val < FLT_MAX
    ensures StepF(cfg, s) ==
            State(Eliminated(cfg, s.heap, s.rem, j, val), s.res[s.rem[j] := val], RemoveAt(s.rem, j), val, s.i + 1)
  {
    hide Live, BackPointers, Ordered, Linked, Increasing, PopF, Eliminated;
    RootIsLeastInterior(cfg, s);
    j := Position(s.rem, s.heap.keys[0]);
    assert s.heap.nodes[s.rem[j]].area == Eff(cfg, s.rem, s.lo, j);
    val := Recorded(cfg, s.i, s.heap.nodes[s.rem[j]].area);
  }

  /** Recording `val` for the eliminated point keeps the results of the points that are
      gone at or below it, and those of the points that remain at FLT_MAX. */
  lemma ResultsAfter(n: nat, res: seq<real>, rem: seq<nat>, lo: real, j: nat, val: real)
    requires Increasing(rem) && |res| == n && j < |rem| && rem[j] < n && 0.0 <= lo <= val
    requires forall q :: 0 <= q < n && q in rem ==> res[q] == FLT_MAX
    requires forall q :: 0 <= q < n && q !in rem ==> 0.0 <= res[q] <= lo
    ensures forall q :: 0 <= q < n && q in RemoveAt(rem, j) ==> res[rem[j] := val][q] == FLT_MAX
    ensures forall q :: 0 <= q < n && q !in RemoveAt(rem, j) ==> 0.0 <= res[rem[j] := val][q] <= val
  {
    RemovedMembers(n, rem, j);
  }

  lemma StepKeepsSettled(cfg: Config, s: State)
    requires ValidConfig(cfg) && Good(cfg, s)
    ensures s.lo <= StepF(cfg, s).lo && Settled(cfg, StepF(cfg, s))
  {
    hide StepF, Eliminated, Live, InRange, BackPointers, Ordered, Linked, Increasing, PopF, RemoveAt;
    var j, val := StepPops(cfg, s);
    ResultsAfter(cfg.n, s.res, s.rem, s.lo, j, val);
    forall k | 0 < k < |s.rem| - 1 && k != j - 1 && k != j && k != j + 1
      ensures val <= s.heap.nodes[s.rem[k]].area
    {
      assert s.heap.nodes[s.rem[k]].area == Eff(cfg, s.rem, s.lo, k);
    }
    hide Chained, Areas, Eff;
    EliminatedIsSettled(cfg, s.heap, s.rem, s.lo, j, val);
  }

  lemma StepKeepsTies(cfg: Config, s: State)
    requires ValidConfig(cfg) && Good(cfg, s)
    ensures var r := StepF(cfg, s);
      r.heap.used >= 3 ==>
        (r.i <= cfg.n - cfg.avoid && r.lo < FLT_MAX) || (r.heap.used == 3 && r.heap.keys[0] == r.rem[1])
  {
    hide StepF, Eliminated, Live, Eff, InRange, BackPointers, Ordered, Linked, Chained, Increasing, PopF;
    var j, val := StepPops(cfg, s);
    if val == FLT_MAX && s.heap.used > 3 {
      assert s.heap.nodes[s.rem[3 - j]].area == Eff(cfg, s.rem, s.lo, 3 - j);
      LastPointIsRoot(cfg, s.heap, s.rem, j);
    }
  }

  /** Every round pops an interior point whose result is at least the previous one, and
      leaves the loop invariant intact. */
  lemma StepKeepsInvariant(cfg: Config, s: State)
    requires ValidConfig(cfg) && Good(cfg, s)
    ensures var r := StepF(cfg, s);
      && s.lo <= r.lo
      && Settled(cfg, r)
      && (r.heap.used >= 3 ==> Good(cfg, r))
  {
    hide Settled, StepF;
    StepKeepsSettled(cfg, s);
    StepKeepsTies(cfg, s);
  }

  /** The loop condition, tested after a round. */
  ghost predicate Stops(cfg: Config, mode: Mode, r: State)
    requires |r.heap.nodes| == cfg.n > 0
  {
    || (!mode.setArea && r.lo >= mode.threshold)
    || r.heap.nodes[0].next == cfg.n - 1
  }

  /** The first link jumps to the last point exactly when no interior point is left. */
  lemma LastLink(n: nat, h: MinHeap, rem: seq<nat>)
    requires Chained(n, h, rem)
    ensures n > 0 && (h.nodes[0].next == n - 1 <==> h.used == 2)
  {
    assert Joined(h, rem, 1);
  }

  /** The whole elimination loop. */
  ghost function RunF(cfg: Config, mode: Mode, s: State): (r: State)
    requires ValidConfig(cfg) && Good(cfg, s)
    ensures Settled(cfg, r)
    decreases s.heap.used
  {
    StepKeepsInvariant(cfg, s);
    var r := StepF(cfg, s);
    LastLink(cfg.n, r.heap, r.rem);
    if Stops(cfg, mode, r) then r else RunF(cfg, mode, r)
  }

  /** One round of a run, in terms of the chain and the results alone. */
  lemma RunUnfolds(cfg: Config, mode: Mode, s: State) returns (j: nat, val: real)
    requires ValidConfig(cfg) && Good(cfg, s)
    ensures 0 < j < |s.rem| - 1 && s.rem[j] < cfg.n && |s.rem| == s.heap.used
    ensures val == Recorded(cfg, s.i, Eff(cfg, s.rem, s.lo, j)) && s.lo <= val <= FLT_MAX
    ensures forall k :: 0 < k < |s.rem| - 1 ==> Eff(cfg, s.rem, s.lo, j) <= Eff(cfg, s.rem, s.lo, k)
    ensures var r := StepF(cfg, s);
      && r.res == s.res[s.rem[j] := val] && r.rem == RemoveAt(s.rem, j) && |r.rem| == |s.rem| - 1
      && r.lo == val && r.i == s.i + 1
      && r.heap.used == s.heap.used - 1
      && |s.res| == |r.res| == cfg.n
      && (forall q :: 0 <= q < cfg.n && q in r.rem ==> r.res[q] == FLT_MAX)
      && (forall q :: q in r.rem <==> q in s.rem && q != s.rem[j])
      && (if |r.rem| == 2 || (!mode.setArea && val >= mode.threshold) then
            RunF(cfg, mode, s) == r
          else
            Good(cfg, r) && RunF(cfg, mode, s) == RunF(cfg, mode, r))
  {
    StepKeepsInvariant(cfg, s);
    j, val := StepPops(cfg, s);
    var r := StepF(cfg, s);
    LastLink(cfg.n, r.heap, r.rem);
    RemovedMembers(cfg.n, s.rem, j);
  }

  /** A run never touches points that are already gone, and gives every other point at
      least the area that was eliminated last. */
  lemma {:induction false} RunBounds(cfg: Config, mode: Mode, s: State)
    requires ValidConfig(cfg) && Good(cfg, s)
    ensures var out := RunF(cfg, mode, s).res;
      && |out| == |s.res| == cfg.n
      && (forall q :: 0 <= q < cfg.n && q !in s.rem ==> out[q] == s.res[q])
      && (forall q :: 0 <= q < cfg.n && q in s.rem ==> out[q] >= s.lo)
    decreases s.heap.used
  {
    hide *;
    var j, val := RunUnfolds(cfg, mode, s);
    var r := StepF(cfg, s);
    if |r.rem| == 2 || (!mode.setArea && val >= mode.threshold) {
    } else {
      RunBounds(cfg, mode, r);
    }
  }

  /** Stopping early is exact: the points at or above the threshold are those of the run
      that computes every area. */
  lemma {:induction false} EarlyStopIsExact(cfg: Config, threshold: real, s: State)
    requires ValidConfig(cfg) && Good(cfg, s)
    ensures var early := RunF(cfg, Mode(false, threshold), s).res;
      var full := RunF(cfg, Mode(true, threshold), s).res;
      && |early| == |full| == cfg.n
      && forall q :: 0 <= q < cfg.n ==> (early[q] >= threshold <==> full[q] >= threshold)
    decreases s.heap.used
  {
    hide *;
    var j, val := RunUnfolds(cfg, Mode(false, threshold), s);
    var j', val' := RunUnfolds(cfg, Mode(true, threshold), s);
    var r := StepF(cfg, s);
    if |r.rem| == 2 {
    } else if val >= threshold {
      RunBounds(cfg, Mode(true, threshold), r);
    } else {
      EarlyStopIsExact(cfg, threshold, r);
    }
  }

  /** The plain algorithm: while an interior point is left, eliminate any one of least
      effective area.  `out` is a possible outcome. */
  ghost predicate PlainRun(cfg: Config, mode: Mode, rem: seq<nat>, lo: real, i: nat, res: seq<real>, out: seq<real>)
    requires |rem| >= 3
    decreases |rem|
  {
    exists j :: 0 < j < |rem| - 1 && PlainRound(cfg, mode, rem, lo, i, res, out, j)
  }

  ghost predicate PlainRound(cfg: Config, mode: Mode, rem: seq<nat>, lo: real, i: nat, res: seq<real>, out: seq<real>,
                             j: nat)
    requires 0 < j < |rem| - 1
    decreases |rem|, 0
  {
    var val := Recorded(cfg, i, Eff(cfg, rem, lo, j));
    && (forall k :: 0 < k < |rem| - 1 ==> Eff(cfg, rem, lo, j) <= Eff(cfg, rem, lo, k))
    && rem[j] < |res|
    && var res' := res[rem[j] := val];
       if |rem| == 3 || (!mode.setArea && val >= mode.threshold) then
         out == res'
       else
         PlainRun(cfg, mode, RemoveAt(rem, j), val, i + 1, res', out)
  }

  lemma PlainRunFrom(cfg: Config, mode: Mode, rem: seq<nat>, lo: real, i: nat, res: seq<real>, out: seq<real>, j: nat)
    requires 0 < j < |rem| - 1 && rem[j] < |res|
    requires forall k :: 0 < k < |rem| - 1 ==> Eff(cfg, rem, lo, j) <= Eff(cfg, rem, lo, k)
    requires var val := Recorded(cfg, i, Eff(cfg, rem, lo, j));
      var res' := res[rem[j] := val];
      if |rem| == 3 || (!mode.setArea && val >= mode.threshold) then
        out == res'
      else
        PlainRun(cfg, mode, RemoveAt(rem, j), val, i + 1, res', out)
    ensures PlainRun(cfg, mode, rem, lo, i, res, out)
  {
    assert PlainRound(cfg, mode, rem, lo, i, res, out, j);
  }

  /** The heap only makes the plain algorithm fast: a run on it is a plain run. */
  lemma {:induction false} RunIsPlain(cfg: Config, mode: Mode, s: State)
    requires ValidConfig(cfg) && Good(cfg, s)
    ensures |s.rem| >= 3 && PlainRun(cfg, mode, s.rem, s.lo, s.i, s.res, RunF(cfg, mode, s).res)
    decreases s.heap.used
  {
    hide *;
    var j, val := RunUnfolds(cfg, mode, s);
    var r := StepF(cfg, s);
    if |r.rem| == 2 || (!mode.setArea && val >= mode.threshold) {
    } else {
      RunIsPlain(cfg, mode, r);
    }
    PlainRunFrom(cfg, mode, s.rem, s.lo, s.i, s.res, RunF(cfg, mode, s).res, j);
  }

  /** The area of a point before anything is eliminated; the ends never go. */
  function FirstArea(cfg: Config, q: nat): real {
    if q == 0 || q + 1 >= cfg.n then FLT_MAX else cfg.tri(q - 1, q, q + 1)
  }

  /** The comparison handed to `qsort`: by area, ties by position. */
  predicate Before(cfg: Config, p: nat, q: nat) {
    FirstArea(cfg, p) < FirstArea(cfg, q) || (FirstArea(cfg, p) == FirstArea(cfg, q) && p < q)
  }

  /** `keys` is a permutation of the points in the order of `Before`. */
  ghost predicate Sorted(cfg: Config, keys: seq<nat>) {
    && |keys| == cfg.n
    && (forall q :: 0 <= q < cfg.n ==> q in keys)
    && (forall k :: 0 <= k < cfg.n ==> keys[k] < cfg.n)
    && (forall a, b :: 0 <= a < b < cfg.n ==> Before(cfg, keys[a], keys[b]))
  }

  /** The first key is the leftmost of the points with the least area. */
  lemma FirstIsLeftmost(cfg: Config, keys: seq<nat>, q: nat)
    requires Sorted(cfg, keys) && q < cfg.n
    ensures FirstArea(cfg, keys[0]) <= FirstArea(cfg, q)
    ensures FirstArea(cfg, keys[0]) == FirstArea(cfg, q) ==> keys[0] <= q
  {
    assert q in keys;
    var k :| 0 <= k < |keys| && keys[k] == q;
    assert k > 0 ==> Before(cfg, keys[0], keys[k]);
  }

  /** Breaking ties by position leaves `qsort` only one possible outcome. */
  lemma {:induction false} SortedIsUnique(cfg: Config, keys: seq<nat>, keys': seq<nat>, k: nat)
    requires Sorted(cfg, keys) && Sorted(cfg, keys') && k <= cfg.n
    ensures keys[..k] == keys'[..k]
  {
    if k > 0 {
      SortedIsUnique(cfg, keys, keys', k - 1);
      assert forall m :: 0 <= m < k - 1 ==> keys[m] == keys[..k - 1][m] == keys'[..k - 1][m] == keys'[m];
      var m, m' := Position(keys', keys[k - 1]), Position(keys, keys'[k - 1]);
      assert k - 1 <= m && k - 1 <= m';
    }
  }

  ghost function FirstNode(cfg: Config, keys: seq<nat>, q: nat): AreaNode
    requires q < cfg.n && q in keys
  {
    AreaNode(FirstArea(cfg, q), Position(keys, q), if q == 0 then 0 else q - 1, if q == cfg.n - 1 then q else q + 1)
  }

  /** The state in which the elimination loop is entered. */
  ghost function Initial(cfg: Config, keys: seq<nat>): State
    requires Sorted(cfg, keys)
  {
    State(MinHeap(seq(cfg.n, q requires 0 <= q < cfg.n => FirstNode(cfg, keys, q)), keys, cfg.n),
          seq(cfg.n, q => FLT_MAX), seq(cfg.n, q => q), 0.0, 0)
  }

  lemma InitialHeap(cfg: Config, keys: seq<nat>)
    requires cfg.n >= 3 && Sorted(cfg, keys)
    ensures BackPointers(Initial(cfg, keys).heap) && Ordered(Initial(cfg, keys).heap)
  {
    var h := Initial(cfg, keys).heap;
    forall k | 0 <= k < cfg.n
      ensures h.nodes[keys[k]].treeindex == k
    {
      var m := Position(keys, keys[k]);
      assert !(m < k) && !(k < m);
    }
    forall k | 0 <= k < h.used
      ensures AreaAt(h, Parent(k)) <= AreaAt(h, k)
    {
      assert k > 0 ==> Parent(k) < k && Before(cfg, keys[Parent(k)], keys[k]);
    }
  }

  lemma InitialChain(cfg: Config, keys: seq<nat>)
    requires cfg.n >= 3 && Sorted(cfg, keys)
    ensures Chained(cfg.n, Initial(cfg, keys).heap, Initial(cfg, keys).rem)
  {
    var s := Initial(cfg, keys);
    forall q | 0 <= q < cfg.n
      ensures Live(s.heap, q) && q in s.rem
    {
      assert s.rem[q] == q;
    }
  }

  lemma InitialAreas(cfg: Config, keys: seq<nat>)
    requires ValidConfig(cfg) && Sorted(cfg, keys)
    ensures var s := Initial(cfg, keys);
      && Areas(cfg, s.heap, s.rem, 0.0)
      && (forall q :: 0 <= q < cfg.n ==> q in s.rem)
      && (cfg.n == 3 ==> keys[0] == s.rem[1])
  {
    var s := Initial(cfg, keys);
    forall q | 0 <= q < cfg.n
      ensures q in s.rem
    {
      assert s.rem[q] == q;
    }
    if cfg.n == 3 {
      var k := Position(keys, 1);
      assert !Before(cfg, 0, 1) && !Before(cfg, 2, 1);
    }
  }

  lemma InitialIsGood(cfg: Config, keys: seq<nat>)
    requires ValidConfig(cfg) && Sorted(cfg, keys)
    ensures Good(cfg, Initial(cfg, keys))
  {
    InitialAreas(cfg, keys);
    hide Sorted, Live, Linked, BackPointers, Ordered, Before, Areas, Increasing;
    InitialHeap(cfg, keys);
    InitialChain(cfg, keys);
  }
}
