/** The working storage of a run, updated in place as in the source. */
module EffectiveAreasStore {
  import opened AreaHeap
  import opened Common
  import opened EffectiveArea

  /** The points at or above the threshold, in order. */
  function Kept(res: seq<real>, threshold: real): (kept: seq<nat>)
    ensures forall q :: 0 <= q < |res| ==> (res[q] >= threshold <==> q in kept)
    ensures forall k :: 0 <= k < |kept| ==> kept[k] < |res|
    ensures Increasing(kept)
  {
    if res == [] then []
    else
      var m := |res| - 1;
      var kept := Kept(res[..m], threshold);
      assert forall q :: 0 <= q < m ==> res[..m][q] == res[q];
      assert (kept + [m])[|kept|] == m;
      assert forall q :: q in kept ==> q in kept + [m];
      if res[m] >= threshold then kept + [m] else kept
  }

  /** The results of the whole computation, for the order in which `qsort` leaves the keys. */
  ghost function Outcome(cfg: Config, mode: Mode, order: seq<nat>): (res: seq<real>)
    requires ValidConfig(cfg) && Sorted(cfg, order)
    ensures |res| == cfg.n
  {
    InitialIsGood(cfg, order);
    RunF(cfg, mode, Initial(cfg, order)).res
  }

  /** Where a run starts, and what it is called to compute. */
  lemma StartsGood(cfg: Config, mode: Mode, order: seq<nat>)
    requires ValidConfig(cfg) && Sorted(cfg, order)
    ensures var s := Initial(cfg, order);
      && Good(cfg, s) && s.lo == 0.0 && s.i == 0 && |s.heap.nodes| == cfg.n
      && RunF(cfg, mode, s).res == Outcome(cfg, mode, order)
  {
    hide RunF, Settled;
    InitialIsGood(cfg, order);
  }

  /** One round of the loop: results never fall, and its test for stopping is the run's. */
  lemma RoundDecides(cfg: Config, mode: Mode, s: State)
    requires ValidConfig(cfg) && Good(cfg, s)
    ensures var r := StepF(cfg, s);
      && s.lo <= r.lo && r.i == s.i + 1 && r.heap.used < s.heap.used && |r.heap.nodes| == cfg.n
      && (if (!mode.setArea && r.lo >= mode.threshold) || r.heap.nodes[0].next == cfg.n - 1 then
            RunF(cfg, mode, s) == r
          else
            Good(cfg, r) && RunF(cfg, mode, s) == RunF(cfg, mode, r))
  {
    var j, val := RunUnfolds(cfg, mode, s);
    StepKeepsInvariant(cfg, s);
    var r := StepF(cfg, s);
    LastLink(cfg.n, r.heap, r.rem);
    hide RunF, StepF, Areas, Ordered, BackPointers;
    assert |r.rem| == r.heap.used;
  }

  class EffectiveAreas {
    const nodes: array<AreaNode>
    const keys: array<nat>
    const res: array<real>
    var usedSize: nat

    constructor (npoints: nat)
      ensures fresh(nodes) && fresh(keys) && fresh(res)
      ensures nodes.Length == keys.Length == res.Length == npoints
    {
      nodes := new AreaNode[npoints](_ => AreaNode(0.0, 0, 0, 0));
      keys := new nat[npoints](_ => 0);
      res := new real[npoints](_ => 0.0);
      usedSize := 0;
    }

    ghost function Heap(): MinHeap
      reads this, nodes, keys
    {
      MinHeap(nodes[..], keys[..], usedSize)
    }

    /** Exchanges two heap slots and repairs the back-pointers. */
    method SwapSlots(i: nat, j: nat)
      requires InRange(Heap()) && i < usedSize && j < usedSize
      modifies nodes, keys
      ensures Heap() == Swap(old(Heap()), i, j)
    {
      var tmp := keys[i];
      keys[i] := keys[j];
      nodes[keys[i]] := nodes[keys[i]].(treeindex := i);
      keys[j] := tmp;
      nodes[keys[j]] := nodes[keys[j]].(treeindex := j);
    }

    method Down(parent: nat)
      requires InRange(Heap()) && parent < usedSize
      modifies nodes, keys
      ensures Heap() == DownF(old(Heap()), parent)
      decreases usedSize - parent
    {
      var left, right, swap := 2 * parent + 1, 2 * parent + 2, parent;
      var leftArea, rightArea := 0.0, 0.0;
      var parentArea := nodes[keys[parent]].area;
      if left < usedSize {
        leftArea := nodes[keys[left]].area;
        if parentArea > leftArea {
          swap := left;
        }
      }
      if right < usedSize {
        rightArea := nodes[keys[right]].area;
        if rightArea < parentArea && rightArea < leftArea {
          swap := right;
        }
      }
      assert swap == DownTarget(Heap(), parent);
      if swap > parent {
        SwapSlots(parent, swap);
        if swap < usedSize {
          Down(swap);
        }
      }
    }

    method Up(e: nat)
      requires InRange(Heap()) && e < usedSize
      modifies nodes, keys
      ensures Heap() == UpF(old(Heap()), e)
    {
      var c: nat := e;
      var parent: nat := Parent(c);
      while nodes[keys[c]].area < nodes[keys[parent]].area
        invariant c < usedSize && parent == Parent(c)
        invariant InRange(Heap())
        invariant UpF(Heap(), c) == UpF(old(Heap()), e)
        decreases c
      {
        SwapSlots(parent, c);
        c := parent;
        parent := Parent(c);
      }
    }

    method MinheapPop() returns (least: nat)
      requires InRange(Heap()) && usedSize >= 2
      modifies this, nodes, keys
      ensures least == old(keys[0]) && Heap() == PopF(old(Heap()))
    {
      least := keys[0];
      keys[0] := keys[usedSize - 1];
      nodes[keys[0]] := nodes[keys[0]].(treeindex := 0);
      usedSize := usedSize - 1;
      assert Heap() == Uprooted(old(Heap()));
      Down(0);
    }

    method MinheapUpdate(idx: nat)
      requires InRange(Heap()) && idx < usedSize
      modifies nodes, keys
      ensures Heap() == UpdateF(old(Heap()), idx)
    {
      var parent := Parent(idx);
      if nodes[keys[idx]].area < nodes[keys[parent]].area {
        Up(idx);
      } else {
        Down(idx);
      }
    }
  
    /** The arrays describe the line before any elimination. */
    ghost predicate Fresh(cfg: Config)
      reads this, nodes, keys, res
    {
      && nodes.Length == keys.Length == res.Length == cfg.n
      && (forall q :: 0 <= q < cfg.n ==>
            && nodes[q].area == FirstArea(cfg, q)
            && nodes[q].prev == (if q == 0 then 0 else q - 1)
            && nodes[q].next == (if q == cfg.n - 1 then q else q + 1))
      && (forall q :: 0 <= q < cfg.n ==> res[q] == FLT_MAX)
    }

    /** `keys` holds every point exactly once. */
    ghost predicate Permutation(cfg: Config)
      reads this, keys
    {
      && keys.Length == cfg.n
      && (forall q :: 0 <= q < cfg.n ==> q in keys[..])
      && (forall a :: 0 <= a < cfg.n ==> keys[a] < cfg.n)
      && (forall a, b :: 0 <= a < b < cfg.n ==> keys[a] != keys[b])
    }

    method SwapDown(cfg: Config, j: nat)
      requires Permutation(cfg) && 0 < j < cfg.n
      modifies keys
      ensures Permutation(cfg)
      ensures keys[..] == old(keys[..])[j := old(keys[j - 1])][j - 1 := old(keys[j])]
    {
      ghost var was := keys[..];
      keys[j], keys[j - 1] := keys[j - 1], keys[j];
      forall q | 0 <= q < cfg.n
        ensures q in keys[..]
      {
        var k := Position(was, q);
        assert keys[..][if k == j then j - 1 else if k == j - 1 then j else k] == q;
      }
    }

    method InsertKey(cfg: Config, i: nat)
      requires Permutation(cfg) && i < cfg.n
      requires forall a, b :: 0 <= a < b < i ==> Before(cfg, keys[a], keys[b])
      modifies keys
      ensures Permutation(cfg)
      ensures forall a, b :: 0 <= a < b <= i ==> Before(cfg, keys[a], keys[b])
    {
      var j: nat := i;
      while j > 0 && Before(cfg, keys[j], keys[j - 1])
        invariant j <= i && Permutation(cfg)
        invariant forall a, b :: 0 <= a < b <= i && b != j ==> Before(cfg, keys[a], keys[b])
      {
        SwapDown(cfg, j);
        j := j - 1;
      }
      forall a | 0 <= a < j
        ensures Before(cfg, keys[a], keys[j])
      {
        assert a < j - 1 ==> Before(cfg, keys[a], keys[j - 1]);
      }
    }

    /** The library sort, for the comparison `Before`. */
    method Qsort(cfg: Config)
      requires Permutation(cfg)
      modifies keys
      ensures Sorted(cfg, keys[..])
    {
      for i := 0 to cfg.n
        invariant Permutation(cfg)
        invariant forall a, b :: 0 <= a < b < i ==> Before(cfg, keys[a], keys[b])
      {
        InsertKey(cfg, i);
      }
    }
  
    ghost predicate Shaped(cfg: Config)
    {
      nodes.Length == keys.Length == res.Length == cfg.n
    }

    method Refresh(q: nat, area: real)
      requires BackPointers(Heap()) && Live(Heap(), q)
      modifies nodes, keys
      ensures Heap() == RefreshF(old(Heap()), q, area)
    {
      nodes[q] := nodes[q].(area := area);
      MinheapUpdate(nodes[q].treeindex);
    }

    /** Recomputes the areas of the two neighbours of an eliminated point. */
    method Retune(cfg: Config, before: nat, after: nat, val: real)
      requires Shaped(cfg) && BackPointers(Heap())
      requires before > 0 ==> Live(Heap(), before)
      requires after < cfg.n - 1 ==> Live(Heap(), after)
      modifies nodes, keys
      ensures Heap() == Retuned(cfg, old(Heap()), before, after, val)
    {
      if before > 0 {
        var area := cfg.tri(nodes[before].prev, before, after);
        Refresh(before, Max(area, val));
      }
      if after < cfg.n - 1 {
        var area := cfg.tri(before, after, nodes[after].next);
        Refresh(after, Max(area, val));
      }
    }

    /** Makes the eliminated point invisible to its neighbours. */
    method Close(current: nat, before: nat, after: nat)
      requires InRange(Heap()) && current < nodes.Length && before < nodes.Length && after < nodes.Length
      requires before != current && nodes[current].prev == before && nodes[current].next == after
      modifies nodes
      ensures Heap() == Relink(old(Heap()), before, after)
    {
      nodes[before] := nodes[before].(next := nodes[current].next);
      nodes[after] := nodes[after].(prev := nodes[current].prev);
    }

    /** Pops the least point and records its result. */
    method PopAndRecord(cfg: Config, i: nat) returns (current: nat)
      requires Shaped(cfg) && InRange(Heap()) && usedSize >= 2
      modifies this, nodes, keys, res
      ensures current == old(keys[0]) && current < cfg.n && Heap() == PopF(old(Heap()))
      ensures res[..] == old(res[..])[current := Recorded(cfg, i, nodes[current].area)]
    {
      current := MinheapPop();
      if i < cfg.n - cfg.avoid {
        res[current] := nodes[current].area;
      } else {
        res[current] := FLT_MAX;
      }
    }

    /** Recomputes the areas on both sides of an eliminated point and closes the chain over it. */
    method CloseGap(cfg: Config, current: nat, before: nat, after: nat, val: real)
      requires Shaped(cfg) && BackPointers(Heap()) && current < cfg.n && before < cfg.n && after < cfg.n
      requires before > 0 ==> Live(Heap(), before)
      requires after < cfg.n - 1 ==> Live(Heap(), after)
      requires before != current && nodes[current].prev == before && nodes[current].next == after
      modifies nodes, keys
      ensures Heap() == Relink(Retuned(cfg, old(Heap()), before, after, val), before, after)
    {
      hide Retuned, Relink, Live;
      ghost var h := Heap();
      assert h.nodes[current] == nodes[current];
      Retune(cfg, before, after, val);
      assert nodes[current] == Heap().nodes[current];
      RetunedLinks(cfg, h, before, after, val, current);
      Close(current, before, after);
    }

    /** One round: pops the least point, recomputes its neighbours' areas and closes the
        chain over it. */
    method Eliminate(cfg: Config, i: nat, ghost rem: seq<nat>, ghost j: nat) returns (current: nat)
      requires Shaped(cfg) && BackPointers(Heap()) && Chained(cfg.n, Heap(), rem)
      requires 0 < j < |rem| - 1 && keys[0] == rem[j]
      modifies this, nodes, keys, res
      ensures current == rem[j] && current < cfg.n
      ensures res[..] == old(res[..])[current := Recorded(cfg, i, old(nodes[rem[j]].area))]
      ensures Heap() == Eliminated(cfg, old(Heap()), rem, j, res[current])
    {
      ghost var h := Heap();
      assert h.keys[0] == keys[0];
      hide PopF, Retuned, Relink, Chained, BackPointers, Live, Eliminated, Recorded, InRange;
      PoppedNeighbours(cfg.n, h, rem, j);
      current := PopAndRecord(cfg, i);
      assert nodes[current] == Heap().nodes[current] && h.nodes[current] == old(nodes[rem[j]]);
      CloseGap(cfg, current, nodes[current].prev, nodes[current].next, res[current]);
      EliminatedUnfolds(cfg, h, rem, j, res[current]);
    }

    method Round(cfg: Config, i: nat, ghost s: State) returns (current: nat)
      requires ValidConfig(cfg) && Good(cfg, s) && Shaped(cfg)
      requires s.heap == Heap() && s.res == res[..] && s.i == i
      modifies this, nodes, keys, res
      ensures Heap() == StepF(cfg, s).heap && res[..] == StepF(cfg, s).res
      ensures current < cfg.n && res[current] == StepF(cfg, s).lo
    {
      ghost var j, val := StepPops(cfg, s);
      assert nodes[s.rem[j]].area == Eff(cfg, s.rem, s.lo, j);
      current := Eliminate(cfg, i, s.rem, j);
    }

    /** Points the heap array at every node in order. */
    method FillKeys(cfg: Config)
      requires keys.Length == cfg.n
      modifies this, keys
      ensures usedSize == cfg.n && Permutation(cfg)
    {
      for i := 0 to cfg.n
        invariant forall q :: 0 <= q < i ==> keys[q] == q
      {
        keys[i] := i;
      }
      usedSize := cfg.n;
      forall q | 0 <= q < cfg.n
        ensures q in keys[..]
      {
        assert keys[..][q] == q;
      }
    }

    /** Puts references to the heap array into the nodes. */
    method SetTreeIndexes(cfg: Config)
      requires ValidConfig(cfg) && Fresh(cfg) && Sorted(cfg, keys[..])
      modifies nodes
      ensures nodes[..] == Initial(cfg, keys[..]).heap.nodes
    {
      for i := 0 to cfg.n
        invariant forall q :: 0 <= q < cfg.n ==>
                    && nodes[q].area == FirstArea(cfg, q)
                    && nodes[q].prev == (if q == 0 then 0 else q - 1)
                    && nodes[q].next == (if q == cfg.n - 1 then q else q + 1)
        invariant forall k :: 0 <= k < i ==> nodes[keys[k]].treeindex == k
      {
        assert forall k :: 0 <= k < i ==> Before(cfg, keys[..][k], keys[..][i]);
        nodes[keys[i]] := nodes[keys[i]].(treeindex := i);
      }
      forall q | 0 <= q < cfg.n
        ensures nodes[q] == FirstNode(cfg, keys[..], q)
      {
        assert keys[..][Position(keys[..], q)] == q;
      }
    }

    method FillHeap(cfg: Config)
      requires ValidConfig(cfg) && Fresh(cfg)
      modifies this, nodes, keys
      ensures Sorted(cfg, keys[..])
      ensures Heap() == Initial(cfg, keys[..]).heap
    {
      FillKeys(cfg);
      Qsort(cfg);
      SetTreeIndexes(cfg);
    }

    /** The elimination loop.  `order` names the order `qsort` chose; `wrongOrder` is the
        error the loop raises when the heap hands out a smaller area than before. */
    method TuneAreas(cfg: Config, mode: Mode) returns (wrongOrder: bool, ghost order: seq<nat>)
      requires ValidConfig(cfg) && Fresh(cfg)
      modifies this, nodes, keys, res
      ensures Sorted(cfg, order) && res[..] == Outcome(cfg, mode, order)
      ensures !wrongOrder
    {
      hide Settled, Good, RunF, StepF, Sorted, Outcome;
      FillHeap(cfg);
      order := keys[..];
      wrongOrder := false;
      ghost var s0 := Initial(cfg, order);
      ghost var s := s0;
      StartsGood(cfg, mode, order);
      assert res[..] == s.res;
      var checkOrderMinArea, i, goOn := 0.0, 0, true;
      while goOn
        invariant Shaped(cfg) && s.heap == Heap() && s.res == res[..]
        invariant checkOrderMinArea == s.lo && i == s.i
        invariant goOn ==> Good(cfg, s) && RunF(cfg, mode, s) == RunF(cfg, mode, s0)
        invariant !goOn ==> s == RunF(cfg, mode, s0)
        invariant !wrongOrder
        decreases goOn, usedSize
      {
        RoundDecides(cfg, mode, s);
        ghost var r := StepF(cfg, s);
        var current := Round(cfg, i, s);
        assert nodes[0] == r.heap.nodes[0];
        if res[current] < checkOrderMinArea {
          wrongOrder := true;
        }
        checkOrderMinArea := res[current];
        if (!mode.setArea && res[current] >= mode.threshold) || nodes[0].next == cfg.n - 1 {
          goOn := false;
        }
        i := i + 1;
        s := r;
      }
    }

    /** Sets up the areas and links of a line that nothing has been removed from, and runs
        the elimination. */
    method CalcAreas(cfg: Config, mode: Mode) returns (wrongOrder: bool, ghost order: seq<nat>)
      requires ValidConfig(cfg) && Shaped(cfg)
      modifies this, nodes, keys, res
      ensures Sorted(cfg, order) && res[..] == Outcome(cfg, mode, order)
      ensures !wrongOrder
    {
      nodes[0] := AreaNode(FLT_MAX, nodes[0].treeindex, 0, 1);
      nodes[cfg.n - 1] := AreaNode(FLT_MAX, nodes[cfg.n - 1].treeindex, cfg.n - 2, cfg.n - 1);
      res[0], res[cfg.n - 1] := FLT_MAX, FLT_MAX;
      for i := 1 to cfg.n - 1
        invariant nodes[0].area == FLT_MAX && nodes[0].prev == 0 && nodes[0].next == 1
        invariant nodes[cfg.n - 1].area == FLT_MAX
        invariant nodes[cfg.n - 1].prev == cfg.n - 2 && nodes[cfg.n - 1].next == cfg.n - 1
        invariant res[0] == FLT_MAX && res[cfg.n - 1] == FLT_MAX
        invariant forall q :: 0 < q < i ==>
                    && nodes[q].area == cfg.tri(q - 1, q, q + 1)
                    && nodes[q].prev == q - 1
                    && nodes[q].next == q + 1
      {
        nodes[i] := AreaNode(cfg.tri(i - 1, i, i + 1), nodes[i].treeindex, i - 1, i + 1);
      }
      for i := 1 to cfg.n - 1
        invariant res[0] == FLT_MAX && res[cfg.n - 1] == FLT_MAX
        invariant forall q :: 0 <= q < i ==> res[q] == FLT_MAX
        invariant forall q :: 0 <= q < cfg.n ==>
                    && nodes[q].area == FirstArea(cfg, q)
                    && nodes[q].prev == (if q == 0 then 0 else q - 1)
                    && nodes[q].next == (if q == cfg.n - 1 then q else q + 1)
      {
        res[i] := FLT_MAX;
      }
      wrongOrder, order := TuneAreas(cfg, mode);
    }
  }

  /** A point of the result.  Its M is the effective area where areas are asked for, and that
      of the input, if any, where they are not. */
  datatype Output = Output(point: nat, area: Option<real>)

  /** The points at or above the threshold, in order, with their areas if these are asked for. */
  ghost predicate IsOutput(mode: Mode, res: seq<real>, out: seq<Output>) {
    var kept := Kept(res, mode.threshold);
    && |out| == |kept|
    && forall k :: 0 <= k < |out| ==>
                     out[k] == Output(kept[k], if mode.setArea then Some(res[kept[k]]) else None)
  }

  /** Appends the points at or above the threshold. */
  method CollectKept(mode: Mode, res: array<real>) returns (opts: seq<Output>)
    ensures IsOutput(mode, res[..], opts)
  {
    opts := [];
    for p := 0 to res.Length
      invariant IsOutput(mode, res[..p], opts)
    {
      assert res[..p + 1][..p] == res[..p];
      if res[p] >= mode.threshold {
        opts := opts + [Output(p, if mode.setArea then Some(res[p]) else None)];
      }
    }
    assert res[..res.Length] == res[..];
  }

  lemma {:induction false} KeptAgrees(res: seq<real>, res': seq<real>, threshold: real)
    requires |res| == |res'|
    requires forall q :: 0 <= q < |res| ==> (res[q] >= threshold <==> res'[q] >= threshold)
    ensures Kept(res, threshold) == Kept(res', threshold)
  {
    if res != [] {
      KeptAgrees(res[..|res| - 1], res'[..|res| - 1], threshold);
    }
  }

  /** Stopping at the threshold keeps exactly the points that the full computation keeps,
      whatever order `qsort` chose in either. */
  lemma ThresholdRunIsExact(cfg: Config, threshold: real, order: seq<nat>, order': seq<nat>)
    requires ValidConfig(cfg) && Sorted(cfg, order) && Sorted(cfg, order')
    ensures Kept(Outcome(cfg, Mode(false, threshold), order), threshold)
         == Kept(Outcome(cfg, Mode(true, threshold), order'), threshold)
  {
    assert order == order' by {
      SortedIsUnique(cfg, order, order', cfg.n);
      assert order[..cfg.n] == order && order'[..cfg.n] == order';
    }
    hide Good, Settled, Sorted, Initial, RunF, ValidConfig, Kept;
    InitialIsGood(cfg, order);
    EarlyStopIsExact(cfg, threshold, Initial(cfg, order));
    KeptAgrees(Outcome(cfg, Mode(false, threshold), order), Outcome(cfg, Mode(true, threshold), order), threshold);
  }

  /** The areas computed are those of the plain algorithm on the whole line. */
  lemma OutcomeIsPlain(cfg: Config, mode: Mode, order: seq<nat>)
    requires ValidConfig(cfg) && Sorted(cfg, order)
    ensures PlainRun(cfg, mode, seq(cfg.n, q => q), 0.0, 0, seq(cfg.n, q => FLT_MAX), Outcome(cfg, mode, order))
  {
    InitialIsGood(cfg, order);
    RunIsPlain(cfg, mode, Initial(cfg, order));
  }

  /** Some full run of the plain algorithm gives the points of the result, and no others, an
      effective area that reaches the threshold, which is the area stored with them. */
  ghost predicate PlainOutput(cfg: Config, mode: Mode, out: seq<Output>) {
    exists res :: FullPlainRun(cfg, mode.threshold, res) && IsOutput(mode, res, out)
  }

  ghost predicate FullPlainRun(cfg: Config, threshold: real, res: seq<real>) {
    cfg.n >= 3 && PlainRun(cfg, Mode(true, threshold), seq(cfg.n, q => q), 0.0, 0, seq(cfg.n, q => FLT_MAX), res)
  }

  // ----- how many points survive

  /** The number of points whose result is FLT_MAX. */
  function Finals(res: seq<real>): (n: nat)
    ensures n <= |res|
  {
    if res == [] then 0
    else Finals(res[..|res| - 1]) + if res[|res| - 1] == FLT_MAX then 1 else 0
  }

  lemma {:induction false} FinalsUpdate(res: seq<real>, q: nat, val: real)
    requires q < |res| && res[q] == FLT_MAX
    ensures Finals(res[q := val]) == Finals(res) - if val == FLT_MAX then 0 else 1
  {
    var m := |res| - 1;
    if q < m {
      assert res[q := val][..m] == res[..m][q := val];
      FinalsUpdate(res[..m], q, val);
    } else {
      assert res[q := val][..m] == res[..m];
    }
  }

  lemma {:induction false} AllFinal(n: nat)
    ensures Finals(seq(n, q => FLT_MAX)) == n
  {
    if n > 0 {
      assert seq(n, q => FLT_MAX)[..n - 1] == seq(n - 1, q => FLT_MAX);
      AllFinal(n - 1);
    }
  }

  /** What a plain run has done after `i` rounds. */
  ghost predicate Running(cfg: Config, rem: seq<nat>, lo: real, i: nat, res: seq<real>) {
    && |rem| >= 3 && |rem| + i == cfg.n == |res| && Increasing(rem) && rem[|rem| - 1] < cfg.n
    && (forall k :: 0 <= k < |rem| ==> rem[k] < cfg.n && res[rem[k]] == FLT_MAX)
    && (forall q :: 0 <= q < cfg.n ==> res[q] <= FLT_MAX)
    && lo <= FLT_MAX && (i <= cfg.n - cfg.avoid ==> lo < FLT_MAX)
  }

  /** One round records an area below FLT_MAX, unless only the points to avoid losing are left. */
  lemma RunningOn(cfg: Config, rem: seq<nat>, lo: real, i: nat, res: seq<real>, j: nat)
    requires ValidConfig(cfg) && Running(cfg, rem, lo, i, res) && 0 < j < |rem| - 1
    ensures var val := Recorded(cfg, i, Eff(cfg, rem, lo, j));
      && val <= FLT_MAX && (val < FLT_MAX <==> i < cfg.n - cfg.avoid)
      && (|rem| > 3 ==> Running(cfg, RemoveAt(rem, j), val, i + 1, res[rem[j] := val]))
      && RemoveAt(rem, j)[0] == rem[0] && RemoveAt(rem, j)[|rem| - 2] == rem[|rem| - 1]
  {
    var rest := RemoveAt(rem, j);
    assert forall k :: 0 <= k < |rest| ==> rest[k] == if k < j then rem[k] else rem[k + 1];
  }

  /** How many of the rounds still to come record an area. */
  function RoundsRecorded(cfg: Config, left: nat, i: nat): nat {
    if i >= cfg.n - cfg.avoid then 0 else if i + left <= cfg.n - cfg.avoid then left else cfg.n - cfg.avoid - i
  }

  lemma {:induction false} FullRunFinals(cfg: Config, threshold: real, rem: seq<nat>, lo: real, i: nat, res: seq<real>,
                                         out: seq<real>)
    requires ValidConfig(cfg) && Running(cfg, rem, lo, i, res)
    requires PlainRun(cfg, Mode(true, threshold), rem, lo, i, res, out)
    ensures |out| == cfg.n && forall q :: 0 <= q < cfg.n ==> out[q] <= FLT_MAX
    ensures Finals(out) == Finals(res) - RoundsRecorded(cfg, |rem| - 2, i)
    ensures out[rem[0]] == out[rem[|rem| - 1]] == FLT_MAX
    decreases |rem|
  {
    hide Eff, Recorded, RemoveAt;
    var mode := Mode(true, threshold);
    var j :| 0 < j < |rem| - 1 && PlainRound(cfg, mode, rem, lo, i, res, out, j);
    var val := Recorded(cfg, i, Eff(cfg, rem, lo, j));
    RunningOn(cfg, rem, lo, i, res, j);
    FinalsUpdate(res, rem[j], val);
    if |rem| > 3 {
      hide PlainRun;
      FullRunFinals(cfg, threshold, RemoveAt(rem, j), val, i + 1, res[rem[j] := val], out);
    }
  }

  /** Two points survive any threshold up to FLT_MAX, or as many as must not be lost. */
  function Survivors(cfg: Config): int {
    if cfg.avoid <= 2 then 2 else if cfg.avoid <= cfg.n then cfg.avoid else cfg.n
  }

  /** In a full run exactly the survivors get FLT_MAX, the two ends among them. */
  lemma SurvivorsAreFinal(cfg: Config, threshold: real, res: seq<real>)
    requires ValidConfig(cfg) && FullPlainRun(cfg, threshold, res)
    ensures |res| == cfg.n && Finals(res) == Survivors(cfg) && res[0] == res[cfg.n - 1] == FLT_MAX
    ensures forall q :: 0 <= q < cfg.n ==> res[q] <= FLT_MAX
  {
    hide PlainRun;
    AllFinal(cfg.n);
    FullRunFinals(cfg, threshold, seq(cfg.n, q => q), 0.0, 0, seq(cfg.n, q => FLT_MAX), res);
  }

  lemma {:induction false} KeptCount(res: seq<real>, threshold: real)
    requires threshold <= FLT_MAX && forall q :: 0 <= q < |res| ==> res[q] <= FLT_MAX
    ensures |Kept(res, threshold)| >= Finals(res)
    ensures threshold == FLT_MAX ==> |Kept(res, threshold)| == Finals(res)
  {
    if res != [] {
      KeptCount(res[..|res| - 1], threshold);
    }
  }

  /** What the result has of a line: its ends, and no fewer points than survive. */
  lemma OutputSurvives(cfg: Config, mode: Mode, out: seq<Output>)
    requires ValidConfig(cfg) && PlainOutput(cfg, mode, out)
    ensures mode.threshold <= FLT_MAX ==>
              |out| >= Survivors(cfg) && out[0].point == 0 && out[|out| - 1].point == cfg.n - 1
    ensures mode.threshold == FLT_MAX ==> |out| == Survivors(cfg)
  {
    hide FullPlainRun;
    var res :| FullPlainRun(cfg, mode.threshold, res) && IsOutput(mode, res, out);
    SurvivorsAreFinal(cfg, mode.threshold, res);
    if mode.threshold <= FLT_MAX {
      KeptCount(res, mode.threshold);
      var kept := Kept(res, mode.threshold);
      assert 0 in kept && cfg.n - 1 in kept;
    }
  }

  lemma OutcomeIsPlainOutput(cfg: Config, mode: Mode, order: seq<nat>, out: seq<Output>)
    requires ValidConfig(cfg) && Sorted(cfg, order) && IsOutput(mode, Outcome(cfg, mode, order), out)
    ensures PlainOutput(cfg, mode, out)
  {
    assert cfg.n >= 3;
    hide ValidConfig, Sorted, PlainRun, Kept, Outcome;
    var full := Mode(true, mode.threshold);
    OutcomeIsPlain(cfg, full, order);
    assert FullPlainRun(cfg, mode.threshold, Outcome(cfg, full, order));
    if !mode.setArea {
      assert mode == Mode(false, mode.threshold);
      ThresholdRunIsExact(cfg, mode.threshold, order, order);
      assert IsOutput(mode, Outcome(cfg, full, order), out);
    } else {
      assert mode == full;
    }
  }

  /** The points that survive at the threshold.  Whether the caller asks for areas or lets the
      run stop early, they are the points that the plain algorithm, run to its end, keeps; areas
      asked for are those it gives them. */
  method SetEffectiveArea(cfg: Config, mode: Mode) returns (opts: seq<Output>)
    requires ValidConfig(cfg)
    ensures PlainOutput(cfg, mode, opts)
    ensures mode.threshold <= FLT_MAX ==>
              |opts| >= Survivors(cfg) && opts[0].point == 0 && opts[|opts| - 1].point == cfg.n - 1
    ensures mode.threshold == FLT_MAX ==> |opts| == Survivors(cfg)
  {
    hide Sorted, Kept, Outcome, PlainOutput, IsOutput;
    var ea := new EffectiveAreas(cfg.n);
    var wrongOrder;
    ghost var order;
    wrongOrder, order := ea.CalcAreas(cfg, mode);
    opts := CollectKept(mode, ea.res);
    OutcomeIsPlainOutput(cfg, mode, order, opts);
    OutputSurvives(cfg, mode, opts);
  }
}
