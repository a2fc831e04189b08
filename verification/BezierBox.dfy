/** The bounding box of a rational Bezier span by recursive halving. */
module BezierBox {
  import opened BezierCurve
  import opened BezierSpan

  /** A box that grows in place. */
  class GBox {
    var hasZ: bool
    var hasM: bool
    var x: Range
    var y: Range
    var z: Range
    var m: Range

    constructor (hasZ: bool, hasM: bool)
      ensures Value() == EmptyBox(hasZ, hasM)
    {
      this.hasZ, this.hasM := hasZ, hasM;
      x, y, z, m := INVERTED, INVERTED, INVERTED, INVERTED;
    }

    ghost function Value(): Box
      reads this
    {
      Box(hasZ, hasM, x, y, z, m)
    }

    method AddPoint(px: real, py: real, pz: real, pm: real, ghost h: HPoint)
      requires h.w != 0.0 && px == h.x / h.w && py == h.y / h.w && pz == h.z / h.w && pm == h.m / h.w
      modifies this
      ensures Value() == WithPoint(old(Value()), h)
    {
      x := Extended(x, px);
      y := Extended(y, py);
      if hasZ {
        z := Extended(z, pz);
      }
      if hasM {
        m := Extended(m, pm);
      }
    }

    /** Projects a control point; fails on a zero weight. */
    method AddHPoint(h: HPoint) returns (ok: bool)
      modifies this
      ensures ok <==> h.w != 0.0
      ensures Value() == if h.w != 0.0 then WithPoint(old(Value()), h) else old(Value())
    {
      if h.w == 0.0 {
        return false;
      }
      AddPoint(h.x / h.w, h.y / h.w, h.z / h.w, h.m / h.w, h);
      return true;
    }

    method Merge(newBox: GBox) returns (ok: bool)
      requires newBox != this
      modifies this
      ensures ok <==> SameFlags(old(Value()), newBox.Value())
      ensures Value() == if ok then WithBox(old(Value()), newBox.Value()) else old(Value())
    {
      if hasZ != newBox.hasZ || hasM != newBox.hasM {
        return false;
      }
      x := Merged(x, newBox.x);
      y := Merged(y, newBox.y);
      if hasZ {
        z := Merged(z, newBox.z);
      }
      if hasM {
        m := Merged(m, newBox.m);
      }
      return true;
    }
  }

  // ----- the pieces of a step

  /** The box of all control points, or failure at a zero weight. */
  method HullGBox(points: array<HPoint>, hasZ: bool, hasM: bool) returns (ok: bool, gbox: GBox)
    ensures fresh(gbox)
    ensures ok <==> NoZeroWeight(points[..])
    ensures ok ==> gbox.Value() == Hull(points[..], hasZ, hasM)
  {
    gbox := new GBox(hasZ, hasM);
    ghost var p := points[..];
    assert p[..points.Length] == p;
    for i := 0 to points.Length
      invariant points[..] == p && fresh(gbox)
      invariant NoZeroWeight(p[..i]) && gbox.Value() == HullBox(p, i, hasZ, hasM)
    {
      assert p[..i + 1] == p[..i] + [p[i]];
      var added := gbox.AddHPoint(points[i]);
      if !added {
        return false, gbox;
      }
    }
    return true, gbox;
  }

  /** The box of the two ends. */
  method EndpointGBox(points: array<HPoint>, hasZ: bool, hasM: bool) returns (ok: bool, gbox: GBox)
    requires points.Length > 0
    ensures fresh(gbox)
    ensures ok <==> points[0].w != 0.0 && points[points.Length - 1].w != 0.0
    ensures ok ==> gbox.Value() == Ends(points[..], hasZ, hasM)
  {
    gbox := new GBox(hasZ, hasM);
    ok := gbox.AddHPoint(points[0]);
    if ok {
      ok := gbox.AddHPoint(points[points.Length - 1]);
    }
  }

  /** The two halves, computed in place in one temporary row. */
  method Split(points: array<HPoint>, left: array<HPoint>, right: array<HPoint>)
    requires 0 < points.Length == left.Length == right.Length
    requires points != left && points != right && left != right
    modifies left, right
    ensures left[..] == Left(points[..]) && right[..] == Right(points[..])
  {
    hide *;
    var n := points.Length;
    ghost var p := points[..];
    var tmp := new HPoint[n](i requires 0 <= i < n reads points => points[i]);
    assert tmp[..n] == p;
    left[0] := tmp[0];
    right[n - 1] := tmp[n - 1];
    ghost var round := p;
    HalvingStarts(p);
    assert left[..1] == [p[0]] && right[n - 1..] == [p[n - 1]];
    for r := 1 to n
      invariant |round| == n - r + 1 && tmp[..n - r + 1] == round && Halving(p, round, left[..r], right[n - r..])
    {
      HalvingGoesOn(p, round, left[..r], right[n - r..]);
      SplitRound(tmp, left, right, r);
      round := Halved(round);
    }
    HalvingEnds(p, round, left[..n], right[0..]);
    assert left[..n] == left[..] && right[0..] == right[..];
  }

  /** The rounds up to `round` have given `l` to the first half and `r` to the second. */
  predicate Halving(p: seq<HPoint>, round: seq<HPoint>, l: seq<HPoint>, r: seq<HPoint>) {
    Left(p) == l + Left(Halved(round)) && Right(p) == Right(Halved(round)) + r
  }

  lemma HalvingStarts(p: seq<HPoint>)
    requires p != []
    ensures Halving(p, p, [p[0]], [p[|p| - 1]])
  {
    HalvesStep(p);
  }

  lemma HalvingGoesOn(p: seq<HPoint>, round: seq<HPoint>, l: seq<HPoint>, r: seq<HPoint>)
    requires |round| > 1 && Halving(p, round, l, r)
    ensures var next := Halved(round);
      |next| == |round| - 1 && Halving(p, next, l + [next[0]], [next[|next| - 1]] + r)
  {
    hide Left, Right, Halved;
    var next := Halved(round);
    HalvesStep(next);
    assert l + ([next[0]] + Left(Halved(next))) == l + [next[0]] + Left(Halved(next));
    assert Right(Halved(next)) + [next[|next| - 1]] + r == Right(Halved(next)) + ([next[|next| - 1]] + r);
  }

  lemma HalvingEnds(p: seq<HPoint>, round: seq<HPoint>, l: seq<HPoint>, r: seq<HPoint>)
    requires |round| == 1 && Halving(p, round, l, r)
    ensures l == Left(p) && r == Right(p)
  {
    NothingLeft(round);
  }

  /** One round: its first and last points go to the halves. */
  method SplitRound(tmp: array<HPoint>, left: array<HPoint>, right: array<HPoint>, r: nat)
    requires tmp != left && tmp != right && left != right && 0 < r < tmp.Length == left.Length == right.Length
    modifies tmp, left, right
    ensures var n, round := tmp.Length, Halved(old(tmp[..tmp.Length - r + 1]));
      && tmp[..n - r] == round
      && left[..r + 1] == old(left[..r]) + [round[0]]
      && right[n - r - 1..] == [round[n - r - 1]] + old(right[tmp.Length - r..])
  {
    hide Lerp, Halved;
    var n := tmp.Length;
    HalveRow(tmp, n - r + 1);
    assert tmp[..n - r][0] == tmp[0] && tmp[..n - r][n - r - 1] == tmp[n - r - 1];
    left[r] := tmp[0];
    right[n - r - 1] := tmp[n - r - 1];
  }

  lemma HalvesStep(p: seq<HPoint>)
    requires p != []
    ensures Left(p) == [p[0]] + Left(Halved(p)) && Right(p) == Right(Halved(p)) + [p[|p| - 1]]
  {
  }

  lemma NothingLeft(p: seq<HPoint>)
    requires |p| == 1
    ensures Left(Halved(p)) == [] && Right(Halved(p)) == []
  {
  }

  /** One round over the first `n` slots, each overwritten by the middle of it and the next. */
  method HalveRow(tmp: array<HPoint>, n: nat)
    requires 1 < n <= tmp.Length
    modifies tmp
    ensures tmp[..n - 1] == Halved(old(tmp[..n]))
  {
    hide Lerp;
    ghost var before := tmp[..n];
    for i := 0 to n - 1
      invariant forall k :: 0 <= k < i ==> tmp[k] == Lerp(before[k], before[k + 1], 0.5)
      invariant forall k :: i <= k < n ==> tmp[k] == before[k]
    {
      tmp[i] := Lerp(tmp[i], tmp[i + 1], 0.5);
    }
  }

  method SamePoints(a: array<HPoint>, b: array<HPoint>) returns (same: bool)
    requires a.Length == b.Length
    ensures same <==> a[..] == b[..]
  {
    for i := 0 to a.Length
      invariant a[..i] == b[..i]
    {
      if a[i] != b[i] {
        assert a[..][i] != b[..][i];
        return false;
      }
    }
    return true;
  }

  // ----- the recursion

  /** The stop tests that need no halves. */
  method StopsHere(hull: GBox, ends: GBox, depth: nat, rnd: Rounding) returns (stop: bool)
    ensures stop <==> StopsAt(hull.Value(), ends.Value(), depth, rnd)
  {
    if !FiniteRange(hull.x) || !FiniteRange(hull.y)
       || (hull.hasZ && !FiniteRange(hull.z)) || (hull.hasM && !FiniteRange(hull.m))
    {
      return true;
    }
    return depth >= DBL_MANT_DIG
        || (RoundedRange(rnd, hull.x) == RoundedRange(rnd, ends.x)
            && RoundedRange(rnd, hull.y) == RoundedRange(rnd, ends.y)
            && (!hull.hasZ || RoundedRange(rnd, hull.z) == RoundedRange(rnd, ends.z))
            && (!hull.hasM || RoundedRange(rnd, hull.m) == RoundedRange(rnd, ends.m)));
  }

  /** Adds one span to the box, halving it until a stop rule lets its hull be merged. */
  method AddBezierSpan(points: array<HPoint>, hasZ: bool, hasM: bool, depth: nat, rnd: Rounding, gbox: GBox)
    returns (ok: bool)
    requires points.Length > 0 && gbox.hasZ == hasZ && gbox.hasM == hasM
    modifies gbox
    ensures SpanResult(ok, gbox.Value()) == AddSpan(old(gbox.Value()), points[..], depth, rnd)
    decreases if depth >= DBL_MANT_DIG then 0 else DBL_MANT_DIG - depth, 1
  {
    ghost var p := points[..];
    AddSpanUnfolds(gbox.Value(), p, depth, rnd);
    hide AddSpan, Hull, Ends, Left, Right, StopsAt, WithBox;
    var hullOk, hull := HullGBox(points, hasZ, hasM);
    if !hullOk {
      return false;
    }
    var endOk, ends := EndpointGBox(points, hasZ, hasM);
    assert points[0] == p[0] && points[points.Length - 1] == p[|p| - 1];
    if !endOk {
      return false;
    }
    var stop := StopsHere(hull, ends, depth, rnd);
    if stop {
      var _ := gbox.Merge(hull);
      return true;
    }
    DeepSpansStop(hull.Value(), ends.Value(), depth, rnd);
    ok := AddHalves(points, hasZ, hasM, depth, rnd, hull, gbox);
  }

  /** Halves the span and adds both halves, unless halving changes nothing. */
  method AddHalves(points: array<HPoint>, hasZ: bool, hasM: bool, depth: nat, rnd: Rounding, hull: GBox, gbox: GBox)
    returns (ok: bool)
    requires points.Length > 0 && gbox.hasZ == hasZ && gbox.hasM == hasM && depth < DBL_MANT_DIG
    requires hull != gbox && NoZeroWeight(points[..]) && hull.Value() == Hull(points[..], hasZ, hasM)
    modifies gbox
    ensures SpanResult(ok, gbox.Value()) == AddBothHalves(old(gbox.Value()), points[..], depth, rnd)
    decreases DBL_MANT_DIG - depth, 0
  {
    hide AddSpan, Hull, Left, Right, WithBox;
    ghost var before := gbox.Value();
    var left, right := new HPoint[points.Length], new HPoint[points.Length];
    Split(points, left, right);
    var sameLeft := SamePoints(left, points);
    var sameRight := SamePoints(right, points);
    if sameLeft || sameRight {
      var _ := gbox.Merge(hull);
      return true;
    }
    ok := AddBezierSpan(left, hasZ, hasM, depth + 1, rnd, gbox);
    AddSpanFlags(before, left[..], depth + 1, rnd);
    if ok {
      ok := AddBezierSpan(right, hasZ, hasM, depth + 1, rnd, gbox);
    }
  }

  /** From the inverted box, the box of one span holds every point of the projected curve and
      lies inside the box of the projected control points. */
  method SpanGBox(points: array<HPoint>, hasZ: bool, hasM: bool, rnd: Rounding) returns (ok: bool, gbox: GBox)
    requires points.Length > 0
    ensures SpanResult(ok, gbox.Value()) == AddSpan(EmptyBox(hasZ, hasM), points[..], 0, rnd)
    ensures PositiveWeights(points[..]) ==>
              && ok && NoZeroWeight(points[..]) && HoldsCurve(gbox.Value(), points[..])
              && Inside(gbox.Value(), Hull(points[..], hasZ, hasM))
  {
    hide AddSpan, HoldsCurve, Hull;
    gbox := new GBox(hasZ, hasM);
    ok := AddBezierSpan(points, hasZ, hasM, 0, rnd, gbox);
    if PositiveWeights(points[..]) {
      SpanFromEmpty(points[..], hasZ, hasM, rnd);
    }
  }
}
