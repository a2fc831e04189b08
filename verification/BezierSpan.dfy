/** Adding a rational Bezier span to a box by recursive halving, as values. */
module BezierSpan {
  import opened BezierCurve

  const DBL_MANT_DIG: nat := 53

  /** The largest range any double can bound. */
  predicate FiniteRange(r: Range) {
    -DBL_MAX <= r.min <= DBL_MAX && -DBL_MAX <= r.max <= DBL_MAX
  }

  predicate IsFiniteBox(b: Box) {
    FiniteRange(b.x) && FiniteRange(b.y) && (b.hasZ ==> FiniteRange(b.z)) && (b.hasM ==> FiniteRange(b.m))
  }

  /** Rounding to single precision, downwards and upwards. */
  datatype Rounding = Rounding(down: real -> real, up: real -> real)

  function RoundedRange(rnd: Rounding, r: Range): Range {
    Range(rnd.down(r.min), rnd.up(r.max))
  }

  predicate SameFloat(rnd: Rounding, a: Box, b: Box) {
    && RoundedRange(rnd, a.x) == RoundedRange(rnd, b.x) && RoundedRange(rnd, a.y) == RoundedRange(rnd, b.y)
    && (a.hasZ ==> RoundedRange(rnd, a.z) == RoundedRange(rnd, b.z))
    && (a.hasM ==> RoundedRange(rnd, a.m) == RoundedRange(rnd, b.m))
  }

  ghost predicate Monotone(rnd: Rounding) {
    forall a, b :: a <= b ==> rnd.down(a) <= rnd.down(b) && rnd.up(a) <= rnd.up(b)
  }

  /** Once the inner and the outer box round to the same floats, every box between them does:
      further refinement cannot change what is stored. */
  lemma RefinementChangesNothing(rnd: Rounding, inner: Box, box: Box, outer: Box)
    requires Monotone(rnd) && Inside(inner, box) && Inside(box, outer) && SameFloat(rnd, outer, inner)
    ensures SameFloat(rnd, box, outer)
  {
    RoundedBetween(rnd, inner.x, box.x, outer.x);
    RoundedBetween(rnd, inner.y, box.y, outer.y);
    if box.hasZ {
      RoundedBetween(rnd, inner.z, box.z, outer.z);
    }
    if box.hasM {
      RoundedBetween(rnd, inner.m, box.m, outer.m);
    }
  }

  lemma RoundedBetween(rnd: Rounding, inner: Range, r: Range, outer: Range)
    requires Monotone(rnd) && RangeInside(inner, r) && RangeInside(r, outer)
    requires RoundedRange(rnd, inner) == RoundedRange(rnd, outer)
    ensures RoundedRange(rnd, r) == RoundedRange(rnd, outer)
  {
    assert rnd.down(outer.min) <= rnd.down(r.min) <= rnd.down(inner.min);
    assert rnd.up(inner.max) <= rnd.up(r.max) <= rnd.up(outer.max);
  }

  // ----- what a span needs

  /** The box holds every point of the span. */
  ghost predicate HoldsCurve(box: Box, p: seq<HPoint>)
    requires p != []
  {
    forall t :: 0.0 <= t <= 1.0 ==> Holds(box, Eval(p, t))
  }

  /** A box that holds both halves holds the span. */
  lemma HalvesHoldCurve(box: Box, p: seq<HPoint>)
    requires p != [] && HoldsCurve(box, Left(p)) && HoldsCurve(box, Right(p))
    ensures HoldsCurve(box, p)
  {
    hide Holds, Eval;
    forall t | 0.0 <= t <= 1.0
      ensures Holds(box, Eval(p, t))
    {
      if t <= 0.5 {
        LeftTraces(p, 2.0 * t);
        assert Holds(box, Eval(Left(p), 2.0 * t));
      } else {
        RightTraces(p, 2.0 * t - 1.0);
        assert Holds(box, Eval(Right(p), 2.0 * t - 1.0));
      }
    }
  }

  lemma CurveHeldInLarger(a: Box, b: Box, p: seq<HPoint>)
    requires p != [] && Inside(a, b) && HoldsCurve(a, p)
    ensures HoldsCurve(b, p)
  {
    hide Holds, Eval, Inside;
    forall t | 0.0 <= t <= 1.0
      ensures Holds(b, Eval(p, t))
    {
      HeldInLarger(a, b, Eval(p, t));
    }
  }

  lemma HullHoldsAll(p: seq<HPoint>, hasZ: bool, hasM: bool)
    requires p != [] && PositiveWeights(p)
    ensures NoZeroWeight(p) && HoldsAll(Hull(p, hasZ, hasM), p) && HoldsCurve(Hull(p, hasZ, hasM), p)
  {
    assert p[..|p|] == p;
    HullHolds(p, |p|, hasZ, hasM);
    hide Holds, Eval, HullBox;
    forall t | 0.0 <= t <= 1.0
      ensures Holds(Hull(p, hasZ, hasM), Eval(p, t))
    {
      EvalIsHeld(Hull(p, hasZ, hasM), p, t);
    }
  }

  /** The hulls of both halves lie inside the hull of the span, and their weights are positive. */
  lemma HalvesNest(p: seq<HPoint>, hasZ: bool, hasM: bool)
    requires p != [] && PositiveWeights(p)
    ensures PositiveWeights(Left(p)) && PositiveWeights(Right(p))
    ensures NoZeroWeight(p) && NoZeroWeight(Left(p)) && NoZeroWeight(Right(p))
    ensures Inside(Hull(Left(p), hasZ, hasM), Hull(p, hasZ, hasM))
    ensures Inside(Hull(Right(p), hasZ, hasM), Hull(p, hasZ, hasM))
  {
    HullHoldsAll(p, hasZ, hasM);
    hide Holds, Inside, Left, Right, HoldsCurve;
    var outer := Hull(p, hasZ, hasM);
    HalvesAreHeld(outer, p);
    HoldsPositive(outer, Left(p));
    HoldsPositive(outer, Right(p));
    assert p[..|p|] == p && Left(p)[..|p|] == Left(p) && Right(p)[..|p|] == Right(p);
    EmptyInsideHull(p, |p|, hasZ, hasM);
    HullInside(Left(p), |p|, outer);
    HullInside(Right(p), |p|, outer);
  }

  /** What adding a span does to a box: it grows, holds the span, and stays inside any box
      that contains what was there and the hull of the span. */
  ghost predicate SpanAdded(before: Box, p: seq<HPoint>, after: Box)
    requires p != [] && NoZeroWeight(p)
  {
    && SameFlags(before, after) && Inside(before, after) && HoldsCurve(after, p)
    && Inside(after, WithBox(before, Hull(p, before.hasZ, before.hasM)))
  }

  lemma HullAdds(before: Box, p: seq<HPoint>)
    requires p != [] && PositiveWeights(p) && NoZeroWeight(p)
    ensures SpanAdded(before, p, WithBox(before, Hull(p, before.hasZ, before.hasM)))
  {
    var hull := Hull(p, before.hasZ, before.hasM);
    var after := WithBox(before, hull);
    HullHoldsAll(p, before.hasZ, before.hasM);
    WithBoxIsJoin(before, hull, after);
    CurveHeldInLarger(hull, after, p);
  }

  lemma HalvesAdd(before: Box, middle: Box, after: Box, p: seq<HPoint>)
    requires p != [] && PositiveWeights(p) && PositiveWeights(Left(p)) && PositiveWeights(Right(p))
    requires NoZeroWeight(p) && NoZeroWeight(Left(p)) && NoZeroWeight(Right(p))
    requires SpanAdded(before, Left(p), middle) && SpanAdded(middle, Right(p), after)
    ensures SpanAdded(before, p, after)
  {
    hide HoldsCurve, Hull, Inside, WithBox, Left, Right;
    var hasZ, hasM := before.hasZ, before.hasM;
    var hull, left, right := Hull(p, hasZ, hasM), Hull(Left(p), hasZ, hasM), Hull(Right(p), hasZ, hasM);
    HalvesNest(p, hasZ, hasM);
    CurveHeldInLarger(middle, after, Left(p));
    HalvesHoldCurve(after, p);
    InsideTrans(before, middle, after);
    var goal := WithBox(before, hull);
    WithBoxIsJoin(before, hull, goal);
    InsideSelf(goal);
    InsideTrans(left, hull, goal);
    InsideTrans(right, hull, goal);
    WithBoxIsJoin(before, left, goal);
    InsideTrans(middle, WithBox(before, left), goal);
    WithBoxIsJoin(middle, right, goal);
    InsideTrans(after, WithBox(middle, right), goal);
  }

  lemma InsideSelf(b: Box)
    ensures Inside(b, b)
  {
  }

  // ----- the recursion

  /** The box of the two ends. */
  function Ends(p: seq<HPoint>, hasZ: bool, hasM: bool): (b: Box)
    requires p != [] && p[0].w != 0.0 && p[|p| - 1].w != 0.0
    ensures b.hasZ == hasZ && b.hasM == hasM
  {
    WithPoint(WithPoint(EmptyBox(hasZ, hasM), p[0]), p[|p| - 1])
  }

  /** The stop rules that need no halves: a box out of range, the recursion limit, and an inner
      and an outer box that round to the same floats. */
  predicate StopsAt(hull: Box, ends: Box, depth: nat, rnd: Rounding) {
    !IsFiniteBox(hull) || depth >= DBL_MANT_DIG || SameFloat(rnd, hull, ends)
  }

  predicate Stops(p: seq<HPoint>, depth: nat, rnd: Rounding, hasZ: bool, hasM: bool)
    requires p != [] && NoZeroWeight(p)
  {
    StopsAt(Hull(p, hasZ, hasM), Ends(p, hasZ, hasM), depth, rnd) || Left(p) == p || Right(p) == p
  }

  datatype SpanResult = SpanResult(ok: bool, box: Box)

  /** The box with one span added. */
  function AddSpan(before: Box, p: seq<HPoint>, depth: nat, rnd: Rounding): (r: SpanResult)
    requires p != []
    ensures SameFlags(before, r.box)
    decreases if depth >= DBL_MANT_DIG then 0 else DBL_MANT_DIG - depth
  {
    if !NoZeroWeight(p) then SpanResult(false, before)
    else if Stops(p, depth, rnd, before.hasZ, before.hasM) then
      SpanResult(true, WithBox(before, Hull(p, before.hasZ, before.hasM)))
    else
      var left := AddSpan(before, Left(p), depth + 1, rnd);
      if left.ok then AddSpan(left.box, Right(p), depth + 1, rnd) else left
  }

  /** What is left to do for a span that does not stop before it is halved. */
  function AddBothHalves(before: Box, p: seq<HPoint>, depth: nat, rnd: Rounding): SpanResult
    requires p != [] && NoZeroWeight(p)
  {
    if Left(p) == p || Right(p) == p then SpanResult(true, WithBox(before, Hull(p, before.hasZ, before.hasM)))
    else
      var left := AddSpan(before, Left(p), depth + 1, rnd);
      if left.ok then AddSpan(left.box, Right(p), depth + 1, rnd) else left
  }

  lemma AddSpanUnfolds(before: Box, p: seq<HPoint>, depth: nat, rnd: Rounding)
    requires p != []
    ensures AddSpan(before, p, depth, rnd) ==
            if !NoZeroWeight(p) then SpanResult(false, before)
            else if StopsAt(Hull(p, before.hasZ, before.hasM), Ends(p, before.hasZ, before.hasM), depth, rnd) then
              SpanResult(true, WithBox(before, Hull(p, before.hasZ, before.hasM)))
            else AddBothHalves(before, p, depth, rnd)
  {
  }

  lemma AddSpanFlags(before: Box, p: seq<HPoint>, depth: nat, rnd: Rounding)
    requires p != []
    ensures SameFlags(before, AddSpan(before, p, depth, rnd).box)
  {
  }

  lemma DeepSpansStop(hull: Box, ends: Box, depth: nat, rnd: Rounding)
    ensures !StopsAt(hull, ends, depth, rnd) ==> depth < DBL_MANT_DIG
  {
  }

  /** Whichever rule stops each branch, the box grows to hold the whole span and stays inside
      the box of its control hull. */
  lemma {:induction false} SpanIsAdded(before: Box, p: seq<HPoint>, depth: nat, rnd: Rounding)
    requires p != [] && PositiveWeights(p)
    ensures NoZeroWeight(p) && AddSpan(before, p, depth, rnd).ok
    ensures SpanAdded(before, p, AddSpan(before, p, depth, rnd).box)
    decreases if depth >= DBL_MANT_DIG then 0 else DBL_MANT_DIG - depth
  {
    hide SpanAdded, Hull, Left, Right, StopsAt, WithBox;
    assert NoZeroWeight(p);
    if Stops(p, depth, rnd, before.hasZ, before.hasM) {
      HullAdds(before, p);
    } else {
      DeepSpansStop(Hull(p, before.hasZ, before.hasM), Ends(p, before.hasZ, before.hasM), depth, rnd);
      HalvesNest(p, before.hasZ, before.hasM);
      SpanIsAdded(before, Left(p), depth + 1, rnd);
      var middle := AddSpan(before, Left(p), depth + 1, rnd).box;
      SpanIsAdded(middle, Right(p), depth + 1, rnd);
      HalvesAdd(before, middle, AddSpan(middle, Right(p), depth + 1, rnd).box, p);
    }
  }

  /** From the inverted box, the result holds the curve and lies inside the box of the hull. */
  lemma SpanFromEmpty(p: seq<HPoint>, hasZ: bool, hasM: bool, rnd: Rounding)
    requires p != [] && PositiveWeights(p)
    ensures var r := AddSpan(EmptyBox(hasZ, hasM), p, 0, rnd);
      r.ok && NoZeroWeight(p) && HoldsCurve(r.box, p) && Inside(r.box, Hull(p, hasZ, hasM))
  {
    var empty := EmptyBox(hasZ, hasM);
    SpanIsAdded(empty, p, 0, rnd);
    hide AddSpan, HoldsCurve, WithBox, HullBox;
    var hull := Hull(p, hasZ, hasM);
    assert p[..|p|] == p;
    EmptyInsideHull(p, |p|, hasZ, hasM);
    InsideSelf(hull);
    WithBoxIsJoin(empty, hull, hull);
    InsideTrans(AddSpan(empty, p, 0, rnd).box, WithBox(empty, hull), hull);
  }

  // ----- when the stored box is exact

  /** Every branch stops because its inner and its outer box round to the same floats. */
  predicate Converges(p: seq<HPoint>, depth: nat, rnd: Rounding, hasZ: bool, hasM: bool)
    requires p != []
    decreases if depth >= DBL_MANT_DIG then 0 else DBL_MANT_DIG - depth
  {
    && NoZeroWeight(p)
    && (SameFloat(rnd, Hull(p, hasZ, hasM), Ends(p, hasZ, hasM))
        || (!Stops(p, depth, rnd, hasZ, hasM)
            && Converges(Left(p), depth + 1, rnd, hasZ, hasM) && Converges(Right(p), depth + 1, rnd, hasZ, hasM)))
  }

  /** The ends of the spans at which the recursion stops, collected in a box. */
  function AddEnds(inner: Box, p: seq<HPoint>, depth: nat, rnd: Rounding): (r: Box)
    requires p != [] && Converges(p, depth, rnd, inner.hasZ, inner.hasM)
    ensures SameFlags(inner, r)
    decreases if depth >= DBL_MANT_DIG then 0 else DBL_MANT_DIG - depth
  {
    if Stops(p, depth, rnd, inner.hasZ, inner.hasM) then WithBox(inner, Ends(p, inner.hasZ, inner.hasM))
    else AddEnds(AddEnds(inner, Left(p), depth + 1, rnd), Right(p), depth + 1, rnd)
  }

  lemma MergedRounds(rnd: Rounding, a: Range, a': Range, b: Range, b': Range)
    requires Monotone(rnd)
    requires RoundedRange(rnd, a) == RoundedRange(rnd, a') && RoundedRange(rnd, b) == RoundedRange(rnd, b')
    ensures RoundedRange(rnd, Merged(a, b)) == RoundedRange(rnd, Merged(a', b'))
  {
    LesserRounds(rnd, a.min, b.min);
    LesserRounds(rnd, a'.min, b'.min);
    GreaterRounds(rnd, a.max, b.max);
    GreaterRounds(rnd, a'.max, b'.max);
  }

  lemma LesserRounds(rnd: Rounding, a: real, b: real)
    requires Monotone(rnd)
    ensures rnd.down(if b < a then b else a) == if rnd.down(b) < rnd.down(a) then rnd.down(b) else rnd.down(a)
  {
    if b < a {
      assert rnd.down(b) <= rnd.down(a);
    } else {
      assert rnd.down(a) <= rnd.down(b);
    }
  }

  lemma GreaterRounds(rnd: Rounding, a: real, b: real)
    requires Monotone(rnd)
    ensures rnd.up(if b > a then b else a) == if rnd.up(b) > rnd.up(a) then rnd.up(b) else rnd.up(a)
  {
    if b > a {
      assert rnd.up(a) <= rnd.up(b);
    } else {
      assert rnd.up(b) <= rnd.up(a);
    }
  }

  lemma JoinsRound(rnd: Rounding, a: Box, a': Box, b: Box, b': Box)
    requires Monotone(rnd) && SameFloat(rnd, a, a') && SameFloat(rnd, b, b')
    requires SameFlags(a, a') && SameFlags(a, b) && SameFlags(b, b')
    ensures SameFloat(rnd, WithBox(a, b), WithBox(a', b'))
  {
    hide Monotone, RoundedRange, Merged;
    MergedRounds(rnd, a.x, a'.x, b.x, b'.x);
    MergedRounds(rnd, a.y, a'.y, b.y, b'.y);
    if a.hasZ {
      MergedRounds(rnd, a.z, a'.z, b.z, b'.z);
    }
    if a.hasM {
      MergedRounds(rnd, a.m, a'.m, b.m, b'.m);
    }
  }

  /** Where the recursion converges, the hulls merged round to the same floats as the ends. */
  lemma {:induction false} HullsRoundToEnds(box: Box, inner: Box, p: seq<HPoint>, depth: nat, rnd: Rounding)
    requires p != [] && Monotone(rnd) && Converges(p, depth, rnd, box.hasZ, box.hasM)
    requires SameFlags(box, inner) && SameFloat(rnd, box, inner)
    ensures AddSpan(box, p, depth, rnd).ok
    ensures SameFloat(rnd, AddSpan(box, p, depth, rnd).box, AddEnds(inner, p, depth, rnd))
    decreases if depth >= DBL_MANT_DIG then 0 else DBL_MANT_DIG - depth
  {
    hide Monotone, Hull, Left, Right, StopsAt, WithBox, SameFloat, Ends;
    var hasZ, hasM := box.hasZ, box.hasM;
    if Stops(p, depth, rnd, hasZ, hasM) {
      JoinsRound(rnd, box, inner, Hull(p, hasZ, hasM), Ends(p, hasZ, hasM));
    } else {
      DeepSpansStop(Hull(p, hasZ, hasM), Ends(p, hasZ, hasM), depth, rnd);
      SameFloatStops(p, depth, rnd, hasZ, hasM);
      HullsRoundToEnds(box, inner, Left(p), depth + 1, rnd);
      HullsRoundToEnds(AddSpan(box, Left(p), depth + 1, rnd).box, AddEnds(inner, Left(p), depth + 1, rnd),
                       Right(p), depth + 1, rnd);
    }
  }

  lemma SameFloatStops(p: seq<HPoint>, depth: nat, rnd: Rounding, hasZ: bool, hasM: bool)
    requires p != [] && NoZeroWeight(p)
    ensures SameFloat(rnd, Hull(p, hasZ, hasM), Ends(p, hasZ, hasM)) ==> Stops(p, depth, rnd, hasZ, hasM)
  {
  }

  lemma {:induction false} CurveStartsAndEnds(p: seq<HPoint>)
    requires p != []
    ensures Eval(p, 0.0) == p[0] && Eval(p, 1.0) == p[|p| - 1]
    decreases |p|
  {
    if |p| > 1 {
      CurveStartsAndEnds(Level(p, 0.0));
      CurveStartsAndEnds(Level(p, 1.0));
    }
  }

  lemma HalvesAreHeldCurves(box: Box, p: seq<HPoint>)
    requires p != [] && HoldsCurve(box, p)
    ensures HoldsCurve(box, Left(p)) && HoldsCurve(box, Right(p))
  {
    hide Holds, Eval, Left, Right;
    forall t | 0.0 <= t <= 1.0
      ensures Holds(box, Eval(Left(p), t)) && Holds(box, Eval(Right(p), t))
    {
      LeftTraces(p, t);
      RightTraces(p, t);
      assert Holds(box, Eval(p, t / 2.0)) && Holds(box, Eval(p, (1.0 + t) / 2.0));
    }
  }

  lemma EndsAreInside(p: seq<HPoint>, outer: Box)
    requires p != [] && NoZeroWeight(p) && HoldsCurve(outer, p) && Inside(EmptyBox(outer.hasZ, outer.hasM), outer)
    ensures Inside(Ends(p, outer.hasZ, outer.hasM), outer)
  {
    hide Holds, Inside, WithPoint;
    CurveStartsAndEnds(p);
    assert Holds(outer, Eval(p, 0.0)) && Holds(outer, Eval(p, 1.0));
    WithPointInside(EmptyBox(outer.hasZ, outer.hasM), p[0], outer);
    WithPointInside(WithPoint(EmptyBox(outer.hasZ, outer.hasM), p[0]), p[|p| - 1], outer);
  }

  /** A box that holds the curve contains all the ends that are collected. */
  lemma {:induction false} CollectedEndsAreInside(inner: Box, p: seq<HPoint>, depth: nat, rnd: Rounding, outer: Box)
    requires p != [] && Converges(p, depth, rnd, inner.hasZ, inner.hasM)
    requires HoldsCurve(outer, p) && Inside(inner, outer) && Inside(EmptyBox(outer.hasZ, outer.hasM), outer)
    ensures Inside(AddEnds(inner, p, depth, rnd), outer)
    decreases if depth >= DBL_MANT_DIG then 0 else DBL_MANT_DIG - depth
  {
    hide HoldsCurve, Hull, Left, Right, StopsAt, WithBox, SameFloat, Ends;
    var hasZ, hasM := inner.hasZ, inner.hasM;
    if Stops(p, depth, rnd, hasZ, hasM) {
      EndsAreInside(p, outer);
      WithBoxIsJoin(inner, Ends(p, hasZ, hasM), outer);
    } else {
      DeepSpansStop(Hull(p, hasZ, hasM), Ends(p, hasZ, hasM), depth, rnd);
      SameFloatStops(p, depth, rnd, hasZ, hasM);
      HalvesAreHeldCurves(outer, p);
      CollectedEndsAreInside(inner, Left(p), depth + 1, rnd, outer);
      CollectedEndsAreInside(AddEnds(inner, Left(p), depth + 1, rnd), Right(p), depth + 1, rnd, outer);
    }
  }

  /** Where the recursion converges the stored box is exact: every tighter box that still holds
      the curve rounds to the same floats. */
  lemma StoredBoxIsExact(p: seq<HPoint>, hasZ: bool, hasM: bool, rnd: Rounding, tight: Box)
    requires p != [] && Monotone(rnd) && Converges(p, 0, rnd, hasZ, hasM)
    requires HoldsCurve(tight, p) && Inside(EmptyBox(hasZ, hasM), tight)
    requires Inside(tight, AddSpan(EmptyBox(hasZ, hasM), p, 0, rnd).box)
    ensures SameFloat(rnd, tight, AddSpan(EmptyBox(hasZ, hasM), p, 0, rnd).box)
  {
    hide Monotone, Converges, AddEnds, AddSpan, HoldsCurve, Inside, SameFloat;
    var empty := EmptyBox(hasZ, hasM);
    BoxRoundsAsItself(rnd, empty);
    HullsRoundToEnds(empty, empty, p, 0, rnd);
    InsideFlags(empty, tight);
    CollectedEndsAreInside(empty, p, 0, rnd, tight);
    RefinementChangesNothing(rnd, AddEnds(empty, p, 0, rnd), tight, AddSpan(empty, p, 0, rnd).box);
  }

  lemma BoxRoundsAsItself(rnd: Rounding, b: Box)
    ensures SameFloat(rnd, b, b)
  {
  }

  lemma InsideFlags(a: Box, b: Box)
    requires Inside(a, b)
    ensures SameFlags(a, b)
  {
  }
}
