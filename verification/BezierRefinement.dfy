/** How much larger than the span its box can be after the recursion. */
module BezierRefinement {
  import opened BezierCurve
  import opened BezierSpan

  // ----- steps between control points

  predicate Within(a: real, b: real, s: real) {
    -s <= a - b <= s
  }

  /** Two points differ by at most `s` in every homogeneous coordinate. */
  predicate Apart(a: HPoint, b: HPoint, s: real) {
    Within(a.x, b.x, s) && Within(a.y, b.y, s) && Within(a.z, b.z, s) && Within(a.m, b.m, s) && Within(a.w, b.w, s)
  }

  predicate Steps(p: seq<HPoint>, s: real) {
    forall i :: 0 < i < |p| ==> Apart(p[i], p[i - 1], s)
  }

  predicate Heavy(p: seq<HPoint>, least: real) {
    forall i :: 0 <= i < |p| ==> p[i].w >= least
  }

  lemma MiddleOfThree(a: real, b: real, c: real, s: real)
    requires Within(b, a, s) && Within(c, b, s)
    ensures Within(Mix(b, c, 0.5), Mix(a, b, 0.5), s) && Within(Mix(a, b, 0.5), a, s / 2.0)
    ensures Within(c, Mix(b, c, 0.5), s / 2.0)
  {
  }

  lemma HalfStep(a: real, b: real, s: real)
    requires Within(b, a, s)
    ensures Within(Mix(a, b, 0.5), a, s / 2.0) && Within(b, Mix(a, b, 0.5), s / 2.0)
  {
  }

  lemma HalfApart(a: HPoint, b: HPoint, s: real)
    requires Apart(b, a, s)
    ensures Apart(Lerp(a, b, 0.5), a, s / 2.0) && Apart(b, Lerp(a, b, 0.5), s / 2.0)
  {
    hide Mix, Within;
    HalfStep(a.x, b.x, s);
    HalfStep(a.y, b.y, s);
    HalfStep(a.z, b.z, s);
    HalfStep(a.m, b.m, s);
    HalfStep(a.w, b.w, s);
  }

  lemma MiddlesApart(a: HPoint, b: HPoint, c: HPoint, s: real)
    requires Apart(b, a, s) && Apart(c, b, s)
    ensures Apart(Lerp(b, c, 0.5), Lerp(a, b, 0.5), s)
  {
    hide Mix, Within;
    MiddleOfThree(a.x, b.x, c.x, s);
    MiddleOfThree(a.y, b.y, c.y, s);
    MiddleOfThree(a.z, b.z, c.z, s);
    MiddleOfThree(a.m, b.m, c.m, s);
    MiddleOfThree(a.w, b.w, c.w, s);
  }

  lemma HalvedSteps(p: seq<HPoint>, s: real)
    requires Steps(p, s)
    ensures Steps(Halved(p), s)
  {
    hide Apart, Lerp;
    HalvedIsLevel(p);
    var h := Level(p, 0.5);
    forall i | 0 < i < |h|
      ensures Apart(h[i], h[i - 1], s)
    {
      assert h[i] == Lerp(p[i], p[i + 1], 0.5) && h[i - 1] == Lerp(p[i - 1], p[i], 0.5);
      assert Apart(p[i], p[i - 1], s) && Apart(p[i + 1], p[i], s);
      MiddlesApart(p[i - 1], p[i], p[i + 1], s);
    }
  }

  /** Steps of one point more in front, or at the end. */
  lemma StepsOfCons(a: HPoint, p: seq<HPoint>, s: real)
    requires Steps(p, s)
    ensures p != [] && Apart(p[0], a, s) ==> Steps([a] + p, s)
    ensures p != [] && Apart(a, p[|p| - 1], s) ==> Steps(p + [a], s)
  {
    hide Apart;
    forall i | 0 < i < |p| + 1 && p != []
      ensures Apart(p[0], a, s) ==> Apart(([a] + p)[i], ([a] + p)[i - 1], s)
      ensures Apart(a, p[|p| - 1], s) ==> Apart((p + [a])[i], (p + [a])[i - 1], s)
    {
      if i > 1 {
        assert Apart(p[i - 1], p[i - 2], s);
      }
      if i < |p| {
        assert Apart(p[i], p[i - 1], s);
      }
    }
  }

  /** Halving a span halves its steps. */
  lemma {:induction false} HalvesStep(p: seq<HPoint>, s: real)
    requires Steps(p, s)
    ensures Steps(Left(p), s / 2.0) && Steps(Right(p), s / 2.0)
    decreases |p|
  {
    hide Apart, Lerp, Steps, Halved, Left, Right;
    if |p| > 1 {
      var h, n := Halved(p), |p|;
      HalvesUnfold(p);
      HalvedSteps(p, s);
      HalvesStep(h, s);
      LeftStart(h);
      OuterSteps(p, s);
      HalfApart(p[0], p[1], s);
      HalfApart(p[n - 2], p[n - 1], s);
      StepsOfCons(p[0], Left(h), s / 2.0);
      StepsOfCons(p[n - 1], Right(h), s / 2.0);
    } else {
      FewSteps(Left(p), s / 2.0);
      FewSteps(Right(p), s / 2.0);
    }
  }

  lemma FewSteps(p: seq<HPoint>, s: real)
    requires |p| <= 1
    ensures Steps(p, s)
  {
  }

  lemma OuterSteps(p: seq<HPoint>, s: real)
    requires |p| > 1 && Steps(p, s)
    ensures Apart(p[1], p[0], s) && Apart(p[|p| - 1], p[|p| - 2], s)
  {
  }

  lemma HalvesUnfold(p: seq<HPoint>)
    requires |p| > 1
    ensures var h := Halved(p);
      && Left(p) == [p[0]] + Left(h) && Right(p) == Right(h) + [p[|p| - 1]]
      && h[0] == Lerp(p[0], p[1], 0.5) && h[|p| - 2] == Lerp(p[|p| - 2], p[|p| - 1], 0.5)
  {
    HalvedIsLevel(p);
    hide Lerp;
  }

  lemma MixOfHeavy(a: real, b: real, least: real)
    requires a >= least && b >= least
    ensures Mix(a, b, 0.5) >= least
  {
  }

  lemma {:induction false} HalvesAreHeavy(p: seq<HPoint>, least: real)
    requires Heavy(p, least)
    ensures Heavy(Left(p), least) && Heavy(Right(p), least)
    decreases |p|
  {
    if p != [] {
      var h := Halved(p);
      HalvedIsLevel(p);
      forall i | 0 <= i < |h|
        ensures h[i].w >= least
      {
        assert h[i] == Lerp(p[i], p[i + 1], 0.5);
        MixOfHeavy(p[i].w, p[i + 1].w, least);
      }
      hide Halved;
      HalvesAreHeavy(h, least);
    }
  }

  /** `s` halved `k` times. */
  function Shrunk(s: real, k: nat): real
    decreases k
  {
    if k == 0 then s else Shrunk(s / 2.0, k - 1)
  }

  /** A span that halving does not change has no steps to speak of. */
  lemma {:induction false} FixedSteps(p: seq<HPoint>, s: real, k: nat)
    requires Steps(p, s) && (Left(p) == p || Right(p) == p)
    ensures Steps(p, Shrunk(s, k))
    decreases k
  {
    hide Left, Right, Steps;
    if k > 0 {
      HalvesStep(p, s);
      FixedSteps(p, s / 2.0, k - 1);
    }
  }

  // ----- projected points

  /** How far apart points can be projected that are `d` apart in homogeneous coordinates. */
  function Spread(d: real, reach: real, least: real): real
    requires least > 0.0
  {
    d * (1.0 + reach) / least
  }

  /** The number of steps, their size, the reach and the least weight of a span bound how far
      its projected points are apart. */
  function Excess(n: nat, s: real, reach: real, least: real): real
    requires least > 0.0
  {
    Spread(n as real * s, reach, least)
  }

  lemma ApartAdds(a: HPoint, b: HPoint, c: HPoint, s: real, t: real)
    requires Apart(a, b, s) && Apart(b, c, t)
    ensures Apart(a, c, s + t)
  {
  }

  function Total(n: nat, s: real): real {
    if n == 0 then 0.0 else s + Total(n - 1, s)
  }

  lemma {:induction false} TotalIsProduct(n: nat, s: real)
    ensures Total(n, s) == n as real * s
  {
    if n > 0 {
      TotalIsProduct(n - 1, s);
      OneMore((n - 1) as real, n as real, s);
    }
  }

  lemma OneMore(m: real, n: real, s: real)
    requires n == 1.0 + m
    ensures n * s == s + m * s
  {
    assert n * s == (1.0 + m) * s;
  }

  lemma {:induction false} FarFromStart(p: seq<HPoint>, s: real, i: nat)
    requires Steps(p, s) && i < |p|
    ensures Apart(p[i], p[0], Total(i, s))
  {
    if i > 0 {
      FarFromStart(p, s, i - 1);
      hide Apart;
      ApartAdds(p[i], p[i - 1], p[0], s, Total(i - 1, s));
    }
  }

  lemma Larger(a: real, b: real, c: real)
    requires a <= b && c >= 0.0
    ensures a * c <= b * c
  {
    NonNegativeProduct(b - a, c);
  }

  lemma ProductWithin(x: real, y: real, a: real, b: real)
    requires -a <= x <= a && -b <= y <= b
    ensures -(a * b) <= x * y <= a * b
  {
    NonNegativeProduct(a - x, b + y);
    NonNegativeProduct(a + x, b - y);
    NonNegativeProduct(a - x, b - y);
    NonNegativeProduct(a + x, b + y);
  }

  /** Points near each other in homogeneous coordinates are near when projected. */
  lemma ProjectedNear(v0: real, w0: real, v: real, w: real, d: real, reach: real, least: real)
    requires Within(v, v0, d) && Within(w, w0, d) && w >= least > 0.0 && w0 >= least && d >= 0.0 && reach >= 0.0
    requires ConeHolds(Range(-reach, reach), v0, w0)
    ensures Within(v / w, v0 / w0, d * (1.0 + reach) / least)
  {
    hide ConeHolds;
    ConeIsProjection(Range(-reach, reach), v0, w0);
    NonNegativeQuotient(d, reach, least);
    Divided(v0, w0);
    Divided(v, w);
    Divided(d * (1.0 + reach), least);
    GapIsSmall(v0 / w0, v / w, v0, w0, v, w, d, reach, least, d * (1.0 + reach) / least);
  }

  lemma Divided(a: real, b: real)
    requires b > 0.0
    ensures a / b * b == a
  {
  }

  lemma GapIsSmall(
    x0: real, q: real, v0: real, w0: real, v: real, w: real, d: real, reach: real, least: real, e: real)
    requires x0 * w0 == v0 && q * w == v && e * least == d * (1.0 + reach)
    requires -d <= v - v0 <= d && -d <= w - w0 <= d && -reach <= x0 <= reach && w >= least > 0.0 && e >= 0.0
    ensures -e <= q - x0 <= e
  {
    Gap(x0, q, v0, w0, v, w);
    ProductWithin(x0, w - w0, reach, d);
    GapWithin(v - v0, x0 * (w - w0), d, reach);
    SmallGap(q - x0, w, e, least);
  }

  lemma GapWithin(u: real, x: real, d: real, reach: real)
    requires -d <= u <= d && -(reach * d) <= x <= reach * d
    ensures -(d * (1.0 + reach)) <= u - x <= d * (1.0 + reach)
  {
    assert d * (1.0 + reach) == d + reach * d;
  }

  lemma Gap(x0: real, q: real, v0: real, w0: real, v: real, w: real)
    requires x0 * w0 == v0 && q * w == v
    ensures (q - x0) * w == (v - v0) - x0 * (w - w0)
  {
  }

  lemma NonNegativeQuotient(d: real, reach: real, least: real)
    requires d >= 0.0 && reach >= 0.0 && least > 0.0
    ensures d * (1.0 + reach) / least >= 0.0
  {
    NonNegativeProduct(d, 1.0 + reach);
    var e := d * (1.0 + reach) / least;
    assert e * least == d * (1.0 + reach);
    if e < 0.0 {
      assert (-e) * least > 0.0;
    }
  }

  lemma SmallGap(gap: real, w: real, e: real, least: real)
    requires w >= least > 0.0 && e >= 0.0 && -(e * least) <= gap * w <= e * least
    ensures -e <= gap <= e
  {
    Larger(least, w, e);
    Scale(gap, e, w);
    Scale(-e, gap, w);
  }

  // ----- the hull and the ends

  function Widened(r: Range, e: real): Range {
    Range(r.min - e, r.max + e)
  }

  function WidenedBox(b: Box, e: real): Box {
    b.(x := Widened(b.x, e), y := Widened(b.y, e), z := Widened(b.z, e), m := Widened(b.m, e))
  }

  /** A box of the given reach in all dimensions. */
  function Cube(hasZ: bool, hasM: bool, reach: real): Box {
    var r := Range(-reach, reach);
    Box(hasZ, hasM, r, r, r, r)
  }

  lemma WidenedHolds(r: Range, v0: real, w0: real, v: real, w: real, e: real)
    requires w0 > 0.0 && w > 0.0 && ConeHolds(r, v0, w0) && Within(v / w, v0 / w0, e)
    ensures ConeHolds(Widened(r, e), v, w)
  {
    ConeIsProjection(r, v0, w0);
    ConeIsProjection(Widened(r, e), v, w);
  }

  lemma PointIsNear(ends: Box, start: HPoint, h: HPoint, d: real, reach: real, least: real)
    requires Apart(h, start, d) && d >= 0.0 && reach >= 0.0 && h.w >= least > 0.0 && start.w >= least
    requires Holds(ends, start) && Holds(Cube(ends.hasZ, ends.hasM, reach), start)
    ensures Holds(WidenedBox(ends, Spread(d, reach, least)), h)
  {
    var e := Spread(d, reach, least);
    hide Within, ConeHolds, Widened;
    ProjectedNear(start.x, start.w, h.x, h.w, d, reach, least);
    WidenedHolds(ends.x, start.x, start.w, h.x, h.w, e);
    ProjectedNear(start.y, start.w, h.y, h.w, d, reach, least);
    WidenedHolds(ends.y, start.y, start.w, h.y, h.w, e);
    if ends.hasZ {
      ProjectedNear(start.z, start.w, h.z, h.w, d, reach, least);
      WidenedHolds(ends.z, start.z, start.w, h.z, h.w, e);
    }
    if ends.hasM {
      ProjectedNear(start.m, start.w, h.m, h.w, d, reach, least);
      WidenedHolds(ends.m, start.m, start.w, h.m, h.w, e);
    }
  }

  lemma ApartByMore(a: HPoint, b: HPoint, s: real, t: real)
    requires Apart(a, b, s) && s <= t
    ensures Apart(a, b, t)
  {
  }

  lemma EndsHoldStart(p: seq<HPoint>, hasZ: bool, hasM: bool)
    requires p != [] && PositiveWeights(p)
    ensures p[0].w != 0.0 && p[|p| - 1].w != 0.0 && Holds(Ends(p, hasZ, hasM), p[0])
    ensures Inside(EmptyBox(hasZ, hasM), Ends(p, hasZ, hasM))
  {
    hide Holds;
    var first := WithPoint(EmptyBox(hasZ, hasM), p[0]);
    WithPointHolds(EmptyBox(hasZ, hasM), p[0], p[0]);
    WithPointHolds(first, p[|p| - 1], p[0]);
  }

  lemma InsideWidened(a: Box, b: Box, e: real)
    requires Inside(a, b) && e >= 0.0
    ensures Inside(a, WidenedBox(b, e))
  {
  }

  /** What the recursion keeps of a span: its steps, its least weight and its reach. */
  predicate Bounded(p: seq<HPoint>, s: real, reach: real, least: real, hasZ: bool, hasM: bool) {
    && s >= 0.0 && 0.0 <= reach <= DBL_MAX && least > 0.0
    && Steps(p, s) && Heavy(p, least) && HoldsAll(Cube(hasZ, hasM, reach), p)
  }

  lemma BoundedIsPositive(p: seq<HPoint>, s: real, reach: real, least: real, hasZ: bool, hasM: bool)
    requires Bounded(p, s, reach, least, hasZ, hasM)
    ensures PositiveWeights(p) && NoZeroWeight(p)
  {
  }

  /** The hull of a span exceeds the box of its ends by no more than its steps account for. */
  lemma HullNearEnds(p: seq<HPoint>, s: real, reach: real, least: real, hasZ: bool, hasM: bool)
    requires p != [] && Bounded(p, s, reach, least, hasZ, hasM)
    ensures NoZeroWeight(p)
    ensures Inside(Hull(p, hasZ, hasM), WidenedBox(Ends(p, hasZ, hasM), Excess(|p| - 1, s, reach, least)))
  {
    hide Bounded, Holds, WidenedBox, Excess, Spread, Ends, Apart, Inside, Cube, EmptyBox;
    BoundedIsPositive(p, s, reach, least, hasZ, hasM);
    BoundedPoint(p, s, reach, least, hasZ, hasM, 0);
    var n := |p| - 1;
    var d, e := n as real * s, Excess(n, s, reach, least);
    var ends := Ends(p, hasZ, hasM);
    EndsHoldStart(p, hasZ, hasM);
    ExcessIs(n, s, reach, least);
    forall i | 0 <= i < |p|
      ensures Holds(WidenedBox(ends, e), p[i])
    {
      BoundedPoint(p, s, reach, least, hasZ, hasM, i);
      Larger(i as real, n as real, s);
      ApartByMore(p[i], p[0], i as real * s, d);
      assert d >= 0.0 && ends.hasZ == hasZ && ends.hasM == hasM && reach >= 0.0 && p[0].w >= least > 0.0;
      PointIsNear(ends, p[0], p[i], d, reach, least);
    }
    InsideWidened(EmptyBox(hasZ, hasM), ends, e);
    WidenedFlags(ends, e);
    HullInside(p, |p|, WidenedBox(ends, e));
    assert p[..|p|] == p;
  }

  lemma ExcessIs(n: nat, s: real, reach: real, least: real)
    requires s >= 0.0 && reach >= 0.0 && least > 0.0
    ensures n as real * s >= 0.0
    ensures Excess(n, s, reach, least) == Spread(n as real * s, reach, least) >= 0.0
  {
    NonNegativeProduct(n as real, s);
    NonNegativeQuotient(n as real * s, reach, least);
  }

  lemma WidenedFlags(b: Box, e: real)
    ensures SameFlags(b, WidenedBox(b, e))
  {
  }

  lemma BoundedPoint(p: seq<HPoint>, s: real, reach: real, least: real, hasZ: bool, hasM: bool, i: nat)
    requires Bounded(p, s, reach, least, hasZ, hasM) && i < |p|
    ensures s >= 0.0 && reach >= 0.0 && p[i].w >= least > 0.0 && Holds(Cube(hasZ, hasM, reach), p[i])
    ensures Apart(p[i], p[0], i as real * s)
  {
    FarFromStart(p, s, i);
    TotalIsProduct(i, s);
  }

  lemma HullIsFinite(p: seq<HPoint>, s: real, reach: real, least: real, hasZ: bool, hasM: bool)
    requires p != [] && Bounded(p, s, reach, least, hasZ, hasM)
    ensures NoZeroWeight(p) && IsFiniteBox(Hull(p, hasZ, hasM))
  {
    BoundedIsPositive(p, s, reach, least, hasZ, hasM);
    assert p[..|p|] == p;
    var cube := Cube(hasZ, hasM, reach);
    EndsHoldStart(p, hasZ, hasM);
    HullInside(p, |p|, cube);
    HullIsOrdered(p, hasZ, hasM);
  }

  lemma HullIsOrdered(p: seq<HPoint>, hasZ: bool, hasM: bool)
    requires p != [] && PositiveWeights(p) && NoZeroWeight(p)
    ensures var h := Hull(p, hasZ, hasM);
      && h.x.min <= h.x.max && h.y.min <= h.y.max && (hasZ ==> h.z.min <= h.z.max) && (hasM ==> h.m.min <= h.m.max)
  {
    HullHoldsAll(p, hasZ, hasM);
    var h := Hull(p, hasZ, hasM);
    assert Holds(h, p[0]);
    ConeIsProjection(h.x, p[0].x, p[0].w);
    ConeIsProjection(h.y, p[0].y, p[0].w);
    ConeIsProjection(h.z, p[0].z, p[0].w);
    ConeIsProjection(h.m, p[0].m, p[0].w);
  }

  lemma HalvesAreBounded(p: seq<HPoint>, s: real, reach: real, least: real, hasZ: bool, hasM: bool)
    requires Bounded(p, s, reach, least, hasZ, hasM)
    ensures Bounded(Left(p), s / 2.0, reach, least, hasZ, hasM) && Bounded(Right(p), s / 2.0, reach, least, hasZ, hasM)
  {
    hide Steps, Heavy, HoldsAll, Left, Right;
    HalvesStep(p, s);
    HalvesAreHeavy(p, least);
    HalvesAreHeld(Cube(hasZ, hasM, reach), p);
  }

  // ----- boxes close to each other

  /** Each end of the outer range is no further out than `e`, or rounds to the same float. */
  predicate CloseRange(rnd: Rounding, e: real, inner: Range, outer: Range) {
    && (inner.min - e <= outer.min || rnd.down(outer.min) == rnd.down(inner.min))
    && (outer.max <= inner.max + e || rnd.up(outer.max) == rnd.up(inner.max))
  }

  predicate CloseBox(rnd: Rounding, e: real, inner: Box, outer: Box) {
    && Inside(inner, outer)
    && CloseRange(rnd, e, inner.x, outer.x) && CloseRange(rnd, e, inner.y, outer.y)
    && (inner.hasZ ==> CloseRange(rnd, e, inner.z, outer.z)) && (inner.hasM ==> CloseRange(rnd, e, inner.m, outer.m))
  }

  lemma CloseFlags(rnd: Rounding, e: real, inner: Box, outer: Box)
    requires CloseBox(rnd, e, inner, outer)
    ensures SameFlags(inner, outer)
  {
  }

  lemma MergedClose(rnd: Rounding, e: real, a: Range, a': Range, b: Range, b': Range)
    requires Monotone(rnd) && RangeInside(a, a') && RangeInside(b, b')
    requires CloseRange(rnd, e, a, a') && CloseRange(rnd, e, b, b')
    ensures CloseRange(rnd, e, Merged(a, b), Merged(a', b'))
  {
    var lo, lo' := Merged(a, b).min, Merged(a', b').min;
    var hi, hi' := Merged(a, b).max, Merged(a', b').max;
    assert rnd.down(lo') <= rnd.down(lo) <= rnd.down(a.min) && rnd.down(lo) <= rnd.down(b.min);
    assert rnd.up(hi') >= rnd.up(hi) >= rnd.up(a.max) && rnd.up(hi) >= rnd.up(b.max);
  }

  lemma JoinsClose(rnd: Rounding, e: real, a: Box, a': Box, b: Box, b': Box)
    requires Monotone(rnd) && CloseBox(rnd, e, a, a') && CloseBox(rnd, e, b, b') && SameFlags(a, b)
    ensures CloseBox(rnd, e, WithBox(a, b), WithBox(a', b'))
  {
    hide Monotone, CloseRange;
    MergedClose(rnd, e, a.x, a'.x, b.x, b'.x);
    MergedClose(rnd, e, a.y, a'.y, b.y, b'.y);
    if a.hasZ {
      MergedClose(rnd, e, a.z, a'.z, b.z, b'.z);
    }
    if a.hasM {
      MergedClose(rnd, e, a.m, a'.m, b.m, b'.m);
    }
  }

  lemma WidenedIsClose(rnd: Rounding, e: real, inner: Box, outer: Box)
    requires Inside(inner, outer) && Inside(outer, WidenedBox(inner, e))
    ensures CloseBox(rnd, e, inner, outer)
  {
  }

  lemma RoundedIsClose(rnd: Rounding, e: real, inner: Box, outer: Box)
    requires Inside(inner, outer) && SameFloat(rnd, outer, inner)
    ensures CloseBox(rnd, e, inner, outer)
  {
  }

  /** Where the recursion stops, the hull is close to the ends. */
  lemma StopIsClose(p: seq<HPoint>, depth: nat, rnd: Rounding, hasZ: bool, hasM: bool,
                    s: real, reach: real, least: real)
    requires p != [] && depth <= 53 && Bounded(p, s, reach, least, hasZ, hasM)
    requires NoZeroWeight(p) && Stops(p, depth, rnd, hasZ, hasM)
    ensures CloseBox(rnd, Excess(|p| - 1, Shrunk(s, 53 - depth), reach, least),
                     Ends(p, hasZ, hasM), Hull(p, hasZ, hasM))
  {
    var ends, hull, finest := Ends(p, hasZ, hasM), Hull(p, hasZ, hasM), Shrunk(s, 53 - depth);
    HullHoldsAll(p, hasZ, hasM);
    EndsInHull(p, hasZ, hasM);
    HullIsFinite(p, s, reach, least, hasZ, hasM);
    hide Inside, IsFiniteBox, Hull, Ends, Left, Right, Excess, HoldsCurve, Steps, SameFloat;
    if SameFloat(rnd, hull, ends) {
      RoundedIsClose(rnd, Excess(|p| - 1, finest, reach, least), ends, hull);
    } else {
      ShrunkIsPositive(s, 53 - depth);
      if depth < 53 {
        FixedSteps(p, s, 53 - depth);
      }
      HullNearEnds(p, finest, reach, least, hasZ, hasM);
      WidenedIsClose(rnd, Excess(|p| - 1, finest, reach, least), ends, hull);
    }
  }

  lemma {:induction false} ShrunkIsPositive(s: real, k: nat)
    requires s >= 0.0
    ensures Shrunk(s, k) >= 0.0
    decreases k
  {
    if k > 0 {
      ShrunkIsPositive(s / 2.0, k - 1);
    }
  }

  lemma EndsInHull(p: seq<HPoint>, hasZ: bool, hasM: bool)
    requires p != [] && PositiveWeights(p) && NoZeroWeight(p)
    ensures Inside(Ends(p, hasZ, hasM), Hull(p, hasZ, hasM))
  {
    var hull := Hull(p, hasZ, hasM);
    HullHoldsAll(p, hasZ, hasM);
    assert p[..|p|] == p;
    EmptyInsideHull(p, |p|, hasZ, hasM);
    hide HullBox;
    EndsAreInside(p, hull);
  }

  // ----- the recursion

  /** The ends of the spans at which the recursion stops, for whatever reason. */
  function AddSamples(inner: Box, p: seq<HPoint>, depth: nat, rnd: Rounding): (r: Box)
    requires p != []
    ensures SameFlags(inner, r)
    decreases if depth >= DBL_MANT_DIG then 0 else DBL_MANT_DIG - depth
  {
    if !NoZeroWeight(p) then inner
    else if Stops(p, depth, rnd, inner.hasZ, inner.hasM) then WithBox(inner, Ends(p, inner.hasZ, inner.hasM))
    else AddSamples(AddSamples(inner, Left(p), depth + 1, rnd), Right(p), depth + 1, rnd)
  }

  lemma NotStopped(p: seq<HPoint>, depth: nat, rnd: Rounding, hasZ: bool, hasM: bool)
    requires p != [] && NoZeroWeight(p) && !Stops(p, depth, rnd, hasZ, hasM)
    ensures depth < 53
  {
  }

  lemma SamplesUnfold(inner: Box, p: seq<HPoint>, depth: nat, rnd: Rounding)
    requires p != [] && NoZeroWeight(p)
    ensures AddSamples(inner, p, depth, rnd) ==
            if Stops(p, depth, rnd, inner.hasZ, inner.hasM) then WithBox(inner, Ends(p, inner.hasZ, inner.hasM))
            else AddSamples(AddSamples(inner, Left(p), depth + 1, rnd), Right(p), depth + 1, rnd)
  {
    hide Stops, WithBox, Ends;
  }

  lemma SpanUnfolds(before: Box, p: seq<HPoint>, depth: nat, rnd: Rounding)
    requires p != [] && NoZeroWeight(p) && AddSpan(before, Left(p), depth + 1, rnd).ok
    ensures AddSpan(before, p, depth, rnd) ==
            if Stops(p, depth, rnd, before.hasZ, before.hasM) then
              SpanResult(true, WithBox(before, Hull(p, before.hasZ, before.hasM)))
            else AddSpan(AddSpan(before, Left(p), depth + 1, rnd).box, Right(p), depth + 1, rnd)
  {
    hide Stops, WithBox, Hull;
  }

  lemma StoppedSpan(before: Box, p: seq<HPoint>, depth: nat, rnd: Rounding)
    requires p != [] && NoZeroWeight(p) && Stops(p, depth, rnd, before.hasZ, before.hasM)
    ensures AddSpan(before, p, depth, rnd) == SpanResult(true, WithBox(before, Hull(p, before.hasZ, before.hasM)))
  {
    hide Stops, WithBox, Hull;
  }

  lemma CloseStop(before: Box, inner: Box, p: seq<HPoint>, depth: nat, rnd: Rounding,
                  s: real, reach: real, least: real, e: real)
    requires p != [] && depth <= 53 && Monotone(rnd) && Bounded(p, s, reach, least, before.hasZ, before.hasM)
    requires e == Excess(|p| - 1, Shrunk(s, 53 - depth), reach, least) && CloseBox(rnd, e, inner, before)
    requires NoZeroWeight(p) && Stops(p, depth, rnd, before.hasZ, before.hasM)
    ensures AddSpan(before, p, depth, rnd).ok
    ensures CloseBox(rnd, e, AddSamples(inner, p, depth, rnd), AddSpan(before, p, depth, rnd).box)
  {
    var hasZ, hasM := before.hasZ, before.hasM;
    InsideFlags(inner, before);
    SamplesUnfold(inner, p, depth, rnd);
    StoppedSpan(before, p, depth, rnd);
    StopIsClose(p, depth, rnd, hasZ, hasM, s, reach, least);
    hide Monotone, Hull, Left, Right, Stops, WithBox, Ends, CloseBox, Bounded, Excess, Inside, AddSamples, AddSpan;
    JoinsClose(rnd, e, inner, before, Ends(p, hasZ, hasM), Hull(p, hasZ, hasM));
  }

  /** The box stays close to that of the points of the span at which it was halved. */
  lemma {:induction false} SpanIsClose(before: Box, inner: Box, p: seq<HPoint>, depth: nat, rnd: Rounding,
                                       s: real, reach: real, least: real, e: real)
    requires p != [] && depth <= 53 && Monotone(rnd) && Bounded(p, s, reach, least, before.hasZ, before.hasM)
    requires e == Excess(|p| - 1, Shrunk(s, 53 - depth), reach, least) && CloseBox(rnd, e, inner, before)
    ensures AddSpan(before, p, depth, rnd).ok
    ensures CloseBox(rnd, e, AddSamples(inner, p, depth, rnd), AddSpan(before, p, depth, rnd).box)
    decreases if depth >= DBL_MANT_DIG then 0 else DBL_MANT_DIG - depth
  {
    hide Monotone, Hull, Left, Right, Stops, WithBox, Ends, CloseBox, Bounded, Excess, Inside, AddSamples, AddSpan;
    hide NoZeroWeight, PositiveWeights, EmptyBox;
    var hasZ, hasM := before.hasZ, before.hasM;
    BoundedIsPositive(p, s, reach, least, hasZ, hasM);
    CloseFlags(rnd, e, inner, before);
    SamplesUnfold(inner, p, depth, rnd);
    if Stops(p, depth, rnd, hasZ, hasM) {
      CloseStop(before, inner, p, depth, rnd, s, reach, least, e);
    } else {
      NotStopped(p, depth, rnd, hasZ, hasM);
      HalvesAreBounded(p, s, reach, least, hasZ, hasM);
      SpanIsClose(before, inner, Left(p), depth + 1, rnd, s / 2.0, reach, least, e);
      SpanIsClose(AddSpan(before, Left(p), depth + 1, rnd).box, AddSamples(inner, Left(p), depth + 1, rnd),
                  Right(p), depth + 1, rnd, s / 2.0, reach, least, e);
      SpanUnfolds(before, p, depth, rnd);
    }
  }

  lemma PositiveIsNonZero(p: seq<HPoint>)
    requires PositiveWeights(p)
    ensures NoZeroWeight(p)
  {
  }

  lemma HalvesArePositive(p: seq<HPoint>)
    requires p != [] && PositiveWeights(p)
    ensures PositiveWeights(Left(p)) && PositiveWeights(Right(p))
  {
    HalvesNest(p, false, false);
  }

  lemma SampledStop(inner: Box, p: seq<HPoint>, depth: nat, rnd: Rounding, outer: Box)
    requires p != [] && NoZeroWeight(p) && Stops(p, depth, rnd, inner.hasZ, inner.hasM)
    requires HoldsCurve(outer, p) && Inside(inner, outer) && Inside(EmptyBox(outer.hasZ, outer.hasM), outer)
    ensures Inside(AddSamples(inner, p, depth, rnd), outer)
  {
    InsideFlags(inner, outer);
    hide HoldsCurve, Hull, Left, Right, Stops, WithBox, Ends, Inside, EmptyBox;
    EndsAreInside(p, outer);
    WithBoxIsJoin(inner, Ends(p, inner.hasZ, inner.hasM), outer);
  }

  /** Every box that holds the span contains these points. */
  lemma {:induction false} SamplesAreInside(inner: Box, p: seq<HPoint>, depth: nat, rnd: Rounding, outer: Box)
    requires p != [] && PositiveWeights(p)
    requires HoldsCurve(outer, p) && Inside(inner, outer) && Inside(EmptyBox(outer.hasZ, outer.hasM), outer)
    ensures Inside(AddSamples(inner, p, depth, rnd), outer)
    decreases if depth >= DBL_MANT_DIG then 0 else DBL_MANT_DIG - depth
  {
    hide HoldsCurve, Hull, Left, Right, Stops, WithBox, Ends, Inside, AddSamples, NoZeroWeight, EmptyBox;
    hide PositiveWeights;
    var hasZ, hasM := inner.hasZ, inner.hasM;
    PositiveIsNonZero(p);
    InsideFlags(inner, outer);
    SamplesUnfold(inner, p, depth, rnd);
    if Stops(p, depth, rnd, hasZ, hasM) {
      SampledStop(inner, p, depth, rnd, outer);
    } else {
      NotStopped(p, depth, rnd, hasZ, hasM);
      HalvesAreHeldCurves(outer, p);
      HalvesArePositive(p);
      SamplesAreInside(inner, Left(p), depth + 1, rnd, outer);
      SamplesAreInside(AddSamples(inner, Left(p), depth + 1, rnd), Right(p), depth + 1, rnd, outer);
    }
  }

  lemma TighterIsClose(rnd: Rounding, e: real, inner: Range, tight: Range, outer: Range)
    requires Monotone(rnd) && RangeInside(inner, tight) && RangeInside(tight, outer) && CloseRange(rnd, e, inner, outer)
    ensures CloseRange(rnd, e, tight, outer)
  {
    assert rnd.down(outer.min) <= rnd.down(tight.min) <= rnd.down(inner.min);
    assert rnd.up(inner.max) <= rnd.up(tight.max) <= rnd.up(outer.max);
  }

  lemma TighterBoxIsClose(rnd: Rounding, e: real, inner: Box, tight: Box, outer: Box)
    requires Monotone(rnd) && Inside(inner, tight) && Inside(tight, outer) && CloseBox(rnd, e, inner, outer)
    ensures CloseBox(rnd, e, tight, outer)
  {
    hide Monotone, CloseRange;
    TighterIsClose(rnd, e, inner.x, tight.x, outer.x);
    TighterIsClose(rnd, e, inner.y, tight.y, outer.y);
    if inner.hasZ {
      TighterIsClose(rnd, e, inner.z, tight.z, outer.z);
    }
    if inner.hasM {
      TighterIsClose(rnd, e, inner.m, tight.m, outer.m);
    }
  }

  function Doubled(k: nat): (p: nat)
    ensures p > 0
  {
    if k == 0 then 1 else 2 * Doubled(k - 1)
  }

  lemma {:induction false} ShrunkTimes(s: real, k: nat)
    ensures Shrunk(s, k) * Doubled(k) as real == s
    decreases k
  {
    if k > 0 {
      ShrunkTimes(s / 2.0, k - 1);
      var q, p := Shrunk(s, k), Doubled(k - 1) as real;
      assert q * (2.0 * p) == 2.0 * (q * p);
    }
  }

  lemma {:induction false} DoubledSum(m: nat, n: nat)
    ensures Doubled(m + n) == Doubled(m) * Doubled(n)
  {
    if m > 0 {
      DoubledSum(m - 1, n);
    }
  }

  lemma SmallDoubles()
    ensures Doubled(5) == 32 && Doubled(8) == 256
  {
  }

  lemma Shrunk53(s: real)
    ensures Shrunk(s, 53) * 9007199254740992.0 == s
  {
    hide Shrunk, Doubled;
    ShrunkTimes(s, 53);
    SmallDoubles();
    DoubledSum(8, 8);
    DoubledSum(16, 16);
    DoubledSum(32, 16);
    DoubledSum(48, 5);
  }

  /** The box added from the inverted one exceeds every box that holds the span by no more than
      the steps of its control points, divided by two to the power 53, account for; or it
      rounds to the same floats there. */
  lemma BoxIsClose(p: seq<HPoint>, hasZ: bool, hasM: bool, rnd: Rounding,
                   s: real, finest: real, reach: real, least: real, tight: Box)
    requires p != [] && Monotone(rnd) && Bounded(p, s, reach, least, hasZ, hasM)
    requires finest * 9007199254740992.0 == s
    requires HoldsCurve(tight, p) && Inside(EmptyBox(hasZ, hasM), tight)
    requires Inside(tight, AddSpan(EmptyBox(hasZ, hasM), p, 0, rnd).box)
    ensures CloseBox(rnd, Excess(|p| - 1, finest, reach, least), tight, AddSpan(EmptyBox(hasZ, hasM), p, 0, rnd).box)
  {
    var empty := EmptyBox(hasZ, hasM);
    Shrunk53(s);
    assert finest == Shrunk(s, 53);
    BoundedIsPositive(p, s, reach, least, hasZ, hasM);
    var e := Excess(|p| - 1, finest, reach, least);
    InsideSelf(empty);
    BoxRoundsAsItself(rnd, empty);
    RoundedIsClose(rnd, e, empty, empty);
    InsideFlags(empty, tight);
    hide Monotone, Bounded, AddSpan, AddSamples, HoldsCurve, Inside, CloseBox, Excess, Shrunk;
    SpanIsClose(empty, empty, p, 0, rnd, s, reach, least, e);
    SamplesAreInside(empty, p, 0, rnd, tight);
    TighterBoxIsClose(rnd, e, AddSamples(empty, p, 0, rnd), tight, AddSpan(empty, p, 0, rnd).box);
  }
}
