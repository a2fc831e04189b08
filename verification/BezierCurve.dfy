/** Rational Bezier spans: evaluation, halving and bounding boxes, as values. */
module BezierCurve {
  /** A control point in homogeneous coordinates. */
  datatype HPoint = HPoint(x: real, y: real, z: real, m: real, w: real)

  function Mix(a: real, b: real, t: real): real {
    (1.0 - t) * a + t * b
  }

  function Lerp(a: HPoint, b: HPoint, t: real): HPoint {
    HPoint(Mix(a.x, b.x, t), Mix(a.y, b.y, t), Mix(a.z, b.z, t), Mix(a.m, b.m, t), Mix(a.w, b.w, t))
  }

  /** One round of de Casteljau's scheme. */
  function Level(p: seq<HPoint>, t: real): (r: seq<HPoint>)
    ensures |r| == if p == [] then 0 else |p| - 1
    ensures forall i {:trigger r[i]} :: 0 <= i < |r| ==> r[i] == Lerp(p[i], p[i + 1], t)
  {
    if |p| <= 1 then [] else [Lerp(p[0], p[1], t)] + Level(p[1..], t)
  }

  /** The point of the span at parameter `t`. */
  function Eval(p: seq<HPoint>, t: real): HPoint
    requires p != []
    decreases |p|
  {
    if |p| == 1 then p[0] else Eval(Level(p, t), t)
  }

  function Halved(p: seq<HPoint>): (r: seq<HPoint>)
    ensures |r| == if p == [] then 0 else |p| - 1
  {
    Level(p, 0.5)
  }

  /** The control points of the first half: the first point of every round. */
  function Left(p: seq<HPoint>): (r: seq<HPoint>)
    ensures |r| == |p|
    decreases |p|
  {
    if p == [] then [] else [p[0]] + Left(Halved(p))
  }

  /** The control points of the second half: the last point of every round, last round first. */
  function Right(p: seq<HPoint>): (r: seq<HPoint>)
    ensures |r| == |p|
    decreases |p|
  {
    if p == [] then [] else Right(Halved(p)) + [p[|p| - 1]]
  }

  // ----- the halves trace the same curve

  lemma MixMedial(a: real, b: real, c: real, s: real, t: real)
    ensures Mix(Mix(a, b, s), Mix(b, c, s), t) == Mix(Mix(a, b, t), Mix(b, c, t), s)
  {
  }

  lemma LerpMedial(a: HPoint, b: HPoint, c: HPoint, s: real, t: real)
    ensures Lerp(Lerp(a, b, s), Lerp(b, c, s), t) == Lerp(Lerp(a, b, t), Lerp(b, c, t), s)
  {
    MixMedial(a.x, b.x, c.x, s, t);
    MixMedial(a.y, b.y, c.y, s, t);
    MixMedial(a.z, b.z, c.z, s, t);
    MixMedial(a.m, b.m, c.m, s, t);
    MixMedial(a.w, b.w, c.w, s, t);
  }

  lemma MixHalves(a: real, b: real, s: real)
    ensures Mix(a, Mix(a, b, 0.5), s) == Mix(a, b, s / 2.0)
    ensures Mix(Mix(a, b, 0.5), b, s) == Mix(a, b, (1.0 + s) / 2.0)
  {
  }

  lemma LerpHalves(a: HPoint, b: HPoint, s: real)
    ensures Lerp(a, Lerp(a, b, 0.5), s) == Lerp(a, b, s / 2.0)
    ensures Lerp(Lerp(a, b, 0.5), b, s) == Lerp(a, b, (1.0 + s) / 2.0)
  {
    MixHalves(a.x, b.x, s);
    MixHalves(a.y, b.y, s);
    MixHalves(a.z, b.z, s);
    MixHalves(a.m, b.m, s);
    MixHalves(a.w, b.w, s);
  }

  /** Rounds with different parameters commute. */
  lemma LevelsCommute(p: seq<HPoint>, s: real, t: real)
    ensures Level(Level(p, s), t) == Level(Level(p, t), s)
  {
    hide Lerp;
    var st, ts := Level(Level(p, s), t), Level(Level(p, t), s);
    forall i | 0 <= i < |st|
      ensures st[i] == ts[i]
    {
      LerpMedial(p[i], p[i + 1], p[i + 2], s, t);
      assert Level(p, s)[i] == Lerp(p[i], p[i + 1], s) && Level(p, s)[i + 1] == Lerp(p[i + 1], p[i + 2], s);
      assert Level(p, t)[i] == Lerp(p[i], p[i + 1], t) && Level(p, t)[i + 1] == Lerp(p[i + 1], p[i + 2], t);
    }
  }

  /** A round over a list with one more point in front, or at the end. */
  lemma LevelOfCons(a: HPoint, p: seq<HPoint>, t: real)
    requires p != []
    ensures Level([a] + p, t) == [Lerp(a, p[0], t)] + Level(p, t)
    ensures Level(p + [a], t) == Level(p, t) + [Lerp(p[|p| - 1], a, t)]
  {
    hide Lerp;
    assert ([a] + p)[1..] == p;
  }

  lemma LeftStart(p: seq<HPoint>)
    requires p != []
    ensures Left(p)[0] == p[0] && Right(p)[|p| - 1] == p[|p| - 1]
  {
  }

  /** A round over the first half is the first half of a round at half the parameter. */
  lemma {:induction false} LevelOfLeft(p: seq<HPoint>, s: real)
    ensures Level(Left(p), s) == Left(Level(p, s / 2.0))
    decreases |p|
  {
    hide Lerp;
    if |p| > 1 {
      var h, q := Halved(p), Level(p, s / 2.0);
      LevelOfLeft(h, s);
      LeftStart(h);
      LevelOfCons(p[0], Left(h), s);
      LerpHalves(p[0], p[1], s);
      LevelsCommute(p, 0.5, s / 2.0);
      assert h[0] == Lerp(p[0], p[1], 0.5) && q[0] == Lerp(p[0], p[1], s / 2.0);
    }
  }

  lemma {:induction false} LevelOfRight(p: seq<HPoint>, s: real)
    ensures Level(Right(p), s) == Right(Level(p, (1.0 + s) / 2.0))
    decreases |p|
  {
    hide Lerp;
    if |p| > 1 {
      var n := |p|;
      var h, q := Halved(p), Level(p, (1.0 + s) / 2.0);
      LevelOfRight(h, s);
      LeftStart(h);
      LevelOfCons(p[n - 1], Right(h), s);
      LerpHalves(p[n - 2], p[n - 1], s);
      LevelsCommute(p, 0.5, (1.0 + s) / 2.0);
      assert h[n - 2] == Lerp(p[n - 2], p[n - 1], 0.5) && q[n - 2] == Lerp(p[n - 2], p[n - 1], (1.0 + s) / 2.0);
    }
  }

  /** The first half runs through the span up to its middle. */
  lemma {:induction false} LeftTraces(p: seq<HPoint>, s: real)
    requires p != []
    ensures Eval(Left(p), s) == Eval(p, s / 2.0)
    decreases |p|
  {
    hide Lerp, Left, Level;
    LeftStart(p);
    if |p| > 1 {
      LevelOfLeft(p, s);
      LeftTraces(Level(p, s / 2.0), s);
    }
  }

  /** The second half runs through the span from its middle on. */
  lemma {:induction false} RightTraces(p: seq<HPoint>, s: real)
    requires p != []
    ensures Eval(Right(p), s) == Eval(p, (1.0 + s) / 2.0)
    decreases |p|
  {
    hide Lerp, Right, Level;
    LeftStart(p);
    if |p| > 1 {
      LevelOfRight(p, s);
      RightTraces(Level(p, (1.0 + s) / 2.0), s);
    }
  }

  /** De Casteljau's scheme is the recursive definition of the curve: the span of `p` mixes
      the spans without the last and without the first control point. */
  lemma {:induction false} EvalMixes(p: seq<HPoint>, t: real)
    requires |p| > 1
    ensures Eval(p, t) == Lerp(Eval(p[..|p| - 1], t), Eval(p[1..], t), t)
    decreases |p|
  {
    hide Lerp;
    if |p| > 2 {
      EvalMixes(Level(p, t), t);
      var n := |p|;
      assert Level(p, t)[..n - 2] == Level(p[..n - 1], t);
      assert Level(p, t)[1..] == Level(p[1..], t);
    } else {
      assert p[..1] == [p[0]] && p[1..] == [p[1]];
      assert Level(p, t) == [Lerp(p[0], p[1], t)];
    }
  }

  // ----- boxes

  /** The largest double. */
  const DBL_MAX: real :=
    179769313486231570814527423731704356798070567525844996598917476803157260780028538760589558632766878171540458953514382464234321326889464182768467546703537516986049910576551282076245490090389328944075868508455133942304583236903222948165808559332123347764797926204144723168738177180919299881250404026184124858368.0

  datatype Range = Range(min: real, max: real)

  /** A box in two to four dimensions. */
  datatype Box = Box(hasZ: bool, hasM: bool, x: Range, y: Range, z: Range, m: Range)

  const INVERTED := Range(DBL_MAX, -DBL_MAX)

  function EmptyBox(hasZ: bool, hasM: bool): Box {
    Box(hasZ, hasM, INVERTED, INVERTED, INVERTED, INVERTED)
  }

  function Extended(r: Range, v: real): Range {
    Range(if r.min < v then r.min else v, if r.max > v then r.max else v)
  }

  function Merged(r: Range, other: Range): Range {
    Range(if other.min < r.min then other.min else r.min, if other.max > r.max then other.max else r.max)
  }

  predicate SameFlags(a: Box, b: Box) {
    a.hasZ == b.hasZ && a.hasM == b.hasM
  }

  /** The box that also holds a projected control point. */
  function WithPoint(b: Box, h: HPoint): Box
    requires h.w != 0.0
  {
    b.(x := Extended(b.x, h.x / h.w), y := Extended(b.y, h.y / h.w),
       z := if b.hasZ then Extended(b.z, h.z / h.w) else b.z, m := if b.hasM then Extended(b.m, h.m / h.w) else b.m)
  }

  function WithBox(b: Box, other: Box): Box {
    b.(x := Merged(b.x, other.x), y := Merged(b.y, other.y),
       z := if b.hasZ then Merged(b.z, other.z) else b.z, m := if b.hasM then Merged(b.m, other.m) else b.m)
  }

  predicate NoZeroWeight(p: seq<HPoint>) {
    forall i :: 0 <= i < |p| ==> p[i].w != 0.0
  }

  predicate PositiveWeights(p: seq<HPoint>) {
    forall i :: 0 <= i < |p| ==> p[i].w > 0.0
  }

  /** The box of the first `n` projected control points. */
  function HullBox(p: seq<HPoint>, n: nat, hasZ: bool, hasM: bool): (b: Box)
    requires n <= |p| && NoZeroWeight(p[..n])
    ensures b.hasZ == hasZ && b.hasM == hasM
  {
    if n == 0 then EmptyBox(hasZ, hasM)
    else
      assert p[n - 1] == p[..n][n - 1] && p[..n - 1] == p[..n][..n - 1];
      WithPoint(HullBox(p, n - 1, hasZ, hasM), p[n - 1])
  }

  /** The box of the whole hull. */
  function Hull(p: seq<HPoint>, hasZ: bool, hasM: bool): (b: Box)
    requires NoZeroWeight(p)
    ensures SameFlags(b, EmptyBox(hasZ, hasM))
  {
    assert p[..|p|] == p;
    HullBox(p, |p|, hasZ, hasM)
  }

  predicate RangeInside(a: Range, b: Range) {
    b.min <= a.min && a.max <= b.max
  }

  /** Box `a` lies inside `b`, in the dimensions they have. */
  predicate Inside(a: Box, b: Box) {
    && SameFlags(a, b)
    && RangeInside(a.x, b.x) && RangeInside(a.y, b.y)
    && (a.hasZ ==> RangeInside(a.z, b.z)) && (a.hasM ==> RangeInside(a.m, b.m))
  }

  /** The projected value `v / w` lies in the range, put without division. */
  predicate ConeHolds(r: Range, v: real, w: real) {
    w > 0.0 && r.min * w <= v <= r.max * w
  }

  /** The box holds the projected point. */
  predicate Holds(b: Box, h: HPoint) {
    && ConeHolds(b.x, h.x, h.w) && ConeHolds(b.y, h.y, h.w)
    && (b.hasZ ==> ConeHolds(b.z, h.z, h.w)) && (b.hasM ==> ConeHolds(b.m, h.m, h.w))
  }

  lemma ConeIsProjection(r: Range, v: real, w: real)
    requires w > 0.0
    ensures ConeHolds(r, v, w) <==> r.min <= v / w <= r.max
  {
    var q := v / w;
    assert q * w == v;
    Scale(r.min, q, w);
    Scale(q, r.max, w);
  }

  lemma Scale(a: real, b: real, w: real)
    requires w > 0.0
    ensures a <= b <==> a * w <= b * w
  {
    if a < b {
      assert (b - a) * w > 0.0;
    } else if b < a {
      assert (a - b) * w > 0.0;
    }
  }

  lemma NonNegativeProduct(a: real, b: real)
    requires a >= 0.0 && b >= 0.0
    ensures a * b >= 0.0
  {
  }

  lemma MixScales(c: real, a: real, b: real, t: real)
    ensures c * Mix(a, b, t) == Mix(c * a, c * b, t)
  {
  }

  lemma MixGrows(a: real, b: real, c: real, d: real, t: real)
    requires 0.0 <= t <= 1.0 && a <= c && b <= d
    ensures Mix(a, b, t) <= Mix(c, d, t)
  {
    var u, v := (1.0 - t) * (c - a), t * (d - b);
    NonNegativeProduct(1.0 - t, c - a);
    NonNegativeProduct(t, d - b);
    assert Mix(c, d, t) - Mix(a, b, t) == u + v;
  }

  lemma MixPositive(a: real, b: real, t: real)
    requires a > 0.0 && b > 0.0 && 0.0 <= t <= 1.0
    ensures Mix(a, b, t) > 0.0
  {
    if a < b {
      MixGrows(a, a, a, b, t);
      MixSame(a, t);
    } else {
      MixGrows(b, b, a, b, t);
      MixSame(b, t);
    }
  }

  lemma MixSame(a: real, t: real)
    ensures Mix(a, a, t) == a
  {
  }

  lemma ConeIsConvex(r: Range, a: real, wa: real, b: real, wb: real, t: real)
    requires ConeHolds(r, a, wa) && ConeHolds(r, b, wb) && 0.0 <= t <= 1.0
    ensures ConeHolds(r, Mix(a, b, t), Mix(wa, wb, t))
  {
    hide Mix;
    MixScales(r.min, wa, wb, t);
    MixScales(r.max, wa, wb, t);
    MixGrows(r.min * wa, r.min * wb, a, b, t);
    MixGrows(a, b, r.max * wa, r.max * wb, t);
    MixPositive(wa, wb, t);
  }

  lemma LerpIsHeld(box: Box, a: HPoint, b: HPoint, t: real)
    requires Holds(box, a) && Holds(box, b) && 0.0 <= t <= 1.0
    ensures Holds(box, Lerp(a, b, t))
  {
    hide ConeHolds, Mix;
    ConeIsConvex(box.x, a.x, a.w, b.x, b.w, t);
    ConeIsConvex(box.y, a.y, a.w, b.y, b.w, t);
    if box.hasZ {
      ConeIsConvex(box.z, a.z, a.w, b.z, b.w, t);
    }
    if box.hasM {
      ConeIsConvex(box.m, a.m, a.w, b.m, b.w, t);
    }
  }

  predicate HoldsAll(box: Box, p: seq<HPoint>) {
    forall i :: 0 <= i < |p| ==> Holds(box, p[i])
  }

  lemma LevelIsHeld(box: Box, p: seq<HPoint>, t: real)
    requires HoldsAll(box, p) && 0.0 <= t <= 1.0
    ensures HoldsAll(box, Level(p, t))
  {
    hide Holds, Lerp;
    forall i | 0 <= i < |Level(p, t)|
      ensures Holds(box, Level(p, t)[i])
    {
      LerpIsHeld(box, p[i], p[i + 1], t);
    }
  }

  /** A box that holds the control points holds the whole span. */
  lemma {:induction false} EvalIsHeld(box: Box, p: seq<HPoint>, t: real)
    requires p != [] && HoldsAll(box, p) && 0.0 <= t <= 1.0
    ensures Holds(box, Eval(p, t))
    decreases |p|
  {
    hide Holds, Level;
    if |p| > 1 {
      LevelIsHeld(box, p, t);
      EvalIsHeld(box, Level(p, t), t);
    }
  }

  /** A box that holds the control points holds those of both halves. */
  lemma {:induction false} HalvesAreHeld(box: Box, p: seq<HPoint>)
    requires HoldsAll(box, p)
    ensures HoldsAll(box, Left(p)) && HoldsAll(box, Right(p))
    decreases |p|
  {
    hide Holds, Halved;
    if p != [] {
      LevelIsHeld(box, p, 0.5);
      HalvedIsLevel(p);
      HalvesAreHeld(box, Halved(p));
    }
  }

  lemma HalvedIsLevel(p: seq<HPoint>)
    ensures Halved(p) == Level(p, 0.5)
  {
  }

  lemma HoldsPositive(box: Box, p: seq<HPoint>)
    requires HoldsAll(box, p)
    ensures PositiveWeights(p) && NoZeroWeight(p)
  {
    forall i | 0 <= i < |p|
      ensures p[i].w > 0.0
    {
      assert Holds(box, p[i]);
    }
  }

  // ----- hull boxes

  lemma ExtendedHolds(r: Range, v: real, w: real, u: real, wu: real)
    requires w > 0.0
    ensures ConeHolds(Extended(r, v / w), v, w)
    ensures ConeHolds(r, u, wu) ==> ConeHolds(Extended(r, v / w), u, wu)
  {
    ConeIsProjection(Extended(r, v / w), v, w);
    if wu > 0.0 {
      ConeIsProjection(Extended(r, v / w), u, wu);
      ConeIsProjection(r, u, wu);
    }
  }

  lemma WithPointHolds(b: Box, h: HPoint, other: HPoint)
    requires h.w > 0.0
    ensures Holds(WithPoint(b, h), h)
    ensures Holds(b, other) ==> Holds(WithPoint(b, h), other)
  {
    hide ConeHolds, Extended;
    ExtendedHolds(b.x, h.x, h.w, other.x, other.w);
    ExtendedHolds(b.y, h.y, h.w, other.y, other.w);
    ExtendedHolds(b.z, h.z, h.w, other.z, other.w);
    ExtendedHolds(b.m, h.m, h.w, other.m, other.w);
  }

  /** The hull box holds its control points. */
  lemma {:induction false} HullHolds(p: seq<HPoint>, n: nat, hasZ: bool, hasM: bool)
    requires n <= |p| && PositiveWeights(p)
    ensures NoZeroWeight(p[..n]) && HoldsAll(HullBox(p, n, hasZ, hasM), p[..n])
  {
    hide Holds, WithPoint;
    if n > 0 {
      HullHolds(p, n - 1, hasZ, hasM);
      var before := HullBox(p, n - 1, hasZ, hasM);
      forall i | 0 <= i < n
        ensures Holds(HullBox(p, n, hasZ, hasM), p[i])
      {
        WithPointHolds(before, p[n - 1], p[i]);
        assert i < n - 1 ==> p[i] == p[..n - 1][i];
      }
    }
  }

  lemma ExtendedInside(r: Range, v: real, w: real, outer: Range)
    requires w > 0.0 && RangeInside(r, outer) && ConeHolds(outer, v, w)
    ensures RangeInside(Extended(r, v / w), outer)
  {
    ConeIsProjection(outer, v, w);
  }

  lemma WithPointInside(b: Box, h: HPoint, outer: Box)
    requires h.w != 0.0 && Inside(b, outer) && Holds(outer, h)
    ensures Inside(WithPoint(b, h), outer)
  {
    hide Extended;
    assert h.w > 0.0;
    ExtendedInside(b.x, h.x, h.w, outer.x);
    ExtendedInside(b.y, h.y, h.w, outer.y);
    if b.hasZ {
      ExtendedInside(b.z, h.z, h.w, outer.z);
    }
    if b.hasM {
      ExtendedInside(b.m, h.m, h.w, outer.m);
    }
  }

  /** A box that is not empty and holds the control points contains their hull box. */
  lemma {:induction false} HullInside(p: seq<HPoint>, n: nat, outer: Box)
    requires n <= |p| && HoldsAll(outer, p) && Inside(EmptyBox(outer.hasZ, outer.hasM), outer)
    ensures NoZeroWeight(p[..n]) && Inside(HullBox(p, n, outer.hasZ, outer.hasM), outer)
  {
    hide Holds, Inside, WithPoint;
    HoldsPositive(outer, p);
    if n > 0 {
      HullInside(p, n - 1, outer);
      WithPointInside(HullBox(p, n - 1, outer.hasZ, outer.hasM), p[n - 1], outer);
    }
  }

  lemma {:induction false} EmptyInsideHull(p: seq<HPoint>, n: nat, hasZ: bool, hasM: bool)
    requires n <= |p| && NoZeroWeight(p[..n])
    ensures Inside(EmptyBox(hasZ, hasM), HullBox(p, n, hasZ, hasM))
  {
    if n > 0 {
      assert p[n - 1] == p[..n][n - 1] && p[..n - 1] == p[..n][..n - 1];
      EmptyInsideHull(p, n - 1, hasZ, hasM);
    }
  }

  // ----- order of boxes

  lemma InsideTrans(a: Box, b: Box, c: Box)
    requires Inside(a, b) && Inside(b, c)
    ensures Inside(a, c)
  {
  }

  /** Merging gives the least box that contains both. */
  lemma WithBoxIsJoin(a: Box, b: Box, c: Box)
    requires SameFlags(a, b)
    ensures Inside(a, WithBox(a, b)) && Inside(b, WithBox(a, b))
    ensures Inside(a, c) && Inside(b, c) ==> Inside(WithBox(a, b), c)
  {
  }

  lemma HeldInLarger(a: Box, b: Box, h: HPoint)
    requires Inside(a, b) && Holds(a, h)
    ensures Holds(b, h)
  {
    hide ConeHolds;
    ConeLarger(a.x, b.x, h.x, h.w);
    ConeLarger(a.y, b.y, h.y, h.w);
    if a.hasZ {
      ConeLarger(a.z, b.z, h.z, h.w);
    }
    if a.hasM {
      ConeLarger(a.m, b.m, h.m, h.w);
    }
  }

  lemma ConeLarger(a: Range, b: Range, v: real, w: real)
    requires RangeInside(a, b) && ConeHolds(a, v, w)
    ensures ConeHolds(b, v, w)
  {
    ConeIsProjection(a, v, w);
    ConeIsProjection(b, v, w);
  }
}
