/** Removing repeated points from a multipoint: two sort-and-sweep passes, in place. */
module MultiPoints {
  import opened Common
  import opened Sorting

  /** A point with its further ordinates, or an empty point. */
  datatype LwPoint = Empty | At(x: real, y: real, more: seq<real>)

  datatype Dim = ByY | ByX

  type Slots = seq<Option<LwPoint>>

  function Coord(dim: Dim, p: LwPoint): real
    requires p.At?
  {
    if dim == ByX then p.x else p.y
  }

  /** The order of the sort: by one coordinate, empty points last. */
  predicate Before(dim: Dim, a: LwPoint, b: LwPoint) {
    if a.At? && b.At? then Coord(dim, a) <= Coord(dim, b) else a.At? || b.Empty?
  }

  function Square(a: LwPoint, b: LwPoint): real
    requires a.At? && b.At?
  {
    (b.x - a.x) * (b.x - a.x) + (b.y - a.y) * (b.y - a.y)
  }

  /** Within the tolerance circle. */
  predicate Near(tolsq: real, a: LwPoint, b: LwPoint) {
    a.At? && b.At? && Square(a, b) <= tolsq
  }

  predicate Sorted(dim: Dim, s: seq<LwPoint>) {
    forall i, j :: 0 <= i <= j < |s| ==> Before(dim, s[i], s[j])
  }

  predicate PairwiseFar(tolsq: real, s: seq<LwPoint>) {
    && (forall i :: 0 <= i < |s| ==> s[i].At?)
    && forall i, j :: 0 <= i < j < |s| ==> !Near(tolsq, s[i], s[j])
  }

  lemma NonNegativeSquare(v: real)
    ensures v * v >= 0.0
  {
  }

  lemma PositiveProduct(a: real, b: real)
    requires a > 0.0 && b > 0.0
    ensures a * b > 0.0
  {
  }

  lemma LargerSquare(v: real, t: real)
    requires v > t >= 0.0
    ensures v * v > t * t
  {
    PositiveProduct(v - t, v + t);
    assert (v - t) * (v + t) == v * v - t * t;
  }

  /** Points further apart in one coordinate are further apart. */
  lemma OutsideStrip(dim: Dim, a: LwPoint, b: LwPoint, tolerance: real)
    requires a.At? && b.At? && tolerance >= 0.0 && Coord(dim, b) - Coord(dim, a) > tolerance
    ensures !Near(tolerance * tolerance, a, b)
  {
    NonNegativeSquare(b.x - a.x);
    NonNegativeSquare(b.y - a.y);
    LargerSquare(Coord(dim, b) - Coord(dim, a), tolerance);
  }

  /** Two points are near exactly when their distance, the root of the sum of squares, is within
      the tolerance. */
  lemma NearIsWithin(a: LwPoint, b: LwPoint, distance: real, tolerance: real)
    requires a.At? && b.At? && tolerance >= 0.0 && distance >= 0.0
    requires distance * distance == (a.x - b.x) * (a.x - b.x) + (a.y - b.y) * (a.y - b.y)
    ensures Near(tolerance * tolerance, a, b) <==> distance <= tolerance
  {
    if distance > tolerance {
      LargerSquare(distance, tolerance);
    } else if tolerance > distance {
      LargerSquare(tolerance, distance);
    }
  }

  lemma NearSymmetric(tolsq: real, a: LwPoint, b: LwPoint)
    ensures Near(tolsq, a, b) <==> Near(tolsq, b, a)
  {
    if a.At? && b.At? {
      SquareSymmetric(a, b);
    }
  }

  lemma SquareSymmetric(a: LwPoint, b: LwPoint)
    requires a.At? && b.At?
    ensures Square(a, b) == Square(b, a)
  {
  }

  lemma NearItself(tolsq: real, a: LwPoint)
    requires a.At? && tolsq >= 0.0
    ensures Near(tolsq, a, a)
  {
  }

  // ----- what a sweep does to the slots

  /** Slot `k` was emptied because of an earlier point that stays. */
  predicate RemovedBy(tolsq: real, given: seq<LwPoint>, s: Slots, k: nat, p: nat)
    requires |s| == |given| && k < |s|
  {
    && p < k && s[k].None? && s[p] == Some(given[p]) && Near(tolsq, given[p], given[k])
  }

  /** Two slots that are still filled hold points that are not near. */
  predicate FarFrom(tolsq: real, given: seq<LwPoint>, s: Slots, a: nat, b: nat)
    requires |s| == |given| && a < |s| && b < |s|
  {
    s[a] == Some(given[a]) && s[b] == Some(given[b]) ==> !Near(tolsq, given[a], given[b])
  }

  /** Slots are as given or emptied because of a pivot before `n`, and the pivots before `n`
      that are left are far from everything after them that is left. */
  ghost predicate Swept(tolerance: real, given: seq<LwPoint>, s: Slots, n: nat) {
    var tolsq := tolerance * tolerance;
    && |s| == |given|
    && (forall k :: 0 <= k < |s| ==>
          s[k] == Some(given[k]) || exists p :: 0 <= p < n && RemovedBy(tolsq, given, s, k, p))
    && (tolerance < 0.0 ==> forall k :: 0 <= k < |s| ==> s[k] == Some(given[k]))
    && (tolerance >= 0.0 ==> forall a, b :: 0 <= a < n && a < b < |s| ==> FarFrom(tolsq, given, s, a, b))
  }

  /** In the sweep from pivot `i`, the slots before `j` have been compared. */
  ghost predicate InSweep(tolerance: real, given: seq<LwPoint>, s: Slots, i: nat, j: nat) {
    var tolsq := tolerance * tolerance;
    && |s| == |given| && i < j <= |s| && s[i] == Some(given[i]) && given[i].At?
    && (forall k :: 0 <= k < |s| ==>
          s[k] == Some(given[k]) || exists p :: 0 <= p <= i && RemovedBy(tolsq, given, s, k, p))
    && (tolerance < 0.0 ==> forall k :: 0 <= k < |s| ==> s[k] == Some(given[k]))
    && (tolerance >= 0.0 ==> forall a, b :: 0 <= a < i && a < b < |s| ==> FarFrom(tolsq, given, s, a, b))
    && (tolerance >= 0.0 ==> forall b :: i < b < j ==> FarFrom(tolsq, given, s, i, b))
  }

  function AllSome(given: seq<LwPoint>): (s: Slots)
    ensures |s| == |given| && forall k :: 0 <= k < |s| ==> s[k] == Some(given[k])
  {
    if given == [] then [] else AllSome(given[..|given| - 1]) + [Some(given[|given| - 1])]
  }

  lemma NothingSwept(tolerance: real, given: seq<LwPoint>)
    ensures Swept(tolerance, given, AllSome(given), 0)
  {
  }

  /** An empty slot or an empty point is no pivot. */
  lemma SkipPivot(tolerance: real, given: seq<LwPoint>, s: Slots, i: nat)
    requires Swept(tolerance, given, s, i) && i < |s| && (s[i].None? || s[i].value.Empty?)
    ensures Swept(tolerance, given, s, i + 1)
  {
  }

  lemma StartPivot(tolerance: real, given: seq<LwPoint>, s: Slots, i: nat)
    requires Swept(tolerance, given, s, i) && i < |s| && s[i].Some? && s[i].value.At?
    ensures s[i] == Some(given[i]) && InSweep(tolerance, given, s, i, i + 1)
  {
    assert s[i] == Some(given[i]);
  }

  lemma EndPivot(tolerance: real, given: seq<LwPoint>, s: Slots, i: nat)
    requires InSweep(tolerance, given, s, i, |s|)
    ensures Swept(tolerance, given, s, i + 1)
  {
    hide RemovedBy, FarFrom;
  }

  lemma KeepSlot(tolerance: real, given: seq<LwPoint>, s: Slots, i: nat, j: nat)
    requires InSweep(tolerance, given, s, i, j) && j < |s|
    requires s[j].None? || !Near(tolerance * tolerance, given[i], given[j])
    ensures InSweep(tolerance, given, s, i, j + 1)
  {
    hide RemovedBy;
  }

  /** A slot within the circle is emptied. */
  lemma EmptySlot(tolerance: real, given: seq<LwPoint>, s: Slots, i: nat, j: nat)
    requires InSweep(tolerance, given, s, i, j) && j < |s| && tolerance >= 0.0
    requires Near(tolerance * tolerance, given[i], given[j])
    ensures InSweep(tolerance, given, s[j := None], i, j + 1)
  {
    hide Near, RemovedBy, FarFrom;
    var r := s[j := None];
    var tolsq := tolerance * tolerance;
    PivotRemoves(tolsq, given, r, j, i);
    forall k | 0 <= k < |s| && r[k] != Some(given[k])
      ensures exists p :: 0 <= p <= i && RemovedBy(tolsq, given, r, k, p)
    {
      if k != j {
        var p :| 0 <= p <= i && RemovedBy(tolsq, given, s, k, p);
        StillRemoved(tolsq, given, s, j, k, p);
      }
    }
    forall a: nat, b: nat | a <= i && a < b < |s|
      ensures FarFrom(tolsq, given, s, a, b) ==> FarFrom(tolsq, given, r, a, b)
    {
      StillFar(tolsq, given, s, j, a, b);
    }
    StillFar(tolsq, given, s, j, i, j);
  }

  lemma PivotRemoves(tolsq: real, given: seq<LwPoint>, s: Slots, k: nat, p: nat)
    requires |s| == |given| && p < k < |s| && s[k].None? && s[p] == Some(given[p]) && Near(tolsq, given[p], given[k])
    ensures RemovedBy(tolsq, given, s, k, p)
  {
  }

  lemma StillRemoved(tolsq: real, given: seq<LwPoint>, s: Slots, j: nat, k: nat, p: nat)
    requires |s| == |given| && k < |s| && p < j < |s| && RemovedBy(tolsq, given, s, k, p)
    ensures RemovedBy(tolsq, given, s[j := None], k, p)
  {
  }

  lemma StillFar(tolsq: real, given: seq<LwPoint>, s: Slots, j: nat, a: nat, b: nat)
    requires |s| == |given| && a < |s| && b < |s| && j < |s|
    ensures FarFrom(tolsq, given, s, a, b) || b == j ==> FarFrom(tolsq, given, s[j := None], a, b)
  {
  }

  /** Beyond the strip everything is far. */
  lemma LeaveStrip(dim: Dim, tolerance: real, given: seq<LwPoint>, s: Slots, i: nat, j: nat)
    requires InSweep(tolerance, given, s, i, j) && j < |s| && Sorted(dim, given)
    requires given[j].At? && Coord(dim, given[j]) - Coord(dim, given[i]) > tolerance
    ensures InSweep(tolerance, given, s, i, |s|)
  {
    var tolsq := tolerance * tolerance;
    if tolerance >= 0.0 {
      forall b: nat | i < b < |s|
        ensures FarFrom(tolsq, given, s, i, b)
      {
        if b >= j && given[b].At? {
          assert Before(dim, given[j], given[b]);
          OutsideStrip(dim, given[i], given[b], tolerance);
        }
      }
    }
  }

  /** With a negative tolerance the strip is left at once. */
  lemma StripHasWidth(dim: Dim, given: seq<LwPoint>, i: nat, j: nat, tolerance: real)
    requires Sorted(dim, given) && i < j < |given| && given[i].At? && given[j].At?
    requires Coord(dim, given[j]) - Coord(dim, given[i]) <= tolerance
    ensures tolerance >= 0.0
  {
    assert Before(dim, given[i], given[j]);
  }

  // ----- what is left

  /** The points left, in order. */
  function Left(s: Slots): (r: seq<LwPoint>)
    ensures |r| <= |s|
  {
    if s == [] then []
    else
      var rest := Left(s[..|s| - 1]);
      if s[|s| - 1].None? then rest else rest + [s[|s| - 1].value]
  }

  /** Position in `s` of point `i` of what is left. */
  lemma {:induction false} PositionOf(s: Slots, i: nat) returns (k: nat)
    requires i < |Left(s)|
    ensures k < |s| && s[k] == Some(Left(s)[i]) && Left(s[..k]) == Left(s)[..i]
  {
    var n := |s| - 1;
    if i < |Left(s[..n])| {
      k := PositionOf(s[..n], i);
      assert s[..n][..k] == s[..k];
    } else {
      k := n;
    }
  }

  lemma {:induction false} LeftGrows(s: Slots, m: nat, n: nat)
    requires m <= |s| && n <= |s|
    ensures m <= n ==> |Left(s[..m])| <= |Left(s[..n])|
    decreases n
  {
    if m < n {
      LeftGrows(s, m, n - 1);
      assert s[..n][..n - 1] == s[..n - 1];
    }
  }

  /** Later points come from later slots. */
  lemma PositionsRise(s: Slots, i: nat, j: nat) returns (a: nat, b: nat)
    requires i < j < |Left(s)|
    ensures a < b < |s| && s[a] == Some(Left(s)[i]) && s[b] == Some(Left(s)[j])
  {
    a := PositionOf(s, i);
    b := PositionOf(s, j);
    LeftGrows(s, b, a);
    assert |Left(s[..a])| == i && |Left(s[..b])| == j;
  }

  lemma {:induction false} SlotIsLeft(s: Slots, k: nat)
    requires k < |s| && s[k].Some?
    ensures s[k].value in Left(s)
  {
    if k < |s| - 1 {
      SlotIsLeft(s[..|s| - 1], k);
    }
  }

  ghost predicate PartOf(given: seq<LwPoint>, s: Slots) {
    |s| == |given| && forall k :: 0 <= k < |s| ==> s[k].None? || s[k] == Some(given[k])
  }

  lemma OneMore(given: seq<LwPoint>)
    requires given != []
    ensures multiset(given) == multiset(given[..|given| - 1]) + multiset{given[|given| - 1]}
  {
    assert given == given[..|given| - 1] + [given[|given| - 1]];
  }

  lemma PartOfInit(given: seq<LwPoint>, s: Slots)
    requires PartOf(given, s) && s != []
    ensures PartOf(given[..|s| - 1], s[..|s| - 1])
    ensures s[|s| - 1].None? || s[|s| - 1].value == given[|s| - 1]
  {
  }

  /** What is left is some of what was given. */
  lemma {:induction false} LeftIsPart(given: seq<LwPoint>, s: Slots)
    requires PartOf(given, s)
    ensures multiset(Left(s)) <= multiset(given)
  {
    if s != [] {
      var n := |s| - 1;
      PartOfInit(given, s);
      LeftIsPart(given[..n], s[..n]);
      OneMore(given);
      if s[n].Some? {
        OneMore(Left(s));
        assert Left(s)[..|Left(s)| - 1] == Left(s[..n]);
      }
    }
  }

  /** Nothing was taken away when nothing is missing. */
  lemma {:induction false} LeftIsAll(given: seq<LwPoint>, s: Slots)
    requires PartOf(given, s) && |Left(s)| == |given|
    ensures Left(s) == given
  {
    if s != [] {
      var n := |s| - 1;
      PartOfInit(given, s);
      LeftIsAll(given[..n], s[..n]);
      assert given == given[..n] + [given[n]];
    }
  }

  /** Slots without empty points. */
  function WithoutEmpties(s: Slots): (r: Slots)
    ensures |r| == |s| && forall k :: 0 <= k < |s| ==> r[k] == if s[k].Some? && s[k].value.Empty? then None else s[k]
  {
    if s == [] then []
    else WithoutEmpties(s[..|s| - 1]) + [if s[|s| - 1].Some? && s[|s| - 1].value.Empty? then None else s[|s| - 1]]
  }

  /** What a pass promises of its result. */
  ghost predicate Passed(dim: Dim, tolerance: real, given: seq<LwPoint>, r: seq<LwPoint>) {
    && multiset(r) <= multiset(given)
    && Sorted(dim, r) && (forall i :: 0 <= i < |r| ==> r[i].At?)
    && (tolerance >= 0.0 ==> PairwiseFar(tolerance * tolerance, r))
    && (forall p :: p in given && p.At? ==> Kept(tolerance, r, p))
  }

  /** The point is left, or one within tolerance of it. */
  ghost predicate Kept(tolerance: real, r: seq<LwPoint>, p: LwPoint) {
    p in r || (tolerance >= 0.0 && exists q :: q in r && Near(tolerance * tolerance, q, p))
  }

  /** A completed sweep over sorted points leaves sorted points far apart. */
  lemma SweepPasses(dim: Dim, tolerance: real, given: seq<LwPoint>, s: Slots)
    requires Sorted(dim, given) && Swept(tolerance, given, s, |s|)
    ensures Passed(dim, tolerance, given, Left(WithoutEmpties(s)))
  {
    hide Left, WithoutEmpties, RemovedBy, FarFrom, Near, Kept;
    var w := WithoutEmpties(s);
    var r := Left(w);
    SweptIsPart(tolerance, given, s);
    LeftIsPart(given, w);
    SweepLeavesSorted(dim, tolerance, given, s);
    if tolerance >= 0.0 {
      SweepLeavesFar(tolerance, given, s);
    }
    hide Swept, Sorted;
    forall p | p in given && p.At?
      ensures Kept(tolerance, r, p)
    {
      SweepKeeps(tolerance, given, s, p);
    }
  }

  lemma SweptIsPart(tolerance: real, given: seq<LwPoint>, s: Slots)
    requires Swept(tolerance, given, s, |s|)
    ensures PartOf(given, s) && PartOf(given, WithoutEmpties(s))
  {
    hide Near;
  }

  lemma SweepLeavesSorted(dim: Dim, tolerance: real, given: seq<LwPoint>, s: Slots)
    requires Sorted(dim, given) && Swept(tolerance, given, s, |s|)
    ensures var r := Left(WithoutEmpties(s)); Sorted(dim, r) && forall i :: 0 <= i < |r| ==> r[i].At?
  {
    hide Near, FarFrom, Left;
    SweptIsPart(tolerance, given, s);
    var w := WithoutEmpties(s);
    var r := Left(w);
    forall i | 0 <= i < |r|
      ensures r[i].At?
    {
      var k := PositionOf(w, i);
    }
    forall i, j | 0 <= i <= j < |r|
      ensures Before(dim, r[i], r[j])
    {
      if i < j {
        var a, b := PositionsRise(w, i, j);
        assert Before(dim, given[a], given[b]);
      } else {
        var k := PositionOf(w, i);
        assert Before(dim, given[k], given[k]);
      }
    }
  }

  lemma SweepLeavesFar(tolerance: real, given: seq<LwPoint>, s: Slots)
    requires Swept(tolerance, given, s, |s|) && tolerance >= 0.0
    ensures var r := Left(WithoutEmpties(s));
            forall i, j :: 0 <= i < j < |r| ==> !Near(tolerance * tolerance, r[i], r[j])
  {
    hide Near, Left;
    SweptIsPart(tolerance, given, s);
    var w := WithoutEmpties(s);
    var r := Left(w);
    forall i, j | 0 <= i < j < |r|
      ensures !Near(tolerance * tolerance, r[i], r[j])
    {
      var a, b := PositionsRise(w, i, j);
      assert FarFrom(tolerance * tolerance, given, s, a, b);
    }
  }

  lemma SweepKeeps(tolerance: real, given: seq<LwPoint>, s: Slots, p: LwPoint)
    requires Swept(tolerance, given, s, |s|) && p in given && p.At?
    ensures Kept(tolerance, Left(WithoutEmpties(s)), p)
  {
    hide Near, FarFrom;
    var w := WithoutEmpties(s);
    var k :| 0 <= k < |given| && given[k] == p;
    if s[k] == Some(p) {
      SlotIsLeft(w, k);
    } else {
      var a :| 0 <= a < |s| && RemovedBy(tolerance * tolerance, given, s, k, a);
      NearIsAt(tolerance * tolerance, given[a], given[k]);
      SlotIsLeft(w, a);
      assert given[a] in Left(w);
    }
  }

  lemma NearIsAt(tolsq: real, a: LwPoint, b: LwPoint)
    requires Near(tolsq, a, b)
    ensures a.At? && b.At?
  {
  }

  // ----- the second pass

  lemma {:induction false} TwoPositions(s: seq<LwPoint>, p: LwPoint) returns (i: nat, j: nat)
    requires multiset(s)[p] >= 2
    ensures i < j < |s| && s[i] == s[j] == p
  {
    var n := |s| - 1;
    assert s == s[..n] + [s[n]];
    if s[n] == p {
      assert multiset(s[..n])[p] >= 1;
      assert p in s[..n];
      i :| 0 <= i < n && s[i] == p;
      j := n;
    } else {
      i, j := TwoPositions(s[..n], p);
    }
  }

  lemma TwoCopies(s: seq<LwPoint>, i: nat, j: nat)
    requires i < j < |s| && s[i] == s[j]
    ensures multiset(s)[s[i]] >= 2
  {
    assert s == s[..j] + [s[j]] + s[j + 1..];
    assert s[i] in s[..j];
  }

  /** Distances do not depend on the order of the points. */
  lemma FarInAnyOrder(tolsq: real, s: seq<LwPoint>, r: seq<LwPoint>)
    requires tolsq >= 0.0 && PairwiseFar(tolsq, s) && multiset(r) == multiset(s)
    ensures PairwiseFar(tolsq, r)
  {
    forall i | 0 <= i < |r|
      ensures r[i].At?
    {
      MembersStay(r, s, r[i]);
    }
    forall i, j | 0 <= i < j < |r|
      ensures !Near(tolsq, r[i], r[j])
    {
      FarPair(tolsq, s, r, i, j);
    }
  }

  lemma FarPair(tolsq: real, s: seq<LwPoint>, r: seq<LwPoint>, i: nat, j: nat)
    requires tolsq >= 0.0 && PairwiseFar(tolsq, s) && multiset(r) == multiset(s) && i < j < |r|
    ensures !Near(tolsq, r[i], r[j])
  {
    hide Near;
    MembersStay(r, s, r[i]);
    MembersStay(r, s, r[j]);
    if r[i] == r[j] {
      TwoCopies(r, i, j);
      var a, b := TwoPositions(s, r[i]);
      NearItself(tolsq, s[a]);
    } else {
      var a :| 0 <= a < |s| && s[a] == r[i];
      var b :| 0 <= b < |s| && s[b] == r[j];
      NearSymmetric(tolsq, s[a], s[b]);
    }
  }

  /** A sweep over points that are far apart empties nothing. */
  lemma NothingToRemove(tolerance: real, given: seq<LwPoint>, s: Slots)
    requires Swept(tolerance, given, s, |s|) && (tolerance >= 0.0 ==> PairwiseFar(tolerance * tolerance, given))
    requires forall k :: 0 <= k < |given| ==> given[k].At?
    ensures Left(WithoutEmpties(s)) == given
  {
    hide Near, FarFrom;
    var tolsq := tolerance * tolerance;
    forall k, p | 0 <= p < k < |s|
      ensures tolerance >= 0.0 ==> !RemovedBy(tolsq, given, s, k, p)
    {
    }
    assert WithoutEmpties(s) == s;
    AllLeft(given, s);
  }

  lemma {:induction false} AllLeft(given: seq<LwPoint>, s: Slots)
    requires |s| == |given| && forall k :: 0 <= k < |s| ==> s[k] == Some(given[k])
    ensures Left(s) == given
  {
    if s != [] {
      AllLeft(given[..|s| - 1], s[..|s| - 1]);
    }
  }

  /** A slot is emptied, or nothing is missing. */
  lemma MissingMeansFewer(given: seq<LwPoint>, s: Slots)
    requires PartOf(given, s)
    ensures |Left(s)| < |given| <==> s != AllSome(given)
  {
    if |Left(s)| == |given| {
      LeftIsAll(given, s);
      forall k | 0 <= k < |s|
        ensures s[k].Some?
      {
        if s[k].None? {
          NoneIsMissing(s, k);
        }
      }
    } else if s == AllSome(given) {
      AllLeft(given, s);
    }
  }

  lemma {:induction false} NoneIsMissing(s: Slots, k: nat)
    requires k < |s| && s[k].None?
    ensures |Left(s)| < |s|
  {
    if k < |s| - 1 {
      NoneIsMissing(s[..|s| - 1], k);
    }
  }

  /** The promises of a pass hold for every order of the points it started from. */
  lemma PassedInAnyOrder(dim: Dim, tolerance: real, given: seq<LwPoint>, sorted: seq<LwPoint>, r: seq<LwPoint>)
    requires Passed(dim, tolerance, sorted, r) && multiset(sorted) == multiset(given)
    ensures Passed(dim, tolerance, given, r)
  {
    hide Kept, Sorted, PairwiseFar;
    forall p | p in given && p.At?
      ensures Kept(tolerance, r, p)
    {
      MembersStay(given, sorted, p);
    }
  }

  lemma MembersStay(a: seq<LwPoint>, b: seq<LwPoint>, p: LwPoint)
    requires multiset(a) == multiset(b) && p in a
    ensures p in b
  {
    assert p in multiset(a);
  }

  /** Two passes, the second of which only reorders. */
  lemma SecondPass(tolerance: real, given: seq<LwPoint>, first: seq<LwPoint>, second: seq<LwPoint>)
    requires Passed(ByY, tolerance, given, first) && Passed(ByX, tolerance, first, second)
    requires multiset(second) == multiset(first)
    ensures Passed(ByX, tolerance, given, second)
  {
    hide Sorted, PairwiseFar, Near;
    forall p | p in given && p.At?
      ensures Kept(tolerance, second, p)
    {
      assert Kept(tolerance, first, p);
      if p in first {
        MembersStay(first, second, p);
      } else {
        var q :| q in first && Near(tolerance * tolerance, q, p);
        MembersStay(first, second, q);
      }
    }
  }

  // ----- in place

  class MultiPoint {
    const geoms: array<Option<LwPoint>>
    var ngeoms: nat

    constructor (points: seq<LwPoint>)
      ensures Valid() && Points() == points && fresh(geoms)
    {
      var slots := AllSome(points);
      geoms := new Option<LwPoint>[|points|](i requires 0 <= i < |slots| => slots[i]);
      ngeoms := |points|;
      new;
      assert geoms[..ngeoms] == slots;
      AllLeft(points, slots);
    }

    ghost function Filled(): Slots
      requires ngeoms <= geoms.Length
      reads this, geoms
    {
      geoms[..ngeoms]
    }

    /** Every slot in use holds a point. */
    ghost predicate Valid()
      reads this, geoms
    {
      ngeoms <= geoms.Length && Filled() == AllSome(Left(Filled()))
    }

    ghost function Points(): seq<LwPoint>
      requires ngeoms <= geoms.Length
      reads this, geoms
    {
      Left(Filled())
    }

    method SortSlots(dim: Dim)
      requires Valid()
      modifies geoms
      ensures Valid() && Sorted(dim, Points()) && multiset(Points()) == multiset(old(Points()))
    {
      ghost var given := Points();
      var sorted := SortedPoints(dim);
      assert |multiset(sorted)| == |sorted| && |multiset(given)| == |given|;
      for i := 0 to ngeoms
        invariant forall k :: 0 <= k < i ==> geoms[k] == Some(sorted[k])
      {
        geoms[i] := Some(sorted[i]);
      }
      assert Filled() == AllSome(sorted);
      AllLeft(sorted, Filled());
    }

    /** The points in the order of the comparison. */
    method SortedPoints(dim: Dim) returns (sorted: seq<LwPoint>)
      requires Valid()
      ensures Sorted(dim, sorted) && multiset(sorted) == multiset(Points())
    {
      ghost var points := Points();
      var given := [];
      for i := 0 to ngeoms
        invariant given == points[..i]
      {
        assert geoms[i] == Filled()[i] == Some(points[i]);
        given := given + [geoms[i].value];
      }
      sorted := Sort((a, b) => Before(dim, a, b), given);
      assert given == points;
    }

    /** Empties every slot near an earlier point that is left. */
    method Sweep(dim: Dim, tolerance: real, ghost given: seq<LwPoint>) returns (modified: bool)
      requires ngeoms <= geoms.Length && Filled() == AllSome(given) && Sorted(dim, given)
      modifies geoms
      ensures Swept(tolerance, given, Filled(), ngeoms)
      ensures modified <==> Filled() != AllSome(given)
    {
      hide Swept, InSweep, Sorted;
      NothingSwept(tolerance, given);
      modified := false;
      for i := 0 to ngeoms
        invariant Swept(tolerance, given, Filled(), i)
        invariant modified <==> Filled() != AllSome(given)
      {
        assert geoms[i] == Filled()[i];
        if geoms[i].None? || geoms[i].value.Empty? {
          SkipPivot(tolerance, given, Filled(), i);
          continue;
        }
        StartPivot(tolerance, given, Filled(), i);
        modified := SweepPivot(dim, tolerance, i, modified, given);
        EndPivot(tolerance, given, Filled(), i);
      }
    }

    /** Compares a pivot with the slots after it, up to the end of the strip. */
    method SweepPivot(dim: Dim, tolerance: real, i: nat, before: bool, ghost given: seq<LwPoint>)
      returns (modified: bool)
      requires ngeoms <= geoms.Length && i < ngeoms && Sorted(dim, given)
      requires InSweep(tolerance, given, Filled(), i, i + 1)
      requires before <==> Filled() != AllSome(given)
      modifies geoms
      ensures InSweep(tolerance, given, Filled(), i, ngeoms)
      ensures modified <==> Filled() != AllSome(given)
    {
      hide *;
      modified := before;
      for j := i + 1 to ngeoms
        invariant InSweep(tolerance, given, Filled(), i, j)
        invariant modified <==> Filled() != AllSome(given)
      {
        var leave;
        modified, leave := CompareSlot(dim, tolerance, i, j, modified, given);
        if leave {
          return;
        }
      }
    }

    /** Compares a pivot with one slot; `leave` at the end of the strip. */
    method CompareSlot(dim: Dim, tolerance: real, i: nat, j: nat, before: bool, ghost given: seq<LwPoint>)
      returns (modified: bool, leave: bool)
      requires ngeoms <= geoms.Length && j < ngeoms && Sorted(dim, given)
      requires InSweep(tolerance, given, Filled(), i, j)
      requires before <==> Filled() != AllSome(given)
      modifies geoms
      ensures InSweep(tolerance, given, Filled(), i, if leave then ngeoms else j + 1)
      ensures modified <==> Filled() != AllSome(given)
    {
      hide InSweep, Sorted, Near, Square;
      ghost var now := Filled();
      SlotIsGiven(tolerance, given, now, i, j);
      assert geoms[i] == now[i] && geoms[j] == now[j];
      var pti := geoms[i].value;
      modified, leave := before, false;
      if geoms[j].None? {
        KeepSlot(tolerance, given, now, i, j);
        return;
      }
      var ptj := geoms[j].value;
      if ptj.Empty? {
        EmptyIsNotNear(tolerance * tolerance, pti, ptj);
        KeepSlot(tolerance, given, now, i, j);
        return;
      }
      if (if dim == ByX then ptj.x - pti.x else ptj.y - pti.y) > tolerance {
        LeaveStrip(dim, tolerance, given, now, i, j);
        leave := true;
        return;
      }
      StripHasWidth(dim, given, i, j, tolerance);
      if Near(tolerance * tolerance, pti, ptj) {
        EmptySlot(tolerance, given, now, i, j);
        geoms[j] := None;
        assert Filled() == now[j := None];
        assert Filled()[j] != AllSome(given)[j];
        modified := true;
      } else {
        KeepSlot(tolerance, given, now, i, j);
      }
    }

    /** Empties the slots of empty points. */
    method NullEmpties(before: bool) returns (modified: bool)
      requires ngeoms <= geoms.Length
      modifies geoms
      ensures Filled() == WithoutEmpties(old(Filled()))
      ensures modified <==> before || Filled() != old(Filled())
    {
      modified := before;
      ghost var given := Filled();
      for j := 0 to ngeoms
        invariant forall k :: 0 <= k < j ==> geoms[k] == WithoutEmpties(given)[k]
        invariant forall k :: j <= k < ngeoms ==> geoms[k] == given[k]
        invariant modified <==> before || Filled() != given
      {
        assert geoms[j] == given[j];
        if geoms[j].Some? && geoms[j].value.Empty? {
          geoms[j] := None;
          assert Filled()[j] != given[j];
          modified := true;
        }
      }
    }

    /** Moves what is left to the front. */
    method Compactify()
      requires ngeoms <= geoms.Length
      modifies geoms, this
      ensures Valid() && Points() == Left(old(Filled()))
    {
      hide Left, AllSome;
      var i := 0;
      ghost var given := Filled();
      NothingLeft(given);
      for j := 0 to ngeoms
        invariant ngeoms == |given| <= geoms.Length && i <= j && i == |Left(given[..j])|
        invariant geoms[..i] == AllSome(Left(given[..j])) && geoms[j..ngeoms] == given[j..]
      {
        NextLeft(given, j);
        assert geoms[j] == geoms[j..ngeoms][0] == given[j];
        assert geoms[j + 1..ngeoms] == geoms[j..ngeoms][1..] == given[j + 1..];
        if geoms[j].Some? {
          PutSlot(i, geoms[j], j + 1);
          i := i + 1;
        }
      }
      assert given[..ngeoms] == given;
      ngeoms := i;
      AllLeft(Left(given), Filled());
    }

    method PutSlot(i: nat, slot: Option<LwPoint>, next: nat)
      requires i < next <= ngeoms <= geoms.Length
      modifies geoms
      ensures geoms[..i + 1] == old(geoms[..i]) + [slot] && geoms[next..ngeoms] == old(geoms[next..ngeoms])
    {
      geoms[i] := slot;
    }

    /** Sort, sweep, drop empty points and close the gaps. */
    method Pass(dim: Dim, tolerance: real) returns (modified: bool)
      requires Valid()
      modifies geoms, this
      ensures Valid() && Passed(dim, tolerance, old(Points()), Points())
      ensures modified <==> |Points()| < |old(Points())|
      ensures (forall i :: 0 <= i < |old(Points())| ==> old(Points())[i].At?)
              && (tolerance >= 0.0 ==> PairwiseFar(tolerance * tolerance, old(Points())))
              ==> multiset(Points()) == multiset(old(Points())) && !modified
    {
      hide Swept, Passed, PairwiseFar, Sorted, Left, WithoutEmpties, AllSome;
      ghost var before := Points();
      SortSlots(dim);
      ghost var given := Points();
      SameSize(before, given);
      ValidSlots();
      modified := Sweep(dim, tolerance, given);
      ghost var swept := Filled();
      modified := NullEmpties(modified);
      ghost var w := Filled();
      Compactify();
      PassIsComplete(dim, tolerance, before, given, swept);
    }

    /** The whole operation.  What remains is part of what was given, sorted by x, without empty
        points; for a tolerance that is not negative, all remaining points are further apart
        than the tolerance, and every point taken out is within tolerance of one that remains. */
    method RemoveRepeatedPoints(tolerance: real) returns (modified: bool)
      requires Valid()
      modifies geoms, this
      ensures Valid() && Passed(ByX, tolerance, old(Points()), Points())
      ensures modified <==> |Points()| < |old(Points())|
    {
      hide PairwiseFar, Sorted, Left, Kept, AllSome;
      ghost var given := Points();
      var modified1 := Pass(ByY, tolerance);
      ghost var first := Points();
      var modified2 := Pass(ByX, tolerance);
      SameSize(first, Points());
      SecondPass(tolerance, given, first, Points());
      modified := modified1 || modified2;
    }

    lemma ValidSlots()
      requires Valid()
      ensures ngeoms <= geoms.Length && Filled() == AllSome(Points())
    {
    }
  }

  lemma NothingLeft(s: Slots)
    ensures Left(s[..0]) == [] && AllSome([]) == []
  {
  }

  lemma NextLeft(s: Slots, j: nat)
    requires j < |s|
    ensures Left(s[..j + 1]) == if s[j].None? then Left(s[..j]) else Left(s[..j]) + [s[j].value]
    ensures s[j].Some? ==> AllSome(Left(s[..j + 1])) == AllSome(Left(s[..j])) + [s[j]]
  {
    assert s[..j + 1][..j] == s[..j];
    if s[j].Some? {
      assert Left(s[..j + 1])[..|Left(s[..j])|] == Left(s[..j]);
    }
  }

  lemma SameSize(a: seq<LwPoint>, b: seq<LwPoint>)
    requires multiset(a) == multiset(b)
    ensures |a| == |b|
  {
    assert |multiset(a)| == |a| && |multiset(b)| == |b|;
  }

  lemma SlotIsGiven(tolerance: real, given: seq<LwPoint>, s: Slots, i: nat, j: nat)
    requires InSweep(tolerance, given, s, i, j) && j < |s|
    ensures i < j && |given| == |s| && s[i] == Some(given[i]) && given[i].At? && (s[j].None? || s[j] == Some(given[j]))
  {
  }

  lemma EmptyIsNotNear(tolsq: real, a: LwPoint, b: LwPoint)
    requires b.Empty?
    ensures !Near(tolsq, a, b)
  {
  }

  /** What a pass comes to. */
  lemma PassIsComplete(dim: Dim, tolerance: real, before: seq<LwPoint>, given: seq<LwPoint>, s: Slots)
    requires multiset(before) == multiset(given) && |before| == |given|
    requires Sorted(dim, given) && Swept(tolerance, given, s, |s|)
    ensures var r := Left(WithoutEmpties(s));
      && Passed(dim, tolerance, before, r)
      && (|r| < |before| <==> s != AllSome(given) || WithoutEmpties(s) != s)
      && ((forall i :: 0 <= i < |before| ==> before[i].At?)
          && (tolerance >= 0.0 ==> PairwiseFar(tolerance * tolerance, before))
          ==> r == given && s == AllSome(given) && WithoutEmpties(s) == s)
  {
    hide *;
    SweepPasses(dim, tolerance, given, s);
    var w := WithoutEmpties(s);
    PassedInAnyOrder(dim, tolerance, before, given, Left(w));
    SweepShrinks(tolerance, given, s);
    if (forall i :: 0 <= i < |before| ==> before[i].At?)
       && (tolerance >= 0.0 ==> PairwiseFar(tolerance * tolerance, before))
    {
      StaysFar(tolerance, before, given);
      NothingToRemove(tolerance, given, s);
    }
  }

  /** The number of points drops exactly when a slot was emptied. */
  lemma SweepShrinks(tolerance: real, given: seq<LwPoint>, s: Slots)
    requires Swept(tolerance, given, s, |s|)
    ensures |Left(WithoutEmpties(s))| < |given| <==> s != AllSome(given) || WithoutEmpties(s) != s
    ensures Left(WithoutEmpties(s)) == given ==> s == AllSome(given) && WithoutEmpties(s) == s
  {
    SweptIsPart(tolerance, given, s);
    MissingMeansFewer(given, WithoutEmpties(s));
    MissingMeansFewer(given, s);
    hide Left, Swept, PartOf;
    EmptiesAreMissing(given, s);
  }

  /** Dropping empty points undoes no sweep. */
  lemma EmptiesAreMissing(given: seq<LwPoint>, s: Slots)
    ensures WithoutEmpties(s) == AllSome(given) ==> s == AllSome(given)
  {
    if WithoutEmpties(s) == AllSome(given) {
      forall k | 0 <= k < |s|
        ensures s[k] == AllSome(given)[k]
      {
        assert WithoutEmpties(s)[k] == Some(given[k]);
      }
    }
  }

  lemma StaysFar(tolerance: real, before: seq<LwPoint>, given: seq<LwPoint>)
    requires multiset(before) == multiset(given)
    requires forall i :: 0 <= i < |before| ==> before[i].At?
    requires tolerance >= 0.0 ==> PairwiseFar(tolerance * tolerance, before)
    ensures forall i :: 0 <= i < |given| ==> given[i].At?
    ensures tolerance >= 0.0 ==> PairwiseFar(tolerance * tolerance, given)
  {
    forall i | 0 <= i < |given|
      ensures given[i].At?
    {
      MembersStay(given, before, given[i]);
    }
    if tolerance >= 0.0 {
      NonNegativeSquare(tolerance);
      FarInAnyOrder(tolerance * tolerance, before, given);
    }
  }
}
