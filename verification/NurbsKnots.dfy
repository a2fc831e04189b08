/** What the test of NURBS knots accepts. */
module NurbsKnots {
  import opened Common
  import opened Gserialized2
  import opened Gserialized2Laws

  predicate AllFinite(b: seq<byte>, n: nat)
    requires 8 * n <= |b|
  {
    forall i :: 0 <= i < n ==> IsFinite(b, i)
  }

  predicate NeverFalls(b: seq<byte>, n: nat)
    requires 8 * n <= |b|
  {
    forall i, j :: 0 <= i < j < n ==> DoubleKey(b, i) <= DoubleKey(b, j)
  }

  /** Knots accepted after a finite one are finite and never fall. */
  lemma {:induction false} RisingFromFinite(b: seq<byte>, n: nat)
    requires n > 0 && 8 * n <= |b| && RisingKnots(b, n) && IsFinite(b, 0)
    ensures AllFinite(b, n) && NeverFalls(b, n)
  {
    hide DoubleKey;
    if n > 1 {
      RisingFromFinite(b, n - 1);
      assert IsFinite(b, n - 2) && KnotRises(b, n - 1);
      assert DoubleKey(b, n - 2) <= DoubleKey(b, n - 1);
      forall i, j | 0 <= i < j < n
        ensures DoubleKey(b, i) <= DoubleKey(b, j)
      {
        assert i < n - 2 ==> DoubleKey(b, i) <= DoubleKey(b, n - 2);
      }
    }
  }

  /** The first knot is never tested, so that a non-empty knot vector that is accepted is
      finite and never falls exactly when its first knot is finite. */
  lemma AcceptedKnots(b: seq<byte>, n: nat)
    requires n > 0 && 8 * n <= |b|
    ensures RisingKnots(b, n) && IsFinite(b, 0) <==> AllFinite(b, n) && NeverFalls(b, n)
  {
    hide DoubleKey;
    if RisingKnots(b, n) && IsFinite(b, 0) {
      RisingFromFinite(b, n);
    }
    if AllFinite(b, n) && NeverFalls(b, n) {
      forall i | 0 < i < n
        ensures KnotRises(b, i)
      {
        assert IsFinite(b, i - 1) && IsFinite(b, i) && DoubleKey(b, i - 1) <= DoubleKey(b, i);
      }
    }
  }

  /** The double `0x7FF8_0000_0000_0000`, which is not a number. */
  const NAN: seq<byte> := [0, 0, 0, 0, 0, 0, 0xF8, 0x7F]

  /** A line of degree one whose knots are not a number, 0, 0 and 0. */
  function NanKnots(): Geom {
    Nurbs(1, Block(0, []), Block(4, NAN + seq(24, _ => 0 as byte)), Block(2, seq(32, _ => 0 as byte)))
  }

  lemma ZeroDouble(b: seq<byte>, i: nat)
    requires 8 * i + 8 <= |b| && forall k :: 8 * i <= k < 8 * i + 8 ==> b[k] == 0
    ensures DoubleKey(b, i) == 0
  {
  }

  lemma NanDouble(b: seq<byte>)
    requires 8 <= |b| && b[..8] == NAN
    ensures IsNan(b, 0)
  {
    assert forall k :: 0 <= k < 8 ==> b[k] == b[..8][k];
  }

  /** A first knot that is not a number is accepted, written, validated and read back. */
  lemma NanKnotIsAccepted()
    ensures WellFormed(NanKnots(), 2) && IsNan(NanKnots().knots.bytes, 0)
    ensures Check(Encode(NanKnots(), 2), 2) == Some(Size(NanKnots(), 2))
  {
    hide DoubleKey, Encode, Check;
    var knots := NanKnots().knots.bytes;
    NanDouble(knots);
    ZeroDouble(knots, 1);
    ZeroDouble(knots, 2);
    ZeroDouble(knots, 3);
    assert KnotRises(knots, 1) && KnotRises(knots, 2) && KnotRises(knots, 3);
    WrittenIsChecked(NanKnots(), [], 2);
    assert Encode(NanKnots(), 2) + [] == Encode(NanKnots(), 2);
  }
}
