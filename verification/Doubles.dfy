/** Doubles by their IEEE-754 fields, and what the comparisons of their bytes mean. */
module Doubles {
  import opened Common
  import opened Gserialized2

  const FRACTIONS: nat := 0x10_0000_0000_0000

  function Negative(b: seq<byte>, i: nat): bool
    requires 8 * i + 8 <= |b|
  {
    b[8 * i + 7] >= 0x80
  }

  /** Eleven bits of exponent. */
  function Exponent(b: seq<byte>, i: nat): (e: nat)
    requires 8 * i + 8 <= |b|
    ensures e < 0x800
  {
    Val(b[8 * i + 7]) % 0x80 * 0x10 + Val(b[8 * i + 6]) / 0x10
  }

  /** Fifty-two bits of fraction. */
  function Fraction(b: seq<byte>, i: nat): (f: nat)
    requires 8 * i + 8 <= |b|
    ensures f < FRACTIONS
  {
    var at := 8 * i;
    Val(b[at]) + 0x100 * (Val(b[at + 1]) + 0x100 * (Val(b[at + 2]) + 0x100 * (Val(b[at + 3]) +
    0x100 * (Val(b[at + 4]) + 0x100 * (Val(b[at + 5]) + 0x100 * (Val(b[at + 6]) % 0x10))))))
  }

  function Pow2(n: nat): (p: nat)
    ensures p > 0
  {
    if n == 0 then 1 else 2 * Pow2(n - 1)
  }

  /** The value of exponent and fraction, in units of the smallest positive double. */
  function Scaled(e: nat, f: nat): nat {
    if e == 0 then f else (FRACTIONS + f) * Pow2(e - 1)
  }

  function Value(b: seq<byte>, i: nat): int
    requires 8 * i + 8 <= |b|
  {
    var v: int := Scaled(Exponent(b, i), Fraction(b, i));
    if Negative(b, i) then -v else v
  }

  /** The magnitude compared is the exponent followed by the fraction. */
  lemma KeyIsFields(b: seq<byte>, i: nat)
    requires 8 * i + 8 <= |b|
    ensures var k: int := FRACTIONS * Exponent(b, i) + Fraction(b, i);
      DoubleKey(b, i) == if Negative(b, i) then -k else k
  {
    var b6 := Val(b[8 * i + 6]);
    assert b6 == b6 / 0x10 * 0x10 + b6 % 0x10;
  }

  /** A double is infinite or not a number exactly with the highest exponent, and the former
      without a fraction. */
  lemma SpecialDoubles(b: seq<byte>, i: nat)
    requires 8 * i + 8 <= |b|
    ensures IsFinite(b, i) <==> Exponent(b, i) < 0x7FF
    ensures IsNan(b, i) <==> Exponent(b, i) == 0x7FF && Fraction(b, i) > 0
  {
    KeyIsFields(b, i);
    hide DoubleKey, Exponent, Fraction;
  }

  lemma NextExponent(e: nat, f: nat, f': nat)
    requires f < FRACTIONS
    ensures Scaled(e, f) < Scaled(e + 1, f')
  {
    if e > 0 {
      var q := Pow2(e - 1);
      Larger(2 * FRACTIONS + 2 * f', FRACTIONS + f, q);
      assert (FRACTIONS + f') * (2 * q) == (2 * FRACTIONS + 2 * f') * q;
    }
  }

  lemma {:induction false} LargerExponent(e: nat, f: nat, e': nat, f': nat)
    requires f < FRACTIONS && e < e'
    ensures Scaled(e, f) < Scaled(e', f')
    decreases e'
  {
    hide Scaled;
    if e + 1 < e' {
      LargerExponent(e, f, e' - 1, 0);
      NextExponent(e' - 1, 0, f');
    } else {
      NextExponent(e, f, f');
    }
  }

  lemma Larger(a: nat, c: nat, q: nat)
    requires c < a && q > 0
    ensures c * q < a * q
  {
    assert (a - c) * q > 0;
  }

  lemma LargerFraction(e: nat, f: nat, f': nat)
    requires f < f'
    ensures Scaled(e, f) < Scaled(e, f')
  {
    if e > 0 {
      Larger(FRACTIONS + f', FRACTIONS + f, Pow2(e - 1));
    }
  }

  /** Exponent and fraction together grow with the value. */
  lemma ScaledGrows(e: nat, f: nat, e': nat, f': nat)
    requires f < FRACTIONS && f' < FRACTIONS
    ensures Scaled(e, f) < Scaled(e', f') <==> FRACTIONS * e + f < FRACTIONS * e' + f'
    ensures Scaled(e, f) == Scaled(e', f') <==> e == e' && f == f'
  {
    hide Scaled;
    if e < e' {
      LargerExponent(e, f, e', f');
    } else if e' < e {
      LargerExponent(e', f', e, f);
    } else if f < f' {
      LargerFraction(e, f, f');
    } else if f' < f {
      LargerFraction(e, f', f);
    }
  }

  /** Doubles are compared by their values; the two zeros are equal. */
  lemma KeysOrderValues(b: seq<byte>, i: nat, j: nat)
    requires 8 * i + 8 <= |b| && 8 * j + 8 <= |b|
    ensures DoubleKey(b, i) < DoubleKey(b, j) <==> Value(b, i) < Value(b, j)
    ensures DoubleKey(b, i) > 0 <==> Value(b, i) > 0
  {
    KeyIsFields(b, i);
    KeyIsFields(b, j);
    hide DoubleKey, Exponent, Fraction, Negative, Scaled;
    var (e, f, e', f') := (Exponent(b, i), Fraction(b, i), Exponent(b, j), Fraction(b, j));
    ScaledGrows(e, f, e', f');
    ScaledGrows(e', f', e, f);
    ScaledGrows(0, 0, e, f);
    ScaledGrows(0, 0, e', f');
    ZeroIsZero();
    Signed(Negative(b, i), FRACTIONS * e + f, Scaled(e, f), Negative(b, j), FRACTIONS * e' + f', Scaled(e', f'));
  }

  lemma ZeroIsZero()
    ensures Scaled(0, 0) == 0
  {
  }

  /** What holds of magnitudes holds with signs. */
  lemma Signed(neg: bool, k: int, v: int, neg': bool, k': int, v': int)
    requires k >= 0 && v >= 0 && k' >= 0 && v' >= 0
    requires (k < k' <==> v < v') && (k' < k <==> v' < v) && (0 < k <==> 0 < v) && (0 < k' <==> 0 < v')
    ensures (if neg then -k else k) < (if neg' then -k' else k') <==>
            (if neg then -v else v) < (if neg' then -v' else v')
    ensures (if neg then -k else k) > 0 <==> (if neg then -v else v) > 0
  {
  }

  /** Finite, and not below the double before it if that is a number. */
  predicate Rises(b: seq<byte>, i: nat)
    requires 0 < i && 8 * i + 8 <= |b|
  {
    && Exponent(b, i) < 0x7FF
    && ((Exponent(b, i - 1) == 0x7FF && Fraction(b, i - 1) > 0) || Value(b, i - 1) <= Value(b, i))
  }

  /** The tests of weights and knots, in terms of values. */
  lemma TestsOnValues(b: seq<byte>, n: nat)
    requires 8 * n <= |b|
    ensures PositiveWeights(b, n) <==> forall i :: 0 <= i < n ==> Exponent(b, i) < 0x7FF && Value(b, i) > 0
    ensures RisingKnots(b, n) <==> forall i :: 0 < i < n ==> Rises(b, i)
  {
    hide DoubleKey, Exponent, Fraction, Value, IsFinite, Rises, KnotRises;
    forall i | 0 <= i < n
      ensures IsFinite(b, i) && DoubleKey(b, i) > 0 <==> Exponent(b, i) < 0x7FF && Value(b, i) > 0
    {
      SpecialDoubles(b, i);
      KeysOrderValues(b, i, i);
    }
    forall i | 0 < i < n
      ensures KnotRises(b, i) <==> Rises(b, i)
    {
      RiseOnValues(b, i);
    }
  }

  lemma RiseOnValues(b: seq<byte>, i: nat)
    requires 0 < i && 8 * i + 8 <= |b|
    ensures KnotRises(b, i) <==> Rises(b, i)
  {
    hide DoubleKey, Exponent, Fraction, Value, IsFinite, IsNan;
    SpecialDoubles(b, i);
    SpecialDoubles(b, i - 1);
    KeysOrderValues(b, i, i - 1);
  }

  /** One, as it is stored, is two to the power 1074 smallest doubles. */
  lemma One()
    ensures Value([0, 0, 0, 0, 0, 0, 0xF0, 0x3F], 0) == Pow2(1074)
  {
    var b: seq<byte> := [0, 0, 0, 0, 0, 0, 0xF0, 0x3F];
    assert Exponent(b, 0) == 1023 && Fraction(b, 0) == 0 && !Negative(b, 0);
    PowersAdd(52, 1022);
    FractionBits();
    hide Pow2, Fraction, Exponent, Negative;
  }

  lemma FractionBits()
    ensures Pow2(52) == FRACTIONS
  {
    assert Pow2(4) == 0x10 && Pow2(8) == 0x100;
    hide Pow2;
    PowersAdd(8, 8);
    PowersAdd(16, 16);
    PowersAdd(32, 16);
    PowersAdd(48, 4);
  }

  lemma {:induction false} PowersAdd(m: nat, n: nat)
    ensures Pow2(m + n) == Pow2(m) * Pow2(n)
  {
    if m > 0 {
      PowersAdd(m - 1, n);
    }
  }
}
