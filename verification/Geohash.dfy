/** Geohash: interleaved bisection of longitude and latitude. */
module Geohash {
  import opened Common

  const BASE32: string := "0123456789bcdefghjkmnpqrstuvwxyz"
  const GEOHASH_MAX_DOUBLE_PRECISION_CHARS: nat := 20

  // ----- cells

  datatype Cell = Cell(lon0: real, lon1: real, lat0: real, lat1: real)

  const WORLD := Cell(-180.0, 180.0, -90.0, 90.0)

  function Middle(a: real, b: real): real {
    (a + b) / 2.0
  }

  /** The half of a cell that a bit chooses: the upper half for a one. */
  function Half(c: Cell, isEven: bool, bit: bool): Cell {
    if isEven then
      if bit then c.(lon0 := Middle(c.lon0, c.lon1)) else c.(lon1 := Middle(c.lon0, c.lon1))
    else
      if bit then c.(lat0 := Middle(c.lat0, c.lat1)) else c.(lat1 := Middle(c.lat0, c.lat1))
  }

  /** Bits alternate between longitude, first, and latitude. */
  function CellOf(bits: seq<bool>): Cell {
    if bits == [] then WORLD
    else Half(CellOf(bits[..|bits| - 1]), |bits| % 2 == 1, bits[|bits| - 1])
  }

  predicate UpperHalf(c: Cell, isEven: bool, lon: real, lat: real) {
    if isEven then lon >= Middle(c.lon0, c.lon1) else lat >= Middle(c.lat0, c.lat1)
  }

  /** The first `n` bits of a point. */
  function BitsOfPoint(lon: real, lat: real, n: nat): (bits: seq<bool>)
    ensures |bits| == n
  {
    if n == 0 then []
    else
      var before := BitsOfPoint(lon, lat, n - 1);
      before + [UpperHalf(CellOf(before), n % 2 == 1, lon, lat)]
  }

  /** The closed cell holds the point. */
  predicate InCell(c: Cell, lon: real, lat: real) {
    c.lon0 <= lon <= c.lon1 && c.lat0 <= lat <= c.lat1
  }

  /** The points that belong to a cell: the lower edges do, the upper ones do not, except that
      edges of the world extend outwards. */
  predicate Owns(c: Cell, lon: real, lat: real) {
    && (c.lon0 == -180.0 || c.lon0 <= lon) && (c.lon1 == 180.0 || lon < c.lon1)
    && (c.lat0 == -90.0 || c.lat0 <= lat) && (c.lat1 == 90.0 || lat < c.lat1)
  }

  predicate Within(inner: Cell, outer: Cell) {
    && outer.lon0 <= inner.lon0 <= inner.lon1 <= outer.lon1
    && outer.lat0 <= inner.lat0 <= inner.lat1 <= outer.lat1
  }

  lemma {:induction false} CellHasArea(bits: seq<bool>)
    ensures var c := CellOf(bits); -180.0 <= c.lon0 < c.lon1 <= 180.0 && -90.0 <= c.lat0 < c.lat1 <= 90.0
  {
    if bits != [] {
      CellHasArea(bits[..|bits| - 1]);
    }
  }

  /** More bits, smaller cells. */
  lemma {:induction false} CellsNest(bits: seq<bool>, n: nat)
    requires n <= |bits|
    ensures Within(CellOf(bits), CellOf(bits[..n]))
  {
    CellHasArea(bits);
    if n == |bits| {
      assert bits[..n] == bits;
    } else {
      var init := bits[..|bits| - 1];
      CellsNest(init, n);
      CellHasArea(init);
      assert init[..n] == bits[..n];
    }
  }

  /** A point has exactly the bits of the cell that owns it. */
  lemma {:induction false} OwnerIsUnique(bits: seq<bool>, lon: real, lat: real)
    ensures BitsOfPoint(lon, lat, |bits|) == bits <==> Owns(CellOf(bits), lon, lat)
  {
    var n := |bits|;
    if n > 0 {
      var init, own := bits[..n - 1], BitsOfPoint(lon, lat, n);
      hide Owns, Half, UpperHalf, CellOf;
      OwnerIsUnique(init, lon, lat);
      CellHasArea(init);
      HalfOwns(CellOf(init), n % 2 == 1, bits[n - 1], lon, lat);
      LastHalf(bits);
      assert own[..n - 1] == BitsOfPoint(lon, lat, n - 1);
      assert bits == init + [bits[n - 1]];
      if own == bits {
        assert own[..n - 1] == init;
      }
    } else {
      WorldOwnsAll(lon, lat);
    }
  }

  lemma LastHalf(bits: seq<bool>)
    requires bits != []
    ensures CellOf(bits) == Half(CellOf(bits[..|bits| - 1]), |bits| % 2 == 1, bits[|bits| - 1])
  {
  }

  lemma WorldOwnsAll(lon: real, lat: real)
    ensures Owns(CellOf([]), lon, lat)
  {
  }

  lemma HalfOwns(c: Cell, isEven: bool, bit: bool, lon: real, lat: real)
    requires -180.0 <= c.lon0 < c.lon1 <= 180.0 && -90.0 <= c.lat0 < c.lat1 <= 90.0
    ensures Owns(Half(c, isEven, bit), lon, lat) <==> Owns(c, lon, lat) && UpperHalf(c, isEven, lon, lat) == bit
  {
  }

  /** A point of the world lies in the closed cell of its bits. */
  lemma PointInItsCell(lon: real, lat: real, n: nat)
    requires InCell(WORLD, lon, lat)
    ensures InCell(CellOf(BitsOfPoint(lon, lat, n)), lon, lat)
  {
    OwnerIsUnique(BitsOfPoint(lon, lat, n), lon, lat);
  }

  /** Fewer bits are a prefix of more bits. */
  lemma {:induction false} BitsPrefix(lon: real, lat: real, n: nat, m: nat)
    requires n <= m
    ensures BitsOfPoint(lon, lat, m)[..n] == BitsOfPoint(lon, lat, n)
  {
    hide CellOf, UpperHalf;
    if n < m {
      BitsPrefix(lon, lat, n, m - 1);
      assert BitsOfPoint(lon, lat, m)[..m - 1] == BitsOfPoint(lon, lat, m - 1);
    }
  }

  // ----- characters

  const BITS: seq<nat> := [16, 8, 4, 2, 1]

  /** What bit `i` adds to a digit. */
  function BitValue(five: seq<bool>, i: nat): nat
    requires i < 5
  {
    if i < |five| && five[i] then BITS[i] else 0
  }

  /** The digit that up to five bits spell, missing ones counting as zero. */
  function DigitOf(five: seq<bool>): (d: nat)
    ensures d < 32
  {
    BitValue(five, 0) + BitValue(five, 1) + BitValue(five, 2) + BitValue(five, 3) + BitValue(five, 4)
  }

  function FiveBits(d: nat): (five: seq<bool>)
    ensures |five| == 5
  {
    [d / 16 % 2 == 1, d / 8 % 2 == 1, d / 4 % 2 == 1, d / 2 % 2 == 1, d % 2 == 1]
  }

  lemma DigitRoundTrip(five: seq<bool>)
    requires |five| == 5
    ensures FiveBits(DigitOf(five)) == five
  {
  }

  lemma BitsRoundTrip(d: nat)
    requires d < 32
    ensures DigitOf(FiveBits(d)) == d
  {
  }

  function ToLower(c: char): char {
    if 'A' <= c <= 'Z' then c + 32 as char else c
  }

  /** The first position of a character from `i` on. */
  function Find(s: string, c: char, i: nat): (r: Option<nat>)
    requires i <= |s|
    ensures r.Some? ==> i <= r.value < |s| && s[r.value] == c
    ensures r.None? ==> c !in s[i..]
    decreases |s| - i
  {
    if i == |s| then None else if s[i] == c then Some(i) else Find(s, c, i + 1)
  }

  function Digit(c: char): (r: Option<nat>)
    ensures r.Some? ==> r.value < 32
  {
    Find(BASE32, ToLower(c), 0)
  }

  lemma DigitsAreDistinct()
    ensures forall i, j :: 0 <= i < j < 32 ==> BASE32[i] != BASE32[j]
  {
  }

  /** The `n` characters of `s` at `at` are consecutive, from `first` on. */
  predicate RunAt(s: string, at: nat, n: nat, first: char) {
    at + n <= |s| && forall k :: at <= k < at + n ==> s[k] as int == first as int + (k - at)
  }

  /** The digits and the lower-case letters without a, i, l and o, in ascending order. */
  lemma Alphabet()
    ensures |BASE32| == 32 && RunAt(BASE32, 0, 10, '0') && RunAt(BASE32, 10, 7, 'b') && RunAt(BASE32, 17, 2, 'j')
    ensures RunAt(BASE32, 19, 2, 'm') && RunAt(BASE32, 21, 11, 'p')
  {
  }

  lemma DigitsAreLower(d: nat)
    requires d < 32
    ensures ToLower(BASE32[d]) == BASE32[d]
  {
  }

  /** Every digit is found again, and so is its capital. */
  lemma DigitFound(d: nat)
    requires d < 32
    ensures Digit(BASE32[d]) == Some(d)
  {
    DigitsAreDistinct();
    DigitsAreLower(d);
    assert BASE32[0..][d] == BASE32[d];
  }

  /** Capitals stand for the same digits. */
  lemma CapitalsAreRead(c: char)
    requires 'A' <= c <= 'Z'
    ensures Digit(c) == Digit((c as int + 32) as char)
  {
  }

  predicate IsHash(s: string) {
    forall i :: 0 <= i < |s| ==> Digit(s[i]).Some?
  }

  function BitsOfHash(s: string): (bits: seq<bool>)
    requires IsHash(s)
    ensures |bits| == 5 * |s|
  {
    if s == [] then [] else BitsOfHash(s[..|s| - 1]) + FiveBits(Digit(s[|s| - 1]).value)
  }

  /** The hash of a point, `n` characters long. */
  function Hash(lon: real, lat: real, n: nat): (s: string)
    ensures |s| == n
  {
    if n == 0 then []
    else Hash(lon, lat, n - 1) + [BASE32[DigitOf(BitsOfPoint(lon, lat, 5 * n)[5 * n - 5..])]]
  }

  function Lowered(s: string): (r: string)
    ensures |r| == |s| && forall i :: 0 <= i < |s| ==> r[i] == ToLower(s[i])
  {
    if s == [] then [] else Lowered(s[..|s| - 1]) + [ToLower(s[|s| - 1])]
  }

  // ----- round trips

  /** A hash spells the bits of its point. */
  lemma {:induction false} HashSpellsBits(lon: real, lat: real, n: nat)
    ensures IsHash(Hash(lon, lat, n)) && BitsOfHash(Hash(lon, lat, n)) == BitsOfPoint(lon, lat, 5 * n)
  {
    hide Digit, BitsOfPoint, DigitOf, FiveBits;
    if n == 0 {
      assert BitsOfPoint(lon, lat, 0) == [];
    } else {
      HashSpellsBits(lon, lat, n - 1);
      var bits, s := BitsOfPoint(lon, lat, 5 * n), Hash(lon, lat, n);
      var last := bits[5 * n - 5..];
      DigitFound(DigitOf(last));
      DigitRoundTrip(last);
      BitsPrefix(lon, lat, 5 * n - 5, 5 * n);
      assert s[..n - 1] == Hash(lon, lat, n - 1);
      assert bits == bits[..5 * n - 5] + last;
    }
  }

  /** A point of the world lies in the cell that its hash decodes to. */
  lemma PointInDecodedCell(lon: real, lat: real, n: nat)
    requires InCell(WORLD, lon, lat)
    ensures IsHash(Hash(lon, lat, n)) && InCell(CellOf(BitsOfHash(Hash(lon, lat, n))), lon, lat)
  {
    HashSpellsBits(lon, lat, n);
    PointInItsCell(lon, lat, 5 * n);
  }

  /** A shorter hash of a point is a prefix of a longer one. */
  lemma {:induction false} HashPrefix(lon: real, lat: real, n: nat, m: nat)
    requires n <= m
    ensures Hash(lon, lat, m)[..n] == Hash(lon, lat, n)
  {
    if n < m {
      HashPrefix(lon, lat, n, m - 1);
    }
  }

  /** The points that encode to a hash are exactly those its decoded cell owns. */
  lemma OwnedPointsReencode(s: string, lon: real, lat: real)
    requires IsHash(s)
    ensures Hash(lon, lat, |s|) == Lowered(s) <==> Owns(CellOf(BitsOfHash(s)), lon, lat)
  {
    OwnerIsUnique(BitsOfHash(s), lon, lat);
    SameBitsSameHash(s, lon, lat);
  }

  lemma {:induction false} SameBitsSameHash(s: string, lon: real, lat: real)
    requires IsHash(s)
    ensures Hash(lon, lat, |s|) == Lowered(s) <==> BitsOfPoint(lon, lat, 5 * |s|) == BitsOfHash(s)
  {
    hide Digit, BitsOfPoint, DigitOf, FiveBits, ToLower;
    var n := |s|;
    if n == 0 {
      assert BitsOfPoint(lon, lat, 0) == [];
    } else {
      var init := s[..n - 1];
      SameBitsSameHash(init, lon, lat);
      var bits, d := BitsOfPoint(lon, lat, 5 * n), Digit(s[n - 1]).value;
      BitsPrefix(lon, lat, 5 * n - 5, 5 * n);
      var last := bits[5 * n - 5..];
      assert bits == bits[..5 * n - 5] + last;
      LastCharacter(last, s[n - 1]);
      ListsSplit(bits[..5 * n - 5], last, BitsOfHash(init), FiveBits(d));
      ListsSplit(Hash(lon, lat, n - 1), [BASE32[DigitOf(last)]], Lowered(init), [ToLower(s[n - 1])]);
    }
  }

  lemma LastCharacter(last: seq<bool>, c: char)
    requires |last| == 5 && Digit(c).Some?
    ensures [BASE32[DigitOf(last)]] == [ToLower(c)] <==> last == FiveBits(Digit(c).value)
  {
    var d := Digit(c).value;
    assert BASE32[d] == ToLower(c);
    DigitsAreDistinct();
    DigitRoundTrip(last);
    BitsRoundTrip(d);
  }

  lemma ListsSplit<T>(a: seq<T>, b: seq<T>, c: seq<T>, d: seq<T>)
    requires |a| == |c|
    ensures a + b == c + d <==> a == c && b == d
  {
    if a + b == c + d {
      assert a == (a + b)[..|a|] && c == (c + d)[..|a|];
      assert b == (a + b)[|a|..] && d == (c + d)[|a|..];
    }
  }

  /** The cell of "ez" and a point in it. */
  lemma KnownHash()
    ensures IsHash("ez") && CellOf(BitsOfHash("ez")) == Cell(-11.25, 0.0, 39.375, 45.0)
    ensures Hash(-5.6, 42.6, 2) == Lowered("ez")
  {
    KnownDigits();
    hide Digit, FiveBits, CellOf, Hash, Lowered;
    var bits := [false, true, true, false, true, true, true, true, true, true];
    assert "ez"[..1] == "e" && "e"[..0] == "";
    assert BitsOfHash("e") == [] + FiveBits(13);
    assert BitsOfHash("ez") == BitsOfHash("e") + FiveBits(31) == bits;
    KnownCell(bits);
    OwnedPointsReencode("ez", -5.6, 42.6);
  }

  lemma KnownDigits()
    ensures Digit('e') == Some(13) && FiveBits(13) == [false, true, true, false, true]
    ensures Digit('z') == Some(31) && FiveBits(31) == [true, true, true, true, true]
  {
    assert BASE32[13] == 'e' && BASE32[31] == 'z';
    DigitFound(13);
    DigitFound(31);
  }

  lemma KnownCell(bits: seq<bool>)
    requires bits == [false, true, true, false, true, true, true, true, true, true]
    ensures CellOf(bits) == Cell(-11.25, 0.0, 39.375, 45.0)
  {
    assert CellOf(bits[..0]) == WORLD;
    hide CellOf;
    CellStep(bits, 1);
    assert CellOf(bits[..1]) == Cell(-180.0, 0.0, -90.0, 90.0);
    CellStep(bits, 2);
    assert CellOf(bits[..2]) == Cell(-180.0, 0.0, 0.0, 90.0);
    CellStep(bits, 3);
    assert CellOf(bits[..3]) == Cell(-90.0, 0.0, 0.0, 90.0);
    CellStep(bits, 4);
    assert CellOf(bits[..4]) == Cell(-90.0, 0.0, 0.0, 45.0);
    CellStep(bits, 5);
    assert CellOf(bits[..5]) == Cell(-45.0, 0.0, 0.0, 45.0);
    KnownHalf(bits);
    assert bits[..10] == bits;
  }

  lemma KnownHalf(bits: seq<bool>)
    requires bits == [false, true, true, false, true, true, true, true, true, true]
    requires CellOf(bits[..5]) == Cell(-45.0, 0.0, 0.0, 45.0)
    ensures CellOf(bits[..10]) == Cell(-11.25, 0.0, 39.375, 45.0)
  {
    hide CellOf;
    CellStep(bits, 6);
    assert CellOf(bits[..6]) == Cell(-45.0, 0.0, 22.5, 45.0);
    CellStep(bits, 7);
    assert CellOf(bits[..7]) == Cell(-22.5, 0.0, 22.5, 45.0);
    CellStep(bits, 8);
    assert CellOf(bits[..8]) == Cell(-22.5, 0.0, 33.75, 45.0);
    CellStep(bits, 9);
    assert CellOf(bits[..9]) == Cell(-11.25, 0.0, 33.75, 45.0);
    CellStep(bits, 10);
    assert CellOf(bits[..10]) == Cell(-11.25, 0.0, 39.375, 45.0);
  }

  lemma CellStep(bits: seq<bool>, n: nat)
    requires 0 < n <= |bits|
    ensures CellOf(bits[..n]) == Half(CellOf(bits[..n - 1]), n % 2 == 1, bits[n - 1])
  {
    assert bits[..n][..n - 1] == bits[..n - 1];
  }

  // ----- encoding

  lemma NextBit(lon: real, lat: real, n: nat, k: nat)
    requires k <= n
    ensures var before, c := BitsOfPoint(lon, lat, n), CellOf(BitsOfPoint(lon, lat, n));
            var bit := UpperHalf(c, n % 2 == 0, lon, lat);
            && BitsOfPoint(lon, lat, n + 1)[k..] == before[k..] + [bit]
            && CellOf(BitsOfPoint(lon, lat, n + 1)) == Half(c, n % 2 == 0, bit)
  {
    hide UpperHalf, Half;
    OddAfterEven(n);
    var after := BitsOfPoint(lon, lat, n + 1);
    assert after[..n] == BitsOfPoint(lon, lat, n);
  }

  lemma NextCharacter(lon: real, lat: real, i: nat, five: seq<bool>)
    requires five == BitsOfPoint(lon, lat, 5 * i + 5)[5 * i..]
    ensures Hash(lon, lat, i + 1) == Hash(lon, lat, i) + [BASE32[DigitOf(five)]]
  {
    hide BitsOfPoint, DigitOf;
  }

  /** The encoder has written `i` characters and has the bits `five` of the next one. */
  ghost predicate Encoding(lon: real, lat: real, i: nat, five: seq<bool>, c: Cell, isEven: bool, hash: string) {
    var n := 5 * i + |five|;
    && |five| < 5 && c == CellOf(BitsOfPoint(lon, lat, n)) && five == BitsOfPoint(lon, lat, n)[5 * i..]
    && (isEven <==> n % 2 == 0) && hash == Hash(lon, lat, i)
  }

  lemma EncodeStep(lon: real, lat: real, i: nat, five: seq<bool>, c: Cell, isEven: bool, hash: string)
    requires Encoding(lon, lat, i, five, c, isEven, hash)
    ensures var one := UpperHalf(c, isEven, lon, lat);
            var next, more := Half(c, isEven, one), five + [one];
            && (|five| < 4 ==> Encoding(lon, lat, i, more, next, !isEven, hash))
            && (|five| == 4 ==> Encoding(lon, lat, i + 1, [], next, !isEven, hash + [BASE32[DigitOf(more)]]))
            && DigitOf(more) == DigitOf(five) + (if one then BITS[|five|] else 0)
  {
    hide BitsOfPoint, CellOf, Hash, DigitOf, UpperHalf, Half;
    var n := 5 * i + |five|;
    var one := UpperHalf(c, isEven, lon, lat);
    NextBit(lon, lat, n, 5 * i);
    NextPartial(five, one);
    OddAfterEven(n);
    if |five| == 4 {
      NextCharacter(lon, lat, i, five + [one]);
      var none: seq<bool> := [];
      assert 5 * i + 5 == 5 * (i + 1) + |none|;
      assert BitsOfPoint(lon, lat, n + 1)[5 * (i + 1)..] == none;
    }
  }

  lemma EncodingStarts(lon: real, lat: real)
    ensures Encoding(lon, lat, 0, [], WORLD, true, []) && DigitOf([]) == 0
  {
    FirstBits(lon, lat);
  }

  /** Five bits a character, from the highest down. */
  method GeohashPoint(longitude: real, latitude: real, precision: int) returns (geohash: string)
    ensures geohash == Hash(longitude, latitude, if precision < 0 then 0 else precision)
  {
    hide Encoding, DigitOf, UpperHalf, Half;
    var isEven, i, bit := true, 0, 0;
    var ch: nat := 0;
    var lat0, lat1, lon0, lon1 := -90.0, 90.0, -180.0, 180.0;
    geohash := [];
    ghost var five: seq<bool> := [];
    EncodingStarts(longitude, latitude);
    while i < precision
      invariant 0 <= i && (i == 0 || i <= precision) && |five| == bit < 5 && ch == DigitOf(five)
      invariant Encoding(longitude, latitude, i, five, Cell(lon0, lon1, lat0, lat1), isEven, geohash)
      decreases precision - i, 5 - bit
    {
      ghost var cell := Cell(lon0, lon1, lat0, lat1);
      ghost var one := UpperHalf(cell, isEven, longitude, latitude);
      EncodeStep(longitude, latitude, i, five, cell, isEven, geohash);
      if isEven {
        var mid := (lon0 + lon1) / 2.0;
        HalfOfLongitude(cell, longitude, latitude, mid);
        if longitude >= mid {
          ch := ch + BITS[bit];
          lon0 := mid;
        } else {
          lon1 := mid;
        }
      } else {
        var mid := (lat0 + lat1) / 2.0;
        HalfOfLatitude(cell, longitude, latitude, mid);
        if latitude >= mid {
          ch := ch + BITS[bit];
          lat0 := mid;
        } else {
          lat1 := mid;
        }
      }
      isEven := !isEven;
      five := five + [one];
      if bit < 4 {
        bit := bit + 1;
      } else {
        geohash := geohash + [BASE32[ch]];
        i := i + 1;
        bit := 0;
        ch := 0;
        five := [];
      }
    }
    EncodingEnds(longitude, latitude, i, five, Cell(lon0, lon1, lat0, lat1), isEven, geohash);
  }

  lemma EncodingEnds(lon: real, lat: real, i: nat, five: seq<bool>, c: Cell, isEven: bool, hash: string)
    requires Encoding(lon, lat, i, five, c, isEven, hash)
    ensures hash == Hash(lon, lat, i)
  {
  }

  lemma FirstBits(lon: real, lat: real)
    ensures BitsOfPoint(lon, lat, 0) == [] && CellOf([]) == WORLD && Hash(lon, lat, 0) == [] && DigitOf([]) == 0
  {
  }

  lemma NextPartial(five: seq<bool>, bit: bool)
    requires |five| < 5
    ensures DigitOf(five + [bit]) == DigitOf(five) + (if bit then BITS[|five|] else 0)
  {
  }

  lemma HalfOfLongitude(c: Cell, lon: real, lat: real, mid: real)
    requires mid == (c.lon0 + c.lon1) / 2.0
    ensures UpperHalf(c, true, lon, lat) <==> lon >= mid
    ensures forall bit :: Half(c, true, bit) == if bit then c.(lon0 := mid) else c.(lon1 := mid)
  {
  }

  lemma HalfOfLatitude(c: Cell, lon: real, lat: real, mid: real)
    requires mid == (c.lat0 + c.lat1) / 2.0
    ensures UpperHalf(c, false, lon, lat) <==> lat >= mid
    ensures forall bit :: Half(c, false, bit) == if bit then c.(lat0 := mid) else c.(lat1 := mid)
  {
  }

  // ----- decoding

  datatype Decoded = Ok | InvalidCharacter(at: nat)

  predicate IsEven(n: nat) {
    n % 2 == 0
  }

  /** Narrows the bounds from the world to the cell of the first characters, all of them for a
      negative or an excessive precision. */
  method DecodeGeohashBbox(geohash: string, lat: array<real>, lon: array<real>, precision: int) returns (r: Decoded)
    requires lat.Length == lon.Length == 2 && lat != lon
    modifies lat, lon
    ensures var s := geohash[..if precision < 0 || precision > |geohash| then |geohash| else precision];
      && (r.Ok? <==> IsHash(s))
      && (r.Ok? ==> Cell(lon[0], lon[1], lat[0], lat[1]) == CellOf(BitsOfHash(s)))
      && (r.InvalidCharacter? ==> r.at < |s| && Digit(s[r.at]).None? && IsHash(s[..r.at]))
  {
    hide CellOf, Digit, BitsOfHash, FiveBits, IsHash, IsEven;
    var isEven := true;
    lat[0], lat[1] := -90.0, 90.0;
    lon[0], lon[1] := -180.0, 180.0;
    var count := if precision < 0 || precision > |geohash| then |geohash| else precision;
    ghost var s := geohash[..count];
    NoCharacters(s);
    assert Cell(lon[0], lon[1], lat[0], lat[1]) == WORLD;
    for i := 0 to count
      invariant IsHash(s[..i]) && (isEven <==> IsEven(i))
      invariant Cell(lon[0], lon[1], lat[0], lat[1]) == CellOf(BitsOfHash(s[..i]))
    {
      var digit := Digit(geohash[i]);
      OneMoreCharacter(s, i);
      FiveMoreBits(s, i);
      assert s[i] == geohash[i] && s[..i + 1] == s[..i] + [s[i]];
      if digit.None? {
        return InvalidCharacter(i);
      }
      isEven := DecodeDigit(digit.value, lat, lon, isEven, BitsOfHash(s[..i]));
    }
    assert s[..count] == s;
    return Ok;
  }

  /** Narrows the bounds by the five bits of one digit. */
  method DecodeDigit(cd: nat, lat: array<real>, lon: array<real>, even: bool, ghost before: seq<bool>)
    returns (isEven: bool)
    requires lat.Length == lon.Length == 2 && lat != lon && cd < 32
    requires even <==> IsEven(|before|)
    requires Cell(lon[0], lon[1], lat[0], lat[1]) == CellOf(before)
    modifies lat, lon
    ensures isEven == !even
    ensures Cell(lon[0], lon[1], lat[0], lat[1]) == CellOf(before + FiveBits(cd))
  {
    hide CellOf, FiveBits;
    isEven := even;
    ghost var five := FiveBits(cd);
    assert before + five[..0] == before;
    for j := 0 to 5
      invariant isEven <==> (|before| + j) % 2 == 0
      invariant Cell(lon[0], lon[1], lat[0], lat[1]) == CellOf(before + five[..j])
    {
      var mask := BITS[j];
      var one := cd / mask % 2 == 1;
      BitOfDigit(cd, j);
      NextHalf(before + five[..j], one);
      assert before + five[..j] + [one] == before + five[..j + 1];
      if isEven {
        lon[if one then 0 else 1] := (lon[0] + lon[1]) / 2.0;
      } else {
        lat[if one then 0 else 1] := (lat[0] + lat[1]) / 2.0;
      }
      isEven := !isEven;
    }
    assert five[..5] == five;
  }

  lemma BitOfDigit(d: nat, j: nat)
    requires j < 5
    ensures FiveBits(d)[j] == (d / BITS[j] % 2 == 1)
  {
  }

  lemma NextHalf(bits: seq<bool>, bit: bool)
    ensures CellOf(bits + [bit]) == Half(CellOf(bits), |bits| % 2 == 0, bit)
  {
    hide Half;
    var more := bits + [bit];
    assert more[..|bits|] == bits && more[|bits|] == bit;
    OddAfterEven(|bits|);
  }

  lemma OddAfterEven(n: nat)
    ensures (n + 1) % 2 == 1 <==> n % 2 == 0
  {
  }

  lemma NoCharacters(s: string)
    ensures IsHash(s[..0]) && BitsOfHash(s[..0]) == [] && CellOf([]) == WORLD && IsEven(0)
  {
  }

  lemma OddTimesFive(i: nat)
    ensures 5 * i % 2 == i % 2
  {
    var q, r := i / 2, i % 2;
    assert 5 * i == 2 * (5 * q + 2 * r) + r;
    Remainder(5 * q + 2 * r, r);
  }

  lemma Remainder(q: nat, r: nat)
    requires r < 2
    ensures (2 * q + r) % 2 == r
  {
  }

  lemma FiveMoreBits(s: string, i: nat)
    requires i <= |s| && IsHash(s[..i])
    ensures (IsEven(|BitsOfHash(s[..i])|) <==> IsEven(i)) && (IsEven(i + 1) <==> !IsEven(i))
  {
    hide IsHash, BitsOfHash;
    OddTimesFive(i);
    OddAfterEven(i);
  }

  lemma OneMoreCharacter(s: string, i: nat)
    requires i < |s| && IsHash(s[..i])
    ensures Digit(s[i]).Some? ==>
              && IsHash(s[..i + 1])
              && BitsOfHash(s[..i + 1]) == BitsOfHash(s[..i]) + FiveBits(Digit(s[i]).value)
    ensures Digit(s[i]).None? ==> !IsHash(s)
  {
    hide Digit, FiveBits;
    assert s[..i + 1] == s[..i] + [s[i]] && s[..i + 1][..i] == s[..i];
  }

  // ----- precision

  datatype Bounds = Bounds(xmin: real, xmax: real, ymin: real, ymax: real)

  function CenterX(b: Bounds): real {
    b.xmin + (b.xmax - b.xmin) / 2.0
  }

  function CenterY(b: Bounds): real {
    b.ymin + (b.ymax - b.ymin) / 2.0
  }

  predicate Ordered(b: Bounds) {
    b.xmin <= b.xmax && b.ymin <= b.ymax
  }

  /** The whole box lies in the closed cell. */
  predicate BoxInCell(c: Cell, b: Bounds) {
    c.lon0 <= b.xmin && b.xmax <= c.lon1 && c.lat0 <= b.ymin && b.ymax <= c.lat1
  }

  /** The box lies in the cell of the first `n` bits of its center. */
  ghost predicate BitsHoldBox(b: Bounds, n: nat) {
    BoxInCell(CellOf(BitsOfPoint(CenterX(b), CenterY(b), n)), b)
  }

  function Pow2(n: nat): (p: real)
    ensures p >= 1.0
  {
    if n == 0 then 1.0 else 2.0 * Pow2(n - 1)
  }

  lemma {:induction false} Pow2Exceeds(n: nat)
    ensures Pow2(n) > n as real
  {
    if n > 0 {
      Pow2Exceeds(n - 1);
      assert n as real == (n - 1) as real + 1.0;
    }
  }

  lemma {:induction false} Pow2Grows(n: nat, m: nat)
    requires n <= m
    ensures Pow2(n) <= Pow2(m)
  {
    if n < m {
      Pow2Grows(n, m - 1);
    }
  }

  lemma NaturalAbove(q: real) returns (n: nat)
    ensures n as real > q
  {
    n := if q < 0.0 then 0 else q.Floor + 1;
  }

  lemma LargerProduct(p: real, q: real, c: real, limit: real)
    requires p > q && c > 0.0 && q * c == limit
    ensures p * c > limit
  {
    assert (p - q) * c > 0.0;
  }

  lemma Quotient(limit: real, a: real) returns (q: real)
    requires a > 0.0
    ensures q * a == limit
  {
    q := limit / a;
  }

  predicate Outgrows(size: real, extent: real, limit: real) {
    size * extent > limit
  }

  /** After `n` halvings, `size` narrower each, the world is narrower than the extent. */
  lemma EnoughHalvings(extent: real, limit: real) returns (n: nat, size: real)
    requires extent > 0.0
    ensures size == Pow2(n) && Outgrows(size, extent, limit)
  {
    var q := Quotient(limit, extent);
    n := NaturalAbove(q);
    Pow2Exceeds(n);
    size := Pow2(n);
    hide Pow2;
    LargerProduct(size, q, extent, limit);
  }

  lemma SmallerFactor(p: real, q: real, width: real, extent: real, limit: real)
    requires p > 0.0 && 0.0 < extent <= width && width * p <= limit && Outgrows(q, extent, limit)
    ensures p < q
  {
    if p >= q {
      ProductsGrow(p, q, width, extent);
    }
  }

  lemma ProductsGrow(p: real, q: real, width: real, extent: real)
    requires p > 0.0 && p >= q && 0.0 < extent <= width
    ensures q * extent <= width * p
  {
    assert (p - q) * extent >= 0.0;
    if width > extent {
      assert p * (width - extent) > 0.0;
    }
  }

  /** A cell of `k` halvings is at least as wide as what it holds. */
  lemma FewerHalvings(k: nat, n: nat, width: real, extent: real, p: real, q: real, limit: real)
    requires p == Pow2(k) && q == Pow2(n)
    requires 0.0 < extent <= width && width * p <= limit && Outgrows(q, extent, limit)
    ensures k < n
  {
    hide Pow2, Outgrows;
    SmallerFactor(p, q, width, extent, limit);
    if k >= n {
      Pow2Grows(n, k);
    }
  }

  /** Half of the box that a bit of its center chooses still holds the whole box, when one half
      does. */
  lemma NextBitHoldsBox(b: Bounds, n: nat, isEven: bool)
    requires Ordered(b) && BitsHoldBox(b, n) && (isEven <==> n % 2 == 0)
    ensures var c := CellOf(BitsOfPoint(CenterX(b), CenterY(b), n));
            var lo, hi := if isEven then c.lon0 else c.lat0, if isEven then c.lon1 else c.lat1;
            var min, max := if isEven then b.xmin else b.ymin, if isEven then b.xmax else b.ymax;
            var next := CellOf(BitsOfPoint(CenterX(b), CenterY(b), n + 1));
            && (min >= Middle(lo, hi) ==> BitsHoldBox(b, n + 1) && next == Half(c, isEven, true))
            && (min < Middle(lo, hi) && max <= Middle(lo, hi) ==>
                  BitsHoldBox(b, n + 1) && next == Half(c, isEven, false))
            && (min < Middle(lo, hi) < max ==> !BitsHoldBox(b, n + 1))
  {
    hide CellOf, BitsOfPoint;
    NextBit(CenterX(b), CenterY(b), n, n);
  }

  /** A prefix of bits that hold the box holds it too. */
  lemma FewerBitsHoldBox(b: Bounds, n: nat, m: nat)
    requires n <= m && Ordered(b) && BitsHoldBox(b, m)
    ensures BitsHoldBox(b, n)
  {
    hide CellOf, BitsOfPoint;
    BitsPrefix(CenterX(b), CenterY(b), n, m);
    CellsNest(BitsOfPoint(CenterX(b), CenterY(b), m), n);
  }

  // No other cell does better than the one that owns the center.

  /** The cells agree on every axis along which the box extends. */
  predicate SameWhereWide(b: Bounds, c: Cell, d: Cell) {
    && (b.xmin < b.xmax ==> c.lon0 == d.lon0 && c.lon1 == d.lon1)
    && (b.ymin < b.ymax ==> c.lat0 == d.lat0 && c.lat1 == d.lat1)
  }

  /** The half that holds the box is the half that the center chooses. */
  lemma SameHalf(b: Bounds, c: Cell, d: Cell, isEven: bool, bit: bool)
    requires Ordered(b) && SameWhereWide(b, c, d) && BoxInCell(Half(c, isEven, bit), b)
    ensures SameWhereWide(b, Half(c, isEven, bit), Half(d, isEven, UpperHalf(d, isEven, CenterX(b), CenterY(b))))
  {
  }

  lemma {:induction false} HolderIsCenters(b: Bounds, bits: seq<bool>)
    requires Ordered(b) && BoxInCell(CellOf(bits), b)
    ensures SameWhereWide(b, CellOf(bits), CellOf(BitsOfPoint(CenterX(b), CenterY(b), |bits|)))
  {
    hide Half, UpperHalf, BoxInCell, SameWhereWide;
    var n := |bits|;
    if n == 0 {
      SameCell(b, WORLD);
    } else {
      var init := bits[..n - 1];
      HeldByWider(b, bits, n - 1);
      HolderIsCenters(b, init);
      var own := BitsOfPoint(CenterX(b), CenterY(b), n);
      assert own[..n - 1] == BitsOfPoint(CenterX(b), CenterY(b), n - 1);
      SameHalf(b, CellOf(init), CellOf(own[..n - 1]), n % 2 == 1, bits[n - 1]);
    }
  }

  lemma SameCell(b: Bounds, c: Cell)
    ensures SameWhereWide(b, c, c)
  {
  }

  lemma HeldByWider(b: Bounds, bits: seq<bool>, n: nat)
    requires n <= |bits| && BoxInCell(CellOf(bits), b)
    ensures BoxInCell(CellOf(bits[..n]), b)
  {
    hide CellOf;
    CellsNest(bits, n);
  }

  /** If any cell of `n` bits holds the box, the one of its center does. */
  lemma CenterIsBest(b: Bounds, bits: seq<bool>)
    requires Ordered(b) && BoxInCell(CellOf(bits), b)
    ensures BitsHoldBox(b, |bits|)
  {
    HolderIsCenters(b, bits);
    HeldByWider(b, bits, 0);
    assert bits[..0] == [];
    PointInItsCell(CenterX(b), CenterY(b), |bits|);
    hide CellOf, BitsOfPoint;
  }

  /** No hash longer than `n` characters, up to the most there are, has a cell that holds the
      box. */
  ghost predicate NoneIsLonger(b: Bounds, n: nat) {
    forall s: string :: IsHash(s) && n < |s| <= 20 ==>
                          !BoxInCell(CellOf(BitsOfHash(s)), b)
  }

  lemma LongestThatHolds(b: Bounds, bits: nat, n: nat)
    requires Ordered(b) && !BitsHoldBox(b, bits + 1)
    requires bits < 5 * n + 5 || n >= GEOHASH_MAX_DOUBLE_PRECISION_CHARS
    ensures n < GEOHASH_MAX_DOUBLE_PRECISION_CHARS ==> !BitsHoldBox(b, 5 * n + 5)
    ensures NoneIsLonger(b, n)
  {
    hide CellOf, BitsOfHash, IsHash, BoxInCell, BitsHoldBox;
    if n < GEOHASH_MAX_DOUBLE_PRECISION_CHARS && BitsHoldBox(b, 5 * n + 5) {
      FewerBitsHoldBox(b, bits + 1, 5 * n + 5);
    }
    forall s: string | && IsHash(s) && n < |s| <= GEOHASH_MAX_DOUBLE_PRECISION_CHARS
                       && BoxInCell(CellOf(BitsOfHash(s)), b)
      ensures false
    {
      CenterIsBest(b, BitsOfHash(s));
      FewerBitsHoldBox(b, bits + 1, 5 * |s|);
    }
  }

  /** One axis of the shrinking world: the half that the extent fits into. */
  method Shrink(lo: real, hi: real, min: real, max: real) returns (adjusted: bool, lo': real, hi': real)
    requires lo < hi
    ensures adjusted <==> min >= Middle(lo, hi) || max <= Middle(lo, hi)
    ensures min >= Middle(lo, hi) ==> lo' == Middle(lo, hi) && hi' == hi
    ensures min < Middle(lo, hi) && max <= Middle(lo, hi) ==> lo' == lo && hi' == Middle(lo, hi)
    ensures !adjusted ==> lo' == lo && hi' == hi
    ensures adjusted ==> hi' - lo' == (hi - lo) / 2.0
  {
    var width := hi - lo;
    var minAdjust, maxAdjust := 0.0, 0.0;
    if min >= lo + width / 2.0 {
      minAdjust := width / 2.0;
    } else if max <= hi - width / 2.0 {
      maxAdjust := -width / 2.0;
    }
    adjusted := minAdjust != 0.0 || maxAdjust != 0.0;
    lo', hi' := lo + minAdjust, hi + maxAdjust;
  }

  lemma PointBox(b: Bounds, n: nat)
    requires Ordered(b) && BoxInCell(WORLD, b) && b.xmin == b.xmax && b.ymin == b.ymax
    ensures BitsHoldBox(b, 5 * n)
    ensures n >= GEOHASH_MAX_DOUBLE_PRECISION_CHARS ==> NoneIsLonger(b, n)
  {
    PointInItsCell(b.xmin, b.ymin, 5 * n);
  }

  /** Halves the world around the box as long as it fits into a half.  Every bit counted is the
      bit the encoder emits for the center, and no longer hash holds the box. */
  method GeohashPrecision(bbox: Bounds) returns (precision: nat, bounds: Bounds)
    requires Ordered(bbox) && BoxInCell(WORLD, bbox)
    ensures precision <= 20 && BitsHoldBox(bbox, 5 * precision)
    ensures precision < 20 ==> !BitsHoldBox(bbox, 5 * precision + 5)
    ensures NoneIsLonger(bbox, precision)
    ensures bbox.xmin == bbox.xmax && bbox.ymin == bbox.ymax ==> precision == 20
  {
    hide CellOf, BitsOfPoint, NoneIsLonger, BitsHoldBox;
    bounds := bbox;
    if bbox.xmin == bbox.xmax && bbox.ymin == bbox.ymax {
      PointBox(bbox, GEOHASH_MAX_DOUBLE_PRECISION_CHARS);
      return GEOHASH_MAX_DOUBLE_PRECISION_CHARS, bounds;
    }
    var bits: nat;
    bits, bounds := ShrinkWorld(bbox);
    precision := bits / 5;
    if precision > GEOHASH_MAX_DOUBLE_PRECISION_CHARS {
      precision := GEOHASH_MAX_DOUBLE_PRECISION_CHARS;
    }
    FewerBitsHoldBox(bbox, 5 * precision, bits);
    LongestThatHolds(bbox, bits, precision);
  }

  /** `width` is what is left of `span` after it was divided by `size`. */
  ghost predicate Divided(width: real, size: real, span: real) {
    width * size == span
  }

  lemma DividedAgain(width: real, size: real, span: real)
    requires Divided(width, size, span)
    ensures Divided(width / 2.0, 2.0 * size, span)
  {
  }

  lemma WorldIsWhole(k: nat)
    ensures Divided(360.0, 1.0, 360.0) && Divided(180.0, 1.0, 180.0) && Pow2(0) == 1.0 && Pow2(k + 1) == 2.0 * Pow2(k)
  {
  }

  /** While the box fits, fewer halvings have been done than would make a cell too small. */
  lemma FitsSoFar(b: Bounds, lonWidth: real, latWidth: real, k: nat, size: real, n: nat, enough: real, limit: real)
    requires Ordered(b) && b.xmax - b.xmin <= lonWidth && b.ymax - b.ymin <= latWidth
    requires size == Pow2(k) && enough == Pow2(n) && limit == 360.0
    requires Divided(lonWidth, size, 360.0) && Divided(latWidth, size, 180.0)
    requires Extent(b) > 0.0 && Outgrows(enough, Extent(b), limit)
    ensures k < n
  {
    hide Pow2, Outgrows;
    if b.xmin < b.xmax {
      FewerHalvings(k, n, lonWidth, Extent(b), size, enough, limit);
    } else {
      FewerHalvings(k, n, latWidth, Extent(b), size, enough, limit);
    }
  }

  function Extent(b: Bounds): real {
    if b.xmin < b.xmax then b.xmax - b.xmin else b.ymax - b.ymin
  }

  lemma HeldExtent(b: Bounds, n: nat)
    requires BitsHoldBox(b, n)
    ensures var c := CellOf(BitsOfPoint(CenterX(b), CenterY(b), n));
            b.xmax - b.xmin <= c.lon1 - c.lon0 && b.ymax - b.ymin <= c.lat1 - c.lat0
            && c.lon0 < c.lon1 && c.lat0 < c.lat1
  {
    CellHasArea(BitsOfPoint(CenterX(b), CenterY(b), n));
  }

  lemma WorldHoldsBox(b: Bounds)
    requires BoxInCell(WORLD, b)
    ensures BitsHoldBox(b, 0)
  {
  }

  /** One round of the loop, longitude and then latitude; `full` unless the box got in the way. */
  method ShrinkRound(bbox: Bounds, precision: nat, lonmin: real, lonmax: real, latmin: real, latmax: real)
    returns (full: bool, precision': nat, lonmin': real, lonmax': real, latmin': real, latmax': real)
    requires Ordered(bbox) && BitsHoldBox(bbox, precision) && precision % 2 == 0
    requires CellOf(BitsOfPoint(CenterX(bbox), CenterY(bbox), precision)) == Cell(lonmin, lonmax, latmin, latmax)
    ensures BitsHoldBox(bbox, precision')
    ensures CellOf(BitsOfPoint(CenterX(bbox), CenterY(bbox), precision')) == Cell(lonmin', lonmax', latmin', latmax')
    ensures full ==> && precision' == precision + 2
                     && lonmax' - lonmin' == (lonmax - lonmin) / 2.0 && latmax' - latmin' == (latmax - latmin) / 2.0
    ensures !full ==> !BitsHoldBox(bbox, precision' + 1)
  {
    hide CellOf, BitsOfPoint, BitsHoldBox;
    precision', latmin', latmax' := precision, latmin, latmax;
    HeldExtent(bbox, precision);
    NextBitHoldsBox(bbox, precision, true);
    full, lonmin', lonmax' := Shrink(lonmin, lonmax, bbox.xmin, bbox.xmax);
    if full {
      precision' := precision + 1;
      NextBitHoldsBox(bbox, precision', false);
      full, latmin', latmax' := Shrink(latmin, latmax, bbox.ymin, bbox.ymax);
      if full {
        precision' := precision + 2;
      }
    }
  }

  /** The state after `k` full rounds. */
  ghost predicate Shrunk(b: Bounds, precision: nat, c: Cell, k: nat, size: real) {
    && precision == 2 * k && size == Pow2(k) && BitsHoldBox(b, precision)
    && CellOf(BitsOfPoint(CenterX(b), CenterY(b), precision)) == c
    && Divided(c.lon1 - c.lon0, size, 360.0) && Divided(c.lat1 - c.lat0, size, 180.0)
  }

  ghost predicate Enough(b: Bounds, n: nat, enough: real) {
    enough == Pow2(n) && Extent(b) > 0.0 && Outgrows(enough, Extent(b), 360.0)
  }

  lemma RoundsEnd(b: Bounds, precision: nat, c: Cell, k: nat, size: real, n: nat, enough: real)
    requires Ordered(b) && Shrunk(b, precision, c, k, size) && Enough(b, n, enough)
    ensures k < n
  {
    hide CellOf, BitsOfPoint, Divided, Pow2, Extent, Outgrows, BitsHoldBox;
    HeldExtent(b, precision);
    FitsSoFar(b, c.lon1 - c.lon0, c.lat1 - c.lat0, k, size, n, enough, 360.0);
  }

  lemma RoundDone(b: Bounds, precision: nat, c: Cell, k: nat, size: real, next: Cell)
    requires Shrunk(b, precision, c, k, size) && BitsHoldBox(b, precision + 2)
    requires CellOf(BitsOfPoint(CenterX(b), CenterY(b), precision + 2)) == next
    requires next.lon1 - next.lon0 == (c.lon1 - c.lon0) / 2.0 && next.lat1 - next.lat0 == (c.lat1 - c.lat0) / 2.0
    ensures Shrunk(b, precision + 2, next, k + 1, 2.0 * size)
  {
    hide CellOf, BitsOfPoint, Divided, Pow2, BitsHoldBox;
    DividedAgain(c.lon1 - c.lon0, size, 360.0);
    DividedAgain(c.lat1 - c.lat0, size, 180.0);
    WorldIsWhole(k);
  }

  lemma StartShrinking(b: Bounds) returns (n: nat, enough: real)
    requires Ordered(b) && BoxInCell(WORLD, b) && (b.xmin != b.xmax || b.ymin != b.ymax)
    ensures Shrunk(b, 0, WORLD, 0, 1.0) && Enough(b, n, enough)
  {
    hide Outgrows, Pow2;
    n, enough := EnoughHalvings(Extent(b), 360.0);
    WorldIsWhole(0);
    FirstBits(CenterX(b), CenterY(b));
    WorldHoldsBox(b);
  }

  lemma ShrunkHolds(b: Bounds, precision: nat, c: Cell, k: nat, size: real)
    requires Shrunk(b, precision, c, k, size)
    ensures precision == 2 * k && BitsHoldBox(b, precision)
    ensures CellOf(BitsOfPoint(CenterX(b), CenterY(b), precision)) == c
  {
  }

  /** Shrinks the world to the smallest cell that holds the box. */
  method ShrinkWorld(bbox: Bounds) returns (precision: nat, bounds: Bounds)
    requires Ordered(bbox) && BoxInCell(WORLD, bbox)
    requires bbox.xmin != bbox.xmax || bbox.ymin != bbox.ymax
    ensures BitsHoldBox(bbox, precision) && !BitsHoldBox(bbox, precision + 1)
    ensures CellOf(BitsOfPoint(CenterX(bbox), CenterY(bbox), precision)) ==
            Cell(bounds.xmin, bounds.xmax, bounds.ymin, bounds.ymax)
  {
    hide CellOf, BitsOfPoint, BitsHoldBox, Shrunk, Enough, Extent, Pow2, CenterX, CenterY, BoxInCell;
    ghost var n, enough := StartShrinking(bbox);
    ghost var k: nat, size: real := 0, 1.0;
    var lonmin, latmin, lonmax, latmax := -180.0, -90.0, 180.0, 90.0;
    precision := 0;
    while true
      invariant Shrunk(bbox, precision, Cell(lonmin, lonmax, latmin, latmax), k, size)
      decreases n - k
    {
      ghost var cell := Cell(lonmin, lonmax, latmin, latmax);
      RoundsEnd(bbox, precision, cell, k, size, n, enough);
      ShrunkHolds(bbox, precision, cell, k, size);
      var full: bool;
      full, precision, lonmin, lonmax, latmin, latmax := ShrinkRound(bbox, precision, lonmin, lonmax, latmin, latmax);
      if !full {
        return precision, Bounds(lonmin, lonmax, latmin, latmax);
      }
      RoundDone(bbox, 2 * k, cell, k, size, Cell(lonmin, lonmax, latmin, latmax));
      k, size := k + 1, 2.0 * size;
    }
  }

  // ----- the geometry

  datatype Result = Text(hash: string) | NoBox | OutOfBounds

  /** The hash of the center of a geometry's box.  With automatic precision, the cell it decodes
      to contains the whole box, and no longer hash has such a cell. */
  method LwgeomGeohash(gbox: Option<Bounds>, precision: int) returns (r: Result)
    requires gbox.Some? ==> Ordered(gbox.value)
    ensures r.NoBox? <==> gbox.None?
    ensures r.OutOfBounds? <==> gbox.Some? && !BoxInCell(WORLD, gbox.value)
    ensures r.Text? && precision > 0 ==> r.hash == Hash(CenterX(gbox.value), CenterY(gbox.value), precision)
    ensures r.Text? && precision <= 0 ==>
              && |r.hash| <= 20 && IsHash(r.hash)
              && r.hash == Hash(CenterX(gbox.value), CenterY(gbox.value), |r.hash|)
              && BoxInCell(CellOf(BitsOfHash(r.hash)), gbox.value) && NoneIsLonger(gbox.value, |r.hash|)
  {
    hide Hash, CellOf, BitsOfPoint, BitsOfHash, IsHash, NoneIsLonger;
    if gbox.None? {
      return NoBox;
    }
    var b := gbox.value;
    if b.xmin < -180.0 || b.ymin < -90.0 || b.xmax > 180.0 || b.ymax > 90.0 {
      return OutOfBounds;
    }
    var lon := b.xmin + (b.xmax - b.xmin) / 2.0;
    var lat := b.ymin + (b.ymax - b.ymin) / 2.0;
    var chars := precision;
    if precision <= 0 {
      var bounds;
      chars, bounds := GeohashPrecision(b);
      HashSpellsBits(lon, lat, chars);
    }
    var hash := GeohashPoint(lon, lat, chars);
    return Text(hash);
  }
}
