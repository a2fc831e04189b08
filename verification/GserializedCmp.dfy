/** The ordering of serialized geometries. */
module GserializedCmp {
  import opened Common
  import opened Gserialized2
  import opened Gserialized2Laws

  datatype Flags = Flags(z: bool, m: bool, bbox: bool, geodetic: bool, extended: bool, version: bool)

  /** A serialized geometry: three SRID bytes, flags, and everything after the first eight
      bytes. */
  datatype Serialized = Serialized(srid: seq<byte>, flags: Flags, data: seq<byte>)

  function NDims(flags: Flags): nat {
    2 + (if flags.z then 1 else 0) + (if flags.m then 1 else 0)
  }

  /** Bytes before the payload, as the comparison computes them for either version. */
  function HeaderSize(flags: Flags): (size: nat)
    ensures size >= 8
  {
    8 + (if flags.version && flags.extended then 8 else 0) +
    (if !flags.bbox then 0
     else if flags.geodetic then 6 * 4
     else 4 * 4 + (if flags.z then 2 * 4 else 0) + (if flags.m then 2 * 4 else 0))
  }

  /** Bytes before the payload, as version 2 computes them. */
  function HeaderSize2(flags: Flags): nat {
    8 + (if flags.extended then 8 else 0) +
    (if flags.bbox then (if flags.geodetic then 6 * 4 else 2 * NDims(flags) * 4) else 0)
  }

  lemma HeaderSizesAgree(flags: Flags)
    requires flags.version
    ensures HeaderSize(flags) == HeaderSize2(flags)
  {
  }

  /** The three SRID bytes as one number. */
  function StoredSrid(g: Serialized): nat
    requires |g.srid| == 3
  {
    0x1_0000 * Val(g.srid[0]) + 0x100 * Val(g.srid[1]) + Val(g.srid[2])
  }

  /** The sign bit of a 21-bit number, extended. */
  function SignExtended(n: nat): int {
    if n / 0x10_0000 % 2 == 1 then n % 0x20_0000 - 0x20_0000 else n
  }

  /** The SRID as a signed number. */
  function Srid(g: Serialized): int
    requires |g.srid| == 3
  {
    SignExtended(StoredSrid(g))
  }

  /** The three bytes that an SRID is stored in. */
  function SridBytes(srid: int): (b: seq<byte>)
    ensures |b| == 3
  {
    var bits := srid % 0x20_0000;
    [bits / 0x1_0000, bits / 0x100 % 0x100, bits % 0x100]
  }

  /** An SRID of 21 bits and a sign is read as it was stored. */
  lemma SridRoundTrip(g: Serialized, srid: int)
    requires g.srid == SridBytes(srid) && -0x10_0000 <= srid < 0x10_0000
    ensures Srid(g) == srid && Val(g.srid[0]) < 0x20
  {
    var bits := srid % 0x20_0000;
    assert bits == if srid < 0 then srid + 0x20_0000 else srid;
    assert StoredSrid(g) == bits;
  }

  predicate SameSrid(a: Serialized, b: Serialized) {
    |a.srid| == |b.srid| == 3 && a.srid[0] == b.srid[0] && a.srid[1] == b.srid[1] && a.srid[2] == b.srid[2]
  }

  function Payload(g: Serialized): seq<byte>
    requires HeaderSize(g.flags) - 8 <= |g.data|
  {
    g.data[HeaderSize(g.flags) - 8..]
  }

  /** A stored value: SRID bytes as `gserialized2_set_srid` leaves them, and a payload that
      passes validation and fills the value. */
  ghost predicate Stored(g: Serialized) {
    && |g.srid| == 3 && Val(g.srid[0]) < 0x20
    && g.flags.version
    && HeaderSize(g.flags) - 8 <= |g.data|
    && Check(Payload(g), NDims(g.flags)) == Some(|Payload(g)|)
  }

  /** The sign of `memcmp` over the common length. */
  function Memcmp(a: seq<byte>, b: seq<byte>): int {
    if a == [] || b == [] then 0
    else if a[0] != b[0] then (if Val(a[0]) > Val(b[0]) then 1 else -1)
    else Memcmp(a[1..], b[1..])
  }

  function Sign(greater: bool): (r: int)
    ensures r == 1 || r == -1
    ensures r > 0 <==> greater
  {
    if greater then 1 else -1
  }

  /** The comparison.  `key` is the sort key computed from the bounding box, or `None` for
      an empty geometry. */
  function Cmp(key: (seq<byte>, int) -> Option<nat>, a: Serialized, b: Serialized): int
    requires |a.srid| == |b.srid| == 3
    requires HeaderSize(a.flags) - 8 <= |a.data| && HeaderSize(b.flags) - 8 <= |b.data|
  {
    var p, q := Payload(a), Payload(b);
    var cmp := Memcmp(p, q);
    if |p| == |q| && SameSrid(a, b) && cmp == 0 && a.flags.z == b.flags.z && a.flags.m == b.flags.m then 0
    else
      var ka, kb := key(p, Srid(a)), key(q, Srid(b));
      if ka.None? && kb.Some? then -1
      else if ka.Some? && kb.None? then 1
      else if ka.Some? && kb.Some? && ka.value > kb.value then 1
      else if ka.Some? && kb.Some? && ka.value < kb.value then -1
      else if |p| != |q| && cmp == 0 then (if |p| < |q| then -1 else 1)
      else if !SameSrid(a, b) then Sign(Srid(a) > Srid(b))
      else if a.flags.z != b.flags.z then Sign(a.flags.z)
      else if a.flags.m != b.flags.m then Sign(a.flags.m)
      else Sign(cmp > 0)
  }

  // ----- byte strings

  lemma {:induction false} MemcmpSwaps(a: seq<byte>, b: seq<byte>)
    ensures Memcmp(a, b) == -Memcmp(b, a)
  {
    if a != [] && b != [] && a[0] == b[0] {
      MemcmpSwaps(a[1..], b[1..]);
    }
  }

  lemma {:induction false} MemcmpZero(a: seq<byte>, b: seq<byte>)
    requires Memcmp(a, b) == 0 && |a| <= |b|
    ensures a == b[..|a|]
  {
    if a != [] {
      MemcmpZero(a[1..], b[1..]);
      assert a == [a[0]] + a[1..];
      assert b[..|a|] == [b[0]] + b[1..][..|a| - 1];
    }
  }

  lemma {:induction false} MemcmpSelf(a: seq<byte>)
    ensures Memcmp(a, a) == 0
  {
    if a != [] {
      MemcmpSelf(a[1..]);
    }
  }

  lemma {:induction false} MemcmpTrans(a: seq<byte>, b: seq<byte>, c: seq<byte>)
    requires Memcmp(a, b) < 0 && Memcmp(b, c) < 0
    ensures Memcmp(a, c) < 0
  {
    if a[0] == b[0] && b[0] == c[0] {
      MemcmpTrans(a[1..], b[1..], c[1..]);
    }
  }

  /** The sign is that of the first byte that differs. */
  lemma {:induction false} MemcmpIsLexicographic(a: seq<byte>, b: seq<byte>, k: nat)
    requires k < |a| && k < |b| && a[..k] == b[..k] && a[k] != b[k]
    ensures Memcmp(a, b) == if Val(a[k]) > Val(b[k]) then 1 else -1
  {
    if k > 0 {
      assert a[0] == a[..k][0] == b[..k][0] == b[0];
      assert a[1..][..k - 1] == a[..k][1..] && b[1..][..k - 1] == b[..k][1..];
      MemcmpIsLexicographic(a[1..], b[1..], k - 1);
    }
  }

  /** Among values of one dimension count two payloads that `memcmp` cannot tell apart are
      equal: neither is a prefix of the other. */
  lemma MemcmpTellsApart(a: Serialized, b: Serialized)
    requires OneDimension(a, b)
    ensures Memcmp(Payload(a), Payload(b)) == 0 <==> Payload(a) == Payload(b)
  {
    var p, q := Payload(a), Payload(b);
    if Memcmp(p, q) == 0 {
      MemcmpSwaps(p, q);
      if |p| <= |q| {
        MemcmpZero(p, q);
        PrefixFree(p, q, NDims(a.flags));
      } else {
        MemcmpZero(q, p);
        PrefixFree(q, p, NDims(a.flags));
      }
    }
    MemcmpSelf(p);
  }

  /** Numbers written in base 256 agree only digit by digit. */
  lemma DigitsTellApart(a0: nat, a1: nat, a2: nat, b0: nat, b1: nat, b2: nat)
    requires a1 < 0x100 && a2 < 0x100 && b1 < 0x100 && b2 < 0x100
    ensures 0x1_0000 * a0 + 0x100 * a1 + a2 == 0x1_0000 * b0 + 0x100 * b1 + b2 <==> a0 == b0 && a1 == b1 && a2 == b2
  {
  }

  /** Sign extension of 21 bits loses nothing. */
  lemma SignExtensionTellsApart(n: nat, m: nat)
    requires n < 0x20_0000 && m < 0x20_0000
    ensures SignExtended(n) == SignExtended(m) <==> n == m
  {
  }

  lemma SridTellsApart(a: Serialized, b: Serialized)
    requires Stored(a) && Stored(b)
    ensures Srid(a) == Srid(b) <==> SameSrid(a, b)
  {
    hide SignExtended, HeaderSize, Check, Payload;
    SignExtensionTellsApart(StoredSrid(a), StoredSrid(b));
    DigitsTellApart(Val(a.srid[0]), Val(a.srid[1]), Val(a.srid[2]), Val(b.srid[0]), Val(b.srid[1]), Val(b.srid[2]));
  }

  /** Stored values with as many ordinates a point.  One may have Z and the other M. */
  ghost predicate OneDimension(a: Serialized, b: Serialized) {
    Stored(a) && Stored(b) && NDims(a.flags) == NDims(b.flags)
  }

  function Rank(key: (seq<byte>, int) -> Option<nat>, a: Serialized): int
    requires |a.srid| == 3 && HeaderSize(a.flags) - 8 <= |a.data|
  {
    var k := key(Payload(a), Srid(a));
    if k.None? then -1 else k.value
  }

  /** Among values of one dimension count, `Cmp` is the order by emptiness, key, SRID, Z, M
      and bytes. */
  lemma CmpInDimension(key: (seq<byte>, int) -> Option<nat>, a: Serialized, b: Serialized)
    requires OneDimension(a, b)
    ensures Cmp(key, a, b) ==
            if Rank(key, a) != Rank(key, b) then Sign(Rank(key, a) > Rank(key, b))
            else if Srid(a) != Srid(b) then Sign(Srid(a) > Srid(b))
            else if a.flags.z != b.flags.z then Sign(a.flags.z)
            else if a.flags.m != b.flags.m then Sign(a.flags.m)
            else Memcmp(Payload(a), Payload(b))
  {
    hide Memcmp, Srid, HeaderSize, Check, Payload;
    MemcmpTellsApart(a, b);
    SridTellsApart(a, b);
    MemcmpRange(Payload(a), Payload(b));
  }

  lemma {:induction false} MemcmpRange(a: seq<byte>, b: seq<byte>)
    ensures -1 <= Memcmp(a, b) <= 1
  {
    if a != [] && b != [] && a[0] == b[0] {
      MemcmpRange(a[1..], b[1..]);
    }
  }

  /** `Cmp` is zero exactly on values with the same SRID, the same Z and M and the same payload. */
  lemma CmpZeroIsEquality(key: (seq<byte>, int) -> Option<nat>, a: Serialized, b: Serialized)
    requires OneDimension(a, b)
    ensures Cmp(key, a, b) == 0 <==>
            && Payload(a) == Payload(b) && Srid(a) == Srid(b)
            && a.flags.z == b.flags.z && a.flags.m == b.flags.m
  {
    hide Memcmp, Srid, HeaderSize, Check, Payload, Cmp;
    CmpInDimension(key, a, b);
    MemcmpTellsApart(a, b);
  }

  lemma CmpSwaps(key: (seq<byte>, int) -> Option<nat>, a: Serialized, b: Serialized)
    requires OneDimension(a, b)
    ensures Cmp(key, a, b) == -Cmp(key, b, a)
  {
    hide Memcmp, Srid, HeaderSize, Check, Payload, Cmp;
    CmpInDimension(key, a, b);
    CmpInDimension(key, b, a);
    MemcmpSwaps(Payload(a), Payload(b));
  }

  /** `Cmp` is transitive among values of one dimension count. */
  lemma CmpTransitive(key: (seq<byte>, int) -> Option<nat>, a: Serialized, b: Serialized, c: Serialized)
    requires OneDimension(a, b) && OneDimension(b, c)
    requires Cmp(key, a, b) <= 0 && Cmp(key, b, c) <= 0
    ensures Cmp(key, a, c) <= 0
    ensures Cmp(key, a, c) == 0 ==> Cmp(key, a, b) == 0 && Cmp(key, b, c) == 0
  {
    hide Memcmp, Srid, HeaderSize, Check, Payload, Cmp;
    CmpInDimension(key, a, b);
    CmpInDimension(key, b, c);
    CmpInDimension(key, a, c);
    var p, q, r := Payload(a), Payload(b), Payload(c);
    MemcmpTellsApart(a, b);
    MemcmpTellsApart(b, c);
    if Memcmp(p, q) < 0 && Memcmp(q, r) < 0 {
      MemcmpTrans(p, q, r);
    }
  }

  // ----- beyond one dimension count

  /** Version 2 flags without box and extension. */
  predicate Plain(flags: Flags) {
    flags.version && !flags.bbox && !flags.extended
  }

  /** A geometry of one point at the origin. */
  function Origin(kind: nat, nd: nat): Geom {
    Simple(kind, Block(1, seq(8 * nd, _ => 0 as byte)))
  }

  function OriginValue(kind: nat, flags: Flags, srid: byte): Serialized
    requires IsSimple(kind)
  {
    Serialized([0, 0, srid], flags, Encode(Origin(kind, NDims(flags)), NDims(flags)))
  }

  lemma OriginIsStored(kind: nat, flags: Flags, srid: byte)
    requires IsSimple(kind) && Plain(flags)
    ensures Stored(OriginValue(kind, flags, srid))
  {
    var nd := NDims(flags);
    WrittenIsChecked(Origin(kind, nd), [], nd);
    EncodedSize(Origin(kind, nd), nd);
    assert Encode(Origin(kind, nd), nd) + [] == Encode(Origin(kind, nd), nd);
  }

  /** A value whose payload is a proper prefix of another's comes first, whatever the SRIDs. */
  lemma PrefixComesFirst(key: (seq<byte>, int) -> Option<nat>, a: Serialized, b: Serialized)
    requires Stored(a) && Stored(b)
    requires key(Payload(a), Srid(a)) == key(Payload(b), Srid(b))
    requires Payload(a) < Payload(b)
    ensures Cmp(key, a, b) == -1
  {
    hide Memcmp, Srid, HeaderSize, Check, Payload;
    var p, q := Payload(a), Payload(b);
    assert p == q[..|p|];
    PrefixMemcmp(p, q);
  }

  /** Payloads that differ within their common length are ordered by SRID first. */
  lemma SmallerSridComesFirst(key: (seq<byte>, int) -> Option<nat>, a: Serialized, b: Serialized)
    requires Stored(a) && Stored(b)
    requires key(Payload(a), Srid(a)) == key(Payload(b), Srid(b))
    requires Memcmp(Payload(a), Payload(b)) != 0 && Srid(a) < Srid(b)
    ensures Cmp(key, a, b) == -1
  {
    hide Memcmp, Srid, HeaderSize, Check, Payload;
    SridTellsApart(a, b);
  }

  /** The payload of a point at the origin starts with its type and goes on in zeros. */
  lemma OriginPayload(kind: nat, flags: Flags, srid: byte)
    requires IsSimple(kind) && Plain(flags)
    ensures Payload(OriginValue(kind, flags, srid)) ==
            Bytes4(kind) + (Bytes4(1) + seq(8 * NDims(flags), _ => 0 as byte))
    ensures Srid(OriginValue(kind, flags, srid)) == Val(srid)
  {
  }

  function SameKey(payload: seq<byte>, srid: int): Option<nat> {
    Some(0)
  }

  /** Across SRIDs and dimension counts together the comparison runs in a circle: a line comes
      before the line of more dimensions it is a prefix of, which comes before a point of a
      larger SRID and fewer dimensions, which comes before the first line, of a still larger
      SRID. */
  lemma CmpCycles(f: Flags, g: Flags)
    requires Plain(f) && Plain(g) && NDims(f) < NDims(g)
    ensures Stored(OriginValue(LINETYPE, f, 3))
    ensures Stored(OriginValue(LINETYPE, g, 1))
    ensures Stored(OriginValue(POINTTYPE, f, 2))
    ensures Cmp(SameKey, OriginValue(LINETYPE, f, 3), OriginValue(LINETYPE, g, 1)) < 0
    ensures Cmp(SameKey, OriginValue(LINETYPE, g, 1), OriginValue(POINTTYPE, f, 2)) < 0
    ensures Cmp(SameKey, OriginValue(POINTTYPE, f, 2), OriginValue(LINETYPE, f, 3)) < 0
  {
    hide Cmp, Memcmp, Srid, HeaderSize, Check, Payload, OriginValue, Bytes4, NDims, Stored, Plain;
    var few, many := 8 * NDims(f), 8 * NDims(g);
    OriginIsStored(LINETYPE, f, 3);
    OriginIsStored(LINETYPE, g, 1);
    OriginIsStored(POINTTYPE, f, 2);
    OriginPayload(LINETYPE, f, 3);
    OriginPayload(LINETYPE, g, 1);
    OriginPayload(POINTTYPE, f, 2);
    ZerosNest(LINETYPE, few, many);
    PrefixComesFirst(SameKey, OriginValue(LINETYPE, f, 3), OriginValue(LINETYPE, g, 1));
    TypesDiffer(Bytes4(1) + seq(many, _ => 0 as byte), Bytes4(1) + seq(few, _ => 0 as byte));
    SmallerSridComesFirst(SameKey, OriginValue(LINETYPE, g, 1), OriginValue(POINTTYPE, f, 2));
    TypesDiffer(Bytes4(1) + seq(few, _ => 0 as byte), Bytes4(1) + seq(few, _ => 0 as byte));
    SmallerSridComesFirst(SameKey, OriginValue(POINTTYPE, f, 2), OriginValue(LINETYPE, f, 3));
  }

  lemma ZerosNest(kind: nat, n: nat, m: nat)
    requires kind < UINT32_LIMIT && n < m
    ensures Bytes4(kind) + (Bytes4(1) + seq(n, _ => 0 as byte)) < Bytes4(kind) + (Bytes4(1) + seq(m, _ => 0 as byte))
  {
  }

  lemma TypesDiffer(lineRest: seq<byte>, pointRest: seq<byte>)
    ensures Memcmp(Bytes4(LINETYPE) + lineRest, Bytes4(POINTTYPE) + pointRest) != 0
    ensures Memcmp(Bytes4(POINTTYPE) + pointRest, Bytes4(LINETYPE) + lineRest) != 0
  {
  }

  lemma {:induction false} PrefixMemcmp(a: seq<byte>, b: seq<byte>)
    requires |a| <= |b| && a == b[..|a|]
    ensures Memcmp(a, b) == 0
  {
    if a != [] {
      assert a[1..] == b[1..][..|a| - 1];
      PrefixMemcmp(a[1..], b[1..]);
    }
  }

  // ----- the exact condition

  /** Whether points have Z, and whether they have M. */
  datatype ZM = ZM(z: bool, m: bool)

  function DimensionsOf(c: ZM): nat {
    2 + (if c.z then 1 else 0) + (if c.m then 1 else 0)
  }

  ghost predicate Within(classes: set<ZM>, a: Serialized) {
    Stored(a) && ZM(a.flags.z, a.flags.m) in classes
  }

  /** `Cmp` orders all stored values of the given classes transitively. */
  ghost predicate Transitive(key: (seq<byte>, int) -> Option<nat>, classes: set<ZM>) {
    forall a, b, c :: Within(classes, a) && Within(classes, b) && Within(classes, c) ==>
                        Cmp(key, a, b) <= 0 && Cmp(key, b, c) <= 0 ==> Cmp(key, a, c) <= 0
  }

  predicate OneCount(classes: set<ZM>) {
    forall c, d :: c in classes && d in classes ==> DimensionsOf(c) == DimensionsOf(d)
  }

  function PlainFlags(c: ZM): (flags: Flags)
    ensures Plain(flags) && flags.z == c.z && flags.m == c.m
  {
    Flags(c.z, c.m, false, false, false, true)
  }

  /** Two classes of different dimension counts hold a circle. */
  lemma CircleWithin(classes: set<ZM>, c: ZM, d: ZM)
    requires c in classes && d in classes && DimensionsOf(c) < DimensionsOf(d)
    ensures !Transitive(SameKey, classes)
  {
    hide Cmp, Check, Payload, HeaderSize, Srid, Encode;
    var f, g := PlainFlags(c), PlainFlags(d);
    var line, longer, point := OriginValue(LINETYPE, f, 3), OriginValue(LINETYPE, g, 1), OriginValue(POINTTYPE, f, 2);
    CmpCycles(f, g);
    CmpSwaps(SameKey, line, point);
    assert Within(classes, line) && Within(classes, longer) && Within(classes, point);
  }

  /** The values of a set of Z/M classes are ordered transitively, whatever the key, exactly
      when all classes have one dimension count. */
  lemma TransitiveExactly(classes: set<ZM>, key: (seq<byte>, int) -> Option<nat>)
    ensures OneCount(classes) ==> Transitive(key, classes)
    ensures Transitive(SameKey, classes) ==> OneCount(classes)
  {
    hide Cmp, Check, Payload, HeaderSize, Srid;
    if OneCount(classes) {
      forall a, b, c | && Within(classes, a) && Within(classes, b) && Within(classes, c)
                       && Cmp(key, a, b) <= 0 && Cmp(key, b, c) <= 0
        ensures Cmp(key, a, c) <= 0
      {
        CmpTransitive(key, a, b, c);
      }
    }
    if c, d :| c in classes && d in classes && DimensionsOf(c) < DimensionsOf(d) {
      CircleWithin(classes, c, d);
    }
  }
}
