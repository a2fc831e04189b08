/** Which types a collection holds, and the bytes of collections of them. */
module CollectionTypes {
  import opened Common
  import opened Gserialized2
  import opened Gserialized2Laws

  // ----- types

  /** Types of one connected geometry. */
  predicate IsUnitary(kind: nat) {
    || kind == POINTTYPE || kind == LINETYPE || kind == POLYGONTYPE || kind == CURVEPOLYTYPE || kind == COMPOUNDTYPE
    || kind == CIRCSTRINGTYPE || kind == NURBSCURVETYPE || kind == TRIANGLETYPE || kind == POLYHEDRALSURFACETYPE
    || kind == TINTYPE
  }

  /** The topological dimension of a type whose surfaces are not closed; none for a collection
      of anything. */
  function Dimension(kind: nat): Option<nat> {
    if kind == POINTTYPE || kind == MULTIPOINTTYPE then Some(0)
    else if kind == CIRCSTRINGTYPE || kind == LINETYPE || kind == COMPOUNDTYPE then Some(1)
    else if kind == MULTICURVETYPE || kind == MULTILINETYPE || kind == NURBSCURVETYPE then Some(1)
    else if kind == TRIANGLETYPE || kind == POLYGONTYPE || kind == CURVEPOLYTYPE then Some(2)
    else if kind == MULTISURFACETYPE || kind == MULTIPOLYGONTYPE then Some(2)
    else if kind == TINTYPE || kind == POLYHEDRALSURFACETYPE then Some(2)
    else None
  }

  /** Every type is allowed in the homogeneous collection that can hold it. */
  lemma HomogeneousIsAllowed(kind: nat)
    ensures IsCollection(CollectionTypeOf(kind)) && AllowsSubtype(CollectionTypeOf(kind), kind)
    ensures AllowsSubtype(COLLECTIONTYPE, kind)
  {
  }

  /** Apart from collections of anything, a collection allows exactly the types that it is the
      homogeneous collection of; single curves, in the three types made of curves, though no
      compound curve in another; and polygons, in the two types made of faces. */
  lemma AllowedExactly(kind: nat, subtype: nat)
    requires kind != COLLECTIONTYPE
    ensures AllowsSubtype(kind, subtype) <==>
            || kind == CollectionTypeOf(subtype)
            || (IsUnitary(subtype) && Dimension(subtype) == Some(1)
                && (kind == CURVEPOLYTYPE || kind == MULTICURVETYPE
                    || (kind == COMPOUNDTYPE && !IsCollection(subtype))))
            || (subtype == POLYGONTYPE && (kind == MULTISURFACETYPE || kind == POLYHEDRALSURFACETYPE))
  {
  }

  /** Members have the dimension of their collection, except that rings of curves bound a
      surface. */
  lemma MembersHaveDimension(kind: nat, subtype: nat)
    requires AllowsSubtype(kind, subtype) && kind != COLLECTIONTYPE
    ensures IsCollection(kind) && Dimension(subtype).Some?
    ensures Dimension(subtype) == (if kind == CURVEPOLYTYPE then Some(1) else Dimension(kind))
  {
  }

  // ----- bytes

  function Joined(members: seq<seq<byte>>): seq<byte> {
    if members == [] then [] else members[0] + Joined(members[1..])
  }

  /** Each member is a valid payload of its own. */
  ghost predicate Valid(members: seq<seq<byte>>, nd: nat) {
    forall i :: 0 <= i < |members| ==> Check(members[i], nd) == Some(|members[i]|)
  }

  ghost predicate Allowed(members: seq<seq<byte>>, kind: nat, nd: nat)
    requires Valid(members, nd)
  {
    forall i :: 0 <= i < |members| ==> AllowsSubtype(kind, Word(members[i], 0))
  }

  function CollectionOf(kind: nat, members: seq<seq<byte>>): (b: seq<byte>)
    requires kind < UINT32_LIMIT && |members| < UINT32_LIMIT
    ensures |b| >= 8
  {
    Bytes4(kind) + (Bytes4(|members|) + Joined(members))
  }

  ghost function GeomsOf(members: seq<seq<byte>>, nd: nat): (geoms: seq<Geom>)
    requires Valid(members, nd)
    ensures |geoms| == |members|
    ensures forall i :: 0 <= i < |geoms| ==> Decode(members[i], nd) == Done(geoms[i], |members[i]|)
  {
    if members == [] then []
    else
      CheckedReads(members[0], nd);
      [Decode(members[0], nd).value] + GeomsOf(members[1..], nd)
  }

  /** A member in front of others is measured as it is alone. */
  lemma FirstMember(member: seq<byte>, rest: seq<byte>, nd: nat)
    requires Check(member, nd) == Some(|member|)
    ensures Check(member + rest, nd) == Some(|member|)
    ensures Decode(member, nd).Done? && Decode(member + rest, nd) == Decode(member, nd)
    ensures |member| >= 8 && Word(member + rest, 0) == Word(member, 0)
    ensures (member + rest)[|member|..] == rest
  {
    hide Check, Decode, Word;
    var b := member + rest;
    assert b[..|member|] == member == member[..|member|];
    CheckLocal(member, b, nd);
    CheckedReads(member, nd);
    ReadLocal(member, b, nd);
    AgreeWord(member, b, |member|, 0);
  }

  lemma {:induction false} MembersAreRead(members: seq<seq<byte>>, kind: nat, nd: nat)
    requires Valid(members, nd)
    ensures Allowed(members, kind, nd) ==>
              && CheckMany(Joined(members), |members|, kind, nd) == Some(|Joined(members)|)
              && DecodeMany(Joined(members), |members|, kind, nd) == Done(GeomsOf(members, nd), |Joined(members)|)
    ensures !Allowed(members, kind, nd) ==> CheckMany(Joined(members), |members|, kind, nd).None?
  {
    hide Check, Decode, Word, AllowsSubtype;
    if members != [] {
      var rest := members[1..];
      FirstMember(members[0], Joined(rest), nd);
      MembersAreRead(rest, kind, nd);
      assert Allowed(members, kind, nd) <==> AllowsSubtype(kind, Word(members[0], 0)) && Allowed(rest, kind, nd) by {
        assert forall i :: 0 <= i < |rest| ==> rest[i] == members[i + 1];
        assert forall i :: 0 < i < |members| ==> members[i] == rest[i - 1];
      }
    }
  }

  lemma HeadOfCollection(kind: nat, members: seq<seq<byte>>)
    requires kind < UINT32_LIMIT && |members| < UINT32_LIMIT
    ensures var b := CollectionOf(kind, members);
      Word(b, 0) == kind && Word(b, 4) == |members| && b[8..] == Joined(members)
  {
    hide Joined;
  }

  lemma CollectionUnfolds(b: seq<byte>, nd: nat)
    requires |b| >= 8 && IsCollection(Word(b, 0))
    ensures var r := CheckMany(b[8..], Word(b, 4), Word(b, 0), nd);
      Check(b, nd) == if r.None? then None else Fitting(b, 8 + r.value)
    ensures var r := DecodeMany(b[8..], Word(b, 4), Word(b, 0), nd);
      r.Done? ==> Decode(b, nd) == Done(Collection(Word(b, 0), r.value), 8 + r.size)
  {
    hide Word, CheckMany, DecodeMany, CheckPolygon, CheckNurbs, DecodeSimple, DecodePolygon, DecodeNurbs, PointBytes;
  }

  /** The bytes of a collection of valid members are valid, and read back as the collection of
      what the members read as, exactly when the collection allows all their types. */
  lemma CollectionIsRead(kind: nat, members: seq<seq<byte>>, nd: nat)
    requires IsCollection(kind) && |members| < UINT32_LIMIT && Valid(members, nd)
    ensures var b := CollectionOf(kind, members);
      && (Check(b, nd).Some? <==> Allowed(members, kind, nd))
      && (Allowed(members, kind, nd) ==>
            && Check(b, nd) == Some(|b|)
            && Decode(b, nd) == Done(Collection(kind, GeomsOf(members, nd)), |b|))
  {
    var b := CollectionOf(kind, members);
    HeadOfCollection(kind, members);
    assert |b| == 8 + |Joined(members)|;
    hide Word, Allowed, CollectionOf, Joined, GeomsOf, CheckMany, DecodeMany, Check, Decode, Valid, IsCollection;
    CollectionUnfolds(b, nd);
    MembersAreRead(members, kind, nd);
  }

  /** In particular the homogeneous collection of its members, of any type, and a collection of
      anything. */
  lemma HomogeneousIsRead(kind: nat, members: seq<seq<byte>>, nd: nat)
    requires IsCollection(kind) && |members| < UINT32_LIMIT && Valid(members, nd)
    requires kind == COLLECTIONTYPE ||
             forall i :: 0 <= i < |members| ==> CollectionTypeOf(Word(members[i], 0)) == kind
    ensures var b := CollectionOf(kind, members);
      Check(b, nd) == Some(|b|) && Decode(b, nd) == Done(Collection(kind, GeomsOf(members, nd)), |b|)
  {
    hide Check, Decode, Word, AllowsSubtype, CollectionTypeOf, IsCollection;
    forall i | 0 <= i < |members|
      ensures AllowsSubtype(kind, Word(members[i], 0))
    {
      HomogeneousIsAllowed(Word(members[i], 0));
    }
    CollectionIsRead(kind, members, nd);
  }

  // ----- codes and bytes as stored

  /** The subtypes of every collection, by the codes that the format stores. */
  lemma SubtypeCodes(subtype: nat)
    ensures AllowsSubtype(4, subtype) <==> subtype == 1
    ensures AllowsSubtype(5, subtype) <==> subtype == 2
    ensures AllowsSubtype(6, subtype) <==> subtype == 3
    ensures AllowsSubtype(7, subtype)
    ensures AllowsSubtype(9, subtype) <==> subtype == 2 || subtype == 8 || subtype == 16
    ensures AllowsSubtype(10, subtype) <==> subtype == 2 || subtype == 8 || subtype == 9 || subtype == 16
    ensures AllowsSubtype(11, subtype) <==> subtype == 2 || subtype == 8 || subtype == 9 || subtype == 16
    ensures AllowsSubtype(12, subtype) <==> subtype == 3 || subtype == 10
    ensures AllowsSubtype(13, subtype) <==> subtype == 3
    ensures AllowsSubtype(15, subtype) <==> subtype == 14
  {
  }

  /** Eight bytes of a type and a count of zero are valid for every type but the last. */
  lemma EmptyPayloads(kind: nat, nd: nat)
    requires kind < UINT32_LIMIT
    ensures Check(Bytes4(kind) + Bytes4(0), nd) == Some(8) <==> 1 <= kind <= 15
  {
    var b := Bytes4(kind) + Bytes4(0);
    HeadOfCollection(kind, []);
    assert Bytes4(0) + [] == Bytes4(0) && CollectionOf(kind, []) == b;
    assert PointBytes(0, nd) == 0;
    hide Word, Bytes4, PointBytes;
  }

  lemma SmallWord(n: nat)
    requires n < 0x100
    ensures Bytes4(n) == [n, 0, 0, 0]
  {
  }

  /** The 56 bytes of a multipoint of two planar points. */
  lemma TwoPoints(p: seq<byte>, q: seq<byte>)
    requires |p| == |q| == 16
    ensures var head: seq<byte> := [1, 0, 0, 0, 1, 0, 0, 0];
      var b := [4, 0, 0, 0, 2, 0, 0, 0] + ((head + p) + (head + q));
      && |b| == 56 && Check(b, 2) == Some(56)
      && Decode(b, 2) == Done(Collection(4, [Simple(1, Block(1, p)), Simple(1, Block(1, q))]), 56)
  {
    var head: seq<byte> := [1, 0, 0, 0, 1, 0, 0, 0];
    var members := [head + p, head + q];
    PointIsRead(p);
    PointIsRead(q);
    TwoJoined(head + p, head + q);
    SmallWord(4);
    SmallWord(2);
    hide Check, Decode, Word, Bytes4, Joined, GeomsOf;
    HomogeneousIsRead(4, members, 2);
    var b := [4, 0, 0, 0, 2, 0, 0, 0] + ((head + p) + (head + q));
    assert CollectionOf(4, members) == b;
    var geoms := GeomsOf(members, 2);
    assert Decode(members[0], 2) == Done(geoms[0], 24) && Decode(members[1], 2) == Done(geoms[1], 24);
    assert geoms == [Simple(1, Block(1, p)), Simple(1, Block(1, q))];
  }

  lemma TwoJoined(a: seq<byte>, b: seq<byte>)
    ensures Joined([a, b]) == a + b
  {
    assert [a, b][1..] == [b];
    assert Joined([b]) == b + Joined([]) == b;
  }

  lemma PointIsRead(ordinates: seq<byte>)
    requires |ordinates| == 16
    ensures var b := [1, 0, 0, 0, 1, 0, 0, 0] + ordinates;
      && Word(b, 0) == 1 && Check(b, 2) == Some(24) && Decode(b, 2) == Done(Simple(1, Block(1, ordinates)), 24)
  {
    var b: seq<byte> := [1, 0, 0, 0, 1, 0, 0, 0] + ordinates;
    assert b[8..24] == ordinates;
  }

  /** The 80 bytes of a polygon with one ring of four points: the ring table is padded to a
      multiple of eight bytes. */
  lemma OneRing(ordinates: seq<byte>)
    requires |ordinates| == 64
    ensures var b := [3, 0, 0, 0, 1, 0, 0, 0, 4, 0, 0, 0, 0, 0, 0, 0] + ordinates;
      Check(b, 2) == Some(80) && Decode(b, 2) == Done(Polygon([Block(4, ordinates)]), 80)
  {
    var ring := Block(4, ordinates);
    var g := Polygon([ring]);
    var b: seq<byte> := [3, 0, 0, 0, 1, 0, 0, 0, 4, 0, 0, 0, 0, 0, 0, 0] + ordinates;
    OneRingBytes(ring);
    SmallWord(3);
    SmallWord(1);
    SmallWord(0);
    hide Bytes4, RingTable, Ordinates;
    assert Encode(g, 2) == b && b + [] == b;
    hide Encode, Check, Decode;
    WrittenIsChecked(g, [], 2);
    DecodeWritten(g, [], 2);
  }

  lemma OneRingBytes(ring: Block)
    requires ring.count == 4
    ensures RingTable([ring]) == [4, 0, 0, 0] && Ordinates([ring]) == ring.bytes
    ensures RingsSize([ring], 2) == 68
  {
    var none: seq<Block> := [];
    assert [ring][1..] == none;
    SmallWord(4);
    assert RingTable(none) == [] && Ordinates(none) == [];
  }
}
