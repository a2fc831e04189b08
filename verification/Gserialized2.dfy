/** The payload of GSERIALIZED version 2: sizes, bytes, validation and reading, as values. */
module Gserialized2 {
  import opened Common

  /** `count` items of a fixed width, as they lie in memory: points of a point array, or
      doubles of a weight or knot vector. */
  datatype Block = Block(count: nat, bytes: seq<byte>)

  datatype Geom =
    | Simple(kind: nat, points: Block)
    | Polygon(rings: seq<Block>)
    | Collection(kind: nat, geoms: seq<Geom>)
    | Nurbs(degree: nat, weights: Block, knots: Block, control: Block)

  /** Types stored as one point array. */
  predicate IsSimple(kind: nat) {
    kind == POINTTYPE || kind == LINETYPE || kind == CIRCSTRINGTYPE || kind == TRIANGLETYPE
  }

  function Kind(g: Geom): nat {
    match g
    case Simple(kind, _) => kind
    case Polygon(_) => POLYGONTYPE
    case Collection(kind, _) => kind
    case Nurbs(_, _, _, _) => NURBSCURVETYPE
  }

  // ----- little-endian words and IEEE-754 doubles

  function Word(b: seq<byte>, at: nat): (n: nat)
    requires at + 4 <= |b|
    ensures n < UINT32_LIMIT
  {
    Val(b[at]) + 0x100 * Val(b[at + 1]) + 0x1_0000 * Val(b[at + 2]) + 0x100_0000 * Val(b[at + 3])
  }

  function Val(b: byte): nat {
    b
  }

  function Bytes4(n: nat): (b: seq<byte>)
    requires n < UINT32_LIMIT
    ensures |b| == 4
  {
    var n1 := n / 0x100;
    var n2 := n1 / 0x100;
    [n % 0x100, n1 % 0x100, n2 % 0x100, n2 / 0x100]
  }

  lemma WordOfBytes(n: nat, rest: seq<byte>)
    requires n < UINT32_LIMIT
    ensures Word(Bytes4(n) + rest, 0) == n
  {
  }

  /** A word depends on its four bytes alone. */
  lemma WordLocal(a: seq<byte>, b: seq<byte>, at: nat)
    requires at + 4 <= |a| && at + 4 <= |b| && a[at..at + 4] == b[at..at + 4]
    ensures Word(a, at) == Word(b, at)
  {
    var x, y := a[at..at + 4], b[at..at + 4];
    assert x[0] == y[0] && x[1] == y[1] && x[2] == y[2] && x[3] == y[3];
  }

  /** Sign and magnitude of the double at index `i`, compared as one integer. */
  function DoubleKey(b: seq<byte>, i: nat): int
    requires 8 * i + 8 <= |b|
  {
    var at := 8 * i;
    var magnitude :=
      Word(b, at) + UINT32_LIMIT *
        (Val(b[at + 4]) + 0x100 * Val(b[at + 5]) + 0x1_0000 * Val(b[at + 6]) + 0x100_0000 * (Val(b[at + 7]) % 0x80));
    if b[at + 7] >= 0x80 then -magnitude else magnitude
  }

  /** The magnitude of infinity; anything above is not a number. */
  const INFINITY_KEY: int := 0x7FF0_0000_0000_0000

  predicate IsFinite(b: seq<byte>, i: nat)
    requires 8 * i + 8 <= |b|
  {
    -INFINITY_KEY < DoubleKey(b, i) < INFINITY_KEY
  }

  predicate IsNan(b: seq<byte>, i: nat)
    requires 8 * i + 8 <= |b|
  {
    DoubleKey(b, i) > INFINITY_KEY || DoubleKey(b, i) < -INFINITY_KEY
  }

  /** The comparison `<` of doubles: false whenever an operand is not a number. */
  predicate DoubleLess(b: seq<byte>, i: nat, j: nat)
    requires 8 * i + 8 <= |b| && 8 * j + 8 <= |b|
  {
    !IsNan(b, i) && !IsNan(b, j) && DoubleKey(b, i) < DoubleKey(b, j)
  }

  predicate PositiveWeights(b: seq<byte>, n: nat)
    requires 8 * n <= |b|
  {
    forall i :: 0 <= i < n ==> IsFinite(b, i) && DoubleKey(b, i) > 0
  }

  /** A finite knot that is not below the one before it. */
  predicate KnotRises(b: seq<byte>, i: nat)
    requires 0 < i && 8 * i + 8 <= |b|
  {
    IsFinite(b, i) && !DoubleLess(b, i, i - 1)
  }

  predicate RisingKnots(b: seq<byte>, n: nat)
    requires 8 * n <= |b|
  {
    forall i :: 0 < i < n ==> KnotRises(b, i)
  }

  predicate NurbsCounts(npoints: nat, degree: nat, nweights: nat, nknots: nat) {
    && 1 <= degree <= 10
    && (if npoints == 0 then
          nweights == 0 && nknots == 0
        else
          && npoints >= degree + 1
          && (nweights > 0 ==> nweights == npoints)
          && (nknots > 0 ==> nknots == npoints + degree + 1))
  }

  /** The NURBS invariants, as the validator and the reader both test them. */
  predicate ValidNurbs(npoints: nat, degree: nat, weights: Block, knots: Block)
    requires |weights.bytes| == 8 * weights.count && |knots.bytes| == 8 * knots.count
  {
    && NurbsCounts(npoints, degree, weights.count, knots.count)
    && (npoints > 0 ==> PositiveWeights(weights.bytes, weights.count) && RisingKnots(knots.bytes, knots.count))
  }

  /** Bytes of `count` points of `nd` ordinates. */
  function PointBytes(count: nat, nd: nat): nat {
    count * (8 * nd)
  }

  // ----- writing

  function Padding(nrings: nat): (pad: seq<byte>)
    ensures |pad| == if nrings % 2 == 0 then 0 else 4
  {
    if nrings % 2 == 0 then [] else Bytes4(0)
  }

  predicate SmallCounts(rings: seq<Block>) {
    forall i :: 0 <= i < |rings| ==> rings[i].count < UINT32_LIMIT
  }

  function RingTable(rings: seq<Block>): (table: seq<byte>)
    requires SmallCounts(rings)
    ensures |table| == 4 * |rings|
  {
    if rings == [] then [] else Bytes4(rings[0].count) + RingTable(rings[1..])
  }

  function Ordinates(rings: seq<Block>): seq<byte> {
    if rings == [] then [] else rings[0].bytes + Ordinates(rings[1..])
  }

  /** A block whose items take `size` bytes. */
  predicate Sized(block: Block, size: nat) {
    block.count < UINT32_LIMIT && |block.bytes| == size
  }

  /** Well-formed geometries of `nd` ordinates a point: sizes fit their fields, members
      are allowed in their collections, and NURBS vectors are valid. */
  predicate WellFormed(g: Geom, nd: nat) {
    match g
    case Simple(kind, points) =>
      IsSimple(kind) && Sized(points, PointBytes(points.count, nd)) && (kind == POINTTYPE ==> points.count <= 1)
    case Polygon(rings) =>
      |rings| < UINT32_LIMIT && forall i :: 0 <= i < |rings| ==> Sized(rings[i], PointBytes(rings[i].count, nd))
    case Collection(kind, geoms) =>
      && IsCollection(kind) && |geoms| < UINT32_LIMIT
      && forall i :: 0 <= i < |geoms| ==> AllowsSubtype(kind, Kind(geoms[i])) && WellFormed(geoms[i], nd)
    case Nurbs(degree, weights, knots, control) =>
      && Sized(weights, 8 * weights.count) && Sized(knots, 8 * knots.count)
      && Sized(control, PointBytes(control.count, nd))
      && ValidNurbs(control.count, degree, weights, knots)
  }

  /** The fixed part of a NURBS payload, padded to a multiple of eight bytes. */
  function NurbsHead(npoints: nat, degree: nat, nweights: nat, nknots: nat): (b: seq<byte>)
    requires npoints < UINT32_LIMIT && degree < UINT32_LIMIT && nweights < UINT32_LIMIT && nknots < UINT32_LIMIT
    ensures |b| == 24
  {
    Bytes4(NURBSCURVETYPE) + (Bytes4(npoints) + (Bytes4(degree) + (Bytes4(nweights) + (Bytes4(nknots) + Bytes4(0)))))
  }

  /** The bytes written for a geometry. */
  function Encode(g: Geom, nd: nat): (b: seq<byte>)
    requires WellFormed(g, nd)
    ensures |b| >= 8
    decreases g
  {
    match g
    case Simple(kind, points) =>
      Bytes4(kind) + (Bytes4(points.count) + points.bytes)
    case Polygon(rings) =>
      Bytes4(POLYGONTYPE) + (Bytes4(|rings|) + (RingTable(rings) + (Padding(|rings|) + Ordinates(rings))))
    case Collection(kind, geoms) =>
      Bytes4(kind) + (Bytes4(|geoms|) + EncodeAll(geoms, kind, nd))
    case Nurbs(degree, weights, knots, control) =>
      NurbsHead(control.count, degree, weights.count, knots.count) + (weights.bytes + (knots.bytes + control.bytes))
  }

  predicate Members(geoms: seq<Geom>, kind: nat, nd: nat) {
    forall i :: 0 <= i < |geoms| ==> AllowsSubtype(kind, Kind(geoms[i])) && WellFormed(geoms[i], nd)
  }

  function EncodeAll(geoms: seq<Geom>, kind: nat, nd: nat): seq<byte>
    requires Members(geoms, kind, nd)
    decreases geoms
  {
    if geoms == [] then [] else Encode(geoms[0], nd) + EncodeAll(geoms[1..], kind, nd)
  }

  // ----- sizes

  function RingsSize(rings: seq<Block>, nd: nat): nat {
    if rings == [] then 0 else 4 + PointBytes(rings[0].count, nd) + RingsSize(rings[1..], nd)
  }

  /** The number of bytes reserved for a geometry. */
  function Size(g: Geom, nd: nat): nat
    decreases g
  {
    match g
    case Simple(kind, points) => 8 + PointBytes(points.count, nd)
    case Polygon(rings) => 8 + (if |rings| % 2 == 0 then 0 else 4) + RingsSize(rings, nd)
    case Collection(kind, geoms) => 8 + SizeAll(geoms, nd)
    case Nurbs(degree, weights, knots, control) =>
      24 + 8 * weights.count + 8 * knots.count + PointBytes(control.count, nd)
  }

  function SizeAll(geoms: seq<Geom>, nd: nat): nat
    decreases geoms
  {
    if geoms == [] then 0 else Size(geoms[0], nd) + SizeAll(geoms[1..], nd)
  }

  // ----- validating

  /** Bytes of the ordinates that a ring table of `count` entries announces. */
  function TableBytes(b: seq<byte>, count: nat, nd: nat): nat
    requires 4 * count <= |b|
  {
    if count == 0 then 0 else PointBytes(Word(b, 0), nd) + TableBytes(b[4..], count - 1, nd)
  }

  /** The size of the geometry at the start of `b`, if there is a valid one. */
  function Check(b: seq<byte>, nd: nat): (r: Option<nat>)
    ensures r.Some? ==> 8 <= r.value <= |b|
    decreases |b|, 0
  {
    if |b| < 8 then None
    else
      var kind, count := Word(b, 0), Word(b, 4);
      if IsSimple(kind) then
        if kind == POINTTYPE && count > 1 then None else Fitting(b, 8 + PointBytes(count, nd))
      else if kind == POLYGONTYPE then CheckPolygon(b, count, nd)
      else if IsCollection(kind) then
        var r := CheckMany(b[8..], count, kind, nd);
        if r.None? then None else Fitting(b, 8 + r.value)
      else if kind == NURBSCURVETYPE then CheckNurbs(b, count, nd)
      else None
  }

  /** Bytes from the start of a polygon to its first ordinate. */
  function RingsAt(count: nat): nat {
    8 + 4 * count + if count % 2 == 0 then 0 else 4
  }

  function CheckPolygon(b: seq<byte>, count: nat, nd: nat): Option<nat>
    requires |b| >= 8
  {
    if |b| < RingsAt(count) then None
    else Fitting(b, RingsAt(count) + TableBytes(b[8..], count, nd))
  }

  function CheckNurbs(b: seq<byte>, count: nat, nd: nat): (r: Option<nat>)
    requires |b| >= 8
    ensures r.Some? ==> r.value >= 24
  {
    if |b| < 24 then None
    else
      var degree, nweights, nknots := Word(b, 8), Word(b, 12), Word(b, 16);
      var size := 24 + 8 * nweights + 8 * nknots + PointBytes(count, nd);
      if |b| < size then None
      else
        var weights := Block(nweights, b[24..24 + 8 * nweights]);
        var knots := Block(nknots, b[24 + 8 * nweights..24 + 8 * nweights + 8 * nknots]);
        if !ValidNurbs(count, degree, weights, knots) then None else Fitting(b, size)
  }

  function Fitting(b: seq<byte>, size: nat): (r: Option<nat>)
    ensures r == if size <= |b| then Some(size) else None
  {
    if size <= |b| then Some(size) else None
  }

  function CheckMany(b: seq<byte>, count: nat, kind: nat, nd: nat): (r: Option<nat>)
    ensures r.Some? ==> r.value <= |b|
    decreases |b|, 1, count
  {
    if count == 0 then Some(0)
    else if |b| < 4 || !AllowsSubtype(kind, Word(b, 0)) then None
    else
      var first := Check(b, nd);
      if first.None? then None
      else
        var others := CheckMany(b[first.value..], count - 1, kind, nd);
        if others.None? then None else Some(first.value + others.value)
  }

  // ----- reading

  datatype Read<T> = OutOfBounds | Invalid | Done(value: T, size: nat)

  function ReadBlock(b: seq<byte>, at: nat, count: nat, size: nat): (r: Option<Block>)
    ensures r.Some? ==> r.value.count == count && |r.value.bytes| == size
  {
    if at + size <= |b| then Some(Block(count, b[at..at + size])) else None
  }

  /** The rings announced by `table`, whose ordinates start at `at` in `b`. */
  function ReadRings(table: seq<byte>, count: nat, b: seq<byte>, at: nat, nd: nat): (r: Read<seq<Block>>)
    requires 4 * count <= |table|
    ensures !r.Invalid?
    decreases count
  {
    if count == 0 then Done([], 0)
    else
      var npoints := Word(table, 0);
      var ring := ReadBlock(b, at, npoints, PointBytes(npoints, nd));
      if ring.None? then OutOfBounds
      else
        var others := ReadRings(table[4..], count - 1, b, at + PointBytes(npoints, nd), nd);
        if !others.Done? then others
        else Done([ring.value] + others.value, PointBytes(npoints, nd) + others.size)
  }

  /** Reads one geometry.  The reader itself checks no bounds; where it would leave `b`
      the result is `OutOfBounds`. */
  function Decode(b: seq<byte>, nd: nat): (r: Read<Geom>)
    ensures r.Done? ==> r.size >= 8
    decreases |b|, 0
  {
    if |b| < 8 then OutOfBounds
    else
      var kind, count := Word(b, 0), Word(b, 4);
      if IsSimple(kind) then DecodeSimple(b, kind, count, nd)
      else if kind == POLYGONTYPE then DecodePolygon(b, count, nd)
      else if IsCollection(kind) then
        var geoms := DecodeMany(b[8..], count, kind, nd);
        if geoms.Done? then Done(Collection(kind, geoms.value), 8 + geoms.size)
        else if geoms.Invalid? then Invalid
        else OutOfBounds
      else if kind == NURBSCURVETYPE then DecodeNurbs(b, count, nd)
      else Invalid
  }

  function DecodeSimple(b: seq<byte>, kind: nat, count: nat, nd: nat): (r: Read<Geom>)
    ensures r.Done? ==> r.size >= 8
    ensures !r.Invalid?
  {
    var kept := if kind == POINTTYPE && count > 0 then 1 else count;
    var points := ReadBlock(b, 8, kept, PointBytes(kept, nd));
    if points.None? then OutOfBounds
    else Done(Simple(kind, points.value), 8 + PointBytes(count, nd))
  }

  function DecodePolygon(b: seq<byte>, count: nat, nd: nat): (r: Read<Geom>)
    requires |b| >= 8
    ensures r.Done? ==> r.size >= 8
  {
    if |b| < 8 + 4 * count then OutOfBounds
    else
      var rings := ReadRings(b[8..], count, b, RingsAt(count), nd);
      if rings.Done? then Done(Polygon(rings.value), RingsAt(count) + rings.size) else OutOfBounds
  }

  function DecodeNurbs(b: seq<byte>, count: nat, nd: nat): (r: Read<Geom>)
    requires |b| >= 8
    ensures r.Done? ==> r.size >= 8
  {
    if |b| < 24 then OutOfBounds
    else
      var degree, nweights, nknots := Word(b, 8), Word(b, 12), Word(b, 16);
      var weights := ReadBlock(b, 24, nweights, 8 * nweights);
      var knots := ReadBlock(b, 24 + 8 * nweights, nknots, 8 * nknots);
      if weights.None? || knots.None? then OutOfBounds
      else if !ValidNurbs(count, degree, weights.value, knots.value) then Invalid
      else
        var control := ReadBlock(b, 24 + 8 * nweights + 8 * nknots, count, PointBytes(count, nd));
        if control.None? then OutOfBounds
        else Done(Nurbs(degree, weights.value, knots.value, control.value),
                  24 + 8 * nweights + 8 * nknots + PointBytes(count, nd))
  }

  function DecodeMany(b: seq<byte>, count: nat, kind: nat, nd: nat): Read<seq<Geom>>
    decreases |b|, 1, count
  {
    if count == 0 then Done([], 0)
    else if |b| < 4 then OutOfBounds
    else if !AllowsSubtype(kind, Word(b, 0)) then Invalid
    else
      var first := Decode(b, nd);
      if !first.Done? then (if first.Invalid? then Invalid else OutOfBounds)
      else if first.size > |b| then OutOfBounds
      else
        var others := DecodeMany(b[first.size..], count - 1, kind, nd);
        if !others.Done? then others
        else Done([first.value] + others.value, first.size + others.size)
  }
}
