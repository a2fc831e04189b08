/** The size function, the writer, the validator and the reader of GSERIALIZED version 2
    agree. */
module Gserialized2Laws {
  import opened Common
  import opened Gserialized2

  // ----- layout

  lemma TwoWords(kind: nat, count: nat, body: seq<byte>)
    requires kind < UINT32_LIMIT && count < UINT32_LIMIT
    ensures var b := Bytes4(kind) + (Bytes4(count) + body);
      |b| == 8 + |body| && Word(b, 0) == kind && Word(b, 4) == count && b[8..] == body
  {
    var b := Bytes4(kind) + (Bytes4(count) + body);
    WordOfBytes(kind, Bytes4(count) + body);
    WordOfBytes(count, body);
    assert b[4..] == Bytes4(count) + body;
    WordFrom(b, 4, 0);
    assert b[8..] == body;
  }

  /** Word `at` of a suffix is a word of the whole. */
  lemma WordFrom(b: seq<byte>, from: nat, at: nat)
    requires from + at + 4 <= |b|
    ensures Word(b[from..], at) == Word(b, from + at)
  {
  }

  lemma {:induction false} RingBytes(rings: seq<Block>, nd: nat)
    requires forall i :: 0 <= i < |rings| ==> Sized(rings[i], PointBytes(rings[i].count, nd))
    ensures SmallCounts(rings) && |RingTable(rings)| + |Ordinates(rings)| == RingsSize(rings, nd)
  {
    if rings != [] {
      RingBytes(rings[1..], nd);
    }
  }

  /** The writer fills exactly the bytes that the size function reserves. */
  lemma {:induction false} EncodedSize(g: Geom, nd: nat)
    requires WellFormed(g, nd)
    ensures |Encode(g, nd)| == Size(g, nd)
    decreases g
  {
    match g
    case Simple(_, _) =>
    case Polygon(rings) => RingBytes(rings, nd);
    case Collection(kind, geoms) => EncodedSizes(geoms, kind, nd);
    case Nurbs(_, _, _, _) =>
  }

  lemma {:induction false} EncodedSizes(geoms: seq<Geom>, kind: nat, nd: nat)
    requires Members(geoms, kind, nd)
    ensures |EncodeAll(geoms, kind, nd)| == SizeAll(geoms, nd)
    decreases geoms
  {
    if geoms != [] {
      EncodedSize(geoms[0], nd);
      EncodedSizes(geoms[1..], kind, nd);
    }
  }

  // ----- prefixes

  /** `a` and `b` begin with the same `n` bytes. */
  ghost predicate Agree(a: seq<byte>, b: seq<byte>, n: nat) {
    n <= |a| && n <= |b| && a[..n] == b[..n]
  }

  lemma AgreeSlice(a: seq<byte>, b: seq<byte>, n: nat, i: nat, j: nat)
    requires Agree(a, b, n) && i <= j <= n
    ensures a[i..j] == b[i..j]
  {
    assert a[i..j] == a[..n][i..j];
    assert b[i..j] == b[..n][i..j];
  }

  lemma AgreeWord(a: seq<byte>, b: seq<byte>, n: nat, at: nat)
    requires Agree(a, b, n) && at + 4 <= n
    ensures Word(a, at) == Word(b, at)
  {
    AgreeSlice(a, b, n, at, at + 4);
    WordLocal(a, b, at);
  }

  lemma AgreeDrop(a: seq<byte>, b: seq<byte>, n: nat, k: nat, m: nat)
    requires Agree(a, b, n) && k + m <= n
    ensures Agree(a[k..], b[k..], m)
  {
    AgreeSlice(a, b, n, k, k + m);
    assert a[k..][..m] == a[k..k + m];
    assert b[k..][..m] == b[k..k + m];
  }

  lemma {:induction false} TableBytesLocal(a: seq<byte>, b: seq<byte>, count: nat, nd: nat)
    requires Agree(a, b, 4 * count)
    ensures TableBytes(a, count, nd) == TableBytes(b, count, nd)
    decreases count
  {
    if count > 0 {
      AgreeWord(a, b, 4 * count, 0);
      AgreeDrop(a, b, 4 * count, 4, 4 * (count - 1));
      TableBytesLocal(a[4..], b[4..], count - 1, nd);
    }
  }

  /** Validation reads nothing beyond the size it reports. */
  lemma {:induction false} CheckLocal(a: seq<byte>, b: seq<byte>, nd: nat)
    requires Check(a, nd).Some? && Agree(a, b, Check(a, nd).value)
    ensures Check(b, nd) == Check(a, nd)
    decreases |a|, 0
  {
    hide AllowsSubtype, Word, PointBytes, CheckNurbs;
    var n := Check(a, nd).value;
    AgreeWord(a, b, n, 0);
    AgreeWord(a, b, n, 4);
    var kind, count := Word(a, 0), Word(a, 4);
    if IsSimple(kind) {
    } else if kind == POLYGONTYPE {
      AgreeDrop(a, b, n, 8, 4 * count);
      TableBytesLocal(a[8..], b[8..], count, nd);
    } else if IsCollection(kind) {
      var m := CheckMany(a[8..], count, kind, nd).value;
      AgreeDrop(a, b, n, 8, m);
      CheckManyLocal(a[8..], b[8..], count, kind, nd);
    } else {
      CheckNurbsLocal(a, b, count, nd);
    }
  }

  lemma CheckNurbsLocal(a: seq<byte>, b: seq<byte>, count: nat, nd: nat)
    requires |a| >= 8 && |b| >= 8
    requires CheckNurbs(a, count, nd).Some? && Agree(a, b, CheckNurbs(a, count, nd).value)
    ensures CheckNurbs(b, count, nd) == CheckNurbs(a, count, nd)
  {
    hide ValidNurbs, PositiveWeights, RisingKnots, DoubleKey, Word, PointBytes;
    var n := CheckNurbs(a, count, nd).value;
    AgreeWord(a, b, n, 8);
    AgreeWord(a, b, n, 12);
    AgreeWord(a, b, n, 16);
    var nweights, nknots := Word(a, 12), Word(a, 16);
    assert n == 24 + 8 * nweights + 8 * nknots + PointBytes(count, nd);
    AgreeSlice(a, b, n, 24, 24 + 8 * nweights);
    AgreeSlice(a, b, n, 24 + 8 * nweights, 24 + 8 * nweights + 8 * nknots);
  }

  lemma {:induction false} CheckManyLocal(a: seq<byte>, b: seq<byte>, count: nat, kind: nat, nd: nat)
    requires CheckMany(a, count, kind, nd).Some? && Agree(a, b, CheckMany(a, count, kind, nd).value)
    ensures CheckMany(b, count, kind, nd) == CheckMany(a, count, kind, nd)
    decreases |a|, 1, count
  {
    hide AllowsSubtype, Word, PointBytes, Check;
    if count > 0 {
      var n := CheckMany(a, count, kind, nd).value;
      var first := Check(a, nd).value;
      AgreeWord(a, b, n, 0);
      AgreeDrop(a, b, n, 0, first);
      assert a[0..] == a && b[0..] == b;
      CheckLocal(a, b, nd);
      AgreeDrop(a, b, n, first, n - first);
      CheckManyLocal(a[first..], b[first..], count - 1, kind, nd);
    }
  }

  /** No valid payload is a proper prefix of another. */
  lemma PrefixFree(a: seq<byte>, b: seq<byte>, nd: nat)
    requires Check(a, nd) == Some(|a|) && Check(b, nd) == Some(|b|)
    requires |a| <= |b| && a == b[..|a|]
    ensures a == b
  {
    assert Agree(a, b, |a|);
    CheckLocal(a, b, nd);
  }

  // ----- reading what was written

  lemma {:induction false} ReadRingsWritten(rings: seq<Block>, tail: seq<byte>, b: seq<byte>, at: nat, nd: nat)
    requires forall i :: 0 <= i < |rings| ==> Sized(rings[i], PointBytes(rings[i].count, nd))
    requires at + |Ordinates(rings)| <= |b| && b[at..at + |Ordinates(rings)|] == Ordinates(rings)
    ensures SmallCounts(rings)
    ensures ReadRings(RingTable(rings) + tail, |rings|, b, at, nd) == Done(rings, |Ordinates(rings)|)
  {
    hide Word, PointBytes, ReadRings, RingTable, Ordinates;
    if rings != [] {
      var table := RingTable(rings) + tail;
      var size := |rings[0].bytes|;
      FirstRing(rings, tail);
      FirstOrdinates(rings, b, at);
      ReadRingsWritten(rings[1..], tail, b, at + size, nd);
      ReadRingsUnfold(table, |rings|, b, at, nd);
      assert [rings[0]] + rings[1..] == rings;
    } else {
      NoRingsWritten(tail, b, at, nd);
    }
  }

  lemma NoRingsWritten(table: seq<byte>, b: seq<byte>, at: nat, nd: nat)
    ensures ReadRings(RingTable([]) + table, 0, b, at, nd) == Done([], |Ordinates([])|)
  {
  }

  lemma FirstRing(rings: seq<Block>, tail: seq<byte>)
    requires rings != [] && SmallCounts(rings)
    ensures SmallCounts(rings[1..])
    ensures var table := RingTable(rings) + tail;
      |table| >= 4 * |rings| && Word(table, 0) == rings[0].count && table[4..] == RingTable(rings[1..]) + tail
  {
    var head, rest := Bytes4(rings[0].count), RingTable(rings[1..]);
    RingTableUnfold(rings);
    WordOfBytes(rings[0].count, rest + tail);
    hide Word, Bytes4, RingTable, SmallCounts;
    AfterHead(head, rest, tail);
  }

  lemma RingTableUnfold(rings: seq<Block>)
    requires rings != [] && SmallCounts(rings)
    ensures SmallCounts(rings[1..]) && RingTable(rings) == Bytes4(rings[0].count) + RingTable(rings[1..])
  {
    hide Bytes4;
  }

  lemma AfterHead(head: seq<byte>, rest: seq<byte>, tail: seq<byte>)
    ensures head + rest + tail == head + (rest + tail) && (head + rest + tail)[|head|..] == rest + tail
  {
  }

  lemma FirstOrdinates(rings: seq<Block>, b: seq<byte>, at: nat)
    requires rings != []
    requires at + |Ordinates(rings)| <= |b| && b[at..at + |Ordinates(rings)|] == Ordinates(rings)
    ensures var size, rest := |rings[0].bytes|, Ordinates(rings[1..]);
      && |Ordinates(rings)| == size + |rest|
      && b[at..at + size] == rings[0].bytes && b[at + size..at + size + |rest|] == rest
  {
    var first, rest := rings[0].bytes, Ordinates(rings[1..]);
    var ords := Ordinates(rings);
    assert ords == first + rest;
    hide Ordinates;
    assert ords[..|first|] == first && ords[|first|..] == rest;
    var slice := b[at..at + |ords|];
    assert b[at..at + |first|] == slice[..|first|];
    assert b[at + |first|..at + |ords|] == slice[|first|..];
  }

  lemma ReadRingsUnfold(table: seq<byte>, count: nat, b: seq<byte>, at: nat, nd: nat)
    requires 0 < count && 4 * count <= |table|
    requires var size := PointBytes(Word(table, 0), nd);
      at + size <= |b| && ReadRings(table[4..], count - 1, b, at + size, nd).Done?
    ensures var npoints := Word(table, 0);
      var others := ReadRings(table[4..], count - 1, b, at + PointBytes(npoints, nd), nd);
      var first := Block(npoints, b[at..at + PointBytes(npoints, nd)]);
      ReadRings(table, count, b, at, nd) == Done([first] + others.value, PointBytes(npoints, nd) + others.size)
  {
    hide Word, PointBytes;
  }

  lemma DecodePolygonWritten(rings: seq<Block>, rest: seq<byte>, nd: nat)
    requires WellFormed(Polygon(rings), nd)
    ensures var b := Encode(Polygon(rings), nd) + rest;
      DecodePolygon(b, |rings|, nd) == Done(Polygon(rings), |Encode(Polygon(rings), nd)|)
  {
    hide Word, Bytes4, PointBytes, Ordinates, RingTable, ReadRings, Padding;
    var b := Encode(Polygon(rings), nd) + rest;
    var table, pad, ords := RingTable(rings), Padding(|rings|), Ordinates(rings);
    var body := table + (pad + (ords + rest));
    assert b == Bytes4(POLYGONTYPE) + (Bytes4(|rings|) + body);
    TwoWords(POLYGONTYPE, |rings|, body);
    var at := RingsAt(|rings|);
    OrdinatesIn(b, table, pad, ords, rest, at);
    ReadRingsWritten(rings, pad + (ords + rest), b, at, nd);
  }

  lemma OrdinatesIn(b: seq<byte>, table: seq<byte>, pad: seq<byte>, ords: seq<byte>, rest: seq<byte>, at: nat)
    requires |b| >= 8 && b[8..] == table + (pad + (ords + rest)) && at == 8 + |table| + |pad|
    ensures at + |ords| <= |b| && b[at..at + |ords|] == ords
  {
    var body := b[8..];
    assert body[|table|..] == pad + (ords + rest);
    assert body[|table|..][|pad|..] == ords + rest;
    assert b[at..] == body[|table|..][|pad|..];
    assert b[at..at + |ords|] == b[at..][..|ords|];
  }

  lemma NurbsHeadWords(npoints: nat, degree: nat, nweights: nat, nknots: nat, body: seq<byte>)
    requires npoints < UINT32_LIMIT && degree < UINT32_LIMIT && nweights < UINT32_LIMIT && nknots < UINT32_LIMIT
    ensures var b := NurbsHead(npoints, degree, nweights, nknots) + body;
      && Word(b, 0) == NURBSCURVETYPE && Word(b, 4) == npoints
      && Word(b, 8) == degree && Word(b, 12) == nweights && Word(b, 16) == nknots
      && b[24..] == body
  {
    var h := NurbsHead(npoints, degree, nweights, nknots);
    hide Word, Bytes4;
    assert h[4..8] == Bytes4(npoints);
    assert h[8..12] == Bytes4(degree);
    assert h[12..16] == Bytes4(nweights);
    assert h[16..20] == Bytes4(nknots);
    WordAt(h, body, 0, NURBSCURVETYPE);
    WordAt(h, body, 4, npoints);
    WordAt(h, body, 8, degree);
    WordAt(h, body, 12, nweights);
    WordAt(h, body, 16, nknots);
  }

  lemma WordAt(h: seq<byte>, body: seq<byte>, at: nat, n: nat)
    requires n < UINT32_LIMIT && at + 4 <= |h| && h[at..at + 4] == Bytes4(n)
    ensures Word(h + body, at) == n
  {
    WordOfBytes(n, []);
    var b := h + body;
    assert b[at..at + 4] == h[at..at + 4];
    assert (Bytes4(n) + [])[0..4] == Bytes4(n);
    hide Word, Bytes4;
    assert Word(b, at) == Word(Bytes4(n) + [], 0) by {
      WordFrom(b, at, 0);
      assert b[at..][0..4] == b[at..at + 4];
      WordLocal(b[at..], Bytes4(n) + [], 0);
    }
  }

  lemma ThreeSlices(b: seq<byte>, w: seq<byte>, k: seq<byte>, c: seq<byte>, rest: seq<byte>)
    requires |b| >= 24 && b[24..] == w + (k + (c + rest))
    ensures b[24..24 + |w|] == w
    ensures b[24 + |w|..24 + |w| + |k|] == k
    ensures b[24 + |w| + |k|..24 + |w| + |k| + |c|] == c
  {
    var body, tail := b[24..], k + (c + rest);
    assert body[..|w|] == w && body[|w|..] == tail;
    assert tail[..|k|] == k && tail[|k|..] == c + rest;
    assert b[24..24 + |w|] == body[..|w|];
    assert b[24 + |w|..24 + |w| + |k|] == body[|w|..][..|k|];
    assert b[24 + |w| + |k|..24 + |w| + |k| + |c|] == body[|w|..][|k|..][..|c|];
  }

  lemma DecodeNurbsWritten(g: Geom, rest: seq<byte>, nd: nat)
    requires g.Nurbs? && WellFormed(g, nd)
    ensures var b := Encode(g, nd) + rest;
      |b| >= 8 && DecodeNurbs(b, g.control.count, nd) == Done(g, |Encode(g, nd)|)
  {
    hide Word, Bytes4, PointBytes, ValidNurbs, NurbsHead;
    DegreeBound(g.control.count, g.degree, g.weights, g.knots);
    var b := Encode(g, nd) + rest;
    var w, k, c := g.weights.bytes, g.knots.bytes, g.control.bytes;
    var head := NurbsHead(g.control.count, g.degree, g.weights.count, g.knots.count);
    var body := w + (k + (c + rest));
    assert b == head + body;
    NurbsHeadWords(g.control.count, g.degree, g.weights.count, g.knots.count, body);
    ThreeSlices(b, w, k, c, rest);
  }

  lemma DegreeBound(npoints: nat, degree: nat, weights: Block, knots: Block)
    requires |weights.bytes| == 8 * weights.count && |knots.bytes| == 8 * knots.count
    requires ValidNurbs(npoints, degree, weights, knots)
    ensures 1 <= degree <= 10
  {
  }

  lemma WrittenHead(g: Geom, rest: seq<byte>, nd: nat)
    requires WellFormed(g, nd)
    ensures |Encode(g, nd) + rest| >= 8 && Word(Encode(g, nd) + rest, 0) == Kind(g)
    ensures g.Simple? ==>
              Word(Encode(g, nd) + rest, 4) == g.points.count && (Encode(g, nd) + rest)[8..] == g.points.bytes + rest
    ensures g.Polygon? ==> Word(Encode(g, nd) + rest, 4) == |g.rings|
    ensures g.Nurbs? ==> Word(Encode(g, nd) + rest, 4) == g.control.count
    ensures g.Collection? ==>
              && Word(Encode(g, nd) + rest, 4) == |g.geoms|
              && (Encode(g, nd) + rest)[8..] == EncodeAll(g.geoms, g.kind, nd) + rest
  {
    hide Word, Bytes4, PointBytes, ValidNurbs, AllowsSubtype, NurbsHead;
    var b := Encode(g, nd) + rest;
    match g
    case Simple(kind, points) =>
      assert b == Bytes4(kind) + (Bytes4(points.count) + (points.bytes + rest));
      TwoWords(kind, points.count, points.bytes + rest);
    case Polygon(rings) =>
      var body := RingTable(rings) + (Padding(|rings|) + Ordinates(rings));
      assert b == Bytes4(POLYGONTYPE) + (Bytes4(|rings|) + (body + rest));
      TwoWords(POLYGONTYPE, |rings|, body + rest);
    case Collection(kind, geoms) =>
      var body := EncodeAll(geoms, kind, nd);
      assert b == Bytes4(kind) + (Bytes4(|geoms|) + (body + rest));
      TwoWords(kind, |geoms|, body + rest);
    case Nurbs(degree, weights, knots, control) =>
      DegreeBound(control.count, degree, weights, knots);
      var body := weights.bytes + (knots.bytes + control.bytes);
      assert b == NurbsHead(control.count, degree, weights.count, knots.count) + (body + rest);
      NurbsHeadWords(control.count, degree, weights.count, knots.count, body + rest);
  }

  /** Reading back what was written is the identity, whatever follows in the buffer. */
  lemma {:induction false} DecodeWritten(g: Geom, rest: seq<byte>, nd: nat)
    requires WellFormed(g, nd)
    ensures Decode(Encode(g, nd) + rest, nd) == Done(g, |Encode(g, nd)|)
    decreases g
  {
    hide Word, Bytes4, PointBytes, ValidNurbs, AllowsSubtype, DecodeNurbs, DecodePolygon;
    var b := Encode(g, nd) + rest;
    WrittenHead(g, rest, nd);
    match g
    case Simple(kind, points) =>
      assert b[8..8 + |points.bytes|] == b[8..][..|points.bytes|] == points.bytes;
    case Polygon(rings) =>
      DecodePolygonWritten(rings, rest, nd);
    case Collection(kind, geoms) =>
      DecodeManyWritten(geoms, kind, rest, nd);
    case Nurbs(_, _, _, _) =>
      DecodeNurbsWritten(g, rest, nd);
  }

  lemma {:induction false} DecodeManyWritten(geoms: seq<Geom>, kind: nat, rest: seq<byte>, nd: nat)
    requires Members(geoms, kind, nd)
    ensures DecodeMany(EncodeAll(geoms, kind, nd) + rest, |geoms|, kind, nd)
         == Done(geoms, |EncodeAll(geoms, kind, nd)|)
    decreases geoms
  {
    hide Word, Bytes4, PointBytes, ValidNurbs, AllowsSubtype, Decode, Encode;
    if geoms != [] {
      var others := EncodeAll(geoms[1..], kind, nd) + rest;
      var b := EncodeAll(geoms, kind, nd) + rest;
      assert b == Encode(geoms[0], nd) + others;
      WrittenHead(geoms[0], others, nd);
      DecodeWritten(geoms[0], others, nd);
      assert b[|Encode(geoms[0], nd)|..] == others;
      DecodeManyWritten(geoms[1..], kind, rest, nd);
      assert [geoms[0]] + geoms[1..] == geoms;
    }
  }

  // ----- validator and reader

  lemma TableNext(table: seq<byte>, count: nat, nd: nat)
    requires 0 < count && 4 * count <= |table|
    ensures TableBytes(table, count, nd) == PointBytes(Word(table, 0), nd) + TableBytes(table[4..], count - 1, nd)
  {
  }

  /** A ring table whose ordinates fit is read, and announces the sizes that are read. */
  lemma {:induction false} ReadRingsFitting(table: seq<byte>, count: nat, b: seq<byte>, at: nat, nd: nat)
    requires 4 * count <= |table| && at + TableBytes(table, count, nd) <= |b|
    ensures var r := ReadRings(table, count, b, at, nd);
      && r.Done? && r.size == TableBytes(table, count, nd) && |r.value| == count
      && forall i :: 0 <= i < count ==> Sized(r.value[i], PointBytes(r.value[i].count, nd))
    decreases count
  {
    if count > 0 {
      var npoints := Word(table, 0);
      TableNext(table, count, nd);
      ReadRingsFitting(table[4..], count - 1, b, at + PointBytes(npoints, nd), nd);
    }
  }

  /** What the validator accepts the reader reads, consuming exactly the validated size;
      the geometry read is well-formed and takes that size. */
  lemma {:induction false} CheckedReads(b: seq<byte>, nd: nat)
    requires Check(b, nd).Some?
    ensures var r := Decode(b, nd);
      r.Done? && r.size == Check(b, nd).value && WellFormed(r.value, nd) && Size(r.value, nd) == r.size
      && Kind(r.value) == Word(b, 0)
    decreases |b|, 0
  {
    hide Word, PointBytes, ValidNurbs, AllowsSubtype;
    var kind, count := Word(b, 0), Word(b, 4);
    if IsSimple(kind) {
    } else if kind == POLYGONTYPE {
      CheckedPolygonReads(b, count, nd);
    } else if IsCollection(kind) {
      CheckedManyRead(b[8..], count, kind, nd);
    } else {
    }
  }

  lemma CheckedPolygonReads(b: seq<byte>, count: nat, nd: nat)
    requires |b| >= 8 && CheckPolygon(b, count, nd).Some? && count < UINT32_LIMIT
    ensures var r := DecodePolygon(b, count, nd);
      && r.Done? && r.size == CheckPolygon(b, count, nd).value
      && WellFormed(r.value, nd) && r.value.Polygon? && Size(r.value, nd) == r.size
  {
    hide Word, PointBytes;
    ReadRingsFitting(b[8..], count, b, RingsAt(count), nd);
    var rings := ReadRings(b[8..], count, b, RingsAt(count), nd);
    ReadRingsSize(b[8..], count, b, RingsAt(count), nd);
  }

  lemma {:induction false} ReadRingsSize(table: seq<byte>, count: nat, b: seq<byte>, at: nat, nd: nat)
    requires 4 * count <= |table| && ReadRings(table, count, b, at, nd).Done?
    ensures var r := ReadRings(table, count, b, at, nd);
      RingsSize(r.value, nd) == 4 * count + r.size
    decreases count
  {
    hide Word, PointBytes;
    if count > 0 {
      var npoints := Word(table, 0);
      ReadRingsSize(table[4..], count - 1, b, at + PointBytes(npoints, nd), nd);
      var r := ReadRings(table, count, b, at, nd);
      var others := ReadRings(table[4..], count - 1, b, at + PointBytes(npoints, nd), nd);
      assert r.value[1..] == others.value;
    }
  }

  lemma {:induction false} CheckedManyRead(b: seq<byte>, count: nat, kind: nat, nd: nat)
    requires CheckMany(b, count, kind, nd).Some?
    ensures var r := DecodeMany(b, count, kind, nd);
      && r.Done? && r.size == CheckMany(b, count, kind, nd).value
      && |r.value| == count && Members(r.value, kind, nd) && SizeAll(r.value, nd) == r.size
    decreases |b|, 1, count
  {
    hide Word, PointBytes, ValidNurbs, AllowsSubtype, Check, Decode, WellFormed, Size;
    if count > 0 {
      var first := Check(b, nd).value;
      CheckedReads(b, nd);
      CheckedManyRead(b[first..], count - 1, kind, nd);
      var r := DecodeMany(b, count, kind, nd);
      var others := DecodeMany(b[first..], count - 1, kind, nd);
      assert r.value[1..] == others.value;
    }
  }

  /** A geometry never takes fewer bytes than the reader consumes for it; more are consumed
      only for a point that announces several points. */
  lemma {:induction false} ReadAtLeast(b: seq<byte>, nd: nat)
    requires Decode(b, nd).Done?
    ensures Size(Decode(b, nd).value, nd) <= Decode(b, nd).size
    decreases |b|, 0
  {
    hide Word, ValidNurbs, AllowsSubtype, PointBytes;
    var kind, count := Word(b, 0), Word(b, 4);
    if IsSimple(kind) {
      if count > 0 {
        OneOrMore(count, nd);
      }
    } else if kind == POLYGONTYPE {
      ReadRingsSize(b[8..], count, b, RingsAt(count), nd);
      ReadRingsCount(b[8..], count, b, RingsAt(count), nd);
    } else if IsCollection(kind) {
      ReadManyAtLeast(b[8..], count, kind, nd);
    }
  }

  lemma {:induction false} ReadRingsCount(table: seq<byte>, count: nat, b: seq<byte>, at: nat, nd: nat)
    requires 4 * count <= |table| && ReadRings(table, count, b, at, nd).Done?
    ensures var r := ReadRings(table, count, b, at, nd);
      |r.value| == count && r.size == TableBytes(table, count, nd) && (count > 0 ==> at + r.size <= |b|)
    decreases count
  {
    hide Word, PointBytes;
    if count > 0 {
      var npoints := Word(table, 0);
      ReadRingsCount(table[4..], count - 1, b, at + PointBytes(npoints, nd), nd);
    }
  }

  lemma {:induction false} ReadManyAtLeast(b: seq<byte>, count: nat, kind: nat, nd: nat)
    requires DecodeMany(b, count, kind, nd).Done?
    ensures SizeAll(DecodeMany(b, count, kind, nd).value, nd) <= DecodeMany(b, count, kind, nd).size
    decreases |b|, 1, count
  {
    hide Word, PointBytes, ValidNurbs, AllowsSubtype, Decode, Size;
    if count > 0 {
      var first := Decode(b, nd);
      ReadAtLeast(b, nd);
      ReadManyAtLeast(b[first.size..], count - 1, kind, nd);
      var r := DecodeMany(b, count, kind, nd);
      var others := DecodeMany(b[first.size..], count - 1, kind, nd);
      assert r.value[1..] == others.value;
    }
  }

  lemma NoMorePoints(kept: nat, count: nat, nd: nat)
    requires kept <= count
    ensures PointBytes(kept, nd) <= PointBytes(count, nd)
  {
  }

  lemma OneOrMore(count: nat, nd: nat)
    requires count > 0
    ensures PointBytes(1, nd) <= PointBytes(count, nd)
  {
    MoreItems(count, 8 * nd);
  }

  lemma MoreItems(count: nat, width: nat)
    requires count > 0
    ensures 1 * width <= count * width
  {
    assert count * width == (count - 1) * width + width;
  }

  lemma MorePoints(count: nat, nd: nat)
    requires nd > 0 && count > 1
    ensures PointBytes(1, nd) < PointBytes(count, nd)
  {
  }

  lemma ReadNurbsIsChecked(b: seq<byte>, count: nat, nd: nat)
    requires |b| >= 8 && DecodeNurbs(b, count, nd).Done? && DecodeNurbs(b, count, nd).size <= |b|
    ensures CheckNurbs(b, count, nd) == Some(DecodeNurbs(b, count, nd).size)
  {
    hide Word, ValidNurbs, PointBytes;
  }

  /** A geometry read inside the buffer that takes exactly the bytes consumed is accepted
      by the validator. */
  lemma {:induction false} ReadIsChecked(b: seq<byte>, nd: nat)
    requires nd > 0 && Decode(b, nd).Done? && Decode(b, nd).size <= |b|
    requires Size(Decode(b, nd).value, nd) == Decode(b, nd).size
    ensures Check(b, nd) == Some(Decode(b, nd).size)
    decreases |b|, 0
  {
    hide Word, AllowsSubtype, PointBytes, CheckNurbs, DecodeNurbs;
    var kind, count := Word(b, 0), Word(b, 4);
    if IsSimple(kind) {
      if count > 1 {
        MorePoints(count, nd);
      }
    } else if kind == POLYGONTYPE {
      ReadRingsSize(b[8..], count, b, RingsAt(count), nd);
      ReadRingsCount(b[8..], count, b, RingsAt(count), nd);
    } else if IsCollection(kind) {
      ReadManyIsChecked(b[8..], count, kind, nd);
    } else {
      ReadNurbsIsChecked(b, count, nd);
    }
  }

  lemma {:induction false} ReadManyIsChecked(b: seq<byte>, count: nat, kind: nat, nd: nat)
    requires nd > 0 && DecodeMany(b, count, kind, nd).Done? && DecodeMany(b, count, kind, nd).size <= |b|
    requires SizeAll(DecodeMany(b, count, kind, nd).value, nd) == DecodeMany(b, count, kind, nd).size
    ensures CheckMany(b, count, kind, nd) == Some(DecodeMany(b, count, kind, nd).size)
    decreases |b|, 1, count
  {
    hide Word, PointBytes, ValidNurbs, AllowsSubtype, Decode, Size, Check;
    if count > 0 {
      var first := Decode(b, nd);
      var r := DecodeMany(b, count, kind, nd);
      var others := DecodeMany(b[first.size..], count - 1, kind, nd);
      assert r.value[1..] == others.value;
      ReadAtLeast(b, nd);
      ReadManyAtLeast(b[first.size..], count - 1, kind, nd);
      ReadIsChecked(b, nd);
      ReadManyIsChecked(b[first.size..], count - 1, kind, nd);
    }
  }

  /** The validator accepts `n` bytes of a buffer exactly when the reader reads a
      well-formed geometry that takes those `n` bytes. */
  lemma ValidatorIsExact(b: seq<byte>, nd: nat, n: nat)
    requires nd > 0
    ensures Check(b, nd) == Some(n) <==>
            exists g :: Decode(b, nd) == Done(g, n) && WellFormed(g, nd) && Size(g, nd) == n <= |b|
  {
    if Check(b, nd) == Some(n) {
      CheckedReads(b, nd);
    }
    if g :| Decode(b, nd) == Done(g, n) && WellFormed(g, nd) && Size(g, nd) == n <= |b| {
      ReadIsChecked(b, nd);
    }
  }

  /** What the writer wrote passes validation, with the size the writer reported. */
  lemma WrittenIsChecked(g: Geom, rest: seq<byte>, nd: nat)
    requires nd > 0 && WellFormed(g, nd)
    ensures Check(Encode(g, nd) + rest, nd) == Some(Size(g, nd))
  {
    DecodeWritten(g, rest, nd);
    EncodedSize(g, nd);
    ReadIsChecked(Encode(g, nd) + rest, nd);
  }

  lemma {:induction false} ReadRingsLocal(
    s: seq<byte>, t: seq<byte>, count: nat, a: seq<byte>, b: seq<byte>, at: nat, nd: nat)
    requires Agree(s, t, 4 * count) && ReadRings(s, count, a, at, nd).Done?
    requires Agree(a, b, at + ReadRings(s, count, a, at, nd).size)
    ensures ReadRings(t, count, b, at, nd) == ReadRings(s, count, a, at, nd)
    decreases count
  {
    hide Word, PointBytes;
    if count > 0 {
      var n := at + ReadRings(s, count, a, at, nd).size;
      AgreeWord(s, t, 4 * count, 0);
      AgreeDrop(s, t, 4 * count, 4, 4 * (count - 1));
      var size := PointBytes(Word(s, 0), nd);
      AgreeSlice(a, b, n, at, at + size);
      ReadRingsLocal(s[4..], t[4..], count - 1, a, b, at + size, nd);
    }
  }

  lemma DecodeNurbsLocal(a: seq<byte>, b: seq<byte>, count: nat, nd: nat)
    requires |a| >= 8 && |b| >= 8
    requires DecodeNurbs(a, count, nd).Done? && Agree(a, b, DecodeNurbs(a, count, nd).size)
    ensures DecodeNurbs(b, count, nd) == DecodeNurbs(a, count, nd)
  {
    hide Word, PointBytes, ValidNurbs;
    var n := DecodeNurbs(a, count, nd).size;
    AgreeWord(a, b, n, 8);
    AgreeWord(a, b, n, 12);
    AgreeWord(a, b, n, 16);
    var nweights, nknots := Word(a, 12), Word(a, 16);
    AgreeSlice(a, b, n, 24, 24 + 8 * nweights);
    AgreeSlice(a, b, n, 24 + 8 * nweights, 24 + 8 * nweights + 8 * nknots);
    AgreeSlice(a, b, n, 24 + 8 * nweights + 8 * nknots, n);
  }

  /** Reading touches no more bytes than it consumes: whatever follows them, the geometry
      read is the same. */
  lemma {:induction false} ReadLocal(a: seq<byte>, b: seq<byte>, nd: nat)
    requires Decode(a, nd).Done? && Agree(a, b, Decode(a, nd).size)
    ensures Decode(b, nd) == Decode(a, nd)
    decreases |a|, 0
  {
    hide Word, AllowsSubtype, PointBytes, DecodeNurbs;
    var n := Decode(a, nd).size;
    AgreeWord(a, b, n, 0);
    AgreeWord(a, b, n, 4);
    var kind, count := Word(a, 0), Word(a, 4);
    if IsSimple(kind) {
      var kept := if kind == POINTTYPE && count > 0 then 1 else count;
      NoMorePoints(kept, count, nd);
      AgreeSlice(a, b, n, 8, 8 + PointBytes(kept, nd));
    } else if kind == POLYGONTYPE {
      AgreeDrop(a, b, n, 8, 4 * count);
      ReadRingsLocal(a[8..], b[8..], count, a, b, RingsAt(count), nd);
    } else if IsCollection(kind) {
      AgreeDrop(a, b, n, 8, n - 8);
      ReadManyLocal(a[8..], b[8..], count, kind, nd);
    } else {
      DecodeNurbsLocal(a, b, count, nd);
    }
  }

  lemma {:induction false} ReadManyLocal(a: seq<byte>, b: seq<byte>, count: nat, kind: nat, nd: nat)
    requires DecodeMany(a, count, kind, nd).Done? && Agree(a, b, DecodeMany(a, count, kind, nd).size)
    ensures DecodeMany(b, count, kind, nd) == DecodeMany(a, count, kind, nd)
    decreases |a|, 1, count
  {
    hide Word, AllowsSubtype, Decode;
    if count > 0 {
      var n := DecodeMany(a, count, kind, nd).size;
      var first := Decode(a, nd).size;
      AgreeWord(a, b, n, 0);
      AgreeDrop(a, b, n, 0, first);
      assert a[0..] == a && b[0..] == b;
      ReadLocal(a, b, nd);
      AgreeDrop(a, b, n, first, n - first);
      ReadManyLocal(a[first..], b[first..], count - 1, kind, nd);
    }
  }
}
