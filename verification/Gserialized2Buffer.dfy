/** The writer, the validator and the reader as they run: cursors moving through a byte
    buffer.  Each is proved equal to its specification as a value. */
module Gserialized2Buffer {
  import opened Common
  import opened Gserialized2
  import opened Gserialized2Laws

  // ----- appending at the far end

  lemma {:induction false} RingsSizeAppend(rings: seq<Block>, ring: Block, nd: nat)
    ensures RingsSize(rings + [ring], nd) == RingsSize(rings, nd) + 4 + PointBytes(ring.count, nd)
  {
    hide PointBytes;
    if rings != [] {
      RingsSizeAppend(rings[1..], ring, nd);
      assert (rings + [ring])[1..] == rings[1..] + [ring];
    }
  }

  lemma {:induction false} SizeAllAppend(geoms: seq<Geom>, g: Geom, nd: nat)
    ensures SizeAll(geoms + [g], nd) == SizeAll(geoms, nd) + Size(g, nd)
  {
    hide Size;
    if geoms != [] {
      SizeAllAppend(geoms[1..], g, nd);
      assert (geoms + [g])[1..] == geoms[1..] + [g];
    }
  }

  lemma {:induction false} RingTableAppend(rings: seq<Block>, ring: Block)
    requires SmallCounts(rings + [ring])
    ensures SmallCounts(rings) && ring.count < UINT32_LIMIT
    ensures RingTable(rings + [ring]) == RingTable(rings) + Bytes4(ring.count)
  {
    hide Bytes4;
    assert (rings + [ring])[|rings|] == ring;
    assert forall i :: 0 <= i < |rings| ==> (rings + [ring])[i] == rings[i];
    if rings != [] {
      assert (rings + [ring])[1..] == rings[1..] + [ring];
      RingTableAppend(rings[1..], ring);
    }
  }

  lemma {:induction false} OrdinatesAppend(rings: seq<Block>, ring: Block)
    ensures Ordinates(rings + [ring]) == Ordinates(rings) + ring.bytes
  {
    if rings != [] {
      OrdinatesAppend(rings[1..], ring);
      assert (rings + [ring])[1..] == rings[1..] + [ring];
    }
  }

  lemma {:induction false} EncodeAllAppend(geoms: seq<Geom>, g: Geom, kind: nat, nd: nat)
    requires Members(geoms + [g], kind, nd)
    ensures Members(geoms, kind, nd) && WellFormed(g, nd)
    ensures EncodeAll(geoms + [g], kind, nd) == EncodeAll(geoms, kind, nd) + Encode(g, nd)
  {
    hide Encode, WellFormed, AllowsSubtype;
    assert (geoms + [g])[|geoms|] == g;
    assert forall i :: 0 <= i < |geoms| ==> (geoms + [g])[i] == geoms[i];
    if geoms != [] {
      assert (geoms + [g])[1..] == geoms[1..] + [g];
      EncodeAllAppend(geoms[1..], g, kind, nd);
    }
  }

  // ----- sizes

  /** Bytes to reserve for a geometry. */
  method AnySize(g: Geom, nd: nat) returns (size: nat)
    ensures size == Size(g, nd)
    decreases g
  {
    hide PointBytes;
    size := 8;
    match g
    case Simple(_, points) =>
      size := size + PointBytes(points.count, nd);
    case Polygon(rings) =>
      if |rings| % 2 != 0 {
        size := size + 4;
      }
      ghost var head := size;
      for i := 0 to |rings|
        invariant size == head + RingsSize(rings[..i], nd)
      {
        assert rings[..i + 1] == rings[..i] + [rings[i]];
        RingsSizeAppend(rings[..i], rings[i], nd);
        size := size + 4;
        size := size + PointBytes(rings[i].count, nd);
      }
      assert rings[..|rings|] == rings;
    case Collection(_, geoms) =>
      for i := 0 to |geoms|
        invariant size == 8 + SizeAll(geoms[..i], nd)
      {
        assert geoms[..i + 1] == geoms[..i] + [geoms[i]];
        SizeAllAppend(geoms[..i], geoms[i], nd);
        var subsize := AnySize(geoms[i], nd);
        size := size + subsize;
      }
      assert geoms[..|geoms|] == geoms;
    case Nurbs(_, weights, knots, control) =>
      size := 24;
      if weights.count > 0 {
        size := size + 8 * weights.count;
      }
      if knots.count > 0 {
        size := size + 8 * knots.count;
      }
      size := size + PointBytes(control.count, nd);
  }

  // ----- writing

  /** `after` is `before` with `bytes` written at `at`, and nothing else changed. */
  ghost predicate Written(before: seq<byte>, after: seq<byte>, at: nat, bytes: seq<byte>) {
    && |after| == |before| && at + |bytes| <= |before|
    && after == before[..at] + bytes + before[at + |bytes|..]
  }

  lemma WrittenTwice(a: seq<byte>, b: seq<byte>, c: seq<byte>, at: nat, x: seq<byte>, y: seq<byte>)
    requires Written(a, b, at, x) && Written(b, c, at + |x|, y)
    ensures Written(a, c, at, x + y)
  {
    assert b[..at + |x|] == a[..at] + x;
    assert b[at + |x| + |y|..] == a[at + |x| + |y|..];
    assert a[..at] + x + y == a[..at] + (x + y);
  }

  lemma WrittenNothing(a: seq<byte>, at: nat)
    requires at <= |a|
    ensures Written(a, a, at, [])
  {
    assert a == a[..at] + a[at..];
  }

  /** Copies `bytes` to the cursor `loc` and moves it on. */
  method Copy(buf: array<byte>, loc0: nat, bytes: seq<byte>) returns (loc: nat)
    requires loc0 + |bytes| <= buf.Length
    modifies buf
    ensures loc == loc0 + |bytes|
    ensures Written(old(buf[..]), buf[..], loc0, bytes)
  {
    ghost var before := buf[..];
    for i := 0 to |bytes|
      invariant buf[..] == before[..loc0] + bytes[..i] + before[loc0 + i..]
    {
      buf[loc0 + i] := bytes[i];
    }
    loc := loc0 + |bytes|;
  }

  /** Writes a geometry and returns the number of bytes written. */
  method WriteAny(g: Geom, nd: nat, buf: array<byte>, at: nat) returns (n: nat)
    requires WellFormed(g, nd) && at + |Encode(g, nd)| <= buf.Length
    modifies buf
    ensures n == |Encode(g, nd)|
    ensures Written(old(buf[..]), buf[..], at, Encode(g, nd))
    decreases g
  {
    match g
    case Simple(kind, points) => n := WriteSimple(kind, points, nd, buf, at);
    case Polygon(rings) => n := WritePolygon(rings, nd, buf, at);
    case Collection(kind, geoms) => n := WriteCollection(kind, geoms, nd, buf, at);
    case Nurbs(_, _, _, _) => n := WriteNurbs(g, nd, buf, at);
  }

  method WriteHead(kind: nat, count: nat, buf: array<byte>, at: nat) returns (loc: nat)
    requires kind < UINT32_LIMIT && count < UINT32_LIMIT && at + 8 <= buf.Length
    modifies buf
    ensures loc == at + 8
    ensures Written(old(buf[..]), buf[..], at, Bytes4(kind) + Bytes4(count))
  {
    hide Bytes4;
    loc := Copy(buf, at, Bytes4(kind));
    ghost var middle := buf[..];
    loc := Copy(buf, loc, Bytes4(count));
    WrittenTwice(old(buf[..]), middle, buf[..], at, Bytes4(kind), Bytes4(count));
  }

  method WriteSimple(kind: nat, points: Block, nd: nat, buf: array<byte>, at: nat) returns (n: nat)
    requires WellFormed(Simple(kind, points), nd) && at + |Encode(Simple(kind, points), nd)| <= buf.Length
    modifies buf
    ensures n == |Encode(Simple(kind, points), nd)|
    ensures Written(old(buf[..]), buf[..], at, Encode(Simple(kind, points), nd))
  {
    var loc := WriteHead(kind, points.count, buf, at);
    hide Bytes4, PointBytes, Written;
    ghost var middle := buf[..];
    if points.count > 0 {
      loc := Copy(buf, loc, points.bytes);
    } else {
      assert points.bytes == [] by {
        NoBytes(points, nd);
      }
      WrittenNothing(buf[..], loc);
    }
    WrittenTwice(old(buf[..]), middle, buf[..], at, Bytes4(kind) + Bytes4(points.count), points.bytes);
    assert Bytes4(kind) + Bytes4(points.count) + points.bytes == Encode(Simple(kind, points), nd);
    n := loc - at;
  }

  lemma NoBytes(points: Block, nd: nat)
    requires Sized(points, PointBytes(points.count, nd)) && points.count == 0
    ensures points.bytes == []
  {
  }

  method WriteRingTable(rings: seq<Block>, buf: array<byte>, at: nat) returns (loc: nat)
    requires SmallCounts(rings) && at + 4 * |rings| <= buf.Length
    modifies buf
    ensures loc == at + 4 * |rings|
    ensures Written(old(buf[..]), buf[..], at, RingTable(rings))
  {
    hide Bytes4;
    loc := at;
    WrittenNothing(buf[..], at);
    for i := 0 to |rings|
      invariant loc == at + 4 * i
      invariant Written(old(buf[..]), buf[..], at, RingTable(rings[..i]))
    {
      assert rings[..i + 1] == rings[..i] + [rings[i]];
      RingTableAppend(rings[..i], rings[i]);
      ghost var middle := buf[..];
      loc := Copy(buf, loc, Bytes4(rings[i].count));
      WrittenTwice(old(buf[..]), middle, buf[..], at, RingTable(rings[..i]), Bytes4(rings[i].count));
    }
    assert rings[..|rings|] == rings;
  }

  method WriteOrdinates(rings: seq<Block>, buf: array<byte>, at: nat) returns (loc: nat)
    requires at + |Ordinates(rings)| <= buf.Length
    modifies buf
    ensures loc == at + |Ordinates(rings)|
    ensures Written(old(buf[..]), buf[..], at, Ordinates(rings))
  {
    loc := at;
    WrittenNothing(buf[..], at);
    for i := 0 to |rings|
      invariant loc == at + |Ordinates(rings[..i])|
      invariant Written(old(buf[..]), buf[..], at, Ordinates(rings[..i]))
    {
      assert rings[..i + 1] == rings[..i] + [rings[i]];
      OrdinatesAppend(rings[..i], rings[i]);
      OrdinatesPrefix(rings, i + 1);
      hide Ordinates, Written;
      ghost var middle := buf[..];
      loc := Copy(buf, loc, rings[i].bytes);
      WrittenTwice(old(buf[..]), middle, buf[..], at, Ordinates(rings[..i]), rings[i].bytes);
    }
    assert rings[..|rings|] == rings;
  }

  lemma {:induction false} OrdinatesPrefix(rings: seq<Block>, i: nat)
    requires i <= |rings|
    ensures |Ordinates(rings[..i])| <= |Ordinates(rings)|
  {
    if i > 0 {
      OrdinatesPrefix(rings[1..], i - 1);
      assert rings[..i][1..] == rings[1..][..i - 1];
    }
  }

  /** Zeroes up to the next multiple of eight bytes. */
  method WritePadding(nrings: nat, buf: array<byte>, loc0: nat) returns (loc: nat)
    requires loc0 + |Padding(nrings)| <= buf.Length
    modifies buf
    ensures loc == loc0 + |Padding(nrings)|
    ensures Written(old(buf[..]), buf[..], loc0, Padding(nrings))
  {
    loc := loc0;
    if nrings % 2 != 0 {
      loc := Copy(buf, loc, Bytes4(0));
    } else {
      WrittenNothing(buf[..], loc);
    }
  }

  method WritePolygon(rings: seq<Block>, nd: nat, buf: array<byte>, at: nat) returns (n: nat)
    requires WellFormed(Polygon(rings), nd) && at + |Encode(Polygon(rings), nd)| <= buf.Length
    modifies buf
    ensures n == |Encode(Polygon(rings), nd)|
    ensures Written(old(buf[..]), buf[..], at, Encode(Polygon(rings), nd))
  {
    PolygonBytes(rings, nd);
    hide Bytes4, PointBytes, Written, Encode, RingTable, Padding, Ordinates, WellFormed;
    var loc := WritePolygonHead(rings, buf, at);
    ghost var middle := buf[..];
    loc := WriteOrdinates(rings, buf, loc);
    WrittenTwice(old(buf[..]), middle, buf[..], at, PolygonHead(rings), Ordinates(rings));
    n := loc - at;
  }

  /** Type, ring count, ring table and padding. */
  function PolygonHead(rings: seq<Block>): (b: seq<byte>)
    requires SmallCounts(rings) && |rings| < UINT32_LIMIT
  {
    Bytes4(POLYGONTYPE) + Bytes4(|rings|) + (RingTable(rings) + Padding(|rings|))
  }

  method WritePolygonHead(rings: seq<Block>, buf: array<byte>, at: nat) returns (loc: nat)
    requires SmallCounts(rings) && |rings| < UINT32_LIMIT && at + |PolygonHead(rings)| <= buf.Length
    modifies buf
    ensures loc == at + |PolygonHead(rings)|
    ensures Written(old(buf[..]), buf[..], at, PolygonHead(rings))
  {
    hide Bytes4, Written, RingTable, Padding;
    ghost var b0 := buf[..];
    loc := WriteHead(POLYGONTYPE, |rings|, buf, at);
    ghost var b1 := buf[..];
    loc := WriteRingTable(rings, buf, loc);
    ghost var b2 := buf[..];
    loc := WritePadding(|rings|, buf, loc);
    WrittenTwice(b1, b2, buf[..], at + 8, RingTable(rings), Padding(|rings|));
    WrittenTwice(b0, b1, buf[..], at, Bytes4(POLYGONTYPE) + Bytes4(|rings|), RingTable(rings) + Padding(|rings|));
  }

  lemma PolygonBytes(rings: seq<Block>, nd: nat)
    requires WellFormed(Polygon(rings), nd)
    ensures SmallCounts(rings) && |rings| < UINT32_LIMIT
    ensures Encode(Polygon(rings), nd) == PolygonHead(rings) + Ordinates(rings)
    ensures forall i :: 0 <= i < |rings| ==> Sized(rings[i], PointBytes(rings[i].count, nd))
  {
    hide Bytes4, PointBytes, RingTable, Padding, Ordinates;
  }

  method WriteCollection(kind: nat, geoms: seq<Geom>, nd: nat, buf: array<byte>, at: nat) returns (n: nat)
    requires WellFormed(Collection(kind, geoms), nd) && at + |Encode(Collection(kind, geoms), nd)| <= buf.Length
    modifies buf
    ensures n == |Encode(Collection(kind, geoms), nd)|
    ensures Written(old(buf[..]), buf[..], at, Encode(Collection(kind, geoms), nd))
    decreases geoms
  {
    ghost var head := Bytes4(kind) + Bytes4(|geoms|);
    ghost var b0 := buf[..];
    CollectionBytes(kind, geoms, nd);
    hide Bytes4, PointBytes, Written, AllowsSubtype, Encode, EncodeAll, WellFormed, Members;
    var loc := WriteHead(kind, |geoms|, buf, at);
    NoMembers(kind, nd);
    assert geoms[..0] == [];
    assert head + [] == head;
    for i := 0 to |geoms|
      invariant Members(geoms[..i], kind, nd)
      invariant loc == at + 8 + |EncodeAll(geoms[..i], kind, nd)|
      invariant Written(b0, buf[..], at, head + EncodeAll(geoms[..i], kind, nd))
    {
      EncodeAllNext(geoms, i, kind, nd);
      ghost var middle := buf[..];
      ghost var done := EncodeAll(geoms[..i], kind, nd);
      var subsize := WriteAny(geoms[i], nd, buf, loc);
      WrittenTwice(b0, middle, buf[..], at, head + done, Encode(geoms[i], nd));
      Associate(head, done, Encode(geoms[i], nd));
      loc := loc + subsize;
    }
    assert geoms[..|geoms|] == geoms;
    n := loc - at;
  }

  lemma Associate(x: seq<byte>, y: seq<byte>, z: seq<byte>)
    ensures x + y + z == x + (y + z)
  {
  }

  lemma CollectionBytes(kind: nat, geoms: seq<Geom>, nd: nat)
    requires WellFormed(Collection(kind, geoms), nd)
    ensures kind < UINT32_LIMIT && |geoms| < UINT32_LIMIT && Members(geoms, kind, nd)
    ensures Encode(Collection(kind, geoms), nd) == Bytes4(kind) + Bytes4(|geoms|) + EncodeAll(geoms, kind, nd)
  {
    hide Bytes4, EncodeAll;
  }

  lemma NoMembers(kind: nat, nd: nat)
    ensures Members([], kind, nd) && EncodeAll([], kind, nd) == []
  {
  }

  lemma EncodeAllNext(geoms: seq<Geom>, i: nat, kind: nat, nd: nat)
    requires i < |geoms| && Members(geoms, kind, nd)
    ensures Members(geoms[..i], kind, nd) && Members(geoms[..i + 1], kind, nd) && WellFormed(geoms[i], nd)
    ensures EncodeAll(geoms[..i + 1], kind, nd) == EncodeAll(geoms[..i], kind, nd) + Encode(geoms[i], nd)
    ensures |EncodeAll(geoms[..i + 1], kind, nd)| <= |EncodeAll(geoms, kind, nd)|
  {
    assert geoms[..i + 1] == geoms[..i] + [geoms[i]];
    EncodeAllPrefix(geoms, i + 1, kind, nd);
    EncodeAllAppend(geoms[..i], geoms[i], kind, nd);
  }

  lemma {:induction false} EncodeAllPrefix(geoms: seq<Geom>, i: nat, kind: nat, nd: nat)
    requires i <= |geoms| && Members(geoms, kind, nd)
    ensures Members(geoms[..i], kind, nd)
    ensures |EncodeAll(geoms[..i], kind, nd)| <= |EncodeAll(geoms, kind, nd)|
  {
    hide Encode, WellFormed, AllowsSubtype;
    if i > 0 {
      assert geoms[..i][1..] == geoms[1..][..i - 1];
      EncodeAllPrefix(geoms[1..], i - 1, kind, nd);
    }
  }

  method WriteNurbs(g: Geom, nd: nat, buf: array<byte>, at: nat) returns (n: nat)
    requires g.Nurbs? && WellFormed(g, nd) && at + |Encode(g, nd)| <= buf.Length
    modifies buf
    ensures n == |Encode(g, nd)|
    ensures Written(old(buf[..]), buf[..], at, Encode(g, nd))
  {
    hide Bytes4, PointBytes, ValidNurbs, Written, Encode, NurbsHead, WellFormed, Sized;
    NurbsBytes(g, nd);
    PointBytesOfNone(nd);
    ghost var head := NurbsHead(g.control.count, g.degree, g.weights.count, g.knots.count);
    ghost var b0 := buf[..];
    var loc := WriteNurbsHead(g.control.count, g.degree, g.weights.count, g.knots.count, buf, at);
    loc := CopyAfter(buf, loc, g.weights, 8 * g.weights.count, b0, at, head);
    loc := CopyAfter(buf, loc, g.knots, 8 * g.knots.count, b0, at, head + g.weights.bytes);
    loc := CopyAfter(buf, loc, g.control, PointBytes(g.control.count, nd), b0, at,
                     head + g.weights.bytes + g.knots.bytes);
    n := loc - at;
  }

  /** Copies a block, if it has items, after what has been written so far. */
  method CopyAfter(buf: array<byte>, loc0: nat, block: Block, ghost size: nat, ghost b0: seq<byte>, ghost at: nat,
    ghost done: seq<byte>) returns (loc: nat)
    requires Sized(block, size) && loc0 + |block.bytes| <= buf.Length && (block.count == 0 ==> size == 0)
    requires loc0 == at + |done| && |b0| == buf.Length && Written(b0, buf[..], at, done)
    modifies buf
    ensures loc == loc0 + |block.bytes|
    ensures Written(b0, buf[..], at, done + block.bytes)
  {
    hide Written;
    ghost var middle := buf[..];
    loc := loc0;
    if block.count > 0 {
      loc := Copy(buf, loc, block.bytes);
    } else {
      WrittenNothing(buf[..], loc);
    }
    WrittenTwice(b0, middle, buf[..], at, done, block.bytes);
  }

  lemma NurbsBytes(g: Geom, nd: nat)
    requires g.Nurbs? && WellFormed(g, nd)
    ensures g.control.count < UINT32_LIMIT && g.degree < UINT32_LIMIT
    ensures g.weights.count < UINT32_LIMIT && g.knots.count < UINT32_LIMIT
    ensures Sized(g.weights, 8 * g.weights.count) && Sized(g.knots, 8 * g.knots.count)
    ensures Sized(g.control, PointBytes(g.control.count, nd))
    ensures Encode(g, nd) == NurbsHead(g.control.count, g.degree, g.weights.count, g.knots.count)
                           + g.weights.bytes + g.knots.bytes + g.control.bytes
  {
    hide NurbsHead, PointBytes, ValidNurbs;
    DegreeBound(g.control.count, g.degree, g.weights, g.knots);
  }

  lemma PointBytesOfNone(nd: nat)
    ensures PointBytes(0, nd) == 0
  {
  }

  method WriteNurbsHead(npoints: nat, degree: nat, nweights: nat, nknots: nat, buf: array<byte>, at: nat)
    returns (loc: nat)
    requires npoints < UINT32_LIMIT && degree < UINT32_LIMIT && nweights < UINT32_LIMIT && nknots < UINT32_LIMIT
    requires at + 24 <= buf.Length
    modifies buf
    ensures loc == at + 24
    ensures Written(old(buf[..]), buf[..], at, NurbsHead(npoints, degree, nweights, nknots))
  {
    hide Bytes4, Written;
    ghost var b0 := buf[..];
    ghost var x2, x3, x4, x5 := Bytes4(degree), Bytes4(nweights), Bytes4(nknots), Bytes4(0);
    ghost var h := Bytes4(NURBSCURVETYPE) + Bytes4(npoints);
    loc := WriteHead(NURBSCURVETYPE, npoints, buf, at);
    ghost var b1 := buf[..];
    loc := Copy(buf, loc, Bytes4(degree));
    ghost var b2 := buf[..];
    WrittenTwice(b0, b1, b2, at, h, x2);
    loc := Copy(buf, loc, Bytes4(nweights));
    ghost var b3 := buf[..];
    WrittenTwice(b0, b2, b3, at, h + x2, x3);
    loc := Copy(buf, loc, Bytes4(nknots));
    ghost var b4 := buf[..];
    WrittenTwice(b0, b3, b4, at, h + x2 + x3, x4);
    loc := Copy(buf, loc, Bytes4(0));
    WrittenTwice(b0, b4, buf[..], at, h + x2 + x3 + x4, x5);
    assert h + x2 + x3 + x4 + x5 == NurbsHead(npoints, degree, nweights, nknots);
  }

  // ----- validating

  /** A word of a slice is a word of the buffer. */
  lemma WordInSlice(all: seq<byte>, from: nat, to: nat, at: nat)
    requires from + at + 4 <= to <= |all|
    ensures Word(all[from..to], at) == Word(all, from + at)
  {
  }

  lemma SliceOfSlice(all: seq<byte>, from: nat, to: nat, i: nat, j: nat)
    requires i <= j && from + j <= to <= |all|
    ensures all[from..to][i..j] == all[from + i..from + j]
  {
    var x, y := all[from..to][i..j], all[from + i..from + j];
    assert |x| == |y| && forall k :: 0 <= k < |x| ==> x[k] == y[k];
  }

  lemma SliceDrop(all: seq<byte>, from: nat, to: nat, n: nat)
    requires from + n <= to <= |all|
    ensures all[from..to][n..] == all[from + n..to]
  {
  }

  lemma SlicesAgree(all: seq<byte>, from: nat, to: nat, n: nat)
    requires from + n <= to <= |all|
    ensures Agree(all[from..], all[from..to], n)
  {
    assert all[from..][..n] == all[from..to][..n];
  }

  function CheckedAdd(a: nat, b: nat): (r: Option<nat>)
    ensures r == if a + b > SIZE_MAX then None else Some(a + b)
  {
    if b > SIZE_MAX - a then None else Some(a + b)
  }

  lemma {:induction false} TableBytesFrom(b: seq<byte>, count: nat, i: nat, nd: nat)
    requires i <= count && 4 * count <= |b|
    ensures TableBytes(b, count, nd) == TableBytes(b, i, nd) + TableBytes(b[4 * i..], count - i, nd)
    decreases i
  {
    hide Word, PointBytes;
    if i > 0 {
      TableBytesFrom(b[4..], count - 1, i - 1, nd);
      assert b[4..][4 * (i - 1)..] == b[4 * i..];
    } else {
      assert b[0..] == b;
    }
  }

  /** Adds up the ordinates announced by a ring table; `None` when the sum overflows. */
  method SumRingTable(buf: array<byte>, at: nat, count: nat, nd: nat) returns (r: Option<nat>)
    requires at + 4 * count <= buf.Length
    ensures r == var sum := TableBytes(buf[at..], count, nd); if sum > SIZE_MAX then None else Some(sum)
  {
    hide Word, PointBytes;
    var sum: nat := 0;
    for i := 0 to count
      invariant sum == TableBytes(buf[at..], i, nd) <= SIZE_MAX
    {
      TableBytesFrom(buf[at..], count, i, nd);
      TableBytesFrom(buf[at..], count, i + 1, nd);
      TableBytesFrom(buf[at..], i + 1, i, nd);
      assert buf[at..][4 * i..] == buf[at + 4 * i..];
      WordInSlice(buf[..], at + 4 * i, buf.Length, 0);
      assert buf[..][at + 4 * i..buf.Length] == buf[at + 4 * i..];
      assert TableBytes(buf[at + 4 * i..], 1, nd) == PointBytes(Word(buf[at + 4 * i..], 0), nd) by {
        OneRing(buf[at + 4 * i..], nd);
      }
      var npoints := Word(buf[..], at + 4 * i);
      var next := CheckedAdd(sum, PointBytes(npoints, nd));
      if next.None? {
        return None;
      }
      sum := next.value;
    }
    return Some(sum);
  }

  lemma OneRing(b: seq<byte>, nd: nat)
    requires |b| >= 4
    ensures TableBytes(b, 1, nd) == PointBytes(Word(b, 0), nd)
  {
  }

  /** Tests the NURBS invariants vector by vector. */
  method CheckNurbsVectors(npoints: nat, degree: nat, weights: Block, knots: Block) returns (ok: bool)
    requires |weights.bytes| == 8 * weights.count && |knots.bytes| == 8 * knots.count
    ensures ok == ValidNurbs(npoints, degree, weights, knots)
  {
    hide DoubleKey;
    if degree < 1 || degree > 10 {
      return false;
    }
    if npoints == 0 {
      return weights.count == 0 && knots.count == 0;
    }
    if npoints < degree + 1 {
      return false;
    }
    if weights.count > 0 && weights.count != npoints {
      return false;
    }
    if knots.count > 0 && knots.count != npoints + degree + 1 {
      return false;
    }
    for i := 0 to weights.count
      invariant PositiveWeights(weights.bytes, i)
    {
      if !IsFinite(weights.bytes, i) || DoubleKey(weights.bytes, i) <= 0 {
        return false;
      }
    }
    if knots.count > 0 {
      for i := 1 to knots.count
        invariant RisingKnots(knots.bytes, i)
      {
        if !KnotRises(knots.bytes, i) {
          return false;
        }
      }
    }
    return true;
  }

  method ValidatePolygon(buf: array<byte>, ptr: nat, end: nat, count: nat, nd: nat) returns (r: Option<nat>)
    requires ptr + 8 <= end <= buf.Length <= SIZE_MAX
    ensures r == CheckPolygon(buf[ptr..end], count, nd)
  {
    hide PointBytes, Word;
    var ringCounts := 4 * count;
    var padded := ringCounts + if count % 2 != 0 then 4 else 0;
    if padded > end - (ptr + 8) {
      return None;
    }
    var sum := SumRingTable(buf, ptr + 8, count, nd);
    SliceDrop(buf[..], ptr, end, 8);
    assert buf[..][ptr..end] == buf[ptr..end] && buf[..][ptr + 8..end] == buf[ptr + 8..end];
    SlicesAgree(buf[..], ptr + 8, end, 4 * count);
    assert buf[..][ptr + 8..] == buf[ptr + 8..];
    TableBytesLocal(buf[ptr + 8..], buf[ptr + 8..end], count, nd);
    if sum.None? {
      return None;
    }
    var consumed := CheckedAdd(8 + padded, sum.value);
    if consumed.None? || consumed.value > end - ptr {
      return None;
    }
    return consumed;
  }

  method ValidateNurbs(buf: array<byte>, ptr: nat, end: nat, count: nat, nd: nat) returns (r: Option<nat>)
    requires ptr + 8 <= end <= buf.Length
    ensures r == CheckNurbs(buf[ptr..end], count, nd)
  {
    hide PointBytes, Word, ValidNurbs;
    if end - ptr < 24 {
      return None;
    }
    ghost var all := buf[..];
    assert buf[ptr..end] == all[ptr..end];
    WordInSlice(all, ptr, end, 8);
    WordInSlice(all, ptr, end, 12);
    WordInSlice(all, ptr, end, 16);
    var degree, nweights, nknots := Word(buf[..], ptr + 8), Word(buf[..], ptr + 12), Word(buf[..], ptr + 16);
    var consumed := 24 + 8 * nweights + 8 * nknots + PointBytes(count, nd);
    if consumed > end - ptr {
      return None;
    }
    var weights := Block(nweights, buf[ptr + 24..ptr + 24 + 8 * nweights]);
    var knots := Block(nknots, buf[ptr + 24 + 8 * nweights..ptr + 24 + 8 * nweights + 8 * nknots]);
    SliceOfSlice(all, ptr, end, 24, 24 + 8 * nweights);
    SliceOfSlice(all, ptr, end, 24 + 8 * nweights, 24 + 8 * nweights + 8 * nknots);
    assert weights.bytes == all[ptr + 24..ptr + 24 + 8 * nweights];
    assert knots.bytes == all[ptr + 24 + 8 * nweights..ptr + 24 + 8 * nweights + 8 * nknots];
    var ok := CheckNurbsVectors(count, degree, weights, knots);
    if !ok {
      return None;
    }
    return Some(consumed);
  }

  /** The size of the geometry between `ptr` and `end`, if it is valid. */
  method ValidateBuffer(buf: array<byte>, ptr: nat, end: nat, nd: nat) returns (r: Option<nat>)
    requires ptr <= end <= buf.Length <= SIZE_MAX
    ensures r == Check(buf[ptr..end], nd)
    decreases end - ptr, 0
  {
    hide PointBytes, Word, AllowsSubtype, CheckPolygon, CheckNurbs;
    if end - ptr < 8 {
      return None;
    }
    ghost var all := buf[..];
    assert buf[ptr..end] == all[ptr..end];
    WordInSlice(all, ptr, end, 0);
    WordInSlice(all, ptr, end, 4);
    var kind, count := Word(buf[..], ptr), Word(buf[..], ptr + 4);
    if IsSimple(kind) {
      if kind == POINTTYPE && count > 1 {
        return None;
      }
      var consumed := 8 + PointBytes(count, nd);
      if consumed > end - ptr {
        return None;
      }
      return Some(consumed);
    } else if kind == POLYGONTYPE {
      r := ValidatePolygon(buf, ptr, end, count, nd);
    } else if IsCollection(kind) {
      var members := ValidateMembers(buf, ptr + 8, end, count, kind, nd);
      SliceDrop(buf[..], ptr, end, 8);
      assert buf[..][ptr..end] == buf[ptr..end] && buf[..][ptr + 8..end] == buf[ptr + 8..end];
      return if members.None? then None else Some(8 + members.value);
    } else if kind == NURBSCURVETYPE {
      r := ValidateNurbs(buf, ptr, end, count, nd);
    } else {
      return None;
    }
  }

  /** `r` with `n` more bytes in front. */
  function Behind(n: nat, r: Option<nat>): Option<nat> {
    if r.None? then None else Some(n + r.value)
  }

  lemma CheckManyStep(b: seq<byte>, count: nat, kind: nat, nd: nat)
    requires 0 < count
    ensures |b| < 4 || !AllowsSubtype(kind, Word(b, 0)) || Check(b, nd).None? ==> CheckMany(b, count, kind, nd).None?
    ensures |b| >= 4 && AllowsSubtype(kind, Word(b, 0)) && Check(b, nd).Some? ==>
              && Check(b, nd).value <= |b|
              && CheckMany(b, count, kind, nd)
                 == Behind(Check(b, nd).value, CheckMany(b[Check(b, nd).value..], count - 1, kind, nd))
  {
    hide Word, AllowsSubtype, Check;
  }

  lemma NoMembersCheck(b: seq<byte>, kind: nat, nd: nat)
    ensures CheckMany(b, 0, kind, nd) == Some(0)
  {
  }

  method ValidateMembers(buf: array<byte>, ptr: nat, end: nat, count: nat, kind: nat, nd: nat) returns (r: Option<nat>)
    requires ptr <= end <= buf.Length <= SIZE_MAX
    ensures r == CheckMany(buf[ptr..end], count, kind, nd)
    decreases end - ptr, 1
  {
    hide Word, AllowsSubtype, Check, CheckMany;
    var cursor := ptr;
    for i := 0 to count
      invariant ptr <= cursor <= end
      invariant CheckMany(buf[ptr..end], count, kind, nd)
             == Behind(cursor - ptr, CheckMany(buf[cursor..end], count - i, kind, nd))
    {
      CheckManyStep(buf[cursor..end], count - i, kind, nd);
      if end - cursor < 4 {
        return None;
      }
      assert buf[..][cursor..end] == buf[cursor..end];
      WordInSlice(buf[..], cursor, end, 0);
      var subtype := Word(buf[..], cursor);
      if !AllowsSubtype(kind, subtype) {
        return None;
      }
      var sub := ValidateBuffer(buf, cursor, end, nd);
      if sub.None? {
        return None;
      }
      SliceDrop(buf[..], cursor, end, sub.value);
      assert buf[..][cursor + sub.value..end] == buf[cursor + sub.value..end];
      cursor := cursor + sub.value;
    }
    NoMembersCheck(buf[cursor..end], kind, nd);
    return Some(cursor - ptr);
  }

  // ----- reading

  /** `r` with the items `done` in front, which took `n` bytes. */
  function After<T>(done: seq<T>, n: nat, r: Read<seq<T>>): Read<seq<T>> {
    if r.Done? then Done(done + r.value, n + r.size) else r
  }

  lemma AfterAfter<T>(a: seq<T>, n: nat, x: T, m: nat, r: Read<seq<T>>)
    ensures After(a, n, After([x], m, r)) == After(a + [x], n + m, r)
  {
    if r.Done? {
      assert a + ([x] + r.value) == a + [x] + r.value;
    }
  }

  /** One ring of a polygon that can be read. */
  lemma ReadRingsStep(table: seq<byte>, count: nat, b: seq<byte>, at: nat, nd: nat)
    requires 0 < count && 4 * count <= |table| && ReadRings(table, count, b, at, nd).Done?
    ensures var size := PointBytes(Word(table, 0), nd);
      && at + size <= |b|
      && ReadRings(table[4..], count - 1, b, at + size, nd).Done?
      && ReadRings(table, count, b, at, nd)
         == After([Block(Word(table, 0), b[at..at + size])], size, ReadRings(table[4..], count - 1, b, at + size, nd))
  {
    hide Word, PointBytes;
  }

  method ReadRingArrays(buf: array<byte>, ptr: nat, ghost end: nat, count: nat, nd: nat)
    returns (rings: seq<Block>, size: nat)
    requires ptr + 8 + 4 * count <= end <= buf.Length
    requires ReadRings(buf[ptr + 8..end], count, buf[ptr..end], RingsAt(count), nd).Done?
    ensures ReadRings(buf[ptr + 8..end], count, buf[ptr..end], RingsAt(count), nd) == Done(rings, size)
  {
    hide Word, PointBytes, ReadRings;
    ghost var b := buf[ptr..end];
    ghost var whole := ReadRings(buf[ptr + 8..end], count, b, RingsAt(count), nd);
    var table, ordinates := ptr + 8, RingsAt(count);
    rings := [];
    assert [] + whole.value == whole.value;
    for i := 0 to count
      invariant table == ptr + 8 + 4 * i && ordinates >= RingsAt(count)
      invariant ReadRings(buf[table..end], count - i, b, ordinates, nd).Done?
      invariant whole ==
                After(rings, ordinates - RingsAt(count), ReadRings(buf[table..end], count - i, b, ordinates, nd))
    {
      ReadRingsStep(buf[table..end], count - i, b, ordinates, nd);
      SliceDrop(buf[..], table, end, 4);
      assert buf[..][table..end] == buf[table..end] && buf[..][table + 4..end] == buf[table + 4..end];
      WordInSlice(buf[..], table, end, 0);
      var npoints := Word(buf[..], table);
      var bytes := PointBytes(npoints, nd);
      SliceOfSlice(buf[..], ptr, end, ordinates, ordinates + bytes);
      assert buf[..][ptr..end] == b;
      assert buf[..][ptr + ordinates..ptr + ordinates + bytes] == buf[ptr + ordinates..ptr + ordinates + bytes];
      AfterAfter(rings, ordinates - RingsAt(count), Block(npoints, b[ordinates..ordinates + bytes]), bytes,
                 ReadRings(buf[table + 4..end], count - i - 1, b, ordinates + bytes, nd));
      rings := rings + [Block(npoints, buf[ptr + ordinates..ptr + ordinates + bytes])];
      table := table + 4;
      ordinates := ordinates + bytes;
    }
    size := ordinates - RingsAt(count);
    NoRings(buf[table..end], b, ordinates, nd);
    assert rings + [] == rings;
  }

  lemma NoRings(table: seq<byte>, b: seq<byte>, at: nat, nd: nat)
    ensures ReadRings(table, 0, b, at, nd) == Done([], 0)
  {
  }

  method ReadSimple(buf: array<byte>, ptr: nat, ghost end: nat, kind: nat, count: nat, nd: nat)
    returns (g: Geom, size: nat)
    requires ptr + 8 <= end <= buf.Length && DecodeSimple(buf[ptr..end], kind, count, nd).Done?
    ensures DecodeSimple(buf[ptr..end], kind, count, nd) == Done(g, size)
  {
    hide PointBytes;
    var kept := if kind == POINTTYPE && count > 0 then 1 else count;
    var points := if kept > 0 then Block(kept, buf[ptr + 8..ptr + 8 + PointBytes(kept, nd)]) else Block(0, []);
    PointBytesOfNone(nd);
    ghost var all := buf[..];
    assert buf[ptr..end] == all[ptr..end];
    SliceOfSlice(all, ptr, end, 8, 8 + PointBytes(kept, nd));
    assert kept > 0 ==> points.bytes == all[ptr + 8..ptr + 8 + PointBytes(kept, nd)];
    g, size := Simple(kind, points), 8 + PointBytes(count, nd);
  }

  /** The block at a cursor, `at` bytes into a geometry. */
  method ReadBlockAt(buf: array<byte>, ptr: nat, ghost end: nat, at: nat, count: nat, size: nat)
    returns (block: Block)
    requires ptr <= end <= buf.Length && ReadBlock(buf[ptr..end], at, count, size).Some?
    ensures ReadBlock(buf[ptr..end], at, count, size) == Some(block)
  {
    block := Block(count, buf[ptr + at..ptr + at + size]);
    assert buf[..][ptr..end] == buf[ptr..end];
    SliceOfSlice(buf[..], ptr, end, at, at + size);
  }

  /** Reads a NURBS curve, rejecting vectors that break its invariants. */
  method ReadNurbs(buf: array<byte>, ptr: nat, ghost end: nat, count: nat, nd: nat) returns (r: Read<Geom>)
    requires ptr + 8 <= end <= buf.Length && !DecodeNurbs(buf[ptr..end], count, nd).OutOfBounds?
    ensures r == DecodeNurbs(buf[ptr..end], count, nd)
  {
    hide PointBytes, Word, ValidNurbs, ReadBlock;
    ghost var all := buf[..];
    assert buf[ptr..end] == all[ptr..end];
    WordInSlice(all, ptr, end, 8);
    WordInSlice(all, ptr, end, 12);
    WordInSlice(all, ptr, end, 16);
    var degree, nweights, nknots := Word(buf[..], ptr + 8), Word(buf[..], ptr + 12), Word(buf[..], ptr + 16);
    var cursor := 24;
    var weights := ReadBlockAt(buf, ptr, end, cursor, nweights, 8 * nweights);
    cursor := cursor + 8 * nweights;
    var knots := ReadBlockAt(buf, ptr, end, cursor, nknots, 8 * nknots);
    cursor := cursor + 8 * nknots;
    var ok := CheckNurbsVectors(count, degree, weights, knots);
    if !ok {
      return Invalid;
    }
    var control := ReadBlockAt(buf, ptr, end, cursor, count, PointBytes(count, nd));
    return Done(Nurbs(degree, weights, knots, control), cursor + PointBytes(count, nd));
  }

  /** Reads the geometry at `ptr`, or finds that it is none.  The reader is not told where the
      buffer ends: what it looks at has to lie before `end`. */
  method ReadAny(buf: array<byte>, ptr: nat, ghost end: nat, nd: nat) returns (r: Read<Geom>)
    requires ptr <= end <= buf.Length && !Decode(buf[ptr..end], nd).OutOfBounds?
    ensures r == Decode(buf[ptr..end], nd)
    decreases end - ptr, 0
  {
    hide PointBytes, Word, AllowsSubtype, DecodeNurbs, DecodeSimple;
    assert buf[ptr..end] == buf[..][ptr..end];
    WordInSlice(buf[..], ptr, end, 0);
    WordInSlice(buf[..], ptr, end, 4);
    var kind, count := Word(buf[..], ptr), Word(buf[..], ptr + 4);
    if IsSimple(kind) {
      var g, size := ReadSimple(buf, ptr, end, kind, count, nd);
      return Done(g, size);
    } else if kind == POLYGONTYPE {
      SliceDrop(buf[..], ptr, end, 8);
      assert buf[..][ptr..end] == buf[ptr..end] && buf[..][ptr + 8..end] == buf[ptr + 8..end];
      var rings, ringBytes := ReadRingArrays(buf, ptr, end, count, nd);
      return Done(Polygon(rings), RingsAt(count) + ringBytes);
    } else if IsCollection(kind) {
      SliceDrop(buf[..], ptr, end, 8);
      assert buf[..][ptr..end] == buf[ptr..end] && buf[..][ptr + 8..end] == buf[ptr + 8..end];
      var geoms := ReadMembers(buf, ptr + 8, end, count, kind, nd);
      return if geoms.Done? then Done(Collection(kind, geoms.value), 8 + geoms.size) else Invalid;
    } else if kind == NURBSCURVETYPE {
      r := ReadNurbs(buf, ptr, end, count, nd);
    } else {
      return Invalid;
    }
  }

  /** One member of a collection: what it is decides whether reading goes on. */
  lemma DecodeManyStep(b: seq<byte>, count: nat, kind: nat, nd: nat)
    requires 0 < count && !DecodeMany(b, count, kind, nd).OutOfBounds?
    ensures |b| >= 4
    ensures !AllowsSubtype(kind, Word(b, 0)) || Decode(b, nd).Invalid? ==> DecodeMany(b, count, kind, nd).Invalid?
    ensures AllowsSubtype(kind, Word(b, 0)) ==> !Decode(b, nd).OutOfBounds?
    ensures AllowsSubtype(kind, Word(b, 0)) && Decode(b, nd).Done? ==>
              var first := Decode(b, nd);
              && first.size <= |b|
              && !DecodeMany(b[first.size..], count - 1, kind, nd).OutOfBounds?
              && DecodeMany(b, count, kind, nd)
                 == After([first.value], first.size, DecodeMany(b[first.size..], count - 1, kind, nd))
  {
    hide Decode, Word, AllowsSubtype;
  }

  /** Reads the members of a collection, testing each one's type before it is read. */
  method ReadMembers(buf: array<byte>, ptr: nat, ghost end: nat, count: nat, kind: nat, nd: nat)
    returns (r: Read<seq<Geom>>)
    requires ptr <= end <= buf.Length && !DecodeMany(buf[ptr..end], count, kind, nd).OutOfBounds?
    ensures r == DecodeMany(buf[ptr..end], count, kind, nd)
    decreases end - ptr, 1
  {
    hide Word, AllowsSubtype, Decode, DecodeMany;
    ghost var whole := DecodeMany(buf[ptr..end], count, kind, nd);
    var cursor := ptr;
    var geoms := [];
    assert whole.Done? ==> [] + whole.value == whole.value;
    for i := 0 to count
      invariant ptr <= cursor <= end
      invariant !DecodeMany(buf[cursor..end], count - i, kind, nd).OutOfBounds?
      invariant whole == After(geoms, cursor - ptr, DecodeMany(buf[cursor..end], count - i, kind, nd))
    {
      DecodeManyStep(buf[cursor..end], count - i, kind, nd);
      assert buf[..][cursor..end] == buf[cursor..end];
      WordInSlice(buf[..], cursor, end, 0);
      var subtype := Word(buf[..], cursor);
      if !AllowsSubtype(kind, subtype) {
        return Invalid;
      }
      var member := ReadAny(buf, cursor, end, nd);
      if member.Invalid? {
        return Invalid;
      }
      SliceDrop(buf[..], cursor, end, member.size);
      assert buf[..][cursor + member.size..end] == buf[cursor + member.size..end];
      AfterAfter(geoms, cursor - ptr, member.value, member.size,
                 DecodeMany(buf[cursor + member.size..end], count - i - 1, kind, nd));
      geoms := geoms + [member.value];
      cursor := cursor + member.size;
    }
    NoGeoms(buf[cursor..end], kind, nd);
    assert geoms + [] == geoms;
    return Done(geoms, cursor - ptr);
  }

  lemma NoGeoms(b: seq<byte>, kind: nat, nd: nat)
    ensures DecodeMany(b, 0, kind, nd) == Done([], 0)
  {
  }

  /** Validates a payload and reads it, as every caller does. */
  method FromBuffer(buf: array<byte>, ptr: nat, end: nat, nd: nat) returns (g: Option<Geom>, size: nat)
    requires ptr <= end <= buf.Length < 0x1_0000_0000_0000_0000
    ensures g.Some? <==> Check(buf[ptr..end], nd).Some?
    ensures g.Some? ==> Check(buf[ptr..end], nd) == Some(size) && Decode(buf[ptr..end], nd) == Done(g.value, size)
    ensures g.Some? ==> WellFormed(g.value, nd)
  {
    hide Check, Decode, WellFormed;
    size := 0;
    var checked := ValidateBuffer(buf, ptr, end, nd);
    if checked.None? {
      return None, 0;
    }
    CheckedReads(buf[ptr..end], nd);
    var read := ReadAny(buf, ptr, end, nd);
    g, size := Some(read.value), read.size;
  }

  /** Writing a geometry into a fresh buffer of the computed size and reading it back gives
      the geometry, whatever the buffer held. */
  method RoundTrip(g: Geom, nd: nat, buf: array<byte>) returns (r: Option<Geom>)
    requires WellFormed(g, nd) && nd > 0 && buf.Length == Size(g, nd) < 0x1_0000_0000_0000_0000
    modifies buf
    ensures r == Some(g) && buf[..] == Encode(g, nd)
  {
    EncodedSize(g, nd);
    hide Check, Decode, WellFormed, Encode, Size;
    var n := WriteAny(g, nd, buf, 0);
    assert buf[..] == Encode(g, nd) + [] && buf[0..n] == buf[..];
    WrittenIsChecked(g, [], nd);
    DecodeWritten(g, [], nd);
    var size;
    r, size := FromBuffer(buf, 0, n, nd);
  }
}
