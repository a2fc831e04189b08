/** Vocabulary shared by the models. */
module Common {
  datatype Option<+T> = None | Some(value: T)

  /** The largest single-precision number, used as "no value yet". */
  const FLT_MAX: real := 340282346638528859811704183484516925440.0

  function Min(a: real, b: real): real {
    if a < b then a else b
  }

  function Max(a: real, b: real): real {
    if a > b then a else b
  }

  type byte = b: int | 0 <= b < 256

  const UINT32_LIMIT: nat := 0x1_0000_0000
  const SIZE_MAX: nat := 0xFFFF_FFFF_FFFF_FFFF

  // ----- geometry types

  const POINTTYPE: nat := 1
  const LINETYPE: nat := 2
  const POLYGONTYPE: nat := 3
  const MULTIPOINTTYPE: nat := 4
  const MULTILINETYPE: nat := 5
  const MULTIPOLYGONTYPE: nat := 6
  const COLLECTIONTYPE: nat := 7
  const CIRCSTRINGTYPE: nat := 8
  const COMPOUNDTYPE: nat := 9
  const CURVEPOLYTYPE: nat := 10
  const MULTICURVETYPE: nat := 11
  const MULTISURFACETYPE: nat := 12
  const POLYHEDRALSURFACETYPE: nat := 13
  const TRIANGLETYPE: nat := 14
  const TINTYPE: nat := 15
  const NURBSCURVETYPE: nat := 16

  /** Types that hold other geometries. */
  predicate IsCollection(kind: nat) {
    || kind == MULTIPOINTTYPE || kind == MULTILINETYPE || kind == MULTIPOLYGONTYPE || kind == COMPOUNDTYPE
    || kind == CURVEPOLYTYPE || kind == MULTICURVETYPE || kind == MULTISURFACETYPE
    || kind == POLYHEDRALSURFACETYPE || kind == TINTYPE || kind == COLLECTIONTYPE
  }

  /** The homogeneous collection that can hold a type. */
  function CollectionTypeOf(kind: nat): nat {
    if kind == POINTTYPE then MULTIPOINTTYPE
    else if kind == LINETYPE then MULTILINETYPE
    else if kind == POLYGONTYPE then MULTIPOLYGONTYPE
    else if kind == CIRCSTRINGTYPE || kind == COMPOUNDTYPE || kind == NURBSCURVETYPE then MULTICURVETYPE
    else if kind == CURVEPOLYTYPE then MULTISURFACETYPE
    else if kind == TRIANGLETYPE then TINTYPE
    else COLLECTIONTYPE
  }

  /** The types that a collection allows as members. */
  predicate AllowsSubtype(kind: nat, subtype: nat) {
    || kind == COLLECTIONTYPE
    || (kind == MULTIPOINTTYPE && subtype == POINTTYPE)
    || (kind == MULTILINETYPE && subtype == LINETYPE)
    || (kind == MULTIPOLYGONTYPE && subtype == POLYGONTYPE)
    || (kind == COMPOUNDTYPE && (subtype == LINETYPE || subtype == CIRCSTRINGTYPE || subtype == NURBSCURVETYPE))
    || (kind == CURVEPOLYTYPE
        && (subtype == CIRCSTRINGTYPE || subtype == LINETYPE || subtype == COMPOUNDTYPE || subtype == NURBSCURVETYPE))
    || (kind == MULTICURVETYPE
        && (subtype == CIRCSTRINGTYPE || subtype == LINETYPE || subtype == COMPOUNDTYPE || subtype == NURBSCURVETYPE))
    || (kind == MULTISURFACETYPE && (subtype == POLYGONTYPE || subtype == CURVEPOLYTYPE))
    || (kind == POLYHEDRALSURFACETYPE && subtype == POLYGONTYPE)
    || (kind == TINTYPE && subtype == TRIANGLETYPE)
  }
}
