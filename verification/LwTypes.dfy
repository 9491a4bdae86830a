/** Geometry type codes and limits shared by the models. */
module LwTypes {

  /** The largest finite IEEE 754 binary32 value. */
  const FLT_MAX: real := 340282346638528859811704183484516925440.0

  const POINTTYPE: nat := 1
  const LINETYPE: nat := 2
  const POLYGONTYPE: nat := 3
  const MULTIPOINTTYPE: nat := 4
  const MULTILINETYPE: nat := 5
  const MULTIPOLYGONTYPE: nat := 6
  const COLLECTIONTYPE: nat := 7
  const CIRCSTRINGTYPE: nat := 8
  const COMPOUNDTYPE: nat := 9
  const CURVEPOLYTYPE: nat := 10
  const MULTICURVETYPE: nat := 11
  const MULTISURFACETYPE: nat := 12
  const POLYHEDRALSURFACETYPE: nat := 13
  const TRIANGLETYPE: nat := 14
  const TINTYPE: nat := 15

  predicate IsCollection(t: nat) {
    t in {MULTIPOINTTYPE, MULTILINETYPE, MULTIPOLYGONTYPE, COLLECTIONTYPE, CURVEPOLYTYPE, COMPOUNDTYPE,
          MULTICURVETYPE, MULTISURFACETYPE, POLYHEDRALSURFACETYPE, TINTYPE}
  }

  function CollectionType(t: nat): nat {
    if t == POINTTYPE then MULTIPOINTTYPE
    else if t == LINETYPE then MULTILINETYPE
    else if t == POLYGONTYPE then MULTIPOLYGONTYPE
    else if t == CIRCSTRINGTYPE || t == COMPOUNDTYPE then MULTICURVETYPE
    else if t == CURVEPOLYTYPE then MULTISURFACETYPE
    else if t == TRIANGLETYPE then TINTYPE
    else COLLECTIONTYPE
  }

  function FpMin(a: real, b: real): real {
    if a < b then a else b
  }

  function FpMax(a: real, b: real): real {
    if a > b then a else b
  }
}
