/** Type descriptors of the IR and the parts of the data layout the pass consults.

    The data layout is approximated: aggregates carry no padding, a pointer is
    PointerSizeInBits wide, and the allocation size of a type is its bit size rounded
    up to whole bytes. */
module Types {
  import opened Wrappers

  datatype ScalarKind = Int | Float

  /** A first-class IR type. Two types are the same type exactly when they are equal values. */
  datatype Type =
    | Scalar(kind: ScalarKind, bits: nat)
    | Pointer(pointee: Type)
    | Struct(fields: seq<Type>)
    | Array(elem: Type, count: nat)
    | Vector(elem: Type, lanes: nat)

  const PointerSizeInBits: nat := 64

  const I32: Type := Scalar(Int, 32)

  /** The size in bits of a value of type t (DataLayout::getTypeSizeInBits, padding ignored). */
  function SizeInBits(t: Type): nat
    decreases t, 1
  {
    match t
    case Scalar(_, bits) => bits
    case Pointer(_) => PointerSizeInBits
    case Struct(fields) => FieldsSizeInBits(fields)
    case Array(elem, count) => count * SizeInBits(elem)
    case Vector(elem, lanes) => lanes * SizeInBits(elem)
  }

  function FieldsSizeInBits(fields: seq<Type>): nat
    decreases fields, 0
  {
    if fields == [] then 0 else SizeInBits(fields[0]) + FieldsSizeInBits(fields[1..])
  }

  /** The allocation size in bytes (DataLayout::getTypeAllocSize, padding ignored). */
  function AllocSize(t: Type): (bytes: nat)
    ensures 8 * bytes >= SizeInBits(t) > 8 * bytes - 8
  {
    (SizeInBits(t) + 7) / 8
  }

  /** The ABI alignment in bytes (DataLayout::getABITypeAlignment, approximated). */
  function ABIAlign(t: Type): (align: nat)
    ensures align >= 1
    decreases t, 1
  {
    match t
    case Scalar(_, bits) => if bits <= 8 then 1 else (bits + 7) / 8
    case Pointer(_) => PointerSizeInBits / 8
    case Struct(fields) => FieldsAlign(fields)
    case Array(elem, _) => ABIAlign(elem)
    case Vector(elem, _) => ABIAlign(elem)
  }

  function FieldsAlign(fields: seq<Type>): (align: nat)
    ensures align >= 1
    decreases fields, 0
  {
    if fields == [] then 1
    else
      var a := ABIAlign(fields[0]);
      var b := FieldsAlign(fields[1..]);
      if a >= b then a else b
  }

  /** Type::getScalarSizeInBits: the width of a scalar, or of the lanes of a vector of
      scalars; zero for every other type. */
  function ScalarSizeInBits(t: Type): nat {
    match t
    case Scalar(_, bits) => bits
    case Vector(Scalar(_, bits), _) => bits
    case _ => 0
  }

  /** How many descend steps can still be taken from t. */
  function Depth(t: Type): nat
    decreases t
  {
    match t
    case Struct(fields) => if fields == [] then 0 else 1 + Depth(fields[0])
    case Array(elem, _) => 1 + Depth(elem)
    case Vector(elem, _) => 1 + Depth(elem)
    case _ => 0
  }

  /** True of the types descend_type knows how to descend into. */
  predicate Descendable(t: Type) {
    (t.Struct? && |t.fields| > 0) || t.Array? || t.Vector?
  }

  /** descend_type: one level down, to the first field of a struct or the element of an
      array or vector. Any other type is a fatal error (None). */
  function Descend(t: Type): (r: Option<Type>)
    ensures r.Some? <==> Descendable(t)
    ensures r.Some? ==> Depth(r.value) < Depth(t)
    ensures r.Some? ==> r.value < t
  {
    match t
    case Struct(fields) => if fields == [] then None else Some(fields[0])
    case Array(elem, _) => Some(elem)
    case Vector(elem, _) => Some(elem)
    case _ => None
  }

  /** n successive descend steps. */
  function DescendN(t: Type, n: nat): Option<Type>
    decreases n
  {
    if n == 0 then Some(t)
    else match Descend(t)
      case None => None
      case Some(u) => DescendN(u, n - 1)
  }

  /** Descending n steps and then k more is descending n + k steps. */
  lemma {:induction false} DescendNAdd(t: Type, n: nat, k: nat)
    requires DescendN(t, n).Some?
    ensures DescendN(t, n + k) == DescendN(DescendN(t, n).value, k)
    decreases n
  {
    if n > 0 {
      DescendNAdd(Descend(t).value, n - 1, k);
    }
  }

  /** Each step lowers the depth, so at most Depth(t) steps succeed. */
  lemma {:induction false} DescendNBound(t: Type, n: nat)
    requires DescendN(t, n).Some?
    ensures n + Depth(DescendN(t, n).value) <= Depth(t)
    decreases n
  {
    if n > 0 {
      DescendNBound(Descend(t).value, n - 1);
    }
  }
}
