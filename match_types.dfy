/** The element-type matching of the memcpy lowering (the match_types lambda).

    Starting from the destination and source pointee types, phase one unwraps one
    nesting level at a time on the side whose bit size is at least the other's (the
    source on a tie) until both are the same type; phase two then unwraps both sides in
    lockstep while the copy size in bytes is smaller than the element. Each side counts
    its unwrappings. Unwrapping a type that has no nesting level is fatal. */
module MatchTypes {
  import opened Wrappers
  import opened Types
  import opened IR

  /** The matched element types and how many levels each side was unwrapped. */
  datatype Matched = Matched(dstElem: Type, srcElem: Type, numDst: nat, numSrc: nat)

  /** Phase one, continued from dst and src after nd and ns unwrappings. */
  function Unify(dst: Type, src: Type, nd: nat, ns: nat): (r: Result<Matched, Fatal>)
    ensures r.Success? ==> r.value.dstElem == r.value.srcElem
    ensures r.Success? ==> r.value.numDst >= nd && r.value.numSrc >= ns
    ensures r.Success? ==> DescendN(dst, r.value.numDst - nd) == Some(r.value.dstElem)
    ensures r.Success? ==> DescendN(src, r.value.numSrc - ns) == Some(r.value.srcElem)
    ensures r.Failure? ==> r.error == CannotDescend
    decreases Depth(dst) + Depth(src)
  {
    if src == dst then Success(Matched(dst, src, nd, ns))
    else if SizeInBits(src) >= SizeInBits(dst) then
      match Descend(src)
      case None => Failure(CannotDescend)
      case Some(src') => Unify(dst, src', nd, ns + 1)
    else if SizeInBits(dst) >= SizeInBits(src) then
      match Descend(dst)
      case None => Failure(CannotDescend)
      case Some(dst') => Unify(dst', src, nd + 1, ns)
    else
      assert false; Failure(CannotDescend)
  }

  /** Phase two, continued from the matched types dst and src. */
  function Narrow(size: nat, dst: Type, src: Type, nd: nat, ns: nat): (r: Result<Matched, Fatal>)
    ensures r.Success? ==> size >= SizeInBits(r.value.dstElem) / 8
    ensures r.Success? ==> r.value.numDst - nd == r.value.numSrc - ns
    ensures r.Success? ==> r.value.numDst >= nd && r.value.numSrc >= ns
    ensures r.Success? ==> DescendN(dst, r.value.numDst - nd) == Some(r.value.dstElem)
    ensures r.Success? ==> DescendN(src, r.value.numSrc - ns) == Some(r.value.srcElem)
    ensures r.Success? && dst == src ==> r.value.dstElem == r.value.srcElem
    ensures r.Failure? ==> r.error == CannotDescend
    decreases Depth(dst)
  {
    if size < SizeInBits(dst) / 8 then
      match Descend(dst)
      case None => Failure(CannotDescend)
      case Some(dst') =>
        match Descend(src)
        case None => Failure(CannotDescend)
        case Some(src') => Narrow(size, dst', src', nd + 1, ns + 1)
    else Success(Matched(dst, src, nd, ns))
  }

  /** match_types on the pointee types of the destination and source. */
  function Match(size: nat, dst: Type, src: Type): Result<Matched, Fatal> {
    match Unify(dst, src, 0, 0)
    case Failure(e) => Failure(e)
    case Success(u) => Narrow(size, u.dstElem, u.srcElem, u.numDst, u.numSrc)
  }

  /** A successful match ends on one element type that both sides reach by exactly the
      counted unwrappings and that is no larger than the copy: the check that the
      pointee types agree (the assert after match_types) can never fail. */
  lemma {:induction false} MatchSound(size: nat, dst: Type, src: Type)
    requires Match(size, dst, src).Success?
    ensures var m := Match(size, dst, src).value;
      && m.dstElem == m.srcElem
      && DescendN(dst, m.numDst) == Some(m.dstElem)
      && DescendN(src, m.numSrc) == Some(m.srcElem)
      && size >= SizeInBits(m.dstElem) / 8
      && m.numDst <= Depth(dst) && m.numSrc <= Depth(src)
  {
    var u := Unify(dst, src, 0, 0).value;
    var m := Match(size, dst, src).value;
    DescendNAdd(dst, u.numDst, m.numDst - u.numDst);
    DescendNAdd(src, u.numSrc, m.numSrc - u.numSrc);
    DescendNBound(dst, m.numDst);
    DescendNBound(src, m.numSrc);
  }

  /** Equal pointee types need no phase-one unwrapping; a copy at least one element
      large needs none at all. */
  lemma {:induction false} MatchEqualTypes(size: nat, t: Type)
    requires size >= SizeInBits(t) / 8
    ensures Match(size, t, t) == Success(Matched(t, t, 0, 0))
  {
  }

  /** The worked case: a 16-byte copy from an i32 into a [2 x [2 x i32]] unwraps the
      destination twice and the source never, ending on i32. */
  lemma MatchExample()
    ensures Match(16, Array(Array(I32, 2), 2), I32) == Success(Matched(I32, I32, 2, 0))
  {
    var inner := Array(I32, 2);
    assert SizeInBits(inner) == 64;
    assert SizeInBits(Array(inner, 2)) == 128;
    assert Unify(inner, I32, 1, 0) == Unify(I32, I32, 2, 0);
  }

  /** match_types as the source runs it: two loops updating the element types and the
      unwrap counters in place. */
  method MatchTypesLoop(size: nat, dstPointee: Type, srcPointee: Type) returns (r: Result<Matched, Fatal>)
    ensures r == Match(size, dstPointee, srcPointee)
  {
    var dst, src := dstPointee, srcPointee;
    var nd, ns := 0, 0;
    while src != dst
      invariant Unify(dst, src, nd, ns) == Unify(dstPointee, srcPointee, 0, 0)
      decreases Depth(dst) + Depth(src)
    {
      if SizeInBits(src) >= SizeInBits(dst) {
        var next := Descend(src);
        if next.None? {
          return Failure(CannotDescend);
        }
        src := next.value;
        ns := ns + 1;
      } else if SizeInBits(dst) >= SizeInBits(src) {
        var next := Descend(dst);
        if next.None? {
          return Failure(CannotDescend);
        }
        dst := next.value;
        nd := nd + 1;
      } else {
        assert false;
      }
    }
    assert Unify(dstPointee, srcPointee, 0, 0) == Success(Matched(dst, src, nd, ns));
    var elemSize := SizeInBits(dst) / 8;
    while size < elemSize
      invariant elemSize == SizeInBits(dst) / 8
      invariant Narrow(size, dst, src, nd, ns) == Match(size, dstPointee, srcPointee)
      decreases Depth(dst)
    {
      var nextDst := Descend(dst);
      if nextDst.None? {
        return Failure(CannotDescend);
      }
      var nextSrc := Descend(src);
      if nextSrc.None? {
        return Failure(CannotDescend);
      }
      dst, src := nextDst.value, nextSrc.value;
      nd, ns := nd + 1, ns + 1;
      elemSize := SizeInBits(dst) / 8;
    }
    return Success(Matched(dst, src, nd, ns));
  }
}
