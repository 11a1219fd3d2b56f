/** The lowering of llvm.memcpy calls (replaceMemcpy). Both pointer arguments must be
    bitcasts; the pointers they cast are matched to one element type (match_types), and
    the call is replaced by copy-memory calls: one for the whole copy when neither side
    was unwrapped, else one per element through a pair of geps. The bitcasts are erased
    once every call of the declaration is rewritten. */
module MemcpyLowering {
  import opened Wrappers
  import opened Types
  import opened IR
  import opened Rewrite
  import opened MatchTypes

  /** ConstantInt::get on the 32-bit integer type keeps the low 32 bits. */
  const I32Modulus: nat := 0x1_0000_0000

  // ---------------------------------------------------------------------------------
  // Phase one: the plan for one call

  /** The operand of a bitcast operator: a bitcast instruction (whose id is returned
      too) or a constant-expression bitcast. Anything else is not a bitcast. */
  function BitCastOperand(b: seq<Entry>, v: Value): Option<(Value, Option<Id>)> {
    match v
    case Ref(x, _) =>
      (match Find(b, x)
       case Some(BitCast(op, _)) => Some((op, Some(x)))
       case _ => None)
    case CastExpr(inner, _) => Some((inner, None))
    case _ => None
  }

  function CastIds(a: Option<Id>, b: Option<Id>): set<Id> {
    (if a.Some? then {a.value} else {}) + (if b.Some? then {b.value} else {})
  }

  /** The element size the pass works with: the bit size of the matched element type,
      in whole bytes. */
  function ElemBytes(mt: Matched): nat {
    SizeInBits(mt.dstElem) / 8
  }

  /** What one call copies: the uncast destination and source pointers and their
      pointee types, the bitcast instructions it looked through, the matched element
      types, the size in bytes and in elements, the destination alignment and the
      volatile flag. */
  datatype CopyPlan = CopyPlan(dst: Value, src: Value, dstTy: Type, srcTy: Type, casts: set<Id>,
                               mt: Matched, size: nat, count: nat, align: nat, vol: nat)

  /** Validate one call: both pointers bitcasts of pointers, a constant size that is a
      whole number of matched elements, an alignment that is a multiple of the
      element's, and a constant volatile flag. */
  function PlanCopy(b: seq<Entry>, c: Id): Result<CopyPlan, Fatal> {
    match Find(b, c)
    case Some(Call(_, args, align)) =>
      if |args| < 4 then Failure(MalformedCall)
      else
        var d := BitCastOperand(b, args[0]);
        if d.None? then Failure(NotABitCast)
        else
          var s := BitCastOperand(b, args[1]);
          if s.None? then Failure(NotABitCast)
          else
            var (dst, src) := (d.value.0, s.value.0);
            if !dst.ty.Pointer? || !src.ty.Pointer? then Failure(NotAPointer)
            else if !args[2].ConstInt? then Failure(NonConstantSize)
            else
              var size := args[2].n;
              (match Match(size, dst.ty.pointee, src.ty.pointee)
               case Failure(e) => Failure(e)
               case Success(mt) =>
                var eb := ElemBytes(mt);
                var ta := ABIAlign(mt.dstElem);
                if eb == 0 then Failure(ZeroSizedElement)
                else if size % eb != 0 then Failure(SizeNotMultiple)
                else if align < ta then Failure(UnderAligned)
                else if align % ta != 0 then Failure(MisAligned)
                else if !args[3].ConstInt? then Failure(NonConstantVolatile)
                else Success(CopyPlan(dst, src, dst.ty.pointee, src.ty.pointee, CastIds(d.value.1, s.value.1),
                                      mt, size, size / eb, align, args[3].n)))
    case _ => Failure(MalformedCall)
  }

  /** An accepted call: it is a call with at least four arguments, whose pointer
      arguments are bitcasts of pointers to the plan's types; its size is a constant
      that is a whole number of at least one matched element; its alignment is a
      multiple of the element's; and its volatile flag is a constant. */
  lemma PlanCopyAccepts(b: seq<Entry>, c: Id)
    requires PlanCopy(b, c).Success?
    ensures var p := PlanCopy(b, c).value;
      && Find(b, c).Some? && Find(b, c).value.Call? && |Find(b, c).value.args| >= 4
      && var args := Find(b, c).value.args;
      && BitCastOperand(b, args[0]).Some? && BitCastOperand(b, args[0]).value.0 == p.dst
      && BitCastOperand(b, args[1]).Some? && BitCastOperand(b, args[1]).value.0 == p.src
      && p.casts == CastIds(BitCastOperand(b, args[0]).value.1, BitCastOperand(b, args[1]).value.1)
      && p.dst.ty == Pointer(p.dstTy) && p.src.ty == Pointer(p.srcTy)
      && args[2] == ConstInt(args[2].ty, p.size)
      && Match(p.size, p.dstTy, p.srcTy) == Success(p.mt)
      && ElemBytes(p.mt) > 0 && p.size % ElemBytes(p.mt) == 0 && p.count == p.size / ElemBytes(p.mt)
      && p.align == Find(b, c).value.destAlign
      && p.align >= ABIAlign(p.mt.dstElem) && p.align % ABIAlign(p.mt.dstElem) == 0
      && args[3] == ConstInt(args[3].ty, p.vol)
  {
  }

  /** A validated plan copies at least one element, and both sides end on the same
      element type, reached by exactly the counted unwrappings. */
  lemma PlanCopySound(b: seq<Entry>, c: Id)
    requires PlanCopy(b, c).Success?
    ensures var p := PlanCopy(b, c).value;
      && p.mt.dstElem == p.mt.srcElem
      && DescendN(p.dstTy, p.mt.numDst) == Some(p.mt.dstElem)
      && DescendN(p.srcTy, p.mt.numSrc) == Some(p.mt.srcElem)
      && p.count >= 1
      && p.size == p.count * ElemBytes(p.mt)
  {
    var p := PlanCopy(b, c).value;
    PlanCopyAccepts(b, c);
    MatchSound(p.size, p.dstTy, p.srcTy);
    WholeElements(p.size, ElemBytes(p.mt));
  }

  lemma WholeElements(size: nat, eb: nat)
    requires eb > 0 && size % eb == 0 && size >= eb
    ensures size / eb >= 1 && size == (size / eb) * eb
  {
    assert size == (size / eb) * eb + size % eb;
  }

  /** The checks reject: a pointer argument that is not a bitcast, a size that is not a
      whole number of elements, and an alignment below or not a multiple of the
      element's. */
  lemma PlanCopyRejects(b: seq<Entry>, c: Id)
    requires Find(b, c).Some? && Find(b, c).value.Call? && |Find(b, c).value.args| >= 4
    ensures var args := Find(b, c).value.args;
      BitCastOperand(b, args[0]).None? ==> PlanCopy(b, c) == Failure(NotABitCast)
    ensures var args := Find(b, c).value.args;
      var align := Find(b, c).value.destAlign;
      var d, s := BitCastOperand(b, args[0]), BitCastOperand(b, args[1]);
      d.Some? && s.Some? && d.value.0.ty.Pointer? && s.value.0.ty.Pointer? && args[2].ConstInt? &&
      Match(args[2].n, d.value.0.ty.pointee, s.value.0.ty.pointee).Success? ==>
        var mt := Match(args[2].n, d.value.0.ty.pointee, s.value.0.ty.pointee).value;
        && (ElemBytes(mt) > 0 && args[2].n % ElemBytes(mt) != 0 ==> PlanCopy(b, c) == Failure(SizeNotMultiple))
        && ((ElemBytes(mt) > 0 && args[2].n % ElemBytes(mt) == 0 && align < ABIAlign(mt.dstElem)) ==>
              PlanCopy(b, c) == Failure(UnderAligned))
        && ((ElemBytes(mt) > 0 && args[2].n % ElemBytes(mt) == 0 && align >= ABIAlign(mt.dstElem) &&
             align % ABIAlign(mt.dstElem) != 0) ==> PlanCopy(b, c) == Failure(MisAligned))
  {
  }

  /** Phase one over the call sites in order: the first error, if any. */
  function CheckCopies(b: seq<Entry>, cs: seq<Id>): Option<Fatal>
    decreases |cs|
  {
    if cs == [] then None
    else match PlanCopy(b, cs[0])
      case Failure(e) => Some(e)
      case Success(_) => CheckCopies(b, cs[1..])
  }

  /** Phase one passes exactly when every call has a plan. */
  lemma {:induction false} CheckCopiesAll(b: seq<Entry>, cs: seq<Id>)
    ensures CheckCopies(b, cs).None? <==> forall i | 0 <= i < |cs| :: PlanCopy(b, cs[i]).Success?
    decreases |cs|
  {
    if cs != [] {
      CheckCopiesAll(b, cs[1..]);
      assert forall i | 0 <= i < |cs[1..]| :: cs[1..][i] == cs[i + 1];
      if PlanCopy(b, cs[0]).Success? && CheckCopies(b, cs[1..]).None? {
        forall i | 0 <= i < |cs| ensures PlanCopy(b, cs[i]).Success? {
          if i > 0 { assert cs[i] == cs[1..][i - 1]; }
        }
      }
    }
  }

  // ---------------------------------------------------------------------------------
  // Phase two: the copy-memory calls of one call

  function Zeros(k: nat): (r: seq<Value>)
    ensures |r| == k
  {
    seq(k, _ => ConstInt(I32, 0))
  }

  /** The arguments of a copy-memory call: destination, source, and the alignment and
      volatile flag as 32-bit constants. */
  function CopyArgs(dst: Value, src: Value, p: CopyPlan): seq<Value> {
    [dst, src, ConstInt(I32, p.align % I32Modulus), ConstInt(I32, p.vol % I32Modulus)]
  }

  /** The instruction at position j of the element copies: for element i = j / 3, the
      in-bounds gep into the source with index path 0^numSrc ++ [i], the gep into the
      destination with index path 0^numDst ++ [i], and the copy-memory call between
      them. */
  function CopyEntry(p: CopyPlan, fn: DeclId, next: Id, j: nat): Entry {
    var i := ConstInt(I32, j / 3);
    if j % 3 == 0 then
      Entry(next + j, Gep(p.srcTy, p.src, Zeros(p.mt.numSrc) + [i], true))
    else if j % 3 == 1 then
      Entry(next + j, Gep(p.dstTy, p.dst, Zeros(p.mt.numDst) + [i], false))
    else
      Entry(next + j, Call(fn, CopyArgs(Ref(next + j - 1, Pointer(p.mt.dstElem)),
                                        Ref(next + j - 2, Pointer(p.mt.srcElem)), p), 0))
  }

  /** The three instructions of element i: the source gep, the destination gep and
      the call. */
  function SrcGep(p: CopyPlan, next: Id, i: nat): Entry {
    Entry(next + 3 * i, Gep(p.srcTy, p.src, Zeros(p.mt.numSrc) + [ConstInt(I32, i)], true))
  }

  function DstGep(p: CopyPlan, next: Id, i: nat): Entry {
    Entry(next + 3 * i + 1, Gep(p.dstTy, p.dst, Zeros(p.mt.numDst) + [ConstInt(I32, i)], false))
  }

  function CopyCall(p: CopyPlan, fn: DeclId, next: Id, i: nat): Entry {
    Entry(next + 3 * i + 2, Call(fn, CopyArgs(Ref(next + 3 * i + 1, Pointer(p.mt.dstElem)),
                                              Ref(next + 3 * i, Pointer(p.mt.srcElem)), p), 0))
  }

  lemma CopyEntryParts(p: CopyPlan, fn: DeclId, next: Id, i: nat)
    ensures CopyEntry(p, fn, next, 3 * i) == SrcGep(p, next, i)
    ensures CopyEntry(p, fn, next, 3 * i + 1) == DstGep(p, next, i)
    ensures CopyEntry(p, fn, next, 3 * i + 2) == CopyCall(p, fn, next, i)
  {
    assert (3 * i) / 3 == i && (3 * i) % 3 == 0;
    assert (3 * i + 1) / 3 == i && (3 * i + 1) % 3 == 1;
    assert (3 * i + 2) / 3 == i && (3 * i + 2) % 3 == 2;
  }

  /** One copy per element for n elements, with ids next, next + 1, ... */
  function ElementCopies(p: CopyPlan, fn: DeclId, next: Id, n: nat): (es: seq<Entry>)
    ensures |es| == 3 * n
  {
    seq(3 * n, j requires 0 <= j => CopyEntry(p, fn, next, j))
  }

  lemma ElementCopiesGrow(p: CopyPlan, fn: DeclId, next: Id, n: nat)
    ensures ElementCopies(p, fn, next, n + 1)
              == ElementCopies(p, fn, next, n)
                 + [SrcGep(p, next, n), DstGep(p, next, n), CopyCall(p, fn, next, n)]
  {
    CopyEntryParts(p, fn, next, n);
  }

  /** The same, from the other end. */
  lemma ElementCopiesLast(p: CopyPlan, fn: DeclId, next: Id, n: nat)
    requires n > 0
    ensures ElementCopies(p, fn, next, n)
              == ElementCopies(p, fn, next, n - 1)
                 + [SrcGep(p, next, n - 1), DstGep(p, next, n - 1), CopyCall(p, fn, next, n - 1)]
  {
    ElementCopiesGrow(p, fn, next, n - 1);
  }

  /** A single copy-memory call between the uncast pointers. */
  function WholeCopy(p: CopyPlan, fn: DeclId, next: Id): seq<Entry> {
    [Entry(next, Call(fn, CopyArgs(p.dst, p.src, p), 0))]
  }

  /** As written, a single call is emitted whenever neither side was unwrapped. */
  predicate SingleCopyAsWritten(p: CopyPlan) {
    p.mt.numDst == 0 && p.mt.numSrc == 0
  }

  /** A single call copies one element, so it is right only when the copy is exactly
      one element. */
  predicate SingleCopy(p: CopyPlan) {
    SingleCopyAsWritten(p) && p.size == ElemBytes(p.mt)
  }

  function CopyEntriesAsWritten(p: CopyPlan, fn: DeclId, next: Id): seq<Entry> {
    if SingleCopyAsWritten(p) then WholeCopy(p, fn, next)
    else ElementCopies(p, fn, next, p.count)
  }

  function CopyEntries(p: CopyPlan, fn: DeclId, next: Id): seq<Entry> {
    if SingleCopy(p) then WholeCopy(p, fn, next)
    else ElementCopies(p, fn, next, p.count)
  }

  /** The copies of the program as written or as corrected. */
  function Copies(p: CopyPlan, fn: DeclId, next: Id, v: Variant): seq<Entry> {
    if v == AsWritten then CopyEntriesAsWritten(p, fn, next) else CopyEntries(p, fn, next)
  }

  /** The element loop as the source runs it: build the zero index paths, then for each
      element overwrite the last index and emit the two geps and the call. */
  method EmitElementCopies(p: CopyPlan, fn: DeclId, next: Id, n: nat) returns (es: seq<Entry>)
    ensures es == ElementCopies(p, fn, next, n)
  {
    var zero := ConstInt(I32, 0);
    var srcIndices: seq<Value> := [];
    var k := 0;
    while k < p.mt.numSrc
      invariant k <= p.mt.numSrc && srcIndices == Zeros(k)
    {
      srcIndices := srcIndices + [zero];
      k := k + 1;
    }
    var dstIndices: seq<Value> := [];
    k := 0;
    while k < p.mt.numDst
      invariant k <= p.mt.numDst && dstIndices == Zeros(k)
    {
      dstIndices := dstIndices + [zero];
      k := k + 1;
    }
    srcIndices := srcIndices + [zero];
    dstIndices := dstIndices + [zero];
    es := [];
    var i := 0;
    while i < n
      invariant i <= n
      invariant es == ElementCopies(p, fn, next, i)
      invariant |srcIndices| == p.mt.numSrc + 1 && srcIndices[..p.mt.numSrc] == Zeros(p.mt.numSrc)
      invariant |dstIndices| == p.mt.numDst + 1 && dstIndices[..p.mt.numDst] == Zeros(p.mt.numDst)
    {
      var index := ConstInt(I32, i);
      srcIndices := srcIndices[|srcIndices| - 1 := index];
      dstIndices := dstIndices[|dstIndices| - 1 := index];
      assert srcIndices == Zeros(p.mt.numSrc) + [index];
      assert dstIndices == Zeros(p.mt.numDst) + [index];
      var id := next + 3 * i;
      var srcPtr := Entry(id, Gep(p.srcTy, p.src, srcIndices, true));
      var dstPtr := Entry(id + 1, Gep(p.dstTy, p.dst, dstIndices, false));
      var call := Entry(id + 2, Call(fn, CopyArgs(Ref(id + 1, Pointer(p.mt.dstElem)), Ref(id, Pointer(p.mt.srcElem)), p), 0));
      ElementCopiesGrow(p, fn, next, i);
      assert (3 * i + 2) / 3 == i && (3 * i + 1) / 3 == i && (3 * i) / 3 == i;
      es := es + [srcPtr, dstPtr, call];
      i := i + 1;
    }
  }

  // ---------------------------------------------------------------------------------
  // Which bytes the calls copy

  function Shift(r: Option<(Type, nat)>, off: nat): Option<(Type, nat)> {
    match r
    case None => None
    case Some((u, o)) => Some((u, off + o))
  }

  /** The bytes before field k of a struct. */
  function FieldsOffset(fs: seq<Type>, k: nat): nat
    requires k <= |fs|
    decreases k
  {
    if k == 0 then 0 else FieldsOffset(fs, k - 1) + AllocSize(fs[k - 1])
  }

  /** The type reached and the byte offset of the gep indices after the first, walking
      into t: an array or vector index steps over whole elements, a struct index over
      the fields before it. */
  function PathStep(t: Type, idx: seq<Value>): Option<(Type, nat)>
    decreases |idx|
  {
    if idx == [] then Some((t, 0))
    else if !idx[0].ConstInt? then None
    else
      var k := idx[0].n;
      match t
      case Array(e, _) => Shift(PathStep(e, idx[1..]), k * AllocSize(e))
      case Vector(e, _) => Shift(PathStep(e, idx[1..]), k * AllocSize(e))
      case Struct(fs) => if k < |fs| then Shift(PathStep(fs[k], idx[1..]), FieldsOffset(fs, k)) else None
      case _ => None
  }

  /** The type and offset a gep over pointee type t computes: the first index steps
      over whole pointees. */
  function GepTarget(t: Type, idx: seq<Value>): Option<(Type, nat)> {
    if idx == [] || !idx[0].ConstInt? then None
    else Shift(PathStep(t, idx[1..]), idx[0].n * AllocSize(t))
  }

  /** A copy of len bytes from s to d: each destination byte d + k, k < len, gets the
      source byte s + k. */
  function Pairs(d: int, s: int, len: nat): map<int, int> {
    map x | d <= x < d + len && Within(x, d, len) :: x - d + s
  }

  /** x is one of the len bytes from d on. It repeats the range bound of Pairs only so
      that quantifiers over the map's keys have a term to match on. */
  predicate Within(x: int, d: int, len: nat) {
    d <= x < d + len
  }

  lemma PairsJoin(d: int, s: int, x: nat, d': int, s': int, y: nat, len: nat)
    requires d' == d + x && s' == s + x && len == x + y
    ensures Pairs(d, s, x) + Pairs(d', s', y) == Pairs(d, s, len)
  {
    var m, m' := Pairs(d, s, x) + Pairs(d', s', y), Pairs(d, s, len);
    assert m.Keys == m'.Keys;
    forall k | k in m
      ensures m[k] == m'[k]
    {
    }
  }

  /** The addresses of the pointer values computed so far, and for each destination
      byte copied so far, the source byte it was copied from. */
  datatype CopyState = CopyState(addrs: map<Value, int>, copied: map<int, int>)

  /** Run one instruction: a gep records the address it computes; a call to the
      copy-memory function fn copies the pointee of its destination, byte by byte,
      from its source. */
  function Step(fn: DeclId, st: CopyState, e: Entry): CopyState {
    match e.inst
    case Gep(t, base, idx, _) =>
      if base in st.addrs && GepTarget(t, idx).Some? then
        var (u, off) := GepTarget(t, idx).value;
        st.(addrs := st.addrs[Ref(e.id, Pointer(u)) := st.addrs[base] + off])
      else st
    case Call(f, args, _) =>
      if f == fn && |args| >= 2 && args[0] in st.addrs && args[1] in st.addrs && args[0].ty.Pointer? then
        st.(copied := st.copied + Pairs(st.addrs[args[0]], st.addrs[args[1]], AllocSize(args[0].ty.pointee)))
      else st
    case _ => st
  }

  function Run(fn: DeclId, st: CopyState, es: seq<Entry>): CopyState
    decreases |es|
  {
    if es == [] then st else Step(fn, Run(fn, st, es[..|es| - 1]), es[|es| - 1])
  }

  lemma RunGrow(fn: DeclId, st: CopyState, es: seq<Entry>, e0: Entry, e1: Entry, e2: Entry)
    ensures Run(fn, st, es + [e0, e1, e2]) == Step(fn, Step(fn, Step(fn, Run(fn, st, es), e0), e1), e2)
  {
    var es1, es2, es3 := es + [e0], es + [e0, e1], es + [e0, e1, e2];
    assert es3[..|es3| - 1] == es2 && es3[|es3| - 1] == e2;
    assert es2[..|es2| - 1] == es1 && es2[|es2| - 1] == e1;
    assert es1[..|es1| - 1] == es && es1[|es1| - 1] == e0;
    assert Run(fn, st, es3) == Step(fn, Run(fn, st, es2), e2);
    assert Run(fn, st, es2) == Step(fn, Run(fn, st, es1), e1);
    assert Run(fn, st, es1) == Step(fn, Run(fn, st, es), e0);
  }

  /** Walking into a nest by zero indices stays at offset 0; a last index i into an
      array or vector lands on element i. */
  lemma {:induction false} PathZeros(t: Type, j: nat, i: nat)
    requires DescendN(t, j).Some? && (DescendN(t, j).value.Array? || DescendN(t, j).value.Vector?)
    ensures DescendN(t, j + 1).Some?
    ensures PathStep(t, Zeros(j) + [ConstInt(I32, i)])
              == Some((DescendN(t, j + 1).value, i * AllocSize(DescendN(t, j + 1).value)))
    decreases j
  {
    var idx := Zeros(j) + [ConstInt(I32, i)];
    if j == 0 {
      assert idx == [ConstInt(I32, i)];
      assert idx[1..] == [];
    } else {
      var u := Descend(t).value;
      assert idx[1..] == Zeros(j - 1) + [ConstInt(I32, i)];
      PathZeros(u, j - 1, i);
    }
  }

  /** The last level the index path walks is an array or vector nest. */
  predicate Uniform(t: Type, k: nat) {
    k == 0 || (DescendN(t, k - 1).Some? && (DescendN(t, k - 1).value.Array? || DescendN(t, k - 1).value.Vector?))
  }

  lemma GepZeros(t: Type, k: nat, i: nat)
    requires DescendN(t, k).Some? && Uniform(t, k)
    ensures GepTarget(t, Zeros(k) + [ConstInt(I32, i)]) == Some((DescendN(t, k).value, i * AllocSize(DescendN(t, k).value)))
  {
    var idx := Zeros(k) + [ConstInt(I32, i)];
    if k == 0 {
      assert idx == [ConstInt(I32, i)];
      assert idx[1..] == [];
    } else {
      assert idx[1..] == Zeros(k - 1) + [ConstInt(I32, i)];
      PathZeros(t, k - 1, i);
      assert k - 1 + 1 == k;
    }
  }

  /** A pointer value that no instruction numbered from next on defines. */
  predicate Before(v: Value, next: Id) {
    !(v.Ref? && v.id >= next)
  }

  /** What the element copies need of a plan: both sides reach the element type by
      their unwrappings through an array or vector last, and the copy starts with the
      two pointers at their addresses. */
  predicate ElementwisePlan(p: CopyPlan, next: Id) {
    && p.mt.srcElem == p.mt.dstElem
    && DescendN(p.srcTy, p.mt.numSrc) == Some(p.mt.srcElem) && Uniform(p.srcTy, p.mt.numSrc)
    && DescendN(p.dstTy, p.mt.numDst) == Some(p.mt.dstElem) && Uniform(p.dstTy, p.mt.numDst)
    && Before(p.dst, next) && Before(p.src, next)
  }

  predicate AtStart(st: CopyState, p: CopyPlan, a: int, s: int) {
    p.dst in st.addrs && st.addrs[p.dst] == a && p.src in st.addrs && st.addrs[p.src] == s
  }

  /** n elements of sz bytes. */
  function Bytes(n: nat, sz: nat): nat {
    if n == 0 then 0 else Bytes(n - 1, sz) + sz
  }

  lemma {:induction false} BytesMul(n: nat, sz: nat)
    ensures Bytes(n, sz) == n * sz
  {
    if n > 0 {
      BytesMul(n - 1, sz);
    }
  }

  /** The state after copying len bytes from the start. */
  predicate Reached(st: CopyState, p: CopyPlan, a: int, s: int, len: nat) {
    AtStart(st, p, a, s) && st.copied == Pairs(a, s, len)
  }

  /** A gep with index path 0^k ++ [i] over t lands on element i of the type k
      unwrappings down. */
  lemma GepLands(fn: DeclId, st: CopyState, e: Entry, t: Type, k: nat, i: nat)
    requires e.inst.Gep? && e.inst.sourceTy == t && e.inst.indices == Zeros(k) + [ConstInt(I32, i)]
    requires e.inst.base in st.addrs && DescendN(t, k).Some? && Uniform(t, k)
    ensures var u := DescendN(t, k).value;
      Step(fn, st, e) == st.(addrs := st.addrs[Ref(e.id, Pointer(u)) := st.addrs[e.inst.base] + i * AllocSize(u)])
  {
    GepZeros(t, k, i);
  }

  /** The two geps of element i: the source one lands len bytes into the source, the
      destination one len bytes into the destination. */
  lemma ElementGeps(fn: DeclId, p: CopyPlan, next: Id, st: CopyState, i: nat, a: int, s: int, len: nat)
    requires ElementwisePlan(p, next) && Reached(st, p, a, s, len)
    requires len == i * AllocSize(p.mt.dstElem)
    ensures var st2 := Step(fn, Step(fn, st, SrcGep(p, next, i)), DstGep(p, next, i));
      var e := p.mt.dstElem;
      && Reached(st2, p, a, s, len)
      && Ref(next + 3 * i, Pointer(e)) in st2.addrs && st2.addrs[Ref(next + 3 * i, Pointer(e))] == s + len
      && Ref(next + 3 * i + 1, Pointer(e)) in st2.addrs && st2.addrs[Ref(next + 3 * i + 1, Pointer(e))] == a + len
  {
    var e := p.mt.dstElem;
    var g0, g1 := SrcGep(p, next, i), DstGep(p, next, i);
    GepLands(fn, st, g0, p.srcTy, p.mt.numSrc, i);
    var st1 := Step(fn, st, g0);
    GepLands(fn, st1, g1, p.dstTy, p.mt.numDst, i);
  }

  /** The call of element i copies AllocSize(e) more bytes. */
  lemma ElementCall(fn: DeclId, p: CopyPlan, next: Id, st: CopyState, i: nat, a: int, s: int, len: nat, len': nat)
    requires Reached(st, p, a, s, len) && len' == len + AllocSize(p.mt.dstElem) && p.mt.srcElem == p.mt.dstElem
    requires var e := p.mt.dstElem;
      && Ref(next + 3 * i, Pointer(e)) in st.addrs && st.addrs[Ref(next + 3 * i, Pointer(e))] == s + len
      && Ref(next + 3 * i + 1, Pointer(e)) in st.addrs && st.addrs[Ref(next + 3 * i + 1, Pointer(e))] == a + len
    ensures Reached(Step(fn, st, CopyCall(p, fn, next, i)), p, a, s, len')
  {
    CallCopies(fn, p, next, st, i, a + len, s + len);
    PairsJoin(a, s, len, a + len, s + len, AllocSize(p.mt.dstElem), len');
  }

  /** The call of element i adds the pairs of one element, from the addresses of the
      two geps before it. */
  lemma CallCopies(fn: DeclId, p: CopyPlan, next: Id, st: CopyState, i: nat, d: int, s: int)
    requires p.mt.srcElem == p.mt.dstElem
    requires var e := p.mt.dstElem;
      && Ref(next + 3 * i, Pointer(e)) in st.addrs && st.addrs[Ref(next + 3 * i, Pointer(e))] == s
      && Ref(next + 3 * i + 1, Pointer(e)) in st.addrs && st.addrs[Ref(next + 3 * i + 1, Pointer(e))] == d
    ensures Step(fn, st, CopyCall(p, fn, next, i)) == CopyState(st.addrs, st.copied + Pairs(d, s, AllocSize(p.mt.dstElem)))
  {
    var call := CopyCall(p, fn, next, i);
    assert call.inst.args[0] == Ref(next + 3 * i + 1, Pointer(p.mt.dstElem));
    assert call.inst.args[1] == Ref(next + 3 * i, Pointer(p.mt.srcElem));
  }

  /** Element i: the geps land on element i of each side and the call copies it. */
  lemma ElementStep(fn: DeclId, p: CopyPlan, next: Id, st: CopyState, i: nat, a: int, s: int, len: nat, len': nat)
    requires ElementwisePlan(p, next) && Reached(st, p, a, s, len)
    requires len == Bytes(i, AllocSize(p.mt.dstElem)) && len' == len + AllocSize(p.mt.dstElem)
    ensures Reached(Step(fn, Step(fn, Step(fn, st, SrcGep(p, next, i)),
                                  DstGep(p, next, i)), CopyCall(p, fn, next, i)),
                    p, a, s, len')
  {
    BytesMul(i, AllocSize(p.mt.dstElem));
    ElementGeps(fn, p, next, st, i, a, s, len);
    var st2 := Step(fn, Step(fn, st, SrcGep(p, next, i)), DstGep(p, next, i));
    ElementCall(fn, p, next, st2, i, a, s, len, len');
  }

  /** ElementStep after the first n - 1 element copies. */
  lemma {:induction false} RunElement(fn: DeclId, p: CopyPlan, next: Id, st0: CopyState, n: nat, a: int, s: int, len: nat, len': nat)
    requires n > 0 && ElementwisePlan(p, next) && Reached(Run(fn, st0, ElementCopies(p, fn, next, n - 1)), p, a, s, len)
    requires len == Bytes(n - 1, AllocSize(p.mt.dstElem)) && len' == len + AllocSize(p.mt.dstElem)
    ensures Reached(Run(fn, st0, ElementCopies(p, fn, next, n)), p, a, s, len')
  {
    ElementCopiesLast(p, fn, next, n);
    RunElementAfter(fn, p, next, st0, n - 1, ElementCopies(p, fn, next, n - 1), ElementCopies(p, fn, next, n),
                    a, s, len, len');
  }

  /** The same over any entries prev run before element i. */
  lemma RunElementAfter(fn: DeclId, p: CopyPlan, next: Id, st0: CopyState, i: nat, prev: seq<Entry>, cur: seq<Entry>,
                        a: int, s: int, len: nat, len': nat)
    requires cur == prev + [SrcGep(p, next, i), DstGep(p, next, i), CopyCall(p, fn, next, i)]
    requires ElementwisePlan(p, next) && Reached(Run(fn, st0, prev), p, a, s, len)
    requires len == Bytes(i, AllocSize(p.mt.dstElem)) && len' == len + AllocSize(p.mt.dstElem)
    ensures Reached(Run(fn, st0, cur), p, a, s, len')
  {
    RunGrow(fn, st0, prev, SrcGep(p, next, i), DstGep(p, next, i), CopyCall(p, fn, next, i));
    ElementStep(fn, p, next, Run(fn, st0, prev), i, a, s, len, len');
  }

  /** n element copies from the start copy the first n elements, len bytes. */
  lemma {:induction false} ElementCopiesRun(fn: DeclId, p: CopyPlan, next: Id, n: nat, st0: CopyState,
                                            a: int, s: int, len: nat)
    requires ElementwisePlan(p, next) && AtStart(st0, p, a, s) && st0.copied == map[]
    requires len == Bytes(n, AllocSize(p.mt.dstElem))
    ensures Reached(Run(fn, st0, ElementCopies(p, fn, next, n)), p, a, s, len)
    decreases n
  {
    if n > 0 {
      var sz := AllocSize(p.mt.dstElem);
      var prior := Bytes(n - 1, sz);
      ElementCopiesRun(fn, p, next, n - 1, st0, a, s, prior);
      RunElement(fn, p, next, st0, n, a, s, prior, len);
    } else {
      assert ElementCopies(p, fn, next, 0) == [];
    }
  }

  /** The destination and source pointers at addresses a and s, nothing copied yet. */
  function Start(p: CopyPlan, a: int, s: int): CopyState {
    CopyState(map[p.dst := a, p.src := s], map[])
  }

  /** The conditions under which the copy semantics above applies to a plan: the last
      unwrapping on each side is through an array or vector, the element is a whole
      number of bytes, the pointers are defined before the new instructions, and a
      pointer used as both destination and source has one address. */
  predicate Addressable(p: CopyPlan, next: Id, a: int, s: int) {
    && Uniform(p.dstTy, p.mt.numDst) && Uniform(p.srcTy, p.mt.numSrc)
    && SizeInBits(p.mt.dstElem) % 8 == 0
    && Before(p.dst, next) && Before(p.src, next)
    && (p.dst == p.src ==> a == s)
  }

  lemma ElementwiseOfPlan(b: seq<Entry>, c: Id, next: Id, a: int, s: int)
    requires PlanCopy(b, c).Success? && Addressable(PlanCopy(b, c).value, next, a, s)
    ensures var p := PlanCopy(b, c).value;
      && ElementwisePlan(p, next)
      && AtStart(Start(p, a, s), p, a, s)
      && AllocSize(p.mt.dstElem) == ElemBytes(p.mt)
      && p.size == Bytes(p.count, ElemBytes(p.mt))
      && p.count >= 1
  {
    var p := PlanCopy(b, c).value;
    PlanCopySound(b, c);
    BytesMul(p.count, ElemBytes(p.mt));
  }

  /** The calls replacing a memcpy copy exactly its Size bytes: each byte of the
      destination from the source byte at the same offset. */
  lemma CopyEntriesCover(b: seq<Entry>, c: Id, fn: DeclId, next: Id, a: int, s: int)
    requires PlanCopy(b, c).Success?
    requires Addressable(PlanCopy(b, c).value, next, a, s)
    ensures var p := PlanCopy(b, c).value;
      Run(fn, Start(p, a, s), CopyEntries(p, fn, next)).copied == Pairs(a, s, p.size)
  {
    var p := PlanCopy(b, c).value;
    ElementwiseOfPlan(b, c, next, a, s);
    if SingleCopy(p) {
      var es := WholeCopy(p, fn, next);
      assert es[..0] == [];
    } else {
      ElementCopiesRun(fn, p, next, p.count, Start(p, a, s), a, s, p.size);
    }
  }

  /** As written, a memcpy of several elements between pointers to the element type
      itself becomes one call that copies only the first element: the byte at offset
      ElemBytes is not copied. */
  lemma CopyEntriesAsWrittenShort(b: seq<Entry>, c: Id, fn: DeclId, next: Id, a: int, s: int)
    requires PlanCopy(b, c).Success?
    requires Addressable(PlanCopy(b, c).value, next, a, s)
    requires SingleCopyAsWritten(PlanCopy(b, c).value) && PlanCopy(b, c).value.size != ElemBytes(PlanCopy(b, c).value.mt)
    ensures var p := PlanCopy(b, c).value;
      var copied := Run(fn, Start(p, a, s), CopyEntriesAsWritten(p, fn, next)).copied;
      && copied == Pairs(a, s, ElemBytes(p.mt))
      && a + ElemBytes(p.mt) in Pairs(a, s, p.size) && a + ElemBytes(p.mt) !in copied
  {
    var p := PlanCopy(b, c).value;
    ElementwiseOfPlan(b, c, next, a, s);
    var es := WholeCopy(p, fn, next);
    assert es[..0] == [];
    assert p.count >= 2;
  }

  /** A copy of two i32 values between i32 pointers, both cast to i8 pointers. */
  function TwoIntCopy(): seq<Entry> {
    var i8p := Pointer(Scalar(Int, 8));
    [ Entry(0, BitCast(External(0, Pointer(I32)), i8p)),
      Entry(1, BitCast(External(1, Pointer(I32)), i8p)),
      Entry(2, Call(0, [Ref(0, i8p), Ref(1, i8p), ConstInt(Scalar(Int, 64), 8), ConstInt(Scalar(Int, 1), 0)], 4)) ]
  }

  /** The input that shows the short copy: it is accepted, neither side is unwrapped,
      and its 8 bytes are two elements. */
  lemma TwoIntCopyIsShort()
    ensures PlanCopy(TwoIntCopy(), 2).Success?
    ensures var p := PlanCopy(TwoIntCopy(), 2).value;
      SingleCopyAsWritten(p) && p.size == 8 && ElemBytes(p.mt) == 4 && Addressable(p, 3, 100, 200)
  {
    var b := TwoIntCopy();
    assert Find(b, 2) == Some(b[2].inst);
    assert Find(b, 0) == Some(b[0].inst);
    assert Find(b, 1) == Some(b[1].inst);
    MatchEqualTypes(8, I32);
  }

  // ---------------------------------------------------------------------------------
  // The rewrite of one call, of one declaration, and of the module

  /** Replace one call by its copies, which call a copy-memory function declared for
      this call; return the bitcast instructions the call looked through. */
  function MemcpyCallStep(m: Module, c: Id, v: Variant): Result<(Module, set<Id>), Fatal> {
    match PlanCopy(m.body, c)
    case Failure(e) => Failure(e)
    case Success(p) =>
      var m1 := AddDecl(m, CopyMemory);
      var es := Copies(p, m.nextDecl, m.nextId, v);
      Success((m1.(body := SpliceCall(m1.body, c, es), nextId := m.nextId + |es|), p.casts))
  }

  /** The calls in order, collecting the bitcasts to erase afterwards. */
  function MemcpyCalls(m: Module, cs: seq<Id>, v: Variant): Result<(Module, set<Id>), Fatal>
    decreases |cs|
  {
    if cs == [] then Success((m, {}))
    else
      match MemcpyCalls(m, cs[..|cs| - 1], v)
      case Failure(e) => Failure(e)
      case Success((m1, casts)) =>
        (match MemcpyCallStep(m1, cs[|cs| - 1], v)
         case Failure(e) => Failure(e)
         case Success((m2, more)) => Success((m2, casts + more)))
  }

  /** The collected bitcasts are erased, but only those nothing uses any more. */
  function DropCasts(b: seq<Entry>, casts: set<Id>): seq<Entry> {
    EraseSet(b, casts - Refs(b))
  }

  /** The members of s from k up to hi. */
  function Between(s: set<Id>, k: nat, hi: nat): set<Id> {
    set x | x in s && k <= x < hi
  }

  /** The collected bitcasts as the source erases them: every one, whatever still uses
      it, taken here in ascending id order from k up to hi; LLVM stops on erasing an
      instruction that is in use. */
  function EraseCasts(b: seq<Entry>, casts: set<Id>, k: nat, hi: nat): Result<seq<Entry>, Fatal>
    decreases hi - k
  {
    if k >= hi then Success(b)
    else if k !in casts then EraseCasts(b, casts, k + 1, hi)
    else if k in Refs(b) then Failure(ErasedWhileUsed)
    else EraseCasts(Erase(b, k), casts, k + 1, hi)
  }

  /** The erasure of the collected bitcasts, all of whose ids are below hi: as written,
      every one; corrected, those nothing uses any more. */
  function ForgetCasts(b: seq<Entry>, casts: set<Id>, hi: nat, v: Variant): Result<seq<Entry>, Fatal> {
    if v == AsWritten then EraseCasts(b, casts, 0, hi) else Success(DropCasts(b, casts))
  }

  /** One declaration: check every call, replace the calls, then erase the bitcasts.
      The declaration itself stays. */
  function MemcpyDecl(m: Module, d: DeclId, v: Variant): Result<Module, Fatal> {
    var cs := CallIds(m.body, d);
    match CheckCopies(m.body, cs)
    case Some(e) => Failure(e)
    case None =>
      (match MemcpyCalls(m, cs, v)
       case Failure(e) => Failure(e)
       case Success((m1, casts)) =>
         (match ForgetCasts(m1.body, casts, m1.nextId, v)
          case Failure(e) => Failure(e)
          case Success(b) => Success(m1.(body := b))))
  }

  function MemcpyDecls(m: Module, ds: seq<DeclId>, v: Variant): Result<Module, Fatal>
    decreases |ds|
  {
    if ds == [] then Success(m)
    else
      match MemcpyDecls(m, ds[..|ds| - 1], v)
      case Failure(e) => Failure(e)
      case Success(m') => MemcpyDecl(m', ds[|ds| - 1], v)
  }

  /** One call more: the fold over the first j + 1 calls is the next call's rewrite of
      the fold over the first j, its bitcasts added to those collected. */
  lemma MemcpyCallsNext(m: Module, cs: seq<Id>, j: nat, mj: Module, casts: set<Id>, v: Variant)
    requires j < |cs| && MemcpyCalls(m, cs[..j], v) == Success((mj, casts))
    ensures MemcpyCallStep(mj, cs[j], v).Failure? ==> MemcpyCalls(m, cs[..j + 1], v) == Failure(MemcpyCallStep(mj, cs[j], v).error)
    ensures MemcpyCallStep(mj, cs[j], v).Success? ==>
      MemcpyCalls(m, cs[..j + 1], v) == Success((MemcpyCallStep(mj, cs[j], v).value.0, casts + MemcpyCallStep(mj, cs[j], v).value.1))
  {
    assert cs[..j + 1][..j] == cs[..j];
  }

  /** One declaration more: the fold over the first i + 1 declarations is the next
      declaration's rewrite of the fold over the first i. */
  lemma MemcpyDeclsNext(m: Module, ds: seq<DeclId>, i: nat, mi: Module, v: Variant)
    requires i < |ds| && MemcpyDecls(m, ds[..i], v) == Success(mi)
    ensures MemcpyDecls(m, ds[..i + 1], v) == MemcpyDecl(mi, ds[i], v)
  {
    assert ds[..i + 1][..i] == ds[..i];
  }

  /** replaceMemcpy: every llvm.memcpy declaration in module order; it never reports a
      change. */
  function ReplaceMemcpy(m: Module, v: Variant): Result<(Module, bool), Fatal> {
    match MemcpyDecls(m, DeclsOf(m.decls, Memcpy), v)
    case Failure(e) => Failure(e)
    case Success(m') => Success((m', false))
  }

  // ---------------------------------------------------------------------------------
  // Erasing the bitcasts

  /** Erasing x and then the set t is erasing t and x. */
  lemma {:induction false} EraseSetErase(b: seq<Entry>, x: Id, t: set<Id>)
    ensures EraseSet(Erase(b, x), t) == EraseSet(b, t + {x})
    decreases |b|
  {
    if b != [] {
      EraseSetErase(b[1..], x, t);
      if b[0].id != x {
        assert ([b[0]] + Erase(b[1..], x))[1..] == Erase(b[1..], x);
      }
    }
  }

  /** As written, the erasure either removes every collected bitcast from k up to hi or
      stops on one still in use. */
  lemma {:induction false} EraseCastsResult(b: seq<Entry>, casts: set<Id>, k: nat, hi: nat)
    ensures EraseCasts(b, casts, k, hi).Success? ==> EraseCasts(b, casts, k, hi).value == EraseSet(b, Between(casts, k, hi))
    ensures EraseCasts(b, casts, k, hi).Failure? ==> EraseCasts(b, casts, k, hi).error == ErasedWhileUsed
    decreases hi - k
  {
    if k >= hi {
      assert Between(casts, k, hi) == {};
      EraseNothing(b, {});
    } else if k !in casts {
      EraseCastsResult(b, casts, k + 1, hi);
      assert Between(casts, k, hi) == Between(casts, k + 1, hi);
    } else if k !in Refs(b) {
      EraseCastsResult(Erase(b, k), casts, k + 1, hi);
      EraseSetErase(b, k, Between(casts, k + 1, hi));
      assert Between(casts, k, hi) == Between(casts, k + 1, hi) + {k};
    }
  }

  /** When nothing uses any of the collected bitcasts, erasing them all succeeds. */
  lemma {:induction false} EraseCastsUnused(b: seq<Entry>, casts: set<Id>, k: nat, hi: nat)
    requires Between(casts, k, hi) !! Refs(b)
    ensures EraseCasts(b, casts, k, hi).Success?
    decreases hi - k
  {
    if k < hi {
      assert Between(casts, k + 1, hi) <= Between(casts, k, hi);
      if k in casts {
        CollectErase(b, k, RefsQ);
        EraseCastsUnused(Erase(b, k), casts, k + 1, hi);
      } else {
        EraseCastsUnused(b, casts, k + 1, hi);
      }
    }
  }

  /** As written, an instruction y that is not itself erased and uses a collected
      bitcast x makes the erasure stop. */
  lemma {:induction false} EraseCastsSharedFails(b: seq<Entry>, casts: set<Id>, k: nat, hi: nat, x: Id, y: Id)
    requires x in casts && k <= x < hi && y !in casts
    requires Find(b, y).Some? && x in InstRefs(Find(b, y).value)
    ensures EraseCasts(b, casts, k, hi) == Failure(ErasedWhileUsed)
    decreases hi - k
  {
    if k == x {
      FindFacts(b, y, []);
    } else if k !in casts {
      EraseCastsSharedFails(b, casts, k + 1, hi, x, y);
    } else if k !in Refs(b) {
      FindErase(b, k, y);
      EraseCastsSharedFails(Erase(b, k), casts, k + 1, hi, x, y);
    }
  }

  /** When nothing uses any of the collected bitcasts, all below hi, the source's
      erasure and the corrected one agree. */
  lemma ForgetCastsAgree(b: seq<Entry>, casts: set<Id>, hi: nat)
    requires casts !! Refs(b) && forall x | x in casts :: x < hi
    ensures ForgetCasts(b, casts, hi, AsWritten) == ForgetCasts(b, casts, hi, Corrected)
  {
    EraseCastsUnused(b, casts, 0, hi);
    EraseCastsResult(b, casts, 0, hi);
    assert Between(casts, 0, hi) == casts;
    assert casts - Refs(b) == casts;
  }

  /** The corrected erasure never leaves a use dangling, and keeps every bitcast that is
      still used. */
  lemma DropCastsClosed(b: seq<Entry>, casts: set<Id>)
    requires Closed(b)
    ensures Closed(DropCasts(b, casts))
    ensures Ids(DropCasts(b, casts)) == Ids(b) - (casts - Refs(b))
  {
    var gone := casts - Refs(b);
    CollectEraseSet(b, gone, IdsQ);
    CollectEraseSet(b, gone, RefsQ);
  }

  // ---------------------------------------------------------------------------------
  // Well-formedness of one rewritten call

  lemma {:induction false} ConstsRefs(vs: seq<Value>)
    requires forall i | 0 <= i < |vs| :: vs[i].ConstInt?
    ensures ValuesRefs(vs) == {}
    decreases |vs|
  {
    if vs != [] {
      ConstsRefs(vs[1..]);
    }
  }

  /** The source gep uses the source pointer, the destination gep the destination
      pointer, and the call the two geps before it. */
  lemma CopyEntryRefs(p: CopyPlan, fn: DeclId, next: Id, j: nat)
    ensures InstRefs(CopyEntry(p, fn, next, j).inst)
      == if j % 3 == 0 then ValueRefs(p.src)
         else if j % 3 == 1 then ValueRefs(p.dst)
         else {next + j - 1, next + j - 2}
  {
    var i := ConstInt(I32, j / 3);
    if j % 3 == 0 {
      ConstsRefs(Zeros(p.mt.numSrc) + [i]);
      ValuesRefsCons(p.src, Zeros(p.mt.numSrc) + [i]);
    } else if j % 3 == 1 {
      ConstsRefs(Zeros(p.mt.numDst) + [i]);
      ValuesRefsCons(p.dst, Zeros(p.mt.numDst) + [i]);
    } else {
      var args := CopyArgs(Ref(next + j - 1, Pointer(p.mt.dstElem)), Ref(next + j - 2, Pointer(p.mt.srcElem)), p);
      ConstsRefs(args[2..]);
      assert args == [args[0]] + ([args[1]] + args[2..]);
      ValuesRefsCons(args[1], args[2..]);
      ValuesRefsCons(args[0], [args[1]] + args[2..]);
    }
  }

  /** The whole copy is one call, which uses only the two pointers. */
  lemma WholeCopyShape(p: CopyPlan, fn: DeclId, next: Id, decls: seq<Decl>)
    ensures var es := WholeCopy(p, fn, next);
      && Distinct(es)
      && (forall x :: x in Ids(es) <==> next <= x < next + |es|)
      && Refs(es) <= ValueRefs(p.dst) + ValueRefs(p.src)
  {
    var es := WholeCopy(p, fn, next);
    var args := CopyArgs(p.dst, p.src, p);
    ConstsRefs(args[2..]);
    assert args == [args[0]] + ([args[1]] + args[2..]);
    ValuesRefsCons(args[1], args[2..]);
    ValuesRefsCons(args[0], [args[1]] + args[2..]);
    assert es == [es[0]] + [];
    CollectCons(es[0], [], RefsQ);
    CollectCons(es[0], [], IdsQ);
    DistinctCons(es[0], []);
  }

  /** Only the calls, at offsets 2, 5, 8, ... from next, can produce no value. */
  lemma ElementCopiesVoids(p: CopyPlan, fn: DeclId, next: Id, n: nat, decls: seq<Decl>)
    ensures forall x | x in Voids(decls, ElementCopies(p, fn, next, n)) :: x >= next && (x - next) % 3 == 2
  {
    var es := ElementCopies(p, fn, next, n);
    var isCall := (x: nat) => x >= next && (x - next) % 3 == 2;
    forall i, x | 0 <= i < |es| && x in Pick(VoidsQ(decls), es[i])
      ensures isCall(x)
    {
      assert es[i] == CopyEntry(p, fn, next, i);
    }
    CollectSat(es, VoidsQ(decls), isCall);
  }

  lemma ElementCopiesIds(p: CopyPlan, fn: DeclId, next: Id, n: nat)
    ensures Distinct(ElementCopies(p, fn, next, n))
    ensures forall x :: x in Ids(ElementCopies(p, fn, next, n)) <==> next <= x < next + 3 * n
  {
    var es := ElementCopies(p, fn, next, n);
    assert forall i | 0 <= i < |es| :: es[i] == CopyEntry(p, fn, next, i);
    ConsecutiveIds(es, next);
  }

  /** The element copies use only the two pointers and their own geps. */
  lemma ElementCopiesRefs(p: CopyPlan, fn: DeclId, next: Id, n: nat, decls: seq<Decl>)
    ensures var es := ElementCopies(p, fn, next, n);
      Refs(es) <= ValueRefs(p.dst) + ValueRefs(p.src) + (Ids(es) - Voids(decls, es))
  {
    var es := ElementCopies(p, fn, next, n);
    var allowed := ValueRefs(p.dst) + ValueRefs(p.src) + (Ids(es) - Voids(decls, es));
    forall j | 0 <= j < |es|
      ensures Pick(RefsQ, es[j]) <= allowed
    {
      assert es[j] == CopyEntry(p, fn, next, j);
      CopyEntryRefs(p, fn, next, j);
      if j % 3 == 2 {
        GepsProduce(p, fn, next, n, decls, j);
      }
    }
    CollectBound(es, RefsQ, allowed);
  }

  /** The two geps before the call at position j are values of the element copies. */
  lemma GepsProduce(p: CopyPlan, fn: DeclId, next: Id, n: nat, decls: seq<Decl>, j: nat)
    requires j < 3 * n && j % 3 == 2
    ensures var es := ElementCopies(p, fn, next, n);
      next + j - 2 in Ids(es) - Voids(decls, es) && next + j - 1 in Ids(es) - Voids(decls, es)
  {
    ElementCopiesIds(p, fn, next, n);
    ElementCopiesVoids(p, fn, next, n, decls);
    assert (next + j - 2) - next == 3 * (j / 3);
    assert (next + j - 1) - next == 3 * (j / 3) + 1;
  }

  /** Whether the copies are the single whole copy. */
  predicate Single(p: CopyPlan, v: Variant) {
    if v == AsWritten then SingleCopyAsWritten(p) else SingleCopy(p)
  }

  /** Every copy calls fn. */
  lemma CopiesCallees(p: CopyPlan, fn: DeclId, next: Id, v: Variant)
    ensures Callees(Copies(p, fn, next, v)) <= {fn}
    ensures forall q | fn !in q :: CallsTo(Copies(p, fn, next, v), q) == {}
  {
    var es := Copies(p, fn, next, v);
    if !Single(p, v) {
      assert es == ElementCopies(p, fn, next, p.count);
      assert forall j | 0 <= j < |es| :: es[j] == CopyEntry(p, fn, next, j);
    }
    CollectBound(es, CalleesQ, {fn});
    forall q | fn !in q
      ensures CallsTo(es, q) == {}
    {
      CollectBound(es, CallsToQ(q), {});
    }
  }

  /** The element copies are numbered from next on and use only the two pointers and
      their own geps. */
  lemma ElementCopiesShape(p: CopyPlan, fn: DeclId, next: Id, n: nat, decls: seq<Decl>)
    ensures var es := ElementCopies(p, fn, next, n);
      && Distinct(es)
      && (forall x :: x in Ids(es) <==> next <= x < next + |es|)
      && Refs(es) <= ValueRefs(p.dst) + ValueRefs(p.src) + (Ids(es) - Voids(decls, es))
  {
    ElementCopiesIds(p, fn, next, n);
    ElementCopiesRefs(p, fn, next, n, decls);
  }

  /** The copies are numbered from next on, use only the two pointers and their own
      geps, and call only fn. */
  lemma CopiesShape(p: CopyPlan, fn: DeclId, next: Id, decls: seq<Decl>, v: Variant)
    ensures var es := Copies(p, fn, next, v);
      && Distinct(es)
      && (forall x :: x in Ids(es) <==> next <= x < next + |es|)
      && Refs(es) <= ValueRefs(p.dst) + ValueRefs(p.src) + (Ids(es) - Voids(decls, es))
      && Callees(es) <= {fn}
      && (forall q | fn !in q :: CallsTo(es, q) == {})
  {
    CopiesCallees(p, fn, next, v);
    if Single(p, v) {
      WholeCopyShape(p, fn, next, decls);
    } else {
      ElementCopiesShape(p, fn, next, p.count, decls);
    }
  }

  /** The pointer a bitcast operator casts is one the module already uses; a bitcast
      instruction it names is in the module. */
  lemma BitCastOperandFacts(b: seq<Entry>, v: Value)
    requires ValueRefs(v) <= Refs(b) && BitCastOperand(b, v).Some?
    ensures ValueRefs(BitCastOperand(b, v).value.0) <= Refs(b)
    ensures BitCastOperand(b, v).value.1.Some? ==>
      var x := BitCastOperand(b, v).value.1.value;
      Find(b, x).Some? && Find(b, x).value.BitCast?
  {
    if v.Ref? {
      FindFacts(b, v.id, []);
      assert InstRefs(Find(b, v.id).value) == ValuesRefs([Find(b, v.id).value.operand]);
      assert [Find(b, v.id).value.operand][1..] == [];
    }
  }

  /** The pointers a plan copies between are used by the module already; the bitcasts
      it collected are bitcast instructions of the module. */
  lemma PlanCopyFacts(b: seq<Entry>, c: Id)
    requires PlanCopy(b, c).Success?
    ensures Find(b, c).Some? && Find(b, c).value.Call?
    ensures var p := PlanCopy(b, c).value;
      && ValueRefs(p.dst) + ValueRefs(p.src) <= Refs(b)
      && forall x | x in p.casts :: Find(b, x).Some? && Find(b, x).value.BitCast?
  {
    PlanCopyAccepts(b, c);
    var args := Find(b, c).value.args;
    FindFacts(b, c, []);
    ValueRefsIn(args, 0);
    ValueRefsIn(args, 1);
    BitCastOperandFacts(b, args[0]);
    BitCastOperandFacts(b, args[1]);
  }

  /** A plan depends only on the call and on the instructions it uses. */
  lemma PlanCopyFrame(b: seq<Entry>, b': seq<Entry>, c: Id)
    requires Find(b', c) == Find(b, c)
    requires Find(b, c).Some? ==> forall x | x in InstRefs(Find(b, c).value) :: Find(b', x) == Find(b, x)
    ensures PlanCopy(b', c) == PlanCopy(b, c)
  {
    if Find(b, c).Some? && Find(b, c).value.Call? && |Find(b, c).value.args| >= 4 {
      var args := Find(b, c).value.args;
      ValueRefsIn(args, 0);
      ValueRefsIn(args, 1);
      assert BitCastOperand(b', args[0]) == BitCastOperand(b, args[0]);
      assert BitCastOperand(b', args[1]) == BitCastOperand(b, args[1]);
    }
  }

  lemma MemcpySpliceOk(m: Module, c: Id, v: Variant)
    requires WellFormed(m) && c in CallsTo(m.body, FamilyDecls(m.decls, Memcpy))
    requires PlanCopy(m.body, c).Success?
    ensures var p := PlanCopy(m.body, c).value;
      var es := Copies(p, m.nextDecl, m.nextId, v);
      SpliceCallOk(AddDecl(m, CopyMemory), c, es, m.nextId + |es|)
  {
    var p := PlanCopy(m.body, c).value;
    var fn := m.nextDecl;
    var m1 := AddDecl(m, CopyMemory);
    var es := Copies(p, fn, m.nextId, v);
    VoidCallsUnused(m, Memcpy);
    CallsToOnlyCallees(m.body, {});
    CollectIdsBound(m.body, CallsToQ(FamilyDecls(m.decls, Memcpy)));
    AddDeclWellFormed(m, CopyMemory);
    assert DeclIds(m1.decls) == DeclIds(m.decls) + {fn} by {
      AppendDeclFacts(m.decls, Decl(fn, CopyMemory));
    }
    PlanCopyFacts(m.body, c);
    CopiesShape(p, fn, m.nextId, m1.decls, v);
    SpliceCallOkFromShape(m1, c, es, ValueRefs(p.dst) + ValueRefs(p.src));
  }

  /** Replacing an unused call by new instructions that call only a function declared
      for them: the module stays well formed, only that declaration is new, the other
      functions lose exactly that call, and the other old instructions stay. */
  lemma NewDeclSpliceFacts(m: Module, c: Id, f: Family, es: seq<Entry>)
    requires WellFormed(m) && SpliceCallOk(AddDecl(m, f), c, es, m.nextId + |es|)
    requires forall q | m.nextDecl !in q :: CallsTo(es, q) == {}
    ensures var m' := AddDecl(m, f).(body := SpliceCall(m.body, c, es), nextId := m.nextId + |es|);
      && WellFormed(m')
      && m'.nextDecl == m.nextDecl + 1
      && (forall g :: FamilyDecls(m'.decls, g) == FamilyDecls(m.decls, g) + (if g == f then {m.nextDecl} else {}))
      && (forall q | m.nextDecl !in q :: CallsTo(m'.body, q) == CallsTo(m.body, q) - {c})
      && (forall y | y in Ids(m.body) && y != c :: Find(m'.body, y) == Find(m.body, y))
  {
    NewDeclSpliceWellFormed(m, c, f, es);
    assert AddDecl(m, f).body == m.body;
    NewDeclSpliceCalls(m, c, es);
    NewDeclSpliceFind(m, c, f, es);
  }

  lemma NewDeclSpliceWellFormed(m: Module, c: Id, f: Family, es: seq<Entry>)
    requires WellFormed(m) && SpliceCallOk(AddDecl(m, f), c, es, m.nextId + |es|)
    ensures var m' := AddDecl(m, f).(body := SpliceCall(m.body, c, es), nextId := m.nextId + |es|);
      && WellFormed(m')
      && (forall g :: FamilyDecls(m'.decls, g) == FamilyDecls(m.decls, g) + (if g == f then {m.nextDecl} else {}))
  {
    var m1 := AddDecl(m, f);
    AddDeclWellFormed(m, f);
    SpliceCallWellFormed(m1, c, es, m.nextId + |es|);
    assert m1.body == m.body;
  }

  lemma NewDeclSpliceCalls(m: Module, c: Id, es: seq<Entry>)
    requires c in Ids(m.body)
    requires forall q | m.nextDecl !in q :: CallsTo(es, q) == {}
    ensures forall q | m.nextDecl !in q :: CallsTo(SpliceCall(m.body, c, es), q) == CallsTo(m.body, q) - {c}
  {
    forall q | m.nextDecl !in q
      ensures CallsTo(SpliceCall(m.body, c, es), q) == CallsTo(m.body, q) - {c}
    {
      assert CallsTo(es, q) == {};
      SpliceFacts(m.body, c, es, CallsToQ(q));
    }
  }

  lemma NewDeclSpliceFind(m: Module, c: Id, f: Family, es: seq<Entry>)
    requires WellFormed(m) && SpliceCallOk(AddDecl(m, f), c, es, m.nextId + |es|)
    ensures forall y | y in Ids(m.body) && y != c :: Find(SpliceCall(m.body, c, es), y) == Find(m.body, y)
  {
    forall y | y in Ids(m.body) && y != c
      ensures Find(SpliceCall(m.body, c, es), y) == Find(m.body, y)
    {
      assert y < m.nextId;
      assert y !in Ids(es);
      SpliceFind(m.body, c, es, y);
    }
  }

  /** Rewriting one call keeps the module well formed, declares exactly one new
      copy-memory function, which only the new calls call, removes exactly that call
      from the calls to the other functions, and leaves every other old instruction as
      it was; the bitcasts it returns are bitcast instructions of the module. */
  lemma MemcpyCallStepFacts(m: Module, c: Id, v: Variant)
    requires WellFormed(m) && c in CallsTo(m.body, FamilyDecls(m.decls, Memcpy))
    requires PlanCopy(m.body, c).Success?
    ensures MemcpyCallStep(m, c, v).Success?
    ensures var (m', casts) := MemcpyCallStep(m, c, v).value;
      && WellFormed(m')
      && m'.nextDecl == m.nextDecl + 1
      && (forall f :: FamilyDecls(m'.decls, f) == FamilyDecls(m.decls, f) + (if f == CopyMemory then {m.nextDecl} else {}))
      && (forall q | m.nextDecl !in q :: CallsTo(m'.body, q) == CallsTo(m.body, q) - {c})
      && (forall y | y in Ids(m.body) && y != c :: Find(m'.body, y) == Find(m.body, y))
      && (forall x | x in casts :: Find(m.body, x).Some? && Find(m.body, x).value.BitCast?)
      && casts == PlanCopy(m.body, c).value.casts
      && KeepsOthers(m, {c}, {}, m')
  {
    var p := PlanCopy(m.body, c).value;
    var es := Copies(p, m.nextDecl, m.nextId, v);
    MemcpySpliceOk(m, c, v);
    CopiesCallees(p, m.nextDecl, m.nextId, v);
    PlanCopyFacts(m.body, c);
    NewDeclSpliceFacts(m, c, CopyMemory, es);
    var m1 := AddDecl(m, CopyMemory);
    AddDeclWellFormed(m, CopyMemory);
    CopiesShape(p, m.nextDecl, m.nextId, m1.decls, v);
    SpliceCallKeeps(m1, c, es, m.nextId + |es|);
  }

  // ---------------------------------------------------------------------------------
  // Well-formedness of the whole rewrite

  /** The declaration ids from lo up to hi. */
  function Fresh(lo: nat, hi: nat): (r: set<DeclId>)
    ensures forall k :: k in r <==> lo <= k < hi
    decreases hi
  {
    if hi <= lo then {} else Fresh(lo, hi - 1) + {hi - 1}
  }

  /** Phase one fails with the error of one of the calls. */
  lemma {:induction false} CheckCopiesError(b: seq<Entry>, cs: seq<Id>)
    requires CheckCopies(b, cs).Some?
    ensures exists i | 0 <= i < |cs| :: PlanCopy(b, cs[i]) == Failure(CheckCopies(b, cs).value)
    decreases |cs|
  {
    if PlanCopy(b, cs[0]).Success? {
      CheckCopiesError(b, cs[1..]);
      var i :| 0 <= i < |cs[1..]| && PlanCopy(b, cs[1..][i]) == Failure(CheckCopies(b, cs[1..]).value);
      assert cs[1..][i] == cs[i + 1];
    }
  }

  /** The bitcasts the plans of the calls cs look through. */
  function CastsOf(b: seq<Entry>, cs: seq<Id>): set<Id>
    decreases |cs|
  {
    if cs == [] then {}
    else CastsOf(b, cs[..|cs| - 1]) + (match PlanCopy(b, cs[|cs| - 1]) case Success(p) => p.casts case Failure(_) => {})
  }

  /** The bitcasts the plans of the calls s look through, as a set. */
  ghost function CopyCasts(b: seq<Entry>, s: set<Id>): set<Id> {
    set c, x | c in s && PlanCopy(b, c).Success? && x in PlanCopy(b, c).value.casts :: x
  }

  lemma CopyCastsUnion(b: seq<Entry>, s: set<Id>, t: set<Id>)
    ensures CopyCasts(b, s + t) == CopyCasts(b, s) + CopyCasts(b, t)
  {
  }

  /** Collecting the bitcasts call by call collects those of the set of calls. */
  lemma {:induction false} CastsOfIsCopyCasts(b: seq<Entry>, cs: seq<Id>)
    ensures CastsOf(b, cs) == CopyCasts(b, SetOf(cs))
    decreases |cs|
  {
    if cs != [] {
      var init, c := cs[..|cs| - 1], cs[|cs| - 1];
      CastsOfIsCopyCasts(b, init);
      SetOfSnoc(cs);
      CopyCastsUnion(b, SetOf(init), {c});
      assert CopyCasts(b, {c}) == (match PlanCopy(b, c) case Success(p) => p.casts case Failure(_) => {});
    } else {
      assert SetOf(cs) == {};
    }
  }

  /** After the declarations in s, the calls of d left keep the plans they had in m:
      the rewrites before keep each call and every instruction it names, the bitcasts
      they erase being ones nobody used. */
  lemma MemcpyLeftPlans(m: Module, s: set<DeclId>, m1: Module, d: DeclId)
    requires WellFormed(m) && WellFormed(m1)
    requires KeepsOthers(m, CallsTo(m.body, s), CopyCasts(m.body, CallsTo(m.body, s)), m1)
    requires s + {d} <= FamilyDecls(m.decls, Memcpy)
    requires CallsTo(m1.body, {d}) == CallsTo(m.body, {d}) - CallsTo(m.body, s)
    ensures CopyCasts(m1.body, CallsTo(m1.body, {d})) == CopyCasts(m.body, CallsTo(m1.body, {d}))
  {
    CallsToUnion(m.body, s, {d});
    CallsToMono(m.body, s + {d}, FamilyDecls(m.decls, Memcpy));
    VoidCallsUnused(m, Memcpy);
    CollectIdsBound(m.body, CallsToQ(s + {d}));
    forall c | c in CallsTo(m1.body, {d})
      ensures PlanCopy(m1.body, c) == PlanCopy(m.body, c)
    {
      FindCall(m.body, c, s + {d});
      assert c in Ids(m1.body);
      FindFacts(m.body, c, m.decls);
      forall x | x in InstRefs(Find(m.body, c).value)
        ensures Find(m1.body, x) == Find(m.body, x)
      {
        FindFacts(m1.body, c, m1.decls);
        assert x in Ids(m1.body);
      }
      PlanCopyFrame(m.body, m1.body, c);
    }
  }

  lemma {:induction false} CastsOfHas(b: seq<Entry>, cs: seq<Id>, i: nat)
    requires i < |cs| && PlanCopy(b, cs[i]).Success?
    ensures PlanCopy(b, cs[i]).value.casts <= CastsOf(b, cs)
    decreases |cs|
  {
    if i < |cs| - 1 {
      CastsOfHas(b, cs[..|cs| - 1], i);
    }
  }

  /** The ids the earlier rewrites touched are calls, so they are not among the
      instructions a later call uses: its plan is the one phase one computed. */
  lemma PlanCopyStays(m: Module, m1: Module, done: set<Id>, c: Id)
    requires WellFormed(m) && c in Ids(m.body) && c !in done
    requires done <= CallsTo(m.body, FamilyDecls(m.decls, Memcpy))
    requires forall y | y in Ids(m.body) && y !in done :: Find(m1.body, y) == Find(m.body, y)
    ensures PlanCopy(m1.body, c) == PlanCopy(m.body, c)
  {
    VoidCallsUnused(m, Memcpy);
    FindFacts(m.body, c, m.decls);
    PlanCopyFrame(m.body, m1.body, c);
  }

  /** The call-site rewrite of an earlier call c keeps what the fold knows about the
      module before it. */
  lemma MemcpyCallsStep(m: Module, m1: Module, m2: Module, done: set<Id>, c: Id,
                        casts1: set<Id>, more: set<Id>)
    requires c !in done && m.nextDecl <= m1.nextDecl && m2.nextDecl == m1.nextDecl + 1
    requires forall f :: FamilyDecls(m1.decls, f)
                           == FamilyDecls(m.decls, f) + (if f == CopyMemory then Fresh(m.nextDecl, m1.nextDecl) else {})
    requires forall q | q !! Fresh(m.nextDecl, m1.nextDecl) :: CallsTo(m1.body, q) == CallsTo(m.body, q) - done
    requires forall y | y in Ids(m.body) && y !in done :: Find(m1.body, y) == Find(m.body, y)
    requires forall x | x in casts1 :: Find(m1.body, x).Some? && Find(m1.body, x).value.BitCast?
    requires Find(m1.body, c).Some? && Find(m1.body, c).value.Call?
    requires forall f :: FamilyDecls(m2.decls, f) == FamilyDecls(m1.decls, f) + (if f == CopyMemory then {m1.nextDecl} else {})
    requires forall q | m1.nextDecl !in q :: CallsTo(m2.body, q) == CallsTo(m1.body, q) - {c}
    requires forall y | y in Ids(m1.body) && y != c :: Find(m2.body, y) == Find(m1.body, y)
    requires forall x | x in more :: Find(m1.body, x).Some? && Find(m1.body, x).value.BitCast?
    ensures forall f :: FamilyDecls(m2.decls, f)
                          == FamilyDecls(m.decls, f) + (if f == CopyMemory then Fresh(m.nextDecl, m2.nextDecl) else {})
    ensures forall q | q !! Fresh(m.nextDecl, m2.nextDecl) :: CallsTo(m2.body, q) == CallsTo(m.body, q) - (done + {c})
    ensures forall y | y in Ids(m.body) && y !in done + {c} :: Find(m2.body, y) == Find(m.body, y)
    ensures forall x | x in casts1 + more :: Find(m2.body, x).Some? && Find(m2.body, x).value.BitCast?
  {
    var lo := m.nextDecl;
    assert Fresh(lo, m2.nextDecl) == Fresh(lo, m1.nextDecl) + {m1.nextDecl};
    forall f
      ensures FamilyDecls(m2.decls, f)
                == FamilyDecls(m.decls, f) + (if f == CopyMemory then Fresh(lo, m2.nextDecl) else {})
    {
      assert FamilyDecls(m1.decls, f) == FamilyDecls(m.decls, f) + (if f == CopyMemory then Fresh(lo, m1.nextDecl) else {});
    }
    forall q | q !! Fresh(lo, m2.nextDecl)
      ensures CallsTo(m2.body, q) == CallsTo(m.body, q) - (done + {c})
    {
      assert CallsTo(m1.body, q) == CallsTo(m.body, q) - done;
    }
    forall x | x in casts1 + more
      ensures Find(m2.body, x).Some? && Find(m2.body, x).value.BitCast?
    {
      assert Find(m1.body, x).Some? && Find(m1.body, x).value.BitCast?;
    }
    forall y | y in Ids(m.body) && y !in done + {c}
      ensures Find(m2.body, y) == Find(m.body, y)
    {
      assert Find(m1.body, y) == Find(m.body, y);
    }
  }

  /** The calls of one declaration, each with a plan: each rewrite succeeds and
      declares one copy-memory function; the other calls and old instructions stay, and
      every collected bitcast is still a bitcast instruction of the module. */
  lemma {:induction false} MemcpyCallsFacts(m: Module, cs: seq<Id>, d: DeclId, v: Variant)
    requires WellFormed(m) && FamilyOf(m.decls, d) == Some(Memcpy)
    requires NoDuplicates(cs) && SetOf(cs) <= CallsTo(m.body, {d})
    requires forall i | 0 <= i < |cs| :: PlanCopy(m.body, cs[i]).Success?
    ensures MemcpyCalls(m, cs, v).Success?
    ensures var (m', casts) := MemcpyCalls(m, cs, v).value;
      && WellFormed(m')
      && m'.nextDecl == m.nextDecl + |cs|
      && (forall f :: FamilyDecls(m'.decls, f)
                        == FamilyDecls(m.decls, f) + (if f == CopyMemory then Fresh(m.nextDecl, m'.nextDecl) else {}))
      && (forall q | q !! Fresh(m.nextDecl, m'.nextDecl) :: CallsTo(m'.body, q) == CallsTo(m.body, q) - SetOf(cs))
      && (forall y | y in Ids(m.body) && y !in SetOf(cs) :: Find(m'.body, y) == Find(m.body, y))
      && (forall x | x in casts :: Find(m'.body, x).Some? && Find(m'.body, x).value.BitCast?)
    decreases |cs|
  {
    if cs == [] {
      assert Fresh(m.nextDecl, m.nextDecl) == {};
      assert SetOf(cs) == {};
    } else {
      var init, c := cs[..|cs| - 1], cs[|cs| - 1];
      SetOfSnoc(cs);
      assert NoDuplicates(init);
      assert forall i | 0 <= i < |init| :: init[i] == cs[i];
      MemcpyCallsFacts(m, init, d, v);
      var (m1, casts1) := MemcpyCalls(m, init, v).value;
      assert c !in SetOf(init);
      MemcpyCallsNextCall(m, m1, SetOf(init), c, d);
      assert PlanCopy(m.body, cs[|cs| - 1]).Success?;
      MemcpyCallStepFacts(m1, c, v);
      var (m2, more) := MemcpyCallStep(m1, c, v).value;
      MemcpyCallsStep(m, m1, m2, SetOf(init), c, casts1, more);
    }
  }

  /** The same calls: the bitcasts collected are those their plans look through, and
      every old instruction other than those calls stays. */
  lemma MemcpyCallsFrame(m: Module, cs: seq<Id>, d: DeclId, v: Variant)
    requires WellFormed(m) && FamilyOf(m.decls, d) == Some(Memcpy)
    requires NoDuplicates(cs) && SetOf(cs) <= CallsTo(m.body, {d})
    requires forall i | 0 <= i < |cs| :: PlanCopy(m.body, cs[i]).Success?
    ensures MemcpyCalls(m, cs, v).Success?
    ensures var (m', casts) := MemcpyCalls(m, cs, v).value;
      casts == CastsOf(m.body, cs) && KeepsOthers(m, SetOf(cs), {}, m')
  {
    MemcpyCallsCasts(m, cs, d, v);
    MemcpyCallsKeeps(m, cs, d, v);
  }

  /** The first half of MemcpyCallsFrame: the bitcasts collected. */
  lemma {:induction false} MemcpyCallsCasts(m: Module, cs: seq<Id>, d: DeclId, v: Variant)
    requires WellFormed(m) && FamilyOf(m.decls, d) == Some(Memcpy)
    requires NoDuplicates(cs) && SetOf(cs) <= CallsTo(m.body, {d})
    requires forall i | 0 <= i < |cs| :: PlanCopy(m.body, cs[i]).Success?
    ensures MemcpyCalls(m, cs, v).Success? && MemcpyCalls(m, cs, v).value.1 == CastsOf(m.body, cs)
    decreases |cs|
  {
    if cs != [] {
      var init, c := cs[..|cs| - 1], cs[|cs| - 1];
      SetOfSnoc(cs);
      assert NoDuplicates(init);
      assert forall i | 0 <= i < |init| :: init[i] == cs[i];
      MemcpyCallsFacts(m, init, d, v);
      MemcpyCallsCasts(m, init, d, v);
      var (m1, casts1) := MemcpyCalls(m, init, v).value;
      assert c !in SetOf(init);
      MemcpyCallsNextCall(m, m1, SetOf(init), c, d);
      assert PlanCopy(m.body, cs[|cs| - 1]).Success?;
    }
  }

  /** The second half of MemcpyCallsFrame: every other old instruction stays. */
  lemma {:induction false} MemcpyCallsKeeps(m: Module, cs: seq<Id>, d: DeclId, v: Variant)
    requires WellFormed(m) && FamilyOf(m.decls, d) == Some(Memcpy)
    requires NoDuplicates(cs) && SetOf(cs) <= CallsTo(m.body, {d})
    requires forall i | 0 <= i < |cs| :: PlanCopy(m.body, cs[i]).Success?
    ensures MemcpyCalls(m, cs, v).Success? && KeepsOthers(m, SetOf(cs), {}, MemcpyCalls(m, cs, v).value.0)
    decreases |cs|
  {
    if cs != [] {
      var init, c := cs[..|cs| - 1], cs[|cs| - 1];
      SetOfSnoc(cs);
      assert NoDuplicates(init);
      assert forall i | 0 <= i < |init| :: init[i] == cs[i];
      MemcpyCallsFacts(m, init, d, v);
      MemcpyCallsKeeps(m, init, d, v);
      var (m1, casts1) := MemcpyCalls(m, init, v).value;
      assert c !in SetOf(init);
      MemcpyCallsNextCall(m, m1, SetOf(init), c, d);
      MemcpyCallStepFacts(m1, c, v);
      var (m2, more) := MemcpyCallStep(m1, c, v).value;
      KeepsOthersTrans(m, SetOf(init), {}, m1, {c}, {}, m2, SetOf(cs), {});
    }
  }

  /** After the earlier calls done, the next call c of d is still a call of llvm.memcpy
      with the plan phase one computed. */
  lemma MemcpyCallsNextCall(m: Module, m1: Module, done: set<Id>, c: Id, d: DeclId)
    requires WellFormed(m) && FamilyOf(m.decls, d) == Some(Memcpy)
    requires c in CallsTo(m.body, {d}) && c !in done && done <= CallsTo(m.body, {d})
    requires forall f :: FamilyDecls(m1.decls, f)
                           == FamilyDecls(m.decls, f) + (if f == CopyMemory then Fresh(m.nextDecl, m1.nextDecl) else {})
    requires forall q | q !! Fresh(m.nextDecl, m1.nextDecl) :: CallsTo(m1.body, q) == CallsTo(m.body, q) - done
    requires forall y | y in Ids(m.body) && y !in done :: Find(m1.body, y) == Find(m.body, y)
    ensures c in CallsTo(m1.body, FamilyDecls(m1.decls, Memcpy))
    ensures PlanCopy(m1.body, c) == PlanCopy(m.body, c)
  {
    assert d in FamilyDecls(m.decls, Memcpy);
    CallsToMono(m.body, {d}, FamilyDecls(m.decls, Memcpy));
    CollectIdsBound(m.body, CallsToQ({d}));
    assert {d} !! Fresh(m.nextDecl, m1.nextDecl);
    assert c in CallsTo(m1.body, {d});
    assert FamilyDecls(m1.decls, Memcpy) == FamilyDecls(m.decls, Memcpy) + {};
    CallsToMono(m1.body, {d}, FamilyDecls(m1.decls, Memcpy));
    PlanCopyStays(m, m1, done, c);
  }

  /** The collected bitcasts are not calls, so erasing the unused ones keeps the module
      well formed, every call, and every instruction but those bitcasts as it was. */
  lemma DropCastsFacts(m: Module, casts: set<Id>)
    requires WellFormed(m)
    requires forall x | x in casts :: Find(m.body, x).Some? && Find(m.body, x).value.BitCast?
    ensures WellFormed(m.(body := DropCasts(m.body, casts)))
    ensures forall q :: CallsTo(DropCasts(m.body, casts), q) == CallsTo(m.body, q)
    ensures KeepsOthers(m, {}, casts, m.(body := DropCasts(m.body, casts)))
  {
    var gone := casts - Refs(m.body);
    EraseUnusedSetWellFormed(m, gone);
    EraseCastsKeeps(m, gone);
    forall q, x | x in gone
      ensures x !in CallsTo(m.body, q)
    {
      if x in CallsTo(m.body, q) {
        FindCall(m.body, x, q);
      }
    }
  }

  /** As written, erasing the collected bitcasts from k up to hi one by one keeps the
      module well formed, every call, and every instruction but those bitcasts. */
  lemma {:induction false} EraseCastsFacts(m: Module, casts: set<Id>, k: nat, hi: nat)
    requires WellFormed(m)
    requires forall x | x in casts && x in Ids(m.body) :: Find(m.body, x).value.BitCast?
    requires EraseCasts(m.body, casts, k, hi).Success?
    ensures var m' := m.(body := EraseCasts(m.body, casts, k, hi).value);
      && WellFormed(m')
      && (forall q :: CallsTo(m'.body, q) == CallsTo(m.body, q))
      && KeepsOthers(m, {}, casts, m')
    decreases hi - k
  {
    if k < hi && k in casts {
      var m1 := m.(body := Erase(m.body, k));
      EraseUnusedWellFormed(m, k);
      EraseCastKeeps(m, k);
      CollectErase(m.body, k, IdsQ);
      forall x | x in casts && x in Ids(m1.body)
        ensures Find(m1.body, x).value.BitCast?
      {
        FindErase(m.body, k, x);
      }
      forall q
        ensures k !in CallsTo(m.body, q)
      {
        if k in CallsTo(m.body, q) {
          FindCall(m.body, k, q);
        }
      }
      EraseCastsFacts(m1, casts, k + 1, hi);
      var m' := m.(body := EraseCasts(m.body, casts, k, hi).value);
      KeepsOthersTrans(m, {}, {k}, m1, {}, casts, m', {}, casts);
    } else if k < hi {
      EraseCastsFacts(m, casts, k + 1, hi);
    } else {
      assert EraseCasts(m.body, casts, k, hi).value == m.body;
    }
  }

  /** Either erasure keeps the module well formed, every call, and every instruction
      other than the collected bitcasts. */
  lemma ForgetCastsFacts(m: Module, casts: set<Id>, v: Variant)
    requires WellFormed(m)
    requires forall x | x in casts :: Find(m.body, x).Some? && Find(m.body, x).value.BitCast?
    requires ForgetCasts(m.body, casts, m.nextId, v).Success?
    ensures var m' := m.(body := ForgetCasts(m.body, casts, m.nextId, v).value);
      && WellFormed(m')
      && (forall q :: CallsTo(m'.body, q) == CallsTo(m.body, q))
      && KeepsOthers(m, {}, casts, m')
  {
    if v == AsWritten {
      EraseCastsFacts(m, casts, 0, m.nextId);
    } else {
      DropCastsFacts(m, casts);
    }
  }

  /** One declaration: phase two runs only when every call has a plan, and then, as
      corrected, succeeds; an error is that of one of its calls or, as written, the
      erasure of a bitcast still in use. */
  lemma MemcpyDeclChecksFirst(m: Module, d: DeclId, v: Variant)
    requires WellFormed(m) && FamilyOf(m.decls, d) == Some(Memcpy)
    ensures MemcpyDecl(m, d, v).Success? ==> forall x | x in CallsTo(m.body, {d}) :: PlanCopy(m.body, x).Success?
    ensures v == Corrected && (forall x | x in CallsTo(m.body, {d}) :: PlanCopy(m.body, x).Success?) ==>
      MemcpyDecl(m, d, v).Success?
    ensures MemcpyDecl(m, d, v).Failure? ==>
      || (exists x | x in CallsTo(m.body, {d}) :: PlanCopy(m.body, x) == Failure(MemcpyDecl(m, d, v).error))
      || (&& v == AsWritten && MemcpyDecl(m, d, v).error == ErasedWhileUsed
          && forall x | x in CallsTo(m.body, {d}) :: PlanCopy(m.body, x).Success?)
  {
    var cs := CallIds(m.body, d);
    CallIdsAreCalls(m.body, d);
    CheckCopiesAll(m.body, cs);
    if CheckCopies(m.body, cs).None? {
      assert SetOf(cs) <= CallsTo(m.body, {d});
      MemcpyCallsFacts(m, cs, d, v);
      forall x | x in CallsTo(m.body, {d})
        ensures PlanCopy(m.body, x).Success?
      {
        var i :| 0 <= i < |cs| && cs[i] == x;
      }
      var (m1, casts) := MemcpyCalls(m, cs, v).value;
      if v == AsWritten {
        EraseCastsResult(m1.body, casts, 0, m1.nextId);
      }
    } else {
      CheckCopiesError(m.body, cs);
      var i :| 0 <= i < |cs| && PlanCopy(m.body, cs[i]) == Failure(CheckCopies(m.body, cs).value);
      assert cs[i] in CallsTo(m.body, {d});
    }
  }

  /** One declaration: afterwards none of its calls is left; one copy-memory function
      is declared per call; the other declarations and every other call are as they
      were. */
  lemma MemcpyDeclFacts(m: Module, d: DeclId, v: Variant)
    requires WellFormed(m) && FamilyOf(m.decls, d) == Some(Memcpy)
    requires MemcpyDecl(m, d, v).Success?
    ensures var m' := MemcpyDecl(m, d, v).value;
      && WellFormed(m')
      && m'.nextDecl == m.nextDecl + |CallIds(m.body, d)|
      && (forall f :: FamilyDecls(m'.decls, f)
                        == FamilyDecls(m.decls, f) + (if f == CopyMemory then Fresh(m.nextDecl, m'.nextDecl) else {}))
      && (forall q | q !! Fresh(m.nextDecl, m'.nextDecl) :: CallsTo(m'.body, q) == CallsTo(m.body, q) - CallsTo(m.body, {d}))
      && KeepsOthers(m, CallsTo(m.body, {d}), CopyCasts(m.body, CallsTo(m.body, {d})), m')
  {
    var cs := CallIds(m.body, d);
    CallIdsAreCalls(m.body, d);
    assert SetOf(cs) == CallsTo(m.body, {d});
    CheckCopiesAll(m.body, cs);
    MemcpyCallsFacts(m, cs, d, v);
    MemcpyCallsFrame(m, cs, d, v);
    var (m1, casts) := MemcpyCalls(m, cs, v).value;
    ForgetCastsFacts(m1, casts, v);
    var m' := MemcpyDecl(m, d, v).value;
    CastsOfIsCopyCasts(m.body, cs);
    KeepsOthersTrans(m, SetOf(cs), {}, m1, {}, casts, m', CallsTo(m.body, {d}), CopyCasts(m.body, CallsTo(m.body, {d})));
  }

  /** The induction step of MemcpyDeclsFacts: one more declaration. */
  lemma MemcpyDeclsStep(m: Module, m1: Module, m2: Module, gone: set<Id>, d: DeclId)
    requires d < m.nextDecl <= m1.nextDecl <= m2.nextDecl
    requires forall f :: FamilyDecls(m1.decls, f)
                           == FamilyDecls(m.decls, f) + (if f == CopyMemory then Fresh(m.nextDecl, m1.nextDecl) else {})
    requires forall q | q !! Fresh(m.nextDecl, m1.nextDecl) :: CallsTo(m1.body, q) == CallsTo(m.body, q) - gone
    requires forall f :: FamilyDecls(m2.decls, f)
                           == FamilyDecls(m1.decls, f) + (if f == CopyMemory then Fresh(m1.nextDecl, m2.nextDecl) else {})
    requires forall q | q !! Fresh(m1.nextDecl, m2.nextDecl) :: CallsTo(m2.body, q) == CallsTo(m1.body, q) - CallsTo(m1.body, {d})
    ensures forall f :: FamilyDecls(m2.decls, f)
                          == FamilyDecls(m.decls, f) + (if f == CopyMemory then Fresh(m.nextDecl, m2.nextDecl) else {})
    ensures forall q | q !! Fresh(m.nextDecl, m2.nextDecl) :: CallsTo(m2.body, q) == CallsTo(m.body, q) - (gone + CallsTo(m.body, {d}))
  {
    var lo, mid, hi := m.nextDecl, m1.nextDecl, m2.nextDecl;
    assert Fresh(lo, hi) == Fresh(lo, mid) + Fresh(mid, hi);
    forall f
      ensures FamilyDecls(m2.decls, f) == FamilyDecls(m.decls, f) + (if f == CopyMemory then Fresh(lo, hi) else {})
    {
      assert FamilyDecls(m1.decls, f) == FamilyDecls(m.decls, f) + (if f == CopyMemory then Fresh(lo, mid) else {});
    }
    assert {d} !! Fresh(lo, mid);
    var goneD := CallsTo(m.body, {d});
    assert CallsTo(m1.body, {d}) == goneD - gone;
    forall q | q !! Fresh(lo, hi)
      ensures CallsTo(m2.body, q) == CallsTo(m.body, q) - (gone + goneD)
    {
      assert CallsTo(m1.body, q) == CallsTo(m.body, q) - gone;
    }
  }

  /** The frame of the induction step of MemcpyDeclsFacts. */
  lemma MemcpyDeclsKeeps(m: Module, s: set<DeclId>, m1: Module, m2: Module, d: DeclId)
    requires WellFormed(m) && WellFormed(m1)
    requires KeepsOthers(m, CallsTo(m.body, s), CopyCasts(m.body, CallsTo(m.body, s)), m1)
    requires s + {d} <= FamilyDecls(m.decls, Memcpy)
    requires CallsTo(m1.body, {d}) == CallsTo(m.body, {d}) - CallsTo(m.body, s)
    requires KeepsOthers(m1, CallsTo(m1.body, {d}), CopyCasts(m1.body, CallsTo(m1.body, {d})), m2)
    ensures KeepsOthers(m, CallsTo(m.body, s + {d}), CopyCasts(m.body, CallsTo(m.body, s + {d})), m2)
  {
    var gone, left := CallsTo(m.body, s), CallsTo(m1.body, {d});
    MemcpyLeftPlans(m, s, m1, d);
    CallsToUnion(m.body, s, {d});
    CopyCastsUnion(m.body, gone, left);
    assert gone + left == CallsTo(m.body, s + {d});
    KeepsOthersTrans(m, gone, CopyCasts(m.body, gone), m1, left, CopyCasts(m1.body, left), m2,
                     CallsTo(m.body, s + {d}), CopyCasts(m.body, CallsTo(m.body, s + {d})));
  }

  lemma DeclBelow(m: Module, d: DeclId)
    requires WellFormed(m) && FamilyOf(m.decls, d).Some?
    ensures d < m.nextDecl
  {
  }

  /** A declaration of a family other than copy-memory keeps it. */
  lemma FamilyKept(decls: seq<Decl>, decls': seq<Decl>, added: set<DeclId>, d: DeclId, f: Family)
    requires FamilyOf(decls, d) == Some(f) && f != CopyMemory
    requires forall g :: FamilyDecls(decls', g) == FamilyDecls(decls, g) + (if g == CopyMemory then added else {})
    ensures FamilyOf(decls', d) == Some(f)
  {
    assert d in FamilyDecls(decls, f);
    assert FamilyDecls(decls', f) == FamilyDecls(decls, f) + {};
  }

  lemma {:induction false} MemcpyDeclsFacts(m: Module, ds: seq<DeclId>, v: Variant)
    requires WellFormed(m) && forall d | d in ds :: FamilyOf(m.decls, d) == Some(Memcpy)
    requires MemcpyDecls(m, ds, v).Success?
    ensures var m' := MemcpyDecls(m, ds, v).value;
      && WellFormed(m')
      && m.nextDecl <= m'.nextDecl
      && (forall f :: FamilyDecls(m'.decls, f)
                        == FamilyDecls(m.decls, f) + (if f == CopyMemory then Fresh(m.nextDecl, m'.nextDecl) else {}))
      && (forall q | q !! Fresh(m.nextDecl, m'.nextDecl) :: CallsTo(m'.body, q) == CallsTo(m.body, q) - CallsTo(m.body, SetOf(ds)))
      && KeepsOthers(m, CallsTo(m.body, SetOf(ds)), CopyCasts(m.body, CallsTo(m.body, SetOf(ds))), m')
    decreases |ds|
  {
    if ds != [] {
      var init, d := ds[..|ds| - 1], ds[|ds| - 1];
      assert forall d' | d' in init :: d' in ds;
      MemcpyDeclsFacts(m, init, v);
      var m1 := MemcpyDecls(m, init, v).value;
      assert d in ds;
      FamilyKept(m.decls, m1.decls, Fresh(m.nextDecl, m1.nextDecl), d, Memcpy);
      MemcpyDeclFacts(m1, d, v);
      var m2 := MemcpyDecl(m1, d, v).value;
      SetOfSnoc(ds);
      CallsToUnion(m.body, SetOf(init), {d});
      DeclBelow(m, d);
      var gone := CallsTo(m.body, SetOf(init));
      MemcpyDeclsStep(m, m1, m2, gone, d);
      assert {d} !! Fresh(m.nextDecl, m1.nextDecl);
      assert CallsTo(m1.body, {d}) == CallsTo(m.body, {d}) - gone;
      MemcpyDeclsKeeps(m, SetOf(init), m1, m2, d);
    } else {
      assert SetOf(ds) == {};
      assert Fresh(m.nextDecl, m.nextDecl) == {};
      CallsToOnlyCallees(m.body, {});
    }
  }

  /** replaceMemcpy leaves a well-formed module with no call to llvm.memcpy: every old
      declaration keeps its family, the new ones are copy-memory functions, every call
      to an old declaration other than llvm.memcpy stays; it reports no change. */
  lemma ReplaceMemcpyFacts(m: Module, v: Variant)
    requires WellFormed(m) && ReplaceMemcpy(m, v).Success?
    ensures var (m', changed) := ReplaceMemcpy(m, v).value;
      var memcpy := FamilyDecls(m.decls, Memcpy);
      var added := Fresh(m.nextDecl, m'.nextDecl);
      && WellFormed(m')
      && m.nextDecl <= m'.nextDecl
      && (forall f :: FamilyDecls(m'.decls, f) == FamilyDecls(m.decls, f) + (if f == CopyMemory then added else {}))
      && (forall q | q !! added :: CallsTo(m'.body, q) == CallsTo(m.body, q) - CallsTo(m.body, memcpy))
      && NoCallsOf(m', Memcpy)
      && KeepsOthers(m, CallsTo(m.body, memcpy), CopyCasts(m.body, CallsTo(m.body, memcpy)), m')
      && !changed
  {
    var ds := DeclsOf(m.decls, Memcpy);
    assert ReplaceMemcpy(m, v) == Success((MemcpyDecls(m, ds, v).value, false));
    DeclsOfFamily(m.decls, Memcpy);
    assert SetOf(ds) == FamilyDecls(m.decls, Memcpy);
    MemcpyDeclsFacts(m, ds, v);
    var m' := MemcpyDecls(m, ds, v).value;
    var memcpy := FamilyDecls(m.decls, Memcpy);
    assert memcpy !! Fresh(m.nextDecl, m'.nextDecl);
    assert FamilyDecls(m'.decls, Memcpy) == memcpy + {};
    assert FamilyDecls(m'.decls, Memcpy) == memcpy;
    assert CallsTo(m'.body, memcpy) == CallsTo(m.body, memcpy) - CallsTo(m.body, memcpy);
    assert CallsTo(m'.body, FamilyDecls(m'.decls, Memcpy)) == {};
  }

  /** An instruction that is neither a call of llvm.memcpy nor a bitcast one of their plans
      looks through comes out of replaceMemcpy unchanged. */
  lemma ReplaceMemcpyKeeps(m: Module, v: Variant, y: Id)
    requires WellFormed(m) && ReplaceMemcpy(m, v).Success?
    requires y in Ids(m.body) && y !in CallsTo(m.body, FamilyDecls(m.decls, Memcpy))
    requires forall c | c in CallsTo(m.body, FamilyDecls(m.decls, Memcpy)) && PlanCopy(m.body, c).Success? ::
      y !in PlanCopy(m.body, c).value.casts
    ensures y in Ids(ReplaceMemcpy(m, v).value.0.body)
    ensures Find(ReplaceMemcpy(m, v).value.0.body, y) == Find(m.body, y)
  {
    ReplaceMemcpyFacts(m, v);
    assert y !in CopyCasts(m.body, CallsTo(m.body, FamilyDecls(m.decls, Memcpy)));
  }

  /** With no call of llvm.memcpy left, rewriting its declarations ds changes nothing. */
  lemma {:induction false} MemcpyDeclsQuiet(m: Module, ds: seq<DeclId>, v: Variant)
    requires NoCallsOf(m, Memcpy)
    requires forall d | d in ds :: d in FamilyDecls(m.decls, Memcpy)
    ensures MemcpyDecls(m, ds, v) == Success(m)
    decreases |ds|
  {
    if ds != [] {
      var d := ds[|ds| - 1];
      MemcpyDeclsQuiet(m, ds[..|ds| - 1], v);
      CallsToMono(m.body, {d}, FamilyDecls(m.decls, Memcpy));
      NoCallsNoCallIds(m.body, d);
      var none: set<Id> := {};
      assert none - Refs(m.body) == none;
      assert Between(none, 0, m.nextId) == none;
      EraseNothing(m.body, none);
      EraseCastsUnused(m.body, none, 0, m.nextId);
      EraseCastsResult(m.body, none, 0, m.nextId);
      assert ForgetCasts(m.body, none, m.nextId, v) == Success(m.body);
      assert MemcpyDecl(m, d, v) == Success(m);
    }
  }

  /** As written, a declaration fails if one of its calls looked through a bitcast
      that another instruction, itself not a bitcast, also uses; the corrected rewrite
      keeps that bitcast and succeeds. */
  lemma MemcpyDeclSharedCastFails(m: Module, d: DeclId, c: Id, x: Id, y: Id)
    requires WellFormed(m) && FamilyOf(m.decls, d) == Some(Memcpy)
    requires forall z | z in CallsTo(m.body, {d}) :: PlanCopy(m.body, z).Success?
    requires c in CallsTo(m.body, {d}) && x in PlanCopy(m.body, c).value.casts
    requires y in Ids(m.body) && y !in CallsTo(m.body, {d})
    requires !Find(m.body, y).value.BitCast? && x in InstRefs(Find(m.body, y).value)
    ensures MemcpyDecl(m, d, AsWritten) == Failure(ErasedWhileUsed)
    ensures MemcpyDecl(m, d, Corrected).Success?
  {
    MemcpyDeclChecksFirst(m, d, Corrected);
    var cs := CallIds(m.body, d);
    CallIdsAreCalls(m.body, d);
    CheckCopiesAll(m.body, cs);
    var i :| 0 <= i < |cs| && cs[i] == c;
    MemcpyCallsFacts(m, cs, d, AsWritten);
    MemcpyCallsFrame(m, cs, d, AsWritten);
    var (m1, casts) := MemcpyCalls(m, cs, AsWritten).value;
    CastsOfHas(m.body, cs, i);
    assert Find(m1.body, y) == Find(m.body, y);
    assert y !in casts;
    EraseCastsSharedFails(m1.body, casts, 0, m1.nextId, x, y);
  }

  // ---------------------------------------------------------------------------------
  // Fatal errors

  /** A fatal error stops the rewrite: once the calls up to k fail, the whole sequence
      of calls fails with that error. */
  lemma {:induction false} MemcpyCallsStop(m: Module, cs: seq<Id>, k: nat, v: Variant)
    requires k <= |cs| && MemcpyCalls(m, cs[..k], v).Failure?
    ensures MemcpyCalls(m, cs, v) == MemcpyCalls(m, cs[..k], v)
    decreases |cs|
  {
    if k < |cs| {
      var init := cs[..|cs| - 1];
      assert init[..k] == cs[..k];
      MemcpyCallsStop(m, init, k, v);
    } else {
      assert cs[..k] == cs;
    }
  }

  /** Likewise over the declarations: a fatal error in one stops the stage. */
  lemma {:induction false} MemcpyDeclsStop(m: Module, ds: seq<DeclId>, k: nat, v: Variant)
    requires k <= |ds| && MemcpyDecls(m, ds[..k], v).Failure?
    ensures MemcpyDecls(m, ds, v) == MemcpyDecls(m, ds[..k], v)
    decreases |ds|
  {
    if k < |ds| {
      var init := ds[..|ds| - 1];
      assert init[..k] == ds[..k];
      MemcpyDeclsStop(m, init, k, v);
    } else {
      assert ds[..k] == ds;
    }
  }
}
