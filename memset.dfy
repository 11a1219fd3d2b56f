/** The lowering of llvm.memset calls (replaceMemset). Every call must fill with the
    constant 0; each call is then replaced by stores of the element type's zero value,
    one per element, the first through the destination pointer (with one bitcast looked
    through) and each later one through a gep one element further on. */
module MemsetLowering {
  import opened Wrappers
  import opened Types
  import opened IR
  import opened Rewrite

  /** The number of stores must fit in 32 bits. */
  const StoreLimit: nat := 0x1_0000_0000

  // ---------------------------------------------------------------------------------
  // Phase one: the fill value

  /** A call whose fill value is the constant 0. */
  predicate ZeroFill(b: seq<Entry>, c: Id) {
    && Find(b, c).Some? && Find(b, c).value.Call?
    && |Find(b, c).value.args| >= 3
    && Find(b, c).value.args[1].ConstInt?
    && Find(b, c).value.args[1].n == 0
  }

  /** The check of one call's fill value. */
  function CheckFill(b: seq<Entry>, c: Id): (r: Option<Fatal>)
    ensures r.None? <==> ZeroFill(b, c)
  {
    match Find(b, c)
    case Some(Call(_, args, _)) =>
      if |args| < 3 then Some(MalformedCall)
      else if !args[1].ConstInt? then Some(NonConstantFill)
      else if args[1].n != 0 then Some(NonZeroFill)
      else None
    case _ => Some(MalformedCall)
  }

  /** Phase one over the call sites in order: the first error, if any. */
  function CheckFills(b: seq<Entry>, cs: seq<Id>): Option<Fatal>
    decreases |cs|
  {
    if cs == [] then None
    else match CheckFill(b, cs[0])
      case Some(e) => Some(e)
      case None => CheckFills(b, cs[1..])
  }

  /** Phase one passes exactly when every call fills with 0; otherwise the error is that
      of the first call that does not. */
  lemma {:induction false} CheckFillsAll(b: seq<Entry>, cs: seq<Id>)
    ensures CheckFills(b, cs).None? <==> forall i | 0 <= i < |cs| :: ZeroFill(b, cs[i])
    ensures CheckFills(b, cs).Some? ==>
      exists i :: 0 <= i < |cs| && CheckFill(b, cs[i]) == CheckFills(b, cs) && forall j | 0 <= j < i :: ZeroFill(b, cs[j])
    decreases |cs|
  {
    if cs != [] {
      CheckFillsAll(b, cs[1..]);
      if CheckFill(b, cs[0]).None? && CheckFills(b, cs[1..]).Some? {
        var i :| 0 <= i < |cs[1..]| && CheckFill(b, cs[1..][i]) == CheckFills(b, cs[1..])
                 && forall j | 0 <= j < i :: ZeroFill(b, cs[1..][j]);
        assert CheckFill(b, cs[i + 1]) == CheckFills(b, cs);
        assert forall j | 0 <= j < i + 1 :: ZeroFill(b, cs[j]) by {
          forall j | 0 <= j < i + 1 ensures ZeroFill(b, cs[j]) {
            if j > 0 { assert cs[j] == cs[1..][j - 1]; }
          }
        }
      }
      if CheckFill(b, cs[0]).None? && CheckFills(b, cs[1..]).None? {
        forall j | 0 <= j < |cs| ensures ZeroFill(b, cs[j]) {
          if j > 0 { assert cs[j] == cs[1..][j - 1]; }
        }
      }
      if CheckFill(b, cs[0]).None? && (forall i | 0 <= i < |cs| :: ZeroFill(b, cs[i])) {
        assert forall i | 0 <= i < |cs[1..]| :: ZeroFill(b, cs[1..][i]) by {
          forall i | 0 <= i < |cs[1..]| ensures ZeroFill(b, cs[1..][i]) {
            assert cs[1..][i] == cs[i + 1];
          }
        }
      }
    }
  }

  // ---------------------------------------------------------------------------------
  // Phase two: the plan for one call

  /** The pointer memset writes through: the operand of the destination if the
      destination is a bitcast instruction (whose id is returned too), else the
      destination itself. */
  function StripCast(b: seq<Entry>, v: Value): (Value, Option<Id>) {
    match v
    case Ref(x, _) =>
      (match Find(b, x)
       case Some(BitCast(op, _)) => (op, Some(x))
       case _ => (v, None))
    case _ => (v, None)
  }

  /** What the stores of one call are: through which pointer, of which element type,
      how many, and which bitcast the call looked through. */
  datatype StorePlan = StorePlan(base: Value, elemTy: Type, count: nat, cast: Option<Id>)

  /** Validate one call and plan its stores: the length must be a constant, the
      pointer a pointer to an element of non-zero size, the length a whole number of
      elements, and that number below 2^32. */
  function PlanStores(b: seq<Entry>, c: Id): (r: Result<StorePlan, Fatal>)
    ensures r.Success? ==> var p := r.value;
      && Find(b, c).Some? && Find(b, c).value.Call? && |Find(b, c).value.args| >= 3
      && Find(b, c).value.args[2].ConstInt?
      && p.base.ty == Pointer(p.elemTy)
      && AllocSize(p.elemTy) > 0
      && p.count * AllocSize(p.elemTy) == Find(b, c).value.args[2].n
      && p.count < StoreLimit
      && (p.base, p.cast) == StripCast(b, Find(b, c).value.args[0])
  {
    match Find(b, c)
    case Some(Call(_, args, _)) =>
      if |args| < 3 then Failure(MalformedCall)
      else
        var (ptr, cast) := StripCast(b, args[0]);
        if !args[2].ConstInt? then Failure(NonConstantLength)
        else if !ptr.ty.Pointer? then Failure(NotAPointer)
        else
          var size := AllocSize(ptr.ty.pointee);
          if size == 0 then Failure(ZeroSizedElement)
          else
            var num := args[2].n / size;
            if args[2].n != num * size then Failure(UnevenMemset)
            else if num >= StoreLimit then Failure(TooManyStores)
            else Success(StorePlan(ptr, ptr.ty.pointee, num, cast))
    case _ => Failure(MalformedCall)
  }

  /** A length that is not a whole number of elements is rejected, and so is one of
      2^32 elements or more. */
  lemma PlanStoresRejects(b: seq<Entry>, c: Id)
    requires Find(b, c).Some? && Find(b, c).value.Call? && |Find(b, c).value.args| >= 3
    requires Find(b, c).value.args[2].ConstInt?
    requires var ptr := StripCast(b, Find(b, c).value.args[0]).0;
      ptr.ty.Pointer? && AllocSize(ptr.ty.pointee) > 0
    ensures var ptr := StripCast(b, Find(b, c).value.args[0]).0;
      var size, bytes := AllocSize(ptr.ty.pointee), Find(b, c).value.args[2].n;
      && (bytes % size != 0 ==> PlanStores(b, c) == Failure(UnevenMemset))
      && (bytes % size == 0 && bytes / size >= StoreLimit ==> PlanStores(b, c) == Failure(TooManyStores))
      && (bytes % size == 0 && bytes / size < StoreLimit ==> PlanStores(b, c).Success?)
  {
    var ptr := StripCast(b, Find(b, c).value.args[0]).0;
    DivExact(Find(b, c).value.args[2].n, AllocSize(ptr.ty.pointee));
  }

  /** n is a whole number of size-byte elements exactly when n / size of them make n. */
  lemma DivExact(n: int, size: nat)
    requires size > 0
    ensures n == (n / size) * size <==> n % size == 0
  {
    assert n == (n / size) * size + n % size;
  }

  // ---------------------------------------------------------------------------------
  // The stores

  /** The pointer the k-th store writes through: the base for the first, else the
      result of the k-th gep, which has id next + 2k - 1. */
  function StorePtr(base: Value, ty: Type, next: Id, k: nat): Value {
    if k == 0 then base else Ref(next + 2 * k - 1, Pointer(ty))
  }

  /** The instruction at position i of the stores: the even positions store a zero
      element, the odd ones step the pointer on by one element. */
  function StoreEntry(base: Value, ty: Type, next: Id, i: nat): Entry {
    if i % 2 == 0 then Entry(next + i, Store(NullValue(ty), StorePtr(base, ty, next, i / 2)))
    else Entry(next + i, Gep(ty, StorePtr(base, ty, next, i / 2), [ConstInt(I32, 1)], false))
  }

  /** The k-th store, of a zero element through the k-th pointer. */
  function ZeroEntry(base: Value, ty: Type, next: Id, k: nat): Entry {
    Entry(next + 2 * k, Store(NullValue(ty), StorePtr(base, ty, next, k)))
  }

  /** The gep after the k-th store, one element on from the k-th pointer. */
  function GepAfter(base: Value, ty: Type, next: Id, k: nat): Entry {
    Entry(next + 2 * k + 1, Gep(ty, StorePtr(base, ty, next, k), [ConstInt(I32, 1)], false))
  }

  function StoresLength(n: nat): nat {
    if n == 0 then 0 else 2 * n - 1
  }

  /** n zero stores, one per element, from base on: ids next, next + 1, ... */
  function ZeroStores(base: Value, ty: Type, n: nat, next: Id): (es: seq<Entry>)
    ensures |es| == StoresLength(n)
  {
    seq(StoresLength(n), i requires 0 <= i => StoreEntry(base, ty, next, i))
  }

  /** How many elements the stores of a count of n elements cover. As written the first
      store is generated before the count is looked at, so a memset of zero bytes still
      stores one element; corrected, there are exactly n. */
  function StoreCount(n: nat, v: Variant): nat {
    if v == AsWritten && n == 0 then 1 else n
  }

  /** The stores a plan calls for, numbered from next on. */
  function PlanZeroStores(p: StorePlan, next: Id, v: Variant): seq<Entry> {
    ZeroStores(p.base, p.elemTy, StoreCount(p.count, v), next)
  }

  lemma ZeroStoresGrow(base: Value, ty: Type, n: nat, next: Id)
    requires n >= 1
    ensures ZeroStores(base, ty, n + 1, next)
              == ZeroStores(base, ty, n, next) + [GepAfter(base, ty, next, n - 1), ZeroEntry(base, ty, next, n)]
  {
    assert (2 * n - 1) % 2 == 1 && (2 * n - 1) / 2 == n - 1;
    assert (2 * n) % 2 == 0 && (2 * n) / 2 == n;
    assert StoreEntry(base, ty, next, 2 * n - 1) == GepAfter(base, ty, next, n - 1);
    assert StoreEntry(base, ty, next, 2 * n) == ZeroEntry(base, ty, next, n);
  }

  lemma ZeroStoresSnoc(base: Value, ty: Type, n: nat, next: Id)
    requires n >= 2
    ensures ZeroStores(base, ty, n, next)
              == ZeroStores(base, ty, n - 1, next) + [GepAfter(base, ty, next, n - 2), ZeroEntry(base, ty, next, n - 1)]
  {
    ZeroStoresGrow(base, ty, n - 1, next);
  }

  /** The store loop as the source runs it: the first store before the count is looked
      at, then, if the count is not zero, a gep and a store per further element. */
  method EmitZeroStores(base: Value, ty: Type, n: nat, next: Id) returns (es: seq<Entry>)
    ensures es == ZeroStores(base, ty, StoreCount(n, AsWritten), next)
  {
    es := [Entry(next, Store(NullValue(ty), base))];
    assert es == ZeroStores(base, ty, 1, next);
    if n != 0 {
      var ptr := base;
      var id := next + 1;
      var i := 1;
      while i < n
        invariant 1 <= i <= n
        invariant es == ZeroStores(base, ty, i, next)
        invariant id == next + 2 * i - 1
        invariant ptr == StorePtr(base, ty, next, i - 1)
      {
        ZeroStoresGrow(base, ty, i, next);
        var gep := Entry(id, Gep(ty, ptr, [ConstInt(I32, 1)], false));
        ptr := Ref(id, Pointer(ty));
        es := es + [gep, Entry(id + 1, Store(NullValue(ty), ptr))];
        id := id + 2;
        i := i + 1;
      }
    }
  }

  // ---------------------------------------------------------------------------------
  // Which bytes the stores write

  /** The bytes lo .. lo + len - 1. */
  function Range(lo: int, len: nat): set<int>
    decreases len
  {
    if len == 0 then {} else {lo} + Range(lo + 1, len - 1)
  }

  lemma {:induction false} RangeHas(lo: int, len: nat)
    ensures forall x :: x in Range(lo, len) <==> lo <= x < lo + len
    decreases len
  {
    if len > 0 {
      RangeHas(lo + 1, len - 1);
    }
  }

  /** The addresses of the pointer values computed so far, and the bytes written. */
  datatype Memory = Memory(addrs: map<Value, int>, written: set<int>)

  /** Run one instruction: a gep by a constant index moves its base by that many
      elements; a store writes the bytes of its value at its pointer. */
  function Apply(st: Memory, e: Entry): Memory {
    match e.inst
    case Gep(t, p, idx, _) =>
      if p in st.addrs && |idx| == 1 && idx[0].ConstInt? then
        st.(addrs := st.addrs[Ref(e.id, Pointer(t)) := st.addrs[p] + idx[0].n * AllocSize(t)])
      else st
    case Store(v, p) =>
      if p in st.addrs then st.(written := st.written + Range(st.addrs[p], AllocSize(v.ty))) else st
    case _ => st
  }

  function Exec(st: Memory, es: seq<Entry>): Memory
    decreases |es|
  {
    if es == [] then st else Apply(Exec(st, es[..|es| - 1]), es[|es| - 1])
  }

  lemma ExecGrow(st: Memory, es: seq<Entry>, e0: Entry, e1: Entry)
    ensures Exec(st, es + [e0, e1]) == Apply(Apply(Exec(st, es), e0), e1)
  {
    assert (es + [e0, e1])[..|es| + 1] == es + [e0];
    assert (es + [e0])[..|es|] == es;
  }

  lemma RangeJoin(a: int, x: nat, b: int, y: nat, len: nat)
    requires b == a + x && len == x + y
    ensures Range(a, x) + Range(b, y) == Range(a, len)
  {
    RangeHas(a, x);
    RangeHas(b, y);
    RangeHas(a, len);
    forall z
      ensures z in Range(a, x) + Range(b, y) <==> z in Range(a, len)
    {
    }
  }

  /** The gep of the n-th element lands one element after the pointer it steps from. */
  lemma GepStep(st: Memory, base: Value, ty: Type, next: Id, n: nat, at: int)
    requires n >= 2
    requires StorePtr(base, ty, next, n - 2) in st.addrs
    requires st.addrs[StorePtr(base, ty, next, n - 2)] == at
    ensures var st' := Apply(st, GepAfter(base, ty, next, n - 2));
      && StorePtr(base, ty, next, n - 1) in st'.addrs
      && st'.addrs[StorePtr(base, ty, next, n - 1)] == at + AllocSize(ty)
      && st'.written == st.written
  {
  }

  /** The store of the n-th element writes that element's bytes. */
  lemma ZeroStoreStep(st: Memory, base: Value, ty: Type, next: Id, n: nat, at: int)
    requires n >= 2
    requires StorePtr(base, ty, next, n - 1) in st.addrs
    requires st.addrs[StorePtr(base, ty, next, n - 1)] == at
    ensures var st' := Apply(st, ZeroEntry(base, ty, next, n - 1));
      && st'.addrs == st.addrs
      && st'.written == st.written + Range(at, AllocSize(ty))
  {
  }

  lemma MulStep(k: nat, k': nat, sz: nat)
    requires k' == k + 1
    ensures k' * sz == k * sz + sz && k * sz >= 0
  {
  }

  lemma FirstStore(base: Value, ty: Type, next: Id, a: int)
    ensures var st := Exec(Memory(map[base := a], {}), ZeroStores(base, ty, 1, next));
      && StorePtr(base, ty, next, 0) in st.addrs
      && st.addrs[StorePtr(base, ty, next, 0)] == a
      && st.written == Range(a, AllocSize(ty))
  {
    var es := ZeroStores(base, ty, 1, next);
    assert es == [] + [es[0]];
    assert es[..0] == [];
  }

  /** The left fold over two more entries, with the rest of the sequence abstract. */
  lemma ExecStep(st0: Memory, prev: seq<Entry>, cur: seq<Entry>, base: Value, ty: Type, next: Id, n: nat,
                 a: int, at: int, len: nat, len': nat)
    requires n >= 2
    requires cur == prev + [GepAfter(base, ty, next, n - 2), ZeroEntry(base, ty, next, n - 1)]
    requires StorePtr(base, ty, next, n - 2) in Exec(st0, prev).addrs
    requires Exec(st0, prev).addrs[StorePtr(base, ty, next, n - 2)] == at
    requires Exec(st0, prev).written == Range(a, len) && at + AllocSize(ty) == a + len
    requires len' == len + AllocSize(ty)
    ensures StorePtr(base, ty, next, n - 1) in Exec(st0, cur).addrs
    ensures Exec(st0, cur).addrs[StorePtr(base, ty, next, n - 1)] == at + AllocSize(ty)
    ensures Exec(st0, cur).written == Range(a, len')
  {
    ExecPair(st0, prev, cur, GepAfter(base, ty, next, n - 2), ZeroEntry(base, ty, next, n - 1));
    ApplyStep(Exec(st0, prev), base, ty, next, n, a, at, len, len');
  }

  /** One gep and one store after it, on an abstract memory. */
  lemma ApplyStep(st: Memory, base: Value, ty: Type, next: Id, n: nat, a: int, at: int, len: nat, len': nat)
    requires n >= 2
    requires StorePtr(base, ty, next, n - 2) in st.addrs && st.addrs[StorePtr(base, ty, next, n - 2)] == at
    requires st.written == Range(a, len) && at + AllocSize(ty) == a + len
    requires len' == len + AllocSize(ty)
    ensures var st' := Apply(Apply(st, GepAfter(base, ty, next, n - 2)), ZeroEntry(base, ty, next, n - 1));
      && StorePtr(base, ty, next, n - 1) in st'.addrs
      && st'.addrs[StorePtr(base, ty, next, n - 1)] == at + AllocSize(ty)
      && st'.written == Range(a, len')
  {
    var sz, ptr := AllocSize(ty), StorePtr(base, ty, next, n - 1);
    var st1 := Apply(st, GepAfter(base, ty, next, n - 2));
    GepStep(st, base, ty, next, n, at);
    assert ptr in st1.addrs && st1.addrs[ptr] == at + sz && st1.written == st.written;
    var st2 := Apply(st1, ZeroEntry(base, ty, next, n - 1));
    ZeroStoreStep(st1, base, ty, next, n, at + sz);
    assert st2.addrs == st1.addrs && st2.written == st1.written + Range(at + sz, sz);
    WrittenJoin(st1.written, st2.written, a, len, at + sz, sz, len');
  }

  /** Running prev and then g and s. */
  lemma ExecPair(st0: Memory, prev: seq<Entry>, cur: seq<Entry>, g: Entry, s: Entry)
    requires cur == prev + [g, s]
    ensures Exec(st0, cur) == Apply(Apply(Exec(st0, prev), g), s)
  {
    ExecGrow(st0, prev, g, s);
  }

  /** Bytes len from a, then sz more: len + sz bytes from a. */
  lemma WrittenJoin(w: set<int>, w': set<int>, a: int, len: nat, lo: int, sz: nat, len': nat)
    requires w == Range(a, len) && w' == w + Range(lo, sz) && lo == a + len && len' == len + sz
    ensures w' == Range(a, len')
  {
    RangeJoin(a, len, lo, sz, len');
  }

  /** n >= 1 stores from base at address a, len being n elements: the last pointer is
      at the last element and the bytes written are exactly the len bytes from a on. */
  lemma {:induction false} ZeroStoresWrite(base: Value, ty: Type, n: nat, next: Id, a: int, len: nat)
    requires n >= 1 && len == n * AllocSize(ty)
    ensures var st := Exec(Memory(map[base := a], {}), ZeroStores(base, ty, n, next));
      && StorePtr(base, ty, next, n - 1) in st.addrs
      && st.addrs[StorePtr(base, ty, next, n - 1)] == a + len - AllocSize(ty)
      && st.written == Range(a, len)
    decreases n
  {
    if n == 1 {
      FirstStore(base, ty, next, a);
    } else {
      var sz := AllocSize(ty);
      MulStep(n - 1, n, sz);
      var len0: nat := (n - 1) * sz;
      ZeroStoresWrite(base, ty, n - 1, next, a, len0);
      ZeroStoresSnoc(base, ty, n, next);
      WriteAfter(Memory(map[base := a], {}), ZeroStores(base, ty, n - 1, next), ZeroStores(base, ty, n, next),
                 base, ty, next, n, a, len0, len);
    }
  }

  /** The induction step of ZeroStoresWrite, with the stores before and after the n-th
      element abstract. */
  lemma WriteAfter(st0: Memory, prev: seq<Entry>, cur: seq<Entry>, base: Value, ty: Type, next: Id, n: nat,
                   a: int, len: nat, len': nat)
    requires n >= 2
    requires cur == prev + [GepAfter(base, ty, next, n - 2), ZeroEntry(base, ty, next, n - 1)]
    requires len' == len + AllocSize(ty)
    requires var st := Exec(st0, prev);
      && StorePtr(base, ty, next, n - 2) in st.addrs
      && st.addrs[StorePtr(base, ty, next, n - 2)] == a + len - AllocSize(ty)
      && st.written == Range(a, len)
    ensures var st := Exec(st0, cur);
      && StorePtr(base, ty, next, n - 1) in st.addrs
      && st.addrs[StorePtr(base, ty, next, n - 1)] == a + len' - AllocSize(ty)
      && st.written == Range(a, len')
  {
    var sz := AllocSize(ty);
    ExecStep(st0, prev, cur, base, ty, next, n, a, a + len - sz, len, len');
  }

  /** The stores of a memset of NumBytes bytes write exactly the NumBytes bytes from
      the destination on, with zeros (every store stores a null value). */
  lemma ZeroStoresCover(base: Value, ty: Type, n: nat, next: Id, a: int, numBytes: nat)
    requires n * AllocSize(ty) == numBytes
    ensures Exec(Memory(map[base := a], {}), ZeroStores(base, ty, n, next)).written == Range(a, numBytes)
    ensures forall e | e in ZeroStores(base, ty, n, next) && e.inst.Store? :: e.inst.stored == NullValue(ty)
  {
    if n >= 1 {
      ZeroStoresWrite(base, ty, n, next, a, numBytes);
    }
  }

  /** The worked case: zeroing 8 bytes of 2-byte elements is 4 stores, at positions
      0, 2, 4 and 6 with a gep between each two, which together write the 8 bytes. */
  lemma MemsetExample(base: Value, next: Id, a: int)
    ensures var es := ZeroStores(base, Scalar(Int, 16), 4, next);
      && |es| == 7
      && (forall i | 0 <= i < |es| :: es[i].inst.Store? <==> i % 2 == 0)
      && Exec(Memory(map[base := a], {}), es).written == Range(a, 8)
  {
    ZeroStoresCover(base, Scalar(Int, 16), 4, next, a, 8);
  }

  /** As written, a memset of zero bytes stores one whole element. */
  lemma ZeroLengthMemsetWrites(base: Value, ty: Type, next: Id, a: int)
    requires AllocSize(ty) > 0
    ensures Exec(Memory(map[base := a], {}), ZeroStores(base, ty, StoreCount(0, AsWritten), next)).written == Range(a, AllocSize(ty))
    ensures a in Range(a, AllocSize(ty))
  {
    ZeroStoresWrite(base, ty, 1, next, a, AllocSize(ty));
    RangeHas(a, AllocSize(ty));
  }

  // ---------------------------------------------------------------------------------
  // Erasing the bitcast

  /** The bitcast the call looked through is erased once nothing uses it any more. */
  function DropCast(b: seq<Entry>, cast: Option<Id>): seq<Entry> {
    match cast
    case Some(x) => if x in Refs(b) then b else Erase(b, x)
    case None => b
  }

  /** The erasure of the bitcast once the call is gone. As written the bitcast is erased
      whatever still uses it, and LLVM stops on erasing an instruction that is in use;
      corrected, a bitcast still in use stays. */
  function EraseCast(b: seq<Entry>, cast: Option<Id>, v: Variant): (r: Result<seq<Entry>, Fatal>)
    ensures r.Success? ==> r.value == DropCast(b, cast)
    ensures r.Failure? <==> v == AsWritten && cast.Some? && cast.value in Refs(b)
    ensures r.Failure? ==> r.error == ErasedWhileUsed
  {
    match cast
    case None => Success(b)
    case Some(x) =>
      if x !in Refs(b) then Success(Erase(b, x))
      else if v == AsWritten then Failure(ErasedWhileUsed)
      else Success(b)
  }

  /** The corrected erasure never leaves a use dangling. */
  lemma DropCastClosed(b: seq<Entry>, cast: Option<Id>)
    requires Closed(b)
    ensures Closed(DropCast(b, cast))
  {
    if cast.Some? && cast.value !in Refs(b) {
      CollectErase(b, cast.value, IdsQ);
      CollectErase(b, cast.value, RefsQ);
    }
  }

  // ---------------------------------------------------------------------------------
  // The rewrite of one call, of one declaration, and of the module

  /** Replace one call by its stores, then erase the bitcast it looked through. */
  function MemsetCallStep(m: Module, c: Id, v: Variant): Result<Module, Fatal> {
    match PlanStores(m.body, c)
    case Failure(e) => Failure(e)
    case Success(p) =>
      var es := PlanZeroStores(p, m.nextId, v);
      match EraseCast(SpliceCall(m.body, c, es), p.cast, v)
      case Failure(e) => Failure(e)
      case Success(b) => Success(m.(body := b, nextId := m.nextId + |es|))
  }

  function MemsetCalls(m: Module, cs: seq<Id>, v: Variant): Result<Module, Fatal>
    decreases |cs|
  {
    if cs == [] then Success(m)
    else
      match MemsetCalls(m, cs[..|cs| - 1], v)
      case Failure(e) => Failure(e)
      case Success(m') => MemsetCallStep(m', cs[|cs| - 1], v)
  }

  /** One declaration: check every call's fill value, then replace the calls. The
      declaration itself stays. */
  function MemsetDecl(m: Module, d: DeclId, v: Variant): Result<Module, Fatal> {
    var cs := CallIds(m.body, d);
    match CheckFills(m.body, cs)
    case Some(e) => Failure(e)
    case None => MemsetCalls(m, cs, v)
  }

  function MemsetDecls(m: Module, ds: seq<DeclId>, v: Variant): Result<Module, Fatal>
    decreases |ds|
  {
    if ds == [] then Success(m)
    else
      match MemsetDecls(m, ds[..|ds| - 1], v)
      case Failure(e) => Failure(e)
      case Success(m') => MemsetDecl(m', ds[|ds| - 1], v)
  }

  /** One call more: the fold over the first j + 1 calls is the next call's rewrite of
      the fold over the first j. */
  lemma MemsetCallsNext(m: Module, cs: seq<Id>, j: nat, mj: Module, v: Variant)
    requires j < |cs| && MemsetCalls(m, cs[..j], v) == Success(mj)
    ensures MemsetCalls(m, cs[..j + 1], v) == MemsetCallStep(mj, cs[j], v)
  {
    assert cs[..j + 1][..j] == cs[..j];
  }

  /** One declaration more, likewise. */
  lemma MemsetDeclsNext(m: Module, ds: seq<DeclId>, i: nat, mi: Module, v: Variant)
    requires i < |ds| && MemsetDecls(m, ds[..i], v) == Success(mi)
    ensures MemsetDecls(m, ds[..i + 1], v) == MemsetDecl(mi, ds[i], v)
  {
    assert ds[..i + 1][..i] == ds[..i];
  }

  /** replaceMemset: every llvm.memset declaration in module order; it never reports a
      change. */
  function ReplaceMemset(m: Module, v: Variant): Result<(Module, bool), Fatal> {
    match MemsetDecls(m, DeclsOf(m.decls, Memset), v)
    case Failure(e) => Failure(e)
    case Success(m') => Success((m', false))
  }

  // ---------------------------------------------------------------------------------
  // Well-formedness

  /** The pointer of the k-th store is the base or the result of a gep among the
      first 2k instructions. */
  lemma StoreEntryRefs(base: Value, ty: Type, next: Id, i: nat)
    ensures InstRefs(StoreEntry(base, ty, next, i).inst) == ValueRefs(StorePtr(base, ty, next, i / 2))
  {
    var p := StorePtr(base, ty, next, i / 2);
    if i % 2 == 0 {
      ValuesRefsPair(NullValue(ty), p);
    } else {
      assert [p] + [ConstInt(I32, 1)] == [p, ConstInt(I32, 1)];
      ValuesRefsPair(p, ConstInt(I32, 1));
    }
  }

  /** Only the stores, at even offsets from next, produce no value. */
  lemma ZeroStoresVoids(base: Value, ty: Type, n: nat, next: Id, decls: seq<Decl>)
    ensures forall x | x in Voids(decls, ZeroStores(base, ty, n, next)) :: x >= next && (x - next) % 2 == 0
  {
    var es := ZeroStores(base, ty, n, next);
    var even := (x: nat) => x >= next && (x - next) % 2 == 0;
    forall i, x | 0 <= i < |es| && x in Pick(VoidsQ(decls), es[i])
      ensures even(x)
    {
      assert es[i] == StoreEntry(base, ty, next, i);
    }
    CollectSat(es, VoidsQ(decls), even);
  }

  /** The stores call nothing. */
  lemma ZeroStoresCallNothing(base: Value, ty: Type, n: nat, next: Id)
    ensures Callees(ZeroStores(base, ty, n, next)) == {}
    ensures forall ds :: CallsTo(ZeroStores(base, ty, n, next), ds) == {}
  {
    var es := ZeroStores(base, ty, n, next);
    assert forall i | 0 <= i < |es| :: es[i] == StoreEntry(base, ty, next, i);
    CollectBound(es, CalleesQ, {});
    forall ds
      ensures CallsTo(es, ds) == {}
    {
      CollectBound(es, CallsToQ(ds), {});
    }
  }

  lemma ZeroStoresIds(base: Value, ty: Type, n: nat, next: Id)
    ensures Distinct(ZeroStores(base, ty, n, next))
    ensures forall x :: x in Ids(ZeroStores(base, ty, n, next)) <==> next <= x < next + StoresLength(n)
  {
    var es := ZeroStores(base, ty, n, next);
    assert forall i | 0 <= i < |es| :: es[i] == StoreEntry(base, ty, next, i);
    ConsecutiveIds(es, next);
  }

  /** The stores use only the base and their own geps. */
  lemma ZeroStoresRefs(base: Value, ty: Type, n: nat, next: Id, decls: seq<Decl>)
    ensures var es := ZeroStores(base, ty, n, next);
      Refs(es) <= ValueRefs(base) + (Ids(es) - Voids(decls, es))
  {
    var es := ZeroStores(base, ty, n, next);
    var allowed := ValueRefs(base) + (Ids(es) - Voids(decls, es));
    forall i | 0 <= i < |es|
      ensures Pick(RefsQ, es[i]) <= allowed
    {
      assert es[i] == StoreEntry(base, ty, next, i);
      StoreEntryRefs(base, ty, next, i);
      var k := i / 2;
      if k > 0 {
        GepProduces(base, ty, n, next, decls, k);
      }
    }
    CollectBound(es, RefsQ, allowed);
  }

  /** The k-th pointer, k >= 1, is the value of a gep of the stores. */
  lemma GepProduces(base: Value, ty: Type, n: nat, next: Id, decls: seq<Decl>, k: nat)
    requires 1 <= k && 2 * k - 1 < StoresLength(n)
    ensures var es := ZeroStores(base, ty, n, next);
      ValueRefs(StorePtr(base, ty, next, k)) == {next + 2 * k - 1}
      && next + 2 * k - 1 in Ids(es) - Voids(decls, es)
  {
    ZeroStoresIds(base, ty, n, next);
    ZeroStoresVoids(base, ty, n, next, decls);
    assert (next + 2 * k - 1) - next == 2 * (k - 1) + 1;
  }



  /** The stores are numbered from next on, use only the base and their own geps,
      call nothing, and the values that they do not produce are the stores themselves. */
  lemma ZeroStoresShape(base: Value, ty: Type, n: nat, next: Id, decls: seq<Decl>)
    ensures var es := ZeroStores(base, ty, n, next);
      && Distinct(es)
      && (forall x :: x in Ids(es) <==> next <= x < next + |es|)
      && Refs(es) <= ValueRefs(base) + (Ids(es) - Voids(decls, es))
      && Callees(es) == {}
      && (forall ds :: CallsTo(es, ds) == {})
  {
    ZeroStoresIds(base, ty, n, next);
    ZeroStoresRefs(base, ty, n, next, decls);
    ZeroStoresCallNothing(base, ty, n, next);
  }

  /** The pointer memset writes through is one the module already uses; a bitcast it
      looked through is a bitcast instruction of the module. */
  lemma StripCastFacts(b: seq<Entry>, v: Value)
    requires ValueRefs(v) <= Refs(b)
    ensures ValueRefs(StripCast(b, v).0) <= Refs(b)
    ensures StripCast(b, v).1.Some? ==>
      Find(b, StripCast(b, v).1.value).Some? && Find(b, StripCast(b, v).1.value).value.BitCast?
  {
    if v.Ref? && Find(b, v.id).Some? && Find(b, v.id).value.BitCast? {
      FindFacts(b, v.id, []);
      assert InstRefs(Find(b, v.id).value) == ValuesRefs([Find(b, v.id).value.operand]);
      assert [Find(b, v.id).value.operand][1..] == [];
    }
  }

  /** A call to an llvm.memset declaration produces no value, so nothing uses it. */
  lemma MemsetCallUnused(m: Module, c: Id)
    requires WellFormed(m) && c in CallsTo(m.body, FamilyDecls(m.decls, Memset))
    ensures Find(m.body, c).Some? && Find(m.body, c).value.Call?
    ensures c !in Refs(m.body)
  {
    FindCall(m.body, c, FamilyDecls(m.decls, Memset));
    FindFacts(m.body, c, m.decls);
  }

  lemma MemsetSpliceOk(m: Module, c: Id, v: Variant)
    requires WellFormed(m) && c in CallsTo(m.body, FamilyDecls(m.decls, Memset))
    requires PlanStores(m.body, c).Success?
    ensures var es := PlanZeroStores(PlanStores(m.body, c).value, m.nextId, v);
      SpliceCallOk(m, c, es, m.nextId + |es|)
  {
    var p := PlanStores(m.body, c).value;
    var es := PlanZeroStores(p, m.nextId, v);
    MemsetCallUnused(m, c);
    var args := Find(m.body, c).value.args;
    FindFacts(m.body, c, m.decls);
    ValueRefsIn(args, 0);
    StripCastFacts(m.body, args[0]);
    ZeroStoresShape(p.base, p.elemTy, StoreCount(p.count, v), m.nextId, m.decls);
    SpliceCallOkFromShape(m, c, es, ValueRefs(p.base));
  }

  /** The bitcasts the plans of the calls s look through. */
  ghost function StoreCasts(b: seq<Entry>, s: set<Id>): set<Id> {
    set c | c in s && PlanStores(b, c).Success? && PlanStores(b, c).value.cast.Some? :: PlanStores(b, c).value.cast.value
  }

  lemma StoreCastsUnion(b: seq<Entry>, s: set<Id>, t: set<Id>)
    ensures StoreCasts(b, s + t) == StoreCasts(b, s) + StoreCasts(b, t)
  {
  }

  /** A successful step is the splice of the planned stores followed by the erasure of
      the bitcast the call looked through, if nothing uses it any more. */
  lemma MemsetCallStepIs(m: Module, c: Id, v: Variant)
    requires MemsetCallStep(m, c, v).Success?
    ensures PlanStores(m.body, c).Success?
    ensures var p := PlanStores(m.body, c).value;
      var es := PlanZeroStores(p, m.nextId, v);
      MemsetCallStep(m, c, v).value == m.(body := DropCast(SpliceCall(m.body, c, es), p.cast), nextId := m.nextId + |es|)
  {
  }

  /** Rewriting one call keeps the module well formed and the declarations as they
      were, removes exactly that call from the calls to every set of functions, and
      changes no other instruction; the one other it may erase is the bitcast its plan
      looked through. */
  lemma MemsetCallStepFacts(m: Module, c: Id, v: Variant)
    requires WellFormed(m) && c in CallsTo(m.body, FamilyDecls(m.decls, Memset))
    requires MemsetCallStep(m, c, v).Success?
    ensures var m' := MemsetCallStep(m, c, v).value;
      && WellFormed(m')
      && m'.decls == m.decls && m'.nextDecl == m.nextDecl
      && (forall ds :: CallsTo(m'.body, ds) == CallsTo(m.body, ds) - {c})
      && KeepsOthers(m, {c}, StoreCasts(m.body, {c}), m')
  {
    MemsetCallStepIs(m, c, v);
    var p := PlanStores(m.body, c).value;
    var es := PlanZeroStores(p, m.nextId, v);
    var m1 := m.(body := SpliceCall(m.body, c, es), nextId := m.nextId + |es|);
    MemsetSpliceFacts(m, c, v);
    MemsetDropCastFacts(m, c, m1);
    MemsetStepKeeps(m, c, v, m1);
  }

  /** The frame of one step: the splice keeps every other instruction, and the erased
      bitcast is the one the plan looked through. */
  lemma MemsetStepKeeps(m: Module, c: Id, v: Variant, m1: Module)
    requires WellFormed(m) && c in CallsTo(m.body, FamilyDecls(m.decls, Memset))
    requires PlanStores(m.body, c).Success?
    requires var es := PlanZeroStores(PlanStores(m.body, c).value, m.nextId, v);
      m1 == m.(body := SpliceCall(m.body, c, es), nextId := m.nextId + |es|)
    ensures KeepsOthers(m, {c}, StoreCasts(m.body, {c}), m1.(body := DropCast(m1.body, PlanStores(m.body, c).value.cast)))
  {
    var p := PlanStores(m.body, c).value;
    var es := PlanZeroStores(p, m.nextId, v);
    MemsetSpliceOk(m, c, v);
    SpliceCallKeeps(m, c, es, m.nextId + |es|);
    if p.cast.Some? && p.cast.value !in Refs(m1.body) {
      MemsetCastKeeps(m, c, m1);
    }
  }

  /** Erasing the bitcast the plan looked through, after the splice, keeps every other
      instruction. */
  lemma MemsetCastKeeps(m: Module, c: Id, m1: Module)
    requires WellFormed(m) && c in CallsTo(m.body, FamilyDecls(m.decls, Memset))
    requires PlanStores(m.body, c).Success? && PlanStores(m.body, c).value.cast.Some?
    requires KeepsOthers(m, {c}, {}, m1)
    ensures var x := PlanStores(m.body, c).value.cast.value;
      KeepsOthers(m, {c}, StoreCasts(m.body, {c}), m1.(body := Erase(m1.body, x)))
  {
    var x := PlanStores(m.body, c).value.cast.value;
    MemsetCallUnused(m, c);
    FindFacts(m.body, c, m.decls);
    ValueRefsIn(Find(m.body, c).value.args, 0);
    StripCastFacts(m.body, Find(m.body, c).value.args[0]);
    FindFacts(m.body, x, m.decls);
    assert x in Ids(m.body) && x != c;
    EraseCastKeeps(m1, x);
    assert x in StoreCasts(m.body, {c});
    KeepsOthersTrans(m, {c}, {}, m1, {}, {x}, m1.(body := Erase(m1.body, x)), {c}, StoreCasts(m.body, {c}));
  }

  /** The zero stores in place of the call: the module stays well formed and the call
      is gone, nothing else. */
  lemma MemsetSpliceFacts(m: Module, c: Id, v: Variant)
    requires WellFormed(m) && c in CallsTo(m.body, FamilyDecls(m.decls, Memset))
    requires PlanStores(m.body, c).Success?
    ensures var es := PlanZeroStores(PlanStores(m.body, c).value, m.nextId, v);
      var m1 := m.(body := SpliceCall(m.body, c, es), nextId := m.nextId + |es|);
      && WellFormed(m1)
      && forall ds :: CallsTo(m1.body, ds) == CallsTo(m.body, ds) - {c}
  {
    var p := PlanStores(m.body, c).value;
    var es := PlanZeroStores(p, m.nextId, v);
    MemsetSpliceOk(m, c, v);
    SpliceCallWellFormed(m, c, es, m.nextId + |es|);
    ZeroStoresShape(p.base, p.elemTy, StoreCount(p.count, v), m.nextId, m.decls);
  }

  /** Erasing the unwrapped bitcast, when nothing uses it any more, keeps the module
      well formed, and the bitcast is no call. */
  lemma MemsetDropCastFacts(m: Module, c: Id, m1: Module)
    requires WellFormed(m) && c in CallsTo(m.body, FamilyDecls(m.decls, Memset))
    requires PlanStores(m.body, c).Success?
    requires WellFormed(m1)
    ensures var cast := PlanStores(m.body, c).value.cast;
      && WellFormed(m1.(body := DropCast(m1.body, cast)))
      && (forall ds :: CallsTo(m1.body, ds) - CallsTo(m.body, ds) == {} ==>
            CallsTo(DropCast(m1.body, cast), ds) == CallsTo(m1.body, ds))
  {
    var p := PlanStores(m.body, c).value;
    if p.cast.Some? && p.cast.value !in Refs(m1.body) {
      var x := p.cast.value;
      MemsetCallUnused(m, c);
      FindFacts(m.body, c, m.decls);
      ValueRefsIn(Find(m.body, c).value.args, 0);
      StripCastFacts(m.body, Find(m.body, c).value.args[0]);
      EraseUnusedWellFormed(m1, x);
      forall ds | CallsTo(m1.body, ds) - CallsTo(m.body, ds) == {}
        ensures CallsTo(Erase(m1.body, x), ds) == CallsTo(m1.body, ds)
      {
        if x in CallsTo(m.body, ds) {
          FindCall(m.body, x, ds);
        }
        CollectErase(m1.body, x, CallsToQ(ds));
      }
    }
  }

  /** Rewriting the calls cs of d (none twice) keeps the module well formed and the
      declarations as they were, removes exactly those calls, and changes no other
      instruction but the bitcasts their plans looked through. */
  lemma {:induction false} MemsetCallsFacts(m: Module, cs: seq<Id>, d: DeclId, v: Variant)
    requires WellFormed(m) && FamilyOf(m.decls, d) == Some(Memset)
    requires NoDuplicates(cs) && SetOf(cs) <= CallsTo(m.body, {d})
    requires MemsetCalls(m, cs, v).Success?
    ensures var m' := MemsetCalls(m, cs, v).value;
      && WellFormed(m')
      && m'.decls == m.decls && m'.nextDecl == m.nextDecl
      && (forall ds :: CallsTo(m'.body, ds) == CallsTo(m.body, ds) - SetOf(cs))
      && KeepsOthers(m, SetOf(cs), StoreCasts(m.body, SetOf(cs)), m')
    decreases |cs|
  {
    if cs != [] {
      var init, c := cs[..|cs| - 1], cs[|cs| - 1];
      SetOfSnoc(cs);
      assert NoDuplicates(init);
      MemsetCallsFacts(m, init, d, v);
      var m1 := MemsetCalls(m, init, v).value;
      assert c !in SetOf(init);
      assert c in CallsTo(m1.body, {d});
      assert d in FamilyDecls(m1.decls, Memset);
      CallsToMono(m1.body, {d}, FamilyDecls(m1.decls, Memset));
      MemsetCallStepFacts(m1, c, v);
      MemsetNextPlan(m, m1, SetOf(init), StoreCasts(m.body, SetOf(init)), c, d);
      StoreCastsUnion(m.body, SetOf(init), {c});
      KeepsOthersTrans(m, SetOf(init), StoreCasts(m.body, SetOf(init)), m1, {c}, StoreCasts(m1.body, {c}),
                       MemsetCalls(m, cs, v).value, SetOf(cs), StoreCasts(m.body, SetOf(cs)));
    } else {
      assert SetOf(cs) == {};
    }
  }

  /** One declaration: its calls are checked first, and an error stops the rewrite
      before anything changed; the error is that of one of its calls. */
  lemma MemsetDeclChecksFirst(m: Module, d: DeclId, v: Variant)
    requires Distinct(m.body)
    ensures MemsetDecl(m, d, v).Success? ==> forall x | x in CallsTo(m.body, {d}) :: ZeroFill(m.body, x)
    ensures (exists x | x in CallsTo(m.body, {d}) :: !ZeroFill(m.body, x)) ==>
      MemsetDecl(m, d, v).Failure? &&
      exists x | x in CallsTo(m.body, {d}) :: Some(MemsetDecl(m, d, v).error) == CheckFill(m.body, x)
  {
    var cs := CallIds(m.body, d);
    CallIdsAreCalls(m.body, d);
    CheckFillsAll(m.body, cs);
    if MemsetDecl(m, d, v).Success? {
      forall x | x in CallsTo(m.body, {d})
        ensures ZeroFill(m.body, x)
      {
        var i :| 0 <= i < |cs| && cs[i] == x;
      }
    }
    if exists x | x in CallsTo(m.body, {d}) :: !ZeroFill(m.body, x) {
      var x :| x in CallsTo(m.body, {d}) && !ZeroFill(m.body, x);
      var k :| 0 <= k < |cs| && cs[k] == x;
      assert CheckFills(m.body, cs).Some?;
      var i :| 0 <= i < |cs| && CheckFill(m.body, cs[i]) == CheckFills(m.body, cs);
      assert cs[i] in CallsTo(m.body, {d});
    }
  }

  /** One declaration: afterwards none of its calls is left; the declarations, every
      other call and every other instruction but the bitcasts are as they were. */
  lemma MemsetDeclFacts(m: Module, d: DeclId, v: Variant)
    requires WellFormed(m) && FamilyOf(m.decls, d) == Some(Memset)
    requires MemsetDecl(m, d, v).Success?
    ensures MemsetKeeps(m, {d}, MemsetDecl(m, d, v).value)
  {
    var cs := CallIds(m.body, d);
    CallIdsAreCalls(m.body, d);
    assert SetOf(cs) == CallsTo(m.body, {d});
    MemsetCallsFacts(m, cs, d, v);
  }

  /** What lowering the memset declarations s turns m into m' changes: the calls to s
      are gone, and some of the bitcasts their plans looked through; nothing else is. */
  ghost predicate MemsetKeeps(m: Module, s: set<DeclId>, m': Module) {
    && WellFormed(m')
    && m'.decls == m.decls && m'.nextDecl == m.nextDecl
    && (forall q: set<DeclId> :: CallsTo(m'.body, q) == CallsTo(m.body, q) - CallsTo(m.body, s))
    && KeepsOthers(m, CallsTo(m.body, s), StoreCasts(m.body, CallsTo(m.body, s)), m')
  }

  /** The induction step of MemsetDeclsFacts: one more declaration. */
  lemma MemsetDeclsStep(m: Module, m1: Module, m2: Module, s: set<DeclId>, d: DeclId)
    requires WellFormed(m) && MemsetKeeps(m, s, m1) && MemsetKeeps(m1, {d}, m2)
    requires forall e | e in s + {d} :: FamilyOf(m.decls, e) == Some(Memset)
    ensures MemsetKeeps(m, s + {d}, m2)
  {
    CallsToUnion(m.body, s, {d});
    var gone, goneD := CallsTo(m.body, s), CallsTo(m.body, {d});
    assert CallsTo(m1.body, {d}) == goneD - gone;
    forall q
      ensures CallsTo(m2.body, q) == CallsTo(m.body, q) - (gone + goneD)
    {
      assert CallsTo(m1.body, q) == CallsTo(m.body, q) - gone;
    }
    var left := goneD - gone;
    MemsetLeftPlans(m, s, m1, d);
    StoreCastsUnion(m.body, gone, left);
    assert gone + left == gone + goneD;
    KeepsOthersTrans(m, gone, StoreCasts(m.body, gone), m1, left, StoreCasts(m1.body, left), m2,
                     gone + goneD, StoreCasts(m.body, gone + goneD));
  }

  /** After the declarations in s, the calls of d left keep the plans they had in m. */
  lemma MemsetLeftPlans(m: Module, s: set<DeclId>, m1: Module, d: DeclId)
    requires WellFormed(m) && MemsetKeeps(m, s, m1)
    requires forall e | e in s + {d} :: FamilyOf(m.decls, e) == Some(Memset)
    ensures StoreCasts(m1.body, CallsTo(m1.body, {d})) == StoreCasts(m.body, CallsTo(m1.body, {d}))
  {
    CallsToUnion(m.body, s, {d});
    CallsToMono(m.body, s + {d}, FamilyDecls(m.decls, Memset));
    VoidCallsUnused(m, Memset);
    CollectIdsBound(m.body, CallsToQ(s + {d}));
    forall x | x in CallsTo(m1.body, {d})
      ensures PlanStores(m1.body, x) == PlanStores(m.body, x)
    {
      FindCall(m.body, x, s + {d});
      PlanStoresStays(m, m1, CallsTo(m.body, s), StoreCasts(m.body, CallsTo(m.body, s)), x);
    }
  }

  /** One more memset declaration d after those in s. */
  lemma MemsetDeclsGrow(m: Module, s: set<DeclId>, m1: Module, d: DeclId, v: Variant)
    requires MemsetKeeps(m, s, m1) && WellFormed(m)
    requires forall e | e in s + {d} :: FamilyOf(m.decls, e) == Some(Memset)
    requires MemsetDecl(m1, d, v).Success?
    ensures MemsetKeeps(m, s + {d}, MemsetDecl(m1, d, v).value)
  {
    MemsetDeclFacts(m1, d, v);
    MemsetDeclsStep(m, m1, MemsetDecl(m1, d, v).value, s, d);
  }

  lemma {:induction false} MemsetDeclsFacts(m: Module, ds: seq<DeclId>, v: Variant)
    requires WellFormed(m) && forall d | d in ds :: FamilyOf(m.decls, d) == Some(Memset)
    requires MemsetDecls(m, ds, v).Success?
    ensures MemsetKeeps(m, SetOf(ds), MemsetDecls(m, ds, v).value)
    decreases |ds|
  {
    if ds != [] {
      var init, d := ds[..|ds| - 1], ds[|ds| - 1];
      assert MemsetDecls(m, init, v).Success?;
      MemsetDeclsFacts(m, init, v);
      assert d in ds;
      SetOfSnoc(ds);
      MemsetDeclsGrow(m, SetOf(init), MemsetDecls(m, init, v).value, d, v);
    } else {
      assert SetOf(ds) == {};
      CallsToOnlyCallees(m.body, {});
    }
  }

  /** replaceMemset leaves a well-formed module with the same declarations and no call
      to llvm.memset; every other call stays, and every other instruction but the
      bitcasts their plans looked through; it reports no change. */
  lemma ReplaceMemsetFacts(m: Module, v: Variant)
    requires WellFormed(m) && ReplaceMemset(m, v).Success?
    ensures var (m', changed) := ReplaceMemset(m, v).value;
      var memset := FamilyDecls(m.decls, Memset);
      && WellFormed(m')
      && m'.decls == m.decls && m'.nextDecl == m.nextDecl
      && (forall q :: CallsTo(m'.body, q) == CallsTo(m.body, q) - CallsTo(m.body, memset))
      && NoCallsOf(m', Memset)
      && KeepsOthers(m, CallsTo(m.body, memset), StoreCasts(m.body, CallsTo(m.body, memset)), m')
      && !changed
  {
    var ds := DeclsOf(m.decls, Memset);
    DeclsOfFamily(m.decls, Memset);
    assert SetOf(ds) == FamilyDecls(m.decls, Memset);
    MemsetDeclsFacts(m, ds, v);
    assert MemsetKeeps(m, FamilyDecls(m.decls, Memset), ReplaceMemset(m, v).value.0);
  }

  /** An instruction that is neither a call of llvm.memset nor a bitcast one of their plans
      looks through comes out of replaceMemset unchanged. */
  lemma ReplaceMemsetKeeps(m: Module, v: Variant, y: Id)
    requires WellFormed(m) && ReplaceMemset(m, v).Success?
    requires y in Ids(m.body) && y !in CallsTo(m.body, FamilyDecls(m.decls, Memset))
    requires forall c | c in CallsTo(m.body, FamilyDecls(m.decls, Memset)) && PlanStores(m.body, c).Success? ::
      PlanStores(m.body, c).value.cast != Some(y)
    ensures y in Ids(ReplaceMemset(m, v).value.0.body)
    ensures Find(ReplaceMemset(m, v).value.0.body, y) == Find(m.body, y)
  {
    ReplaceMemsetFacts(m, v);
    assert y !in StoreCasts(m.body, CallsTo(m.body, FamilyDecls(m.decls, Memset)));
  }

  /** With no call of llvm.memset left, rewriting its declarations ds changes nothing. */
  lemma {:induction false} MemsetDeclsQuiet(m: Module, ds: seq<DeclId>, v: Variant)
    requires NoCallsOf(m, Memset)
    requires forall d | d in ds :: d in FamilyDecls(m.decls, Memset)
    ensures MemsetDecls(m, ds, v) == Success(m)
    decreases |ds|
  {
    if ds != [] {
      var d := ds[|ds| - 1];
      MemsetDeclsQuiet(m, ds[..|ds| - 1], v);
      CallsToMono(m.body, {d}, FamilyDecls(m.decls, Memset));
      NoCallsNoCallIds(m.body, d);
    }
  }

  // ---------------------------------------------------------------------------------
  // Fatal errors

  /** Whether the lowering rejects call x with error e: its fill value is not the
      constant 0, or its length, pointer or element size give no whole number of stores
      below 2^32. */
  predicate RejectsWith(b: seq<Entry>, x: Id, e: Fatal) {
    CheckFill(b, x) == Some(e) || PlanStores(b, x) == Failure(e)
  }

  /** Whether the lowering rejects call x at all. */
  predicate Rejected(b: seq<Entry>, x: Id) {
    CheckFill(b, x).Some? || PlanStores(b, x).Failure?
  }

  /** A call's checks read only the call and the instruction its destination names. */
  lemma PlanStoresFrame(b: seq<Entry>, b': seq<Entry>, c: Id)
    requires Find(b', c) == Find(b, c) && Find(b, c).Some?
    requires forall x | x in InstRefs(Find(b, c).value) :: Find(b', x) == Find(b, x)
    ensures PlanStores(b', c) == PlanStores(b, c) && CheckFill(b', c) == CheckFill(b, c)
  {
    var inst := Find(b, c).value;
    if inst.Call? && |inst.args| >= 1 && inst.args[0].Ref? {
      ValueRefsIn(inst.args, 0);
    }
  }

  /** A call not yet rewritten is checked and planned as it would have been in m: the
      steps before it keep it and every instruction it names, the bitcasts they erase
      being ones nobody used. */
  lemma PlanStoresStays(m: Module, m1: Module, gone: set<Id>, erased: set<Id>, c: Id)
    requires WellFormed(m) && WellFormed(m1) && KeepsOthers(m, gone, erased, m1)
    requires c in Ids(m.body) && c !in gone && Find(m.body, c).Some? && Find(m.body, c).value.Call?
    requires gone !! Refs(m.body)
    ensures Find(m1.body, c) == Find(m.body, c)
    ensures PlanStores(m1.body, c) == PlanStores(m.body, c) && CheckFill(m1.body, c) == CheckFill(m.body, c)
  {
    assert c in Ids(m1.body);
    FindFacts(m.body, c, m.decls);
    FindFacts(m1.body, c, m1.decls);
    forall x | x in InstRefs(Find(m.body, c).value)
      ensures Find(m1.body, x) == Find(m.body, x)
    {
      assert x in Ids(m1.body);
    }
    PlanStoresFrame(m.body, m1.body, c);
  }

  /** A call c of d, rewritten after the calls gone: it fails with its own plan's error
      in m, and otherwise can fail, as written, only on erasing a bitcast in use. */
  lemma MemsetLaterStep(m: Module, m1: Module, gone: set<Id>, erased: set<Id>, c: Id, d: DeclId, v: Variant)
    requires WellFormed(m) && WellFormed(m1) && KeepsOthers(m, gone, erased, m1) && FamilyOf(m.decls, d) == Some(Memset)
    requires gone <= CallsTo(m.body, {d}) && c in CallsTo(m.body, {d}) && c !in gone
    ensures PlanStores(m.body, c).Failure? ==> MemsetCallStep(m1, c, v) == Failure(PlanStores(m.body, c).error)
    ensures PlanStores(m.body, c).Success? && MemsetCallStep(m1, c, v).Failure? ==>
      v == AsWritten && MemsetCallStep(m1, c, v).error == ErasedWhileUsed
  {
    MemsetNextPlan(m, m1, gone, erased, c, d);
  }

  /** A call c of d not among the calls gone rewritten before it keeps the plan it had
      in m. */
  lemma MemsetNextPlan(m: Module, m1: Module, gone: set<Id>, erased: set<Id>, c: Id, d: DeclId)
    requires WellFormed(m) && WellFormed(m1) && KeepsOthers(m, gone, erased, m1) && FamilyOf(m.decls, d) == Some(Memset)
    requires gone <= CallsTo(m.body, {d}) && c in CallsTo(m.body, {d}) && c !in gone
    ensures PlanStores(m1.body, c) == PlanStores(m.body, c)
    ensures StoreCasts(m1.body, {c}) == StoreCasts(m.body, {c})
  {
    assert d in FamilyDecls(m.decls, Memset);
    CallsToMono(m.body, {d}, FamilyDecls(m.decls, Memset));
    VoidCallsUnused(m, Memset);
    MemsetCallUnused(m, c);
    CollectIdsBound(m.body, CallsToQ({d}));
    PlanStoresStays(m, m1, gone, erased, c);
  }

  /** The last of the calls cs, after the others succeeded: it fails with its own plan's
      error in m, and otherwise can fail, as written, only on erasing a bitcast in use. */
  lemma MemsetCallsLast(m: Module, cs: seq<Id>, d: DeclId, v: Variant)
    requires WellFormed(m) && FamilyOf(m.decls, d) == Some(Memset)
    requires NoDuplicates(cs) && SetOf(cs) <= CallsTo(m.body, {d})
    requires cs != [] && MemsetCalls(m, cs[..|cs| - 1], v).Success?
    ensures var c := cs[|cs| - 1];
      PlanStores(m.body, c).Failure? ==> MemsetCalls(m, cs, v) == Failure(PlanStores(m.body, c).error)
    ensures var c := cs[|cs| - 1];
      PlanStores(m.body, c).Success? && MemsetCalls(m, cs, v).Failure? ==>
        v == AsWritten && MemsetCalls(m, cs, v).error == ErasedWhileUsed
  {
    var init, c := cs[..|cs| - 1], cs[|cs| - 1];
    SetOfSnoc(cs);
    assert NoDuplicates(init);
    MemsetCallsFacts(m, init, d, v);
    var m1 := MemsetCalls(m, init, v).value;
    assert c !in SetOf(init);
    MemsetLaterStep(m, m1, SetOf(init), StoreCasts(m.body, SetOf(init)), c, d, v);
  }

  /** The calls cs of d in order: a call whose stores cannot be planned stops them;
      corrected, nothing else does; the error is such a call's, or, as written, the
      erasure of a bitcast still in use. */
  lemma MemsetCallsOutcome(m: Module, cs: seq<Id>, d: DeclId, v: Variant)
    requires WellFormed(m) && FamilyOf(m.decls, d) == Some(Memset)
    requires NoDuplicates(cs) && SetOf(cs) <= CallsTo(m.body, {d})
    ensures (exists i | 0 <= i < |cs| :: PlanStores(m.body, cs[i]).Failure?) ==> MemsetCalls(m, cs, v).Failure?
    ensures v == Corrected && MemsetCalls(m, cs, v).Failure? ==>
      exists i | 0 <= i < |cs| :: PlanStores(m.body, cs[i]).Failure?
    ensures MemsetCalls(m, cs, v).Failure? ==>
      || (v == AsWritten && MemsetCalls(m, cs, v).error == ErasedWhileUsed)
      || exists i | 0 <= i < |cs| :: PlanStores(m.body, cs[i]) == Failure(MemsetCalls(m, cs, v).error)
  {
    MemsetCallsRejects(m, cs, d, v);
    MemsetCallsErrors(m, cs, d, v);
  }

  /** The first half of MemsetCallsOutcome: a call that cannot be planned stops the
      calls. */
  lemma MemsetCallsRejects(m: Module, cs: seq<Id>, d: DeclId, v: Variant)
    requires WellFormed(m) && FamilyOf(m.decls, d) == Some(Memset)
    requires NoDuplicates(cs) && SetOf(cs) <= CallsTo(m.body, {d})
    ensures (exists i | 0 <= i < |cs| :: PlanStores(m.body, cs[i]).Failure?) ==> MemsetCalls(m, cs, v).Failure?
  {
    if exists i | 0 <= i < |cs| :: PlanStores(m.body, cs[i]).Failure? {
      var i :| 0 <= i < |cs| && PlanStores(m.body, cs[i]).Failure?;
      MemsetCallsRejectsAt(m, cs, d, v, i);
    }
  }

  /** The calls stop when the i-th of them cannot be planned. */
  lemma {:induction false} MemsetCallsRejectsAt(m: Module, cs: seq<Id>, d: DeclId, v: Variant, i: nat)
    requires WellFormed(m) && FamilyOf(m.decls, d) == Some(Memset)
    requires NoDuplicates(cs) && SetOf(cs) <= CallsTo(m.body, {d})
    requires i < |cs| && PlanStores(m.body, cs[i]).Failure?
    ensures MemsetCalls(m, cs, v).Failure?
    decreases |cs|
  {
    var init := cs[..|cs| - 1];
    if i < |init| {
      NoDuplicatesInit(cs, CallsTo(m.body, {d}));
      assert init[i] == cs[i];
      MemsetCallsRejectsAt(m, init, d, v, i);
    } else if MemsetCalls(m, init, v).Success? {
      MemsetCallsLast(m, cs, d, v);
    }
  }

  /** The second half of MemsetCallsOutcome: the error of the calls is that of a call
      that cannot be planned, or, as written, the erasure of a bitcast in use. */
  lemma {:induction false} MemsetCallsErrors(m: Module, cs: seq<Id>, d: DeclId, v: Variant)
    requires WellFormed(m) && FamilyOf(m.decls, d) == Some(Memset)
    requires NoDuplicates(cs) && SetOf(cs) <= CallsTo(m.body, {d})
    ensures MemsetCalls(m, cs, v).Failure? ==>
      || (v == AsWritten && MemsetCalls(m, cs, v).error == ErasedWhileUsed)
      || exists i | 0 <= i < |cs| :: PlanStores(m.body, cs[i]) == Failure(MemsetCalls(m, cs, v).error)
    decreases |cs|
  {
    if cs != [] {
      var init, c := cs[..|cs| - 1], cs[|cs| - 1];
      assert SetOf(init) <= SetOf(cs) by { SetOfSnoc(cs); }
      assert NoDuplicates(init);
      MemsetCallsErrors(m, init, d, v);
      var r, r0 := MemsetCalls(m, cs, v), MemsetCalls(m, init, v);
      if r0.Success? {
        MemsetCallsLast(m, cs, d, v);
        if PlanStores(m.body, c).Failure? {
          assert PlanStores(m.body, cs[|cs| - 1]) == Failure(r.error);
        }
      } else {
        assert r == r0;
        if exists i | 0 <= i < |init| :: PlanStores(m.body, init[i]) == Failure(r0.error) {
          var i :| 0 <= i < |init| && PlanStores(m.body, init[i]) == Failure(r0.error);
          assert cs[i] == init[i];
        }
      }
    }
  }

  /** One declaration: a call it rejects stops the rewrite; corrected, nothing else does;
      the error is such a call's, or, as written, the erasure of a bitcast still in
      use. */
  lemma MemsetDeclOutcome(m: Module, d: DeclId, v: Variant)
    requires WellFormed(m) && FamilyOf(m.decls, d) == Some(Memset)
    ensures (exists x | x in CallsTo(m.body, {d}) :: Rejected(m.body, x)) ==> MemsetDecl(m, d, v).Failure?
    ensures v == Corrected && MemsetDecl(m, d, v).Failure? ==>
      exists x | x in CallsTo(m.body, {d}) :: Rejected(m.body, x)
    ensures MemsetDecl(m, d, v).Failure? ==>
      || (v == AsWritten && MemsetDecl(m, d, v).error == ErasedWhileUsed)
      || exists x | x in CallsTo(m.body, {d}) :: RejectsWith(m.body, x, MemsetDecl(m, d, v).error)
  {
    var cs := CallIds(m.body, d);
    CallIdsAreCalls(m.body, d);
    MemsetDeclChecksFirst(m, d, v);
    CheckFillsAll(m.body, cs);
    if CheckFills(m.body, cs).None? {
      MemsetCallsOutcome(m, cs, d, v);
      if exists x | x in CallsTo(m.body, {d}) :: Rejected(m.body, x) {
        var x :| x in CallsTo(m.body, {d}) && Rejected(m.body, x);
        var i :| 0 <= i < |cs| && cs[i] == x;
      }
      if MemsetDecl(m, d, v).Failure? && (v == Corrected || MemsetDecl(m, d, v).error != ErasedWhileUsed) {
        var i :| 0 <= i < |cs| && PlanStores(m.body, cs[i]) == Failure(MemsetDecl(m, d, v).error);
        assert cs[i] in SetOf(cs);
      }
    } else {
      var i :| 0 <= i < |cs| && CheckFill(m.body, cs[i]) == CheckFills(m.body, cs);
      assert cs[i] in SetOf(cs);
    }
  }

  /** The step of MemsetDeclsOutcome: after the declarations in s, the calls of d left
      are those of m not yet rewritten, checked as they would be in m. */
  lemma MemsetDeclsStepOutcome(m: Module, s: set<DeclId>, m1: Module, d: DeclId)
    requires WellFormed(m) && MemsetKeeps(m, s, m1)
    requires forall e | e in s + {d} :: FamilyOf(m.decls, e) == Some(Memset)
    requires !exists x | x in CallsTo(m.body, s) :: Rejected(m.body, x)
    ensures (exists x | x in CallsTo(m1.body, {d}) :: Rejected(m1.body, x))
              <==> exists x | x in CallsTo(m.body, s + {d}) :: Rejected(m.body, x)
    ensures forall x, e | x in CallsTo(m1.body, {d}) && RejectsWith(m1.body, x, e) ::
              x in CallsTo(m.body, s + {d}) && RejectsWith(m.body, x, e)
  {
    CallsToUnion(m.body, s, {d});
    CallsToMono(m.body, s + {d}, FamilyDecls(m.decls, Memset));
    VoidCallsUnused(m, Memset);
    CollectIdsBound(m.body, CallsToQ(s + {d}));
    forall x | x in CallsTo(m1.body, {d})
      ensures x in CallsTo(m.body, s + {d})
      ensures PlanStores(m1.body, x) == PlanStores(m.body, x) && CheckFill(m1.body, x) == CheckFill(m.body, x)
    {
      FindCall(m.body, x, s + {d});
      PlanStoresStays(m, m1, CallsTo(m.body, s), StoreCasts(m.body, CallsTo(m.body, s)), x);
    }
    if exists x | x in CallsTo(m.body, s + {d}) :: Rejected(m.body, x) {
      var x :| x in CallsTo(m.body, s + {d}) && Rejected(m.body, x);
      assert x in CallsTo(m1.body, {d});
    }
  }

  /** The declarations ds in order: a call they reject stops the rewrite; corrected,
      nothing else does; the error is such a call's, or, as written, the erasure of a
      bitcast still in use. */
  lemma {:induction false} MemsetDeclsOutcome(m: Module, ds: seq<DeclId>, v: Variant)
    requires WellFormed(m) && forall d | d in ds :: FamilyOf(m.decls, d) == Some(Memset)
    ensures (exists x | x in CallsTo(m.body, SetOf(ds)) :: Rejected(m.body, x)) ==> MemsetDecls(m, ds, v).Failure?
    ensures v == Corrected && MemsetDecls(m, ds, v).Failure? ==>
      exists x | x in CallsTo(m.body, SetOf(ds)) :: Rejected(m.body, x)
    ensures MemsetDecls(m, ds, v).Failure? ==>
      || (v == AsWritten && MemsetDecls(m, ds, v).error == ErasedWhileUsed)
      || exists x | x in CallsTo(m.body, SetOf(ds)) :: RejectsWith(m.body, x, MemsetDecls(m, ds, v).error)
    decreases |ds|
  {
    if ds == [] {
      assert SetOf(ds) == {};
      CallsToOnlyCallees(m.body, {});
    } else {
      var init, d := ds[..|ds| - 1], ds[|ds| - 1];
      SetOfSnoc(ds);
      assert d in ds;
      CallsToUnion(m.body, SetOf(init), {d});
      MemsetDeclsOutcome(m, init, v);
      if MemsetDecls(m, init, v).Success? {
        MemsetDeclsFacts(m, init, v);
        var m1 := MemsetDecls(m, init, v).value;
        MemsetDeclOutcome(m1, d, v);
        MemsetDeclsStepOutcome(m, SetOf(init), m1, d);
        assert MemsetDecls(m, ds, v) == MemsetDecl(m1, d, v);
      }
    }
  }

  /** replaceMemset stops on a fatal error when some llvm.memset call fills with
      anything but the constant 0, or has a length that is not a constant, a whole
      number of elements of non-zero size, or below 2^32 elements; corrected, only
      then. The error is that of such a call, or, as written, the erasure of a bitcast
      another instruction still uses. */
  lemma ReplaceMemsetOutcome(m: Module, v: Variant)
    requires WellFormed(m)
    ensures var calls := CallsTo(m.body, FamilyDecls(m.decls, Memset));
      (exists x | x in calls :: Rejected(m.body, x)) ==> ReplaceMemset(m, v).Failure?
    ensures var calls := CallsTo(m.body, FamilyDecls(m.decls, Memset));
      v == Corrected && ReplaceMemset(m, v).Failure? ==> exists x | x in calls :: Rejected(m.body, x)
    ensures var calls := CallsTo(m.body, FamilyDecls(m.decls, Memset));
      ReplaceMemset(m, v).Failure? ==>
        || (v == AsWritten && ReplaceMemset(m, v).error == ErasedWhileUsed)
        || exists x | x in calls :: RejectsWith(m.body, x, ReplaceMemset(m, v).error)
  {
    var ds := DeclsOf(m.decls, Memset);
    DeclsOfFamily(m.decls, Memset);
    assert SetOf(ds) == FamilyDecls(m.decls, Memset);
    MemsetDeclsOutcome(m, ds, v);
  }

  /** As written, a call that looked through a bitcast another instruction still uses
      stops the pass when that bitcast is erased; corrected, the call is rewritten and
      the bitcast stays for its other user. */
  lemma SharedCastFails(m: Module, c: Id, y: Id)
    requires WellFormed(m) && c in CallsTo(m.body, FamilyDecls(m.decls, Memset))
    requires PlanStores(m.body, c).Success? && PlanStores(m.body, c).value.cast.Some?
    requires y != c && Find(m.body, y).Some?
    requires PlanStores(m.body, c).value.cast.value in InstRefs(Find(m.body, y).value)
    ensures MemsetCallStep(m, c, AsWritten) == Failure(ErasedWhileUsed)
    ensures MemsetCallStep(m, c, Corrected).Success?
    ensures var m' := MemsetCallStep(m, c, Corrected).value;
      WellFormed(m') && PlanStores(m.body, c).value.cast.value in Ids(m'.body)
  {
    var p := PlanStores(m.body, c).value;
    var es, es' := PlanZeroStores(p, m.nextId, AsWritten), PlanZeroStores(p, m.nextId, Corrected);
    ZeroStoresIds(p.base, p.elemTy, StoreCount(p.count, AsWritten), m.nextId);
    ZeroStoresIds(p.base, p.elemTy, StoreCount(p.count, Corrected), m.nextId);
    UseSurvivesSplice(m, c, es, y);
    UseSurvivesSplice(m, c, es', y);
    EraseCastFails(m, c, AsWritten);
    SharedCastStays(m, c);
  }

  /** A step whose plan succeeds fails exactly when erasing the bitcast does. */
  lemma EraseCastFails(m: Module, c: Id, v: Variant)
    requires PlanStores(m.body, c).Success?
    ensures var p := PlanStores(m.body, c).value;
      EraseCast(SpliceCall(m.body, c, PlanZeroStores(p, m.nextId, v)), p.cast, v).Failure? ==>
        MemsetCallStep(m, c, v) == Failure(ErasedWhileUsed)
  {
  }

  /** Corrected, the bitcast a call looked through stays while something uses it. */
  lemma SharedCastStays(m: Module, c: Id)
    requires WellFormed(m) && c in CallsTo(m.body, FamilyDecls(m.decls, Memset))
    requires PlanStores(m.body, c).Success? && PlanStores(m.body, c).value.cast.Some?
    requires PlanStores(m.body, c).value.cast.value in Refs(SpliceCall(m.body, c, PlanZeroStores(PlanStores(m.body, c).value, m.nextId, Corrected)))
    ensures MemsetCallStep(m, c, Corrected).Success?
    ensures var m' := MemsetCallStep(m, c, Corrected).value;
      WellFormed(m') && PlanStores(m.body, c).value.cast.value in Ids(m'.body)
  {
    MemsetCallStepFacts(m, c, Corrected);
  }

  /** An old instruction other than c keeps its uses when c is replaced by fresh ones. */
  lemma UseSurvivesSplice(m: Module, c: Id, es: seq<Entry>, y: Id)
    requires WellFormed(m) && y != c && Find(m.body, y).Some?
    requires forall x | x in Ids(es) :: x >= m.nextId
    ensures InstRefs(Find(m.body, y).value) <= Refs(SpliceCall(m.body, c, es))
  {
    FindFacts(m.body, y, m.decls);
    assert y < m.nextId;
    SpliceFind(m.body, c, es, y);
    FindFacts(SpliceCall(m.body, c, es), y, m.decls);
  }

  /** A fatal error stops the rewrite: once the calls up to k fail, the whole sequence
      of calls fails with that error. */
  lemma {:induction false} MemsetCallsStop(m: Module, cs: seq<Id>, k: nat, v: Variant)
    requires k <= |cs| && MemsetCalls(m, cs[..k], v).Failure?
    ensures MemsetCalls(m, cs, v) == MemsetCalls(m, cs[..k], v)
    decreases |cs|
  {
    if k < |cs| {
      var init := cs[..|cs| - 1];
      assert init[..k] == cs[..k];
      MemsetCallsStop(m, init, k, v);
    } else {
      assert cs[..k] == cs;
    }
  }

  /** Likewise over the declarations: a fatal error in one stops the stage. */
  lemma {:induction false} MemsetDeclsStop(m: Module, ds: seq<DeclId>, k: nat, v: Variant)
    requires k <= |ds| && MemsetDecls(m, ds[..k], v).Failure?
    ensures MemsetDecls(m, ds, v) == MemsetDecls(m, ds[..k], v)
    decreases |ds|
  {
    if k < |ds| {
      var init := ds[..|ds| - 1];
      assert init[..k] == ds[..k];
      MemsetDeclsStop(m, init, k, v);
    } else {
      assert ds[..k] == ds;
    }
  }
}
