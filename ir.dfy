/** The slice of an LLVM module the pass reads and rewrites.

    A module is its function declarations and one sequence of instructions in program
    order (the bodies of all functions, concatenated: every rewrite inserts right before
    the call it replaces, so the block structure plays no part). Each instruction has an
    id that the edits never change; an operand that uses an instruction's result is a
    `Ref` to its id. */
module IR {
  import opened Wrappers
  import opened Types
  import opened Funnel

  type Id = nat
  type DeclId = nat

  /** The intrinsic families the pass recognises by name prefix (llvm.lifetime.,
      llvm.fshl, llvm.memset, llvm.memcpy), the copy-memory builtin it introduces, and
      every other function. */
  datatype Family = Lifetime | Fshl | Memset | Memcpy | CopyMemory | OtherFunction

  datatype Decl = Decl(id: DeclId, family: Family)

  /** An operand. `External` is a value not defined by an instruction (a function
      argument or a global variable); `CastExpr` is a constant-expression bitcast. */
  datatype Value =
    | ConstInt(ty: Type, n: nat)
    | NullValue(ty: Type)
    | External(key: nat, ty: Type)
    | CastExpr(inner: Value, ty: Type)
    | Ref(id: Id, ty: Type)

  /** The instructions the pass inspects or creates; every other instruction is
      `OtherInst` with its operands. `destAlign` is a call's destination-alignment
      attribute (0 when absent). */
  datatype Inst =
    | Call(callee: DeclId, args: seq<Value>, destAlign: nat)
    | BitCast(operand: Value, ty: Type)
    | Binary(op: BinaryOp, lhs: Value, rhs: Value)
    | Store(stored: Value, ptr: Value)
    | Gep(sourceTy: Type, base: Value, indices: seq<Value>, inbounds: bool)
    | OtherInst(operands: seq<Value>)

  datatype Entry = Entry(id: Id, inst: Inst)

  /** The module: declarations in module order, instructions in program order, and
      the next unused instruction and declaration ids. */
  datatype Module = Module(decls: seq<Decl>, body: seq<Entry>, nextId: nat, nextDecl: nat)

  /** The fatal errors of the pass: the failed asserts, llvm_unreachable calls, failed
      casts and divisions by zero of the source. `ErasedWhileUsed` is LLVM's own
      assertion that an instruction is deleted only once nothing uses it. */
  datatype Fatal =
    | MalformedCall
    | InvalidFshlWidth
    | NonConstantFill
    | NonZeroFill
    | NonConstantLength
    | NotAPointer
    | ZeroSizedElement
    | UnevenMemset
    | TooManyStores
    | NotABitCast
    | NonConstantSize
    | CannotDescend
    | SizeNotMultiple
    | UnderAligned
    | MisAligned
    | NonConstantVolatile
    | ErasedWhileUsed

  /** Which program a rewrite models: the code as written, or the code with the
      defects listed under the findings corrected. */
  datatype Variant = AsWritten | Corrected

  /** Functions whose calls produce no value, so that nothing can use a call to them. */
  predicate VoidFamily(f: Family) {
    f == Lifetime || f == Memset || f == Memcpy || f == CopyMemory
  }

  // ---------------------------------------------------------------------------------
  // Declarations

  function DeclIds(decls: seq<Decl>): set<DeclId> {
    if decls == [] then {} else {decls[0].id} + DeclIds(decls[1..])
  }

  predicate DeclsDistinct(decls: seq<Decl>) {
    decls == [] || (decls[0].id !in DeclIds(decls[1..]) && DeclsDistinct(decls[1..]))
  }

  function FamilyOf(decls: seq<Decl>, d: DeclId): (r: Option<Family>)
    ensures r.Some? <==> d in DeclIds(decls)
  {
    if decls == [] then None
    else if decls[0].id == d then Some(decls[0].family)
    else FamilyOf(decls[1..], d)
  }

  /** The ids of the declarations of family f, in module order. */
  function DeclsOf(decls: seq<Decl>, f: Family): (r: seq<DeclId>)
    ensures forall d :: d in r ==> d in DeclIds(decls)
  {
    if decls == [] then []
    else if decls[0].family == f then [decls[0].id] + DeclsOf(decls[1..], f)
    else DeclsOf(decls[1..], f)
  }

  function EraseDecl(decls: seq<Decl>, d: DeclId): seq<Decl> {
    if decls == [] then []
    else if decls[0].id == d then EraseDecl(decls[1..], d)
    else [decls[0]] + EraseDecl(decls[1..], d)
  }

  predicate HasFamily(decls: seq<Decl>, f: Family) {
    exists i :: 0 <= i < |decls| && decls[i].family == f
  }

  // ---------------------------------------------------------------------------------
  // Operands and the ids they use

  function Operands(inst: Inst): seq<Value> {
    match inst
    case Call(_, args, _) => args
    case BitCast(v, _) => [v]
    case Binary(_, l, r) => [l, r]
    case Store(v, p) => [v, p]
    case Gep(_, base, idx, _) => [base] + idx
    case OtherInst(ops) => ops
  }

  function ValueRefs(v: Value): set<Id> {
    match v
    case Ref(id, _) => {id}
    case CastExpr(inner, _) => ValueRefs(inner)
    case _ => {}
  }

  function ValuesRefs(vs: seq<Value>): set<Id> {
    if vs == [] then {} else ValueRefs(vs[0]) + ValuesRefs(vs[1..])
  }

  function InstRefs(inst: Inst): set<Id> {
    ValuesRefs(Operands(inst))
  }

  predicate IsVoid(decls: seq<Decl>, inst: Inst) {
    inst.Store?
    || (inst.Call? && FamilyOf(decls, inst.callee).Some? && VoidFamily(FamilyOf(decls, inst.callee).value))
  }

  // ---------------------------------------------------------------------------------
  // Facts collected over an instruction sequence

  /** What to collect from each instruction: its id, the ids it uses, its id if it calls
      one of `ds`, its id if it produces no value, or the declaration it calls. */
  datatype Query = IdsQ | RefsQ | CallsToQ(ds: set<DeclId>) | VoidsQ(decls: seq<Decl>) | CalleesQ

  function Pick(q: Query, e: Entry): set<nat> {
    match q
    case IdsQ => {e.id}
    case RefsQ => InstRefs(e.inst)
    case CallsToQ(ds) => if e.inst.Call? && e.inst.callee in ds then {e.id} else {}
    case VoidsQ(decls) => if IsVoid(decls, e.inst) then {e.id} else {}
    case CalleesQ => if e.inst.Call? then {e.inst.callee} else {}
  }

  function Collect(b: seq<Entry>, q: Query): set<nat> {
    if b == [] then {} else Pick(q, b[0]) + Collect(b[1..], q)
  }

  /** Queries whose answer for an instruction is at most its own id. */
  predicate IdValued(q: Query) {
    q.IdsQ? || q.CallsToQ? || q.VoidsQ?
  }

  function Ids(b: seq<Entry>): set<Id> { Collect(b, IdsQ) }
  function Refs(b: seq<Entry>): set<Id> { Collect(b, RefsQ) }
  function CallsTo(b: seq<Entry>, ds: set<DeclId>): set<Id> { Collect(b, CallsToQ(ds)) }
  function Voids(decls: seq<Decl>, b: seq<Entry>): set<Id> { Collect(b, VoidsQ(decls)) }
  function Callees(b: seq<Entry>): set<DeclId> { Collect(b, CalleesQ) }

  predicate Distinct(b: seq<Entry>) {
    b == [] || (b[0].id !in Ids(b[1..]) && Distinct(b[1..]))
  }

  /** No instruction uses an id that is not in the sequence. */
  predicate Closed(b: seq<Entry>) {
    Refs(b) <= Ids(b)
  }

  /** The ids of the calls to d, in program order: the snapshot of d's call users. */
  function CallIds(b: seq<Entry>, d: DeclId): seq<Id> {
    if b == [] then []
    else if b[0].inst.Call? && b[0].inst.callee == d then [b[0].id] + CallIds(b[1..], d)
    else CallIds(b[1..], d)
  }

  /** The instruction with id x (the first, should there be several). */
  function Find(b: seq<Entry>, x: Id): (r: Option<Inst>)
    ensures r.Some? <==> x in Ids(b)
  {
    if b == [] then None else if b[0].id == x then Some(b[0].inst) else Find(b[1..], x)
  }

  /** The invariant of a module the pass accepts and must leave intact: ids are unique
      and below the fresh-id counters, every called function is declared, every used id
      is defined (no dangling reference), and nothing uses an instruction that produces
      no value. */
  predicate WellFormed(m: Module) {
    && Distinct(m.body)
    && (forall x | x in Ids(m.body) :: x < m.nextId)
    && DeclsDistinct(m.decls)
    && (forall d | d in DeclIds(m.decls) :: d < m.nextDecl)
    && Callees(m.body) <= DeclIds(m.decls)
    && Closed(m.body)
    && Voids(m.decls, m.body) !! Refs(m.body)
  }

  /** The declarations of family f. */
  function FamilyDecls(decls: seq<Decl>, f: Family): set<DeclId> {
    set d | d in DeclIds(decls) && FamilyOf(decls, d) == Some(f)
  }

  /** No call to a function of family f is left. */
  predicate NoCallsOf(m: Module, f: Family) {
    CallsTo(m.body, FamilyDecls(m.decls, f)) == {}
  }

  function SetOf(s: seq<Id>): set<Id> {
    set x | x in s
  }

  lemma SetOfSnoc(s: seq<Id>)
    requires s != []
    ensures SetOf(s) == SetOf(s[..|s| - 1]) + {s[|s| - 1]}
  {
    var init := s[..|s| - 1];
    assert s == init + [s[|s| - 1]];
  }

  // ---------------------------------------------------------------------------------
  // Edits

  /** Insert es right before the instruction c. */
  function InsertBefore(b: seq<Entry>, c: Id, es: seq<Entry>): seq<Entry> {
    if b == [] then []
    else if b[0].id == c then es + b
    else [b[0]] + InsertBefore(b[1..], c, es)
  }

  /** Remove the instruction x. */
  function Erase(b: seq<Entry>, x: Id): seq<Entry> {
    if b == [] then []
    else if b[0].id == x then Erase(b[1..], x)
    else [b[0]] + Erase(b[1..], x)
  }

  /** Remove every instruction whose id is in s. */
  function EraseSet(b: seq<Entry>, s: set<Id>): seq<Entry> {
    if b == [] then []
    else if b[0].id in s then EraseSet(b[1..], s)
    else [b[0]] + EraseSet(b[1..], s)
  }

  /** w in place of a use of type t: replaceAllUsesWith requires the new value to have
      the type of the old one, so the use keeps its type. */
  function Retyped(w: Value, t: Type): Value {
    if w.Ref? then Ref(w.id, t) else w
  }

  function SubstValue(v: Value, x: Id, w: Value): Value {
    match v
    case Ref(id, t) => if id == x then Retyped(w, t) else v
    case CastExpr(inner, ty) => CastExpr(SubstValue(inner, x, w), ty)
    case _ => v
  }

  function SubstValues(vs: seq<Value>, x: Id, w: Value): (r: seq<Value>)
    ensures |r| == |vs|
  {
    if vs == [] then [] else [SubstValue(vs[0], x, w)] + SubstValues(vs[1..], x, w)
  }

  function SubstInst(inst: Inst, x: Id, w: Value): Inst {
    match inst
    case Call(d, args, a) => Call(d, SubstValues(args, x, w), a)
    case BitCast(v, ty) => BitCast(SubstValue(v, x, w), ty)
    case Binary(op, l, r) => Binary(op, SubstValue(l, x, w), SubstValue(r, x, w))
    case Store(v, p) => Store(SubstValue(v, x, w), SubstValue(p, x, w))
    case Gep(t, base, idx, ib) => Gep(t, SubstValue(base, x, w), SubstValues(idx, x, w), ib)
    case OtherInst(ops) => OtherInst(SubstValues(ops, x, w))
  }

  /** An operand with the id it uses forgotten: what kind of value it is, its constants
      and its type. */
  function ValueShape(v: Value): (r: Value)
    ensures r.ty == v.ty
  {
    match v
    case Ref(_, t) => Ref(0, t)
    case CastExpr(inner, t) => CastExpr(ValueShape(inner), t)
    case _ => v
  }

  function ValuesShape(vs: seq<Value>): (r: seq<Value>)
    ensures |r| == |vs|
    ensures forall i | 0 <= i < |vs| :: r[i].ty == vs[i].ty
  {
    if vs == [] then [] else [ValueShape(vs[0])] + ValuesShape(vs[1..])
  }

  /** An instruction with the ids its operands use forgotten: its kind, callee,
      attributes, constants, and the number and types of its operands. */
  function InstShape(inst: Inst): Inst {
    match inst
    case Call(d, args, a) => Call(d, ValuesShape(args), a)
    case BitCast(v, t) => BitCast(ValueShape(v), t)
    case Binary(op, l, r) => Binary(op, ValueShape(l), ValueShape(r))
    case Store(v, p) => Store(ValueShape(v), ValueShape(p))
    case Gep(t, base, idx, ib) => Gep(t, ValueShape(base), ValuesShape(idx), ib)
    case OtherInst(ops) => OtherInst(ValuesShape(ops))
  }

  /** replaceAllUsesWith: every use of x becomes a use of w. */
  function ReplaceUses(b: seq<Entry>, x: Id, w: Value): (r: seq<Entry>)
    ensures |r| == |b|
  {
    if b == [] then [] else [Entry(b[0].id, SubstInst(b[0].inst, x, w))] + ReplaceUses(b[1..], x, w)
  }

  // ---------------------------------------------------------------------------------
  // How the edits change what is collected

  lemma {:induction false} CollectConcat(a: seq<Entry>, b: seq<Entry>, q: Query)
    ensures Collect(a + b, q) == Collect(a, q) + Collect(b, q)
    decreases |a|
  {
    if a == [] {
      assert a + b == b;
    } else {
      assert (a + b)[1..] == a[1..] + b;
      CollectConcat(a[1..], b, q);
    }
  }

  lemma CollectCons(e: Entry, rest: seq<Entry>, q: Query)
    ensures Collect([e] + rest, q) == Pick(q, e) + Collect(rest, q)
  {
    assert ([e] + rest)[1..] == rest;
  }

  lemma DistinctCons(e: Entry, rest: seq<Entry>)
    requires Distinct(rest) && e.id !in Ids(rest)
    ensures Distinct([e] + rest)
  {
    assert ([e] + rest)[1..] == rest;
  }

  lemma FindCons(e: Entry, rest: seq<Entry>, x: Id)
    ensures Find([e] + rest, x) == if e.id == x then Some(e.inst) else Find(rest, x)
  {
    assert ([e] + rest)[1..] == rest;
  }

  lemma PickIdValued(q: Query, e: Entry)
    requires IdValued(q)
    ensures Pick(q, e) <= {e.id}
  {
  }

  lemma {:induction false} CollectInsertBefore(b: seq<Entry>, c: Id, es: seq<Entry>, q: Query)
    requires c in Ids(b)
    ensures Collect(InsertBefore(b, c, es), q) == Collect(b, q) + Collect(es, q)
    decreases |b|
  {
    if b[0].id == c {
      CollectConcat(es, b, q);
    } else {
      CollectInsertBefore(b[1..], c, es, q);
    }
  }

  lemma {:induction false} CollectErase(b: seq<Entry>, x: Id, q: Query)
    ensures Collect(Erase(b, x), q) <= Collect(b, q)
    ensures IdValued(q) ==> Collect(Erase(b, x), q) == Collect(b, q) - {x}
    decreases |b|
  {
    if b != [] {
      CollectErase(b[1..], x, q);
      if IdValued(q) { PickIdValued(q, b[0]); }
      if b[0].id != x {
        CollectCons(b[0], Erase(b[1..], x), q);
      }
    }
  }

  lemma {:induction false} CollectEraseSet(b: seq<Entry>, s: set<Id>, q: Query)
    ensures Collect(EraseSet(b, s), q) <= Collect(b, q)
    ensures IdValued(q) ==> Collect(EraseSet(b, s), q) == Collect(b, q) - s
    decreases |b|
  {
    if b != [] {
      CollectEraseSet(b[1..], s, q);
      if IdValued(q) { PickIdValued(q, b[0]); }
      if b[0].id !in s {
        CollectCons(b[0], EraseSet(b[1..], s), q);
      }
    }
  }

  lemma {:induction false} ValueRefsSubst(v: Value, x: Id, w: Value)
    ensures ValueRefs(SubstValue(v, x, w)) <= (ValueRefs(v) - {x}) + ValueRefs(w)
    ensures x !in ValueRefs(v) ==> SubstValue(v, x, w) == v
    decreases v
  {
    if v.CastExpr? {
      ValueRefsSubst(v.inner, x, w);
    }
  }

  lemma {:induction false} ValuesRefsSubst(vs: seq<Value>, x: Id, w: Value)
    ensures ValuesRefs(SubstValues(vs, x, w)) <= (ValuesRefs(vs) - {x}) + ValueRefs(w)
    decreases |vs|
  {
    if vs != [] {
      ValueRefsSubst(vs[0], x, w);
      ValuesRefsSubst(vs[1..], x, w);
    }
  }

  /** Redirecting uses to an instruction's result keeps every operand's shape. */
  lemma {:induction false} ValueShapeSubst(v: Value, x: Id, w: Value)
    requires w.Ref?
    ensures ValueShape(SubstValue(v, x, w)) == ValueShape(v)
    decreases v
  {
    if v.CastExpr? {
      ValueShapeSubst(v.inner, x, w);
    }
  }

  lemma {:induction false} ValuesShapeSubst(vs: seq<Value>, x: Id, w: Value)
    requires w.Ref?
    ensures ValuesShape(SubstValues(vs, x, w)) == ValuesShape(vs)
    decreases |vs|
  {
    if vs != [] {
      ValueShapeSubst(vs[0], x, w);
      ValuesShapeSubst(vs[1..], x, w);
      assert SubstValues(vs, x, w)[1..] == SubstValues(vs[1..], x, w);
    }
  }

  lemma InstShapeSubst(inst: Inst, x: Id, w: Value)
    requires w.Ref?
    ensures InstShape(SubstInst(inst, x, w)) == InstShape(inst)
  {
    match inst
    case Call(_, args, _) => ValuesShapeSubst(args, x, w);
    case BitCast(v, _) => ValueShapeSubst(v, x, w);
    case Binary(_, l, r) => ValueShapeSubst(l, x, w); ValueShapeSubst(r, x, w);
    case Store(v, p) => ValueShapeSubst(v, x, w); ValueShapeSubst(p, x, w);
    case Gep(_, base, idx, _) => ValueShapeSubst(base, x, w); ValuesShapeSubst(idx, x, w);
    case OtherInst(ops) => ValuesShapeSubst(ops, x, w);
  }

  lemma ValuesRefsPair(a: Value, b: Value)
    ensures ValuesRefs([a, b]) == ValueRefs(a) + ValueRefs(b)
  {
    assert [a, b][1..] == [b];
    assert ValuesRefs([b]) == ValueRefs(b) + ValuesRefs([]);
  }

  lemma ValuesRefsCons(a: Value, vs: seq<Value>)
    ensures ValuesRefs([a] + vs) == ValueRefs(a) + ValuesRefs(vs)
  {
    assert ([a] + vs)[1..] == vs;
  }

  lemma InstRefsSubst(inst: Inst, x: Id, w: Value)
    ensures InstRefs(SubstInst(inst, x, w)) <= (InstRefs(inst) - {x}) + ValueRefs(w)
  {
    match inst
    case Call(_, args, _) => ValuesRefsSubst(args, x, w);
    case BitCast(v, _) =>
      ValueRefsSubst(v, x, w);
      ValuesRefsCons(v, []);
      ValuesRefsCons(SubstValue(v, x, w), []);
      assert [v] == [v] + [];
      assert [SubstValue(v, x, w)] == [SubstValue(v, x, w)] + [];
    case Binary(_, l, r) =>
      ValueRefsSubst(l, x, w);
      ValueRefsSubst(r, x, w);
      ValuesRefsPair(l, r);
      ValuesRefsPair(SubstValue(l, x, w), SubstValue(r, x, w));
    case Store(v, p) =>
      ValueRefsSubst(v, x, w);
      ValueRefsSubst(p, x, w);
      ValuesRefsPair(v, p);
      ValuesRefsPair(SubstValue(v, x, w), SubstValue(p, x, w));
    case Gep(_, base, idx, _) =>
      ValueRefsSubst(base, x, w);
      ValuesRefsSubst(idx, x, w);
      ValuesRefsCons(base, idx);
      ValuesRefsCons(SubstValue(base, x, w), SubstValues(idx, x, w));
    case OtherInst(ops) => ValuesRefsSubst(ops, x, w);
  }

  lemma PickSubst(q: Query, e: Entry, x: Id, w: Value)
    requires !q.RefsQ?
    ensures Pick(q, Entry(e.id, SubstInst(e.inst, x, w))) == Pick(q, e)
  {
  }

  lemma {:induction false} CollectReplaceUses(b: seq<Entry>, x: Id, w: Value, q: Query)
    ensures !q.RefsQ? ==> Collect(ReplaceUses(b, x, w), q) == Collect(b, q)
    ensures q.RefsQ? ==> Collect(ReplaceUses(b, x, w), q) <= (Collect(b, q) - {x}) + ValueRefs(w)
    decreases |b|
  {
    if b != [] {
      CollectReplaceUses(b[1..], x, w, q);
      if q.RefsQ? {
        InstRefsSubst(b[0].inst, x, w);
      } else {
        PickSubst(q, b[0], x, w);
      }
    }
  }

  // ---------------------------------------------------------------------------------
  // Distinct ids under the edits

  lemma {:induction false} DistinctConcat(a: seq<Entry>, b: seq<Entry>)
    requires Distinct(a) && Distinct(b) && Ids(a) !! Ids(b)
    ensures Distinct(a + b)
    decreases |a|
  {
    if a == [] {
      assert a + b == b;
    } else {
      assert (a + b)[1..] == a[1..] + b;
      DistinctConcat(a[1..], b);
      CollectConcat(a[1..], b, IdsQ);
    }
  }

  lemma {:induction false} DistinctInsertBefore(b: seq<Entry>, c: Id, es: seq<Entry>)
    requires Distinct(b) && Distinct(es) && Ids(es) !! Ids(b)
    ensures Distinct(InsertBefore(b, c, es))
    decreases |b|
  {
    if b != [] {
      if b[0].id == c {
        DistinctConcat(es, b);
      } else {
        DistinctInsertBefore(b[1..], c, es);
        if c in Ids(b[1..]) {
          CollectInsertBefore(b[1..], c, es, IdsQ);
        } else {
          NotInsertedWhenAbsent(b[1..], c, es);
        }
      }
    }
  }

  lemma {:induction false} NotInsertedWhenAbsent(b: seq<Entry>, c: Id, es: seq<Entry>)
    requires c !in Ids(b)
    ensures InsertBefore(b, c, es) == b
    decreases |b|
  {
    if b != [] {
      NotInsertedWhenAbsent(b[1..], c, es);
    }
  }

  lemma {:induction false} DistinctErase(b: seq<Entry>, x: Id)
    requires Distinct(b)
    ensures Distinct(Erase(b, x))
    decreases |b|
  {
    if b != [] {
      DistinctErase(b[1..], x);
      CollectErase(b[1..], x, IdsQ);
      if b[0].id != x {
        DistinctCons(b[0], Erase(b[1..], x));
      }
    }
  }

  lemma {:induction false} DistinctEraseSet(b: seq<Entry>, s: set<Id>)
    requires Distinct(b)
    ensures Distinct(EraseSet(b, s))
    decreases |b|
  {
    if b != [] {
      DistinctEraseSet(b[1..], s);
      CollectEraseSet(b[1..], s, IdsQ);
      if b[0].id !in s {
        DistinctCons(b[0], EraseSet(b[1..], s));
      }
    }
  }

  lemma {:induction false} DistinctReplaceUses(b: seq<Entry>, x: Id, w: Value)
    requires Distinct(b)
    ensures Distinct(ReplaceUses(b, x, w))
    decreases |b|
  {
    if b != [] {
      DistinctReplaceUses(b[1..], x, w);
      CollectReplaceUses(b[1..], x, w, IdsQ);
    }
  }

  // ---------------------------------------------------------------------------------
  // Looking instructions up under the edits

  lemma {:induction false} FindInsertBefore(b: seq<Entry>, c: Id, es: seq<Entry>, x: Id)
    requires x !in Ids(es)
    ensures Find(InsertBefore(b, c, es), x) == Find(b, x)
    decreases |b|
  {
    if b != [] {
      if b[0].id == c {
        FindConcat(es, b, x);
      } else {
        FindInsertBefore(b[1..], c, es, x);
      }
    }
  }

  lemma {:induction false} FindConcat(a: seq<Entry>, b: seq<Entry>, x: Id)
    requires x !in Ids(a)
    ensures Find(a + b, x) == Find(b, x)
    decreases |a|
  {
    if a == [] {
      assert a + b == b;
    } else {
      assert (a + b)[1..] == a[1..] + b;
      FindConcat(a[1..], b, x);
    }
  }

  lemma {:induction false} FindErase(b: seq<Entry>, y: Id, x: Id)
    requires x != y
    ensures Find(Erase(b, y), x) == Find(b, x)
    decreases |b|
  {
    if b != [] {
      FindErase(b[1..], y, x);
      if b[0].id != y {
        FindCons(b[0], Erase(b[1..], y), x);
      }
    }
  }

  lemma {:induction false} FindEraseSet(b: seq<Entry>, s: set<Id>, x: Id)
    requires x !in s
    ensures Find(EraseSet(b, s), x) == Find(b, x)
    decreases |b|
  {
    if b != [] {
      FindEraseSet(b[1..], s, x);
      if b[0].id !in s {
        FindCons(b[0], EraseSet(b[1..], s), x);
      }
    }
  }

  lemma {:induction false} FindReplaceUses(b: seq<Entry>, y: Id, w: Value, x: Id)
    requires Find(b, x).Some?
    ensures Find(ReplaceUses(b, y, w), x) == Some(SubstInst(Find(b, x).value, y, w))
    decreases |b|
  {
    if b[0].id != x {
      FindReplaceUses(b[1..], y, w, x);
    }
  }

  /** What a found instruction uses, its kind and its callee, are facts about the sequence. */
  lemma {:induction false} FindFacts(b: seq<Entry>, x: Id, decls: seq<Decl>)
    requires Find(b, x).Some?
    ensures InstRefs(Find(b, x).value) <= Refs(b)
    ensures Find(b, x).value.Call? ==> Find(b, x).value.callee in Callees(b)
    ensures Find(b, x).value.Call? ==> x in CallsTo(b, {Find(b, x).value.callee})
    ensures IsVoid(decls, Find(b, x).value) ==> x in Voids(decls, b)
    decreases |b|
  {
    if b[0].id != x {
      FindFacts(b[1..], x, decls);
    }
  }

  /** In a sequence with unique ids, a member of CallsTo(b, ds) is found as a call to
      one of ds. */
  lemma {:induction false} FindCall(b: seq<Entry>, x: Id, ds: set<DeclId>)
    requires Distinct(b) && x in CallsTo(b, ds)
    ensures Find(b, x).Some? && Find(b, x).value.Call? && Find(b, x).value.callee in ds
    decreases |b|
  {
    if b[0].id == x {
      if !(b[0].inst.Call? && b[0].inst.callee in ds) {
        CollectIdsBound(b[1..], CallsToQ(ds));
      }
    } else {
      FindCall(b[1..], x, ds);
    }
  }

  lemma {:induction false} CollectIdsBound(b: seq<Entry>, q: Query)
    requires IdValued(q)
    ensures Collect(b, q) <= Ids(b)
    decreases |b|
  {
    if b != [] {
      CollectIdsBound(b[1..], q);
    }
  }

  /** The snapshot of call users lists exactly the calls to d, each once. */
  lemma {:induction false} CallIdsAreCalls(b: seq<Entry>, d: DeclId)
    requires Distinct(b)
    ensures forall x :: x in CallIds(b, d) <==> x in CallsTo(b, {d})
    ensures forall i, j | 0 <= i < j < |CallIds(b, d)| :: CallIds(b, d)[i] != CallIds(b, d)[j]
    decreases |b|
  {
    if b != [] {
      CallIdsAreCalls(b[1..], d);
      CollectIdsBound(b[1..], CallsToQ({d}));
      var rest := CallIds(b[1..], d);
      if b[0].inst.Call? && b[0].inst.callee == d {
        assert CallIds(b, d) == [b[0].id] + rest;
        forall i, j | 0 <= i < j < |CallIds(b, d)|
          ensures CallIds(b, d)[i] != CallIds(b, d)[j]
        {
          if i == 0 {
            assert CallIds(b, d)[j] == rest[j - 1];
            assert rest[j - 1] in CallsTo(b[1..], {d});
          } else {
            assert CallIds(b, d)[i] == rest[i - 1] && CallIds(b, d)[j] == rest[j - 1];
          }
        }
      } else {
        assert CallIds(b, d) == rest;
      }
    }
  }

  // ---------------------------------------------------------------------------------
  // Declarations under the edits

  lemma {:induction false} FamilyOfEraseDecl(decls: seq<Decl>, d: DeclId, d': DeclId)
    requires d' != d
    ensures FamilyOf(EraseDecl(decls, d), d') == FamilyOf(decls, d')
    decreases |decls|
  {
    if decls != [] {
      FamilyOfEraseDecl(decls[1..], d, d');
      if decls[0].id != d {
        assert ([decls[0]] + EraseDecl(decls[1..], d))[1..] == EraseDecl(decls[1..], d);
      }
    }
  }

  lemma {:induction false} EraseDeclFacts(decls: seq<Decl>, d: DeclId)
    requires DeclsDistinct(decls)
    ensures DeclsDistinct(EraseDecl(decls, d))
    ensures DeclIds(EraseDecl(decls, d)) == DeclIds(decls) - {d}
    decreases |decls|
  {
    if decls != [] {
      EraseDeclFacts(decls[1..], d);
      if decls[0].id != d {
        assert ([decls[0]] + EraseDecl(decls[1..], d))[1..] == EraseDecl(decls[1..], d);
      }
    }
  }

  lemma {:induction false} FamilyOfAppend(decls: seq<Decl>, nd: Decl, d: DeclId)
    ensures d in DeclIds(decls) ==> FamilyOf(decls + [nd], d) == FamilyOf(decls, d)
    ensures d !in DeclIds(decls) && d == nd.id ==> FamilyOf(decls + [nd], d) == Some(nd.family)
    decreases |decls|
  {
    if decls != [] {
      assert (decls + [nd])[1..] == decls[1..] + [nd];
      FamilyOfAppend(decls[1..], nd, d);
    } else {
      assert [] + [nd] == [nd];
    }
  }

  lemma {:induction false} AppendDeclFacts(decls: seq<Decl>, nd: Decl)
    requires DeclsDistinct(decls) && nd.id !in DeclIds(decls)
    ensures DeclsDistinct(decls + [nd])
    ensures DeclIds(decls + [nd]) == DeclIds(decls) + {nd.id}
    decreases |decls|
  {
    if decls != [] {
      assert (decls + [nd])[1..] == decls[1..] + [nd];
      AppendDeclFacts(decls[1..], nd);
    } else {
      assert [] + [nd] == [nd];
    }
  }

  /** Which instructions produce no value depends only on the families of the
      functions actually called. */
  lemma {:induction false} VoidsSameFamilies(b: seq<Entry>, decls: seq<Decl>, decls': seq<Decl>)
    requires forall d | d in Callees(b) :: FamilyOf(decls', d) == FamilyOf(decls, d)
    ensures Voids(decls', b) == Voids(decls, b)
    decreases |b|
  {
    if b != [] {
      VoidsSameFamilies(b[1..], decls, decls');
    }
  }

  /** With unique declaration ids, DeclsOf lists exactly the declarations of family f,
      each once. */
  lemma {:induction false} DeclsOfFamily(decls: seq<Decl>, f: Family)
    requires DeclsDistinct(decls)
    ensures forall d :: d in DeclsOf(decls, f) <==> FamilyOf(decls, d) == Some(f)
    ensures forall i, j | 0 <= i < j < |DeclsOf(decls, f)| :: DeclsOf(decls, f)[i] != DeclsOf(decls, f)[j]
    decreases |decls|
  {
    if decls != [] {
      DeclsOfFamily(decls[1..], f);
      var rest := DeclsOf(decls[1..], f);
      if decls[0].family == f {
        assert DeclsOf(decls, f) == [decls[0].id] + rest;
        forall i, j | 0 <= i < j < |DeclsOf(decls, f)|
          ensures DeclsOf(decls, f)[i] != DeclsOf(decls, f)[j]
        {
          assert DeclsOf(decls, f)[j] == rest[j - 1];
          if i > 0 {
            assert DeclsOf(decls, f)[i] == rest[i - 1];
          }
        }
      }
    }
  }

  // ---------------------------------------------------------------------------------
  // Replacing one instruction by a sequence

  lemma {:induction false} ValueRefsIn(vs: seq<Value>, i: nat)
    requires i < |vs|
    ensures ValueRefs(vs[i]) <= ValuesRefs(vs)
    decreases i
  {
    if i > 0 {
      ValueRefsIn(vs[1..], i - 1);
    }
  }

  /** Inserting es before c and then erasing c: every collected fact is the old one plus
      that of es, less c; lookups of the other old instructions are unchanged. */
  lemma SpliceFacts(b: seq<Entry>, c: Id, es: seq<Entry>, q: Query)
    requires c in Ids(b)
    ensures IdValued(q) ==> Collect(Erase(InsertBefore(b, c, es), c), q) == (Collect(b, q) + Collect(es, q)) - {c}
    ensures Collect(Erase(InsertBefore(b, c, es), c), q) <= Collect(b, q) + Collect(es, q)
  {
    CollectInsertBefore(b, c, es, q);
    CollectErase(InsertBefore(b, c, es), c, q);
  }

  lemma SpliceFind(b: seq<Entry>, c: Id, es: seq<Entry>, x: Id)
    requires x != c && x !in Ids(es)
    ensures Find(Erase(InsertBefore(b, c, es), c), x) == Find(b, x)
  {
    FindErase(InsertBefore(b, c, es), c, x);
    FindInsertBefore(b, c, es, x);
  }

  lemma SpliceDistinct(b: seq<Entry>, c: Id, es: seq<Entry>)
    requires Distinct(b) && Distinct(es) && Ids(es) !! Ids(b)
    ensures Distinct(Erase(InsertBefore(b, c, es), c))
  {
    DistinctInsertBefore(b, c, es);
    DistinctErase(InsertBefore(b, c, es), c);
  }

  /** A declaration with no calls left is not a callee. */
  lemma {:induction false} NoCallsNotCallee(b: seq<Entry>, d: DeclId)
    requires CallsTo(b, {d}) == {}
    ensures d !in Callees(b)
    decreases |b|
  {
    if b != [] {
      assert Pick(CallsToQ({d}), b[0]) <= CallsTo(b, {d});
      NoCallsNotCallee(b[1..], d);
    }
  }

  lemma {:induction false} NoCallsNoCallIds(b: seq<Entry>, d: DeclId)
    requires CallsTo(b, {d}) == {}
    ensures CallIds(b, d) == []
    decreases |b|
  {
    if b != [] {
      assert Pick(CallsToQ({d}), b[0]) <= CallsTo(b, {d});
      NoCallsNoCallIds(b[1..], d);
    }
  }

  lemma {:induction false} EraseNothing(b: seq<Entry>, s: set<Id>)
    requires s !! Ids(b)
    ensures EraseSet(b, s) == b
    decreases |b|
  {
    if b != [] {
      EraseNothing(b[1..], s);
    }
  }

  /** CallsTo is additive in the set of callees. */
  lemma {:induction false} CallsToUnion(b: seq<Entry>, ds: set<DeclId>, es: set<DeclId>)
    ensures CallsTo(b, ds + es) == CallsTo(b, ds) + CallsTo(b, es)
    decreases |b|
  {
    if b != [] {
      CallsToUnion(b[1..], ds, es);
    }
  }

  lemma {:induction false} CallsToMono(b: seq<Entry>, ds: set<DeclId>, es: set<DeclId>)
    requires ds <= es
    ensures CallsTo(b, ds) <= CallsTo(b, es)
    decreases |b|
  {
    if b != [] {
      CallsToMono(b[1..], ds, es);
    }
  }

  /** A call has one callee: the calls to d and to a set without d are disjoint. */
  lemma {:induction false} CallsToDisjoint(b: seq<Entry>, d: DeclId, ds: set<DeclId>)
    requires Distinct(b) && d !in ds
    ensures CallsTo(b, {d}) !! CallsTo(b, ds)
    decreases |b|
  {
    if b != [] {
      CallsToDisjoint(b[1..], d, ds);
      CollectIdsBound(b[1..], CallsToQ({d}));
      CollectIdsBound(b[1..], CallsToQ(ds));
    }
  }

  lemma {:induction false} CallsToOnlyCallees(b: seq<Entry>, ds: set<DeclId>)
    requires ds !! Callees(b)
    ensures CallsTo(b, ds) == {}
    decreases |b|
  {
    if b != [] {
      CallsToOnlyCallees(b[1..], ds);
    }
  }
}
