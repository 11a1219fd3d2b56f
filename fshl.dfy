/** The lowering of llvm.fshl calls (replaceFshl): each call becomes an and, a sub,
    a shl, an lshr and an or inserted before it; its uses are redirected to the or; the
    call is erased; and once all its calls are gone, the declaration is erased. */
module FshlLowering {
  import opened Wrappers
  import opened Types
  import opened Bits
  import opened Funnel
  import opened IR
  import opened Rewrite

  /** The five instructions that replace llvm.fshl(hi, lo, shift) on w-bit lanes of type
      ty, with ids next .. next + 4; the last one is the result. */
  function FshlExpansion(ty: Type, w: nat, hi: Value, lo: Value, shift: Value, next: Id): seq<Entry>
    requires w > 0
  {
    [ Entry(next, Binary(AndOp, shift, ConstInt(ty, w - 1))),
      Entry(next + 1, Binary(SubOp, ConstInt(ty, w), Ref(next, ty))),
      Entry(next + 2, Binary(ShlOp, hi, Ref(next, ty))),
      Entry(next + 3, Binary(LShrOp, lo, Ref(next + 1, ty))),
      Entry(next + 4, Binary(OrOp, Ref(next + 3, ty), Ref(next + 2, ty))) ]
  }

  /** What five instructions collect is what each one picks. */
  lemma CollectFive(e0: Entry, e1: Entry, e2: Entry, e3: Entry, e4: Entry, q: Query)
    ensures Collect([e0, e1, e2, e3, e4], q) == Pick(q, e0) + Pick(q, e1) + Pick(q, e2) + Pick(q, e3) + Pick(q, e4)
  {
    assert [e0, e1, e2, e3, e4] == [e0] + ([e1] + ([e2] + ([e3] + ([e4] + []))));
    CollectCons(e4, [], q);
    CollectCons(e3, [e4], q);
    assert [e3] + [e4] == [e3, e4];
    CollectCons(e2, [e3, e4], q);
    assert [e2] + [e3, e4] == [e2, e3, e4];
    CollectCons(e1, [e2, e3, e4], q);
    assert [e1] + [e2, e3, e4] == [e1, e2, e3, e4];
    CollectCons(e0, [e1, e2, e3, e4], q);
  }

  /** The expansion has the five ids next .. next + 4, each once; it uses only the
      three operands and its own first four results; it calls nothing and every one
      of its instructions has a value. */
  lemma ExpansionShape(ty: Type, w: nat, hi: Value, lo: Value, shift: Value, next: Id, decls: seq<Decl>, ds: set<DeclId>)
    requires w > 0
    ensures var es := FshlExpansion(ty, w, hi, lo, shift, next);
      && Ids(es) == {next, next + 1, next + 2, next + 3, next + 4}
      && (forall x | x in Ids(es) :: next <= x < next + 5)
      && Distinct(es)
      && Refs(es) <= ValueRefs(hi) + ValueRefs(lo) + ValueRefs(shift) + {next, next + 1, next + 2, next + 3}
      && CallsTo(es, ds) == {}
      && Voids(decls, es) == {}
      && Callees(es) == {}
  {
    ExpansionIds(ty, w, hi, lo, shift, next);
    ExpansionRefs(ty, w, hi, lo, shift, next);
    var es := FshlExpansion(ty, w, hi, lo, shift, next);
    CollectFive(es[0], es[1], es[2], es[3], es[4], CallsToQ(ds));
    CollectFive(es[0], es[1], es[2], es[3], es[4], VoidsQ(decls));
    CollectFive(es[0], es[1], es[2], es[3], es[4], CalleesQ);
  }

  lemma ExpansionIds(ty: Type, w: nat, hi: Value, lo: Value, shift: Value, next: Id)
    requires w > 0
    ensures var es := FshlExpansion(ty, w, hi, lo, shift, next);
      && Ids(es) == {next, next + 1, next + 2, next + 3, next + 4}
      && (forall x | x in Ids(es) :: next <= x < next + 5)
      && Distinct(es)
  {
    var es := FshlExpansion(ty, w, hi, lo, shift, next);
    var e0, e1, e2, e3, e4 := es[0], es[1], es[2], es[3], es[4];
    CollectFive(e0, e1, e2, e3, e4, IdsQ);
    assert [e4] == [e4] + [];
    CollectCons(e4, [], IdsQ);
    DistinctCons(e4, []);
    assert [e3, e4] == [e3] + [e4];
    CollectCons(e3, [e4], IdsQ);
    DistinctCons(e3, [e4]);
    assert [e2, e3, e4] == [e2] + [e3, e4];
    CollectCons(e2, [e3, e4], IdsQ);
    DistinctCons(e2, [e3, e4]);
    assert [e1, e2, e3, e4] == [e1] + [e2, e3, e4];
    CollectCons(e1, [e2, e3, e4], IdsQ);
    DistinctCons(e1, [e2, e3, e4]);
    assert es == [e0] + [e1, e2, e3, e4];
    DistinctCons(e0, [e1, e2, e3, e4]);
  }

  lemma ExpansionRefs(ty: Type, w: nat, hi: Value, lo: Value, shift: Value, next: Id)
    requires w > 0
    ensures Refs(FshlExpansion(ty, w, hi, lo, shift, next))
              <= ValueRefs(hi) + ValueRefs(lo) + ValueRefs(shift) + {next, next + 1, next + 2, next + 3}
  {
    var es := FshlExpansion(ty, w, hi, lo, shift, next);
    CollectFive(es[0], es[1], es[2], es[3], es[4], RefsQ);
    ValuesRefsPair(shift, ConstInt(ty, w - 1));
    ValuesRefsPair(ConstInt(ty, w), Ref(next, ty));
    ValuesRefsPair(hi, Ref(next, ty));
    ValuesRefsPair(lo, Ref(next + 1, ty));
    ValuesRefsPair(Ref(next + 3, ty), Ref(next + 2, ty));
  }

  // ---------------------------------------------------------------------------------
  // What the expansion computes

  /** The lane an operand holds, given the lanes computed so far. */
  function EvalOperand(env: map<Id, Lane>, v: Value): Lane {
    match v
    case ConstInt(_, n) => Val(n)
    case Ref(id, _) => if id in env then env[id] else Poison
    case _ => Poison
  }

  /** Run a sequence of binary instructions on w-bit lanes. */
  function Run(env: map<Id, Lane>, w: nat, es: seq<Entry>): map<Id, Lane>
    decreases |es|
  {
    if es == [] then env
    else
      var e := es[0];
      var env' :=
        if e.inst.Binary? then
          env[e.id := EvalBinary(e.inst.op, w, EvalOperand(env, e.inst.lhs), EvalOperand(env, e.inst.rhs))]
        else env;
      Run(env', w, es[1..])
  }

  lemma EvalOperandFresh(env: map<Id, Lane>, v: Value, x: Id, a: Lane)
    requires x !in ValueRefs(v)
    ensures EvalOperand(env[x := a], v) == EvalOperand(env, v)
  {
  }

  /** One binary instruction: its result joins the lanes computed so far. */
  lemma RunStep(env: map<Id, Lane>, w: nat, id: Id, op: BinaryOp, lhs: Value, rhs: Value, rest: seq<Entry>, a: Lane)
    requires EvalBinary(op, w, EvalOperand(env, lhs), EvalOperand(env, rhs)) == a
    ensures Run(env, w, [Entry(id, Binary(op, lhs, rhs))] + rest) == Run(env[id := a], w, rest)
  {
    assert ([Entry(id, Binary(op, lhs, rhs))] + rest)[1..] == rest;
  }

  /** The lanes after the first four instructions of the expansion. */
  function Partial(env: map<Id, Lane>, w: nat, h: nat, l: nat, s: nat, next: Id): map<Id, Lane>
    requires w > 0
  {
    env[next := ShiftAmount(w, s)]
       [next + 1 := DownAmount(w, s)]
       [next + 2 := EvalBinary(ShlOp, w, Val(h), ShiftAmount(w, s))]
       [next + 3 := EvalBinary(LShrOp, w, Val(l), DownAmount(w, s))]
  }

  lemma RunFirstFour(ty: Type, w: nat, hi: Value, lo: Value, shift: Value, next: Id,
                     env: map<Id, Lane>, h: nat, l: nat, s: nat)
    requires w > 0
    requires EvalOperand(env, hi) == Val(h) && EvalOperand(env, lo) == Val(l) && EvalOperand(env, shift) == Val(s)
    requires next !in ValueRefs(hi) + ValueRefs(lo) + ValueRefs(shift)
    requires next + 1 !in ValueRefs(hi) + ValueRefs(lo)
    requires next + 2 !in ValueRefs(lo)
    ensures var es := FshlExpansion(ty, w, hi, lo, shift, next);
      Run(env, w, es) == Run(Partial(env, w, h, l, s, next), w, es[4..])
  {
    var es := FshlExpansion(ty, w, hi, lo, shift, next);
    var rest := es[4..];
    assert es == [Entry(next, Binary(AndOp, shift, ConstInt(ty, w - 1)))]
               + ([Entry(next + 1, Binary(SubOp, ConstInt(ty, w), Ref(next, ty)))]
               + ([Entry(next + 2, Binary(ShlOp, hi, Ref(next, ty)))]
               + ([Entry(next + 3, Binary(LShrOp, lo, Ref(next + 1, ty)))] + rest)));
    RunFour(ty, w, hi, lo, shift, next, env, h, l, s, rest);
  }

  /** The first four instructions of the expansion, whatever follows them. */
  lemma RunFour(ty: Type, w: nat, hi: Value, lo: Value, shift: Value, next: Id,
                env: map<Id, Lane>, h: nat, l: nat, s: nat, rest: seq<Entry>)
    requires w > 0
    requires EvalOperand(env, hi) == Val(h) && EvalOperand(env, lo) == Val(l) && EvalOperand(env, shift) == Val(s)
    requires next !in ValueRefs(hi) + ValueRefs(lo) + ValueRefs(shift)
    requires next + 1 !in ValueRefs(hi) + ValueRefs(lo)
    requires next + 2 !in ValueRefs(lo)
    ensures Run(env, w, [Entry(next, Binary(AndOp, shift, ConstInt(ty, w - 1)))]
                        + ([Entry(next + 1, Binary(SubOp, ConstInt(ty, w), Ref(next, ty)))]
                        + ([Entry(next + 2, Binary(ShlOp, hi, Ref(next, ty)))]
                        + ([Entry(next + 3, Binary(LShrOp, lo, Ref(next + 1, ty)))] + rest))))
            == Run(Partial(env, w, h, l, s, next), w, rest)
  {
    var sa, da := ShiftAmount(w, s), DownAmount(w, s);
    var hb := EvalBinary(ShlOp, w, Val(h), sa);
    var lb := EvalBinary(LShrOp, w, Val(l), da);
    var e0 := env[next := sa];
    var e1 := e0[next + 1 := da];
    var e2 := e1[next + 2 := hb];
    EvalOperandFresh(env, shift, next, sa);
    RunStep(env, w, next, AndOp, shift, ConstInt(ty, w - 1),
            [Entry(next + 1, Binary(SubOp, ConstInt(ty, w), Ref(next, ty)))]
            + ([Entry(next + 2, Binary(ShlOp, hi, Ref(next, ty)))]
            + ([Entry(next + 3, Binary(LShrOp, lo, Ref(next + 1, ty)))] + rest)), sa);
    RunStep(e0, w, next + 1, SubOp, ConstInt(ty, w), Ref(next, ty),
            [Entry(next + 2, Binary(ShlOp, hi, Ref(next, ty)))]
            + ([Entry(next + 3, Binary(LShrOp, lo, Ref(next + 1, ty)))] + rest), da);
    EvalOperandFresh(env, hi, next, sa);
    EvalOperandFresh(e0, hi, next + 1, da);
    RunStep(e1, w, next + 2, ShlOp, hi, Ref(next, ty),
            [Entry(next + 3, Binary(LShrOp, lo, Ref(next + 1, ty)))] + rest, hb);
    EvalOperandFresh(env, lo, next, sa);
    EvalOperandFresh(e0, lo, next + 1, da);
    EvalOperandFresh(e1, lo, next + 2, hb);
    RunStep(e2, w, next + 3, LShrOp, lo, Ref(next + 1, ty), rest, lb);
    assert e2[next + 3 := lb] == Partial(env, w, h, l, s, next);
  }

  lemma RunLast(ty: Type, w: nat, hi: Value, lo: Value, shift: Value, next: Id,
                env: map<Id, Lane>, h: nat, l: nat, s: nat)
    requires w > 0
    ensures var es := FshlExpansion(ty, w, hi, lo, shift, next);
      var out := Run(Partial(env, w, h, l, s, next), w, es[4..]);
      next + 4 in out && out[next + 4] == FshlLowered(w, h, l, s)
  {
    var es := FshlExpansion(ty, w, hi, lo, shift, next);
    var p := Partial(env, w, h, l, s, next);
    assert es[4..] == [Entry(next + 4, Binary(OrOp, Ref(next + 3, ty), Ref(next + 2, ty)))] + [];
    RunStep(p, w, next + 4, OrOp, Ref(next + 3, ty), Ref(next + 2, ty), [], FshlLowered(w, h, l, s));
  }

  /** Whatever the operands held, the result instruction of the expansion holds the
      lowered funnel shift of them. */
  lemma ExpansionComputes(ty: Type, w: nat, hi: Value, lo: Value, shift: Value, next: Id,
                          env: map<Id, Lane>, h: nat, l: nat, s: nat)
    requires w > 0
    requires EvalOperand(env, hi) == Val(h) && EvalOperand(env, lo) == Val(l) && EvalOperand(env, shift) == Val(s)
    requires forall x | x in ValueRefs(hi) + ValueRefs(lo) + ValueRefs(shift) :: x < next
    ensures var out := Run(env, w, FshlExpansion(ty, w, hi, lo, shift, next));
      next + 4 in out && out[next + 4] == FshlLowered(w, h, l, s)
  {
    var used := ValueRefs(hi) + ValueRefs(lo) + ValueRefs(shift);
    assert next !in used && next + 1 !in used && next + 2 !in used;
    RunFirstFour(ty, w, hi, lo, shift, next, env, h, l, s);
    RunLast(ty, w, hi, lo, shift, next, env, h, l, s);
  }

  /** On a supported width, for a shift that is not a multiple of the width, every use
      of the call now sees exactly llvm.fshl(hi, lo, shift); for a multiple of the width
      it sees poison, where llvm.fshl gives hi. */
  lemma ExpansionCorrect(ty: Type, w: nat, hi: Value, lo: Value, shift: Value, next: Id,
                         env: map<Id, Lane>, h: nat, l: nat, s: nat)
    requires SupportedWidth(w)
    requires EvalOperand(env, hi) == Val(h) && EvalOperand(env, lo) == Val(l) && EvalOperand(env, shift) == Val(s)
    requires h < Pow2(w) && l < Pow2(w)
    requires forall x | x in ValueRefs(hi) + ValueRefs(lo) + ValueRefs(shift) :: x < next
    ensures var out := Run(env, w, FshlExpansion(ty, w, hi, lo, shift, next));
      && next + 4 in out
      && (s % w != 0 ==> out[next + 4] == Val(FunnelShiftLeft(w, h, l, s)))
      && (s % w == 0 ==> out[next + 4] == Poison && FunnelShiftLeft(w, h, l, s) == h)
  {
    ExpansionComputes(ty, w, hi, lo, shift, next, env, h, l, s);
    if s % w != 0 {
      FshlLoweredCorrect(w, h, l, s);
    } else {
      FshlZeroShiftIsPoison(w, h, l, s);
    }
  }

  // ---------------------------------------------------------------------------------
  // The rewrite of one call, of one declaration, and of the module

  /** Rewrite the call c: validate the width, insert the expansion before the call,
      redirect the call's uses to the expansion's result and erase the call. */
  function FshlCallStep(m: Module, c: Id): Result<Module, Fatal> {
    match Find(m.body, c)
    case Some(Call(_, args, _)) =>
      if |args| < 3 then Failure(MalformedCall)
      else
        var ty := args[0].ty;
        var w := ScalarSizeInBits(ty);
        if !SupportedWidth(w) then Failure(InvalidFshlWidth)
        else
          var es := FshlExpansion(ty, w, args[0], args[1], args[2], m.nextId);
          Success(m.(body := SpliceValue(m.body, c, es, Ref(m.nextId + 4, ty)), nextId := m.nextId + 5))
    case _ => Failure(MalformedCall)
  }

  /** Rewrite the calls cs in order, stopping at the first fatal error. */
  function FshlCalls(m: Module, cs: seq<Id>): Result<Module, Fatal>
    decreases |cs|
  {
    if cs == [] then Success(m)
    else
      match FshlCalls(m, cs[..|cs| - 1])
      case Failure(e) => Failure(e)
      case Success(m') => FshlCallStep(m', cs[|cs| - 1])
  }

  /** One declaration: snapshot its call sites, rewrite them, erase the declaration.
      The flag says whether a call site was rewritten. */
  function FshlDecl(m: Module, d: DeclId): Result<(Module, bool), Fatal> {
    var cs := CallIds(m.body, d);
    match FshlCalls(m, cs)
    case Failure(e) => Failure(e)
    case Success(m') => Success((m'.(decls := EraseDecl(m'.decls, d)), |cs| > 0))
  }

  function FshlDecls(m: Module, ds: seq<DeclId>): Result<(Module, bool), Fatal>
    decreases |ds|
  {
    if ds == [] then Success((m, false))
    else
      match FshlDecls(m, ds[..|ds| - 1])
      case Failure(e) => Failure(e)
      case Success((m', changed)) =>
        match FshlDecl(m', ds[|ds| - 1])
        case Failure(e) => Failure(e)
        case Success((m'', changed')) => Success((m'', changed || changed'))
  }

  /** One call more: the fold over the first j + 1 calls is the next call's rewrite of
      the fold over the first j. */
  lemma FshlCallsNext(m: Module, cs: seq<Id>, j: nat, mj: Module)
    requires j < |cs| && FshlCalls(m, cs[..j]) == Success(mj)
    ensures FshlCalls(m, cs[..j + 1]) == FshlCallStep(mj, cs[j])
  {
    assert cs[..j + 1][..j] == cs[..j];
  }

  /** One declaration more: its flag is or-ed into the flag so far. */
  lemma FshlDeclsNext(m: Module, ds: seq<DeclId>, i: nat, mi: Module, changed: bool)
    requires i < |ds| && FshlDecls(m, ds[..i]) == Success((mi, changed))
    ensures FshlDecl(mi, ds[i]).Failure? ==> FshlDecls(m, ds[..i + 1]) == Failure(FshlDecl(mi, ds[i]).error)
    ensures FshlDecl(mi, ds[i]).Success? ==>
      FshlDecls(m, ds[..i + 1]) == Success((FshlDecl(mi, ds[i]).value.0, changed || FshlDecl(mi, ds[i]).value.1))
  {
    assert ds[..i + 1][..i] == ds[..i];
  }

  /** replaceFshl: every llvm.fshl declaration, in module order. */
  function ReplaceFshl(m: Module): Result<(Module, bool), Fatal> {
    FshlDecls(m, DeclsOf(m.decls, Fshl))
  }

  /** What the rewrite of one call demands of it: a call with at least three operands,
      the first of a supported scalar width (8, 16, 32 or 64 bits). */
  predicate FshlCallValid(i: Option<Inst>) {
    i.Some? && i.value.Call? && |i.value.args| >= 3 && SupportedWidth(ScalarSizeInBits(i.value.args[0].ty))
  }

  /** The error of a call that is not valid: an unsupported width when the call has its
      three operands, else a malformed call. */
  function FshlCallError(i: Option<Inst>): Fatal {
    if i.Some? && i.value.Call? && |i.value.args| >= 3 then InvalidFshlWidth else MalformedCall
  }

  /** One call is rewritten exactly when it is valid; otherwise the rewrite stops with
      its error, which is InvalidFshlWidth for a call of an unsupported width. */
  lemma FshlCallStepChecks(m: Module, c: Id)
    ensures FshlCallStep(m, c).Failure? <==> !FshlCallValid(Find(m.body, c))
    ensures FshlCallStep(m, c).Failure? ==> FshlCallStep(m, c).error == FshlCallError(Find(m.body, c))
    ensures var i := Find(m.body, c);
      i.Some? && i.value.Call? && |i.value.args| >= 3 && !SupportedWidth(ScalarSizeInBits(i.value.args[0].ty)) ==>
        FshlCallStep(m, c) == Failure(InvalidFshlWidth)
  {
  }

  /** Instructions of the same shape are valid alike, with the same error. */
  lemma ShapeValid(a: Option<Inst>, b: Option<Inst>)
    requires a.Some? && b.Some? && InstShape(a.value) == InstShape(b.value)
    ensures FshlCallValid(a) <==> FshlCallValid(b)
    ensures FshlCallError(a) == FshlCallError(b)
  {
    if a.value.Call? || b.value.Call? {
      assert a.value.Call? && b.value.Call?;
      assert |a.value.args| == |ValuesShape(a.value.args)| == |b.value.args|;
      if |a.value.args| >= 3 {
        assert a.value.args[0].ty == ValuesShape(a.value.args)[0].ty == b.value.args[0].ty;
      }
    }
  }

  /** What rewriting llvm.fshl calls leaves of the old instructions other than gone:
      each is still there with the same shape; only the ids its operands use may have
      moved to an expansion's result. */
  ghost predicate ShapesKept(m: Module, gone: set<Id>, m': Module) {
    forall y | y in Ids(m.body) && y !in gone ::
      y in Ids(m'.body) && InstShape(Find(m'.body, y).value) == InstShape(Find(m.body, y).value)
  }

  lemma ShapesKeptTrans(m: Module, g1: set<Id>, m1: Module, g2: set<Id>, m2: Module, g: set<Id>)
    requires ShapesKept(m, g1, m1) && ShapesKept(m1, g2, m2) && g1 + g2 <= g
    ensures ShapesKept(m, g, m2)
  {
  }

  // ---------------------------------------------------------------------------------
  // What the rewrite preserves

  /** The expansion of a call meets the conditions for replacing the call. */
  lemma FshlSpliceOk(m: Module, c: Id, args: seq<Value>, es: seq<Entry>)
    requires WellFormed(m) && Find(m.body, c).Some? && Find(m.body, c).value.Call?
    requires args == Find(m.body, c).value.args && |args| >= 3
    requires ScalarSizeInBits(args[0].ty) > 0
    requires es == FshlExpansion(args[0].ty, ScalarSizeInBits(args[0].ty), args[0], args[1], args[2], m.nextId)
    ensures SpliceOk(m, c, es, Ref(m.nextId + 4, args[0].ty), m.nextId + 5)
  {
    var used := InstRefs(Find(m.body, c).value);
    FindFacts(m.body, c, m.decls);
    FshlExpansionUses(m.decls, args, es, m.nextId);
    SpliceOkFromUses(m, c, es, Ref(m.nextId + 4, args[0].ty), m.nextId + 5, used);
  }

  /** The expansion uses only the call's operands and its own results, and calls nothing. */
  lemma FshlExpansionUses(decls: seq<Decl>, args: seq<Value>, es: seq<Entry>, n: Id)
    requires |args| >= 3 && ScalarSizeInBits(args[0].ty) > 0
    requires es == FshlExpansion(args[0].ty, ScalarSizeInBits(args[0].ty), args[0], args[1], args[2], n)
    ensures Refs(es) <= ValuesRefs(args) + Ids(es)
    ensures Distinct(es) && forall x | x in Ids(es) :: n <= x < n + 5
    ensures Refs(es) !! Voids(decls, es) && Callees(es) == {}
    ensures ValueRefs(Ref(n + 4, args[0].ty)) <= Ids(es) - Voids(decls, es)
  {
    var ty := args[0].ty;
    ExpansionShape(ty, ScalarSizeInBits(ty), args[0], args[1], args[2], n, decls, {});
    ValueRefsIn(args, 0);
    ValueRefsIn(args, 1);
    ValueRefsIn(args, 2);
  }

  /** Rewriting one call keeps the module well formed and the declarations as they
      were, and removes exactly that call from the calls to every set of functions. */
  lemma FshlCallStepFacts(m: Module, c: Id)
    requires WellFormed(m) && c in Ids(m.body)
    requires FshlCallStep(m, c).Success?
    ensures var m' := FshlCallStep(m, c).value;
      && WellFormed(m')
      && m'.decls == m.decls && m'.nextDecl == m.nextDecl
      && (forall ds :: CallsTo(m'.body, ds) == CallsTo(m.body, ds) - {c})
      && ShapesKept(m, {c}, m')
  {
    var args := Find(m.body, c).value.args;
    var ty := args[0].ty;
    var w := ScalarSizeInBits(ty);
    var n := m.nextId;
    var es := FshlExpansion(ty, w, args[0], args[1], args[2], n);
    var r := Ref(n + 4, ty);
    assert FshlCallStep(m, c).value == m.(body := SpliceValue(m.body, c, es, r), nextId := n + 5);
    FshlSpliceOk(m, c, args, es);
    SpliceWellFormed(m, c, es, r, n + 5);
    forall ds
      ensures CallsTo(es, ds) == {}
    {
      ExpansionShape(ty, w, args[0], args[1], args[2], n, m.decls, ds);
    }
    FshlSpliceCalls(m.body, c, es, r);
    FshlSpliceShapes(m, c, es, r);
  }

  /** The other old instructions stay, their uses of c redirected to r. */
  lemma FshlSpliceShapes(m: Module, c: Id, es: seq<Entry>, r: Value)
    requires WellFormed(m) && c in Ids(m.body) && r.Ref?
    requires forall x | x in Ids(es) :: x >= m.nextId
    ensures var b' := SpliceValue(m.body, c, es, r);
      forall y | y in Ids(m.body) && y !in {c} ::
        y in Ids(b') && InstShape(Find(b', y).value) == InstShape(Find(m.body, y).value)
  {
    forall y | y in Ids(m.body) && y !in {c}
      ensures var b' := SpliceValue(m.body, c, es, r);
        y in Ids(b') && InstShape(Find(b', y).value) == InstShape(Find(m.body, y).value)
    {
      assert y < m.nextId;
      SpliceFindOld(m.body, c, es, r, y);
      InstShapeSubst(Find(m.body, y).value, c, r);
    }
  }

  /** Splicing in an instruction sequence that calls nothing removes the call c and no
      other from the calls to every set of functions. */
  lemma FshlSpliceCalls(b: seq<Entry>, c: Id, es: seq<Entry>, r: Value)
    requires c in Ids(b) && forall ds :: CallsTo(es, ds) == {}
    ensures forall ds :: CallsTo(SpliceValue(b, c, es, r), ds) == CallsTo(b, ds) - {c}
  {
    forall ds
      ensures CallsTo(SpliceValue(b, c, es, r), ds) == CallsTo(b, ds) - {c}
    {
      assert CallsTo(es, ds) == {};
      SpliceCollect(b, c, es, r, CallsToQ(ds));
    }
  }

  /** Rewriting the calls cs (each a call to d, none twice) keeps the module well formed
      and the declarations as they were, and removes exactly those calls. */
  lemma {:induction false} FshlCallsFacts(m: Module, cs: seq<Id>, d: DeclId)
    requires WellFormed(m) && NoDuplicates(cs) && SetOf(cs) <= CallsTo(m.body, {d})
    requires FshlCalls(m, cs).Success?
    ensures var m' := FshlCalls(m, cs).value;
      && WellFormed(m')
      && m'.decls == m.decls && m'.nextDecl == m.nextDecl
      && (forall ds :: CallsTo(m'.body, ds) == CallsTo(m.body, ds) - SetOf(cs))
      && ShapesKept(m, SetOf(cs), m')
    decreases |cs|
  {
    if cs == [] {
      assert SetOf(cs) == {};
    } else {
      var init, c := cs[..|cs| - 1], cs[|cs| - 1];
      SetOfSnoc(cs);
      assert NoDuplicates(init);
      FshlCallsFacts(m, init, d);
      var m1 := FshlCalls(m, init).value;
      assert c !in SetOf(init);
      assert c in CallsTo(m1.body, {d});
      CollectIdsBound(m1.body, CallsToQ({d}));
      FshlCallStepFacts(m1, c);
      ShapesKeptTrans(m, SetOf(init), m1, {c}, FshlCalls(m, cs).value, SetOf(cs));
    }
  }

  /** One declaration: afterwards none of its calls is left, it is gone from the
      declarations, nothing else changed family, and the flag says whether it had calls. */
  lemma FshlDeclFacts(m: Module, d: DeclId)
    requires WellFormed(m) && FshlDecl(m, d).Success?
    ensures var (m', changed) := FshlDecl(m, d).value;
      && WellFormed(m') && m'.nextDecl == m.nextDecl
      && (forall f :: FamilyDecls(m'.decls, f) == FamilyDecls(m.decls, f) - {d})
      && (forall ds :: CallsTo(m'.body, ds) == CallsTo(m.body, ds) - CallsTo(m.body, {d}))
      && ShapesKept(m, CallsTo(m.body, {d}), m')
      && (changed <==> CallsTo(m.body, {d}) != {})
  {
    var cs := CallIds(m.body, d);
    CallIdsAreCalls(m.body, d);
    assert SetOf(cs) == CallsTo(m.body, {d});
    FshlCallsFacts(m, cs, d);
    var m1 := FshlCalls(m, cs).value;
    assert CallsTo(m1.body, {d}) == {};
    EraseDeclWellFormed(m1, d);
    assert FshlDecl(m, d) == Success((m1.(decls := EraseDecl(m1.decls, d)), |cs| > 0));
    if |cs| > 0 {
      assert cs[0] in CallsTo(m.body, {d});
    }
    if CallsTo(m.body, {d}) != {} {
      var x :| x in CallsTo(m.body, {d});
      assert x in cs;
    }
  }

  /** The declarations ds in order: they are all erased, together with all their calls;
      the flag says whether any of them had a call. */
  lemma {:induction false} FshlDeclsFacts(m: Module, ds: seq<DeclId>)
    requires WellFormed(m) && FshlDecls(m, ds).Success?
    ensures WellFormed(FshlDecls(m, ds).value.0)
    ensures FshlDecls(m, ds).value.0.nextDecl == m.nextDecl
    ensures forall f :: FamilyDecls(FshlDecls(m, ds).value.0.decls, f) == FamilyDecls(m.decls, f) - SetOf(ds)
    ensures forall q :: CallsTo(FshlDecls(m, ds).value.0.body, q) == CallsTo(m.body, q) - CallsTo(m.body, SetOf(ds))
    ensures FshlDecls(m, ds).value.1 <==> CallsTo(m.body, SetOf(ds)) != {}
    ensures ShapesKept(m, CallsTo(m.body, SetOf(ds)), FshlDecls(m, ds).value.0)
    decreases |ds|
  {
    if ds != [] {
      var init, d := ds[..|ds| - 1], ds[|ds| - 1];
      FshlDeclsFacts(m, init);
      var (m1, changed1) := FshlDecls(m, init).value;
      assert ds == init + [d];
      FshlDeclFacts(m1, d);
      FshlDeclsStep(m, init, d, m1, changed1);
      assert WellFormed(FshlDecls(m, ds).value.0);
      SetOfSnoc(ds);
      CallsToUnion(m.body, SetOf(init), {d});
      assert CallsTo(m1.body, {d}) == CallsTo(m.body, {d}) - CallsTo(m.body, SetOf(init));
      ShapesKeptTrans(m, CallsTo(m.body, SetOf(init)), m1, CallsTo(m1.body, {d}), FshlDecls(m, ds).value.0,
                      CallsTo(m.body, SetOf(ds)));
    } else {
      assert SetOf(ds) == {};
      CallsToOnlyCallees(m.body, {});
    }
  }

  /** The induction step of FshlDeclsFacts: one more declaration. */
  lemma FshlDeclsStep(m: Module, init: seq<DeclId>, d: DeclId, m1: Module, changed1: bool)
    requires FshlDecls(m, init) == Success((m1, changed1))
    requires FshlDecls(m, init + [d]).Success?
    requires forall f :: FamilyDecls(m1.decls, f) == FamilyDecls(m.decls, f) - SetOf(init)
    requires forall q :: CallsTo(m1.body, q) == CallsTo(m.body, q) - CallsTo(m.body, SetOf(init))
    requires changed1 <==> CallsTo(m.body, SetOf(init)) != {}
    requires FshlDecl(m1, d).Success?
    requires var (m2, changed2) := FshlDecl(m1, d).value;
      && (forall f :: FamilyDecls(m2.decls, f) == FamilyDecls(m1.decls, f) - {d})
      && (forall ds :: CallsTo(m2.body, ds) == CallsTo(m1.body, ds) - CallsTo(m1.body, {d}))
      && (changed2 <==> CallsTo(m1.body, {d}) != {})
    ensures var ds := init + [d];
      && FshlDecls(m, ds).value.0 == FshlDecl(m1, d).value.0
      && (forall f :: FamilyDecls(FshlDecls(m, ds).value.0.decls, f) == FamilyDecls(m.decls, f) - SetOf(ds))
      && (forall q :: CallsTo(FshlDecls(m, ds).value.0.body, q) == CallsTo(m.body, q) - CallsTo(m.body, SetOf(ds)))
      && (FshlDecls(m, ds).value.1 <==> CallsTo(m.body, SetOf(ds)) != {})
  {
    var ds := init + [d];
    assert ds[..|ds| - 1] == init && ds[|ds| - 1] == d;
    SetOfSnoc(ds);
    CallsToUnion(m.body, SetOf(init), {d});
    var m2 := FshlDecl(m1, d).value.0;
    var gone, goneD := CallsTo(m.body, SetOf(init)), CallsTo(m.body, {d});
    assert CallsTo(m1.body, {d}) == goneD - gone;
    forall q
      ensures CallsTo(m2.body, q) == CallsTo(m.body, q) - (gone + goneD)
    {
      assert CallsTo(m1.body, q) == CallsTo(m.body, q) - gone;
      assert CallsTo(m2.body, q) == CallsTo(m1.body, q) - (goneD - gone);
    }
  }

  /** replaceFshl leaves a well-formed module with no llvm.fshl declaration and none of
      their calls; every other declaration keeps its family and every other call stays;
      the flag says whether there was a call to rewrite. */
  lemma ReplaceFshlFacts(m: Module)
    requires WellFormed(m) && ReplaceFshl(m).Success?
    ensures var (m', changed) := ReplaceFshl(m).value;
      var fshl := FamilyDecls(m.decls, Fshl);
      && WellFormed(m') && m'.nextDecl == m.nextDecl
      && FamilyDecls(m'.decls, Fshl) == {}
      && (forall f | f != Fshl :: FamilyDecls(m'.decls, f) == FamilyDecls(m.decls, f))
      && (forall q :: CallsTo(m'.body, q) == CallsTo(m.body, q) - CallsTo(m.body, fshl))
      && CallsTo(m'.body, fshl) == {}
      && ShapesKept(m, CallsTo(m.body, fshl), m')
      && (changed <==> CallsTo(m.body, fshl) != {})
  {
    var ds := DeclsOf(m.decls, Fshl);
    DeclsOfFamily(m.decls, Fshl);
    assert SetOf(ds) == FamilyDecls(m.decls, Fshl);
    FshlDeclsFacts(m, ds);
  }

  // ---------------------------------------------------------------------------------
  // Fatal errors

  /** The step of FshlCallsOutcome: once the calls before it are rewritten, the last
      call fails exactly when it was not valid in m, with that call's error. */
  lemma FshlCallsLastOutcome(m: Module, cs: seq<Id>, d: DeclId)
    requires WellFormed(m) && NoDuplicates(cs) && SetOf(cs) <= CallsTo(m.body, {d})
    requires cs != [] && FshlCalls(m, cs[..|cs| - 1]).Success?
    ensures FshlCalls(m, cs).Failure? <==> !FshlCallValid(Find(m.body, cs[|cs| - 1]))
    ensures FshlCalls(m, cs).Failure? ==> FshlCalls(m, cs).error == FshlCallError(Find(m.body, cs[|cs| - 1]))
  {
    var init, c := cs[..|cs| - 1], cs[|cs| - 1];
    SetOfSnoc(cs);
    assert NoDuplicates(init);
    FshlCallsFacts(m, init, d);
    var m1 := FshlCalls(m, init).value;
    assert c !in SetOf(init);
    CollectIdsBound(m.body, CallsToQ({d}));
    assert c in Ids(m.body);
    ShapeValid(Find(m1.body, c), Find(m.body, c));
    FshlCallStepChecks(m1, c);
    assert FshlCalls(m, cs) == FshlCallStep(m1, c);
  }

  /** The calls cs of d in order fail exactly when one of them, as it is in m, is not
      valid, and then with the error of such a call: the calls rewritten before it
      change only which ids its operands use, not their number or types. */
  lemma FshlCallsOutcome(m: Module, cs: seq<Id>, d: DeclId)
    requires WellFormed(m) && NoDuplicates(cs) && SetOf(cs) <= CallsTo(m.body, {d})
    ensures FshlCalls(m, cs).Failure? <==> exists i | 0 <= i < |cs| :: !FshlCallValid(Find(m.body, cs[i]))
    ensures FshlCalls(m, cs).Failure? ==>
      exists i | 0 <= i < |cs| :: !FshlCallValid(Find(m.body, cs[i])) && FshlCallError(Find(m.body, cs[i])) == FshlCalls(m, cs).error
  {
    FshlCallsInvalid(m, cs, d);
    FshlCallsErrors(m, cs, d);
  }

  /** The first half of FshlCallsOutcome: a call that is not valid stops the calls. */
  lemma FshlCallsInvalid(m: Module, cs: seq<Id>, d: DeclId)
    requires WellFormed(m) && NoDuplicates(cs) && SetOf(cs) <= CallsTo(m.body, {d})
    ensures (exists i | 0 <= i < |cs| :: !FshlCallValid(Find(m.body, cs[i]))) ==> FshlCalls(m, cs).Failure?
  {
    if exists i | 0 <= i < |cs| :: !FshlCallValid(Find(m.body, cs[i])) {
      var i :| 0 <= i < |cs| && !FshlCallValid(Find(m.body, cs[i]));
      FshlCallsInvalidAt(m, cs, d, i);
    }
  }

  /** The calls stop when the i-th of them is not valid. */
  lemma {:induction false} FshlCallsInvalidAt(m: Module, cs: seq<Id>, d: DeclId, i: nat)
    requires WellFormed(m) && NoDuplicates(cs) && SetOf(cs) <= CallsTo(m.body, {d})
    requires i < |cs| && !FshlCallValid(Find(m.body, cs[i]))
    ensures FshlCalls(m, cs).Failure?
    decreases |cs|
  {
    var init := cs[..|cs| - 1];
    if i < |init| {
      NoDuplicatesInit(cs, CallsTo(m.body, {d}));
      assert init[i] == cs[i];
      FshlCallsInvalidAt(m, init, d, i);
    } else if FshlCalls(m, init).Success? {
      FshlCallsLastOutcome(m, cs, d);
    }
  }

  /** The second half of FshlCallsOutcome: the calls fail only with the error of a call
      that is not valid. */
  lemma {:induction false} FshlCallsErrors(m: Module, cs: seq<Id>, d: DeclId)
    requires WellFormed(m) && NoDuplicates(cs) && SetOf(cs) <= CallsTo(m.body, {d})
    ensures FshlCalls(m, cs).Failure? ==>
      exists i | 0 <= i < |cs| :: !FshlCallValid(Find(m.body, cs[i])) && FshlCallError(Find(m.body, cs[i])) == FshlCalls(m, cs).error
    decreases |cs|
  {
    if cs != [] {
      var init := cs[..|cs| - 1];
      SetOfSnoc(cs);
      assert NoDuplicates(init);
      FshlCallsErrors(m, init, d);
      if FshlCalls(m, init).Success? {
        FshlCallsLastOutcome(m, cs, d);
      } else {
        var i :| 0 <= i < |init| && !FshlCallValid(Find(m.body, init[i])) && FshlCallError(Find(m.body, init[i])) == FshlCalls(m, init).error;
        assert cs[i] == init[i];
      }
    }
  }

  /** One declaration fails exactly when one of its calls is not valid, with the error
      of such a call. */
  lemma FshlDeclOutcome(m: Module, d: DeclId)
    requires WellFormed(m)
    ensures FshlDecl(m, d).Failure? <==> exists x | x in CallsTo(m.body, {d}) :: !FshlCallValid(Find(m.body, x))
    ensures FshlDecl(m, d).Failure? ==>
      exists x | x in CallsTo(m.body, {d}) :: !FshlCallValid(Find(m.body, x)) && FshlCallError(Find(m.body, x)) == FshlDecl(m, d).error
  {
    var cs := CallIds(m.body, d);
    CallIdsAreCalls(m.body, d);
    FshlCallsOutcome(m, cs, d);
    if exists x | x in CallsTo(m.body, {d}) :: !FshlCallValid(Find(m.body, x)) {
      var x :| x in CallsTo(m.body, {d}) && !FshlCallValid(Find(m.body, x));
      var i :| 0 <= i < |cs| && cs[i] == x;
    }
    if FshlDecl(m, d).Failure? {
      var i :| 0 <= i < |cs| && !FshlCallValid(Find(m.body, cs[i])) && FshlCallError(Find(m.body, cs[i])) == FshlDecl(m, d).error;
      assert cs[i] in SetOf(cs);
    }
  }

  /** The declarations ds in order fail exactly when a call to one of them is not
      valid, with the error of such a call. */
  lemma {:induction false} FshlDeclsOutcome(m: Module, ds: seq<DeclId>)
    requires WellFormed(m)
    ensures FshlDecls(m, ds).Failure? <==> exists x | x in CallsTo(m.body, SetOf(ds)) :: !FshlCallValid(Find(m.body, x))
    ensures FshlDecls(m, ds).Failure? ==>
      exists x | x in CallsTo(m.body, SetOf(ds)) :: !FshlCallValid(Find(m.body, x)) && FshlCallError(Find(m.body, x)) == FshlDecls(m, ds).error
    decreases |ds|
  {
    if ds == [] {
      assert SetOf(ds) == {};
      CallsToOnlyCallees(m.body, {});
    } else {
      var init, d := ds[..|ds| - 1], ds[|ds| - 1];
      SetOfSnoc(ds);
      CallsToUnion(m.body, SetOf(init), {d});
      FshlDeclsOutcome(m, init);
      if FshlDecls(m, init).Success? {
        FshlDeclsFacts(m, init);
        var m1 := FshlDecls(m, init).value.0;
        FshlDeclOutcome(m1, d);
        FshlDeclsStepOutcome(m, SetOf(init), m1, d);
        assert FshlDecls(m, ds).Failure? <==> FshlDecl(m1, d).Failure?;
        if FshlDecls(m, ds).Failure? {
          assert FshlDecls(m, ds).error == FshlDecl(m1, d).error;
        }
      }
    }
  }

  /** The step of FshlDeclsOutcome: after the declarations in s, the calls of d left
      are those of m not yet rewritten, with the shape they have in m. */
  lemma FshlDeclsStepOutcome(m: Module, s: set<DeclId>, m1: Module, d: DeclId)
    requires WellFormed(m)
    requires forall q :: CallsTo(m1.body, q) == CallsTo(m.body, q) - CallsTo(m.body, s)
    requires ShapesKept(m, CallsTo(m.body, s), m1)
    requires !exists x | x in CallsTo(m.body, s) :: !FshlCallValid(Find(m.body, x))
    ensures (exists x | x in CallsTo(m1.body, {d}) :: !FshlCallValid(Find(m1.body, x)))
              <==> exists x | x in CallsTo(m.body, s + {d}) :: !FshlCallValid(Find(m.body, x))
    ensures forall x | x in CallsTo(m1.body, {d}) :: x in CallsTo(m.body, s + {d}) &&
              FshlCallValid(Find(m1.body, x)) == FshlCallValid(Find(m.body, x)) &&
              FshlCallError(Find(m1.body, x)) == FshlCallError(Find(m.body, x))
  {
    CallsToUnion(m.body, s, {d});
    CollectIdsBound(m.body, CallsToQ({d}));
    forall x | x in CallsTo(m1.body, {d})
      ensures x in CallsTo(m.body, s + {d})
      ensures FshlCallValid(Find(m1.body, x)) == FshlCallValid(Find(m.body, x))
      ensures FshlCallError(Find(m1.body, x)) == FshlCallError(Find(m.body, x))
    {
      ShapeValid(Find(m1.body, x), Find(m.body, x));
    }
    if exists x | x in CallsTo(m.body, s + {d}) :: !FshlCallValid(Find(m.body, x)) {
      var x :| x in CallsTo(m.body, s + {d}) && !FshlCallValid(Find(m.body, x));
      assert x in CallsTo(m1.body, {d});
    }
  }

  /** replaceFshl stops on a fatal error exactly when some call to an llvm.fshl
      declaration has fewer than three operands or a first operand whose scalar width
      is not 8, 16, 32 or 64 bits; the error is that of such a call. */
  lemma ReplaceFshlOutcome(m: Module)
    requires WellFormed(m)
    ensures var calls := CallsTo(m.body, FamilyDecls(m.decls, Fshl));
      ReplaceFshl(m).Failure? <==> exists x | x in calls :: !FshlCallValid(Find(m.body, x))
    ensures var calls := CallsTo(m.body, FamilyDecls(m.decls, Fshl));
      ReplaceFshl(m).Failure? ==>
        exists x | x in calls :: !FshlCallValid(Find(m.body, x)) && FshlCallError(Find(m.body, x)) == ReplaceFshl(m).error
  {
    var ds := DeclsOf(m.decls, Fshl);
    DeclsOfFamily(m.decls, Fshl);
    assert SetOf(ds) == FamilyDecls(m.decls, Fshl);
    FshlDeclsOutcome(m, ds);
  }

  /** A fatal error stops the rewrite: once the calls up to k fail, the whole sequence
      of calls fails with that error. */
  lemma {:induction false} FshlCallsStop(m: Module, cs: seq<Id>, k: nat)
    requires k <= |cs| && FshlCalls(m, cs[..k]).Failure?
    ensures FshlCalls(m, cs) == FshlCalls(m, cs[..k])
    decreases |cs|
  {
    if k < |cs| {
      var init := cs[..|cs| - 1];
      assert init[..k] == cs[..k];
      FshlCallsStop(m, init, k);
    } else {
      assert cs[..k] == cs;
    }
  }

  /** Likewise over the declarations: a fatal error in one stops the stage. */
  lemma {:induction false} FshlDeclsStop(m: Module, ds: seq<DeclId>, k: nat)
    requires k <= |ds| && FshlDecls(m, ds[..k]).Failure?
    ensures FshlDecls(m, ds) == FshlDecls(m, ds[..k])
    decreases |ds|
  {
    if k < |ds| {
      var init := ds[..|ds| - 1];
      assert init[..k] == ds[..k];
      FshlDeclsStop(m, init, k);
    } else {
      assert ds[..k] == ds;
    }
  }
}
