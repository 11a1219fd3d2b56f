/** The two edits every lowering is built from, and the invariant they keep: replacing
    one instruction by a sequence of fresh ones, and erasing a declaration nothing calls
    any more (or adding a fresh one). */
module Rewrite {
  import opened Wrappers
  import opened Types
  import opened IR

  /** A list of ids with no repeats. */
  predicate NoDuplicates(s: seq<Id>) {
    forall i, j | 0 <= i < j < |s| :: s[i] != s[j]
  }

  /** Dropping the last element of a list of call sites keeps it duplicate-free, inside
      the same set, and without that element. */
  lemma NoDuplicatesInit(s: seq<Id>, t: set<Id>)
    requires s != [] && NoDuplicates(s) && SetOf(s) <= t
    ensures NoDuplicates(s[..|s| - 1]) && SetOf(s[..|s| - 1]) <= t
    ensures SetOf(s) == SetOf(s[..|s| - 1]) + {s[|s| - 1]} && s[|s| - 1] !in SetOf(s[..|s| - 1])
  {
    SetOfSnoc(s);
    var init := s[..|s| - 1];
    forall i | 0 <= i < |init|
      ensures init[i] != s[|s| - 1]
    {
      assert init[i] == s[i];
    }
  }

  /** Replace the instruction c, whose result is used, by es: insert es before c,
      redirect c's uses to r and erase c. */
  function SpliceValue(b: seq<Entry>, c: Id, es: seq<Entry>, r: Value): seq<Entry> {
    Erase(ReplaceUses(InsertBefore(b, c, es), c, r), c)
  }

  /** Replace the instruction c, whose result nothing uses, by es. */
  function SpliceCall(b: seq<Entry>, c: Id, es: seq<Entry>): seq<Entry> {
    Erase(InsertBefore(b, c, es), c)
  }

  lemma {:induction false} ReplaceUsesUnused(b: seq<Entry>, x: Id, w: Value)
    requires x !in Refs(b)
    ensures ReplaceUses(b, x, w) == b
    decreases |b|
  {
    if b != [] {
      ValuesRefsUnused(Operands(b[0].inst), x, w);
      SubstInstUnused(b[0].inst, x, w);
      ReplaceUsesUnused(b[1..], x, w);
    }
  }

  lemma {:induction false} ValuesRefsUnused(vs: seq<Value>, x: Id, w: Value)
    requires x !in ValuesRefs(vs)
    ensures SubstValues(vs, x, w) == vs
    decreases |vs|
  {
    if vs != [] {
      ValueRefsSubst(vs[0], x, w);
      ValuesRefsUnused(vs[1..], x, w);
    }
  }

  lemma SubstInstUnused(inst: Inst, x: Id, w: Value)
    requires x !in InstRefs(inst)
    ensures SubstInst(inst, x, w) == inst
  {
    match inst
    case Call(_, args, _) => ValuesRefsUnused(args, x, w);
    case BitCast(v, _) =>
      ValuesRefsCons(v, []);
      assert [v] == [v] + [];
      ValueRefsSubst(v, x, w);
    case Binary(_, l, r) =>
      ValuesRefsPair(l, r);
      ValueRefsSubst(l, x, w);
      ValueRefsSubst(r, x, w);
    case Store(v, p) =>
      ValuesRefsPair(v, p);
      ValueRefsSubst(v, x, w);
      ValueRefsSubst(p, x, w);
    case Gep(_, base, idx, _) =>
      ValuesRefsCons(base, idx);
      ValueRefsSubst(base, x, w);
      ValuesRefsUnused(idx, x, w);
    case OtherInst(ops) => ValuesRefsUnused(ops, x, w);
  }

  /** When c's result is unused, redirecting its uses changes nothing. */
  lemma SpliceUnused(b: seq<Entry>, c: Id, es: seq<Entry>, r: Value)
    requires c in Ids(b) && c !in Refs(b) && c !in Refs(es)
    ensures SpliceValue(b, c, es, r) == SpliceCall(b, c, es)
  {
    CollectInsertBefore(b, c, es, RefsQ);
    ReplaceUsesUnused(InsertBefore(b, c, es), c, r);
  }

  /** What the splice collects: the old facts and those of es, less c; the uses of c
      become uses of r. */
  lemma SpliceCollect(b: seq<Entry>, c: Id, es: seq<Entry>, r: Value, q: Query)
    requires c in Ids(b)
    ensures IdValued(q) ==> Collect(SpliceValue(b, c, es, r), q) == (Collect(b, q) + Collect(es, q)) - {c}
    ensures q.CalleesQ? ==> Collect(SpliceValue(b, c, es, r), q) <= Collect(b, q) + Collect(es, q)
    ensures q.RefsQ? ==> Collect(SpliceValue(b, c, es, r), q) <= ((Collect(b, q) + Collect(es, q)) - {c}) + ValueRefs(r)
  {
    var b1 := InsertBefore(b, c, es);
    CollectInsertBefore(b, c, es, q);
    CollectReplaceUses(b1, c, r, q);
    CollectErase(ReplaceUses(b1, c, r), c, q);
  }

  /** The other old instructions are found, with uses of c redirected to r. */
  lemma SpliceFindOld(b: seq<Entry>, c: Id, es: seq<Entry>, r: Value, x: Id)
    requires x != c && x !in Ids(es) && x in Ids(b)
    ensures Find(SpliceValue(b, c, es, r), x) == Some(SubstInst(Find(b, x).value, c, r))
  {
    var b1 := InsertBefore(b, c, es);
    FindInsertBefore(b, c, es, x);
    FindReplaceUses(b1, c, r, x);
    FindErase(ReplaceUses(b1, c, r), c, x);
  }

  /** The conditions under which replacing c by es (with ids from m.nextId up to next)
      keeps the module well formed: es has unique ids, uses only itself and the old
      instructions (none of them void; a use of c is redirected too), calls only
      declared functions, and c's uses go to a value-producing instruction of es. */
  predicate SpliceOk(m: Module, c: Id, es: seq<Entry>, r: Value, next: nat) {
    && c in Ids(m.body)
    && m.nextId <= next
    && Distinct(es)
    && (forall x | x in Ids(es) :: m.nextId <= x < next)
    && Refs(es) <= Ids(m.body) + Ids(es)
    && Refs(es) !! Voids(m.decls, m.body) + Voids(m.decls, es)
    && Callees(es) <= DeclIds(m.decls)
    && ValueRefs(r) <= Ids(es) - Voids(m.decls, es)
  }

  lemma SpliceWellFormed(m: Module, c: Id, es: seq<Entry>, r: Value, next: nat)
    requires WellFormed(m) && SpliceOk(m, c, es, r, next)
    ensures WellFormed(m.(body := SpliceValue(m.body, c, es, r), nextId := next))
  {
    var b := m.body;
    var b' := SpliceValue(b, c, es, r);
    SpliceCollect(b, c, es, r, IdsQ);
    SpliceCollect(b, c, es, r, RefsQ);
    SpliceCollect(b, c, es, r, VoidsQ(m.decls));
    SpliceCollect(b, c, es, r, CalleesQ);
    CollectIdsBound(b, VoidsQ(m.decls));
    CollectIdsBound(es, VoidsQ(m.decls));
    SpliceDistinct(m, c, es, r, next);
    assert Voids(m.decls, b') !! Refs(b');
  }

  /** The spliced body still has unique ids: the new ones are all fresh. */
  lemma SpliceDistinct(m: Module, c: Id, es: seq<Entry>, r: Value, next: nat)
    requires WellFormed(m) && SpliceOk(m, c, es, r, next)
    ensures Distinct(SpliceValue(m.body, c, es, r))
  {
    var b := m.body;
    assert Ids(es) !! Ids(b);
    DistinctInsertBefore(b, c, es);
    DistinctReplaceUses(InsertBefore(b, c, es), c, r);
    DistinctErase(ReplaceUses(InsertBefore(b, c, es), c, r), c);
  }

  /** SpliceOk for a sequence es whose only uses of old instructions are uses the old
      instructions already make. */
  lemma SpliceOkFromUses(m: Module, c: Id, es: seq<Entry>, r: Value, next: nat, used: set<Id>)
    requires WellFormed(m) && c in Ids(m.body)
    requires used <= Refs(m.body) && Refs(es) <= used + Ids(es)
    requires Distinct(es) && m.nextId <= next && (forall x | x in Ids(es) :: m.nextId <= x < next)
    requires Refs(es) !! Voids(m.decls, es) && Callees(es) <= DeclIds(m.decls)
    requires ValueRefs(r) <= Ids(es) - Voids(m.decls, es)
    ensures SpliceOk(m, c, es, r, next)
  {
    CollectIdsBound(m.body, VoidsQ(m.decls));
    assert Ids(es) !! Ids(m.body);
  }

  /** The void-call version: nothing uses c, so no use has to be redirected. */
  predicate SpliceCallOk(m: Module, c: Id, es: seq<Entry>, next: nat) {
    && c in Ids(m.body)
    && c !in Refs(m.body)
    && m.nextId <= next
    && Distinct(es)
    && (forall x | x in Ids(es) :: m.nextId <= x < next)
    && Refs(es) <= (Ids(m.body) - {c}) + Ids(es)
    && Refs(es) !! Voids(m.decls, m.body) + Voids(m.decls, es)
    && Callees(es) <= DeclIds(m.decls)
  }

  lemma SpliceCallWellFormed(m: Module, c: Id, es: seq<Entry>, next: nat)
    requires WellFormed(m) && SpliceCallOk(m, c, es, next)
    ensures WellFormed(m.(body := SpliceCall(m.body, c, es), nextId := next))
    ensures forall ds :: CallsTo(SpliceCall(m.body, c, es), ds) == (CallsTo(m.body, ds) + CallsTo(es, ds)) - {c}
  {
    var r := ConstInt(I32, 0);
    assert c !in Ids(es);
    SpliceUnused(m.body, c, es, r);
    SpliceWellFormed(m, c, es, r, next);
    forall ds
      ensures CallsTo(SpliceCall(m.body, c, es), ds) == (CallsTo(m.body, ds) + CallsTo(es, ds)) - {c}
    {
      SpliceCollect(m.body, c, es, r, CallsToQ(ds));
    }
  }

  /** Erasing an instruction nothing uses keeps the module well formed. */
  lemma EraseUnusedWellFormed(m: Module, x: Id)
    requires WellFormed(m) && x !in Refs(m.body)
    ensures WellFormed(m.(body := Erase(m.body, x)))
    ensures forall ds :: CallsTo(Erase(m.body, x), ds) == CallsTo(m.body, ds) - {x}
  {
    CollectErase(m.body, x, IdsQ);
    CollectErase(m.body, x, RefsQ);
    CollectErase(m.body, x, VoidsQ(m.decls));
    CollectErase(m.body, x, CalleesQ);
    DistinctErase(m.body, x);
    forall ds
      ensures CallsTo(Erase(m.body, x), ds) == CallsTo(m.body, ds) - {x}
    {
      CollectErase(m.body, x, CallsToQ(ds));
    }
  }

  // ---------------------------------------------------------------------------------
  // Sequences of new instructions

  /** A bound on what each instruction picks bounds what the sequence collects. */
  lemma {:induction false} CollectBound(es: seq<Entry>, q: Query, s: set<nat>)
    requires forall i | 0 <= i < |es| :: Pick(q, es[i]) <= s
    ensures Collect(es, q) <= s
    decreases |es|
  {
    if es != [] {
      assert forall i | 0 <= i < |es[1..]| :: Pick(q, es[1..][i]) == Pick(q, es[i + 1]);
      CollectBound(es[1..], q, s);
    }
  }

  /** A property of everything each instruction picks holds of all that is collected. */
  lemma {:induction false} CollectSat(es: seq<Entry>, q: Query, P: nat -> bool)
    requires forall i, x | 0 <= i < |es| && x in Pick(q, es[i]) :: P(x)
    ensures forall x | x in Collect(es, q) :: P(x)
    decreases |es|
  {
    if es != [] {
      assert forall i | 0 <= i < |es[1..]| :: es[1..][i] == es[i + 1];
      CollectSat(es[1..], q, P);
    }
  }

  /** What the instruction at position i picks is collected. */
  lemma {:induction false} CollectHas(es: seq<Entry>, q: Query, i: nat)
    requires i < |es|
    ensures Pick(q, es[i]) <= Collect(es, q)
    decreases i
  {
    if i > 0 {
      CollectHas(es[1..], q, i - 1);
    }
  }

  /** Instructions numbered next, next + 1, ... in order have distinct ids, exactly
      those from next up to next + |es|. */
  lemma {:induction false} ConsecutiveIds(es: seq<Entry>, next: nat)
    requires forall i | 0 <= i < |es| :: es[i].id == next + i
    ensures Distinct(es)
    ensures forall x :: x in Ids(es) <==> next <= x < next + |es|
    decreases |es|
  {
    if es != [] {
      ConsecutiveIds(es[1..], next + 1);
    }
  }

  // ---------------------------------------------------------------------------------
  // Declarations

  lemma {:induction false} FamilyDeclsErase(decls: seq<Decl>, d: DeclId, f: Family)
    requires DeclsDistinct(decls)
    ensures FamilyDecls(EraseDecl(decls, d), f) == FamilyDecls(decls, f) - {d}
  {
    EraseDeclFacts(decls, d);
    forall d' | d' != d
      ensures FamilyOf(EraseDecl(decls, d), d') == FamilyOf(decls, d')
    {
      FamilyOfEraseDecl(decls, d, d');
    }
  }

  /** Erasing a declaration nothing calls keeps the module well formed, and every other
      declaration keeps its family. */
  lemma EraseDeclWellFormed(m: Module, d: DeclId)
    requires WellFormed(m) && CallsTo(m.body, {d}) == {}
    ensures WellFormed(m.(decls := EraseDecl(m.decls, d)))
    ensures forall f :: FamilyDecls(EraseDecl(m.decls, d), f) == FamilyDecls(m.decls, f) - {d}
  {
    EraseDeclFacts(m.decls, d);
    NoCallsNotCallee(m.body, d);
    forall d' | d' in Callees(m.body)
      ensures FamilyOf(EraseDecl(m.decls, d), d') == FamilyOf(m.decls, d')
    {
      FamilyOfEraseDecl(m.decls, d, d');
    }
    VoidsSameFamilies(m.body, m.decls, EraseDecl(m.decls, d));
    forall f
      ensures FamilyDecls(EraseDecl(m.decls, d), f) == FamilyDecls(m.decls, f) - {d}
    {
      FamilyDeclsErase(m.decls, d, f);
    }
  }

  /** Declare a new function of family f with the next declaration id. */
  function AddDecl(m: Module, f: Family): Module {
    m.(decls := m.decls + [Decl(m.nextDecl, f)], nextDecl := m.nextDecl + 1)
  }

  /** A fresh declaration keeps the module well formed; the old declarations keep their
      families, and the new one is of family f. */
  lemma AddDeclWellFormed(m: Module, f: Family)
    requires WellFormed(m)
    ensures WellFormed(AddDecl(m, f))
    ensures FamilyOf(AddDecl(m, f).decls, m.nextDecl) == Some(f)
    ensures forall g :: FamilyDecls(AddDecl(m, f).decls, g)
                          == FamilyDecls(m.decls, g) + (if g == f then {m.nextDecl} else {})
  {
    var nd := Decl(m.nextDecl, f);
    AppendDeclFacts(m.decls, nd);
    FamilyOfAppend(m.decls, nd, m.nextDecl);
    forall d' | d' in DeclIds(m.decls)
      ensures FamilyOf(m.decls + [nd], d') == FamilyOf(m.decls, d')
    {
      FamilyOfAppend(m.decls, nd, d');
    }
    VoidsSameFamilies(m.body, m.decls, m.decls + [nd]);
  }

  /** New instructions, numbered from m.nextId on, that use only ids the module already
      uses and their own value-producing instructions, and call only declared
      functions, can replace an unused call. */
  lemma SpliceCallOkFromShape(m: Module, c: Id, es: seq<Entry>, outer: set<Id>)
    requires WellFormed(m) && c in Ids(m.body) && c !in Refs(m.body)
    requires outer <= Refs(m.body)
    requires Distinct(es) && forall x :: x in Ids(es) <==> m.nextId <= x < m.nextId + |es|
    requires Refs(es) <= outer + (Ids(es) - Voids(m.decls, es))
    requires Callees(es) <= DeclIds(m.decls)
    ensures SpliceCallOk(m, c, es, m.nextId + |es|)
  {
    var old_, new_ := Ids(m.body), Ids(es);
    var used, voids, newVoids := Refs(m.body), Voids(m.decls, m.body), Voids(m.decls, es);
    CollectIdsBound(m.body, VoidsQ(m.decls));
    CollectIdsBound(es, VoidsQ(m.decls));
    assert new_ !! old_ by {
      forall x | x in new_ ensures x !in old_ {
        assert x >= m.nextId;
      }
    }
    assert used <= old_ && c !in used;
    assert outer <= old_ - {c};
    assert Refs(es) <= (old_ - {c}) + new_;
    assert voids <= old_ && newVoids <= new_;
    assert used !! voids;
    assert Refs(es) !! voids + newVoids;
  }

  /** Erasing a set of unused instructions keeps the module well formed and every
      other instruction as it was. */
  lemma EraseUnusedSetWellFormed(m: Module, s: set<Id>)
    requires WellFormed(m) && s !! Refs(m.body)
    ensures WellFormed(m.(body := EraseSet(m.body, s)))
    ensures forall q :: CallsTo(EraseSet(m.body, s), q) == CallsTo(m.body, q) - s
  {
    CollectEraseSet(m.body, s, IdsQ);
    CollectEraseSet(m.body, s, RefsQ);
    CollectEraseSet(m.body, s, VoidsQ(m.decls));
    CollectEraseSet(m.body, s, CalleesQ);
    DistinctEraseSet(m.body, s);
    forall q
      ensures CallsTo(EraseSet(m.body, s), q) == CallsTo(m.body, q) - s
    {
      CollectEraseSet(m.body, s, CallsToQ(q));
    }
  }

  /** What a rewrite of m into m' leaves of the old instructions other than gone: each
      is still there and unchanged, or it is one of the bitcasts in erasable and is
      erased; and no id below m's counter is used afresh. */
  ghost predicate KeepsOthers(m: Module, gone: set<Id>, erasable: set<Id>, m': Module) {
    && m.nextId <= m'.nextId
    && (forall y | y in Ids(m'.body) && y < m.nextId :: y in Ids(m.body))
    && (forall y | y in Ids(m.body) && y !in gone && y in Ids(m'.body) :: Find(m'.body, y) == Find(m.body, y))
    && (forall y | y in Ids(m.body) && y !in gone && y !in Ids(m'.body) ::
          y in erasable && Find(m.body, y).value.BitCast?)
  }

  /** Two such rewrites in a row are one, which may erase what either may. */
  lemma KeepsOthersTrans(m: Module, g1: set<Id>, e1: set<Id>, m1: Module, g2: set<Id>, e2: set<Id>, m2: Module,
                         g: set<Id>, e: set<Id>)
    requires WellFormed(m) && KeepsOthers(m, g1, e1, m1) && KeepsOthers(m1, g2, e2, m2)
    requires g1 + g2 <= g && e1 + e2 <= e
    ensures KeepsOthers(m, g, e, m2)
  {
    forall y | y in Ids(m.body) && y !in g && y in Ids(m2.body)
      ensures y in Ids(m1.body) && Find(m2.body, y) == Find(m.body, y)
    {
      assert y < m1.nextId;
    }
    forall y | y in Ids(m.body) && y !in g && y !in Ids(m2.body)
      ensures y in e && Find(m.body, y).value.BitCast?
    {
      if y in Ids(m1.body) {
        assert Find(m1.body, y) == Find(m.body, y);
      }
    }
  }

  /** Replacing the call c by fresh instructions changes no other old instruction and
      erases nothing. */
  lemma SpliceCallKeeps(m: Module, c: Id, es: seq<Entry>, next: nat)
    requires WellFormed(m) && c in Ids(m.body) && m.nextId <= next
    requires forall x | x in Ids(es) :: x >= m.nextId
    ensures KeepsOthers(m, {c}, {}, m.(body := SpliceCall(m.body, c, es), nextId := next))
  {
    var b' := SpliceCall(m.body, c, es);
    SpliceFacts(m.body, c, es, IdsQ);
    forall y | y in Ids(m.body) && y != c
      ensures y in Ids(b') && Find(b', y) == Find(m.body, y)
    {
      assert y < m.nextId;
      SpliceFind(m.body, c, es, y);
    }
    forall y | y in Ids(b') && y < m.nextId
      ensures y in Ids(m.body)
    {
      assert y !in Ids(es);
    }
  }

  /** Erasing the bitcast x changes no other instruction. */
  lemma EraseCastKeeps(m: Module, x: Id)
    requires x in Ids(m.body) ==> Find(m.body, x).Some? && Find(m.body, x).value.BitCast?
    ensures KeepsOthers(m, {}, {x}, m.(body := Erase(m.body, x)))
  {
    CollectErase(m.body, x, IdsQ);
    forall y | y in Ids(m.body) && y != x
      ensures Find(Erase(m.body, x), y) == Find(m.body, y)
    {
      FindErase(m.body, x, y);
    }
  }

  /** Erasing the set s of bitcasts changes no other instruction. */
  lemma EraseCastsKeeps(m: Module, s: set<Id>)
    requires forall x | x in s && x in Ids(m.body) :: Find(m.body, x).Some? && Find(m.body, x).value.BitCast?
    ensures KeepsOthers(m, {}, s, m.(body := EraseSet(m.body, s)))
  {
    CollectEraseSet(m.body, s, IdsQ);
    forall y | y in Ids(m.body) && y !in s
      ensures Find(EraseSet(m.body, s), y) == Find(m.body, y)
    {
      FindEraseSet(m.body, s, y);
    }
  }

  /** A call to a function of a void family produces no value, so nothing uses it. */
  lemma VoidCallsUnused(m: Module, f: Family)
    requires WellFormed(m) && VoidFamily(f)
    ensures CallsTo(m.body, FamilyDecls(m.decls, f)) <= Voids(m.decls, m.body)
    ensures CallsTo(m.body, FamilyDecls(m.decls, f)) !! Refs(m.body)
  {
    forall c | c in CallsTo(m.body, FamilyDecls(m.decls, f))
      ensures c in Voids(m.decls, m.body)
    {
      FindCall(m.body, c, FamilyDecls(m.decls, f));
      FindFacts(m.body, c, m.decls);
    }
  }
}
