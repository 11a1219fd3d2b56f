/** The removal of lifetime markers (removeLifetimeDeclarations): every llvm.lifetime.*
    declaration counts as a change; its call users are erased, then the declaration
    itself. A lifetime marker produces no value, so nothing can be left using it. */
module LifetimeRemoval {
  import opened Wrappers
  import opened IR
  import opened Rewrite

  /** One declaration: snapshot its call users, erase them, erase the declaration. */
  function LifetimeDecl(m: Module, d: DeclId): Module {
    var users := SetOf(CallIds(m.body, d));
    m.(body := EraseSet(m.body, users), decls := EraseDecl(m.decls, d))
  }

  function LifetimeDecls(m: Module, ds: seq<DeclId>): Module
    decreases |ds|
  {
    if ds == [] then m else LifetimeDecl(LifetimeDecls(m, ds[..|ds| - 1]), ds[|ds| - 1])
  }

  /** removeLifetimeDeclarations: every lifetime declaration in module order; the flag
      is set as soon as there is one, whether or not it has a call. */
  function RemoveLifetimes(m: Module): (Module, bool) {
    var ds := DeclsOf(m.decls, Lifetime);
    (LifetimeDecls(m, ds), |ds| > 0)
  }

  lemma LifetimeDeclsNext(m: Module, ds: seq<DeclId>, i: nat, mi: Module)
    requires i < |ds| && LifetimeDecls(m, ds[..i]) == mi
    ensures LifetimeDecls(m, ds[..i + 1]) == LifetimeDecl(mi, ds[i])
  {
    assert ds[..i + 1][..i] == ds[..i];
  }

  /** Erasing one more of the users: the erased set grows by it. */
  lemma UsersNext(b: seq<Entry>, users: seq<Id>, j: nat)
    requires j < |users|
    ensures EraseSet(b, SetOf(users[..j + 1])) == Erase(EraseSet(b, SetOf(users[..j])), users[j])
  {
    assert SetOf(users[..j + 1]) == SetOf(users[..j]) + {users[j]};
    EraseSetSnoc(b, SetOf(users[..j]), users[j]);
  }

  // ---------------------------------------------------------------------------------
  // Properties

  /** Erasing users one at a time, as the worklist loop does, is erasing them as a set. */
  lemma {:induction false} EraseSetSnoc(b: seq<Entry>, s: set<Id>, x: Id)
    ensures EraseSet(b, s + {x}) == Erase(EraseSet(b, s), x)
    decreases |b|
  {
    if b != [] {
      EraseSetSnoc(b[1..], s, x);
    }
  }

  /** One lifetime declaration: the module stays well formed, exactly the calls to d are
      gone and every other instruction is as it was, and d is gone from the declarations
      while every other declaration keeps its family. */
  lemma LifetimeDeclFacts(m: Module, d: DeclId)
    requires WellFormed(m) && FamilyOf(m.decls, d) == Some(Lifetime)
    ensures LifetimeDeclsKeep(m, {d}, LifetimeDecl(m, d))
  {
    var users := SetOf(CallIds(m.body, d));
    CallIdsAreCalls(m.body, d);
    assert users == CallsTo(m.body, {d});
    assert d in FamilyDecls(m.decls, Lifetime);
    CallsToMono(m.body, {d}, FamilyDecls(m.decls, Lifetime));
    VoidCallsUnused(m, Lifetime);
    EraseUnusedSetWellFormed(m, users);
    var m1 := m.(body := EraseSet(m.body, users));
    assert CallsTo(m1.body, {d}) == {};
    EraseDeclWellFormed(m1, d);
    CollectEraseSet(m.body, users, IdsQ);
    forall x | x in Ids(m1.body)
      ensures Find(m1.body, x) == Find(m.body, x)
    {
      FindEraseSet(m.body, users, x);
    }
  }

  /** The declarations ds (lifetime declarations, none twice) in order: all of them and
      all their calls are gone, and nothing else changed. */
  lemma {:induction false} LifetimeDeclsFacts(m: Module, ds: seq<DeclId>)
    requires WellFormed(m) && NoDuplicates(ds)
    requires forall d | d in ds :: FamilyOf(m.decls, d) == Some(Lifetime)
    ensures LifetimeDeclsKeep(m, SetOf(ds), LifetimeDecls(m, ds))
    decreases |ds|
  {
    if ds == [] {
      assert SetOf(ds) == {};
      CallsToOnlyCallees(m.body, {});
    } else {
      var init, d := ds[..|ds| - 1], ds[|ds| - 1];
      assert NoDuplicates(init);
      assert d !in SetOf(init);
      assert d in ds;
      LifetimeDeclsFacts(m, init);
      LifetimeDeclsGrow(m, SetOf(init), LifetimeDecls(m, init), d);
      SetOfSnoc(ds);
    }
  }

  /** One more lifetime declaration d, not yet among the removed ones s. */
  lemma LifetimeDeclsGrow(m: Module, s: set<DeclId>, m1: Module, d: DeclId)
    requires LifetimeDeclsKeep(m, s, m1)
    requires FamilyOf(m.decls, d) == Some(Lifetime) && d !in s
    ensures LifetimeDeclsKeep(m, s + {d}, LifetimeDecl(m1, d))
  {
    StillLifetime(m, s, m1, d);
    LifetimeDeclFacts(m1, d);
    LifetimeDeclsStep(m, m1, LifetimeDecl(m1, d), s, d);
  }

  /** What removing the lifetime declarations s from m to give m' changes: they are
      gone, with their calls, and nothing else is. */
  ghost predicate LifetimeDeclsKeep(m: Module, s: set<DeclId>, m': Module) {
    var gone := CallsTo(m.body, s);
    && WellFormed(m')
    && m'.nextId == m.nextId && m'.nextDecl == m.nextDecl
    && (forall f :: FamilyDecls(m'.decls, f) == FamilyDecls(m.decls, f) - s)
    && Ids(m'.body) == Ids(m.body) - gone
    && (forall q: set<DeclId> :: CallsTo(m'.body, q) == CallsTo(m.body, q) - gone)
    && (forall x | x in Ids(m'.body) :: Find(m'.body, x) == Find(m.body, x))
  }

  /** A lifetime declaration not yet removed is still there. */
  lemma StillLifetime(m: Module, s: set<DeclId>, m1: Module, d: DeclId)
    requires LifetimeDeclsKeep(m, s, m1)
    requires FamilyOf(m.decls, d) == Some(Lifetime) && d !in s
    ensures FamilyOf(m1.decls, d) == Some(Lifetime)
  {
    assert d in FamilyDecls(m.decls, Lifetime);
    assert FamilyDecls(m1.decls, Lifetime) == FamilyDecls(m.decls, Lifetime) - s;
    assert d in FamilyDecls(m1.decls, Lifetime);
  }

  /** The induction step of LifetimeDeclsFacts: one more lifetime declaration. */
  lemma LifetimeDeclsStep(m: Module, m1: Module, m2: Module, s: set<DeclId>, d: DeclId)
    requires LifetimeDeclsKeep(m, s, m1)
    requires LifetimeDeclsKeep(m1, {d}, m2)
    ensures LifetimeDeclsKeep(m, s + {d}, m2)
  {
    forall f
      ensures FamilyDecls(m2.decls, f) == FamilyDecls(m.decls, f) - (s + {d})
    {
      assert FamilyDecls(m1.decls, f) == FamilyDecls(m.decls, f) - s;
    }
    CallsGoneGrow(m.body, m1.body, m2.body, s, d);
  }

  /** Erasing the calls to s and then those to d is erasing the calls to s + {d}. */
  lemma CallsGoneGrow(b: seq<Entry>, b1: seq<Entry>, b2: seq<Entry>, s: set<DeclId>, d: DeclId)
    requires Ids(b1) == Ids(b) - CallsTo(b, s)
    requires forall q :: CallsTo(b1, q) == CallsTo(b, q) - CallsTo(b, s)
    requires Ids(b2) == Ids(b1) - CallsTo(b1, {d})
    requires forall q :: CallsTo(b2, q) == CallsTo(b1, q) - CallsTo(b1, {d})
    ensures Ids(b2) == Ids(b) - CallsTo(b, s + {d})
    ensures forall q :: CallsTo(b2, q) == CallsTo(b, q) - CallsTo(b, s + {d})
  {
    CallsToUnion(b, s, {d});
    var gone, goneD := CallsTo(b, s), CallsTo(b, {d});
    assert CallsTo(b1, {d}) == goneD - gone;
    forall q
      ensures CallsTo(b2, q) == CallsTo(b, q) - (gone + goneD)
    {
      assert CallsTo(b1, q) == CallsTo(b, q) - gone;
    }
  }

  /** The flag of removeLifetimeDeclarations is set exactly when the module declares a
      lifetime marker. */
  lemma LifetimeFlag(decls: seq<Decl>)
    requires DeclsDistinct(decls)
    ensures |DeclsOf(decls, Lifetime)| > 0 <==> FamilyDecls(decls, Lifetime) != {}
  {
    var ds := DeclsOf(decls, Lifetime);
    DeclsOfFamily(decls, Lifetime);
    if |ds| > 0 {
      assert ds[0] in FamilyDecls(decls, Lifetime);
    }
    if FamilyDecls(decls, Lifetime) != {} {
      var d :| d in FamilyDecls(decls, Lifetime);
      assert d in ds;
    }
  }

  /** removeLifetimeDeclarations leaves a well-formed module without lifetime
      declarations or calls to them; every other instruction stays as it was and every
      other declaration keeps its family; the flag says whether there was a lifetime
      declaration, called or not. */
  lemma RemoveLifetimesFacts(m: Module)
    requires WellFormed(m)
    ensures var (m', changed) := RemoveLifetimes(m);
      var lifetime := FamilyDecls(m.decls, Lifetime);
      && WellFormed(m')
      && m'.nextId == m.nextId && m'.nextDecl == m.nextDecl
      && FamilyDecls(m'.decls, Lifetime) == {}
      && (forall f | f != Lifetime :: FamilyDecls(m'.decls, f) == FamilyDecls(m.decls, f))
      && Ids(m'.body) == Ids(m.body) - CallsTo(m.body, lifetime)
      && (forall q :: CallsTo(m'.body, q) == CallsTo(m.body, q) - CallsTo(m.body, lifetime))
      && CallsTo(m'.body, lifetime) == {}
      && (forall x | x in Ids(m'.body) :: Find(m'.body, x) == Find(m.body, x))
      && (changed <==> lifetime != {})
  {
    var ds := DeclsOf(m.decls, Lifetime);
    DeclsOfFamily(m.decls, Lifetime);
    var lifetime := FamilyDecls(m.decls, Lifetime);
    assert SetOf(ds) == lifetime;
    LifetimeDeclsFacts(m, ds);
    LifetimeFlag(m.decls);
    var m' := LifetimeDecls(m, ds);
    assert LifetimeDeclsKeep(m, lifetime, m');
    forall f | f != Lifetime
      ensures FamilyDecls(m'.decls, f) == FamilyDecls(m.decls, f)
    {
      assert FamilyDecls(m.decls, f) !! lifetime;
    }
  }
}
