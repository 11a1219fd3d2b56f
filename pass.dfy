/** The pass itself (runOnModule): lifetime markers are removed first, then llvm.fshl,
    llvm.memset and llvm.memcpy are lowered, in that order, and the four change flags
    are or-ed. A fatal error in any of them stops the pass. The module is an object
    whose declarations and instruction sequence the pass edits in place. */
module Pass {
  import opened Wrappers
  import opened IR
  import opened Rewrite
  import opened LifetimeRemoval
  import opened FshlLowering
  import opened MemsetLowering
  import opened MemcpyLowering

  /** What runOnModule computes, stage by stage: as written, or with the lowering of
      llvm.memset and llvm.memcpy corrected. */
  function RunPass(m: Module, v: Variant): Result<(Module, bool), Fatal> {
    var (m1, c1) := RemoveLifetimes(m);
    match ReplaceFshl(m1)
    case Failure(e) => Failure(e)
    case Success((m2, c2)) =>
      match ReplaceMemset(m2, v)
      case Failure(e) => Failure(e)
      case Success((m3, c3)) =>
        match ReplaceMemcpy(m3, v)
        case Failure(e) => Failure(e)
        case Success((m4, c4)) => Success((m4, c1 || c2 || c3 || c4))
  }

  /** runOnModule, when no stage stops on a fatal error, leaves a well-formed module with
      no lifetime or llvm.fshl declaration and no call to llvm.memset or llvm.memcpy,
      whose declarations stay; every other call of the original module stays; and the
      flag says whether there was a lifetime declaration or a call to llvm.fshl. */
  lemma RunPassFacts(m: Module, v: Variant)
    requires WellFormed(m) && RunPass(m, v).Success?
    ensures var (m', changed) := RunPass(m, v).value;
      var lifetime, fshl := FamilyDecls(m.decls, Lifetime), FamilyDecls(m.decls, Fshl);
      var memset, memcpy := FamilyDecls(m.decls, Memset), FamilyDecls(m.decls, Memcpy);
      && WellFormed(m')
      && FamilyDecls(m'.decls, Lifetime) == {} && FamilyDecls(m'.decls, Fshl) == {}
      && FamilyDecls(m'.decls, Memset) == memset && FamilyDecls(m'.decls, Memcpy) == memcpy
      && NoCallsOf(m', Memset) && NoCallsOf(m', Memcpy)
      && (forall q | q <= DeclIds(m.decls) ::
            CallsTo(m'.body, q) == CallsTo(m.body, q) - CallsTo(m.body, lifetime + fshl + memset + memcpy))
      && (changed <==> lifetime != {} || CallsTo(m.body, fshl) != {})
  {
    var (m1, c1) := RemoveLifetimes(m);
    var (m2, c2) := ReplaceFshl(m1).value;
    var (m3, c3) := ReplaceMemset(m2, v).value;
    var (m4, c4) := ReplaceMemcpy(m3, v).value;
    assert RunPass(m, v) == Success((m4, (c1 || c2) || c3 || c4));
    LifetimeThenFshl(m);
    ReplaceMemsetFacts(m2, v);
    ReplaceMemcpyFacts(m3, v);
    StagesCompose(m, m2, c1 || c2, m3, c3, m4, c4);
  }

  /** The pass is idempotent: run again on a module it has legalized, it finds nothing
      to rewrite, leaves the module as it is and reports no change. */
  lemma RunPassIdempotent(m: Module, v: Variant)
    requires WellFormed(m) && RunPass(m, v).Success?
    ensures RunPass(RunPass(m, v).value.0, v) == Success((RunPass(m, v).value.0, false))
  {
    RunPassFacts(m, v);
    LegalizedQuiet(RunPass(m, v).value.0, v);
  }

  /** A well-formed module without lifetime or llvm.fshl declarations and without calls
      to llvm.memset or llvm.memcpy is a fixed point of the pass. */
  lemma LegalizedQuiet(m: Module, v: Variant)
    requires WellFormed(m)
    requires FamilyDecls(m.decls, Lifetime) == {} && FamilyDecls(m.decls, Fshl) == {}
    requires NoCallsOf(m, Memset) && NoCallsOf(m, Memcpy)
    ensures RunPass(m, v) == Success((m, false))
  {
    NoDeclsOf(m.decls, Lifetime);
    NoDeclsOf(m.decls, Fshl);
    assert RemoveLifetimes(m) == (m, false);
    assert ReplaceFshl(m) == Success((m, false));
    DeclsOfFamily(m.decls, Memset);
    MemsetDeclsQuiet(m, DeclsOf(m.decls, Memset), v);
    DeclsOfFamily(m.decls, Memcpy);
    MemcpyDeclsQuiet(m, DeclsOf(m.decls, Memcpy), v);
  }

  lemma NoDeclsOf(decls: seq<Decl>, f: Family)
    requires DeclsDistinct(decls) && FamilyDecls(decls, f) == {}
    ensures DeclsOf(decls, f) == []
  {
    DeclsOfFamily(decls, f);
  }

  /** The four stages put together, each given by what it changes. */
  lemma StagesCompose(m: Module, m2: Module, c12: bool, m3: Module, c3: bool, m4: Module, c4: bool)
    requires WellFormed(m)
    requires var lifetime, fshl := FamilyDecls(m.decls, Lifetime), FamilyDecls(m.decls, Fshl);
      && m2.nextDecl == m.nextDecl
      && FamilyDecls(m2.decls, Lifetime) == {} && FamilyDecls(m2.decls, Fshl) == {}
      && FamilyDecls(m2.decls, Memset) == FamilyDecls(m.decls, Memset)
      && FamilyDecls(m2.decls, Memcpy) == FamilyDecls(m.decls, Memcpy)
      && (forall q :: CallsTo(m2.body, q) == CallsTo(m.body, q) - CallsTo(m.body, lifetime + fshl))
      && (c12 <==> lifetime != {} || CallsTo(m.body, fshl) != {})
    requires var memset := FamilyDecls(m2.decls, Memset);
      && m3.decls == m2.decls && m3.nextDecl == m2.nextDecl
      && (forall q :: CallsTo(m3.body, q) == CallsTo(m2.body, q) - CallsTo(m2.body, memset))
      && !c3
    requires var memcpy := FamilyDecls(m3.decls, Memcpy);
      var added := Fresh(m3.nextDecl, m4.nextDecl);
      && WellFormed(m4)
      && (forall f :: FamilyDecls(m4.decls, f) == FamilyDecls(m3.decls, f) + (if f == CopyMemory then added else {}))
      && (forall q | q !! added :: CallsTo(m4.body, q) == CallsTo(m3.body, q) - CallsTo(m3.body, memcpy))
      && NoCallsOf(m4, Memcpy)
      && !c4
    ensures var lifetime, fshl := FamilyDecls(m.decls, Lifetime), FamilyDecls(m.decls, Fshl);
      var memset, memcpy := FamilyDecls(m.decls, Memset), FamilyDecls(m.decls, Memcpy);
      && FamilyDecls(m4.decls, Lifetime) == {} && FamilyDecls(m4.decls, Fshl) == {}
      && FamilyDecls(m4.decls, Memset) == memset && FamilyDecls(m4.decls, Memcpy) == memcpy
      && NoCallsOf(m4, Memset)
      && (forall q | q <= DeclIds(m.decls) ::
            CallsTo(m4.body, q) == CallsTo(m.body, q) - CallsTo(m.body, lifetime + fshl + memset + memcpy))
      && (c12 || c3 || c4 <==> lifetime != {} || CallsTo(m.body, fshl) != {})
  {
    var lifetime, fshl := FamilyDecls(m.decls, Lifetime), FamilyDecls(m.decls, Fshl);
    var memset, memcpy := FamilyDecls(m.decls, Memset), FamilyDecls(m.decls, Memcpy);
    var added := Fresh(m3.nextDecl, m4.nextDecl);
    CallsThen(m.body, m2.body, m3.body, lifetime + fshl, memset);
    CallsThenAdded(m.body, m3.body, m4.body, lifetime + fshl + memset, memcpy, added);
    FamiliesCompose(m, m2, m3, m4);
    forall q | q <= DeclIds(m.decls)
      ensures q !! added
    {
      OldDeclsNotAdded(m, q, m3.nextDecl, m4.nextDecl);
    }
    assert memset <= DeclIds(m.decls);
  }

  /** The declaration families after the four stages: only CopyMemory gains any. */
  lemma FamiliesCompose(m: Module, m2: Module, m3: Module, m4: Module)
    requires FamilyDecls(m2.decls, Lifetime) == {} && FamilyDecls(m2.decls, Fshl) == {}
    requires FamilyDecls(m2.decls, Memset) == FamilyDecls(m.decls, Memset)
    requires FamilyDecls(m2.decls, Memcpy) == FamilyDecls(m.decls, Memcpy)
    requires m3.decls == m2.decls
    requires var added := Fresh(m3.nextDecl, m4.nextDecl);
      forall f :: FamilyDecls(m4.decls, f) == FamilyDecls(m3.decls, f) + (if f == CopyMemory then added else {})
    ensures FamilyDecls(m4.decls, Lifetime) == {} && FamilyDecls(m4.decls, Fshl) == {}
    ensures FamilyDecls(m4.decls, Memset) == FamilyDecls(m.decls, Memset)
    ensures FamilyDecls(m4.decls, Memcpy) == FamilyDecls(m.decls, Memcpy)
  {
    assert FamilyDecls(m4.decls, Lifetime) == {} + {};
    assert FamilyDecls(m4.decls, Fshl) == {} + {};
    assert FamilyDecls(m4.decls, Memset) == FamilyDecls(m3.decls, Memset) + {};
    assert FamilyDecls(m4.decls, Memcpy) == FamilyDecls(m3.decls, Memcpy) + {};
  }

  /** The first two stages: lifetime declarations and llvm.fshl declarations are gone,
      with their calls, and the flag says whether there was either. */
  lemma LifetimeThenFshl(m: Module)
    requires WellFormed(m) && ReplaceFshl(RemoveLifetimes(m).0).Success?
    ensures var (m1, c1) := RemoveLifetimes(m);
      var (m2, c2) := ReplaceFshl(m1).value;
      var lifetime, fshl := FamilyDecls(m.decls, Lifetime), FamilyDecls(m.decls, Fshl);
      && WellFormed(m2) && m2.nextDecl == m.nextDecl
      && FamilyDecls(m2.decls, Lifetime) == {} && FamilyDecls(m2.decls, Fshl) == {}
      && FamilyDecls(m2.decls, Memset) == FamilyDecls(m.decls, Memset)
      && FamilyDecls(m2.decls, Memcpy) == FamilyDecls(m.decls, Memcpy)
      && (forall q :: CallsTo(m2.body, q) == CallsTo(m.body, q) - CallsTo(m.body, lifetime + fshl))
      && (c1 || c2 <==> lifetime != {} || CallsTo(m.body, fshl) != {})
  {
    var lifetime, fshl := FamilyDecls(m.decls, Lifetime), FamilyDecls(m.decls, Fshl);
    var (m1, c1) := RemoveLifetimes(m);
    RemoveLifetimesFacts(m);
    assert FamilyDecls(m1.decls, Fshl) == fshl;
    ReplaceFshlFacts(m1);
    CallsThen(m.body, m1.body, ReplaceFshl(m1).value.0.body, lifetime, fshl);
    if lifetime == {} {
      CallsToOnlyCallees(m.body, {});
    }
  }

  /** Erasing the calls to l and then those to f is erasing the calls to l + f. */
  lemma CallsThen(b: seq<Entry>, b1: seq<Entry>, b2: seq<Entry>, l: set<DeclId>, f: set<DeclId>)
    requires forall q :: CallsTo(b1, q) == CallsTo(b, q) - CallsTo(b, l)
    requires forall q :: CallsTo(b2, q) == CallsTo(b1, q) - CallsTo(b1, f)
    ensures forall q :: CallsTo(b2, q) == CallsTo(b, q) - CallsTo(b, l + f)
  {
    CallsToUnion(b, l, f);
    assert CallsTo(b1, f) == CallsTo(b, f) - CallsTo(b, l);
    forall q
      ensures CallsTo(b2, q) == CallsTo(b, q) - (CallsTo(b, l) + CallsTo(b, f))
    {
      assert CallsTo(b1, q) == CallsTo(b, q) - CallsTo(b, l);
    }
  }

  /** As CallsThen, where the second step speaks only of calls to declarations other
      than those it adds. */
  lemma CallsThenAdded(b: seq<Entry>, b1: seq<Entry>, b2: seq<Entry>, l: set<DeclId>, f: set<DeclId>,
                       added: set<DeclId>)
    requires forall q :: CallsTo(b1, q) == CallsTo(b, q) - CallsTo(b, l)
    requires forall q | q !! added :: CallsTo(b2, q) == CallsTo(b1, q) - CallsTo(b1, f)
    ensures forall q | q !! added :: CallsTo(b2, q) == CallsTo(b, q) - CallsTo(b, l + f)
  {
    CallsToUnion(b, l, f);
    assert CallsTo(b1, f) == CallsTo(b, f) - CallsTo(b, l);
    forall q | q !! added
      ensures CallsTo(b2, q) == CallsTo(b, q) - (CallsTo(b, l) + CallsTo(b, f))
    {
      assert CallsTo(b1, q) == CallsTo(b, q) - CallsTo(b, l);
    }
  }

  /** A declaration of a well-formed module is below its counter, so it is none of the
      declarations added from there on. */
  lemma OldDeclsNotAdded(m: Module, q: set<DeclId>, lo: nat, hi: nat)
    requires WellFormed(m) && q <= DeclIds(m.decls) && m.nextDecl <= lo
    ensures q !! Fresh(lo, hi)
  {
  }

  /** The module being rewritten. */
  class IRModule {
    var decls: seq<Decl>
    var body: seq<Entry>
    var nextId: nat
    var nextDecl: nat

    function Value(): Module
      reads this
    {
      Module(decls, body, nextId, nextDecl)
    }

    constructor (m: Module)
      ensures Value() == m
    {
      decls, body, nextId, nextDecl := m.decls, m.body, m.nextId, m.nextDecl;
    }

    /** removeLifetimeDeclarations: a worklist of the lifetime declarations; for each,
        the flag is set, a snapshot of its call users is erased one by one, and then the
        declaration is erased. */
    method RemoveLifetimeDeclarations() returns (changed: bool)
      modifies this
      ensures (Value(), changed) == RemoveLifetimes(old(Value()))
    {
      ghost var m0 := Value();
      var worklist := DeclsOf(decls, Lifetime);
      changed := false;
      var i := 0;
      while i < |worklist|
        invariant 0 <= i <= |worklist|
        invariant Value() == LifetimeDecls(m0, worklist[..i])
        invariant changed <==> i > 0
      {
        var d := worklist[i];
        ghost var mi := Value();
        changed := true;
        var users := CallIds(body, d);
        EraseNothing(body, {});
        var j := 0;
        assert SetOf(users[..0]) == {};
        while j < |users|
          invariant 0 <= j <= |users|
          invariant Value() == mi.(body := EraseSet(mi.body, SetOf(users[..j])))
        {
          UsersNext(mi.body, users, j);
          body := Erase(body, users[j]);
          j := j + 1;
        }
        assert users[..|users|] == users;
        decls := EraseDecl(decls, d);
        LifetimeDeclsNext(m0, worklist, i, mi);
        i := i + 1;
      }
      assert worklist[..|worklist|] == worklist;
    }

    /** replaceFshl: a worklist of the llvm.fshl declarations, each lowered in turn. */
    method ReplaceFshl() returns (r: Result<bool, Fatal>)
      modifies this
      ensures r.Success? ==> FshlLowering.ReplaceFshl(old(Value())) == Success((Value(), r.value))
      ensures r.Failure? ==> FshlLowering.ReplaceFshl(old(Value())) == Failure(r.error)
    {
      ghost var m0 := Value();
      var intrinsics := DeclsOf(decls, Fshl);
      var changed := false;
      var i := 0;
      while i < |intrinsics|
        invariant 0 <= i <= |intrinsics|
        invariant FshlDecls(m0, intrinsics[..i]) == Success((Value(), changed))
      {
        FshlDeclsNext(m0, intrinsics, i, Value(), changed);
        var one := ReplaceFshlDecl(intrinsics[i]);
        if one.Failure? {
          FshlDeclsStop(m0, intrinsics, i + 1);
          return Failure(one.error);
        }
        changed := changed || one.value;
        i := i + 1;
      }
      assert intrinsics[..|intrinsics|] == intrinsics;
      r := Success(changed);
    }

    /** One llvm.fshl declaration: a snapshot of its call sites is rewritten one by one,
        the flag is set by each rewritten call, and then the declaration is erased. */
    method ReplaceFshlDecl(d: DeclId) returns (r: Result<bool, Fatal>)
      modifies this
      ensures r.Success? ==> FshlDecl(old(Value()), d) == Success((Value(), r.value))
      ensures r.Failure? ==> FshlDecl(old(Value()), d) == Failure(r.error)
    {
      ghost var m0 := Value();
      var callsites := CallIds(body, d);
      var changed := false;
      var j := 0;
      while j < |callsites|
        invariant 0 <= j <= |callsites|
        invariant FshlCalls(m0, callsites[..j]) == Success(Value())
        invariant changed <==> j > 0
      {
        FshlCallsNext(m0, callsites, j, Value());
        var step := FshlCallStep(Value(), callsites[j]);
        if step.Failure? {
          FshlCallsStop(m0, callsites, j + 1);
          return Failure(step.error);
        }
        changed := true;
        body, nextId := step.value.body, step.value.nextId;
        j := j + 1;
      }
      assert callsites[..|callsites|] == callsites;
      decls := EraseDecl(decls, d);
      r := Success(changed);
    }

    /** replaceMemset: every llvm.memset declaration, each lowered in turn. The flag is
        never set. */
    method ReplaceMemset() returns (r: Result<bool, Fatal>)
      modifies this
      ensures r.Success? ==> MemsetLowering.ReplaceMemset(old(Value()), AsWritten) == Success((Value(), r.value))
      ensures r.Failure? ==> MemsetLowering.ReplaceMemset(old(Value()), AsWritten) == Failure(r.error)
    {
      ghost var m0 := Value();
      var ds := DeclsOf(decls, Memset);
      var i := 0;
      while i < |ds|
        invariant 0 <= i <= |ds|
        invariant MemsetDecls(m0, ds[..i], AsWritten) == Success(Value())
      {
        MemsetDeclsNext(m0, ds, i, Value(), AsWritten);
        var one := ReplaceMemsetDecl(ds[i]);
        if one.Failure? {
          MemsetDeclsStop(m0, ds, i + 1, AsWritten);
          return Failure(one.error);
        }
        i := i + 1;
      }
      assert ds[..|ds|] == ds;
      r := Success(false);
    }

    /** One llvm.memset declaration: every call site's fill value is checked first, then
        the call sites are replaced one by one. The declaration stays. */
    method ReplaceMemsetDecl(d: DeclId) returns (r: Result<(), Fatal>)
      modifies this
      ensures r.Success? ==> MemsetDecl(old(Value()), d, AsWritten) == Success(Value())
      ensures r.Failure? ==> MemsetDecl(old(Value()), d, AsWritten) == Failure(r.error)
    {
      ghost var m0 := Value();
      var callsToReplace := CallIds(body, d);
      var e := CheckFillValues(callsToReplace);
      if e.Some? {
        return Failure(e.value);
      }
      var j := 0;
      while j < |callsToReplace|
        invariant 0 <= j <= |callsToReplace|
        invariant MemsetCalls(m0, callsToReplace[..j], AsWritten) == Success(Value())
      {
        MemsetCallsNext(m0, callsToReplace, j, Value(), AsWritten);
        var step := ReplaceMemsetCall(callsToReplace[j]);
        if step.Failure? {
          MemsetCallsStop(m0, callsToReplace, j + 1, AsWritten);
          return Failure(step.error);
        }
        j := j + 1;
      }
      assert callsToReplace[..|callsToReplace|] == callsToReplace;
      r := Success(());
    }

    /** One llvm.memset call: planned, replaced by the stores the store loop emits, and
        the bitcast it looked through erased, which stops the pass if something else
        still uses it. */
    method ReplaceMemsetCall(c: Id) returns (r: Result<(), Fatal>)
      modifies this
      ensures r.Success? ==> MemsetCallStep(old(Value()), c, AsWritten) == Success(Value())
      ensures r.Failure? ==> MemsetCallStep(old(Value()), c, AsWritten) == Failure(r.error) && Value() == old(Value())
    {
      var plan := PlanStores(body, c);
      if plan.Failure? {
        return Failure(plan.error);
      }
      var p := plan.value;
      var stores := EmitZeroStores(p.base, p.elemTy, p.count, nextId);
      var spliced := SpliceCall(body, c, stores);
      if p.cast.Some? {
        if p.cast.value in Refs(spliced) {
          return Failure(ErasedWhileUsed);
        }
        spliced := Erase(spliced, p.cast.value);
      }
      body := spliced;
      nextId := nextId + |stores|;
      r := Success(());
    }

    /** The first phase of replaceMemset: the calls in order, the first bad fill value. */
    method CheckFillValues(cs: seq<Id>) returns (e: Option<Fatal>)
      ensures e == CheckFills(body, cs)
    {
      var j := 0;
      while j < |cs|
        invariant 0 <= j <= |cs|
        invariant CheckFills(body, cs) == CheckFills(body, cs[j..])
      {
        var bad := CheckFill(body, cs[j]);
        if bad.Some? {
          return bad;
        }
        assert cs[j..][1..] == cs[j + 1..];
        j := j + 1;
      }
      return None;
    }

    /** replaceMemcpy: every llvm.memcpy declaration, each lowered in turn. The flag is
        never set. */
    method ReplaceMemcpy() returns (r: Result<bool, Fatal>)
      modifies this
      ensures r.Success? ==> MemcpyLowering.ReplaceMemcpy(old(Value()), AsWritten) == Success((Value(), r.value))
      ensures r.Failure? ==> MemcpyLowering.ReplaceMemcpy(old(Value()), AsWritten) == Failure(r.error)
    {
      ghost var m0 := Value();
      var ds := DeclsOf(decls, Memcpy);
      var i := 0;
      while i < |ds|
        invariant 0 <= i <= |ds|
        invariant MemcpyDecls(m0, ds[..i], AsWritten) == Success(Value())
      {
        MemcpyDeclsNext(m0, ds, i, Value(), AsWritten);
        var one := ReplaceMemcpyDecl(ds[i]);
        if one.Failure? {
          MemcpyDeclsStop(m0, ds, i + 1, AsWritten);
          return Failure(one.error);
        }
        i := i + 1;
      }
      assert ds[..|ds|] == ds;
      r := Success(false);
    }

    /** One llvm.memcpy declaration: every call site is checked first; then each is
        replaced by copy-memory calls through a fresh declaration and its bitcasts are
        put in a set; once every call site is done, every collected bitcast is erased.
        The declaration stays. */
    method ReplaceMemcpyDecl(d: DeclId) returns (r: Result<(), Fatal>)
      modifies this
      ensures r.Success? ==> MemcpyDecl(old(Value()), d, AsWritten) == Success(Value())
      ensures r.Failure? ==> MemcpyDecl(old(Value()), d, AsWritten) == Failure(r.error)
    {
      var calls := CallIds(body, d);
      var e := CheckCopyCalls(calls);
      if e.Some? {
        return Failure(e.value);
      }
      var bitCastsToForget := RewriteCopyCalls(calls);
      if bitCastsToForget.Failure? {
        return Failure(bitCastsToForget.error);
      }
      r := DrainCasts(bitCastsToForget.value);
    }

    /** The second phase of replaceMemcpy: the calls in order, each replaced by its
        copies; the bitcasts to forget are collected along the way. */
    method RewriteCopyCalls(cs: seq<Id>) returns (r: Result<set<Id>, Fatal>)
      modifies this
      ensures r.Success? ==> MemcpyCalls(old(Value()), cs, AsWritten) == Success((Value(), r.value))
      ensures r.Failure? ==> MemcpyCalls(old(Value()), cs, AsWritten) == Failure(r.error)
    {
      ghost var m0 := Value();
      var bitCastsToForget: set<Id> := {};
      var j := 0;
      while j < |cs|
        invariant 0 <= j <= |cs|
        invariant MemcpyCalls(m0, cs[..j], AsWritten) == Success((Value(), bitCastsToForget))
      {
        MemcpyCallsNext(m0, cs, j, Value(), bitCastsToForget, AsWritten);
        var step := ReplaceMemcpyCall(cs[j]);
        if step.Failure? {
          MemcpyCallsStop(m0, cs, j + 1, AsWritten);
          return Failure(step.error);
        }
        bitCastsToForget := bitCastsToForget + step.value;
        j := j + 1;
      }
      assert cs[..|cs|] == cs;
      r := Success(bitCastsToForget);
    }

    /** One llvm.memcpy call: planned, a copy-memory function declared for it, and the
        call replaced by one copy of the whole or by the copies the element loop emits;
        the bitcasts it looked through are returned. */
    method ReplaceMemcpyCall(c: Id) returns (r: Result<set<Id>, Fatal>)
      modifies this
      ensures r.Success? ==> MemcpyCallStep(old(Value()), c, AsWritten) == Success((Value(), r.value))
      ensures r.Failure? ==> MemcpyCallStep(old(Value()), c, AsWritten) == Failure(r.error) && Value() == old(Value())
    {
      var plan := PlanCopy(body, c);
      if plan.Failure? {
        return Failure(plan.error);
      }
      var p := plan.value;
      var fn := nextDecl;
      decls, nextDecl := decls + [Decl(fn, CopyMemory)], nextDecl + 1;
      var copies;
      if SingleCopyAsWritten(p) {
        copies := WholeCopy(p, fn, nextId);
      } else {
        copies := EmitElementCopies(p, fn, nextId, p.count);
      }
      body := SpliceCall(body, c, copies);
      nextId := nextId + |copies|;
      r := Success(p.casts);
    }

    /** The first phase of replaceMemcpy: the calls in order, the first that has no plan. */
    method CheckCopyCalls(cs: seq<Id>) returns (e: Option<Fatal>)
      ensures e == CheckCopies(body, cs)
    {
      var j := 0;
      while j < |cs|
        invariant 0 <= j <= |cs|
        invariant CheckCopies(body, cs) == CheckCopies(body, cs[j..])
      {
        var plan := PlanCopy(body, cs[j]);
        if plan.Failure? {
          return Some(plan.error);
        }
        assert cs[j..][1..] == cs[j + 1..];
        j := j + 1;
      }
      return None;
    }

    /** Erase the collected bitcasts one at a time, in ascending id order; erasing one
        that is still in use stops the pass. */
    method DrainCasts(toForget: set<Id>) returns (r: Result<(), Fatal>)
      modifies this
      ensures r.Success? ==> ForgetCasts(old(body), toForget, old(nextId), AsWritten) == Success(body)
      ensures r.Success? ==> Value() == old(Value()).(body := body)
      ensures r.Failure? ==> ForgetCasts(old(body), toForget, old(nextId), AsWritten) == Failure(r.error)
    {
      ghost var b0 := body;
      var k := 0;
      while k < nextId
        invariant k <= nextId
        invariant EraseCasts(b0, toForget, 0, nextId) == EraseCasts(body, toForget, k, nextId)
        invariant Value() == old(Value()).(body := body)
      {
        if k in toForget {
          if k in Refs(body) {
            return Failure(ErasedWhileUsed);
          }
          body := Erase(body, k);
        }
        k := k + 1;
      }
      r := Success(());
    }

    /** runOnModule: the four stages in order, their flags or-ed. */
    method RunOnModule() returns (r: Result<bool, Fatal>)
      modifies this
      ensures r.Success? ==> RunPass(old(Value()), AsWritten) == Success((Value(), r.value))
      ensures r.Failure? ==> RunPass(old(Value()), AsWritten) == Failure(r.error)
    {
      var changed := RemoveLifetimeDeclarations();
      var fshl := ReplaceFshl();
      if fshl.Failure? {
        return Failure(fshl.error);
      }
      changed := changed || fshl.value;
      var memset := ReplaceMemset();
      if memset.Failure? {
        return Failure(memset.error);
      }
      changed := changed || memset.value;
      var memcpy := ReplaceMemcpy();
      if memcpy.Failure? {
        return Failure(memcpy.error);
      }
      changed := changed || memcpy.value;
      r := Success(changed);
    }
  }
}
