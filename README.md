# A model of clspv's ReplaceLLVMIntrinsicsPass

`ReplaceLLVMIntrinsicsPass` is an LLVM module pass in the clspv OpenCL-to-Vulkan
compiler. It rewrites four intrinsic families into forms the SPIR-V back end accepts:

- it removes the `llvm.lifetime.*` markers;
- it lowers `llvm.fshl` to `and`/`sub`/`shl`/`lshr`/`or`;
- it lowers a zero `llvm.memset` to zero stores, one per element of the destination;
- it lowers `llvm.memcpy` to calls of the SPIR-V copy-memory builtin. The source and
  destination pointee types are first matched to one element type (`match_types` and
  `descend_type`).

This project models that pass in Dafny and proves what each rewrite does.

- **IR** models a module as its declarations and one sequence of instructions in program
  order, each with a stable id. Operands refer to results by id. `WellFormed` says that:
  - ids are unique;
  - every use refers to an instruction that exists;
  - nothing uses a call that produces no value;
  - every call calls a declared function.

  The edit primitives are insert-before, erase, and replace-all-uses. Each comes with
  lemmas saying what it does to ids, uses, calls and lookups.
- **Types** models LLVM types and the data-layout queries the pass makes, plus
  `descend_type`. **MatchTypes** models `match_types`, as functions and as the
  two-loop method.
- **Funnel** gives lane semantics for the five integer instructions, including poison
  for shifts of the full width or more. It defines `llvm.fshl` and proves that the
  lowering computes it. It uses **Bits**, arithmetic on naturals standing for bit
  strings.
- **LifetimeRemoval**, **FshlLowering**, **MemsetLowering** and **MemcpyLowering** each
  model one rewrite. Each has three levels:
  - a function that rewrites one call site;
  - a fold of that step over a snapshot of the call sites;
  - a fold over the declarations of the family.

  Lemmas state what each level keeps and changes. Memset and memcpy also get a small
  byte-level semantics, which shows which bytes the emitted instructions write or copy.
- **Pass** composes the four stages (`runOnModule`). It also holds the class `IRModule`,
  whose methods edit the module in place with the source's worklists and loops. Each
  method is proved equal to the function it implements.

The memset and memcpy stages take a `Variant`. `AsWritten` is what the code does, and
`Corrected` repairs the four defects listed under Findings. The class `IRModule` runs
the code as written: `RunOnModule` is proved equal to `RunPass(m, AsWritten)`. Every
stage-level and pass-level lemma holds for both variants, and the Findings lemmas show
where the two differ.

Fatal `assert`s and `llvm_unreachable` become `Failure(Fatal)` results, and so do the
casts and divisions that would fail. Erasing an instruction that still has a use is the
`ErasedWhileUsed` failure. A failure stops the pass.

## Model

| member | source | states |
|---|---|---|
| Pass.IRModule.RunOnModule | lib/ReplaceLLVMIntrinsicsPass.cpp:56-67 | the four stages run in order lifetime, fshl, memset, memcpy and the flags are or-ed; the first fatal error is the result; the new state is RunPass of the old module, as written |
| Pass.RunPassFacts | lib/ReplaceLLVMIntrinsicsPass.cpp:56-67 | see below this table |
| Pass.RunPassIdempotent | lib/ReplaceLLVMIntrinsicsPass.cpp:56-67 | as written and corrected, running the pass on its own output succeeds, changes nothing and reports no change |
| Pass.LegalizedQuiet | lib/ReplaceLLVMIntrinsicsPass.cpp:56-67 | a module with no lifetime or fshl declaration and no memset or memcpy call is a fixed point, with flag false, for either variant |
| Pass.StagesCompose | lib/ReplaceLLVMIntrinsicsPass.cpp:61-64 | what each stage changes, composed in the source's order, gives the end-to-end change; the memset and memcpy flags add nothing |
| Pass.LifetimeThenFshl | lib/ReplaceLLVMIntrinsicsPass.cpp:61-62 | after the first two stages, lifetime and fshl declarations and their calls are gone; the memset and memcpy declarations are as they were; the flag is "a lifetime declaration or an fshl call existed" |
| Pass.IRModule.RemoveLifetimeDeclarations | lib/ReplaceLLVMIntrinsicsPass.cpp:424-449 | the worklist loop over lifetime declarations, with its snapshot of users erased one by one and then the declaration, yields exactly RemoveLifetimes of the old module and its flag |
| LifetimeRemoval.RemoveLifetimesFacts | lib/ReplaceLLVMIntrinsicsPass.cpp:424-449 | see below this table |
| LifetimeRemoval.LifetimeDeclFacts | lib/ReplaceLLVMIntrinsicsPass.cpp:437-447 | one declaration: exactly its calls and itself are erased; every other instruction and declaration is unchanged |
| LifetimeRemoval.LifetimeDeclsFacts | lib/ReplaceLLVMIntrinsicsPass.cpp:437-447 | over a list of distinct lifetime declarations, all of them and all their calls are gone, and nothing else changes |
| LifetimeRemoval.LifetimeFlag | lib/ReplaceLLVMIntrinsicsPass.cpp:430-438 | the worklist is non-empty exactly when a lifetime declaration exists |
| LifetimeRemoval.EraseSetSnoc | lib/ReplaceLLVMIntrinsicsPass.cpp:439-445 | erasing the snapshotted users one at a time is erasing them as a set |
| Pass.IRModule.ReplaceFshl | lib/ReplaceLLVMIntrinsicsPass.cpp:69-137 | the loop over the fshl declarations yields ReplaceFshl of the old module, including its flag or its first fatal error |
| Pass.IRModule.ReplaceFshlDecl | lib/ReplaceLLVMIntrinsicsPass.cpp:80-133 | the loop over one declaration's snapshot of call sites, then erasing the declaration, yields FshlDecl; the flag is set once a call site is rewritten |
| FshlLowering.ReplaceFshlFacts | lib/ReplaceLLVMIntrinsicsPass.cpp:69-137 | see below this table |
| FshlLowering.FshlDeclFacts | lib/ReplaceLLVMIntrinsicsPass.cpp:80-133 | one declaration: it and all its calls are gone; other families and calls are unchanged; the flag is "it had a call" |
| FshlLowering.FshlDeclsFacts | lib/ReplaceLLVMIntrinsicsPass.cpp:80-134 | the same over a list of declarations |
| FshlLowering.FshlCallsFacts | lib/ReplaceLLVMIntrinsicsPass.cpp:89-131 | rewriting a snapshot of distinct call sites removes exactly those calls and keeps the module well formed |
| FshlLowering.FshlCallStepFacts | lib/ReplaceLLVMIntrinsicsPass.cpp:90-131 | one call site: the module stays well formed, the declarations are unchanged, and exactly that call is gone (so no use of it is left) |
| FshlLowering.FshlCallsStop | lib/ReplaceLLVMIntrinsicsPass.cpp:90-131 | the loop over a snapshot of call sites stops at its first fatal error: once a prefix of the calls fails, the whole loop fails with that error (the width check that raises it is FshlCallStepChecks, the first failing call FshlCallsOutcome) |
| FshlLowering.FshlCallStepChecks | lib/ReplaceLLVMIntrinsicsPass.cpp:91-103 | one call site fails exactly when it lacks three operands or its first operand's scalar width is not 8, 16, 32 or 64; an unsupported width gives InvalidFshlWidth |
| FshlLowering.FshlCallsOutcome | lib/ReplaceLLVMIntrinsicsPass.cpp:90-131 | a snapshot of call sites fails exactly when one of them, as it was before the rewrite, is invalid, and then with that call's error |
| FshlLowering.FshlDeclOutcome | lib/ReplaceLLVMIntrinsicsPass.cpp:80-133 | one declaration fails exactly when one of its calls is invalid, with that call's error |
| FshlLowering.FshlDeclsOutcome | lib/ReplaceLLVMIntrinsicsPass.cpp:80-134 | a list of declarations fails exactly when a call to one of them is invalid, with that call's error |
| FshlLowering.ReplaceFshlOutcome | lib/ReplaceLLVMIntrinsicsPass.cpp:69-137 | replaceFshl stops exactly when some llvm.fshl call has an unsupported width or too few operands; the error is that of such a call |
| FshlLowering.FshlDeclsStepOutcome | lib/ReplaceLLVMIntrinsicsPass.cpp:80-133 | after earlier declarations, the calls of the next one are old calls not yet rewritten, with the shape, and so the validity, they had at the start |
| FshlLowering.FshlDeclsStop | lib/ReplaceLLVMIntrinsicsPass.cpp:80-134 | the loop over the fshl declarations stops at its first fatal error: once a prefix of the declarations fails, the stage's result is that error |
| FshlLowering.ExpansionShape | lib/ReplaceLLVMIntrinsicsPass.cpp:110-126 | the five new instructions have fresh distinct ids, use only the three operands and each other, and call nothing |
| FshlLowering.ExpansionComputes | lib/ReplaceLLVMIntrinsicsPass.cpp:110-126 | evaluated after the operands, the `or` holds the lowered lane value of the operands |
| FshlLowering.ExpansionCorrect | lib/ReplaceLLVMIntrinsicsPass.cpp:107-129 | what every redirected use sees: llvm.fshl(hi, lo, shift) when shift mod w != 0; poison when shift mod w == 0, where llvm.fshl gives hi |
| Rewrite.SpliceFindOld | lib/ReplaceLLVMIntrinsicsPass.cpp:129-130 | after the splice, every other old instruction is as before, with uses of the call redirected to the result |
| Rewrite.SpliceWellFormed | lib/ReplaceLLVMIntrinsicsPass.cpp:125-130 | inserting fresh instructions before a call, redirecting its uses and erasing it keeps the module well formed |
| Funnel.ShiftAmountsInRange | lib/ReplaceLLVMIntrinsicsPass.cpp:110-118 | shift_amount = shift mod w < w; down_amount = w - shift_amount lies in 1..w, and equals w exactly when shift mod w == 0 |
| Funnel.FshlLoweredCorrect | lib/ReplaceLLVMIntrinsicsPass.cpp:107-126 | for shift mod w != 0 the lowering equals the top w bits of ((hi << w) + lo) << (shift mod w) |
| Funnel.FshlZeroShiftIsPoison | lib/ReplaceLLVMIntrinsicsPass.cpp:115-124 | for shift mod w == 0 the `lshr` shifts by the full width, so the lowered value is poison; llvm.fshl itself gives hi |
| Funnel.LoweredHalves | lib/ReplaceLLVMIntrinsicsPass.cpp:120-126 | for shift mod w != 0 the lowering is the or of lo >> (w - s) and hi << s truncated to w bits |
| Funnel.EvalBinaryInRange | lib/ReplaceLLVMIntrinsicsPass.cpp:112-126 | and/sub/shl/lshr/or keep lanes within w bits; a shift is poison exactly when its amount is w or more |
| Funnel.FshlExample | lib/ReplaceLLVMIntrinsicsPass.cpp:107-126 | on 8 bits, fshl(0b10110011, 0b01010101, 3) lowers to 0b10011010 |
| Pass.IRModule.ReplaceMemset | lib/ReplaceLLVMIntrinsicsPass.cpp:139-204 | the loop over the memset declarations yields ReplaceMemset of the old module, with flag false |
| Pass.IRModule.ReplaceMemsetDecl | lib/ReplaceLLVMIntrinsicsPass.cpp:143-200 | fill values are checked for all call sites first, then each call site is replaced; the declaration stays |
| Pass.IRModule.CheckFillValues | lib/ReplaceLLVMIntrinsicsPass.cpp:145-161 | the check loop returns the error of the first call site whose fill is not the constant 0 |
| Pass.IRModule.ReplaceMemsetCall | lib/ReplaceLLVMIntrinsicsPass.cpp:163-199 | the plan, the emitted stores and the erasure of the unwrapped bitcast, which stops when the bitcast is still used, yield MemsetCallStep as written; a failure changes nothing |
| MemsetLowering.CheckFill | lib/ReplaceLLVMIntrinsicsPass.cpp:149-157 | no error exactly when the fill operand is the constant integer 0 |
| MemsetLowering.CheckFillsAll | lib/ReplaceLLVMIntrinsicsPass.cpp:145-161 | phase one passes exactly when every call site fills with 0; otherwise the error is that of the first call site that does not |
| MemsetLowering.MemsetDeclChecksFirst | lib/ReplaceLLVMIntrinsicsPass.cpp:143-163 | success implies every call fills with 0; a call with a non-zero fill fails the declaration, with the error of one of its calls |
| MemsetLowering.PlanStores | lib/ReplaceLLVMIntrinsicsPass.cpp:164-178 | an accepted call has a constant length equal to count × AllocSize(element); count < 2^32; the pointer is the destination with at most one bitcast instruction looked through |
| MemsetLowering.StripCastFacts | lib/ReplaceLLVMIntrinsicsPass.cpp:164-168 | the unwrapped pointer is already used by the module; the bitcast looked through is a bitcast instruction of the module |
| MemsetLowering.PlanStoresRejects | lib/ReplaceLLVMIntrinsicsPass.cpp:175-178 | a length that is not a multiple of the element size fails; so does 2^32 or more elements; otherwise the plan succeeds |
| MemsetLowering.EmitZeroStores | lib/ReplaceLLVMIntrinsicsPass.cpp:180-192 | the first store and then the store loop, chaining one-element geps from the base pointer, emit ZeroStores of StoreCount(n, AsWritten) elements: one when n is 0, else n |
| MemsetLowering.ZeroStoresCover | lib/ReplaceLLVMIntrinsicsPass.cpp:170-192 | run from the destination at address a, the stores write exactly bytes a .. a + NumBytes - 1, each storing the element's null value |
| MemsetLowering.MemsetExample | lib/ReplaceLLVMIntrinsicsPass.cpp:170-192 | 8 bytes of i16: 4 stores at even positions with geps between them, together writing exactly the 8 bytes |
| MemsetLowering.ZeroStoresShape | lib/ReplaceLLVMIntrinsicsPass.cpp:180-192 | the stores have fresh consecutive ids, use only the base pointer and their own geps, and call nothing |
| MemsetLowering.ZeroLengthMemsetWrites | lib/ReplaceLLVMIntrinsicsPass.cpp:180-192 | as written, a memset of 0 bytes still writes one whole element |
| MemsetLowering.EraseCast | lib/ReplaceLLVMIntrinsicsPass.cpp:196-198 | erasing the bitcast fails exactly when, as written, the call looked through one that is still used, with ErasedWhileUsed; otherwise the result is the corrected DropCast |
| MemsetLowering.SharedCastFails | lib/ReplaceLLVMIntrinsicsPass.cpp:163-198 | as written, a call whose bitcast another instruction also uses stops the pass with ErasedWhileUsed; corrected, it is rewritten, the module stays well formed and the bitcast stays |
| MemsetLowering.DropCastClosed | lib/ReplaceLLVMIntrinsicsPass.cpp:196-198 | the corrected erasure, only when the bitcast is unused, leaves no dangling use |
| MemsetLowering.MemsetCallStepFacts | lib/ReplaceLLVMIntrinsicsPass.cpp:163-199 | one call site, either variant: the module stays well formed, the declarations are unchanged, exactly that call is gone; every other old instruction is unchanged, except that the bitcast the call's plan looked through may be erased, and nothing else may |
| MemsetLowering.MemsetCallsFacts | lib/ReplaceLLVMIntrinsicsPass.cpp:163-199 | a snapshot of distinct call sites: exactly those calls are gone; every other old instruction is unchanged, except the bitcasts their plans looked through, which alone may be erased |
| MemsetLowering.MemsetDeclFacts | lib/ReplaceLLVMIntrinsicsPass.cpp:143-200 | one declaration: all its calls are gone, it stays declared, every other call is unchanged; every other old instruction is unchanged, except the bitcasts its calls' plans looked through, which alone may be erased |
| MemsetLowering.MemsetDeclsFacts | lib/ReplaceLLVMIntrinsicsPass.cpp:143-200 | the same over a list of memset declarations |
| MemsetLowering.ReplaceMemsetFacts | lib/ReplaceLLVMIntrinsicsPass.cpp:139-204 | replaceMemset leaves a well-formed module with the same declarations, no memset call and every other call; every other old instruction is unchanged, except the bitcasts the memset plans looked through, which alone may be erased; it reports no change |
| MemsetLowering.ReplaceMemsetKeeps | lib/ReplaceLLVMIntrinsicsPass.cpp:139-204 | an old instruction that is neither a memset call nor a bitcast some memset call's plan looked through is still there, unchanged, after replaceMemset |
| MemsetLowering.PlanStoresStays | lib/ReplaceLLVMIntrinsicsPass.cpp:163-178 | a call not yet rewritten is checked and planned exactly as in the original module |
| MemsetLowering.MemsetCallsOutcome | lib/ReplaceLLVMIntrinsicsPass.cpp:163-199 | a call whose stores cannot be planned stops the call sites; corrected, nothing else does; the error is such a call's or, as written, ErasedWhileUsed |
| MemsetLowering.MemsetDeclOutcome | lib/ReplaceLLVMIntrinsicsPass.cpp:143-200 | one declaration fails if one of its calls has a non-zero fill or a length of no whole number of stores below 2^32; corrected, only then; the error is such a call's or, as written, ErasedWhileUsed |
| MemsetLowering.MemsetDeclsOutcome | lib/ReplaceLLVMIntrinsicsPass.cpp:143-200 | the same over a list of memset declarations |
| MemsetLowering.ReplaceMemsetOutcome | lib/ReplaceLLVMIntrinsicsPass.cpp:139-204 | replaceMemset fails if some memset call is rejected (UnevenMemset, TooManyStores, a non-zero fill, a malformed call); corrected, only then; the error is such a call's or, as written, ErasedWhileUsed |
| MemsetLowering.MemsetDeclsQuiet | lib/ReplaceLLVMIntrinsicsPass.cpp:143-200 | with no memset call left, the stage changes nothing |
| MemsetLowering.MemsetCallsStop | lib/ReplaceLLVMIntrinsicsPass.cpp:163-199 | the loop over a snapshot of call sites stops at its first fatal error (the checks at lines 175-178 abort): once a prefix of the calls fails, the whole loop fails with that error |
| MemsetLowering.MemsetDeclsStop | lib/ReplaceLLVMIntrinsicsPass.cpp:143-201 | the loop over the memset declarations stops at its first fatal error: once a prefix of the declarations fails, the stage's result is that error |
| Types.Descend | lib/ReplaceLLVMIntrinsicsPass.cpp:218-231 | defined exactly on a non-empty struct, an array or a vector, and it lowers the nesting depth |
| Types.DescendNBound | lib/ReplaceLLVMIntrinsicsPass.cpp:218-231 | at most Depth(t) descend steps succeed |
| Types.AllocSize | lib/ReplaceLLVMIntrinsicsPass.cpp:175 | the allocation size in bytes holds the type's bits, with less than one byte to spare |
| MatchTypes.Unify | lib/ReplaceLLVMIntrinsicsPass.cpp:233-247 | phase one ends on equal element types, each reached by exactly its counted descents; its only error is a type that cannot be descended |
| MatchTypes.Narrow | lib/ReplaceLLVMIntrinsicsPass.cpp:249-256 | phase two descends both sides the same number of times and stops with Size >= the element's bytes |
| MatchTypes.MatchSound | lib/ReplaceLLVMIntrinsicsPass.cpp:215-257 | match_types ends on one element type that both sides reach by exactly their counts, no larger than Size, so the equality check later at line 297 cannot fail |
| MatchTypes.MatchEqualTypes | lib/ReplaceLLVMIntrinsicsPass.cpp:233-256 | equal pointee types with Size at least one element need no descent |
| MatchTypes.MatchExample | lib/ReplaceLLVMIntrinsicsPass.cpp:215-257 | a 16-byte copy from i32 into [2 x [2 x i32]] descends the destination twice and the source never |
| MatchTypes.MatchTypesLoop | lib/ReplaceLLVMIntrinsicsPass.cpp:215-257 | the two loops updating the element types and counters in place compute Match |
| Pass.IRModule.ReplaceMemcpy | lib/ReplaceLLVMIntrinsicsPass.cpp:206-422 | the loop over the memcpy declarations yields ReplaceMemcpy of the old module, with flag false |
| Pass.IRModule.ReplaceMemcpyDecl | lib/ReplaceLLVMIntrinsicsPass.cpp:259-418 | all call sites are checked, then rewritten while collecting their bitcasts, then the collected bitcasts are erased; yields MemcpyDecl as written |
| Pass.IRModule.CheckCopyCalls | lib/ReplaceLLVMIntrinsicsPass.cpp:264-323 | the checking loop returns the error of the first call site without a plan |
| Pass.IRModule.RewriteCopyCalls | lib/ReplaceLLVMIntrinsicsPass.cpp:325-414 | the rewriting loop yields MemcpyCalls: the rewritten module and the union of the collected bitcasts |
| Pass.IRModule.ReplaceMemcpyCall | lib/ReplaceLLVMIntrinsicsPass.cpp:325-406 | plan, one fresh copy-memory declaration, and the whole copy (when neither side was unwrapped) or the element loop's copies, in place of the call, yield MemcpyCallStep as written; a failure changes nothing |
| Pass.IRModule.DrainCasts | lib/ReplaceLLVMIntrinsicsPass.cpp:415-417 | erasing the collected bitcasts one at a time yields EraseCasts: all of them erased, or ErasedWhileUsed at the first one still used |
| MemcpyLowering.PlanCopyAccepts | lib/ReplaceLLVMIntrinsicsPass.cpp:264-321 | see below this table |
| MemcpyLowering.PlanCopySound | lib/ReplaceLLVMIntrinsicsPass.cpp:293-303 | an accepted plan has equal element types reached by exactly the counted descents, and Size = count × element bytes with count >= 1 |
| MemcpyLowering.PlanCopyRejects | lib/ReplaceLLVMIntrinsicsPass.cpp:266-316 | a pointer argument that is not a bitcast fails, as do a size that is not a multiple of the element and an alignment below or not a multiple of the element's |
| MemcpyLowering.CheckCopiesAll | lib/ReplaceLLVMIntrinsicsPass.cpp:264-323 | phase one passes exactly when every call site has a plan |
| MemcpyLowering.CheckCopiesError | lib/ReplaceLLVMIntrinsicsPass.cpp:264-323 | a phase-one error is the plan error of one of the call sites |
| MemcpyLowering.MemcpyDeclChecksFirst | lib/ReplaceLLVMIntrinsicsPass.cpp:259-418 | a declaration succeeds only if every one of its calls has a plan, and corrected it then succeeds; its error is one call's plan error or, as written, ErasedWhileUsed with every plan accepted |
| MemcpyLowering.PlanCopyStays | lib/ReplaceLLVMIntrinsicsPass.cpp:335-344 | the plan phase two recomputes for a call equals the one phase one validated |
| MemcpyLowering.EmitElementCopies | lib/ReplaceLLVMIntrinsicsPass.cpp:359-402 | the element loop, overwriting the last index of both zero paths, emits exactly ElementCopies |
| MemcpyLowering.CopyEntryRefs | lib/ReplaceLLVMIntrinsicsPass.cpp:380-402 | the source gep uses Src, the destination gep uses Dst, and each call uses the two geps just before it |
| MemcpyLowering.CopiesShape | lib/ReplaceLLVMIntrinsicsPass.cpp:351-403 | either variant's copies have fresh consecutive ids, use only the two uncast pointers and their own geps, and call only the new declaration |
| MemcpyLowering.ElementCopiesRun | lib/ReplaceLLVMIntrinsicsPass.cpp:380-402 | n element copies from the start copy exactly the first n elements, byte by byte |
| MemcpyLowering.CopyEntriesCover | lib/ReplaceLLVMIntrinsicsPass.cpp:351-403 | the corrected copies replacing a memcpy copy exactly Size bytes, each destination byte from the source byte at the same offset |
| MemcpyLowering.CopyEntriesAsWrittenShort | lib/ReplaceLLVMIntrinsicsPass.cpp:351-357 | as written, with no descent and Size larger than one element, the single call copies only the first element; byte ElemBytes is not copied |
| MemcpyLowering.TwoIntCopyIsShort | lib/ReplaceLLVMIntrinsicsPass.cpp:351-357 | an 8-byte copy between i32 pointers cast to i8 pointers is accepted with no descent and 4-byte elements |
| MemcpyLowering.Fresh | lib/ReplaceLLVMIntrinsicsPass.cpp:355-356 | the declaration ids created from lo to hi, one per rewritten call |
| MemcpyLowering.MemcpyCallStepFacts | lib/ReplaceLLVMIntrinsicsPass.cpp:325-406 | one call site, either variant: the module stays well formed; one copy-memory declaration is new and only the new calls call it; exactly that call is gone; other old instructions are unchanged; the bitcasts returned are the plan's |
| MemcpyLowering.MemcpyCallsFacts | lib/ReplaceLLVMIntrinsicsPass.cpp:325-414 | a list of call sites with plans: every rewrite succeeds; one declaration per call; the other old instructions are unchanged; the collected bitcasts are still bitcast instructions |
| MemcpyLowering.MemcpyCallsFrame | lib/ReplaceLLVMIntrinsicsPass.cpp:325-414 | the same calls: the collected bitcasts are exactly those their plans looked through, and the rewrite keeps every other old instruction unchanged and erases none |
| MemcpyLowering.EraseCastsResult | lib/ReplaceLLVMIntrinsicsPass.cpp:415-417 | as written, the erasure either removes exactly the collected bitcasts or stops with ErasedWhileUsed |
| MemcpyLowering.EraseCastsUnused | lib/ReplaceLLVMIntrinsicsPass.cpp:415-417 | when nothing uses any collected bitcast, the erasure as written succeeds |
| MemcpyLowering.EraseCastsSharedFails | lib/ReplaceLLVMIntrinsicsPass.cpp:415-417 | as written, a collected bitcast used by an instruction that is not itself erased stops the erasure with ErasedWhileUsed |
| MemcpyLowering.ForgetCastsAgree | lib/ReplaceLLVMIntrinsicsPass.cpp:408-417 | when no collected bitcast is used any more, the erasure as written and the corrected one give the same module |
| MemcpyLowering.EraseCastsFacts | lib/ReplaceLLVMIntrinsicsPass.cpp:415-417 | a successful erasure as written keeps the module well formed and every call; it may erase only the collected bitcasts and keeps every other instruction unchanged |
| MemcpyLowering.ForgetCastsFacts | lib/ReplaceLLVMIntrinsicsPass.cpp:415-417 | the same for either variant of the erasure |
| MemcpyLowering.DropCastsFacts | lib/ReplaceLLVMIntrinsicsPass.cpp:415-417 | erasing the unused collected bitcasts keeps the module well formed and every call; it erases only collected bitcasts and keeps every other instruction unchanged |
| MemcpyLowering.DropCastsClosed | lib/ReplaceLLVMIntrinsicsPass.cpp:415-417 | the corrected drain leaves no dangling use and removes exactly the unused collected bitcasts |
| MemcpyLowering.MemcpyDeclSharedCastFails | lib/ReplaceLLVMIntrinsicsPass.cpp:325-417 | as written, a declaration whose call looked through a bitcast that another, non-bitcast instruction also uses stops with ErasedWhileUsed; corrected, it succeeds |
| MemcpyLowering.MemcpyDeclFacts | lib/ReplaceLLVMIntrinsicsPass.cpp:259-418 | one declaration: none of its calls is left; one copy-memory declaration per call; other declarations and calls are unchanged; every other old instruction is unchanged, except the bitcasts its calls' plans looked through, which alone may be erased |
| MemcpyLowering.MemcpyDeclsFacts | lib/ReplaceLLVMIntrinsicsPass.cpp:259-418 | the same over a list of memcpy declarations |
| MemcpyLowering.ReplaceMemcpyFacts | lib/ReplaceLLVMIntrinsicsPass.cpp:206-422 | see below this table |
| MemcpyLowering.ReplaceMemcpyKeeps | lib/ReplaceLLVMIntrinsicsPass.cpp:206-422 | an old instruction that is neither a memcpy call nor a bitcast some memcpy call's plan looked through is still there, unchanged, after replaceMemcpy |
| MemcpyLowering.MemcpyDeclsQuiet | lib/ReplaceLLVMIntrinsicsPass.cpp:259-418 | with no memcpy call left, the stage changes nothing |
| MemcpyLowering.MemcpyCallsStop | lib/ReplaceLLVMIntrinsicsPass.cpp:325-414 | the loop over a snapshot of call sites stops at its first fatal error: once a prefix of the calls fails, the whole loop fails with that error |
| MemcpyLowering.MemcpyDeclsStop | lib/ReplaceLLVMIntrinsicsPass.cpp:259-418 | the loop over the memcpy declarations stops at its first fatal error: once a prefix of the declarations fails, the stage's result is that error |

Rows that say "see below this table" state more than fits in a cell.

**Pass.RunPassFacts.** After a successful run, as written or corrected, the module is
well formed, and:

- no lifetime or fshl declaration is left;
- the memset and memcpy declarations stay;
- no memset or memcpy call is left;
- every call to any other old declaration stays;
- the flag is true iff a lifetime declaration or an fshl call existed.

**LifetimeRemoval.RemoveLifetimesFacts.** The module stays well formed, and:

- no lifetime declaration or call is left;
- every other instruction and declaration is as it was;
- the flag is true iff a lifetime declaration existed, even one with no call.

**FshlLowering.ReplaceFshlFacts.** The module stays well formed, and:

- no fshl declaration or call is left;
- every other declaration and call is unchanged;
- the flag is true iff some fshl call existed.

**MemcpyLowering.PlanCopyAccepts.** An accepted call has these properties:

- both pointer arguments are bitcasts of pointers;
- Size is a constant that is a multiple of the matched element;
- the alignment is at least the element's alignment and a multiple of it;
- the volatile flag is a constant;
- the plan's fields are these operands.

**MemcpyLowering.ReplaceMemcpyFacts.** For either variant, the module stays well formed,
and:

- no memcpy call is left;
- old declarations keep their families, and the new ones are copy-memory functions;
- every other old call stays;
- every old instruction other than the memcpy calls is unchanged, except the
  bitcasts the memcpy plans looked through, which alone may be erased;
- it reports no change.

## Notes on the code

- The lifetime and fshl declarations are erased (lines 446 and 133). The memset and
  memcpy declarations are kept, even when no call is left (lines 143-200 and 259-418).
  `MemsetLowering.ReplaceMemsetFacts` and `MemcpyLowering.ReplaceMemcpyFacts` say so.
- When shift mod w == 0, the fshl expansion is an unguarded `lshr` by w (lines
  115-124). In LLVM that is poison. `Funnel.FshlZeroShiftIsPoison` states it.
- Between consecutive memset stores, the code also emits a one-element gep (lines
  188-191). `MemsetLowering.MemsetExample` counts them.
- Phase two of match_types descends only while Size is smaller than the element
  (lines 249-256). `MatchTypes.Narrow` models that.
- The comment at lines 408-409 explains why the memcpy bitcasts are collected. One
  bitcast may feed several memcpy calls, so it is not erased until every call of the
  declaration is gone. The evident intent is to erase a bitcast only once nothing uses
  it. The memset loop erases its bitcast right after its call (lines 196-198), with no
  such deferral. The memcpy drain (lines 415-417) erases every collected bitcast,
  including one that an instruction other than those calls still uses.
- The first memset store is emitted at line 181. The `if (num_stores)` guard at line
  184 covers only the loop at lines 185-192. So a memset of zero bytes still stores one
  element. Since the loop runs nothing for counts 0 and 1 anyway, the guard suggests
  the author meant zero bytes to produce no store.

## Findings

| source | as written | input that shows it | evidently intended | confidence | as-written member | corrected member |
|---|---|---|---|---|---|---|
| lib/ReplaceLLVMIntrinsicsPass.cpp:351-357 | neither side unwrapped → one copy-memory call between the uncast pointers, whatever Size is; that call copies one pointee | `TwoIntCopy`: 8 bytes from one i32* to another, both cast to i8* (`TwoIntCopyIsShort`) | one call only when Size is exactly one element, else one call per element | high on the IR level (the emitted call copies one i32); not executed | MemcpyLowering.CopyEntriesAsWrittenShort | MemcpyLowering.CopyEntriesCover |
| lib/ReplaceLLVMIntrinsicsPass.cpp:196-198 | the bitcast memset looked through is erased even if another instruction still uses it | two memsets of one declaration through one shared bitcast, or a load through that bitcast (`SharedCastFails`: any instruction y using the bitcast) | erase the bitcast only once nothing uses it | medium (LLVM asserts on erasing a used value); not executed | MemsetLowering.SharedCastFails | MemsetLowering.DropCastClosed |
| lib/ReplaceLLVMIntrinsicsPass.cpp:415-417 | every collected bitcast is erased, including one still used outside this declaration's calls | a bitcast used by a memcpy call and also by a load (`MemcpyDeclSharedCastFails`) | erase only the collected bitcasts nothing uses any more | medium; not executed | MemcpyLowering.MemcpyDeclSharedCastFails | MemcpyLowering.DropCastsClosed |
| lib/ReplaceLLVMIntrinsicsPass.cpp:180-192 | the first store is emitted before `num_stores` is checked, so a memset of 0 bytes writes one element | llvm.memset(p, 0, 0) on an i32* destination (`ZeroLengthMemsetWrites`, with `StoreCount(0, AsWritten) == 1`) | no store when `num_stores` is 0 | medium; not executed | MemsetLowering.ZeroLengthMemsetWrites | MemsetLowering.ZeroStoresCover |

`RunPass(m, AsWritten)` and the class `IRModule` use the as-written definitions:
`StoreCount(n, AsWritten)`, `EraseCast(b, cast, AsWritten)`, `CopyEntriesAsWritten` and
`EraseCasts`. `RunPass(m, Corrected)` uses the corrected ones: `ZeroStores` of n
elements, `DropCast`, `CopyEntries` and `DropCasts`. `MemcpyLowering.ForgetCastsAgree`
shows that the two bitcast erasures agree when no collected bitcast is still used.

## Left out

- I/O and diagnostics: `errs()` output and `Initializer->print` become the
  `Failure(Fatal)` result. The null dereference at line 154, on a fill that is not a
  constant, is modelled as the `NonConstantFill` failure.
- Debug-only asserts: every `assert` is modelled as fatal. In release builds the source
  compiles them out and carries on. Erasing an instruction that still has uses is also
  fatal here (`ErasedWhileUsed`). A release build of LLVM leaves those uses dangling
  instead.
- Set order: the memcpy bitcasts are kept in a `SmallPtrSet`, whose iteration order is
  not specified. `MemcpyLowering.EraseCasts` and `Pass.IRModule.DrainCasts` erase them
  in ascending id order. The order could matter only when one collected bitcast uses
  another.
- Replace-all-uses: a redirected use keeps the type recorded at the use
  (`SubstValue` in ir.dfy), so the shape of an instruction never changes.
- Intrinsic recognition by name prefix (lines 75, 144, 260, 432): a declaration carries
  its `Family`.
- Pass registration and the factory function (lines 46-54) are not modelled.
- LLVM object plumbing:
  - `Function::Create` is `AddDecl`, one fresh copy-memory declaration per rewritten
    memcpy call;
  - instructions the `IRBuilder` might constant-fold are emitted as instructions;
  - function types and names are not modelled.
- Data layout:
  - `getTypeSizeInBits` ignores padding;
  - `getTypeAllocSize` is the bit size rounded up to bytes;
  - `getABITypeAlignment` is an approximation (`Types.ABIAlign`);
  - real layout rules are target-specific.
- Type identity: LLVM struct types are compared by identity, but here they are equal
  when structurally equal.
- Users: only call instructions are snapshotted as users of a declaration. Other uses of
  a function value are not modelled.
- CopyMemory semantics: a copy-memory call copies `AllocSize` of the pointee of its
  destination argument. This is the SPIR-V meaning of OpCopyMemory.
- Vector fshl: a vector `llvm.fshl` is modelled one lane at a time (`Funnel`). The splat
  constants and lanes side by side are not modelled.
- Fixed-width integers:
  - the memset loop counter is `uint32_t` and the memcpy one `unsigned`;
  - the memcpy element index is `ConstantInt::get(I32Ty, i)`;
  - the model uses unbounded naturals. The 2^32 limit on the number of stores is
    modelled (`TooManyStores`), and so is the 32-bit truncation of the alignment and
    volatile constants (`CopyArgs`).
- Funnel.FshlLoweredCorrect: proves equality with `llvm.fshl` only for shift mod w != 0.
  For shift mod w == 0 the lowered value is poison (`Funnel.FshlZeroShiftIsPoison`).
- MemcpyLowering.CopyEntriesCover: the byte-level statement is proved under
  `Addressable`:
  - on each side the last descent is through an array or vector;
  - the element is a whole number of bytes;
  - the uncast pointers are defined before the new instructions;
  - when source and destination are the same value, they are given the same address.

  It does not cover a final gep index into a struct, which the source also emits.
- MemsetLowering.ZeroStoresCover: it states which bytes are written and that every store
  stores the element's null value. It does not model the values of the individual bytes.
- Pass.RunPassFacts: it states the end-to-end effect on declarations and calls. The
  values the new instructions compute are stated per call site, by
  `FshlLowering.ExpansionCorrect`, `MemsetLowering.ZeroStoresCover` and
  `MemcpyLowering.CopyEntriesCover`.
- Invalidated iterators: the source iterates `for (auto &F : M)` while a memcpy rewrite
  appends copy-memory functions to M. Here the declarations of a family are a snapshot
  taken before the stage starts, and the added functions belong to another family.
