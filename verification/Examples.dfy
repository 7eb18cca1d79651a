/**
 The loops of the collector's own examples
 (crates/semasm-cli/src/memory_effects.rs): they meet the hypotheses of the loop
 theorems, which therefore apply to every run of them.
 */
module Examples {
  import opened Basics
  import opened X86
  import opened Machine
  import opened Recognisers
  import opened MemoryEffects
  import opened LoopSoundness
  import opened Countdown
  import opened AbstractSoundness
  import opened RegionAccess
  import opened RegionSoundness
  import opened AccessRecords

  const EAX: Operand := Reg(Register(GpCell(Rax), B32, false))
  const ECX: Operand := Reg(Register(GpCell(Rcx), B32, false))

  /** `byte ptr [rdi + rax*1]` */
  const CELL: MemOperand :=
    MemOperand(Some(Register(GpCell(Rdi), B64, false)), Some(Register(GpCell(Rax), B64, false)), 1, 0, B8)

  const LOAD: LoweredInstr := LoweredInstr(Movzx, [ECX, Mem(CELL)])

  /** `xor eax, eax; cmp eax, 8; jae exit; load; inc eax; jmp cmp; ret` */
  const PRE: Program := Program(
    [ LoweredInstr(Xor, [EAX, EAX]),
      LoweredInstr(Cmp, [EAX, Imm(8)]),
      LoweredInstr(Jae, []),
      LOAD,
      LoweredInstr(Inc, [EAX]),
      LoweredInstr(Jmp, []),
      LoweredInstr(Ret, []) ],
    [ Physical(0x1000, None), Physical(0x1002, None), Physical(0x1005, Some(0x1010)),
      Physical(0x1007, None), Physical(0x100b, None), Physical(0x100d, Some(0x1002)),
      Physical(0x1010, None) ])

  const PRE_LOOP: Loop := Loop(Rax, 8, 0, 1, 4, 2, 5)

  /** `xor eax, eax; load; inc eax; cmp eax, 8; jb load; ret` */
  const POST: Program := Program(
    [ LoweredInstr(Xor, [EAX, EAX]),
      LOAD,
      LoweredInstr(Inc, [EAX]),
      LoweredInstr(Cmp, [EAX, Imm(8)]),
      LoweredInstr(Jb, []),
      LoweredInstr(Ret, []) ],
    [ Physical(0x0e, None), Physical(0x10, None), Physical(0x14, None), Physical(0x16, None),
      Physical(0x19, Some(0x10)), Physical(0x1b, None) ])

  const POST_LOOP: Loop := Loop(Rax, 8, 0, 1, 2, 3, 4)

  /** `mov eax, 8; dec eax; load; jnz dec; ret` */
  const DOWN: Program := Program(
    [ LoweredInstr(Mov, [EAX, Imm(8)]),
      LoweredInstr(Dec, [EAX]),
      LOAD,
      LoweredInstr(Jnz, []),
      LoweredInstr(Ret, []) ],
    [ Physical(0x0b, None), Physical(0x10, None), Physical(0x12, None), Physical(0x16, Some(0x10)),
      Physical(0x18, None) ])

  const DOWN_LOOP: Loop := Loop(Rax, 8, 0, 1, 1, 1, 3)

  // ----- branch targets -----

  lemma PreTargets()
    ensures Target(PRE.physical, 2) == Some(6) && Target(PRE.physical, 5) == Some(1)
    ensures Target(PRE.physical, 6).None?
  {
    var ph := PRE.physical;
    assert IndexOfAddress(ph, 0x1010) == Some(6) by { assert ph[6].address == 0x1010; }
    assert IndexOfAddress(ph, 0x1002) == Some(1) by { assert ph[1].address == 0x1002; }
  }

  lemma PostTargets()
    ensures Target(POST.physical, 4) == Some(1) && Target(POST.physical, 5).None?
  {
    assert IndexOfAddress(POST.physical, 0x10) == Some(1) by { assert POST.physical[1].address == 0x10; }
  }

  lemma DownTargets()
    ensures Target(DOWN.physical, 3) == Some(1) && Target(DOWN.physical, 4).None?
  {
    assert IndexOfAddress(DOWN.physical, 0x10) == Some(1) by { assert DOWN.physical[1].address == 0x10; }
  }

  // ----- the hypotheses hold -----

  lemma LoadIsPlain()
    ensures Plain(LOAD, Rax) && KeepsFlags(LOAD) && IndexedBy(LOAD, Rax) && !WritesGp(LOAD, Rax)
  {
    assert LOAD.operands[1].Mem? && IndexGp(LOAD.operands[1].mem) == Some(Rax);
  }

  lemma PreTestRecognised()
    ensures RecognisedPreTest(PRE, PRE_LOOP)
  {
    PreTargets();
    LoadIsPlain();
    hide Target;
    hide WritesGp;
    hide Zeroes;
    assert PRE.code[3] == LOAD;
    XorZeroes(PRE.code[0]);
    JumpWritesNothing(PRE.code[5]);
  }

  lemma XorZeroes(i: LoweredInstr)
    requires i == LoweredInstr(Xor, [EAX, EAX])
    ensures Zeroes(i, Rax) && SameRegister(i) && WideView(i, Rax, 0)
  {
  }

  lemma JumpWritesNothing(i: LoweredInstr)
    requires IsControl(i.mnemonic)
    ensures !WritesGp(i, Rax)
  {
  }

  lemma WideEax(i: LoweredInstr, n: nat)
    requires |i.operands| > 0 && i.operands[0] == EAX && n <= 8
    ensures WideView(i, Rax, n)
  {
  }

  lemma PreTestSealed()
    ensures Sealed(PRE, PRE_LOOP.init, PRE_LOOP.back, {PRE_LOOP.test, PRE_LOOP.back})
  {
    PreTargets();
    hide Target;
  }

  lemma PreTestConfined()
    ensures ConfinedPreTest(PRE, PRE_LOOP)
  {
    PreTestSealed();
    LoadIsPlain();
    hide Sealed;
    hide Plain;
    hide WideView;
    assert PRE.code[3] == LOAD;
    XorZeroes(PRE.code[0]);
    WideEax(PRE.code[1], 8);
    WideEax(PRE.code[4], 8);
  }

  lemma PreTestExample()
    ensures FullPreTest(PRE, PRE_LOOP)
  {
    PreTestRecognised();
    PreTestConfined();
    hide RecognisedPreTest;
    hide ConfinedPreTest;
    assert PRE.code[2].mnemonic == Jae;
  }

  lemma PostTestRecognised()
    ensures RecognisedPostTest(POST, POST_LOOP, 1)
  {
    LoadIsPlain();
    hide WritesGp;
    hide Zeroes;
    hide IndexedBy;
    assert POST.code[1] == LOAD;
    XorZeroes(POST.code[0]);
  }

  lemma PostTestConfined()
    ensures ConfinedPostTest(POST, POST_LOOP)
  {
    PostTargets();
    LoadIsPlain();
    hide Target;
    hide Plain;
    hide WideView;
    assert POST.code[1] == LOAD;
    XorZeroes(POST.code[0]);
    WideEax(POST.code[2], 8);
    WideEax(POST.code[3], 8);
  }

  lemma PostTestExample()
    ensures FullPostTest(POST, POST_LOOP, 1)
  {
    PostTestRecognised();
    PostTestConfined();
    hide RecognisedPostTest;
    hide ConfinedPostTest;
    assert POST.code[4].mnemonic == Jb;
  }

  lemma CountdownRecognised()
    ensures RecognisedCountdown(DOWN, DOWN_LOOP, 2)
  {
    LoadIsPlain();
    hide IndexedBy;
    assert DOWN.code[2] == LOAD;
  }

  lemma CountdownConfined()
    ensures ConfinedCountdown(DOWN, DOWN_LOOP)
  {
    DownTargets();
    LoadIsPlain();
    hide Target;
    hide Plain;
    hide KeepsFlags;
    hide WideView;
    assert DOWN.code[2] == LOAD;
    WideEax(DOWN.code[0], 8);
    WideEax(DOWN.code[1], 8);
  }

  lemma CountdownExample()
    ensures CountdownLoop(DOWN, DOWN_LOOP, 2) && !Wraps(DOWN, DOWN_LOOP)
  {
    CountdownRecognised();
    CountdownConfined();
    hide RecognisedCountdown;
    hide ConfinedCountdown;
    assert DOWN.code[3].mnemonic == Jnz;
  }

  // ----- and so do the conclusions -----

  const REGIONS: seq<Region> := [Region("cell", "buffer", 0, LengthLiteral(8), Read)]

  const PARAMS: seq<Param> := [Param("buffer", true)]

  /** The access the collector records for the load. */
  const RECORD: Access := Access(Load, 1, Indexed("buffer", 1, 0, None, Some(8)))

  lemma NoPostTestFact()
    ensures PostTestFact(PRE.code, 3, |PRE.code[3].operands|).None?
  {
    hide PostTestBound;
    hide ZeroInit;
    if PostTestBound(PRE.code, 4, Rax, false).Some? {
      var j, c := PostTestBoundMeaning(PRE.code, 4, Rax, false);
    }
    assert IndexGp(PRE.code[3].operands[1].mem) == Some(Rax);
  }

  lemma NoCountdownFact()
    ensures CountdownFact(PRE.code, 3, |PRE.code[3].operands|).None?
  {
    hide DecBefore;
    hide BackBranch;
    hide CountdownInit;
    DecBeforeMeaning(PRE.code, 3, 3, Rax);
    var f := CountdownFact(PRE.code, 3, |PRE.code[3].operands|);
    assert PRE.code[3].operands[0].Reg? && IndexGp(PRE.code[3].operands[1].mem) == Some(Rax);
  }

  lemma HeaderNeedsCmp(h: nat)
    requires h < 5 && h != 1
    ensures PreTestFacts(PRE.code, PRE.physical, h) == map[]
  {
    hide Target;
    hide ZeroInit;
    hide BodyAccepted;
  }

  lemma HeaderIsFound()
    ensures PreTestHeader(PRE.code, PRE.physical, 1) == Some(PreTestLoop(Rax, 8, 5))
  {
    PreTargets();
    ZeroInitMeaning(PRE.code, 1, Rax);
    XorZeroes(PRE.code[0]);
    assert ZeroedAt(PRE.code, 0, 1, Rax);
    hide Target;
    hide ZeroInit;
    hide ZeroedAt;
  }

  lemma BodyIsAccepted()
    ensures BodyAccepted(PRE.code, 3, 5, Rax)
  {
    LoadIsPlain();
    hide WritesGp;
    assert PRE.code[3] == LOAD;
    assert SoleIncrement(PRE.code, 3, 5, Rax, 4);
  }

  lemma HeaderFound()
    ensures 3 in PreTestFacts(PRE.code, PRE.physical, 1)
    ensures PreTestFacts(PRE.code, PRE.physical, 1)[3] == Fact(Rax, 8)
  {
    HeaderIsFound();
    BodyIsAccepted();
    LoadIsPlain();
    hide PreTestHeader;
    hide BodyAccepted;
    hide IndexedBy;
    assert PRE.code[3] == LOAD;
  }

  lemma {:induction false} LaterHeadersEmpty(
    code: seq<LoweredInstr>, physical: seq<Physical>, at: nat, h: nat, n: nat)
    requires |physical| == |code| && h < n && n + 1 < |code| && at in PreTestFacts(code, physical, h)
    requires forall k | h < k < n :: PreTestFacts(code, physical, k) == map[]
    ensures at in PreTestInductions(code, physical, n)
    ensures PreTestInductions(code, physical, n)[at] == PreTestFacts(code, physical, h)[at]
  {
    hide PreTestFacts;
    if h < n - 1 { LaterHeadersEmpty(code, physical, at, h, n - 1); }
  }

  lemma MergedFact(p: Program, at: nat)
    requires at in PreTestAll(p.code, p.physical)
    requires at !in PostTestInductions(p.code, |p.code|) && at !in CountdownInductions(p.code, |p.code|)
    ensures at in AllInductions(p) && AllInductions(p)[at] == PreTestAll(p.code, p.physical)[at]
  {
    hide PreTestAll;
    hide PostTestInductions;
    hide CountdownInductions;
    hide CfgPostTestAll;
  }

  lemma PreSizes()
    ensures |PRE.code| == 7 == |PRE.physical|
    ensures PreTestAll(PRE.code, PRE.physical) == PreTestInductions(PRE.code, PRE.physical, 5)
  {
    hide PreTestInductions;
  }

  /** The pre-test pass finds the loop, and no pass that goes before it has a fact for the load. */
  lemma PreTestFactRecorded()
    ensures FactAt(AllInductions(PRE), 3) == Some(Fact(Rax, 8))
  {
    hide PRE;
    hide AllInductions;
    hide PreTestAll;
    hide PreTestInductions;
    hide PreTestFacts;
    hide PostTestFact;
    hide CountdownFact;
    hide PostTestInductions;
    hide CountdownInductions;
    PreSizes();
    NoPostTestFact();
    NoCountdownFact();
    HeaderFound();
    forall h | 1 < h < 5 ensures PreTestFacts(PRE.code, PRE.physical, h) == map[] {
      HeaderNeedsCmp(h);
    }
    LaterHeadersEmpty(PRE.code, PRE.physical, 3, 1, 5);
    MergedFact(PRE, 3);
  }

  lemma BaseKept()
    ensures NeverClobbered(PRE, Rdi)
  {
  }

  lemma Seeds()
    ensures Initial(PARAMS, SysV).affinity == map[Rdi := "buffer"]
  {
    assert Seeded(PARAMS, ArgumentRegisters(SysV), 0) == map[];
    assert Seeded(PARAMS, ArgumentRegisters(SysV), 1) == map[Rdi := "buffer"];
  }

  lemma LoopOperandHolds()
    ensures LoopOperand(PRE, Initial(PARAMS, SysV), PRE_LOOP, CELL)
  {
    Seeds();
    BaseKept();
    hide Initial;
    hide NeverClobbered;
  }

  /** Only the load touches memory, and this is how it is recorded. */
  lemma RecordOfLoad()
    ensures OperandAccess(PRE.code[3], 1, AbsAt(PRE.code, Initial(PARAMS, SysV), 3),
                          FactAt(AllInductions(PRE), 3)) == Some(RECORD)
  {
    hide *;
    ExampleShape();
    Seeds();
    LoopOperandHolds();
    PreTestFactRecorded();
    LoopRecord(PRE, Initial(PARAMS, SysV), PRE_LOOP, CELL, 3);
    LoadRecord(AbsAt(PRE.code, Initial(PARAMS, SysV), 3));
  }

  lemma LoadRecord(a: Abs)
    requires Classify(CELL, a, Some(Fact(Rax, 8))) == Indexed("buffer", 1, 0, None, Some(8))
    ensures OperandAccess(LOAD, 1, a, Some(Fact(Rax, 8))) == Some(RECORD)
  {
    hide Classify;
  }

  lemma NoAccess(i: LoweredInstr, a: Abs, f: Option<Fact>, n: nat)
    requires n <= |i.operands| && forall k | 0 <= k < n :: !i.operands[k].Mem?
    ensures Accesses(i, n, a, f) == []
  {
    hide Classify;
  }

  lemma {:induction false} OnlyRecord(n: nat)
    requires n <= 7
    ensures Effects(PRE.code, AllInductions(PRE), Initial(PARAMS, SysV), n) == if n <= 3 then [] else [RECORD]
  {
    hide AbsAt;
    hide AllInductions;
    hide Initial;
    hide Accesses;
    hide FactAt;
    if n > 0 {
      OnlyRecord(n - 1);
      var i, a := PRE.code[n - 1], AbsAt(PRE.code, Initial(PARAMS, SysV), n - 1);
      if n == 4 {
        RecordOfLoad();
        LoadAccesses(a, FactAt(AllInductions(PRE), 3));
      } else {
        NoAccess(i, a, FactAt(AllInductions(PRE), n - 1), |i.operands|);
      }
    }
  }

  lemma LoadAccesses(a: Abs, f: Option<Fact>)
    requires OperandAccess(PRE.code[3], 1, a, f) == Some(RECORD)
    ensures Accesses(PRE.code[3], |PRE.code[3].operands|, a, f) == [RECORD]
  {
    hide Classify;
    NoAccess(PRE.code[3], a, f, 1);
  }

  lemma RecordJudged()
    ensures InsideAllowed(Judge(REGIONS, RECORD)) && Exact(REGIONS, RECORD) && I64Offsets(REGIONS)
  {
    SingleRegionNoGap(REGIONS, "buffer", Load, 1, 1);
    hide NoGap;
    assert REGIONS[1..] == [];
    assert Candidates([], "buffer") == [] && Candidates(REGIONS, "buffer") == REGIONS;
    assert Containing([], 0, 1) == [] && Containing(REGIONS, 0, 1) == REGIONS;
    assert Containing([], 7, 8) == [] && Containing(REGIONS, 7, 8) == REGIONS;
  }

  lemma ReportOfPre()
    ensures ReportPassed(PRE, PARAMS, SysV, REGIONS)
  {
    OnlyRecord(7);
    RecordJudged();
    hide Judge;
    hide AllInductions;
    hide Initial;
    hide Effects;
    assert [RECORD][..0] == [];
    assert Rows(REGIONS, []) == [] && Rows(REGIONS, [RECORD]) == [Judge(REGIONS, RECORD)];
  }

  lemma PreTestIsSound()
    ensures SoundLoop(PRE, PRE_LOOP, 3)
  {
    PreTestExample();
    hide PreTest;
    hide LoopEntry.SafelyEntered;
    hide Countdown.CountdownLoop;
  }

  lemma LoadTouches()
    ensures Touches(PRE.code[3], 1)
  {
  }

  /**
   Every load of the pre-test example, on every run from entry, stays within its
   eight-byte region: the collector's own record, judged by its own report.
   */
  lemma PreTestExampleCovered(entry: Entry, s: State, es: seq<Env>)
    requires AtEntry(PARAMS, SysV, entry, s) && Run(PRE, s, es).pc == 3
    ensures Covered(REGIONS, entry, Load, EffectiveAddress(Run(PRE, s, es).regs, CELL), 1)
  {
    hide *;
    PreTestIsSound();
    LoadTouches();
    PreTestFactRecorded();
    ReportOfPre();
    RecordJudged();
    LoopOperandHolds();
    RecordOfLoad();
    ExampleShape();
    LoopVisitCovered(PRE, PARAMS, SysV, REGIONS, PRE_LOOP, 3, 1, entry, s, es);
  }

  lemma ExampleShape()
    ensures |PRE.code| == 7 && PRE.code[3] == LOAD && |LOAD.operands| == 2 && LOAD.operands[1] == Mem(CELL)
    ensures PRE_LOOP == Loop(Rax, 8, 0, 1, 4, 2, 5) && RECORD.mode == Load && RECORD.width == 1
    ensures CELL.base.Some? && CELL.base.value.storage == GpCell(Rdi) && CELL.scale == 1 && CELL.disp == 0
  {
  }
}
