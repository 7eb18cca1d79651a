/**
 What a passing region report means for memory as a whole: on a tracked fall-through
 run every byte that changes lies in a declared region that may be written, or was
 stored to the stack.
 */
module RegionFrame {
  import opened Basics
  import opened X86
  import opened Machine
  import opened Recognisers
  import opened MemoryEffects
  import opened AccessRecords
  import opened AbstractSoundness
  import opened RegionAccess
  import opened RegionSoundness

  /** A push, or a store to a slot of the frame. */
  predicate StackStore(i: LoweredInstr)
  {
    i.mnemonic == Push || (Stores(i, 0) && FrameSlot(i.operands[0].mem).Some?)
  }

  predicate StoreCovers(i: LoweredInstr, s: State, x: Word)
  {
    StoreRange(i, s).Some? && Offset(StoreRange(i, s).value.0, x) < StoreRange(i, s).value.1
  }

  /** Byte `x` belongs to a declared region that may be written. */
  ghost predicate Writable(regions: seq<Region>, entry: Entry, x: Word)
  {
    exists r :: r in regions && AccessAllowed(r.access, Store) && InRegion(entry, r, x)
  }

  /** What the collector records for operand 0 of instruction `n`. */
  function StoreRecord(p: Program, params: seq<Param>, abi: Abi, n: nat): (a: Option<Access>)
    requires n < |p.code| && |p.code[n].operands| > 0
  {
    OperandAccess(p.code[n], 0, AbsAt(p.code, Initial(params, abi), n), FactAt(AllInductions(p), n))
  }

  /** A store of instruction `n` other than to the stack: judged exactly, under a bound that is right. */
  ghost predicate StoreJudged(p: Program, params: seq<Param>, abi: Abi, regions: seq<Region>, n: nat)
    requires n < |p.code|
  {
    Stores(p.code[n], 0) && !StackStore(p.code[n]) ==>
      && p.code[n].mnemonic != Pop
      && FullAddress(p.code[n].operands[0].mem)
      && (FactAt(AllInductions(p), n).Some? ==> FromSoundLoop(p, n, FactAt(AllInductions(p), n).value))
      && (StoreRecord(p, params, abi, n).Some? ==> Exact(regions, StoreRecord(p, params, abi, n).value))
  }

  lemma CoveredWritable(
    regions: seq<Region>, entry: Entry, mode: AccessMode, address: Word, width: nat, x: Word)
    requires Covered(regions, entry, mode, address, width) && Offset(address, x) < width && mode == Store
    ensures Writable(regions, entry, x)
  {
    var r :| r in regions && AccessAllowed(r.access, mode) &&
             forall k | 0 <= k < width :: InRegion(entry, r, ByteAt(address, k));
    hide InRegion;
    ByteOfOffset(address, x);
    assert InRegion(entry, r, ByteAt(address, Offset(address, x)));
  }

  lemma ByteOfOffset(address: Word, x: Word)
    ensures ByteAt(address, Offset(address, x)) == x
  {
    if x >= address { assert Offset(address, x) == x - address; }
    else { WrapOnce(x - address, TWO64, x - address + TWO64); }
  }

  lemma FrameRecord(m: MemOperand, a: Abs, f: Option<Fact>)
    ensures Classify(m, a, f).StackFrame? <==> FrameSlot(m).Some?
  {
  }

  /** One step changes only bytes it stores, and those are writable or on the stack. */
  lemma StepWrites(
    p: Program, params: seq<Param>, abi: Abi, regions: seq<Region>, entry: Entry,
    s: State, es: seq<Env>, e: Env, x: Word)
    requires AtEntry(params, abi, entry, s) && |es| < |p.code|
    requires FallThroughRun(p, Initial(params, abi), s, es)
    requires Run(p, s, es).pc == |es| && InSubset(p.code[|es|].mnemonic)
    requires ReportPassed(p, params, abi, regions) && I64Offsets(regions)
    requires StoreJudged(p, params, abi, regions, |es|)
    ensures var t := Run(p, s, es);
            || Next(p, t, e).mem(x) == t.mem(x) || Writable(regions, entry, x)
            || (StackStore(p.code[|es|]) && StoreCovers(p.code[|es|], t, x))
  {
    hide *;
    var n, t := |es|, Run(p, s, es);
    NextMemory(p, t, e);
    if StoreCovers(p.code[n], t, x) {
      if !StackStore(p.code[n]) {
        PlainStore(p.code[n], t, x);
        StoreWritable(p, params, abi, regions, entry, s, es, x);
      }
    } else {
      NotCovered(p.code[n], t, x);
      MemoryKept(p.code[n], t, e, x);
    }
  }

  lemma NextMemory(p: Program, t: State, e: Env)
    requires t.pc < |p.code|
    ensures Next(p, t, e).mem == MemoryAfter(p.code[t.pc], t, e)
  {
    hide MemoryAfter;
    hide Exec;
    hide Resolve;
  }

  lemma NotCovered(i: LoweredInstr, s: State, x: Word)
    requires !StoreCovers(i, s, x)
    ensures StoreRange(i, s).Some? ==> Offset(StoreRange(i, s).value.0, x) >= StoreRange(i, s).value.1
  {
    hide StoreRange;
    hide Offset;
  }

  lemma PlainStore(i: LoweredInstr, s: State, x: Word)
    requires StoreCovers(i, s, x) && !StackStore(i)
    ensures i.mnemonic != Push && Stores(i, 0) && FrameSlot(i.operands[0].mem).None?
  {
    hide EffectiveAddress;
    hide FrameSlot;
  }

  lemma StoreWritable(
    p: Program, params: seq<Param>, abi: Abi, regions: seq<Region>, entry: Entry,
    s: State, es: seq<Env>, x: Word)
    requires AtEntry(params, abi, entry, s) && |es| < |p.code|
    requires FallThroughRun(p, Initial(params, abi), s, es)
    requires ReportPassed(p, params, abi, regions) && I64Offsets(regions)
    requires StoreJudged(p, params, abi, regions, |es|) && Stores(p.code[|es|], 0)
    requires !StackStore(p.code[|es|]) && StoreCovers(p.code[|es|], Run(p, s, es), x)
    ensures Writable(regions, entry, x)
  {
    var n, t := |es|, Run(p, s, es);
    var i := p.code[n];
    var a, f := AbsAt(p.code, Initial(params, abi), n), FactAt(AllInductions(p), n);
    hide AllInductions;
    hide Initial;
    hide AbsAt;
    hide Run;
    hide Classify;
    hide Covered;
    hide Exact;
    hide Writable;
    hide EffectiveAddress;
    hide FrameSlot;
    hide FullAddress;
    hide OperandAccess;
    hide I64Offsets;
    hide ReportPassed;
    hide FallThroughRun;
    hide AtEntry;
    hide Offset;
    StoreRecorded(i, t, a, f);
    FrameRecord(i.operands[0].mem, a, f);
    PassedAccessCovered(p, params, abi, regions, entry, s, es, 0);
    CoveredWritable(regions, entry, Store, StoreRange(i, t).value.0, StoreRange(i, t).value.1, x);
  }

  lemma {:induction false} FallThroughStep(p: Program, a: Abs, s: State, es: seq<Env>)
    requires |es| <= |p.code| && |es| > 0 && FallThroughRun(p, a, s, es)
    ensures FallThroughRun(p, a, s, es[..|es| - 1]) && InSubset(p.code[|es| - 1].mnemonic)
  {
    hide Run;
    hide AbsAt;
    hide FallsThrough;
    hide FrameSafe;
    hide Clobbers;
    hide TrackedMov;
    hide TrackedLea;
    hide TrackedXor;
    hide TrackedCmp;
  }

  /**
   The frame of a passing report: after every tracked fall-through run each byte is as it
   was, or lies in a declared region that may be written, or was stored to the stack.
   */
  lemma {:induction false} OnlyRegionsWritten(
    p: Program, params: seq<Param>, abi: Abi, regions: seq<Region>, entry: Entry,
    s: State, es: seq<Env>, x: Word)
    requires AtEntry(params, abi, entry, s) && |es| <= |p.code|
    requires FallThroughRun(p, Initial(params, abi), s, es)
    requires ReportPassed(p, params, abi, regions) && I64Offsets(regions)
    requires forall n | 0 <= n < |es| :: StoreJudged(p, params, abi, regions, n)
    ensures || Run(p, s, es).mem(x) == s.mem(x) || Writable(regions, entry, x)
            || exists n | 0 <= n < |es| ::
                 StackStore(p.code[n]) && StoreCovers(p.code[n], Run(p, s, es[..n]), x)
  {
    hide *;
    if |es| == 0 {
      RunNothing(p, s, es);
    } else {
      var n := |es| - 1;
      FallThroughStep(p, Initial(params, abi), s, es);
      OnlyRegionsWritten(p, params, abi, regions, entry, s, es[..n], x);
      EntryPc(params, abi, entry, s);
      InitialSound(params, abi, entry, s);
      LinearSound(p, Initial(params, abi), entry, s, es[..n]);
      StepWrites(p, params, abi, regions, entry, s, es[..n], es[n], x);
      RunStep(p, s, es);
      assert forall k | 0 <= k < n :: es[..n][..k] == es[..k];
    }
  }

  lemma EntryPc(params: seq<Param>, abi: Abi, entry: Entry, s: State)
    requires AtEntry(params, abi, entry, s)
    ensures s.pc == 0
  {
  }

  lemma RunNothing(p: Program, s: State, es: seq<Env>)
    requires |es| == 0
    ensures Run(p, s, es) == s
  {
  }

  lemma RunStep(p: Program, s: State, es: seq<Env>)
    requires |es| > 0
    ensures Run(p, s, es) == Next(p, Run(p, s, es[..|es| - 1]), es[|es| - 1])
  {
    hide Next;
  }

  // ----- where the recorded mode is not what the machine does -----

  const QUAD: MemOperand := MemOperand(Some(Register(GpCell(Rdi), B64, false)), None, 1, 0, B64)

  function OneRegion(permission: Permission): (regions: seq<Region>)
  {
    [Region("r", "buffer", 0, LengthLiteral(8), permission)]
  }

  lemma QuadJudged(mode: AccessMode, permission: Permission)
    ensures InsideAllowed(Judge(OneRegion(permission), Access(mode, 8, Affine("buffer", 0)))) <==>
              AccessAllowed(permission, mode)
  {
    var regions, access := OneRegion(permission), Access(mode, 8, Affine("buffer", 0));
    AffineRowExact(regions, access, "buffer", 0);
    hide JudgeAffine;
    assert Contains(regions[0], 0, 8);
  }

  /** `pop [rdi]` writes the eight bytes of a read-only region, and its row passes. */
  lemma PopIntoReadOnly(a: Abs, s: State)
    requires Rdi in a.affinity && a.affinity[Rdi] == "buffer"
    ensures var i := LoweredInstr(Pop, [Mem(QUAD)]);
            && StoreRange(i, s) == Some((s.regs(Rdi), 8))
            && OperandAccess(i, 0, a, None).Some?
            && InsideAllowed(Judge(OneRegion(Read), OperandAccess(i, 0, a, None).value))
  {
    hide Judge;
    QuadJudged(Load, Read);
    assert s.regs(Rdi) % TWO64 == s.regs(Rdi);
  }

  /** `add [rdi], rax` reads the eight bytes of a write-only region, and its row passes. */
  lemma UpdateOfWriteOnly(a: Abs)
    requires Rdi in a.affinity && a.affinity[Rdi] == "buffer"
    ensures var i := LoweredInstr(Add, [Mem(QUAD), Reg(Register(GpCell(Rax), B64, false))]);
            && Loads(i, 0) && OperandAccess(i, 0, a, None).Some?
            && InsideAllowed(Judge(OneRegion(Write), OperandAccess(i, 0, a, None).value))
  {
    hide Judge;
    QuadJudged(Store, Write);
  }
}
