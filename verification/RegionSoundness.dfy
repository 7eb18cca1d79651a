/**
 From the region report back to the machine: what a `Passed` report says about
 the bytes a run touches, and the two places where the verdict is wider than
 what it proves (saturated arithmetic, and a range whose two ends lie in
 different regions).
 */
module RegionSoundness {
  import opened Basics
  import opened X86
  import opened Machine
  import opened Recognisers
  import opened MemoryEffects
  import opened AbstractSoundness
  import opened RegionAccess
  import opened AccessRecords
  import opened LoopSoundness
  import LoopEntry
  import Countdown

  // ----- offsets -----

  predicate Contains(r: Region, lo: int, width: nat)
  {
    r.length.LengthLiteral? && r.offset <= lo && lo + width <= r.offset + r.length.bytes
  }

  /** The region ends at or past the largest offset and the access ends past the region. */
  predicate Saturated(r: Region, lo: int, width: nat)
  {
    r.length.LengthLiteral? && r.offset <= lo && I64_MAX <= r.offset + r.length.bytes < lo + width
  }

  /** "Inside" is containment in a region of literal length if and only if the sum does not saturate. */
  lemma InsideIsContainment(r: Region, lo: int, width: nat)
    requires I64_MIN <= lo <= I64_MAX && I64_MIN <= r.offset <= I64_MAX
    ensures (ClassifyVsRegion(r, lo, Clamp(lo + width)).Inside? <==> Contains(r, lo, width)) <==>
              !Saturated(r, lo, width)
  {
  }

  /** Past the largest offset "inside" no longer means containment. */
  lemma SaturatedInside() returns (r: Region, lo: int, width: nat)
    ensures lo <= I64_MAX && I64_MIN <= r.offset
    ensures ClassifyVsRegion(r, lo, Clamp(lo + width)).Inside? && !Contains(r, lo, width)
  {
    r := Region("r", "p", 0, LengthLiteral(I64_MAX), Read);
    lo, width := I64_MAX - 4, 8;
  }

  /** Some declared region of the base allows the access and contains it. */
  ghost predicate Admits(regions: seq<Region>, base: string, mode: AccessMode, width: nat, lo: int)
  {
    exists r :: r in regions && Usable(r, base, mode) && Contains(r, lo, width)
  }

  predicate Usable(r: Region, base: string, mode: AccessMode)
  {
    r.base == base && AccessAllowed(r.access, mode)
  }

  predicate I64Offsets(regions: seq<Region>)
  {
    forall r | r in regions :: I64_MIN <= r.offset <= I64_MAX
  }

  /** A row about one offset passes if and only if a declared region admits the access. */
  lemma AffineRowExact(regions: seq<Region>, a: Access, base: string, offset: int)
    requires I64_MIN <= offset && offset + a.width <= I64_MAX && I64Offsets(regions)
    ensures InsideAllowed(JudgeAffine(regions, a, base, offset)) <==>
              Admits(regions, base, a.mode, a.width, offset)
  {
    hide Preferred;
    hide Candidates;
    hide Containing;
    hide ClassifyVsRegion;
    forall r | r in regions
      ensures ClassifyVsRegion(r, offset, Clamp(offset + a.width)).Inside? <==> Contains(r, offset, a.width)
    {
      InsideIsContainment(r, offset, a.width);
    }
    if Admits(regions, base, a.mode, a.width, offset) {
      var r :| r in regions && Usable(r, base, a.mode) && Contains(r, offset, a.width);
      assert r in Containing(Candidates(regions, base), offset, Clamp(offset + a.width));
    }
  }

  /** The largest offset a range touches, with no saturation. */
  predicate RangeFits(scale: nat, disp: int, max: nat, width: nat)
  {
    I64_MIN <= disp && max - 1 <= I64_MAX && (max - 1) * scale <= I64_MAX &&
    (max - 1) * scale + disp + width <= I64_MAX
  }

  lemma Scaled(i: nat, max: nat, scale: nat)
    requires i < max
    ensures 0 <= i * scale <= (max - 1) * scale
  {
    if i < max - 1 { Scaled(i, max - 1, scale); assert (max - 1) * scale == (max - 2) * scale + scale; }
  }

  /** The last offset at which an access of this width still fits the region. */
  function LastFit(r: Region, width: nat): (lo: int)
    requires r.length.LengthLiteral?
  {
    r.offset + r.length.bytes - width
  }

  predicate Fits(r: Region, base: string, mode: AccessMode, width: nat)
  {
    Usable(r, base, mode) && r.length.LengthLiteral? && width <= r.length.bytes
  }

  /** Some later step of the stride, within one signed word, is admitted. */
  ghost predicate Resumes(
    regions: seq<Region>, base: string, mode: AccessMode, width: nat, scale: nat, x: int)
  {
    exists m: nat :: m > 0 && StepAdmitted(regions, base, mode, width, scale, x, m)
  }

  ghost predicate StepAdmitted(
    regions: seq<Region>, base: string, mode: AccessMode, width: nat, scale: nat, x: int, m: nat)
  {
    m <= I64_MAX && m * scale <= I64_MAX && Admits(regions, base, mode, width, x + m * scale)
  }

  /**
   Where a stride steps out of a region that allows the access, another region takes over
   at once, unless no later step is admitted.
   */
  ghost predicate NoGap(regions: seq<Region>, base: string, mode: AccessMode, width: nat, scale: nat)
  {
    forall r, x | r in regions && Fits(r, base, mode, width) && r.offset <= x <= LastFit(r, width) < x + scale ::
      Resumes(regions, base, mode, width, scale, x) ==> Admits(regions, base, mode, width, x + scale)
  }

  /** One step along a stride without a gap. */
  lemma NoGapStep(
    regions: seq<Region>, base: string, mode: AccessMode, width: nat, scale: nat, x: int, m: nat)
    requires NoGap(regions, base, mode, width, scale) && m > 0
    requires Admits(regions, base, mode, width, x) && StepAdmitted(regions, base, mode, width, scale, x, m)
    ensures Admits(regions, base, mode, width, x + scale)
  {
    hide AccessAllowed;
    hide Usable;
    var r :| r in regions && Usable(r, base, mode) && Contains(r, x, width);
    assert Fits(r, base, mode, width);
    if LastFit(r, width) < x + scale {
      assert Resumes(regions, base, mode, width, scale, x);
    } else {
      assert Contains(r, x + scale, width);
    }
  }

  lemma {:induction false} NoGapFills(
    regions: seq<Region>, base: string, mode: AccessMode, width: nat, scale: nat, x: int, i: nat, m: nat)
    requires NoGap(regions, base, mode, width, scale) && i <= m
    requires Admits(regions, base, mode, width, x) && StepAdmitted(regions, base, mode, width, scale, x, m)
    ensures Admits(regions, base, mode, width, x + i * scale)
    decreases i
  {
    hide NoGap;
    hide Admits;
    if i > 0 {
      var y := x + (i - 1) * scale;
      NoGapFills(regions, base, mode, width, scale, x, i - 1, m);
      StrideSplit(scale, x, i - 1, m);
      NoGapStep(regions, base, mode, width, scale, y, m - (i - 1));
    }
  }

  lemma StrideSplit(scale: nat, x: int, i: nat, m: nat)
    requires i < m
    ensures x + i * scale + (m - i) * scale == x + m * scale && x + i * scale + scale == x + (i + 1) * scale
    ensures 0 <= (m - i) * scale <= m * scale
  {
    assert m * scale == i * scale + (m - i) * scale;
  }

  /** A row about a range passes if and only if both its ends are admitted. */
  lemma RangeRowExact(regions: seq<Region>, a: Access, base: string, scale: nat, disp: int, max: nat)
    requires max > 0 && RangeFits(scale, disp, max, a.width) && I64Offsets(regions)
    ensures InsideAllowed(JudgeRange(regions, a, base, scale, disp, max)) <==>
              && Admits(regions, base, a.mode, a.width, disp)
              && Admits(regions, base, a.mode, a.width, (max - 1) * scale + disp)
  {
    hide *;
    HighEndExact(scale, disp, max, a.width);
    RangeRowEnds(regions, a, base, scale, disp, max);
    AffineRowExact(regions, a, base, disp);
    AffineRowExact(regions, a, base, (max - 1) * scale + disp);
  }

  lemma HighEndExact(scale: nat, disp: int, max: nat, width: nat)
    requires max > 0 && RangeFits(scale, disp, max, width)
    ensures HighEnd(scale, disp, max) == (max - 1) * scale + disp
    ensures I64_MIN <= disp && disp <= (max - 1) * scale + disp && (max - 1) * scale + disp + width <= I64_MAX
  {
    Scaled(0, max, scale);
  }

  lemma RangeRowEnds(regions: seq<Region>, a: Access, base: string, scale: nat, disp: int, max: nat)
    requires max > 0
    ensures InsideAllowed(JudgeRange(regions, a, base, scale, disp, max)) <==>
              && InsideAllowed(JudgeAffine(regions, a, base, disp))
              && InsideAllowed(JudgeAffine(regions, a, base, HighEnd(scale, disp, max)))
  {
    hide JudgeAffine;
    hide HighEnd;
  }

  /** Where the declared regions leave no gap, a passing range row is right about every index. */
  lemma RangeFilled(
    regions: seq<Region>, a: Access, base: string, scale: nat, disp: int, max: nat, i: nat)
    requires i < max && RangeFits(scale, disp, max, a.width) && I64Offsets(regions)
    requires InsideAllowed(JudgeRange(regions, a, base, scale, disp, max))
    requires NoGap(regions, base, a.mode, a.width, scale)
    ensures Admits(regions, base, a.mode, a.width, i * scale + disp)
  {
    hide NoGap;
    hide Admits;
    hide JudgeRange;
    RangeRowExact(regions, a, base, scale, disp, max);
    assert StepAdmitted(regions, base, a.mode, a.width, scale, disp, max - 1);
    NoGapFills(regions, base, a.mode, a.width, scale, disp, i, max - 1);
  }

  /** Index `i` of the range is admitted. */
  ghost predicate IndexAdmitted(
    regions: seq<Region>, base: string, mode: AccessMode, width: nat, scale: nat, disp: int, i: nat)
  {
    Admits(regions, base, mode, width, i * scale + disp)
  }

  /** Every index of the range is admitted when its row passes. */
  ghost predicate RangeRight(
    regions: seq<Region>, base: string, mode: AccessMode, width: nat, scale: nat, disp: int, max: nat)
  {
    InsideAllowed(JudgeRange(regions, Access(mode, width, UnknownAddr), base, scale, disp, max)) ==>
      forall i: nat | i < max :: IndexAdmitted(regions, base, mode, width, scale, disp, i)
  }

  /** No declared end saturates. */
  predicate EndsFit(regions: seq<Region>)
  {
    forall r | r in regions && r.length.LengthLiteral? :: r.offset + r.length.bytes <= I64_MAX
  }

  ghost predicate AllRangesRight(regions: seq<Region>, base: string, mode: AccessMode, width: nat, scale: nat)
  {
    forall disp: int, max: nat | max > 0 && RangeFits(scale, disp, max, width) ::
      RangeRight(regions, base, mode, width, scale, disp, max)
  }

  /**
   Exactly when range rows can be trusted, scale by scale: every passing row is right
   about every index if and only if the declared regions leave no gap at that stride.
   */
  lemma RangeExact(regions: seq<Region>, base: string, mode: AccessMode, width: nat, scale: nat)
    requires I64Offsets(regions) && EndsFit(regions)
    ensures AllRangesRight(regions, base, mode, width, scale) <==> NoGap(regions, base, mode, width, scale)
  {
    hide JudgeRange;
    hide Admits;
    hide I64Offsets;
    if NoGap(regions, base, mode, width, scale) {
      var a := Access(mode, width, UnknownAddr);
      forall disp: int, max: nat | max > 0 && RangeFits(scale, disp, max, width)
        ensures RangeRight(regions, base, mode, width, scale, disp, max)
      {
        if InsideAllowed(JudgeRange(regions, a, base, scale, disp, max)) {
          forall i: nat | i < max ensures IndexAdmitted(regions, base, mode, width, scale, disp, i) {
            RangeFilled(regions, a, base, scale, disp, max, i);
          }
        }
      }
    }
    if AllRangesRight(regions, base, mode, width, scale) {
      forall r, x | r in regions && Fits(r, base, mode, width) && r.offset <= x <= LastFit(r, width) < x + scale &&
                    Resumes(regions, base, mode, width, scale, x)
        ensures Admits(regions, base, mode, width, x + scale)
      {
        GapShows(regions, base, mode, width, scale, r, x);
      }
    }
  }

  lemma AdmittedFits(regions: seq<Region>, base: string, mode: AccessMode, width: nat, lo: int)
    requires EndsFit(regions) && I64Offsets(regions) && Admits(regions, base, mode, width, lo)
    ensures I64_MIN <= lo && lo + width <= I64_MAX
  {
  }

  /** A row from where the stride leaves a region to where it resumes passes. */
  lemma GapShows(
    regions: seq<Region>, base: string, mode: AccessMode, width: nat, scale: nat, r: Region, x: int)
    requires I64Offsets(regions) && EndsFit(regions) && AllRangesRight(regions, base, mode, width, scale)
    requires r in regions && Fits(r, base, mode, width) && r.offset <= x <= LastFit(r, width)
    requires Resumes(regions, base, mode, width, scale, x)
    ensures Admits(regions, base, mode, width, x + scale)
  {
    assert Admits(regions, base, mode, width, x) by { assert Contains(r, x, width); }
    hide JudgeRange;
    hide Admits;
    hide I64Offsets;
    hide EndsFit;
    var m: nat :| m > 0 && StepAdmitted(regions, base, mode, width, scale, x, m);
    AdmittedFits(regions, base, mode, width, x);
    AdmittedFits(regions, base, mode, width, x + m * scale);
    RangeRowExact(regions, Access(mode, width, UnknownAddr), base, scale, x, m + 1);
    assert RangeRight(regions, base, mode, width, scale, x, m + 1);
    var one: nat := 1;
    assert IndexAdmitted(regions, base, mode, width, scale, x, one);
  }

  /** One region per base and mode leaves no gap at any stride. */
  lemma SingleRegionNoGap(regions: seq<Region>, base: string, mode: AccessMode, width: nat, scale: nat)
    requires forall r, s | r in regions && s in regions && Usable(r, base, mode) && Usable(s, base, mode) :: r == s
    ensures NoGap(regions, base, mode, width, scale)
  {
    forall r, x | r in regions && Fits(r, base, mode, width) && r.offset <= x <= LastFit(r, width) < x + scale
      ensures !Resumes(regions, base, mode, width, scale, x)
    {
      forall m: nat | m > 0 ensures !StepAdmitted(regions, base, mode, width, scale, x, m) {
        StrideSplit(scale, x, 0, m);
        assert scale <= m * scale by { StrideSplit(scale, x, 1, m + 1); }
      }
    }
  }

  /** Two regions, one at each end of the range: the report passes and the middle is in neither. */
  lemma RangeGap() returns (regions: seq<Region>, a: Access)
    ensures RangeFits(1, 0, 101, a.width)
    ensures InsideAllowed(JudgeRange(regions, a, "p", 1, 0, 101))
    ensures forall r | r in regions :: !Contains(r, 50 * 1 + 0, a.width)
  {
    var first := Region("first", "p", 0, LengthLiteral(8), Read);
    var last := Region("last", "p", 96, LengthLiteral(8), Read);
    regions, a := [first, last], Access(Load, 1, Indexed("p", 1, 0, None, Some(101)));
    assert regions[1..] == [last] && [last][1..] == [];
    assert Candidates([], "p") == [] && Candidates([last], "p") == [last];
    assert Candidates(regions, "p") == [first, last];
    assert Containing([], 0, 1) == [] && Containing([last], 0, 1) == [];
    assert Containing(regions, 0, 1) == [first];
    assert Containing([], 100, 101) == [] && Containing([last], 100, 101) == [last];
    assert Containing(regions, 100, 101) == [last];
  }

  // ----- bytes -----

  /** Byte address `x` belongs to region `r` of the parameter `r.base`. */
  ghost predicate InRegion(entry: Entry, r: Region, x: Word)
  {
    r.length.LengthLiteral? &&
    exists d: nat :: d < r.length.bytes && x == RegionByte(entry, r, d)
  }

  function RegionByte(entry: Entry, r: Region, d: nat): (x: Word)
  {
    (entry(r.base) + r.offset + d) % TWO64
  }

  lemma ContainedByte(entry: Entry, r: Region, lo: int, width: nat, address: Word, k: nat)
    requires Contains(r, lo, width) && k < width && address == (entry(r.base) + lo) % TWO64
    ensures InRegion(entry, r, ByteAt(address, k))
  {
    var d := lo + k - r.offset;
    assert (entry(r.base) + lo + k) % TWO64 == ((entry(r.base) + lo) % TWO64 + k) % TWO64;
    assert RegionByte(entry, r, d) == ByteAt(address, k);
  }

  /** Every byte of the access is in a declared region that allows its mode. */
  ghost predicate Covered(regions: seq<Region>, entry: Entry, mode: AccessMode, address: Word, width: nat)
  {
    exists r :: r in regions && AccessAllowed(r.access, mode) &&
      forall k | 0 <= k < width :: InRegion(entry, r, ByteAt(address, k))
  }

  lemma ContainedCovered(
    regions: seq<Region>, entry: Entry, mode: AccessMode, r: Region, lo: int, width: nat, address: Word)
    requires r in regions && AccessAllowed(r.access, mode) && Contains(r, lo, width)
    requires address == (entry(r.base) + lo) % TWO64
    ensures Covered(regions, entry, mode, address, width)
  {
    forall k | 0 <= k < width ensures InRegion(entry, r, ByteAt(address, k)) {
      ContainedByte(entry, r, lo, width, address, k);
    }
  }

  /** What keeps a row's arithmetic exact and its range without a gap. */
  ghost predicate Exact(regions: seq<Region>, a: Access)
  {
    match a.addr
    case Affine(_, offset) => I64_MIN <= offset && offset + a.width <= I64_MAX
    case Indexed(base, scale, disp, c, max) =>
      if c.Some? then
        c.value <= I64_MAX && c.value * scale <= I64_MAX &&
        I64_MIN <= c.value * scale + disp && c.value * scale + disp + a.width <= I64_MAX
      else max.Some? && max.value > 0 ==>
        RangeFits(scale, disp, max.value, a.width) && NoGap(regions, base, a.mode, a.width, scale)
    case _ => true
  }

  lemma AdmitsCovered(
    regions: seq<Region>, base: string, mode: AccessMode, width: nat, lo: int, entry: Entry, address: Word)
    requires Admits(regions, base, mode, width, lo) && address == (entry(base) + lo) % TWO64
    ensures Covered(regions, entry, mode, address, width)
  {
    hide Covered;
    var r :| r in regions && Usable(r, base, mode) && Contains(r, lo, width);
    ContainedCovered(regions, entry, mode, r, lo, width, address);
  }

  lemma AffineCovered(
    regions: seq<Region>, a: Access, base: string, offset: int, entry: Entry, address: Word)
    requires InsideAllowed(JudgeAffine(regions, a, base, offset))
    requires I64_MIN <= offset && offset + a.width <= I64_MAX && I64Offsets(regions)
    requires address == (entry(base) + offset) % TWO64
    ensures Covered(regions, entry, a.mode, address, a.width)
  {
    hide *;
    AffineRowExact(regions, a, base, offset);
    AdmitsCovered(regions, base, a.mode, a.width, offset, entry, address);
  }

  lemma RangeCovered(
    regions: seq<Region>, a: Access, base: string, scale: nat, disp: int, max: nat,
    entry: Entry, index: Word, address: Word)
    requires RangeFits(scale, disp, max, a.width) && index < max && I64Offsets(regions)
    requires InsideAllowed(JudgeRange(regions, a, base, scale, disp, max))
    requires NoGap(regions, base, a.mode, a.width, scale)
    requires address == (entry(base) + index * scale + disp) % TWO64
    ensures Covered(regions, entry, a.mode, address, a.width)
  {
    hide *;
    RangeFilled(regions, a, base, scale, disp, max, index);
    AdmitsCovered(regions, base, a.mode, a.width, index * scale + disp, entry, address);
  }

  /** An `Inside`, `Allowed` row is right about every machine address its record describes. */
  lemma JudgedCovered(regions: seq<Region>, a: Access, m: MemOperand, entry: Entry, s: State)
    requires !a.addr.StackFrame? && InsideAllowed(Judge(regions, a)) && Exact(regions, a)
    requires I64Offsets(regions)
    requires AddressOk(a.addr, m, entry, s)
    ensures Covered(regions, entry, a.mode, EffectiveAddress(s.regs, m), a.width)
  {
    hide EffectiveAddress;
    hide Covered;
    hide JudgeAffine;
    hide JudgeRange;
    match a.addr
    case Affine(base, offset) =>
      AffineCovered(regions, a, base, offset, entry, EffectiveAddress(s.regs, m));
    case Indexed(base, scale, disp, c, max) =>
      if c.Some? {
        AffineCovered(regions, a, base, c.value * scale + disp, entry, EffectiveAddress(s.regs, m));
      } else if max.Some? {
        RangeCovered(regions, a, base, scale, disp, max.value, entry, ViewOr0(s.regs, m.index),
                     EffectiveAddress(s.regs, m));
      }
    case UnknownAddr =>
  }

  // ----- runs -----

  /** A confined loop whose recorded bound the loop theorems vouch for at `at`. */
  ghost predicate SoundLoop(p: Program, l: Loop, at: nat)
  {
    || (PreTest(p, l) && l.head + 2 <= at < l.bump)
    || LoopEntry.SafelyEntered(p, l, at)
    || (Countdown.CountdownLoop(p, l, at) && l.back < |p.code| && l.bump < |p.code| && !Countdown.Wraps(p, l))
  }

  ghost predicate FromSoundLoop(p: Program, at: nat, f: Fact)
  {
    exists l :: SoundLoop(p, l, at) && f == Fact(l.gp, l.bound)
  }

  lemma SoundLoopBounded(p: Program, l: Loop, at: nat)
    requires SoundLoop(p, l, at)
    ensures BoundedAtEveryVisit(p, l, at)
  {
    hide Run;
    if PreTest(p, l) && l.head + 2 <= at < l.bump {
      forall s: State, es: seq<Env> | LoopSoundness.Outside(l, s.pc) && Run(p, s, es).pc == at
        ensures Run(p, s, es).regs(l.gp) < l.bound
      {
        PreTestSound(p, l, s, es);
      }
    } else if LoopEntry.SafelyEntered(p, l, at) {
      LoopEntry.EntryExact(p, l, at);
    } else {
      Countdown.CountdownExact(p, l, at);
    }
  }

  /** A fact of a sound loop holds at every visit of every run from entry. */
  lemma FactHolds(p: Program, at: nat, f: Fact, s: State, es: seq<Env>)
    requires FromSoundLoop(p, at, f) && s.pc == 0 && Run(p, s, es).pc == at
    ensures Run(p, s, es).regs(f.gp) < f.bound
  {
    hide Run;
    hide SoundLoop;
    var l :| SoundLoop(p, l, at) && f == Fact(l.gp, l.bound);
    SoundLoopBounded(p, l, at);
  }

  /** The report of the whole pass is `Passed`. */
  ghost predicate ReportPassed(p: Program, params: seq<Param>, abi: Abi, regions: seq<Region>)
  {
    forall e | e in Rows(regions, Effects(p.code, AllInductions(p), Initial(params, abi), |p.code|)) ::
      InsideAllowed(e)
  }

  /**
   End to end: when the region report of a tracked program passes, whatever a
   fall-through run is about to read or write through a memory operand is recorded,
   and touches only bytes of a declared region that allows it.
   */
  lemma PassedAccessCovered(
    p: Program, params: seq<Param>, abi: Abi, regions: seq<Region>, entry: Entry,
    s: State, es: seq<Env>, j: nat)
    requires AtEntry(params, abi, entry, s) && |es| < |p.code|
    requires FallThroughRun(p, Initial(params, abi), s, es)
    requires ReportPassed(p, params, abi, regions)
    requires I64Offsets(regions)
    requires Touches(p.code[|es|], j) && FullAddress(p.code[|es|].operands[j].mem)
    requires FactAt(AllInductions(p), |es|).Some? ==> FromSoundLoop(p, |es|, FactAt(AllInductions(p), |es|).value)
    ensures var access := OperandAccess(p.code[|es|], j, AbsAt(p.code, Initial(params, abi), |es|),
                                        FactAt(AllInductions(p), |es|));
            && access.Some? && access.value.width == Bytes(p.code[|es|].operands[j].mem.width)
            && (!access.value.addr.StackFrame? && Exact(regions, access.value) ==>
                  Covered(regions, entry, access.value.mode,
                          EffectiveAddress(Run(p, s, es).regs, p.code[|es|].operands[j].mem),
                          access.value.width))
  {
    hide Run;
    hide AllInductions;
    hide Initial;
    hide Covered;
    hide Exact;
    hide Judge;
    hide Classify;
    hide Transfer;
    hide EffectiveAddress;
    var n := |es|;
    var a, m := AbsAt(p.code, Initial(params, abi), n), p.code[n].operands[j].mem;
    var f := FactAt(AllInductions(p), n);
    var access := OperandAccess(p.code[n], j, a, f);
    TouchedRecorded(p.code[n], j, a, f);
    hide Touches;
    if !access.value.addr.StackFrame? && Exact(regions, access.value) {
      InitialSound(params, abi, entry, s);
      LinearSound(p, Initial(params, abi), entry, s, es);
      if f.Some? { FactHolds(p, n, f.value, s, es); }
      ClassifySound(a, m, f, entry, Run(p, s, es));
      assert access.value in Effects(p.code, AllInductions(p), Initial(params, abi), |p.code|);
      assert Judge(regions, access.value) in
             Rows(regions, Effects(p.code, AllInductions(p), Initial(params, abi), |p.code|));
      JudgedCovered(regions, access.value, m, entry, Run(p, s, es));
    }
  }

  /** No instruction of the program may change `g`. */
  predicate NeverClobbered(p: Program, g: Gp)
  {
    forall k | 0 <= k < |p.code| :: !Clobbers(p.code[k], g)
  }

  lemma {:induction false} RunKeeps(p: Program, g: Gp, s: State, es: seq<Env>)
    requires NeverClobbered(p, g)
    ensures Run(p, s, es).regs(g) == s.regs(g)
  {
    hide Exec;
    hide MemoryAfter;
    hide Clobbers;
    if |es| > 0 {
      var t, e := Run(p, s, es[..|es| - 1]), es[|es| - 1];
      RunKeeps(p, g, s, es[..|es| - 1]);
      if t.pc < |p.code| {
        ExecFrame(p.code[t.pc], t, Resolve(p.code[t.pc], t, e), g);
      }
    }
  }

  /**
   Loops: when the recorded bound holds at every visit and the base register is
   never written, every visit of every run, however often it goes around, touches
   only bytes of a declared region.
   */
  lemma LoopAccessCovered(
    p: Program, l: Loop, at: nat, base: Gp, m: MemOperand, a: Access, regions: seq<Region>,
    entry: Entry, s: State, es: seq<Env>)
    requires BoundedAtEveryVisit(p, l, at) && LoopSoundness.Outside(l, s.pc) && Run(p, s, es).pc == at
    requires NeverClobbered(p, base) && FullAddress(m)
    requires m.base.Some? && m.base.value.storage == GpCell(base) && IndexGp(m) == Some(l.gp)
    requires a.addr.Indexed? && a.addr.scale == m.scale && a.addr.disp == m.disp
    requires a.addr.indexConst.None? && a.addr.indexMax == Some(l.bound)
    requires s.regs(base) == entry(a.addr.base)
    requires InsideAllowed(Judge(regions, a)) && Exact(regions, a)
    requires I64Offsets(regions)
    ensures Covered(regions, entry, a.mode, EffectiveAddress(Run(p, s, es).regs, m), a.width)
  {
    hide Run;
    hide Covered;
    hide Exact;
    hide Judge;
    RunKeeps(p, base, s, es);
    JudgedCovered(regions, a, m, entry, Run(p, s, es));
  }

  // ----- every visit of a recorded loop -----

  /** The pass never changes what it holds about the parameter of a register nobody writes. */
  lemma AffinityElsewhere(a: Abs, i: LoweredInstr, g: Gp)
    requires !Clobbers(i, g)
    ensures g in Transfer(a, i).affinity <==> g in a.affinity
    ensures g in a.affinity ==> Transfer(a, i).affinity[g] == a.affinity[g]
  {
    if IsGuard(i.mnemonic) && a.pending.Some? {
      hide Without;
    } else {
      assert InSubset(i.mnemonic) by { hide Without; hide GpOperand; }
      hide Clobbers;
      FactsElsewhere(a, i, g);
      hide Transfer;
    }
  }

  lemma {:induction false} AffinityKept(p: Program, a: Abs, g: Gp, n: nat)
    requires NeverClobbered(p, g) && n <= |p.code| && g in a.affinity
    ensures g in AbsAt(p.code, a, n).affinity && AbsAt(p.code, a, n).affinity[g] == a.affinity[g]
  {
    hide Transfer;
    hide Clobbers;
    if n > 0 {
      AffinityKept(p, a, g, n - 1);
      AffinityElsewhere(AbsAt(p.code, a, n - 1), p.code[n - 1], g);
    }
  }

  /** Memory operand `m` goes through a seeded register nobody writes, indexed by the loop's register. */
  ghost predicate LoopOperand(p: Program, a: Abs, l: Loop, m: MemOperand)
  {
    && FullAddress(m) && IndexGp(m) == Some(l.gp)
    && m.base.Some? && m.base.value.storage.GpCell?
    && m.base.value.storage.gp in a.affinity && NeverClobbered(p, m.base.value.storage.gp)
  }

  /** The record the collector makes of such an operand. */
  lemma LoopRecord(p: Program, a: Abs, l: Loop, m: MemOperand, n: nat)
    requires LoopOperand(p, a, l, m) && n <= |p.code|
    ensures Classify(m, AbsAt(p.code, a, n), Some(Fact(l.gp, l.bound))) ==
            Indexed(a.affinity[m.base.value.storage.gp], m.scale, m.disp, None, Some(l.bound))
  {
    hide AbsAt;
    AffinityKept(p, a, m.base.value.storage.gp, n);
  }

  /**
   For every program: when the report passes, every visit of every run from entry to an
   access that a sound loop bounds is recorded and touches only bytes of a declared
   region that allows it.  The record judged is the collector's own.
   */
  lemma LoopVisitCovered(
    p: Program, params: seq<Param>, abi: Abi, regions: seq<Region>, l: Loop, at: nat, j: nat,
    entry: Entry, s: State, es: seq<Env>)
    requires AtEntry(params, abi, entry, s) && ReportPassed(p, params, abi, regions) && I64Offsets(regions)
    requires SoundLoop(p, l, at) && FactAt(AllInductions(p), at) == Some(Fact(l.gp, l.bound))
    requires at < |p.code| && Touches(p.code[at], j)
    requires LoopOperand(p, Initial(params, abi), l, p.code[at].operands[j].mem)
    requires Run(p, s, es).pc == at
    ensures var access := OperandAccess(p.code[at], j, AbsAt(p.code, Initial(params, abi), at),
                                        FactAt(AllInductions(p), at));
            && access.Some? && access.value.width == Bytes(p.code[at].operands[j].mem.width)
            && (Exact(regions, access.value) ==>
                  Covered(regions, entry, access.value.mode,
                          EffectiveAddress(Run(p, s, es).regs, p.code[at].operands[j].mem),
                          access.value.width))
  {
    hide Run;
    hide AllInductions;
    hide Initial;
    hide Covered;
    hide Exact;
    hide Judge;
    hide Classify;
    hide Transfer;
    hide EffectiveAddress;
    hide SoundLoop;
    hide I64Offsets;
    hide FullAddress;
    hide NeverClobbered;
    var a0, m := Initial(params, abi), p.code[at].operands[j].mem;
    var access := OperandAccess(p.code[at], j, AbsAt(p.code, a0, at), FactAt(AllInductions(p), at));
    TouchedRecorded(p.code[at], j, AbsAt(p.code, a0, at), FactAt(AllInductions(p), at));
    hide Touches;
    if Exact(regions, access.value) {
      LoopRecord(p, a0, l, m, at);
      SoundLoopBounded(p, l, at);
      SeededBase(params, abi, entry, s, m.base.value.storage.gp);
      assert access.value in Effects(p.code, AllInductions(p), a0, |p.code|);
      assert Judge(regions, access.value) in
             Rows(regions, Effects(p.code, AllInductions(p), a0, |p.code|));
      LoopAccessCovered(p, l, at, m.base.value.storage.gp, m, access.value, regions, entry, s, es);
    }
  }

  lemma SeededBase(params: seq<Param>, abi: Abi, entry: Entry, s: State, g: Gp)
    requires AtEntry(params, abi, entry, s) && g in Initial(params, abi).affinity
    ensures s.regs(g) == entry(Initial(params, abi).affinity[g])
  {
    var regs := ArgumentRegisters(abi);
    SeededOk(params, abi, entry, s, if |params| < |regs| then |params| else |regs|, g);
  }
}
