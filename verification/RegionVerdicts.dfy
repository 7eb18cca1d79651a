/**
 The region report in terms of bytes: what each row and each status says about the
 declared regions and the accesses alone.
 */
module RegionVerdicts {
  import opened Basics
  import opened X86
  import opened Machine
  import opened Recognisers
  import opened MemoryEffects
  import opened AccessRecords
  import opened AbstractSoundness
  import opened RegionAccess
  import opened RegionSoundness

  // ----- one region -----

  predicate InSpan(lo: int, n: nat, d: int)
  {
    lo <= d < lo + n
  }

  /** Some byte belongs to both spans. */
  ghost predicate Overlap(lo: int, n: nat, lo': int, n': nat)
  {
    exists d :: InSpan(lo, n, d) && InSpan(lo', n', d)
  }

  lemma OverlapExact(lo: int, n: nat, lo': int, n': nat)
    ensures Overlap(lo, n, lo', n') <==> n > 0 && n' > 0 && lo < lo' + n' && lo' < lo + n
  {
    if n > 0 && n' > 0 && lo < lo' + n' && lo' < lo + n {
      var d := if lo < lo' then lo' else lo;
      assert InSpan(lo, n, d) && InSpan(lo', n', d);
    }
  }

  /** A length the region may turn out to have. */
  predicate PossibleLength(r: Region, n: nat)
  {
    r.length.LengthLiteral? ==> n == r.length.bytes
  }

  /** For some length of the region the access shares a byte with it. */
  ghost predicate MayShare(r: Region, lo: int, width: nat)
  {
    exists n: nat :: PossibleLength(r, n) && Overlap(lo, width, r.offset, n)
  }

  /** A declared region without a byte, strictly within the access. */
  predicate EmptyWithin(r: Region, lo: int, width: nat)
  {
    r.length == LengthLiteral(0) && lo < r.offset < lo + width
  }

  /** Sharing a byte, or having an empty region in the middle. */
  ghost predicate Meets(r: Region, lo: int, width: nat)
  {
    MayShare(r, lo, width) || EmptyWithin(r, lo, width)
  }

  /**
   "Outside" is sharing no byte, whatever length a parameter has; only an empty region
   within the access, which shares none, is not called outside.
   */
  lemma OutsideExact(r: Region, lo: int, width: nat)
    requires width > 0 && I64_MIN <= lo && lo + width <= I64_MAX && I64_MIN <= r.offset <= I64_MAX
    ensures ClassifyVsRegion(r, lo, Clamp(lo + width)).Outside? <==> !Meets(r, lo, width)
    ensures EmptyWithin(r, lo, width) ==> !MayShare(r, lo, width)
  {
    match r.length
    case LengthLiteral(bytes) =>
      OverlapExact(lo, width, r.offset, bytes);
      if MayShare(r, lo, width) {
        var n: nat :| PossibleLength(r, n) && Overlap(lo, width, r.offset, n);
      }
      if Overlap(lo, width, r.offset, bytes) { assert PossibleLength(r, bytes); }
    case LengthParam(_) =>
      if r.offset < lo + width {
        var n := if lo < r.offset then 1 else lo - r.offset + 1;
        OverlapExact(lo, width, r.offset, n);
        assert PossibleLength(r, n);
      } else {
        forall n: nat ensures !Overlap(lo, width, r.offset, n) { OverlapExact(lo, width, r.offset, n); }
      }
  }

  /** An access that begins before the largest offset and ends past it is called outside of a region there. */
  lemma SaturatedOutside() returns (r: Region, lo: int, width: nat)
    ensures I64_MIN <= lo <= I64_MAX && I64_MIN <= r.offset <= I64_MAX && width > 0
    ensures ClassifyVsRegion(r, lo, Clamp(lo + width)).Outside? && MayShare(r, lo, width)
  {
    r := Region("r", "p", I64_MAX, LengthLiteral(1), Read);
    lo, width := I64_MAX - 4, 8;
    OverlapExact(lo, width, r.offset, 1);
    assert PossibleLength(r, 1);
  }

  // ----- one offset -----

  predicate HasRegion(regions: seq<Region>, base: string)
  {
    exists r | r in regions :: r.base == base
  }

  predicate AnyUsable(regions: seq<Region>, base: string, mode: AccessMode)
  {
    exists r | r in regions :: Usable(r, base, mode)
  }

  /** The access meets some region of the base. */
  ghost predicate Reaches(regions: seq<Region>, base: string, lo: int, width: nat)
  {
    exists r :: r in regions && r.base == base && Meets(r, lo, width)
  }

  predicate Holds(regions: seq<Region>, base: string, lo: int, width: nat)
  {
    exists r | r in regions :: r.base == base && Contains(r, lo, width)
  }

  predicate Fitting(lo: int, width: nat)
  {
    width > 0 && I64_MIN <= lo && lo + width <= I64_MAX
  }

  lemma CandidatesMean(regions: seq<Region>, base: string)
    ensures Candidates(regions, base) == [] <==> !HasRegion(regions, base)
  {
    var c := Candidates(regions, base);
    if c != [] { assert c[0] in c; }
  }

  lemma ContainingMeans(regions: seq<Region>, base: string, lo: int, width: nat)
    requires I64Offsets(regions) && Fitting(lo, width)
    ensures var inside := Containing(Candidates(regions, base), lo, Clamp(lo + width));
            && (inside == [] <==> !Holds(regions, base, lo, width))
            && forall r :: r in inside <==> r in regions && r.base == base && Contains(r, lo, width)
  {
    hide ClassifyVsRegion;
    hide Candidates;
    hide Containing;
    var inside := Containing(Candidates(regions, base), lo, Clamp(lo + width));
    forall r | r in regions
      ensures ClassifyVsRegion(r, lo, Clamp(lo + width)).Inside? <==> Contains(r, lo, width)
    {
      InsideIsContainment(r, lo, width);
    }
    if inside != [] { assert inside[0] in inside; }
  }

  /** A row says "outside" if and only if the base has regions and none of them meets the access. */
  lemma OutsideRowExact(regions: seq<Region>, a: Access, base: string, offset: int)
    requires I64Offsets(regions) && Fitting(offset, a.width)
    ensures JudgeAffine(regions, a, base, offset).bounds == ProvenOutside <==>
              HasRegion(regions, base) && !Reaches(regions, base, offset, a.width)
  {
    hide ClassifyVsRegion;
    hide Candidates;
    hide Containing;
    hide Preferred;
    hide Meets;
    CandidatesMean(regions, base);
    ContainingMeans(regions, base, offset, a.width);
    forall r | r in regions
      ensures ClassifyVsRegion(r, offset, Clamp(offset + a.width)).Outside? <==> !Meets(r, offset, a.width)
    {
      OutsideExact(r, offset, a.width);
    }
    if Holds(regions, base, offset, a.width) { ContainedReaches(regions, base, offset, a.width); }
  }

  lemma ContainedReaches(regions: seq<Region>, base: string, lo: int, width: nat)
    requires width > 0 && Holds(regions, base, lo, width)
    ensures Reaches(regions, base, lo, width) && HasRegion(regions, base)
  {
    var r :| r in regions && r.base == base && Contains(r, lo, width);
    OverlapExact(lo, width, r.offset, r.length.bytes);
    assert PossibleLength(r, r.length.bytes);
    assert MayShare(r, lo, width);
  }

  /** The three ways a row comes about. */
  lemma AffineCases(regions: seq<Region>, a: Access, base: string, offset: int)
    ensures var c := Candidates(regions, base);
            var inside := Containing(c, offset, Clamp(offset + a.width));
            var e := JudgeAffine(regions, a, base, offset);
            && (e.permission == Denied <==>
                  if inside != [] then !AccessAllowed(Preferred(inside, a.mode).access, a.mode)
                  else c != [] && e.bounds != ProvenOutside && !AccessAllowed(Preferred(c, a.mode).access, a.mode))
            && (RelyingRow(e) <==>
                  inside == [] && c != [] && e.bounds != ProvenOutside &&
                  Preferred(c, a.mode).length.LengthParam? && AccessAllowed(Preferred(c, a.mode).access, a.mode))
  {
    hide ClassifyVsRegion;
    hide Candidates;
    hide Preferred;
    hide AccessAllowed;
    var c := Candidates(regions, base);
    if c == [] { assert Containing(c, offset, Clamp(offset + a.width)) == []; }
    hide Containing;
  }

  lemma InsideAdmits(regions: seq<Region>, base: string, lo: int, width: nat, mode: AccessMode)
    requires I64Offsets(regions) && Fitting(lo, width) && Holds(regions, base, lo, width)
    ensures var inside := Containing(Candidates(regions, base), lo, Clamp(lo + width));
            && inside != []
            && (AccessAllowed(Preferred(inside, mode).access, mode) <==> Admits(regions, base, mode, width, lo))
  {
    hide Candidates;
    hide Containing;
    hide Preferred;
    hide Contains;
    hide AccessAllowed;
    ContainingMeans(regions, base, lo, width);
  }

  /** A row is denied if and only if what contains, or else what can meet, the access forbids its mode. */
  lemma DeniedRowExact(regions: seq<Region>, a: Access, base: string, offset: int)
    requires I64Offsets(regions) && Fitting(offset, a.width)
    ensures JudgeAffine(regions, a, base, offset).permission == Denied <==>
              if Holds(regions, base, offset, a.width)
              then !Admits(regions, base, a.mode, a.width, offset)
              else Reaches(regions, base, offset, a.width) && !AnyUsable(regions, base, a.mode)
  {
    hide *;
    AffineCases(regions, a, base, offset);
    OutsideRowExact(regions, a, base, offset);
    CandidatesMean(regions, base);
    ContainingMeans(regions, base, offset, a.width);
    PreferredMeans(regions, base, a.mode);
    if Holds(regions, base, offset, a.width) { InsideAdmits(regions, base, offset, a.width, a.mode); }
    if Reaches(regions, base, offset, a.width) { ReachesHas(regions, base, offset, a.width); }
  }

  lemma ReachesHas(regions: seq<Region>, base: string, lo: int, width: nat)
    requires Reaches(regions, base, lo, width)
    ensures HasRegion(regions, base)
  {
    hide Meets;
  }

  /** The first region of the base that allows the mode. */
  predicate FirstUsable(regions: seq<Region>, base: string, mode: AccessMode, k: nat)
  {
    k < |regions| && Usable(regions[k], base, mode) && forall j | 0 <= j < k :: !Usable(regions[j], base, mode)
  }

  ghost predicate FirstUsableHasParam(regions: seq<Region>, base: string, mode: AccessMode)
  {
    exists k: nat :: FirstUsable(regions, base, mode, k) && regions[k].length.LengthParam?
  }

  lemma {:induction false} PreferredIsFirst(regions: seq<Region>, base: string, mode: AccessMode, k: nat)
    requires FirstUsable(regions, base, mode, k)
    ensures Candidates(regions, base) != [] && Preferred(Candidates(regions, base), mode) == regions[k]
  {
    var c := Candidates(regions, base);
    if k > 0 {
      assert forall j | 0 <= j < k - 1 :: regions[1..][j] == regions[j + 1];
      PreferredIsFirst(regions[1..], base, mode, k - 1);
      if regions[0].base == base { assert c[1..] == Candidates(regions[1..], base); }
    }
  }

  lemma {:induction false} FirstOfUsable(regions: seq<Region>, base: string, mode: AccessMode) returns (k: nat)
    requires AnyUsable(regions, base, mode)
    ensures FirstUsable(regions, base, mode, k)
  {
    if Usable(regions[0], base, mode) {
      k := 0;
    } else {
      var r :| r in regions && Usable(r, base, mode);
      assert r in regions[1..];
      var k' := FirstOfUsable(regions[1..], base, mode);
      k := k' + 1;
      assert forall j | 0 < j < k :: regions[j] == regions[1..][j - 1];
    }
  }

  /** A row leans on a length the caller vouches for. */
  lemma RelyingRowExact(regions: seq<Region>, a: Access, base: string, offset: int)
    requires I64Offsets(regions) && Fitting(offset, a.width)
    ensures RelyingRow(JudgeAffine(regions, a, base, offset)) <==>
              && !Holds(regions, base, offset, a.width) && Reaches(regions, base, offset, a.width)
              && FirstUsableHasParam(regions, base, a.mode)
  {
    hide *;
    AffineCases(regions, a, base, offset);
    OutsideRowExact(regions, a, base, offset);
    CandidatesMean(regions, base);
    ContainingMeans(regions, base, offset, a.width);
    PreferredMeans(regions, base, a.mode);
    if Reaches(regions, base, offset, a.width) { ReachesHas(regions, base, offset, a.width); }
  }

  lemma PreferredMeans(regions: seq<Region>, base: string, mode: AccessMode)
    ensures AnyUsable(regions, base, mode) ==>
              Candidates(regions, base) != [] &&
              (FirstUsableHasParam(regions, base, mode) <==>
                 Preferred(Candidates(regions, base), mode).length.LengthParam?) &&
              AccessAllowed(Preferred(Candidates(regions, base), mode).access, mode)
    ensures !AnyUsable(regions, base, mode) ==> !FirstUsableHasParam(regions, base, mode)
    ensures !AnyUsable(regions, base, mode) && Candidates(regions, base) != [] ==>
              !AccessAllowed(Preferred(Candidates(regions, base), mode).access, mode)
  {
    if AnyUsable(regions, base, mode) {
      var k := FirstOfUsable(regions, base, mode);
      PreferredIsFirst(regions, base, mode, k);
      forall k': nat | FirstUsable(regions, base, mode, k') ensures regions[k'] == regions[k] {
        PreferredIsFirst(regions, base, mode, k');
      }
    }
  }

  // ----- any access -----

  /** A row about an index nobody bounds: the base's regions decide by permission alone. */
  lemma IndexedRowExact(regions: seq<Region>, a: Access, base: string)
    ensures var e := JudgeIndexed(regions, a, base);
            && !InsideAllowed(e)
            && (FailingRow(e) <==> HasRegion(regions, base) && !AnyUsable(regions, base, a.mode))
            && (RelyingRow(e) <==> AnyUsable(regions, base, a.mode))
  {
    CandidatesMean(regions, base);
    PreferredMeans(regions, base, a.mode);
    if AnyUsable(regions, base, a.mode) { UsableHas(regions, base, a.mode); }
    hide Candidates;
    hide Preferred;
    hide AccessAllowed;
    hide AnyUsable;
    hide HasRegion;
  }

  lemma UsableHas(regions: seq<Region>, base: string, mode: AccessMode)
    requires AnyUsable(regions, base, mode)
    ensures HasRegion(regions, base)
  {
  }

  /** The one offset an access is at, if the record says so. */
  function KnownOffset(addr: AccessAddr): (lo: Option<int>)
  {
    match addr
    case Affine(_, offset) => Some(offset)
    case Indexed(_, scale, disp, Some(c), _) => Some(c * scale + disp)
    case _ => None
  }

  function BaseOf(addr: AccessAddr): (base: string)
    requires addr.Affine? || addr.Indexed?
  {
    if addr.Affine? then addr.base else addr.base
  }

  /** No sum or product the report forms about the access leaves the signed 64-bit range. */
  predicate Representable(a: Access)
  {
    a.width > 0 &&
    match a.addr
    case Affine(_, offset) => Fitting(offset, a.width)
    case Indexed(_, scale, disp, c, max) =>
      if c.Some? then
        c.value <= I64_MAX && c.value * scale <= I64_MAX && Fitting(c.value * scale + disp, a.width)
      else max.Some? && max.value > 0 ==> RangeFits(scale, disp, max.value, a.width)
    case _ => true
  }

  /** Both ends of the range the index is known to stay in are admitted. */
  ghost predicate EndsAdmitted(regions: seq<Region>, a: Access)
  {
    a.addr.Indexed? && a.addr.indexMax.Some? && a.addr.indexMax.value > 0 &&
    Admits(regions, a.addr.base, a.mode, a.width, a.addr.disp) &&
    Admits(regions, a.addr.base, a.mode, a.width, (a.addr.indexMax.value - 1) * a.addr.scale + a.addr.disp)
  }

  ghost predicate AccessPasses(regions: seq<Region>, a: Access)
  {
    if KnownOffset(a.addr).Some?
    then Admits(regions, BaseOf(a.addr), a.mode, a.width, KnownOffset(a.addr).value)
    else EndsAdmitted(regions, a)
  }

  ghost predicate AccessFails(regions: seq<Region>, a: Access)
  {
    if KnownOffset(a.addr).Some? then
      var base, lo := BaseOf(a.addr), KnownOffset(a.addr).value;
      if Holds(regions, base, lo, a.width) then !Admits(regions, base, a.mode, a.width, lo)
      else if Reaches(regions, base, lo, a.width) then !AnyUsable(regions, base, a.mode)
      else HasRegion(regions, base)
    else
      a.addr.Indexed? && !EndsAdmitted(regions, a) &&
      HasRegion(regions, a.addr.base) && !AnyUsable(regions, a.addr.base, a.mode)
  }

  ghost predicate AccessRelies(regions: seq<Region>, a: Access)
  {
    if KnownOffset(a.addr).Some? then
      var base, lo := BaseOf(a.addr), KnownOffset(a.addr).value;
      !Holds(regions, base, lo, a.width) && Reaches(regions, base, lo, a.width) &&
      FirstUsableHasParam(regions, base, a.mode)
    else
      a.addr.Indexed? && !EndsAdmitted(regions, a) && AnyUsable(regions, a.addr.base, a.mode)
  }

  lemma AffineExact(regions: seq<Region>, a: Access, base: string, lo: int)
    requires I64Offsets(regions) && Fitting(lo, a.width)
    ensures var e := JudgeAffine(regions, a, base, lo);
            && (InsideAllowed(e) <==> Admits(regions, base, a.mode, a.width, lo))
            && (FailingRow(e) <==>
                  if Holds(regions, base, lo, a.width) then !Admits(regions, base, a.mode, a.width, lo)
                  else if Reaches(regions, base, lo, a.width) then !AnyUsable(regions, base, a.mode)
                  else HasRegion(regions, base))
            && (RelyingRow(e) <==>
                  !Holds(regions, base, lo, a.width) && Reaches(regions, base, lo, a.width) &&
                  FirstUsableHasParam(regions, base, a.mode))
  {
    hide JudgeAffine;
    hide Admits;
    hide Holds;
    hide Reaches;
    hide HasRegion;
    hide AnyUsable;
    hide FirstUsableHasParam;
    AffineRowExact(regions, a, base, lo);
    OutsideRowExact(regions, a, base, lo);
    DeniedRowExact(regions, a, base, lo);
    RelyingRowExact(regions, a, base, lo);
    if Holds(regions, base, lo, a.width) { ContainedReaches(regions, base, lo, a.width); }
  }

  /** What the row of an access says, in terms of the declared regions and the access alone. */
  lemma JudgedExact(regions: seq<Region>, a: Access)
    requires I64Offsets(regions) && Representable(a) && !a.addr.StackFrame?
    ensures InsideAllowed(Judge(regions, a)) <==> AccessPasses(regions, a)
    ensures FailingRow(Judge(regions, a)) <==> AccessFails(regions, a)
    ensures RelyingRow(Judge(regions, a)) <==> AccessRelies(regions, a)
  {
    hide JudgeAffine;
    hide JudgeIndexed;
    hide JudgeRange;
    hide Admits;
    hide Holds;
    hide Reaches;
    hide HasRegion;
    hide AnyUsable;
    hide FirstUsableHasParam;
    match a.addr
    case Affine(base, offset) => AffineExact(regions, a, base, offset);
    case Indexed(base, scale, disp, c, max) =>
      if c.Some? {
        AffineExact(regions, a, base, c.value * scale + disp);
      } else {
        IndexedRowExact(regions, a, base);
        if max.Some? { RangeExactly(regions, a, base, scale, disp, max.value); }
      }
    case UnknownAddr =>
  }

  lemma RangeExactly(regions: seq<Region>, a: Access, base: string, scale: nat, disp: int, max: nat)
    requires I64Offsets(regions) && (max > 0 ==> RangeFits(scale, disp, max, a.width))
    ensures var e := JudgeRange(regions, a, base, scale, disp, max);
            if max > 0 && Admits(regions, base, a.mode, a.width, disp) &&
               Admits(regions, base, a.mode, a.width, (max - 1) * scale + disp)
            then InsideAllowed(e) && !FailingRow(e) && !RelyingRow(e)
            else e == JudgeIndexed(regions, a, base)
  {
    if max > 0 { RangeRowExact(regions, a, base, scale, disp, max); }
    hide JudgeAffine;
    hide JudgeIndexed;
    hide Admits;
    hide HighEnd;
    hide RangeFits;
  }

  // ----- the whole report -----

  ghost predicate AllRepresentable(accesses: seq<Access>)
  {
    forall a | a in accesses && !a.addr.StackFrame? :: Representable(a)
  }

  /**
   The status of a report, without its rows: it fails if and only if some access fails,
   passes if and only if every access passes, and passes under preconditions if and only
   if every access passes or relies on the caller and some access relies.
   */
  lemma StatusExact(regions: seq<Region>, accesses: seq<Access>)
    requires I64Offsets(regions) && AllRepresentable(accesses)
    ensures var status := StatusOf(Rows(regions, accesses));
            && (status == Failed <==>
                  exists a :: a in accesses && !a.addr.StackFrame? && AccessFails(regions, a))
            && (status == Passed <==>
                  forall a | a in accesses && !a.addr.StackFrame? :: AccessPasses(regions, a))
            && (status == PassedUnderPreconditions <==>
                  && (forall a | a in accesses && !a.addr.StackFrame? ::
                        AccessPasses(regions, a) || AccessRelies(regions, a))
                  && exists a :: a in accesses && !a.addr.StackFrame? && AccessRelies(regions, a))
  {
    hide Judge;
    hide Rows;
    hide AccessPasses;
    hide AccessFails;
    hide AccessRelies;
    hide I64Offsets;
    hide Representable;
    hide InsideAllowed;
    hide FailingRow;
    hide RelyingRow;
    forall a | a in accesses && !a.addr.StackFrame?
      ensures InsideAllowed(Judge(regions, a)) <==> AccessPasses(regions, a)
      ensures FailingRow(Judge(regions, a)) <==> AccessFails(regions, a)
      ensures RelyingRow(Judge(regions, a)) <==> AccessRelies(regions, a)
    {
      JudgedExact(regions, a);
    }
  }

  // ----- from a stray access to a failing report -----

  /** How the pass records an access at a fixed offset from a register nobody writes. */
  lemma FixedRecord(p: Program, params: seq<Param>, abi: Abi, g: Gp, m: MemOperand, n: nat, f: Option<Fact>)
    requires n <= |p.code| && NeverClobbered(p, g) && g in Initial(params, abi).affinity
    requires m.index.None? && m.base.Some? && m.base.value.storage == GpCell(g)
    ensures Classify(m, AbsAt(p.code, Initial(params, abi), n), f) ==
            Affine(Initial(params, abi).affinity[g], m.disp)
  {
    InitialExact(params, abi, g);
    AffinityKept(p, Initial(params, abi), g, n);
    hide AbsAt;
    hide Initial;
    hide NeverClobbered;
    assert g in ArgumentRegisters(abi);
  }

  /**
   For every program: an access at a fixed offset from an untouched pointer parameter that
   meets no declared region of that parameter makes the report fail.
   */
  lemma StrayAccessFails(
    p: Program, params: seq<Param>, abi: Abi, regions: seq<Region>, at: nat, j: nat, g: Gp)
    requires at < |p.code| && Touches(p.code[at], j) && I64Offsets(regions)
    requires NeverClobbered(p, g) && g in Initial(params, abi).affinity
    requires var m := p.code[at].operands[j].mem;
             && m.index.None? && m.base.Some? && m.base.value.storage == GpCell(g)
             && Fitting(m.disp, Bytes(m.width))
             && HasRegion(regions, Initial(params, abi).affinity[g])
             && !Reaches(regions, Initial(params, abi).affinity[g], m.disp, Bytes(m.width))
    ensures StatusOf(Rows(regions, Effects(p.code, AllInductions(p), Initial(params, abi), |p.code|))) == Failed
  {
    hide AllInductions;
    hide Initial;
    hide NeverClobbered;
    hide Classify;
    hide Reaches;
    hide HasRegion;
    hide AbsAt;
    hide Transfer;
    hide JudgeAffine;
    hide OperandAccess;
    var a0, m := Initial(params, abi), p.code[at].operands[j].mem;
    var a, f := AbsAt(p.code, a0, at), FactAt(AllInductions(p), at);
    TouchedRecorded(p.code[at], j, a, f);
    FixedRecord(p, params, abi, g, m, at, f);
    hide Touches;
    var access := OperandAccess(p.code[at], j, a, f).value;
    OutsideRowExact(regions, access, a0.affinity[g], m.disp);
    var effects := Effects(p.code, AllInductions(p), a0, |p.code|);
    assert access in effects;
    assert Judge(regions, access) in Rows(regions, effects);
    assert FailingRow(Judge(regions, access));
  }

  /** The region a passing row names is one that allows and contains the access. */
  lemma NamedRegion(regions: seq<Region>, a: Access, base: string, offset: int)
    requires I64Offsets(regions) && Fitting(offset, a.width)
    requires InsideAllowed(JudgeAffine(regions, a, base, offset))
    ensures var named := JudgeAffine(regions, a, base, offset).region;
            named.Some? && named.value in regions && Usable(named.value, base, a.mode) &&
            Contains(named.value, offset, a.width)
  {
    hide Candidates;
    hide Containing;
    hide Preferred;
    hide ClassifyVsRegion;
    hide Contains;
    hide AccessAllowed;
    hide Holds;
    ContainingMeans(regions, base, offset, a.width);
    hide I64Offsets;
  }

  /** The region a passing range row names contains the access at the last index. */
  lemma NamedRange(regions: seq<Region>, a: Access, base: string, scale: nat, disp: int, max: nat)
    requires max > 0 && RangeFits(scale, disp, max, a.width) && a.width > 0 && I64Offsets(regions)
    requires InsideAllowed(JudgeRange(regions, a, base, scale, disp, max))
    ensures var named := JudgeRange(regions, a, base, scale, disp, max).region;
            named.Some? && named.value in regions && Usable(named.value, base, a.mode) &&
            Contains(named.value, (max - 1) * scale + disp, a.width)
  {
    HighEndExact(scale, disp, max, a.width);
    RangeRowEnds(regions, a, base, scale, disp, max);
    NamedRegion(regions, a, base, (max - 1) * scale + disp);
    hide JudgeAffine;
    hide JudgeIndexed;
    hide HighEnd;
    hide Contains;
    hide I64Offsets;
  }

  /** Loads need a region that may be read, stores one that may be written. */
  lemma PermissionExact(p: Permission, m: AccessMode)
    ensures AccessAllowed(p, m) <==> p == ReadWrite || p == (if m == Load then Read else Write)
  {
  }
}
