/**
 The four loop-induction recognisers of the memory-effect collector
 (crates/semasm-cli/src/memory_effects.rs:54-564).  Each `Discover*` method is
 the source's scan; each is proved against a function of the code.
 */
module Recognisers {
  import opened Basics
  import opened X86
  import opened Machine

  /** "At this instruction the index register is below `bound`." */
  datatype Fact = Fact(gp: Gp, bound: nat)

  type Inductions = map<nat, Fact>

  // ----- what one instruction does, as the collector sees it -----

  predicate WritesGp(i: LoweredInstr, gp: Gp)
  {
    GpOperand(i, 0) == Some(gp) &&
    match i.mnemonic
    case Mov | Movabs | Movzx | Movsx | Movsxd | Lea | Pop | Xor | And | Or | Add | Sub | Adc | Sbb
       | Inc | Dec | Neg | Not | Imul | Mul | Shl | Shr | Sal | Sar | Rol | Ror => true
    case _ => false
  }

  predicate IsIncOf(i: LoweredInstr, gp: Gp)
  {
    i.mnemonic == Inc && GpOperand(i, 0) == Some(gp)
  }

  predicate IsBumpOf(i: LoweredInstr, gp: Gp)
  {
    IsIncOf(i, gp) ||
    (i.mnemonic == Add && GpOperand(i, 0) == Some(gp) && ImmOperand(i, 1) == Some(1))
  }

  predicate IsDecOf(i: LoweredInstr, gp: Gp)
  {
    i.mnemonic == Dec && GpOperand(i, 0) == Some(gp)
  }

  predicate IsLoopBranch(m: Mnemonic)
  {
    (m.Jb? || m.Jnae? || m.Jl? || m.Jnge?)
  }

  predicate IsCountdownBranch(m: Mnemonic)
  {
    m.Jnz? || m.Jne? || m.Jns?
  }

  predicate IsGuard(m: Mnemonic)
  {
    (m.Jae? || m.Jnb? || m.Jge?)
  }

  /** `cmp gp, n` with a positive immediate. */
  predicate ComparesTo(i: LoweredInstr, gp: Gp, n: nat)
  {
    i.mnemonic == Cmp && GpOperand(i, 0) == Some(gp) && ImmOperand(i, 1) == Some(n) && n > 0
  }

  predicate IndexedBy(i: LoweredInstr, gp: Gp)
  {
    exists k | 0 <= k < |i.operands| :: i.operands[k].Mem? && IndexGp(i.operands[k].mem) == Some(gp)
  }

  // ----- index_was_zero_initialized -----

  datatype Scan = Stop(zeroed: bool) | Skip

  function ZeroScan(i: LoweredInstr, gp: Gp): (r: Scan)
  {
    match i.mnemonic
    case Xor =>
      if GpOperand(i, 0) == Some(gp) && GpOperand(i, 1).Some?
      then Stop(GpOperand(i, 1) == Some(gp)) else Skip
    case Mov | Movabs =>
      if GpOperand(i, 0) == Some(gp) then Stop(ImmOperand(i, 1) == Some(0)) else Skip
    case Inc | Dec | Add | Sub | Adc | Sbb | Pop | Movzx | Movsx | Movsxd | And | Or | Lea
       | Imul | Mul | Neg | Not | Shl | Shr =>
      if GpOperand(i, 0) == Some(gp) then Stop(false) else Skip
    case _ => Skip
  }

  /** `i` has `gp` as its destination under one of `names`. */
  predicate Names(i: LoweredInstr, gp: Gp, names: set<Mnemonic>)
  {
    GpOperand(i, 0) == Some(gp) && i.mnemonic in names
  }

  /** `xor gp, gp`, `mov gp, 0` or `movabs gp, 0`. */
  predicate Zeroes(i: LoweredInstr, gp: Gp)
  {
    || (Names(i, gp, {Xor}) && GpOperand(i, 1) == Some(gp))
    || (Names(i, gp, {Mov, Movabs}) && ImmOperand(i, 1) == Some(0))
  }

  const ZERO_WRITERS: set<Mnemonic> :=
    { Mov, Movabs, Movzx, Movsx, Movsxd, Lea, Pop, And, Or, Add, Sub, Adc, Sbb, Inc, Dec, Neg, Not,
      Imul, Mul, Shl, Shr }

  /** A write of `gp` the backward scan sees; an `xor` only if its source is a register. */
  predicate SeenWriting(i: LoweredInstr, gp: Gp)
  {
    Names(i, gp, ZERO_WRITERS) || (Names(i, gp, {Xor}) && GpOperand(i, 1).Some?)
  }

  lemma ScanMeans(i: LoweredInstr, gp: Gp)
    ensures ZeroScan(i, gp) == Stop(true) <==> Zeroes(i, gp)
    ensures ZeroScan(i, gp).Skip? <==> !SeenWriting(i, gp)
    ensures Zeroes(i, gp) ==> SeenWriting(i, gp)
  {
    hide GpOperand;
    hide ImmOperand;
  }

  /** `gp` is zeroed at `z` and no write the scan sees comes after it. */
  ghost predicate ZeroedAt(code: seq<LoweredInstr>, z: nat, before: nat, gp: Gp)
    requires before <= |code|
  {
    z < before && Zeroes(code[z], gp) && forall k | z < k < before :: !SeenWriting(code[k], gp)
  }

  function ZeroInit(code: seq<LoweredInstr>, before: nat, gp: Gp): (r: bool)
    requires before <= |code|
  {
    if before == 0 then false
    else match ZeroScan(code[before - 1], gp)
      case Stop(zeroed) => zeroed
      case Skip => ZeroInit(code, before - 1, gp)
  }

  lemma {:induction false} ZeroInitMeaning(code: seq<LoweredInstr>, before: nat, gp: Gp)
    requires before <= |code|
    ensures ZeroInit(code, before, gp) <==> exists z :: ZeroedAt(code, z, before, gp)
  {
    hide ZeroScan;
    hide Zeroes;
    hide SeenWriting;
    if before > 0 {
      ScanMeans(code[before - 1], gp);
      match ZeroScan(code[before - 1], gp)
      case Stop(zeroed) =>
        if zeroed { assert ZeroedAt(code, before - 1, before, gp); }
      case Skip =>
        ZeroInitMeaning(code, before - 1, gp);
        if ZeroInit(code, before, gp) {
          var z :| ZeroedAt(code, z, before - 1, gp);
          assert ZeroedAt(code, z, before, gp);
        }
        forall z | ZeroedAt(code, z, before, gp) ensures ZeroedAt(code, z, before - 1, gp) {}
    }
  }

  method IndexWasZeroInitialized(code: seq<LoweredInstr>, before: nat, gp: Gp) returns (r: bool)
    requires before <= |code|
    ensures r == ZeroInit(code, before, gp)
  {
    var k: nat := before;
    while k > 0
      invariant k <= before
      invariant ZeroInit(code, before, gp) == ZeroInit(code, k, gp)
    {
      k := k - 1;
      match ZeroScan(code[k], gp)
      case Stop(b) => return b;
      case Skip =>
    }
    return false;
  }

  // ----- Fb7: post-test count-up -----

  predicate EndsCountUp(i: LoweredInstr, gp: Gp)
  {
    GpOperand(i, 0) == Some(gp) &&
    match i.mnemonic
    case Add | Dec | Sub | Mov | Movabs | Xor | Pop | Lea | Movzx | And | Or => true
    case _ => false
  }

  function PostTestBound(code: seq<LoweredInstr>, at: nat, gp: Gp, sawInc: bool): (r: Option<nat>)
    decreases |code| - at
  {
    if at >= |code| then None
    else
      var i := code[at];
      if IsBumpOf(i, gp) then
        if sawInc then None else PostTestBound(code, at + 1, gp, true)
      else if i.mnemonic == Cmp && sawInc then
        if ImmOperand(i, 1).Some? && ImmOperand(i, 1).value > 0 &&
           ComparesTo(i, gp, ImmOperand(i, 1).value) &&
           at + 1 < |code| && IsLoopBranch(code[at + 1].mnemonic)
        then Some(ImmOperand(i, 1).value) else None
      else if EndsCountUp(i, gp) then None
      else PostTestBound(code, at + 1, gp, sawInc)
  }

  /** A bound is found exactly at `cmp gp, N; jb` after the one increment of `gp`. */
  lemma {:induction false} PostTestBoundMeaning(
    code: seq<LoweredInstr>, at: nat, gp: Gp, sawInc: bool) returns (j: nat, c: nat)
    requires PostTestBound(code, at, gp, sawInc).Some?
    decreases |code| - at
    ensures at <= c && c + 1 < |code| && (!sawInc ==> at <= j < c && IsBumpOf(code[j], gp))
    ensures forall k | at <= k < c && (sawInc || k != j) :: !EndsCountUp(code[k], gp)
    ensures ComparesTo(code[c], gp, PostTestBound(code, at, gp, sawInc).value)
    ensures IsLoopBranch(code[c + 1].mnemonic)
  {
    hide GpOperand;
    hide IsLoopBranch;
    if IsBumpOf(code[at], gp) {
      var _, c' := PostTestBoundMeaning(code, at + 1, gp, true);
      j, c := at, c';
    } else if code[at].mnemonic == Cmp && sawInc {
      j, c := at, at;
    } else {
      j, c := PostTestBoundMeaning(code, at + 1, gp, sawInc);
    }
  }

  method PostTestBoundAfter(code: seq<LoweredInstr>, from: nat, gp: Gp) returns (r: Option<nat>)
    ensures r == PostTestBound(code, from, gp, false)
  {
    var sawInc := false;
    var at := from;
    while at < |code|
      invariant from <= at
      invariant PostTestBound(code, from, gp, false) == PostTestBound(code, at, gp, sawInc)
    {
      var i := code[at];
      match i.mnemonic {
      case Inc =>
        if GpOperand(i, 0) == Some(gp) {
          if sawInc { return None; }
          sawInc := true;
        }
      case Add =>
        if GpOperand(i, 0) == Some(gp) {
          if ImmOperand(i, 1) != Some(1) || sawInc { return None; }
          sawInc := true;
        }
      case Cmp =>
        if sawInc {
          var imm := ImmOperand(i, 1);
          if imm.Some? && imm.value > 0 && GpOperand(i, 0) == Some(gp) &&
             at + 1 < |code| && IsLoopBranch(code[at + 1].mnemonic) {
            return imm;
          }
          return None;
        }
      case Dec | Sub | Mov | Movabs | Xor | Pop | Lea | Movzx | And | Or =>
        if GpOperand(i, 0) == Some(gp) { return None; }
      case _ =>
      }
      at := at + 1;
    }
    return None;
  }

  function PostTestOperand(code: seq<LoweredInstr>, at: nat, o: Operand): (f: Option<Fact>)
    requires at < |code|
  {
    if o.Mem? && IndexGp(o.mem).Some? && ZeroInit(code, at, IndexGp(o.mem).value) then
      match PostTestBound(code, at + 1, IndexGp(o.mem).value, false)
      case Some(n) => Some(Fact(IndexGp(o.mem).value, n))
      case None => None
    else None
  }

  /** The fact left at `at` after its first `n` operands: a later operand's fact replaces an earlier one's. */
  function PostTestFact(code: seq<LoweredInstr>, at: nat, n: nat): (f: Option<Fact>)
    requires at < |code| && n <= |code[at].operands|
    ensures f.Some? <==>
            exists k | 0 <= k < n :: PostTestOperand(code, at, code[at].operands[k]).Some?
    ensures f.Some? ==>
            exists k | 0 <= k < n :: PostTestOperand(code, at, code[at].operands[k]) == f
  {
    if n == 0 then None
    else
      var last := PostTestOperand(code, at, code[at].operands[n - 1]);
      if last.Some? then last else PostTestFact(code, at, n - 1)
  }

  function Insert(m: Inductions, at: nat, f: Option<Fact>): (m': Inductions)
    ensures at in m' <==> at in m || f.Some?
    ensures f.Some? ==> m'[at] == f.value
    ensures forall k | k != at :: k in m' <==> k in m
    ensures forall k | k != at && k in m :: m'[k] == m[k]
  {
    if f.Some? then m[at := f.value] else m
  }

  /** The facts recorded at the first `n` instructions. */
  function PostTestInductions(code: seq<LoweredInstr>, n: nat): (m: Inductions)
    requires n <= |code|
    ensures forall at :: at in m ==> at < n && Some(m[at]) == PostTestFact(code, at, |code[at].operands|)
    ensures forall at | 0 <= at < n && at !in m :: PostTestFact(code, at, |code[at].operands|).None?
  {
    if n == 0 then map[]
    else Insert(PostTestInductions(code, n - 1), n - 1,
                PostTestFact(code, n - 1, |code[n - 1].operands|))
  }

  method PostTestFactAt(code: seq<LoweredInstr>, at: nat) returns (f: Option<Fact>)
    requires at < |code|
    ensures f == PostTestFact(code, at, |code[at].operands|)
  {
    hide ZeroInit;
    hide PostTestBound;
    f := None;
    for k := 0 to |code[at].operands|
      invariant f == PostTestFact(code, at, k)
    {
      var o := code[at].operands[k];
      if o.Mem? && IndexGp(o.mem).Some? {
        var gp := IndexGp(o.mem).value;
        var zeroed := IndexWasZeroInitialized(code, at, gp);
        if zeroed {
          var bound := PostTestBoundAfter(code, at + 1, gp);
          if bound.Some? { f := Some(Fact(gp, bound.value)); }
        }
      }
    }
  }

  method DiscoverPostTest(code: seq<LoweredInstr>) returns (out: Inductions)
    ensures out == PostTestInductions(code, |code|)
  {
    out := map[];
    for at := 0 to |code|
      invariant out == PostTestInductions(code, at)
    {
      var f := PostTestFactAt(code, at);
      out := Insert(out, at, f);
    }
  }

  // ----- Fb8: countdown -----

  /** Scans back from the access for `dec gp`, at most five instructions away. */
  function DecBefore(code: seq<LoweredInstr>, i: nat, access: nat, gp: Gp): (r: Option<nat>)
    requires i <= access <= |code|
    ensures r.Some? ==> r.value < i
  {
    if i == 0 then None
    else if IsDecOf(code[i - 1], gp) then Some(i - 1)
    else if WritesGp(code[i - 1], gp) || access - (i - 1) > 4 then None
    else DecBefore(code, i - 1, access, gp)
  }

  lemma {:induction false} DecBeforeMeaning(code: seq<LoweredInstr>, i: nat, access: nat, gp: Gp)
    requires i <= access <= |code|
    ensures var r := DecBefore(code, i, access, gp);
            r.Some? ==> r.value < i && IsDecOf(code[r.value], gp) &&
                        forall k | r.value < k < i :: !WritesGp(code[k], gp)
  {
    if i > 0 { DecBeforeMeaning(code, i - 1, access, gp); }
  }

  lemma {:induction false} DecBeforeFound(code: seq<LoweredInstr>, i: nat, j: nat, access: nat, gp: Gp)
    requires j < i <= access <= |code| && IsDecOf(code[j], gp)
    requires (j + 1 < i ==> access <= j + 5) && forall k | j < k < i :: !WritesGp(code[k], gp)
    ensures DecBefore(code, i, access, gp) == Some(j)
  {
    if j < i - 1 {
      assert !WritesGp(code[i - 1], gp);
      DecBeforeFound(code, i - 1, j, access, gp);
    }
  }

  /** A write of the index, or another branch, call or return. */
  predicate EndsCountdown(i: LoweredInstr, gp: Gp)
  {
    WritesGp(i, gp) ||
    i.mnemonic in {Jmp, Ret, Call, Jae, Jge, Je, Ja, Jb, Jg, Jl, Jle, Jbe}
  }

  /** Scans forward from the access for the loop's `jnz`, `jne` or `jns`. */
  function BackBranch(code: seq<LoweredInstr>, at: nat, gp: Gp): (r: Option<nat>)
    requires at <= |code|
    decreases |code| - at
  {
    if at == |code| then None
    else if IsCountdownBranch(code[at].mnemonic) then Some(at)
    else if EndsCountdown(code[at], gp) then None
    else BackBranch(code, at + 1, gp)
  }

  lemma {:induction false} BackBranchMeaning(code: seq<LoweredInstr>, at: nat, gp: Gp)
    requires at <= |code|
    decreases |code| - at
    ensures var r := BackBranch(code, at, gp);
            r.Some? ==> at <= r.value < |code| && IsCountdownBranch(code[r.value].mnemonic) &&
                        forall k | at <= k < r.value :: !WritesGp(code[k], gp)
  {
    if at < |code| { BackBranchMeaning(code, at + 1, gp); }
  }

  lemma {:induction false} BackBranchFound(code: seq<LoweredInstr>, at: nat, b: nat, gp: Gp)
    requires at <= b < |code| && IsCountdownBranch(code[b].mnemonic)
    requires forall k | at <= k < b ::
               !IsCountdownBranch(code[k].mnemonic) && !EndsCountdown(code[k], gp)
    ensures BackBranch(code, at, gp) == Some(b)
    decreases b - at
  {
    hide EndsCountdown;
    if at < b {
      assert !IsCountdownBranch(code[at].mnemonic) && !EndsCountdown(code[at], gp);
      BackBranchFound(code, at + 1, b, gp);
    }
  }

  /** Scans back from the `dec` for `mov gp, N` with `N > 0`. */
  function CountdownInit(code: seq<LoweredInstr>, i: nat, gp: Gp): (r: Option<(nat, nat)>)
    requires i <= |code|
  {
    if i == 0 then None
    else
      var c := code[i - 1];
      if WritesGp(c, gp) then
        if (c.mnemonic.Mov? || c.mnemonic.Movabs?) && ImmOperand(c, 1).Some? && ImmOperand(c, 1).value > 0
        then Some((i - 1, ImmOperand(c, 1).value)) else None
      else CountdownInit(code, i - 1, gp)
  }

  lemma {:induction false} CountdownInitMeaning(code: seq<LoweredInstr>, i: nat, gp: Gp)
    requires i <= |code|
    ensures var r := CountdownInit(code, i, gp);
            r.Some? ==>
              && r.value.0 < i && r.value.1 > 0
              && (code[r.value.0].mnemonic.Mov? || code[r.value.0].mnemonic.Movabs?)
              && GpOperand(code[r.value.0], 0) == Some(gp)
              && ImmOperand(code[r.value.0], 1) == Some(r.value.1)
              && forall k | r.value.0 < k < i :: !WritesGp(code[k], gp)
  {
    if i > 0 { CountdownInitMeaning(code, i - 1, gp); }
  }

  lemma {:induction false} CountdownInitFound(code: seq<LoweredInstr>, i: nat, m: nat, n: nat, gp: Gp)
    requires m < i <= |code| && n > 0 && WritesGp(code[m], gp)
    requires code[m].mnemonic.Mov? || code[m].mnemonic.Movabs?
    requires ImmOperand(code[m], 1) == Some(n)
    requires forall k | m < k < i :: !WritesGp(code[k], gp)
    ensures CountdownInit(code, i, gp) == Some((m, n))
  {
    hide WritesGp;
    if m < i - 1 { CountdownInitFound(code, i - 1, m, n, gp); }
  }

  function CountdownBound(code: seq<LoweredInstr>, access: nat, gp: Gp): (r: Option<nat>)
    requires access < |code|
  {
    match DecBefore(code, access, access, gp)
    case None => None
    case Some(d) =>
      if BackBranch(code, access + 1, gp).None? then None
      else match CountdownInit(code, d, gp)
        case None => None
        case Some(init) => Some(init.1)
  }

  method FindDec(code: seq<LoweredInstr>, access: nat, gp: Gp) returns (r: Option<nat>)
    requires access <= |code|
    ensures r == DecBefore(code, access, access, gp)
  {
    var i: nat := access;
    while i > 0
      invariant i <= access
      invariant DecBefore(code, access, access, gp) == DecBefore(code, i, access, gp)
    {
      i := i - 1;
      if IsDecOf(code[i], gp) { return Some(i); }
      if WritesGp(code[i], gp) { return None; }
      if access - i > 4 { return None; }
    }
    return None;
  }

  method FindBackBranch(code: seq<LoweredInstr>, from: nat, gp: Gp) returns (found: bool)
    requires from <= |code|
    ensures found == BackBranch(code, from, gp).Some?
  {
    var at := from;
    while at < |code|
      invariant from <= at <= |code|
      invariant BackBranch(code, from, gp) == BackBranch(code, at, gp)
    {
      var m := code[at].mnemonic;
      if IsCountdownBranch(m) { return true; }
      if WritesGp(code[at], gp) || m.Jmp? || m.Ret? || m.Jae? || m.Jge? || m.Je? { return false; }
      if m.Call? || m.Ja? || m.Jb? || m.Jg? || m.Jl? || m.Jle? || m.Jbe? { return false; }
      at := at + 1;
    }
    return false;
  }

  method FindCountdownInit(code: seq<LoweredInstr>, decAt: nat, gp: Gp)
    returns (r: Option<(nat, nat)>)
    requires decAt <= |code|
    ensures r == CountdownInit(code, decAt, gp)
  {
    var i: nat := decAt;
    while i > 0
      invariant i <= decAt
      invariant CountdownInit(code, decAt, gp) == CountdownInit(code, i, gp)
    {
      i := i - 1;
      var c := code[i];
      if (c.mnemonic.Mov? || c.mnemonic.Movabs?) && GpOperand(c, 0) == Some(gp) &&
         ImmOperand(c, 1).Some? {
        if ImmOperand(c, 1).value > 0 { return Some((i, ImmOperand(c, 1).value)); }
        return None;
      }
      if WritesGp(c, gp) { return None; }
    }
    return None;
  }

  method CountdownBoundForAccess(code: seq<LoweredInstr>, access: nat, gp: Gp)
    returns (r: Option<nat>)
    requires access < |code|
    ensures r == CountdownBound(code, access, gp)
  {
    var decAt := FindDec(code, access, gp);
    if decAt.None? { return None; }
    var sawBack := FindBackBranch(code, access + 1, gp);
    if !sawBack { return None; }
    var init := FindCountdownInit(code, decAt.value, gp);
    return if init.Some? then Some(init.value.1) else None;
  }

  function CountdownFact(code: seq<LoweredInstr>, at: nat, n: nat): (f: Option<Fact>)
    requires at < |code| && n <= |code[at].operands|
    ensures f.Some? ==> IndexedBy(code[at], f.value.gp) &&
                        CountdownBound(code, at, f.value.gp) == Some(f.value.bound)
  {
    if n == 0 then None
    else
      var o := code[at].operands[n - 1];
      if o.Mem? && IndexGp(o.mem).Some? && CountdownBound(code, at, IndexGp(o.mem).value).Some?
      then Some(Fact(IndexGp(o.mem).value, CountdownBound(code, at, IndexGp(o.mem).value).value))
      else CountdownFact(code, at, n - 1)
  }

  function CountdownInductions(code: seq<LoweredInstr>, n: nat): (m: Inductions)
    requires n <= |code|
    ensures forall at :: at in m ==> at < n && Some(m[at]) == CountdownFact(code, at, |code[at].operands|)
  {
    if n == 0 then map[]
    else Insert(CountdownInductions(code, n - 1), n - 1,
                CountdownFact(code, n - 1, |code[n - 1].operands|))
  }

  method CountdownFactAt(code: seq<LoweredInstr>, at: nat) returns (f: Option<Fact>)
    requires at < |code|
    ensures f == CountdownFact(code, at, |code[at].operands|)
  {
    f := None;
    for k := 0 to |code[at].operands|
      invariant f == CountdownFact(code, at, k)
    {
      var o := code[at].operands[k];
      if o.Mem? && IndexGp(o.mem).Some? {
        var bound := CountdownBoundForAccess(code, at, IndexGp(o.mem).value);
        if bound.Some? { f := Some(Fact(IndexGp(o.mem).value, bound.value)); }
      }
    }
  }

  method DiscoverCountdown(code: seq<LoweredInstr>) returns (out: Inductions)
    ensures out == CountdownInductions(code, |code|)
  {
    out := map[];
    for at := 0 to |code|
      invariant out == CountdownInductions(code, at)
    {
      var f := CountdownFactAt(code, at);
      out := Insert(out, at, f);
    }
  }

  // ----- Fb9a: pre-test loop with confirmed edges -----

  datatype PreTestLoop = PreTestLoop(gp: Gp, bound: nat, back: nat)

  /** The header test: `cmp gp, N; guard exit` with `jmp header` just before the exit. */
  function PreTestHeader(code: seq<LoweredInstr>, physical: seq<Physical>, h: nat)
    : (r: Option<PreTestLoop>)
    requires |physical| == |code| && h + 2 < |code|
  {
    var gp := GpOperand(code[h], 0);
    var imm := ImmOperand(code[h], 1);
    if code[h].mnemonic == Cmp && gp.Some? && imm.Some? && imm.value > 0 &&
       ZeroInit(code, h, gp.value) && IsGuard(code[h + 1].mnemonic) then
      match Target(physical, h + 1)
      case None => None
      case Some(exit) =>
        if exit > h + 2 && code[exit - 1].mnemonic == Jmp &&
           Target(physical, exit - 1) == Some(h)
        then Some(PreTestLoop(gp.value, imm.value, exit - 1)) else None
    else None
  }

  lemma PreTestHeaderMeaning(code: seq<LoweredInstr>, physical: seq<Physical>, h: nat)
    requires |physical| == |code| && h + 2 < |code|
    ensures PreTestHeader(code, physical, h).Some? ==>
              var l := PreTestHeader(code, physical, h).value;
              && ComparesTo(code[h], l.gp, l.bound) && ZeroInit(code, h, l.gp)
              && IsGuard(code[h + 1].mnemonic) && Target(physical, h + 1) == Some(l.back + 1)
              && h + 2 <= l.back < |code| && code[l.back].mnemonic == Jmp
              && Target(physical, l.back) == Some(h)
  {
  }

  /** Exactly one instruction of `lo..hi` writes `gp`, and it is the increment at `j`. */
  predicate SoleIncrement(code: seq<LoweredInstr>, lo: nat, hi: nat, gp: Gp, j: nat)
    requires hi <= |code|
  {
    lo <= j < hi && IsIncOf(code[j], gp) &&
    forall k | lo <= k < hi && k != j :: !WritesGp(code[k], gp)
  }

  predicate BodyAccepted(code: seq<LoweredInstr>, lo: nat, hi: nat, gp: Gp)
    requires hi <= |code|
  {
    exists j | lo <= j < hi :: SoleIncrement(code, lo, hi, gp, j)
  }

  /** What the header at `h` records: every access in the body indexed by the loop register. */
  function PreTestFacts(code: seq<LoweredInstr>, physical: seq<Physical>, h: nat): (m: Inductions)
    requires |physical| == |code| && h + 2 < |code|
  {
    match PreTestHeader(code, physical, h)
    case None => map[]
    case Some(l) =>
      if BodyAccepted(code, h + 2, l.back, l.gp) then
        map at | h + 2 <= at < l.back && IndexedBy(code[at], l.gp) :: Fact(l.gp, l.bound)
      else map[]
  }

  lemma PreTestFactsMeaning(code: seq<LoweredInstr>, physical: seq<Physical>, h: nat, at: nat)
    requires |physical| == |code| && h + 2 < |code| && at in PreTestFacts(code, physical, h)
    ensures PreTestHeader(code, physical, h).Some?
    ensures var l := PreTestHeader(code, physical, h).value;
            && l.back <= |code| && BodyAccepted(code, h + 2, l.back, l.gp)
            && h + 2 <= at < l.back && IndexedBy(code[at], l.gp)
            && PreTestFacts(code, physical, h)[at] == Fact(l.gp, l.bound)
  {
  }

  /** The facts of the first `n` headers; a later header's facts replace earlier ones. */
  function PreTestInductions(code: seq<LoweredInstr>, physical: seq<Physical>, n: nat)
    : (m: Inductions)
    requires |physical| == |code| && (n == 0 || n + 1 < |code|)
  {
    if n == 0 then map[]
    else PreTestInductions(code, physical, n - 1) + PreTestFacts(code, physical, n - 1)
  }

  lemma {:induction false} PreTestInductionsOrigin(
    code: seq<LoweredInstr>, physical: seq<Physical>, n: nat, at: nat) returns (h: nat)
    requires |physical| == |code| && (n == 0 || n + 1 < |code|)
    requires at in PreTestInductions(code, physical, n)
    ensures h < n && at in PreTestFacts(code, physical, h)
    ensures PreTestInductions(code, physical, n)[at] == PreTestFacts(code, physical, h)[at]
  {
    hide PreTestFacts;
    if at in PreTestFacts(code, physical, n - 1) {
      h := n - 1;
    } else {
      h := PreTestInductionsOrigin(code, physical, n - 1, at);
    }
  }

  function PreTestAll(code: seq<LoweredInstr>, physical: seq<Physical>): (m: Inductions)
  {
    if |physical| != |code| || |code| < 3 then map[]
    else PreTestInductions(code, physical, |code| - 2)
  }

  method ScanBody(code: seq<LoweredInstr>, lo: nat, hi: nat, gp: Gp)
    returns (accepted: bool, accesses: seq<nat>)
    requires lo <= hi <= |code|
    ensures accepted == BodyAccepted(code, lo, hi, gp)
    ensures accepted ==> forall at :: at in accesses <==> lo <= at < hi && IndexedBy(code[at], gp)
  {
    hide WritesGp;
    hide IsIncOf;
    hide IndexedBy;
    var sawInc := false;
    ghost var j := lo;
    accesses := [];
    for at := lo to hi
      invariant !sawInc ==> forall k | lo <= k < at :: !WritesGp(code[k], gp)
      invariant sawInc ==> lo <= j < at && WritesGp(code[j], gp) && SoleIncrement(code, lo, at, gp, j)
      invariant forall k :: k in accesses <==> lo <= k < at && IndexedBy(code[k], gp)
    {
      if WritesGp(code[at], gp) {
        if !IsIncOf(code[at], gp) || sawInc {
          return false, accesses;
        }
        sawInc := true;
        j := at;
      }
      if IndexedBy(code[at], gp) {
        accesses := accesses + [at];
      }
    }
    forall k | lo <= k < hi && IsIncOf(code[k], gp) ensures WritesGp(code[k], gp) {
      IncWrites(code[k], gp);
    }
    accepted := sawInc;
  }

  lemma IncWrites(i: LoweredInstr, gp: Gp)
    requires IsIncOf(i, gp)
    ensures WritesGp(i, gp)
  {
  }

  method PreTestFactsAt(code: seq<LoweredInstr>, physical: seq<Physical>, h: nat)
    returns (out: Inductions)
    requires |physical| == |code| && h + 2 < |code|
    ensures out == PreTestFacts(code, physical, h)
  {
    hide PreTestHeader;
    hide BodyAccepted;
    hide IndexedBy;
    var header := PreTestHeader(code, physical, h);
    if header.None? { return map[]; }
    PreTestHeaderMeaning(code, physical, h);
    var l := header.value;
    var accepted, accesses := ScanBody(code, h + 2, l.back, l.gp);
    if !accepted { return map[]; }
    out := map[];
    for k := 0 to |accesses|
      invariant out == map at | at in accesses[..k] :: Fact(l.gp, l.bound)
    {
      out := out[accesses[k] := Fact(l.gp, l.bound)];
    }
    assert accesses[..|accesses|] == accesses;
  }

  method DiscoverPreTest(code: seq<LoweredInstr>, physical: seq<Physical>)
    returns (out: Inductions)
    ensures out == PreTestAll(code, physical)
  {
    hide PreTestFacts;
    out := map[];
    if |physical| != |code| || |code| < 3 { return; }
    for h := 0 to |code| - 2
      invariant out == PreTestInductions(code, physical, h)
    {
      var facts := PreTestFactsAt(code, physical, h);
      out := out + facts;
    }
  }

  // ----- Fb9b: post-test loop with a confirmed back edge -----

  function IndexedGpInAccess(ops: seq<Operand>): (g: Option<Gp>)
    ensures g.Some? ==> exists k | 0 <= k < |ops| :: ops[k].Mem? && IndexGp(ops[k].mem) == g
  {
    if ops == [] then None
    else if ops[0].Mem? && ops[0].mem.index.None? then None
    else if ops[0].Mem? && IndexGp(ops[0].mem).Some? then IndexGp(ops[0].mem)
    else
      var g := IndexedGpInAccess(ops[1..]);
      assert g.Some? ==> exists k | 0 <= k < |ops[1..]| ::
        ops[1..][k] == ops[k + 1] && ops[1..][k].Mem? && IndexGp(ops[1..][k].mem) == g;
      g
  }

  /** Skips at most four instructions that do not write `gp`. */
  function FirstWriter(code: seq<LoweredInstr>, at: nat, access: nat, gp: Gp): (r: nat)
    requires access < at <= |code|
    decreases |code| - at
    ensures at <= r <= |code| && forall k | at <= k < r :: !WritesGp(code[k], gp)
  {
    if at == |code| || WritesGp(code[at], gp) || at - access > 4 then at
    else FirstWriter(code, at + 1, access, gp)
  }

  function CfgPostTestFact(code: seq<LoweredInstr>, physical: seq<Physical>, a: nat)
    : (f: Option<Fact>)
    requires |physical| == |code| && a + 3 < |code|
  {
    match IndexedGpInAccess(code[a].operands)
    case None => None
    case Some(gp) =>
      var at := FirstWriter(code, a + 1, a, gp);
      if ZeroInit(code, a, gp) && at + 2 < |code| && IsBumpOf(code[at], gp) &&
         ImmOperand(code[at + 1], 1).Some? && ImmOperand(code[at + 1], 1).value > 0 &&
         ComparesTo(code[at + 1], gp, ImmOperand(code[at + 1], 1).value) &&
         IsLoopBranch(code[at + 2].mnemonic) && Target(physical, at + 2) == Some(a)
      then Some(Fact(gp, ImmOperand(code[at + 1], 1).value)) else None
  }

  function CfgPostTestInductions(code: seq<LoweredInstr>, physical: seq<Physical>, n: nat)
    : (m: Inductions)
    requires |physical| == |code| && (n == 0 || n + 2 < |code|)
  {
    if n == 0 then map[]
    else Insert(CfgPostTestInductions(code, physical, n - 1), n - 1,
                CfgPostTestFact(code, physical, n - 1))
  }

  lemma {:induction false} CfgPostTestOrigin(
    code: seq<LoweredInstr>, physical: seq<Physical>, n: nat, a: nat)
    requires |physical| == |code| && (n == 0 || n + 2 < |code|)
    requires a in CfgPostTestInductions(code, physical, n)
    ensures a < n && Some(CfgPostTestInductions(code, physical, n)[a]) ==
                     CfgPostTestFact(code, physical, a)
  {
    hide CfgPostTestFact;
    if a != n - 1 { CfgPostTestOrigin(code, physical, n - 1, a); }
    else if a in CfgPostTestInductions(code, physical, n - 1) {
      CfgPostTestOrigin(code, physical, n - 1, a);
    }
  }

  function CfgPostTestAll(code: seq<LoweredInstr>, physical: seq<Physical>): (m: Inductions)
  {
    if |physical| != |code| || |code| < 4 then map[]
    else CfgPostTestInductions(code, physical, |code| - 3)
  }

  method CfgPostTestFactAt(code: seq<LoweredInstr>, physical: seq<Physical>, a: nat)
    returns (f: Option<Fact>)
    requires |physical| == |code| && a + 3 < |code|
    ensures f == CfgPostTestFact(code, physical, a)
  {
    hide ZeroInit;
    hide Target;
    hide WritesGp;
    hide IsBumpOf;
    hide ComparesTo;
    hide IsLoopBranch;
    var g := IndexedGpInAccess(code[a].operands);
    if g.None? { return None; }
    var zeroed := IndexWasZeroInitialized(code, a, g.value);
    var at := a + 1;
    while at < |code| && !WritesGp(code[at], g.value) && at - a <= 4
      invariant a < at <= |code|
      invariant FirstWriter(code, a + 1, a, g.value) == FirstWriter(code, at, a, g.value)
    {
      at := at + 1;
    }
    if !zeroed || at + 2 >= |code| || !IsBumpOf(code[at], g.value) { return None; }
    var imm := ImmOperand(code[at + 1], 1);
    if imm.Some? && imm.value > 0 && ComparesTo(code[at + 1], g.value, imm.value) &&
       IsLoopBranch(code[at + 2].mnemonic) && Target(physical, at + 2) == Some(a) {
      return Some(Fact(g.value, imm.value));
    }
    return None;
  }

  method DiscoverCfgPostTest(code: seq<LoweredInstr>, physical: seq<Physical>)
    returns (out: Inductions)
    ensures out == CfgPostTestAll(code, physical)
  {
    hide CfgPostTestFact;
    out := map[];
    if |physical| != |code| || |code| < 4 { return; }
    for a := 0 to |code| - 3
      invariant out == CfgPostTestInductions(code, physical, a)
    {
      var f := CfgPostTestFactAt(code, physical, a);
      out := Insert(out, a, f);
    }
  }

  // ----- merging the four maps -----

  /** The source's `entry(k).or_insert(v)` over every pair of `more`, in any order. */
  method MergeKeepingFirst(first: Inductions, more: Inductions) returns (out: Inductions)
    ensures out == more + first
  {
    out := first;
    var rest := more.Keys;
    while rest != {}
      invariant rest <= more.Keys
      invariant out == (more - rest) + first
      decreases |rest|
    {
      var k :| k in rest;
      if k !in out {
        out := out[k := more[k]];
      }
      rest := rest - {k};
    }
  }

  function AllInductions(p: Program): (m: Inductions)
  {
    CfgPostTestAll(p.code, p.physical) +
    (PreTestAll(p.code, p.physical) +
     (CountdownInductions(p.code, |p.code|) + PostTestInductions(p.code, |p.code|)))
  }

  method Discover(p: Program) returns (out: Inductions)
    ensures out == AllInductions(p)
  {
    out := DiscoverPostTest(p.code);
    var more := DiscoverCountdown(p.code);
    out := MergeKeepingFirst(out, more);
    more := DiscoverPreTest(p.code, p.physical);
    out := MergeKeepingFirst(out, more);
    more := DiscoverCfgPostTest(p.code, p.physical);
    out := MergeKeepingFirst(out, more);
  }
}
