/**
 Which loops the recognisers record.  Each shape below lists instructions, mnemonic by
 mnemonic, without a word about how the scans look for them; each pass records a bound
 if and only if its shape is there.
 */
module Recognition {
  import opened Basics
  import opened X86
  import opened Machine
  import opened Recognisers
  import opened MemoryEffects
  import opened LoopSoundness

  // ----- single instructions -----

  /** `inc gp` or `add gp, 1`. */
  predicate CountsOne(i: LoweredInstr, gp: Gp)
  {
    Names(i, gp, {Inc}) || (Names(i, gp, {Add}) && ImmOperand(i, 1) == Some(1))
  }

  /** `cmp gp, n` for a positive `n`. */
  predicate Tests(i: LoweredInstr, gp: Gp, n: nat)
  {
    Names(i, gp, {Cmp}) && ImmOperand(i, 1) == Some(n) && n > 0
  }

  /** `mov gp, n` or `movabs gp, n` for a positive `n`. */
  predicate StartsAt(i: LoweredInstr, gp: Gp, n: nat)
  {
    Names(i, gp, {Mov, Movabs}) && ImmOperand(i, 1) == Some(n) && n > 0
  }

  /** Destinations the post-test scan looks at. */
  const COUNT_WRITERS: set<Mnemonic> :=
    {Inc, Add, Dec, Sub, Mov, Movabs, Xor, Pop, Lea, Movzx, And, Or}

  /** Destinations the other scans look at. */
  const WRITERS: set<Mnemonic> :=
    { Mov, Movabs, Movzx, Movsx, Movsxd, Lea, Pop, Xor, And, Or, Add, Sub, Adc, Sbb, Inc, Dec, Neg, Not,
      Imul, Mul, Shl, Shr, Sal, Sar, Rol, Ror }

  const BELOW_BRANCHES: set<Mnemonic> := {Jb, Jnae, Jl, Jnge}

  const GUARDS: set<Mnemonic> := {Jae, Jnb, Jge}

  const COUNTDOWN_BRANCHES: set<Mnemonic> := {Jnz, Jne, Jns}

  /** What stops the search for a countdown's branch. */
  const OTHER_BRANCHES: set<Mnemonic> := {Jmp, Ret, Call, Jae, Jge, Je, Ja, Jb, Jg, Jl, Jle, Jbe}

  lemma CountsOneMeans(i: LoweredInstr, gp: Gp)
    ensures IsBumpOf(i, gp) <==> CountsOne(i, gp)
    ensures IsBumpOf(i, gp) || EndsCountUp(i, gp) <==> Names(i, gp, COUNT_WRITERS)
    ensures CountsOne(i, gp) ==> Names(i, gp, WRITERS) && Names(i, gp, COUNT_WRITERS)
  {
    hide GpOperand;
    hide ImmOperand;
  }

  lemma WritersMeans(i: LoweredInstr, gp: Gp)
    ensures WritesGp(i, gp) <==> Names(i, gp, WRITERS)
  {
    hide GpOperand;
  }

  lemma BranchesMean(m: Mnemonic)
    ensures IsLoopBranch(m) <==> m in BELOW_BRANCHES
    ensures IsGuard(m) <==> m in GUARDS
    ensures IsCountdownBranch(m) <==> m in COUNTDOWN_BRANCHES
  {
  }

  // ----- Fb7: post-test count-up -----

  /** From `from` on nothing writes or compares until `cmp gp, n; jb` at `c`. */
  ghost predicate TestAhead(code: seq<LoweredInstr>, from: nat, c: nat, gp: Gp, n: nat)
  {
    && from <= c && c + 1 < |code| && Tests(code[c], gp, n) && code[c + 1].mnemonic in BELOW_BRANCHES
    && forall k | from <= k < c :: !Names(code[k], gp, COUNT_WRITERS) && code[k].mnemonic != Cmp
  }

  ghost predicate TestLater(code: seq<LoweredInstr>, from: nat, gp: Gp, n: nat)
  {
    exists c: nat :: TestAhead(code, from, c, gp, n)
  }

  /** One increment at `j`, then the test at `c`; the scan sees no other write of `gp`. */
  ghost predicate CountTail(code: seq<LoweredInstr>, from: nat, j: nat, c: nat, gp: Gp, n: nat)
  {
    && from <= j < |code| && CountsOne(code[j], gp) && TestAhead(code, j + 1, c, gp, n)
    && forall k | from <= k < j :: !Names(code[k], gp, COUNT_WRITERS)
  }

  ghost predicate CountsUp(code: seq<LoweredInstr>, from: nat, gp: Gp, n: nat)
  {
    exists j: nat, c: nat :: CountTail(code, from, j, c, gp, n)
  }

  lemma TestAheadStep(code: seq<LoweredInstr>, from: nat, gp: Gp, n: nat)
    requires from < |code|
    ensures TestLater(code, from, gp, n) <==>
            || TestAhead(code, from, from, gp, n)
            || (!Names(code[from], gp, COUNT_WRITERS) && code[from].mnemonic != Cmp &&
                TestLater(code, from + 1, gp, n))
  {
    hide Names;
    hide Tests;
    hide CountsOne;
    if TestLater(code, from, gp, n) {
      var c: nat :| TestAhead(code, from, c, gp, n);
      if c > from { assert TestAhead(code, from + 1, c, gp, n); }
    }
    if !Names(code[from], gp, COUNT_WRITERS) && code[from].mnemonic != Cmp && TestLater(code, from + 1, gp, n) {
      var c: nat :| TestAhead(code, from + 1, c, gp, n);
      assert TestAhead(code, from, c, gp, n);
    }
  }

  lemma {:induction false} TestAheadExact(code: seq<LoweredInstr>, from: nat, gp: Gp, n: nat)
    ensures PostTestBound(code, from, gp, true) == Some(n) <==> TestLater(code, from, gp, n)
    decreases |code| - from
  {
    hide Names;
    hide IsBumpOf;
    hide EndsCountUp;
    hide IsLoopBranch;
    hide ComparesTo;
    hide GpOperand;
    if from < |code| {
      TestAheadStep(code, from, gp, n);
      TestAheadExact(code, from + 1, gp, n);
      CountsOneMeans(code[from], gp);
      TestMeans(code, from, gp);
      if code[from].mnemonic == Cmp {
        CmpIsNoBump(code[from], gp);
        TestHere(code, from, gp, n);
      }
    }
  }

  /** At a compare the scan decides. */
  lemma TestHere(code: seq<LoweredInstr>, from: nat, gp: Gp, n: nat)
    requires from < |code| && code[from].mnemonic == Cmp
    ensures TestAhead(code, from, from, gp, n) <==>
            ComparesTo(code[from], gp, n) && from + 1 < |code| && IsLoopBranch(code[from + 1].mnemonic)
    ensures ComparesTo(code[from], gp, n) ==> ImmOperand(code[from], 1) == Some(n) && n > 0
  {
    TestMeans(code, from, gp);
  }

  lemma CmpIsNoBump(i: LoweredInstr, gp: Gp)
    requires i.mnemonic == Cmp
    ensures !IsBumpOf(i, gp)
  {
  }

  /** The scan's own reading of a compare. */
  lemma TestMeans(code: seq<LoweredInstr>, c: nat, gp: Gp)
    requires c < |code|
    ensures forall n: nat :: ComparesTo(code[c], gp, n) <==> Tests(code[c], gp, n)
    ensures forall n: nat :: Tests(code[c], gp, n) ==> code[c].mnemonic == Cmp
    ensures code[c].mnemonic == Cmp ==> !Names(code[c], gp, COUNT_WRITERS)
    ensures c + 1 < |code| ==> (IsLoopBranch(code[c + 1].mnemonic) <==> code[c + 1].mnemonic in BELOW_BRANCHES)
  {
    hide GpOperand;
    hide ImmOperand;
  }

  lemma CountTailStep(code: seq<LoweredInstr>, from: nat, gp: Gp, n: nat)
    requires from < |code|
    ensures CountsUp(code, from, gp, n) <==>
            || (CountsOne(code[from], gp) && TestLater(code, from + 1, gp, n))
            || (!Names(code[from], gp, COUNT_WRITERS) &&
                CountsUp(code, from + 1, gp, n))
  {
    hide Names;
    hide CountsOne;
    hide TestAhead;
    if CountsUp(code, from, gp, n) {
      var j: nat, c: nat :| CountTail(code, from, j, c, gp, n);
      if j > from { assert CountTail(code, from + 1, j, c, gp, n); }
    }
    if CountsOne(code[from], gp) && TestLater(code, from + 1, gp, n) {
      var c: nat :| TestAhead(code, from + 1, c, gp, n);
      assert CountTail(code, from, from, c, gp, n);
    }
    if !Names(code[from], gp, COUNT_WRITERS) && CountsUp(code, from + 1, gp, n) {
      var j: nat, c: nat :| CountTail(code, from + 1, j, c, gp, n);
      assert CountTail(code, from, j, c, gp, n);
    }
  }

  /** A bound is found if and only if one increment and one test of this form lie ahead. */
  lemma {:induction false} PostTestExact(code: seq<LoweredInstr>, from: nat, gp: Gp, n: nat)
    ensures PostTestBound(code, from, gp, false) == Some(n) <==>
            CountsUp(code, from, gp, n)
    decreases |code| - from
  {
    hide Names;
    hide CountsOne;
    hide IsBumpOf;
    hide EndsCountUp;
    hide IsLoopBranch;
    hide TestAhead;
    hide ComparesTo;
    if from < |code| {
      CountTailStep(code, from, gp, n);
      CountsOneMeans(code[from], gp);
      TestAheadExact(code, from + 1, gp, n);
      PostTestExact(code, from + 1, gp, n);
    }
  }

  // ----- Fb8: countdown -----

  /** `dec gp` at `d`, the last write of `gp` before `i` and at most five instructions before the access. */
  predicate DecrementAt(code: seq<LoweredInstr>, d: nat, i: nat, access: nat, gp: Gp)
    requires i <= access <= |code|
  {
    && d < i && Names(code[d], gp, {Dec}) && (d + 1 < i ==> access <= d + 5)
    && forall k | d < k < i :: !Names(code[k], gp, WRITERS)
  }

  lemma {:induction false} DecrementExact(code: seq<LoweredInstr>, d: nat, i: nat, access: nat, gp: Gp)
    requires i <= access <= |code|
    ensures DecBefore(code, i, access, gp) == Some(d) <==> DecrementAt(code, d, i, access, gp)
  {
    hide WritesGp;
    if i > 0 {
      WritersMeans(code[i - 1], gp);
      assert IsDecOf(code[i - 1], gp) <==> Names(code[i - 1], gp, {Dec});
      DecIsWrite(code[i - 1], gp);
      hide Names;
      hide IsDecOf;
      DecrementExact(code, d, i - 1, access, gp);
    }
  }

  lemma DecIsWrite(i: LoweredInstr, gp: Gp)
    ensures Names(i, gp, {Dec}) ==> Names(i, gp, WRITERS)
    ensures forall n: nat :: StartsAt(i, gp, n) ==> Names(i, gp, WRITERS)
  {
  }

  /** A `jnz`, `jne` or `jns` at `b`, with no write of `gp` and no other branch before it. */
  predicate BranchAt(code: seq<LoweredInstr>, from: nat, b: nat, gp: Gp)
  {
    && from <= b < |code| && code[b].mnemonic in COUNTDOWN_BRANCHES
    && forall k | from <= k < b :: !Names(code[k], gp, WRITERS) && code[k].mnemonic !in OTHER_BRANCHES
  }

  ghost predicate BranchLater(code: seq<LoweredInstr>, from: nat, gp: Gp)
  {
    exists b: nat :: BranchAt(code, from, b, gp)
  }

  lemma {:induction false} BranchExact(code: seq<LoweredInstr>, from: nat, gp: Gp)
    requires from <= |code|
    ensures BackBranch(code, from, gp).Some? <==> BranchLater(code, from, gp)
    decreases |code| - from
  {
    hide IsCountdownBranch;
    hide Names;
    hide WritesGp;
    if from < |code| {
      BranchesMean(code[from].mnemonic);
      WritersMeans(code[from], gp);
      BranchExact(code, from + 1, gp);
      if BranchLater(code, from, gp) {
        var b: nat :| BranchAt(code, from, b, gp);
        if b > from { assert BranchAt(code, from + 1, b, gp); }
      }
      if IsCountdownBranch(code[from].mnemonic) {
        assert BranchAt(code, from, from, gp);
      } else if !EndsCountdown(code[from], gp) && BranchLater(code, from + 1, gp) {
        var b: nat :| BranchAt(code, from + 1, b, gp);
        assert BranchAt(code, from, b, gp);
      }
    }
  }

  /** `mov gp, n` at `m`, the last write of `gp` before `i`. */
  predicate StartAt(code: seq<LoweredInstr>, m: nat, i: nat, gp: Gp, n: nat)
    requires i <= |code|
  {
    m < i && StartsAt(code[m], gp, n) && forall k | m < k < i :: !Names(code[k], gp, WRITERS)
  }

  lemma {:induction false} StartExact(code: seq<LoweredInstr>, m: nat, i: nat, gp: Gp, n: nat)
    requires i <= |code|
    ensures CountdownInit(code, i, gp) == Some((m, n)) <==> StartAt(code, m, i, gp, n)
  {
    if i > 0 {
      WritersMeans(code[i - 1], gp);
      DecIsWrite(code[i - 1], gp);
      if WritesGp(code[i - 1], gp) {
        assert StartsAt(code[i - 1], gp, n) <==>
               (code[i - 1].mnemonic.Mov? || code[i - 1].mnemonic.Movabs?) &&
               ImmOperand(code[i - 1], 1) == Some(n) && n > 0;
      }
      hide WritesGp;
      hide Names;
      hide StartsAt;
      StartExact(code, m, i - 1, gp, n);
    }
  }

  /** The three parts of a countdown around `access`. */
  ghost predicate CountdownAt(code: seq<LoweredInstr>, access: nat, m: nat, d: nat, gp: Gp, n: nat)
    requires access < |code|
  {
    DecrementAt(code, d, access, access, gp) && BranchLater(code, access + 1, gp) && StartAt(code, m, d, gp, n)
  }

  ghost predicate CountsDown(code: seq<LoweredInstr>, access: nat, gp: Gp, n: nat)
    requires access < |code|
  {
    exists m: nat, d: nat :: CountdownAt(code, access, m, d, gp, n)
  }

  lemma CountdownExact(code: seq<LoweredInstr>, access: nat, gp: Gp, n: nat)
    requires access < |code|
    ensures CountdownBound(code, access, gp) == Some(n) <==> CountsDown(code, access, gp, n)
  {
    hide DecrementAt;
    hide StartAt;
    hide BranchLater;
    BranchExact(code, access + 1, gp);
    if CountdownBound(code, access, gp) == Some(n) {
      var d := DecBefore(code, access, access, gp).value;
      var m := CountdownInit(code, d, gp).value.0;
      DecrementExact(code, d, access, access, gp);
      StartExact(code, m, d, gp, n);
      assert CountdownAt(code, access, m, d, gp, n);
    }
    if CountsDown(code, access, gp, n) {
      var m: nat, d: nat :| CountdownAt(code, access, m, d, gp, n);
      DecrementExact(code, d, access, access, gp);
      StartExact(code, m, d, gp, n);
    }
  }

  // ----- Fb9a: pre-test count-up -----

  /** The parts of a pre-test loop with header `h`, back jump `back` and increment `j`. */
  ghost predicate PreTestLoopAt(
    code: seq<LoweredInstr>, physical: seq<Physical>, h: nat, back: nat, j: nat, gp: Gp, n: nat)
  {
    && h + 2 <= j < back < |code| && Tests(code[h], gp, n)
    && (exists z: nat :: ZeroedAt(code, z, h, gp))
    && code[h + 1].mnemonic in GUARDS && Target(physical, h + 1) == Some(back + 1)
    && code[back].mnemonic == Jmp && Target(physical, back) == Some(h)
    && Names(code[j], gp, {Inc}) && forall k | h + 2 <= k < back && k != j :: !Names(code[k], gp, WRITERS)
  }

  /** The access `at` lies in the body of such a loop and is indexed by its register. */
  ghost predicate InPreTestLoop(
    code: seq<LoweredInstr>, physical: seq<Physical>, h: nat, at: nat, gp: Gp, n: nat)
    requires |physical| == |code|
  {
    exists back: nat, j: nat ::
      PreTestLoopAt(code, physical, h, back, j, gp, n) && h + 2 <= at < back && IndexedBy(code[at], gp)
  }

  lemma BodyExact(code: seq<LoweredInstr>, lo: nat, hi: nat, gp: Gp, j: nat)
    requires hi <= |code|
    ensures SoleIncrement(code, lo, hi, gp, j) <==>
            lo <= j < hi && Names(code[j], gp, {Inc}) &&
            forall k | lo <= k < hi && k != j :: !Names(code[k], gp, WRITERS)
  {
    hide WritesGp;
    hide Names;
    forall k | lo <= k < hi ensures WritesGp(code[k], gp) <==> Names(code[k], gp, WRITERS) {
      WritersMeans(code[k], gp);
    }
    if lo <= j < hi { IncMeans(code[j], gp); }
  }

  lemma IncMeans(i: LoweredInstr, gp: Gp)
    ensures IsIncOf(i, gp) <==> Names(i, gp, {Inc})
  {
  }

  lemma HeaderExact(code: seq<LoweredInstr>, physical: seq<Physical>, h: nat, back: nat, gp: Gp, n: nat)
    requires |physical| == |code| && h + 2 < |code|
    ensures PreTestHeader(code, physical, h) == Some(PreTestLoop(gp, n, back)) <==>
            && h + 2 <= back < |code| && Tests(code[h], gp, n)
            && (exists z: nat :: ZeroedAt(code, z, h, gp))
            && code[h + 1].mnemonic in GUARDS && Target(physical, h + 1) == Some(back + 1)
            && code[back].mnemonic == Jmp && Target(physical, back) == Some(h)
  {
    hide Target;
    hide ZeroedAt;
    hide ZeroInit;
    hide IsGuard;
    ZeroInitMeaning(code, h, gp);
    BranchesMean(code[h + 1].mnemonic);
  }

  lemma LoopExact(
    code: seq<LoweredInstr>, physical: seq<Physical>, h: nat, back: nat, j: nat, gp: Gp, n: nat)
    requires |physical| == |code| && h + 2 < |code| && back < |code|
    ensures PreTestLoopAt(code, physical, h, back, j, gp, n) <==>
            PreTestHeader(code, physical, h) == Some(PreTestLoop(gp, n, back)) &&
            SoleIncrement(code, h + 2, back, gp, j)
  {
    HeaderExact(code, physical, h, back, gp, n);
    BodyExact(code, h + 2, back, gp, j);
    hide PreTestHeader;
    hide SoleIncrement;
    hide Names;
    hide Target;
    hide ZeroedAt;
    hide Tests;
  }

  lemma PreTestMeaning(
    code: seq<LoweredInstr>, physical: seq<Physical>, h: nat, at: nat, gp: Gp, n: nat)
    requires |physical| == |code| && h + 2 < |code|
    requires at in PreTestFacts(code, physical, h) && PreTestFacts(code, physical, h)[at] == Fact(gp, n)
    ensures InPreTestLoop(code, physical, h, at, gp, n)
  {
    hide PreTestFacts;
    hide PreTestHeader;
    hide SoleIncrement;
    hide IndexedBy;
    hide PreTestLoopAt;
    PreTestFactsMeaning(code, physical, h, at);
    var l := PreTestHeader(code, physical, h).value;
    HeaderBack(code, physical, h);
    var j :| h + 2 <= j < l.back && SoleIncrement(code, h + 2, l.back, l.gp, j);
    LoopExact(code, physical, h, l.back, j, gp, n);
  }

  lemma HeaderBack(code: seq<LoweredInstr>, physical: seq<Physical>, h: nat)
    requires |physical| == |code| && h + 2 < |code| && PreTestHeader(code, physical, h).Some?
    ensures PreTestHeader(code, physical, h).value.back < |code|
  {
    PreTestHeaderMeaning(code, physical, h);
    hide *;
  }

  lemma PreTestFound(
    code: seq<LoweredInstr>, physical: seq<Physical>, h: nat, at: nat, gp: Gp, n: nat)
    requires |physical| == |code| && h + 2 < |code|
    requires InPreTestLoop(code, physical, h, at, gp, n)
    ensures at in PreTestFacts(code, physical, h) && PreTestFacts(code, physical, h)[at] == Fact(gp, n)
  {
    hide PreTestHeader;
    hide SoleIncrement;
    hide IndexedBy;
    var back: nat, j: nat :|
      PreTestLoopAt(code, physical, h, back, j, gp, n) && h + 2 <= at < back && IndexedBy(code[at], gp);
    hide PreTestLoopAt;
    BackInCode(code, physical, h, back, j, gp, n);
    LoopExact(code, physical, h, back, j, gp, n);
  }

  lemma BackInCode(
    code: seq<LoweredInstr>, physical: seq<Physical>, h: nat, back: nat, j: nat, gp: Gp, n: nat)
    requires PreTestLoopAt(code, physical, h, back, j, gp, n)
    ensures h + 2 <= j < back < |code|
  {
    hide Target;
    hide ZeroedAt;
    hide Names;
    hide Tests;
  }

  /** A header records a fact at `at` if and only if it heads such a loop around `at`. */
  lemma PreTestExact(
    code: seq<LoweredInstr>, physical: seq<Physical>, h: nat, at: nat, gp: Gp, n: nat)
    requires |physical| == |code| && h + 2 < |code|
    ensures at in PreTestFacts(code, physical, h) && PreTestFacts(code, physical, h)[at] == Fact(gp, n) <==>
            InPreTestLoop(code, physical, h, at, gp, n)
  {
    hide *;
    if at in PreTestFacts(code, physical, h) && PreTestFacts(code, physical, h)[at] == Fact(gp, n) {
      PreTestMeaning(code, physical, h, at, gp, n);
    }
    if InPreTestLoop(code, physical, h, at, gp, n) { PreTestFound(code, physical, h, at, gp, n); }
  }

  // ----- Fb9b: post-test count-up with a confirmed back edge -----

  /** Operand `k` is indexed by `gp` and no earlier memory operand decides. */
  predicate DecidesAt(ops: seq<Operand>, k: nat, gp: Gp)
  {
    && k < |ops| && ops[k].Mem? && IndexGp(ops[k].mem) == Some(gp)
    && forall j | 0 <= j < k :: Passed(ops[j])
  }

  /** Not a memory operand, or one scaled by something other than a general-purpose register. */
  predicate Passed(o: Operand)
  {
    o.Mem? ==> o.mem.index.Some? && IndexGp(o.mem).None?
  }

  ghost predicate FirstIndex(ops: seq<Operand>, gp: Gp)
  {
    exists k: nat :: DecidesAt(ops, k, gp)
  }

  lemma FirstIndexStep(ops: seq<Operand>, gp: Gp)
    requires ops != []
    ensures FirstIndex(ops, gp) <==> DecidesAt(ops, 0, gp) || (Passed(ops[0]) && FirstIndex(ops[1..], gp))
  {
    hide Passed;
    hide IndexGp;
    if FirstIndex(ops, gp) {
      var k: nat :| DecidesAt(ops, k, gp);
      if k > 0 {
        assert forall j | 0 <= j < k - 1 :: ops[1..][j] == ops[j + 1];
        assert DecidesAt(ops[1..], k - 1, gp);
      }
    }
    if Passed(ops[0]) && FirstIndex(ops[1..], gp) {
      var k: nat :| DecidesAt(ops[1..], k, gp);
      assert forall j | 0 < j <= k :: ops[j] == ops[1..][j - 1];
      assert DecidesAt(ops, k + 1, gp);
    }
  }

  lemma {:induction false} FirstIndexExact(ops: seq<Operand>, gp: Gp)
    ensures IndexedGpInAccess(ops) == Some(gp) <==> FirstIndex(ops, gp)
  {
    if ops != [] {
      FirstIndexStep(ops, gp);
      FirstIndexExact(ops[1..], gp);
      hide FirstIndex;
    }
  }

  /** Increment at `j`, test and branch right behind it, and the branch leads back to the access. */
  ghost predicate TightLoopAt(
    code: seq<LoweredInstr>, physical: seq<Physical>, a: nat, j: nat, gp: Gp, n: nat)
  {
    && a < j <= a + 5 && j + 2 < |code| && FirstIndex(code[a].operands, gp)
    && (exists z: nat :: ZeroedAt(code, z, a, gp))
    && CountsOne(code[j], gp) && Tests(code[j + 1], gp, n) && code[j + 2].mnemonic in BELOW_BRANCHES
    && Target(physical, j + 2) == Some(a) && forall k | a < k < j :: !Names(code[k], gp, WRITERS)
  }

  ghost predicate InTightLoop(code: seq<LoweredInstr>, physical: seq<Physical>, a: nat, gp: Gp, n: nat)
  {
    exists j: nat :: TightLoopAt(code, physical, a, j, gp, n)
  }

  lemma {:induction false} FirstWriterAt(code: seq<LoweredInstr>, at: nat, access: nat, gp: Gp, j: nat)
    requires access < at <= j < |code| && j <= access + 5 && Names(code[j], gp, WRITERS)
    requires forall k | at <= k < j :: !Names(code[k], gp, WRITERS)
    ensures FirstWriter(code, at, access, gp) == j
    decreases j - at
  {
    hide WritesGp;
    hide Names;
    WritersMeans(code[at], gp);
    if at < j { FirstWriterAt(code, at + 1, access, gp, j); }
  }

  lemma {:induction false} FirstWriterNear(code: seq<LoweredInstr>, at: nat, access: nat, gp: Gp)
    requires access < at <= |code| && at <= access + 5
    ensures FirstWriter(code, at, access, gp) <= access + 5
    decreases |code| - at
  {
    hide WritesGp;
    if at < |code| && at < access + 5 { FirstWriterNear(code, at + 1, access, gp); }
  }

  /** Which writer the window holds decides the rest. */
  lemma TightAt(code: seq<LoweredInstr>, physical: seq<Physical>, a: nat, gp: Gp, n: nat)
    requires |physical| == |code| && a + 3 < |code|
    ensures CfgPostTestFact(code, physical, a) == Some(Fact(gp, n)) <==>
            TightLoopAt(code, physical, a, FirstWriter(code, a + 1, a, gp), gp, n)
  {
    hide Target;
    hide ZeroedAt;
    hide ZeroInit;
    hide WritesGp;
    hide IsBumpOf;
    hide IsLoopBranch;
    hide FirstIndex;
    hide IndexedGpInAccess;
    hide ComparesTo;
    hide Tests;
    hide CountsOne;
    hide Names;
    FirstIndexExact(code[a].operands, gp);
    ZeroInitMeaning(code, a, gp);
    var j := FirstWriter(code, a + 1, a, gp);
    FirstWriterNear(code, a + 1, a, gp);
    if j + 2 < |code| { TightParts(code, a, j, gp, n); }
  }

  /** A fact is recorded if and only if a tight loop closes on the access. */
  lemma TightExact(code: seq<LoweredInstr>, physical: seq<Physical>, a: nat, gp: Gp, n: nat)
    requires |physical| == |code| && a + 3 < |code|
    ensures CfgPostTestFact(code, physical, a) == Some(Fact(gp, n)) <==> InTightLoop(code, physical, a, gp, n)
  {
    hide TightLoopAt;
    hide CfgPostTestFact;
    TightAt(code, physical, a, gp, n);
    if InTightLoop(code, physical, a, gp, n) {
      var i: nat :| TightLoopAt(code, physical, a, i, gp, n);
      TightFirst(code, physical, a, i, gp, n);
    }
  }

  lemma TightFirst(code: seq<LoweredInstr>, physical: seq<Physical>, a: nat, i: nat, gp: Gp, n: nat)
    requires TightLoopAt(code, physical, a, i, gp, n)
    ensures a < |code| && FirstWriter(code, a + 1, a, gp) == i
  {
    hide Target;
    hide ZeroedAt;
    hide ZeroInit;
    hide WritesGp;
    hide IsBumpOf;
    hide IsLoopBranch;
    hide FirstIndex;
    hide IndexedGpInAccess;
    hide ComparesTo;
    hide Tests;
    hide CountsOne;
    hide Names;
    CountsOneMeans(code[i], gp);
    FirstWriterAt(code, a + 1, a, gp, i);
  }

  lemma TightParts(code: seq<LoweredInstr>, a: nat, j: nat, gp: Gp, n: nat)
    requires a < j && j + 2 < |code| && forall k | a < k < j :: !WritesGp(code[k], gp)
    ensures IsBumpOf(code[j], gp) <==> CountsOne(code[j], gp)
    ensures ComparesTo(code[j + 1], gp, n) <==> Tests(code[j + 1], gp, n)
    ensures Tests(code[j + 1], gp, n) ==> ImmOperand(code[j + 1], 1) == Some(n) && n > 0
    ensures IsLoopBranch(code[j + 2].mnemonic) <==> code[j + 2].mnemonic in BELOW_BRANCHES
    ensures forall k | a < k < j :: !Names(code[k], gp, WRITERS)
  {
    CountsOneMeans(code[j], gp);
    TestMeans(code, j + 1, gp);
    BranchesMean(code[j + 2].mnemonic);
    hide WritesGp;
    forall k | a < k < j ensures !Names(code[k], gp, WRITERS) { WritersMeans(code[k], gp); }
  }

  // ----- the merged map -----

  ghost predicate InPostTestLoop(code: seq<LoweredInstr>, at: nat, gp: Gp, n: nat)
    requires at < |code|
  {
    IndexedBy(code[at], gp) && (exists z: nat :: ZeroedAt(code, z, at, gp)) && CountsUp(code, at + 1, gp, n)
  }

  ghost predicate InCountdown(code: seq<LoweredInstr>, at: nat, gp: Gp, n: nat)
    requires at < |code|
  {
    IndexedBy(code[at], gp) && CountsDown(code, at, gp, n)
  }

  /** Operand `k` is indexed by `gp` and no later operand is indexed at all. */
  predicate LastIndex(i: LoweredInstr, k: nat, gp: Gp)
  {
    && k < |i.operands| && i.operands[k].Mem? && IndexGp(i.operands[k].mem) == Some(gp)
    && forall j | k < j < |i.operands| && i.operands[j].Mem? :: IndexGp(i.operands[j].mem).None?
  }

  lemma PostTestOperandExact(code: seq<LoweredInstr>, at: nat, k: nat, gp: Gp, n: nat)
    requires at < |code| && k < |code[at].operands|
    ensures PostTestOperand(code, at, code[at].operands[k]) == Some(Fact(gp, n)) <==>
            && code[at].operands[k].Mem? && IndexGp(code[at].operands[k].mem) == Some(gp)
            && InPostTestLoop(code, at, gp, n)
  {
    hide ZeroInit;
    hide ZeroedAt;
    hide CountsUp;
    hide PostTestBound;
    ZeroInitMeaning(code, at, gp);
    PostTestExact(code, at + 1, gp, n);
  }

  /** Fb7 claims exactly the accesses of post-test loops. */
  lemma PostTestClaims(code: seq<LoweredInstr>, at: nat)
    requires at < |code|
    ensures at in PostTestInductions(code, |code|) <==> exists gp, n: nat :: InPostTestLoop(code, at, gp, n)
  {
    hide PostTestOperand;
    hide InPostTestLoop;
    if at in PostTestInductions(code, |code|) {
      var k :| 0 <= k < |code[at].operands| && PostTestOperand(code, at, code[at].operands[k]).Some?;
      var f := PostTestOperand(code, at, code[at].operands[k]).value;
      PostTestOperandExact(code, at, k, f.gp, f.bound);
    }
    if gp, n: nat :| InPostTestLoop(code, at, gp, n) {
      var k := IndexingOperand(code, at, gp, n);
      PostTestOperandExact(code, at, k, gp, n);
    }
  }

  lemma IndexingOperand(code: seq<LoweredInstr>, at: nat, gp: Gp, n: nat) returns (k: nat)
    requires at < |code| && InPostTestLoop(code, at, gp, n)
    ensures k < |code[at].operands| && code[at].operands[k].Mem?
    ensures IndexGp(code[at].operands[k].mem) == Some(gp)
  {
    hide ZeroedAt;
    hide CountsUp;
    k :| 0 <= k < |code[at].operands| && code[at].operands[k].Mem? &&
         IndexGp(code[at].operands[k].mem) == Some(gp);
  }

  lemma {:induction false} LastFactWins(code: seq<LoweredInstr>, at: nat, m: nat, k: nat, gp: Gp, n: nat)
    requires at < |code| && k < m <= |code[at].operands|
    requires LastIndex(code[at], k, gp) && InPostTestLoop(code, at, gp, n)
    ensures PostTestFact(code, at, m) == Some(Fact(gp, n))
  {
    hide InPostTestLoop;
    hide ZeroInit;
    hide PostTestBound;
    if m == k + 1 {
      PostTestOperandExact(code, at, k, gp, n);
    } else {
      LastFactWins(code, at, m - 1, k, gp, n);
    }
  }

  /** A post-test loop around an access leaves its bound in the merged map. */
  lemma PostTestRecorded(p: Program, at: nat, k: nat, gp: Gp, n: nat)
    requires at < |p.code| && LastIndex(p.code[at], k, gp) && InPostTestLoop(p.code, at, gp, n)
    ensures FactAt(AllInductions(p), at) == Some(Fact(gp, n))
  {
    hide InPostTestLoop;
    hide PreTestAll;
    hide PostTestFact;
    hide CountdownFact;
    hide CfgPostTestAll;
    LastFactWins(p.code, at, |p.code[at].operands|, k, gp, n);
  }

  lemma {:induction false} CountdownOperand(code: seq<LoweredInstr>, at: nat, m: nat, k: nat, gp: Gp, n: nat)
    requires at < |code| && k < m <= |code[at].operands|
    requires LastIndex(code[at], k, gp) && CountdownBound(code, at, gp) == Some(n)
    ensures CountdownFact(code, at, m) == Some(Fact(gp, n))
  {
    hide CountdownBound;
    if m > k + 1 { CountdownOperand(code, at, m - 1, k, gp, n); }
  }

  lemma {:induction false} CountdownSome(code: seq<LoweredInstr>, at: nat, m: nat, k: nat)
    requires at < |code| && k < m <= |code[at].operands| && code[at].operands[k].Mem?
    requires IndexGp(code[at].operands[k].mem).Some?
    requires CountdownBound(code, at, IndexGp(code[at].operands[k].mem).value).Some?
    ensures CountdownFact(code, at, m).Some?
  {
    hide CountdownBound;
    if m > k + 1 { CountdownSome(code, at, m - 1, k); }
  }

  lemma {:induction false} CountdownMap(code: seq<LoweredInstr>, m: nat, at: nat)
    requires at < m <= |code|
    ensures at in CountdownInductions(code, m) <==> CountdownFact(code, at, |code[at].operands|).Some?
  {
    hide CountdownFact;
    hide CountdownBound;
    hide IndexedBy;
    if at < m - 1 { CountdownMap(code, m - 1, at); }
  }

  /** Fb8 claims exactly the accesses of countdowns. */
  lemma CountdownClaims(code: seq<LoweredInstr>, at: nat)
    requires at < |code|
    ensures at in CountdownInductions(code, |code|) <==> exists gp, n: nat :: InCountdown(code, at, gp, n)
  {
    hide CountdownBound;
    hide CountsDown;
    CountdownMap(code, |code|, at);
    if at in CountdownInductions(code, |code|) {
      var f := CountdownFact(code, at, |code[at].operands|).value;
      CountdownExact(code, at, f.gp, f.bound);
      assert InCountdown(code, at, f.gp, f.bound);
    }
    if gp, n: nat :| InCountdown(code, at, gp, n) {
      CountdownExact(code, at, gp, n);
      var k :| 0 <= k < |code[at].operands| && code[at].operands[k].Mem? &&
               IndexGp(code[at].operands[k].mem) == Some(gp);
      CountdownSome(code, at, |code[at].operands|, k);
    }
  }

  /** A countdown around an access leaves its bound in the merged map, unless Fb7 claims the access. */
  lemma CountdownRecorded(p: Program, at: nat, k: nat, gp: Gp, n: nat)
    requires at < |p.code| && LastIndex(p.code[at], k, gp) && InCountdown(p.code, at, gp, n)
    requires forall g, b: nat :: !InPostTestLoop(p.code, at, g, b)
    ensures FactAt(AllInductions(p), at) == Some(Fact(gp, n))
  {
    hide InPostTestLoop;
    hide CountsDown;
    hide PreTestAll;
    hide CfgPostTestAll;
    hide PostTestInductions;
    hide CountdownFact;
    hide CountdownBound;
    PostTestClaims(p.code, at);
    CountdownExact(p.code, at, gp, n);
    CountdownMap(p.code, |p.code|, at);
    CountdownOperand(p.code, at, |p.code[at].operands|, k, gp, n);
  }

  lemma {:induction false} LastHeaderWins(
    code: seq<LoweredInstr>, physical: seq<Physical>, m: nat, h: nat, at: nat)
    requires |physical| == |code| && h < m && m + 1 < |code| && at in PreTestFacts(code, physical, h)
    requires forall g | h < g < m :: at !in PreTestFacts(code, physical, g)
    ensures at in PreTestInductions(code, physical, m)
    ensures PreTestInductions(code, physical, m)[at] == PreTestFacts(code, physical, h)[at]
  {
    hide PreTestFacts;
    if h < m - 1 { LastHeaderWins(code, physical, m - 1, h, at); }
  }

  /** Some loop with header `h` has the access in its body. */
  ghost predicate HeadsLoopAround(p: Program, h: nat, at: nat)
    requires |p.physical| == |p.code|
  {
    exists gp, n: nat :: InPreTestLoop(p.code, p.physical, h, at, gp, n)
  }

  lemma HeaderClaims(p: Program, h: nat, at: nat)
    requires |p.physical| == |p.code| && h + 2 < |p.code|
    ensures at in PreTestFacts(p.code, p.physical, h) <==> HeadsLoopAround(p, h, at)
  {
    hide PreTestFacts;
    hide InPreTestLoop;
    if at in PreTestFacts(p.code, p.physical, h) {
      var f := PreTestFacts(p.code, p.physical, h)[at];
      PreTestExact(p.code, p.physical, h, at, f.gp, f.bound);
    }
    if HeadsLoopAround(p, h, at) {
      var gp, n: nat :| InPreTestLoop(p.code, p.physical, h, at, gp, n);
      PreTestExact(p.code, p.physical, h, at, gp, n);
    }
  }

  /** Headers leave room for their guard and their back jump. */
  lemma HeaderRoom(code: seq<LoweredInstr>, physical: seq<Physical>, h: nat, at: nat, gp: Gp, n: nat)
    requires |physical| == |code| && InPreTestLoop(code, physical, h, at, gp, n)
    ensures h + 3 < |code| && at < |code|
  {
    hide ZeroedAt;
    hide Target;
    hide Names;
    hide Tests;
  }

  /**
   A pre-test loop around an access leaves its bound in the merged map, unless an earlier
   pass claims the access or a later header's loop lies around it too.
   */
  lemma PreTestRecorded(p: Program, h: nat, at: nat, gp: Gp, n: nat)
    requires |p.physical| == |p.code| && at < |p.code|
    requires InPreTestLoop(p.code, p.physical, h, at, gp, n)
    requires forall g: nat | h < g :: !HeadsLoopAround(p, g, at)
    requires forall g, b: nat :: !InPostTestLoop(p.code, at, g, b)
    requires forall g, b: nat :: !InCountdown(p.code, at, g, b)
    ensures FactAt(AllInductions(p), at) == Some(Fact(gp, n))
  {
    hide *;
    HeaderRoom(p.code, p.physical, h, at, gp, n);
    PostTestClaims(p.code, at);
    CountdownClaims(p.code, at);
    PreTestExact(p.code, p.physical, h, at, gp, n);
    forall g | h < g < |p.code| - 2 ensures at !in PreTestFacts(p.code, p.physical, g) {
      HeaderClaims(p, g, at);
    }
    LastHeaderWins(p.code, p.physical, |p.code| - 2, h, at);
    CfgPostTestRedundant(p);
    PreTestMapAt(p, at);
  }

  lemma PreTestMapAt(p: Program, at: nat)
    requires |p.physical| == |p.code| && |p.code| >= 3
    ensures PreTestAll(p.code, p.physical) == PreTestInductions(p.code, p.physical, |p.code| - 2)
    ensures FactAt(AllInductions(p), at) ==
            if at in AllInductions(p) then Some(AllInductions(p)[at]) else None
  {
    hide PreTestInductions;
    hide AllInductions;
  }

  /** Some header's loop has the access in its body. */
  ghost predicate InSomePreTestLoop(p: Program, at: nat)
  {
    |p.physical| == |p.code| && exists h: nat :: HeadsLoopAround(p, h, at)
  }

  lemma PreTestClaims(p: Program, at: nat)
    ensures at in PreTestAll(p.code, p.physical) <==> InSomePreTestLoop(p, at)
  {
    hide PreTestFacts;
    hide HeadsLoopAround;
    if at in PreTestAll(p.code, p.physical) {
      var h := PreTestInductionsOrigin(p.code, p.physical, |p.code| - 2, at);
      HeaderClaims(p, h, at);
    }
    if InSomePreTestLoop(p, at) {
      var h: nat :| HeadsLoopAround(p, h, at);
      HeadRoom(p, h, at);
      HeaderClaims(p, h, at);
      InsertedStays(p.code, p.physical, |p.code| - 2, h, at);
    }
  }

  lemma HeadRoom(p: Program, h: nat, at: nat)
    requires |p.physical| == |p.code| && HeadsLoopAround(p, h, at)
    ensures h + 3 < |p.code|
  {
    hide InPreTestLoop;
    var gp, n: nat :| InPreTestLoop(p.code, p.physical, h, at, gp, n);
    HeaderRoom(p.code, p.physical, h, at, gp, n);
  }

  lemma {:induction false} InsertedStays(
    code: seq<LoweredInstr>, physical: seq<Physical>, m: nat, h: nat, at: nat)
    requires |physical| == |code| && h < m && m + 1 < |code| && at in PreTestFacts(code, physical, h)
    ensures at in PreTestInductions(code, physical, m)
  {
    hide PreTestFacts;
    if h < m - 1 { InsertedStays(code, physical, m - 1, h, at); }
  }

  /** The merged map holds a bound for exactly the accesses in a loop of one of the three shapes. */
  lemma RecordedExact(p: Program, at: nat)
    requires at < |p.code|
    ensures at in AllInductions(p) <==>
            || (exists gp, n: nat :: InPostTestLoop(p.code, at, gp, n))
            || (exists gp, n: nat :: InCountdown(p.code, at, gp, n))
            || InSomePreTestLoop(p, at)
  {
    hide *;
    CfgPostTestRedundant(p);
    PostTestClaims(p.code, at);
    CountdownClaims(p.code, at);
    PreTestClaims(p, at);
  }
}
