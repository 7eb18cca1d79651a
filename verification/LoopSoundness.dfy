/**
 What the recorded loop bounds mean on the machine.  A recogniser only matches
 instruction patterns; `Confined*` spells out what else a program must satisfy.
 Under it the recorded bound holds in every reachable state, the visits are
 exactly the expected ones; `LoopEntry` and `Gaps` say what happens without it.
 */
module LoopSoundness {
  import opened Basics
  import opened X86
  import opened Machine
  import opened Recognisers

  /** Positions of a matched loop.  `head` is where the back edge lands. */
  datatype Loop = Loop(gp: Gp, bound: nat, init: nat, head: nat, bump: nat, test: nat, back: nat)

  // ----- side conditions -----

  predicate IsWide(w: Width)
  {
    w == B32 || w == B64
  }

  /** Operand 0 is a 32- or 64-bit view of `gp` wide enough for every value up to `n`. */
  predicate WideView(i: LoweredInstr, gp: Gp, n: nat)
  {
    GpOperand(i, 0) == Some(gp) && IsWide(i.operands[0].reg.width) &&
    n < Modulus(i.operands[0].reg.width)
  }

  predicate Plain(i: LoweredInstr, gp: Gp)
  {
    !IsControl(i.mnemonic) && !Clobbers(i, gp)
  }

  predicate AllPlain(code: seq<LoweredInstr>, lo: nat, hi: nat, gp: Gp)
  {
    hi <= |code| && forall k | lo <= k < hi :: Plain(code[k], gp)
  }

  /** Control cannot pass from `k` to a place that is not decoded, save by returning. */
  predicate Resolved(p: Program, k: nat)
    requires k < |p.code|
  {
    var m := p.code[k].mnemonic;
    !m.Other? && (IsControl(m) && m != Ret ==> Target(p.physical, k).Some?)
  }

  /** Every branch other than those at `own` is resolved and lands outside `lo+1..hi`. */
  predicate Sealed(p: Program, lo: nat, hi: nat, own: set<nat>)
  {
    forall k | 0 <= k < |p.code| && k !in own ::
      Resolved(p, k) &&
      (IsControl(p.code[k].mnemonic) && Target(p.physical, k).Some? ==>
         !(lo < Target(p.physical, k).value <= hi))
  }

  predicate Outside(l: Loop, pc: nat)
  {
    pc <= l.init || pc > l.back
  }

  // ----- single instructions -----

  lemma ExecZeroes(i: LoweredInstr, s: State, e: Env, gp: Gp)
    requires Zeroes(i, gp) && WideView(i, gp, 0)
    requires i.mnemonic == Xor ==> SameRegister(i)
    ensures Exec(i, s, e).regs(gp) == 0
  {
  }

  lemma ReadsWide(i: LoweredInstr, s: State, e: Env, gp: Gp)
    requires WideView(i, gp, s.regs(gp))
    ensures OperandOr0(s, i, 0, e) == s.regs(gp)
    ensures OperationWidth(i) == i.operands[0].reg.width
  {
  }

  lemma WritesWide(i: LoweredInstr, s: State, gp: Gp, v: Word)
    requires WideView(i, gp, v)
    ensures WriteDst(s, i, v).regs(gp) == v
  {
  }

  lemma WideBelow(i: LoweredInstr, gp: Gp, n: nat, m: nat)
    requires WideView(i, gp, n) && m <= n
    ensures WideView(i, gp, m) && n < Modulus(OperationWidth(i))
  {
  }

  /** An increment adds 1 to what it reads, at its own width. */
  lemma ExecAddsOne(i: LoweredInstr, s: State, e: Env, gp: Gp)
    requires IsBumpOf(i, gp)
    ensures var m := Modulus(OperationWidth(i));
            Exec(i, s, e).regs == WriteDst(s, i, (OperandOr0(s, i, 0, e) % m + 1) % m).regs
  {
    hide WriteDst;
    hide ReadView;
    assert 1 % TWO64 == 1 && 1 % Modulus(OperationWidth(i)) == 1;
    if i.mnemonic == Add { assert OperandOr0(s, i, 1, e) == 1; }
  }

  lemma ExecBumps(i: LoweredInstr, s: State, e: Env, gp: Gp)
    requires IsBumpOf(i, gp) && WideView(i, gp, s.regs(gp) + 1)
    ensures Exec(i, s, e).regs(gp) == s.regs(gp) + 1
  {
    hide Exec;
    hide WriteDst;
    hide ReadView;
    hide OperandOr0;
    hide IsBumpOf;
    ExecAddsOne(i, s, e, gp);
    ReadsWide(i, s, e, gp);
    WritesWide(i, s, gp, s.regs(gp) + 1);
    var v, m := s.regs(gp), Modulus(OperationWidth(i));
    assert v % m == v && (v + 1) % m == v + 1;
  }

  lemma ExecCompares(i: LoweredInstr, s: State, e: Env, gp: Gp, n: nat)
    requires ComparesTo(i, gp, n) && WideView(i, gp, n) && WideView(i, gp, s.regs(gp))
    ensures Exec(i, s, e) == s.(flags := SubFlags(s.regs(gp), n, i.operands[0].reg.width))
  {
    var v: nat := s.regs(gp);
    var w := i.operands[0].reg.width;
    assert v % Modulus(w) == v && n % TWO64 == n && n % Modulus(w) == n;
  }

  lemma ExecDecrements(i: LoweredInstr, s: State, e: Env, gp: Gp)
    requires IsDecOf(i, gp) && WideView(i, gp, s.regs(gp))
    ensures var s' := Exec(i, s, e);
            var w := i.operands[0].reg.width;
            && s'.regs(gp) == (if s.regs(gp) == 0 then Modulus(w) - 1 else s.regs(gp) - 1)
            && s'.flags.zf == (s'.regs(gp) == 0)
            && s'.flags.sf == (s'.regs(gp) >= Modulus(w) / 2)
  {
    var v: nat := s.regs(gp);
    var w := i.operands[0].reg.width;
    assert v % Modulus(w) == v;
    if v == 0 { assert (v - 1) % Modulus(w) == Modulus(w) - 1; }
    else { assert (v - 1) % Modulus(w) == v - 1; }
  }

  /** Unsigned and signed "below" agree with `<` as long as the index has not passed the bound. */
  lemma BelowBound(v: nat, n: nat, w: Width, m: Mnemonic)
    requires v <= n < Modulus(w)
    ensures IsLoopBranch(m) && Holds(BranchCond(m).value, SubFlags(v, n, w)) ==> v < n
    ensures IsGuard(m) && !Holds(BranchCond(m).value, SubFlags(v, n, w)) ==> v < n
  {
    hide SubFlags;
    CompareConditions(v, n, w);
  }

  predicate Unsigned(m: Mnemonic)
  {
    m.Jae? || m.Jnb? || m.Jb? || m.Jnae?
  }

  /** The signed spellings count all the way only when the bound is not negative as a signed number. */
  lemma ReachesBound(v: nat, n: nat, w: Width, m: Mnemonic)
    requires v <= n < Modulus(w)
    requires Unsigned(m) || n < Modulus(w) / 2
    ensures IsLoopBranch(m) ==> (Holds(BranchCond(m).value, SubFlags(v, n, w)) <==> v < n)
    ensures IsGuard(m) ==> (Holds(BranchCond(m).value, SubFlags(v, n, w)) <==> v >= n)
  {
    hide SubFlags;
    CompareConditions(v, n, w);
  }

  lemma StepPlain(p: Program, s: State, e: Env, gp: Gp)
    requires s.pc < |p.code| && Plain(p.code[s.pc], gp)
    ensures Next(p, s, e).pc == s.pc + 1 && Next(p, s, e).regs(gp) == s.regs(gp)
    ensures KeepsFlags(p.code[s.pc]) ==> Next(p, s, e).flags == s.flags
  {
    ExecFrame(p.code[s.pc], s, Resolve(p.code[s.pc], s, e), gp);
  }

  lemma StepZeroes(p: Program, s: State, e: Env, gp: Gp)
    requires s.pc < |p.code| && Zeroes(p.code[s.pc], gp)
    requires WideView(p.code[s.pc], gp, 0)
    requires p.code[s.pc].mnemonic == Xor ==> SameRegister(p.code[s.pc])
    ensures Next(p, s, e).pc == s.pc + 1 && Next(p, s, e).regs(gp) == 0
  {
    hide Exec;
    ExecZeroes(p.code[s.pc], s, Resolve(p.code[s.pc], s, e), gp);
  }

  lemma StepBumps(p: Program, s: State, e: Env, gp: Gp)
    requires s.pc < |p.code| && IsBumpOf(p.code[s.pc], gp)
    requires WideView(p.code[s.pc], gp, s.regs(gp) + 1)
    ensures Next(p, s, e).pc == s.pc + 1 && Next(p, s, e).regs(gp) == s.regs(gp) + 1
  {
    hide Exec;
    ExecBumps(p.code[s.pc], s, Resolve(p.code[s.pc], s, e), gp);
  }

  lemma StepCompares(p: Program, s: State, e: Env, gp: Gp, n: nat)
    requires s.pc < |p.code| && ComparesTo(p.code[s.pc], gp, n)
    requires WideView(p.code[s.pc], gp, n) && s.regs(gp) <= n
    ensures Next(p, s, e).pc == s.pc + 1 && Next(p, s, e).regs(gp) == s.regs(gp)
    ensures Next(p, s, e).flags == SubFlags(s.regs(gp), n, OperationWidth(p.code[s.pc]))
  {
    hide Exec;
    ExecCompares(p.code[s.pc], s, Resolve(p.code[s.pc], s, e), gp, n);
  }

  lemma StepBranches(p: Program, s: State, e: Env)
    requires s.pc < |p.code| && IsControl(p.code[s.pc].mnemonic)
    ensures forall g :: Next(p, s, e).regs(g) == s.regs(g)
    ensures p.code[s.pc].mnemonic == Jmp ==> Next(p, s, e).pc == Goto(p, s.pc, e)
    ensures BranchCond(p.code[s.pc].mnemonic).Some? ==>
              Next(p, s, e).pc == if Holds(BranchCond(p.code[s.pc].mnemonic).value, s.flags)
                                  then Goto(p, s.pc, e) else s.pc + 1
  {
  }

  /** Away from the loop, no step enters it other than by falling into its initialiser. */
  lemma StaysOutside(p: Program, l: Loop, own: set<nat>, s: State, e: Env)
    requires l.init < l.back < |p.code| && Sealed(p, l.init, l.back, own)
    requires Outside(l, s.pc) && s.pc != l.init && s.pc !in own
    ensures Outside(l, Next(p, s, e).pc)
  {
  }

  // ----- Fb9a: pre-test count-up -----

  /** What a recorded pre-test fact establishes by itself. */
  ghost predicate RecognisedPreTest(p: Program, l: Loop)
  {
    && |p.physical| == |p.code| && l.head + 2 <= l.bump < l.back < |p.code|
    && ZeroedAt(p.code, l.init, l.head, l.gp)
    && ComparesTo(p.code[l.head], l.gp, l.bound) && l.test == l.head + 1
    && IsGuard(p.code[l.test].mnemonic) && Target(p.physical, l.test) == Some(l.back + 1)
    && SoleIncrement(p.code, l.head + 2, l.back, l.gp, l.bump)
    && p.code[l.back].mnemonic == Jmp && Target(p.physical, l.back) == Some(l.head)
  }

  /** What the code leaves unchecked: full-width views, a straight body, no way in but the top. */
  predicate ConfinedPreTest(p: Program, l: Loop)
  {
    && l.init < l.head && l.head + 2 <= l.bump < l.back < |p.code|
    && (p.code[l.init].mnemonic == Xor ==> SameRegister(p.code[l.init]))
    && WideView(p.code[l.init], l.gp, 0) && WideView(p.code[l.head], l.gp, l.bound)
    && WideView(p.code[l.bump], l.gp, l.bound)
    && AllPlain(p.code, l.init + 1, l.head, l.gp)
    && AllPlain(p.code, l.head + 2, l.bump, l.gp)
    && AllPlain(p.code, l.bump + 1, l.back, l.gp)
    && Sealed(p, l.init, l.back, {l.test, l.back})
  }

  ghost predicate PreTest(p: Program, l: Loop)
  {
    RecognisedPreTest(p, l) && ConfinedPreTest(p, l)
  }

  lemma PreTestFactsOrigin(p: Program, h: nat, at: nat) returns (l: Loop)
    requires |p.physical| == |p.code| && h + 2 < |p.code|
    requires at in PreTestFacts(p.code, p.physical, h)
    ensures RecognisedPreTest(p, l)
    ensures PreTestFacts(p.code, p.physical, h)[at] == Fact(l.gp, l.bound)
    ensures l.head + 2 <= at < l.back && IndexedBy(p.code[at], l.gp)
  {
    hide PreTestFacts;
    hide PreTestHeader;
    hide ZeroInit;
    hide ZeroedAt;
    hide SoleIncrement;
    hide ComparesTo;
    hide IndexedBy;
    hide Target;
    PreTestFactsMeaning(p.code, p.physical, h, at);
    PreTestHeaderMeaning(p.code, p.physical, h);
    var m := PreTestHeader(p.code, p.physical, h).value;
    ZeroInitMeaning(p.code, h, m.gp);
    var z :| ZeroedAt(p.code, z, h, m.gp);
    var j :| h + 2 <= j < m.back && SoleIncrement(p.code, h + 2, m.back, m.gp, j);
    l := Loop(m.gp, m.bound, z, h, j, h + 1, m.back);
  }

  /** Every fact of the pre-test recogniser comes from a recognised loop around the access. */
  lemma PreTestFactOrigin(p: Program, at: nat) returns (l: Loop)
    requires at in PreTestAll(p.code, p.physical)
    ensures RecognisedPreTest(p, l)
    ensures PreTestAll(p.code, p.physical)[at] == Fact(l.gp, l.bound)
    ensures l.head + 2 <= at < l.back && IndexedBy(p.code[at], l.gp)
  {
    var h := PreTestInductionsOrigin(p.code, p.physical, |p.code| - 2, at);
    l := PreTestFactsOrigin(p, h, at);
  }

  ghost predicate PreTestInv(p: Program, l: Loop, s: State)
    requires PreTest(p, l)
  {
    var v := s.regs(l.gp);
    && (l.init < s.pc < l.head ==> v == 0)
    && (s.pc == l.head ==> v <= l.bound)
    && (s.pc == l.test ==> v <= l.bound)
    && (s.pc == l.test ==> s.flags == SubFlags(v, l.bound, OperationWidth(p.code[l.head])))
    && (l.test < s.pc <= l.bump ==> v < l.bound)
    && (l.bump < s.pc <= l.back ==> 1 <= v <= l.bound)
  }

  lemma PreTestOrdered(p: Program, l: Loop)
    requires PreTest(p, l)
    ensures l.init < l.head && l.test == l.head + 1 && l.head + 2 <= l.bump < l.back < |p.code|
    ensures AllPlain(p.code, l.init + 1, l.head, l.gp) && AllPlain(p.code, l.head + 2, l.bump, l.gp)
    ensures AllPlain(p.code, l.bump + 1, l.back, l.gp) && Sealed(p, l.init, l.back, {l.test, l.back})
  {
    hide AllPlain;
    hide Sealed;
    hide WideView;
    hide ZeroedAt;
    hide Target;
    hide ComparesTo;
  }

  lemma HeadStep(p: Program, l: Loop, s: State, e: Env)
    requires PreTest(p, l) && s.pc == l.head && s.regs(l.gp) <= l.bound
    ensures var s' := Next(p, s, e);
            && s'.pc == s.pc + 1 && s'.regs(l.gp) == s.regs(l.gp)
            && s'.flags == SubFlags(s.regs(l.gp), l.bound, OperationWidth(p.code[l.head]))
  {
    hide Next;
    hide Sealed;
    hide ZeroedAt;
    hide AllPlain;
    hide WideView;
    hide SubFlags;
    StepCompares(p, s, e, l.gp, l.bound);
  }

  lemma BumpStep(p: Program, l: Loop, s: State, e: Env)
    requires PreTest(p, l) && s.pc == l.bump && s.regs(l.gp) < l.bound
    ensures Next(p, s, e).pc == s.pc + 1 && Next(p, s, e).regs(l.gp) == s.regs(l.gp) + 1
  {
    hide Next;
    hide Sealed;
    hide ZeroedAt;
    hide AllPlain;
    hide WideView;
    WideBelow(p.code[l.bump], l.gp, l.bound, s.regs(l.gp) + 1);
    StepBumps(p, s, e, l.gp);
  }

  lemma BackStep(p: Program, l: Loop, s: State, e: Env)
    requires PreTest(p, l) && s.pc == l.back
    ensures Next(p, s, e).pc == l.head && Next(p, s, e).regs(l.gp) == s.regs(l.gp)
  {
    hide Next;
    hide Sealed;
    hide ZeroedAt;
    hide AllPlain;
    hide WideView;
    StepBranches(p, s, e);
  }

  lemma InitStep(p: Program, l: Loop, s: State, e: Env)
    requires PreTest(p, l) && s.pc == l.init
    ensures Next(p, s, e).pc == l.init + 1 && Next(p, s, e).regs(l.gp) == 0
  {
    hide Next;
    hide Sealed;
    hide AllPlain;
    hide WideView;
    StepZeroes(p, s, e, l.gp);
  }

  lemma GuardStep(p: Program, l: Loop, s: State, e: Env)
    requires PreTest(p, l) && s.pc == l.test && PreTestInv(p, l, s)
    ensures Next(p, s, e).regs(l.gp) == s.regs(l.gp)
    ensures Next(p, s, e).pc == l.back + 1 || (Next(p, s, e).pc == l.test + 1 && s.regs(l.gp) < l.bound)
  {
    hide Next;
    hide Sealed;
    hide ZeroedAt;
    hide AllPlain;
    hide WideView;
    hide SubFlags;
    hide Holds;
    WideBelow(p.code[l.head], l.gp, l.bound, l.bound);
    StepBranches(p, s, e);
    BelowBound(s.regs(l.gp), l.bound, OperationWidth(p.code[l.head]), p.code[s.pc].mnemonic);
  }

  lemma PreTestStep(p: Program, l: Loop, s: State, e: Env)
    requires PreTest(p, l) && PreTestInv(p, l, s)
    ensures PreTestInv(p, l, Next(p, s, e))
  {
    hide Next;
    hide PreTest;
    hide Sealed;
    hide Plain;
    hide SubFlags;
    PreTestOrdered(p, l);
    if s.pc == l.init {
      InitStep(p, l, s, e);
    } else if Outside(l, s.pc) {
      StaysOutside(p, l, {l.test, l.back}, s, e);
    } else if s.pc == l.head {
      HeadStep(p, l, s, e);
    } else if s.pc == l.test {
      GuardStep(p, l, s, e);
    } else if s.pc == l.bump {
      BumpStep(p, l, s, e);
    } else if s.pc == l.back {
      BackStep(p, l, s, e);
    } else {
      StepPlain(p, s, e, l.gp);
    }
  }

  lemma {:induction false} PreTestAlways(p: Program, l: Loop, s: State, es: seq<Env>)
    requires PreTest(p, l) && PreTestInv(p, l, s)
    ensures PreTestInv(p, l, Run(p, s, es))
  {
    hide Next;
    hide PreTest;
    hide PreTestInv;
    if |es| > 0 {
      PreTestAlways(p, l, s, es[..|es| - 1]);
      PreTestStep(p, l, Run(p, s, es[..|es| - 1]), es[|es| - 1]);
    }
  }

  /**
   Safety of Fb9a over whole programs: on every run that starts outside the
   loop, each visit to an access before the increment has its index below the
   recorded bound.
   */
  lemma PreTestSound(p: Program, l: Loop, s: State, es: seq<Env>)
    requires PreTest(p, l) && Outside(l, s.pc)
    ensures var s' := Run(p, s, es);
            l.test < s'.pc <= l.bump ==> s'.regs(l.gp) < l.bound
  {
    hide Run;
    PreTestAlways(p, l, s, es);
  }

  /** The guard lets the count run all the way to the bound. */
  predicate CountsFully(p: Program, l: Loop, cmpAt: nat, branchAt: nat)
    requires cmpAt < |p.code| && branchAt < |p.code|
  {
    Unsigned(p.code[branchAt].mnemonic) ||
    l.bound < Modulus(OperationWidth(p.code[cmpAt])) / 2
  }

  lemma {:induction false} PlainStretch(p: Program, gp: Gp, s: State, es: seq<Env>)
    requires AllPlain(p.code, s.pc, s.pc + |es|, gp)
    ensures Run(p, s, es).pc == s.pc + |es| && Run(p, s, es).regs(gp) == s.regs(gp)
  {
    if |es| > 0 {
      var es' := es[..|es| - 1];
      PlainStretch(p, gp, s, es');
      hide Next;
      StepPlain(p, Run(p, s, es'), es[|es| - 1], gp);
    }
  }

  /** A pre-test loop whose guard lets the count run all the way to the bound. */
  ghost predicate FullPreTest(p: Program, l: Loop)
  {
    PreTest(p, l) && CountsFully(p, l, l.head, l.test)
  }

  ghost predicate AtGuard(p: Program, l: Loop, s: State)
    requires FullPreTest(p, l)
  {
    s.flags == SubFlags(s.regs(l.gp), l.bound, OperationWidth(p.code[l.head]))
  }

  /** One step of the loop, place by place. */
  lemma FullGuardStep(p: Program, l: Loop, s: State, e: Env)
    requires FullPreTest(p, l) && s.pc == l.test && s.regs(l.gp) <= l.bound && AtGuard(p, l, s)
    ensures Next(p, s, e).regs(l.gp) == s.regs(l.gp)
    ensures Next(p, s, e).pc == if s.regs(l.gp) < l.bound then l.test + 1 else l.back + 1
  {
    hide Next;
    hide Sealed;
    hide ZeroedAt;
    hide AllPlain;
    hide WideView;
    hide SubFlags;
    hide Holds;
    WideBelow(p.code[l.head], l.gp, l.bound, l.bound);
    StepBranches(p, s, e);
    ReachesBound(s.regs(l.gp), l.bound, OperationWidth(p.code[l.head]), p.code[s.pc].mnemonic);
  }

  lemma PreTestNext(p: Program, l: Loop, s: State, e: Env)
    requires FullPreTest(p, l) && l.head <= s.pc <= l.back
    requires s.regs(l.gp) <= l.bound
    requires s.pc == l.test ==> AtGuard(p, l, s)
    requires s.pc == l.bump ==> s.regs(l.gp) < l.bound
    ensures var s' := Next(p, s, e);
            && s'.regs(l.gp) == s.regs(l.gp) + (if s.pc == l.bump then 1 else 0)
            && (s.pc == l.test && s.regs(l.gp) == l.bound ==> s'.pc == l.back + 1)
            && (s.pc == l.back ==> s'.pc == l.head)
            && (s.pc != l.back && (s.pc == l.test ==> s.regs(l.gp) < l.bound) ==> s'.pc == s.pc + 1)
            && (s.pc == l.head ==> AtGuard(p, l, s'))
  {
    hide Next;
    hide PreTest;
    hide Plain;
    hide SubFlags;
    PreTestOrdered(p, l);
    if s.pc == l.head {
      HeadStep(p, l, s, e);
    } else if s.pc == l.test {
      FullGuardStep(p, l, s, e);
    } else if s.pc == l.bump {
      BumpStep(p, l, s, e);
    } else if s.pc == l.back {
      BackStep(p, l, s, e);
    } else {
      StepPlain(p, s, e, l.gp);
    }
  }

  lemma PreTestOrder(p: Program, l: Loop)
    requires FullPreTest(p, l)
    ensures PreTest(p, l) && 0 < l.bound
    ensures l.init < l.head < l.test < l.bump < l.back < |p.code| && l.test == l.head + 1
  {
  }

  /** Within one iteration the run is at a known place with a known index. */
  lemma {:induction false} PreTestPosition(p: Program, l: Loop, s: State, es: seq<Env>)
    requires FullPreTest(p, l)
    requires s.pc == l.head && s.regs(l.gp) < l.bound && |es| <= l.back - l.head
    ensures Run(p, s, es).pc == l.head + |es|
    ensures Run(p, s, es).regs(l.gp) ==
            s.regs(l.gp) + (if l.head + |es| <= l.bump then 0 else 1)
    ensures |es| == 1 ==> AtGuard(p, l, Run(p, s, es))
  {
    hide Next;
    hide FullPreTest;
    hide AtGuard;
    PreTestOrder(p, l);
    if |es| > 0 {
      var es' := es[..|es| - 1];
      PreTestPosition(p, l, s, es');
      PreTestNext(p, l, Run(p, s, es'), es[|es| - 1]);
    }
  }

  lemma PreTestIteration(p: Program, l: Loop, s: State, es: seq<Env>)
    requires FullPreTest(p, l)
    requires s.pc == l.head && s.regs(l.gp) < l.bound && |es| == l.back - l.head + 1
    ensures Run(p, s, es).pc == l.head && Run(p, s, es).regs(l.gp) == s.regs(l.gp) + 1
  {
    hide Next;
    hide FullPreTest;
    PreTestOrder(p, l);
    PreTestPosition(p, l, s, es[..|es| - 1]);
    PreTestNext(p, l, Run(p, s, es[..|es| - 1]), es[|es| - 1]);
  }

  lemma {:induction false} PreTestCount(p: Program, l: Loop, s: State, es: seq<Env>, k: nat)
    requires FullPreTest(p, l) && l.head <= l.back
    requires s.pc == l.head && s.regs(l.gp) == 0 && k <= l.bound
    requires |es| == k * (l.back - l.head + 1)
    ensures Run(p, s, es).pc == l.head && Run(p, s, es).regs(l.gp) == k
  {
    hide Next;
    hide FullPreTest;
    if k > 0 {
      var n := l.back - l.head + 1;
      assert |es| == (k - 1) * n + n;
      var first, last := es[..|es| - n], es[|es| - n..];
      assert es == first + last;
      PreTestCount(p, l, s, first, k - 1);
      RunSplit(p, s, first, last);
      PreTestIteration(p, l, Run(p, s, first), last);
    }
  }

  /**
   The pre-test loop entered with index 0 visits the place `|part|` instructions
   after the header in every iteration `k`, with `k` as the index (`k + 1`
   after the increment), whatever the environment does.
   */
  lemma PreTestVisits(p: Program, l: Loop, s: State, turns: seq<Env>, part: seq<Env>, k: nat)
    requires FullPreTest(p, l) && |part| <= l.back - l.head
    requires s.pc == l.head && s.regs(l.gp) == 0 && k < l.bound
    requires |turns| == k * (l.back - l.head + 1)
    ensures Run(p, s, turns + part).pc == l.head + |part|
    ensures Run(p, s, turns + part).regs(l.gp) == if l.head + |part| <= l.bump then k else k + 1
  {
    hide Next;
    hide FullPreTest;
    PreTestCount(p, l, s, turns, k);
    RunSplit(p, s, turns, part);
    PreTestPosition(p, l, Run(p, s, turns), part);
  }

  /** After exactly `bound` iterations the loop leaves at its exit with the index equal to the bound. */
  lemma PreTestLeaves(p: Program, l: Loop, s: State, es: seq<Env>)
    requires FullPreTest(p, l) && l.head <= l.back
    requires s.pc == l.head && s.regs(l.gp) == 0
    requires |es| == l.bound * (l.back - l.head + 1) + 2
    ensures Run(p, s, es).pc == l.back + 1 && Run(p, s, es).regs(l.gp) == l.bound
  {
    hide Next;
    hide FullPreTest;
    hide PreTest;
    PreTestOrder(p, l);
    var t1 := es[..|es| - 1];
    var t2 := t1[..|t1| - 1];
    PreTestCount(p, l, s, t2, l.bound);
    PreTestNext(p, l, Run(p, s, t2), t1[|t1| - 1]);
    PreTestNext(p, l, Run(p, s, t1), es[|es| - 1]);
  }

  // ----- Fb9a: exactly which accesses the recorded bound is right for -----

  ghost predicate BoundedAtEveryVisit(p: Program, l: Loop, at: nat)
  {
    forall s: State, es: seq<Env> | Outside(l, s.pc) && Run(p, s, es).pc == at ::
      Run(p, s, es).regs(l.gp) < l.bound
  }

  function AnyEnvs(n: nat): (es: seq<Env>)
    ensures |es| == n
  {
    seq(n, _ => Env(0, _ => 0, Flags(false, false, false, false), _ => Cell(0, 8)))
  }

  lemma PreTestEntry(p: Program, l: Loop, s: State, es: seq<Env>)
    requires PreTest(p, l) && l.init < l.head && s.pc == l.init && |es| == l.head - l.init
    ensures Run(p, s, es).pc == l.head && Run(p, s, es).regs(l.gp) == 0
  {
    hide Next;
    hide Sealed;
    var first, rest := es[..1], es[1..];
    assert es == first + rest;
    RunSplit(p, s, first, rest);
    assert Run(p, s, first) == Next(p, s, es[0]) by {
      assert first[..0] == [] && Run(p, s, []) == s;
    }
    StepZeroes(p, s, es[0], l.gp);
    PlainStretch(p, l.gp, Run(p, s, first), rest);
  }

  /** An access after the increment is visited in the last iteration with the index at the bound. */
  lemma PreTestOverrun(p: Program, l: Loop, at: nat) returns (s: State, es: seq<Env>)
    requires FullPreTest(p, l) && l.bump < at < l.back
    ensures s.pc == l.init
    ensures Run(p, s, es).pc == at && Run(p, s, es).regs(l.gp) == l.bound
  {
    hide Next;
    hide FullPreTest;
    hide PreTest;
    PreTestOrder(p, l);
    var n: nat, k: nat := l.back - l.head + 1, l.bound - 1;
    s := State(l.init, _ => 0, Flags(false, false, false, false), _ => Cell(0, 8));
    var enter, turns, part := AnyEnvs(l.head - l.init), AnyEnvs(k * n), AnyEnvs(at - l.head);
    PreTestEntry(p, l, s, enter);
    PreTestVisits(p, l, Run(p, s, enter), turns, part, k);
    RunSplit(p, s, enter, turns + part);
    es := enter + (turns + part);
  }

  /** A signed guard against a bound that is negative at its width turns away the index 0. */
  ghost predicate NeverEntered(p: Program, l: Loop, s: State)
    requires PreTest(p, l)
  {
    var v := s.regs(l.gp);
    && (l.init < s.pc <= l.test ==> v == 0)
    && (s.pc == l.test ==> s.flags == SubFlags(0, l.bound, OperationWidth(p.code[l.head])))
    && !(l.test < s.pc <= l.back)
  }

  lemma TurnsAway(n: nat, w: Width, m: Mnemonic)
    requires Modulus(w) / 2 <= n < Modulus(w) && IsGuard(m) && !Unsigned(m)
    ensures Holds(BranchCond(m).value, SubFlags(0, n, w))
  {
    CompareConditions(0, n, w);
  }

  lemma NeverEnteredStep(p: Program, l: Loop, s: State, e: Env)
    requires PreTest(p, l) && !FullPreTest(p, l) && NeverEntered(p, l, s)
    ensures NeverEntered(p, l, Next(p, s, e))
  {
    hide Next;
    hide Sealed;
    hide Zeroes;
    hide SeenWriting;
    hide SubFlags;
    hide Clobbers;
    hide Target;
    if s.pc == l.init {
      StepZeroes(p, s, e, l.gp);
    } else if Outside(l, s.pc) {
      StaysOutside(p, l, {l.test, l.back}, s, e);
    } else if s.pc == l.head {
      StepCompares(p, s, e, l.gp, l.bound);
    } else if s.pc == l.test {
      StepBranches(p, s, e);
      TurnsAway(l.bound, OperationWidth(p.code[l.head]), p.code[s.pc].mnemonic);
    } else {
      StepPlain(p, s, e, l.gp);
    }
  }

  lemma {:induction false} NeverEnteredAlways(p: Program, l: Loop, s: State, es: seq<Env>)
    requires PreTest(p, l) && !FullPreTest(p, l) && NeverEntered(p, l, s)
    ensures NeverEntered(p, l, Run(p, s, es))
  {
    hide Next;
    hide PreTest;
    hide FullPreTest;
    hide NeverEntered;
    if |es| > 0 {
      NeverEnteredAlways(p, l, s, es[..|es| - 1]);
      NeverEnteredStep(p, l, Run(p, s, es[..|es| - 1]), es[|es| - 1]);
    }
  }

  /**
   The recorded bound is right for exactly the accesses that precede the increment, and
   for all of them when the guard never lets the loop start.
   */
  lemma PreTestExact(p: Program, l: Loop, at: nat)
    requires PreTest(p, l) && l.head + 2 <= at < l.back && at != l.bump
    ensures BoundedAtEveryVisit(p, l, at) <==> at < l.bump || !FullPreTest(p, l)
  {
    hide Run;
    hide FullPreTest;
    PreTestOrdered(p, l);
    hide PreTest;
    if at < l.bump || !FullPreTest(p, l) {
      forall s: State, es: seq<Env> | Outside(l, s.pc) && Run(p, s, es).pc == at
        ensures Run(p, s, es).regs(l.gp) < l.bound
      {
        if at < l.bump { PreTestSound(p, l, s, es); } else { NeverEnteredAlways(p, l, s, es); }
      }
    } else {
      var s, es := PreTestOverrun(p, l, at);
      assert Outside(l, s.pc) && Run(p, s, es).pc == at;
    }
  }

  // ----- Fb7 and Fb9b: post-test count-up -----

  ghost predicate RecognisedPostTest(p: Program, l: Loop, at: nat)
  {
    && l.init < at < l.bump < l.test && l.back == l.test + 1 < |p.code|
    && ZeroedAt(p.code, l.init, at, l.gp) && IndexedBy(p.code[at], l.gp)
    && IsBumpOf(p.code[l.bump], l.gp) && ComparesTo(p.code[l.test], l.gp, l.bound)
    && IsLoopBranch(p.code[l.back].mnemonic)
  }

  /** Full-width views, a straight body and a back edge that lands before the increment. */
  predicate StraightPostTest(p: Program, l: Loop)
  {
    && l.init < l.head <= l.bump < l.test && l.back == l.test + 1 < |p.code|
    && (p.code[l.init].mnemonic == Xor ==> SameRegister(p.code[l.init]))
    && WideView(p.code[l.init], l.gp, 0) && WideView(p.code[l.bump], l.gp, l.bound)
    && WideView(p.code[l.test], l.gp, l.bound)
    && Target(p.physical, l.back) == Some(l.head)
    && AllPlain(p.code, l.init + 1, l.bump, l.gp) && AllPlain(p.code, l.bump + 1, l.test, l.gp)
  }

  /** A straight loop with no other way in. */
  predicate ConfinedPostTest(p: Program, l: Loop)
  {
    StraightPostTest(p, l) && Sealed(p, l.init, l.back, {l.back})
  }

  ghost predicate PostTest(p: Program, l: Loop, at: nat)
  {
    RecognisedPostTest(p, l, at) && ConfinedPostTest(p, l)
  }

  lemma PostTestOperandOrigin(p: Program, at: nat, k: nat) returns (l: Loop)
    requires at < |p.code| && k < |p.code[at].operands|
    requires PostTestOperand(p.code, at, p.code[at].operands[k]).Some?
    ensures RecognisedPostTest(p, l, at)
    ensures PostTestOperand(p.code, at, p.code[at].operands[k]) == Some(Fact(l.gp, l.bound))
  {
    hide ZeroInit;
    hide PostTestBound;
    hide Zeroes;
    hide SeenWriting;
    hide EndsCountUp;
    hide IsBumpOf;
    hide ComparesTo;
    var f := PostTestOperand(p.code, at, p.code[at].operands[k]).value;
    assert IndexedBy(p.code[at], f.gp);
    hide IndexedBy;
    ZeroInitMeaning(p.code, at, f.gp);
    var z :| ZeroedAt(p.code, z, at, f.gp);
    var j, c := PostTestBoundMeaning(p.code, at + 1, f.gp, false);
    l := Loop(f.gp, f.bound, z, at, j, c, c + 1);
  }

  /** Every Fb7 fact comes from a recognised loop around the access. */
  lemma PostTestFactOrigin(p: Program, at: nat) returns (l: Loop)
    requires at in PostTestInductions(p.code, |p.code|)
    ensures RecognisedPostTest(p, l, at)
    ensures PostTestInductions(p.code, |p.code|)[at] == Fact(l.gp, l.bound)
  {
    hide PostTestFact;
    hide PostTestOperand;
    var f := PostTestFact(p.code, at, |p.code[at].operands|);
    var k :| 0 <= k < |p.code[at].operands| && PostTestOperand(p.code, at, p.code[at].operands[k]) == f;
    l := PostTestOperandOrigin(p, at, k);
  }

  ghost predicate AtLoopBranch(p: Program, l: Loop, s: State)
    requires l.test < |p.code|
  {
    s.flags == SubFlags(s.regs(l.gp), l.bound, OperationWidth(p.code[l.test]))
  }

  ghost predicate FullPostTest(p: Program, l: Loop, at: nat)
  {
    PostTest(p, l, at) && CountsFully(p, l, l.test, l.back)
  }

  lemma PostTestOrder(p: Program, l: Loop, at: nat)
    requires FullPostTest(p, l, at)
    ensures PostTest(p, l, at) && 0 < l.bound
    ensures l.init < l.head <= l.bump < l.test < l.back < |p.code| && l.back == l.test + 1
    ensures AllPlain(p.code, l.init + 1, l.bump, l.gp) && AllPlain(p.code, l.bump + 1, l.test, l.gp)
  {
  }

  lemma PostTestAtTest(p: Program, l: Loop, at: nat, s: State, e: Env)
    requires FullPostTest(p, l, at) && s.pc == l.test && l.test < |p.code| && s.regs(l.gp) <= l.bound
    ensures var s' := Next(p, s, e);
            s'.pc == s.pc + 1 && s'.regs(l.gp) == s.regs(l.gp) && AtLoopBranch(p, l, s')
  {
    hide Next;
    hide ZeroedAt;
    hide IndexedBy;
    hide Sealed;
    hide AllPlain;
    hide WideView;
    hide SubFlags;
    StepCompares(p, s, e, l.gp, l.bound);
  }

  lemma PostTestAtBack(p: Program, l: Loop, at: nat, s: State, e: Env)
    requires FullPostTest(p, l, at) && s.pc == l.back && l.test < |p.code| && s.regs(l.gp) <= l.bound
    requires AtLoopBranch(p, l, s)
    ensures var s' := Next(p, s, e);
            && s'.regs(l.gp) == s.regs(l.gp)
            && s'.pc == if s.regs(l.gp) < l.bound then l.head else l.back + 1
  {
    hide Next;
    hide ZeroedAt;
    hide IndexedBy;
    hide Sealed;
    hide AllPlain;
    hide WideView;
    hide SubFlags;
    hide Holds;
    WideBelow(p.code[l.test], l.gp, l.bound, l.bound);
    StepBranches(p, s, e);
    ReachesBound(s.regs(l.gp), l.bound, OperationWidth(p.code[l.test]), p.code[s.pc].mnemonic);
  }

  lemma PostTestAtBump(p: Program, l: Loop, at: nat, s: State, e: Env)
    requires FullPostTest(p, l, at) && s.pc == l.bump && s.regs(l.gp) < l.bound
    ensures Next(p, s, e).pc == s.pc + 1 && Next(p, s, e).regs(l.gp) == s.regs(l.gp) + 1
  {
    hide Next;
    hide ZeroedAt;
    hide IndexedBy;
    hide Sealed;
    hide AllPlain;
    hide WideView;
    WideBelow(p.code[l.bump], l.gp, l.bound, s.regs(l.gp) + 1);
    StepBumps(p, s, e, l.gp);
  }

  lemma PostTestNext(p: Program, l: Loop, at: nat, s: State, e: Env)
    requires FullPostTest(p, l, at) && l.head <= s.pc <= l.back < |p.code| && l.test < |p.code|
    requires s.regs(l.gp) <= l.bound
    requires s.pc == l.bump ==> s.regs(l.gp) < l.bound
    requires s.pc == l.back ==> AtLoopBranch(p, l, s)
    ensures var s' := Next(p, s, e);
            && s'.regs(l.gp) == s.regs(l.gp) + (if s.pc == l.bump then 1 else 0)
            && (s.pc == l.back ==> s'.pc == if s.regs(l.gp) < l.bound then l.head else l.back + 1)
            && (s.pc != l.back ==> s'.pc == s.pc + 1)
            && (s.pc == l.test ==> AtLoopBranch(p, l, s'))
  {
    hide Next;
    hide FullPostTest;
    hide PostTest;
    hide Plain;
    hide AtLoopBranch;
    PostTestOrder(p, l, at);
    if s.pc == l.test {
      PostTestAtTest(p, l, at, s, e);
    } else if s.pc == l.back {
      PostTestAtBack(p, l, at, s, e);
    } else if s.pc == l.bump {
      PostTestAtBump(p, l, at, s, e);
    } else {
      StepPlain(p, s, e, l.gp);
    }
  }

  lemma {:induction false} PostTestPosition(p: Program, l: Loop, at: nat, s: State, es: seq<Env>)
    requires FullPostTest(p, l, at) && l.test < |p.code|
    requires s.pc == l.head && s.regs(l.gp) < l.bound && |es| <= l.back - l.head
    ensures Run(p, s, es).pc == l.head + |es|
    ensures Run(p, s, es).regs(l.gp) ==
            s.regs(l.gp) + (if l.head + |es| <= l.bump then 0 else 1)
    ensures l.head + |es| == l.back ==> AtLoopBranch(p, l, Run(p, s, es))
  {
    hide Next;
    hide FullPostTest;
    hide PostTest;
    hide AtLoopBranch;
    PostTestOrder(p, l, at);
    if |es| > 0 {
      var es' := es[..|es| - 1];
      PostTestPosition(p, l, at, s, es');
      PostTestNext(p, l, at, Run(p, s, es'), es[|es| - 1]);
    }
  }

  lemma PostTestIteration(p: Program, l: Loop, at: nat, s: State, es: seq<Env>)
    requires FullPostTest(p, l, at)
    requires s.pc == l.head && s.regs(l.gp) < l.bound && |es| == l.back - l.head + 1
    ensures Run(p, s, es).regs(l.gp) == s.regs(l.gp) + 1
    ensures Run(p, s, es).pc == if s.regs(l.gp) + 1 < l.bound then l.head else l.back + 1
  {
    hide Next;
    hide FullPostTest;
    hide PostTest;
    PostTestOrder(p, l, at);
    PostTestPosition(p, l, at, s, es[..|es| - 1]);
    PostTestNext(p, l, at, Run(p, s, es[..|es| - 1]), es[|es| - 1]);
  }

  /** After `k` turns the index is `k`; the turn that reaches the bound leaves the loop. */
  lemma {:induction false} PostTestCount(
    p: Program, l: Loop, at: nat, s: State, es: seq<Env>, k: nat)
    requires FullPostTest(p, l, at) && l.head <= l.back
    requires s.pc == l.head && s.regs(l.gp) == 0 && k <= l.bound
    requires |es| == k * (l.back - l.head + 1)
    ensures Run(p, s, es).regs(l.gp) == k
    ensures Run(p, s, es).pc == if k < l.bound then l.head else l.back + 1
  {
    hide Next;
    hide FullPostTest;
    hide PostTest;
    PostTestOrder(p, l, at);
    if k > 0 {
      var n := l.back - l.head + 1;
      assert |es| == (k - 1) * n + n;
      var first, last := es[..|es| - n], es[|es| - n..];
      assert es == first + last;
      PostTestCount(p, l, at, s, first, k - 1);
      RunSplit(p, s, first, last);
      PostTestIteration(p, l, at, Run(p, s, first), last);
    }
  }

  /**
   A post-test loop entered with index 0 visits the place `|part|` instructions
   after its head exactly once in each of its `bound` turns, with the turn
   number as index (one more after the increment).
   */
  lemma PostTestVisits(
    p: Program, l: Loop, at: nat, s: State, turns: seq<Env>, part: seq<Env>, k: nat)
    requires FullPostTest(p, l, at) && |part| <= l.back - l.head
    requires s.pc == l.head && s.regs(l.gp) == 0 && k < l.bound
    requires |turns| == k * (l.back - l.head + 1)
    ensures Run(p, s, turns + part).pc == l.head + |part|
    ensures Run(p, s, turns + part).regs(l.gp) == if l.head + |part| <= l.bump then k else k + 1
  {
    hide Next;
    hide FullPostTest;
    hide PostTest;
    PostTestOrder(p, l, at);
    PostTestCount(p, l, at, s, turns, k);
    RunSplit(p, s, turns, part);
    PostTestPosition(p, l, at, Run(p, s, turns), part);
  }

  // ----- Fb9b adds nothing to Fb7 -----

  /** Scanning past instructions that do not write `gp` leaves the Fb7 scan where it was. */
  lemma {:induction false} PostTestBoundSkips(code: seq<LoweredInstr>, from: nat, at: nat, gp: Gp)
    requires from <= at <= |code| && forall k | from <= k < at :: !WritesGp(code[k], gp)
    decreases at - from
    ensures PostTestBound(code, from, gp, false) == PostTestBound(code, at, gp, false)
  {
    if from < at { PostTestBoundSkips(code, from + 1, at, gp); }
  }

  /** What Fb9b confirms at `a` Fb7 already finds there, with the same register and bound. */
  lemma CfgFactIsPostTestFact(code: seq<LoweredInstr>, physical: seq<Physical>, a: nat)
    requires |physical| == |code| && a + 3 < |code| && CfgPostTestFact(code, physical, a).Some?
    ensures var f := CfgPostTestFact(code, physical, a).value;
            exists k | 0 <= k < |code[a].operands| ::
              PostTestOperand(code, a, code[a].operands[k]) == Some(f)
  {
    hide ZeroInit;
    hide Target;
    var gp := IndexedGpInAccess(code[a].operands).value;
    var at := FirstWriter(code, a + 1, a, gp);
    PostTestBoundSkips(code, a + 1, at, gp);
    assert PostTestBound(code, at, gp, false) == PostTestBound(code, at + 1, gp, true);
  }

  predicate OneMemoryOperand(i: LoweredInstr)
  {
    forall j, k | 0 <= j < k < |i.operands| :: !(i.operands[j].Mem? && i.operands[k].Mem?)
  }

  lemma CfgFactRecorded(p: Program, a: nat)
    requires a in CfgPostTestAll(p.code, p.physical)
    ensures a in PostTestInductions(p.code, |p.code|)
    ensures OneMemoryOperand(p.code[a]) ==>
              PostTestInductions(p.code, |p.code|)[a] == CfgPostTestAll(p.code, p.physical)[a]
  {
    hide ZeroInit;
    hide PostTestBound;
    hide CfgPostTestFact;
    CfgPostTestOrigin(p.code, p.physical, |p.code| - 3, a);
    CfgFactIsPostTestFact(p.code, p.physical, a);
  }

  /** The CFG-confirmed post-test pass never changes the merged map, whatever the program. */
  lemma CfgPostTestRedundant(p: Program)
    ensures AllInductions(p) ==
            PreTestAll(p.code, p.physical) +
            (CountdownInductions(p.code, |p.code|) + PostTestInductions(p.code, |p.code|))
  {
    hide *;
    CfgClaimed(p);
    MergedMaps(p);
    Absorbed(CfgPostTestAll(p.code, p.physical),
             PreTestAll(p.code, p.physical) +
             (CountdownInductions(p.code, |p.code|) + PostTestInductions(p.code, |p.code|)));
  }

  lemma CfgClaimed(p: Program)
    ensures forall a | a in CfgPostTestAll(p.code, p.physical) :: a in PostTestInductions(p.code, |p.code|)
  {
    hide *;
    forall a | a in CfgPostTestAll(p.code, p.physical)
      ensures a in PostTestInductions(p.code, |p.code|)
    {
      CfgFactRecorded(p, a);
    }
  }

  lemma MergedMaps(p: Program)
    ensures AllInductions(p) ==
            CfgPostTestAll(p.code, p.physical) +
            (PreTestAll(p.code, p.physical) +
             (CountdownInductions(p.code, |p.code|) + PostTestInductions(p.code, |p.code|)))
  {
    hide CfgPostTestAll;
    hide PostTestInductions;
    hide CountdownInductions;
    hide PreTestAll;
  }

  /** Entries behind those of another map add nothing to it. */
  lemma Absorbed(first: Inductions, rest: Inductions)
    requires forall a | a in first :: a in rest
    ensures first + rest == rest
  {
  }
}
