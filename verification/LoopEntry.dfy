/**
 When a post-test loop may be entered other than through its initialiser.  The
 recognisers never look for such entries.  `EntryExact` says which of them leave
 the recorded bound right and which do not, for every straight loop they match.
 */
module LoopEntry {
  import opened Basics
  import opened X86
  import opened Machine
  import opened Recognisers
  import opened LoopSoundness

  // ----- what a branch from outside may do -----

  /** Instruction `k` can pass control to `t` other than by falling through. */
  predicate Lands(p: Program, k: nat, t: nat)
    requires k < |p.code|
  {
    var m := p.code[k].mnemonic;
    if m.Other? then t < TWO64
    else IsControl(m) && m != Ret &&
         match Target(p.physical, k)
         case Some(u) => u == t
         case None => t < TWO64
  }

  /** Right after `m` has jumped, `c` may hold as well. */
  predicate Agrees(m: Mnemonic, c: Cond)
  {
    BranchCond(m).Some? ==>
      !(c == CcB && BranchCond(m).value in {CcAE, CcA}) &&
      !(c == CcL && BranchCond(m).value in {CcGE, CcG})
  }

  function BothHold(m: Mnemonic, c: Cond): (f: Flags)
    requires (c == CcB || c == CcL) && Agrees(m, c)
    ensures Holds(c, f) && (BranchCond(m).Some? ==> Holds(BranchCond(m).value, f))
  {
    var cc := if BranchCond(m).Some? then BranchCond(m).value else c;
    Flags(c == CcB || cc == CcB || cc == CcBE, cc == CcE,
          cc != CcNS && (c == CcL || cc in {CcL, CcLE, CcS}), c == CcL && cc == CcNS)
  }

  function Jumping(m: Mnemonic): (f: Flags)
    ensures BranchCond(m).Some? ==> Holds(BranchCond(m).value, f)
  {
    if Agrees(m, CcB) then BothHold(m, CcB) else Flags(false, false, false, false)
  }

  // ----- what the test lets through -----

  /** Index `v` makes the loop go round again. */
  predicate Taken(m: Mnemonic, v: nat, n: nat, w: Width)
    requires IsLoopBranch(m)
  {
    Holds(BranchCond(m).value, SubFlags(v % Modulus(w), n, w))
  }

  /** The least index at or above the bound that the test may take for one below it. */
  function LeastLeak(m: Mnemonic, n: nat, w: Width): (v: nat)
  {
    if Unsigned(m) then Modulus(w)
    else if n < Modulus(w) / 2 then Modulus(w) / 2
    else Modulus(w) + Modulus(w) / 2
  }

  predicate Leaks(m: Mnemonic, n: nat, w: Width, limit: nat)
  {
    (Unsigned(m) || n != Modulus(w) / 2) && LeastLeak(m, n, w) < limit
  }

  lemma TakenMeans(m: Mnemonic, v: nat, n: nat, w: Width)
    requires IsLoopBranch(m) && n < Modulus(w)
    ensures Taken(m, v, n, w) <==>
            if Unsigned(m) then v % Modulus(w) < n else Signed(v % Modulus(w), w) < Signed(n, w)
  {
    hide SubFlags;
    hide Signed;
    CompareConditions(v % Modulus(w), n, w);
  }

  lemma LeakTaken(m: Mnemonic, n: nat, w: Width)
    requires IsLoopBranch(m) && 0 < n < Modulus(w) && (Unsigned(m) || n != Modulus(w) / 2)
    ensures n <= LeastLeak(m, n, w) && Taken(m, LeastLeak(m, n, w), n, w)
  {
    hide Taken;
    TakenMeans(m, LeastLeak(m, n, w), n, w);
  }

  lemma NoLeakBelow(m: Mnemonic, n: nat, w: Width, v: nat)
    requires IsLoopBranch(m) && 0 < n < Modulus(w) && Taken(m, v, n, w) && n <= v
    ensures (Unsigned(m) || n != Modulus(w) / 2) && LeastLeak(m, n, w) <= v
  {
    hide Taken;
    TakenMeans(m, v, n, w);
  }

  /** `Leaks` is exactly that some index from the bound up to the limit goes round again. */
  lemma LeaksExact(m: Mnemonic, n: nat, w: Width, limit: nat)
    requires IsLoopBranch(m) && 0 < n < Modulus(w)
    ensures Leaks(m, n, w, limit) <==> exists v: nat :: n <= v < limit && Taken(m, v, n, w)
  {
    hide Taken;
    if Leaks(m, n, w, limit) { LeakTaken(m, n, w); }
    forall v: nat | n <= v < limit && Taken(m, v, n, w) ensures Leaks(m, n, w, limit) {
      NoLeakBelow(m, n, w, v);
    }
  }

  // ----- entries that do no harm -----

  /** The parts of a matched loop are in order and the last one is its branch. */
  predicate Ordered(p: Program, l: Loop)
  {
    l.init < l.bump < l.test < l.back < |p.code| && IsLoopBranch(p.code[l.back].mnemonic)
  }

  function BackCond(p: Program, l: Loop): (c: Cond)
    requires Ordered(p, l)
  {
    BranchCond(p.code[l.back].mnemonic).value
  }

  /** One more than the largest index the increment can leave. */
  function BumpLimit(p: Program, l: Loop): (n: nat)
    requires Ordered(p, l)
  {
    Modulus(OperationWidth(p.code[l.bump]))
  }

  predicate Again(p: Program, l: Loop, v: nat)
    requires Ordered(p, l)
  {
    Taken(p.code[l.back].mnemonic, v, l.bound, OperationWidth(p.code[l.test]))
  }

  predicate LeaksBelow(p: Program, l: Loop, limit: nat)
    requires Ordered(p, l)
  {
    Leaks(p.code[l.back].mnemonic, l.bound, OperationWidth(p.code[l.test]), limit)
  }

  /**
   An entry at `t` does no harm if it comes after the access and, where the back edge leads
   to the access again, the test stops every index it may bring along.
   */
  predicate Harmless(p: Program, l: Loop, at: nat, k: nat, t: nat)
    requires k < |p.code| && Ordered(p, l)
  {
    && at < t
    && (l.head <= at ==>
          if t <= l.bump then !LeaksBelow(p, l, BumpLimit(p, l))
          else if t <= l.test then !LeaksBelow(p, l, TWO64)
          else !Agrees(p.code[k].mnemonic, BackCond(p, l)))
  }

  predicate EntriesHarmless(p: Program, l: Loop, at: nat)
    requires Ordered(p, l)
  {
    forall k: nat, t: nat | k < |p.code| && Outside(l, k) && l.init < t <= l.back && Lands(p, k, t) ::
      Harmless(p, l, at, k, t)
  }

  ghost predicate Shaped(p: Program, l: Loop, at: nat)
  {
    RecognisedPostTest(p, l, at) && StraightPostTest(p, l)
  }

  lemma ShapeOrdered(p: Program, l: Loop, at: nat)
    requires Shaped(p, l, at)
    ensures Ordered(p, l)
    ensures l.init < at < l.bump && l.init < l.head <= l.bump && l.back == l.test + 1
    ensures AllPlain(p.code, l.init + 1, l.bump, l.gp) && AllPlain(p.code, l.bump + 1, l.test, l.gp)
    ensures Target(p.physical, l.back) == Some(l.head)
  {
    hide Target;
    hide AllPlain;
    hide ZeroedAt;
    hide IndexedBy;
    hide WideView;
  }

  lemma ShapeWidths(p: Program, l: Loop, at: nat)
    requires Ordered(p, l) && Shaped(p, l, at)
    ensures 0 < l.bound < Modulus(OperationWidth(p.code[l.test]))
    ensures l.bound < BumpLimit(p, l) <= TWO64
    ensures BackCond(p, l) == CcB || BackCond(p, l) == CcL
  {
    hide Target;
    hide AllPlain;
    hide ZeroedAt;
    hide IndexedBy;
  }

  /** An index the test stops below `limit`, and one it does not. */
  lemma LeaksBelowExact(p: Program, l: Loop, at: nat, limit: nat)
    requires Ordered(p, l) && Shaped(p, l, at)
    ensures LeaksBelow(p, l, limit) <==> exists v: nat :: l.bound <= v < limit && Again(p, l, v)
  {
    ShapeWidths(p, l, at);
    hide Shaped;
    hide Taken;
    hide Leaks;
    LeaksExact(p.code[l.back].mnemonic, l.bound, OperationWidth(p.code[l.test]), limit);
    forall v: nat | l.bound <= v < limit && Again(p, l, v)
      ensures LeaksBelow(p, l, limit)
    {
      assert Taken(p.code[l.back].mnemonic, v, l.bound, OperationWidth(p.code[l.test]));
    }
    if LeaksBelow(p, l, limit) {
      var v: nat :| l.bound <= v < limit &&
                    Taken(p.code[l.back].mnemonic, v, l.bound, OperationWidth(p.code[l.test]));
      assert Again(p, l, v);
    }
  }

  // ----- single steps with any index -----

  lemma BumpAny(p: Program, l: Loop, at: nat, s: State, e: Env)
    requires Ordered(p, l) && Shaped(p, l, at) && s.pc == l.bump
    ensures var s' := Next(p, s, e);
            && s'.pc == s.pc + 1 && s'.regs(l.gp) < BumpLimit(p, l)
            && (s.regs(l.gp) + 1 < BumpLimit(p, l) ==> s'.regs(l.gp) == s.regs(l.gp) + 1)
  {
    hide Target;
    hide AllPlain;
    hide ZeroedAt;
    hide IndexedBy;
    hide MemoryAfter;
    if s.regs(l.gp) + 1 < BumpLimit(p, l) { StepBumps(p, s, e, l.gp); }
  }

  lemma ExecComparesAny(i: LoweredInstr, s: State, e: Env, gp: Gp, n: nat)
    requires ComparesTo(i, gp, n) && WideView(i, gp, n)
    ensures var w := OperationWidth(i);
            Exec(i, s, e) == s.(flags := SubFlags(s.regs(gp) % Modulus(w), n, w))
  {
    hide SubFlags;
    var w := OperationWidth(i);
    assert n % TWO64 == n && n % Modulus(w) == n;
    assert s.regs(gp) % Modulus(w) % Modulus(w) == s.regs(gp) % Modulus(w);
  }

  lemma CompareAny(p: Program, l: Loop, at: nat, s: State, e: Env)
    requires Ordered(p, l) && Shaped(p, l, at) && s.pc == l.test
    ensures var s' := Next(p, s, e);
            && s'.pc == s.pc + 1 && s'.regs(l.gp) == s.regs(l.gp)
            && (Holds(BackCond(p, l), s'.flags) <==> Again(p, l, s.regs(l.gp)))
  {
    hide Target;
    hide AllPlain;
    hide ZeroedAt;
    hide IndexedBy;
    hide MemoryAfter;
    hide SubFlags;
    hide Exec;
    hide Holds;
    hide WideView;
    ExecComparesAny(p.code[l.test], s, Resolve(p.code[l.test], s, e), l.gp, l.bound);
  }

  lemma BackAny(p: Program, l: Loop, at: nat, s: State, e: Env)
    requires Ordered(p, l) && Shaped(p, l, at) && s.pc == l.back
    ensures var s' := Next(p, s, e);
            && s'.regs(l.gp) == s.regs(l.gp)
            && s'.pc == if Holds(BackCond(p, l), s.flags) then l.head else l.back + 1
  {
    hide Shaped;
    hide Next;
    hide Target;
    hide AllPlain;
    hide Holds;
    hide Plain;
    ShapeOrdered(p, l, at);
    StepBranches(p, s, e);
  }

  // ----- harmless entries keep the bound -----

  ghost predicate EntryInv(p: Program, l: Loop, at: nat, s: State)
    requires Ordered(p, l)
  {
    var v := s.regs(l.gp);
    && (l.init < s.pc <= at ==> v < l.bound)
    && (l.head <= at ==>
          && (at < s.pc <= l.bump ==> v < l.bound || !LeaksBelow(p, l, BumpLimit(p, l)))
          && (l.bump < s.pc <= l.test && Again(p, l, v) ==> v < l.bound)
          && (s.pc == l.back && Holds(BackCond(p, l), s.flags) ==> v < l.bound))
  }

  /** Control enters the loop from outside only by landing in it. */
  lemma EntersByLanding(p: Program, l: Loop, s: State, e: Env)
    requires Ordered(p, l) && Outside(l, s.pc) && s.pc != l.init
    ensures var s' := Next(p, s, e);
            !Outside(l, s'.pc) ==>
              && s.pc < |p.code| && Lands(p, s.pc, s'.pc)
              && (BranchCond(p.code[s.pc].mnemonic).Some? ==>
                    Holds(BranchCond(p.code[s.pc].mnemonic).value, s'.flags))
  {
    hide Target;
    hide MemoryAfter;
  }

  lemma Disagree(m: Mnemonic, c: Cond, f: Flags)
    requires !Agrees(m, c)
    ensures BranchCond(m).Some? && (Holds(BranchCond(m).value, f) ==> !Holds(c, f))
  {
  }

  lemma EntryInvOutside(p: Program, l: Loop, at: nat, s: State, e: Env)
    requires Ordered(p, l) && Shaped(p, l, at) && EntriesHarmless(p, l, at)
    requires Outside(l, s.pc) && s.pc != l.init
    ensures EntryInv(p, l, at, Next(p, s, e))
  {
    hide Shaped;
    hide Next;
    hide Lands;
    hide Again;
    hide LeaksBelow;
    hide Agrees;
    hide Holds;
    ShapeOrdered(p, l, at);
    EntersByLanding(p, l, s, e);
    var s' := Next(p, s, e);
    if !Outside(l, s'.pc) {
      assert Harmless(p, l, at, s.pc, s'.pc);
      LeaksBelowExact(p, l, at, TWO64);
      if s'.pc == l.back && l.head <= at {
        Disagree(p.code[s.pc].mnemonic, BackCond(p, l), s'.flags);
      }
    }
  }

  lemma EntryInvBump(p: Program, l: Loop, at: nat, s: State, e: Env)
    requires Ordered(p, l) && Shaped(p, l, at) && s.pc == l.bump && EntryInv(p, l, at, s)
    ensures EntryInv(p, l, at, Next(p, s, e))
  {
    hide Shaped;
    hide Next;
    hide LeaksBelow;
    hide Again;
    ShapeOrdered(p, l, at);
    ShapeWidths(p, l, at);
    BumpAny(p, l, at, s, e);
    LeaksBelowExact(p, l, at, BumpLimit(p, l));
    if s.regs(l.gp) < l.bound { BoundStops(p, l, at, s.regs(l.gp) + 1); }
  }

  lemma BoundStops(p: Program, l: Loop, at: nat, v: nat)
    requires Ordered(p, l) && Shaped(p, l, at) && v <= l.bound
    ensures Again(p, l, v) ==> v < l.bound
  {
    hide Shaped;
    hide Taken;
    ShapeWidths(p, l, at);
    TakenMeans(p.code[l.back].mnemonic, v, l.bound, OperationWidth(p.code[l.test]));
  }

  lemma InitZeroes(p: Program, l: Loop, at: nat, s: State, e: Env)
    requires Ordered(p, l) && Shaped(p, l, at) && s.pc == l.init
    ensures Next(p, s, e).pc == l.init + 1 && Next(p, s, e).regs(l.gp) == 0
  {
    hide Next;
    hide Target;
    hide AllPlain;
    hide IndexedBy;
    StepZeroes(p, s, e, l.gp);
  }

  lemma EntryInvStep(p: Program, l: Loop, at: nat, s: State, e: Env)
    requires Ordered(p, l) && Shaped(p, l, at) && EntriesHarmless(p, l, at)
    requires EntryInv(p, l, at, s)
    ensures EntryInv(p, l, at, Next(p, s, e))
  {
    hide Shaped;
    hide Next;
    hide LeaksBelow;
    hide EntriesHarmless;
    hide Again;
    hide Holds;
    hide Plain;
    ShapeOrdered(p, l, at);
    ShapeWidths(p, l, at);
    if s.pc == l.init {
      InitZeroes(p, l, at, s, e);
    } else if Outside(l, s.pc) {
      EntryInvOutside(p, l, at, s, e);
    } else if s.pc == l.bump {
      EntryInvBump(p, l, at, s, e);
    } else if s.pc == l.test {
      CompareAny(p, l, at, s, e);
    } else if s.pc == l.back {
      BackAny(p, l, at, s, e);
    } else {
      StepPlain(p, s, e, l.gp);
    }
  }

  lemma {:induction false} EntryInvAlways(p: Program, l: Loop, at: nat, s: State, es: seq<Env>)
    requires Ordered(p, l) && Shaped(p, l, at) && EntriesHarmless(p, l, at)
    requires EntryInv(p, l, at, s)
    ensures EntryInv(p, l, at, Run(p, s, es))
  {
    hide Next;
    hide Shaped;
    hide EntryInv;
    hide EntriesHarmless;
    if |es| > 0 {
      EntryInvAlways(p, l, at, s, es[..|es| - 1]);
      EntryInvStep(p, l, at, Run(p, s, es[..|es| - 1]), es[|es| - 1]);
    }
  }

  // ----- harmful entries break it -----

  /** Some continuation of `s` visits the access with an index at or above the bound. */
  ghost predicate Overruns(p: Program, l: Loop, at: nat, s: State)
  {
    exists es: seq<Env> :: Run(p, s, es).pc == at && Run(p, s, es).regs(l.gp) >= l.bound
  }

  lemma OverrunsLater(p: Program, l: Loop, at: nat, s: State, es: seq<Env>)
    requires Overruns(p, l, at, Run(p, s, es))
    ensures Overruns(p, l, at, s)
  {
    hide Run;
    var rest :| Run(p, Run(p, s, es), rest).pc == at &&
                Run(p, Run(p, s, es), rest).regs(l.gp) >= l.bound;
    RunSplit(p, s, es, rest);
  }

  lemma OverrunsNext(p: Program, l: Loop, at: nat, s: State, e: Env)
    requires Overruns(p, l, at, Next(p, s, e))
    ensures Overruns(p, l, at, s)
  {
    hide Next;
    hide Overruns;
    assert [e][..0] == [] && Run(p, s, []) == s && Run(p, s, [e]) == Next(p, s, e);
    OverrunsLater(p, l, at, s, [e]);
  }

  /** Plain instructions up to the access keep a too large index. */
  lemma OverrunsBefore(p: Program, l: Loop, at: nat, s: State)
    requires s.pc <= at && AllPlain(p.code, s.pc, at, l.gp) && s.regs(l.gp) >= l.bound
    ensures Overruns(p, l, at, s)
  {
    hide Run;
    PlainStretch(p, l.gp, s, AnyEnvs(at - s.pc));
  }

  lemma OverrunsBack(p: Program, l: Loop, at: nat, s: State)
    requires Ordered(p, l) && Shaped(p, l, at) && l.head <= at && s.pc == l.back
    requires Holds(BackCond(p, l), s.flags) && s.regs(l.gp) >= l.bound
    ensures Overruns(p, l, at, s)
  {
    hide Shaped;
    hide Next;
    hide Overruns;
    hide Plain;
    hide Holds;
    ShapeOrdered(p, l, at);
    var e := AnyEnvs(1)[0];
    BackAny(p, l, at, s, e);
    OverrunsBefore(p, l, at, Next(p, s, e));
    OverrunsNext(p, l, at, s, e);
  }

  lemma OverrunsTest(p: Program, l: Loop, at: nat, s: State)
    requires Ordered(p, l) && Shaped(p, l, at) && l.head <= at && l.bump < s.pc <= l.test
    requires s.regs(l.gp) >= l.bound && Again(p, l, s.regs(l.gp))
    ensures Overruns(p, l, at, s)
  {
    hide Shaped;
    hide Next;
    hide Run;
    hide Overruns;
    hide Again;
    hide Plain;
    hide Holds;
    ShapeOrdered(p, l, at);
    var es := AnyEnvs(l.test - s.pc);
    PlainStretch(p, l.gp, s, es);
    var u, e := Run(p, s, es), AnyEnvs(1)[0];
    CompareAny(p, l, at, u, e);
    OverrunsBack(p, l, at, Next(p, u, e));
    OverrunsNext(p, l, at, u, e);
    OverrunsLater(p, l, at, s, es);
  }

  lemma OverrunsBump(p: Program, l: Loop, at: nat, s: State)
    requires Ordered(p, l) && Shaped(p, l, at) && l.head <= at < s.pc <= l.bump
    requires l.bound <= s.regs(l.gp) + 1 < BumpLimit(p, l) && Again(p, l, s.regs(l.gp) + 1)
    ensures Overruns(p, l, at, s)
  {
    hide Shaped;
    hide Next;
    hide Run;
    hide Overruns;
    hide Again;
    hide Plain;
    ShapeOrdered(p, l, at);
    var es := AnyEnvs(l.bump - s.pc);
    PlainStretch(p, l.gp, s, es);
    var u, e := Run(p, s, es), AnyEnvs(1)[0];
    BumpAny(p, l, at, u, e);
    OverrunsTest(p, l, at, Next(p, u, e));
    OverrunsNext(p, l, at, u, e);
    OverrunsLater(p, l, at, s, es);
  }

  /** A landing can bring any index and any flags its own condition allows. */
  lemma LandWith(p: Program, k: nat, t: nat, v: Word, f: Flags) returns (s: State, e: Env)
    requires k < |p.code| && Lands(p, k, t)
    requires BranchCond(p.code[k].mnemonic).Some? ==> Holds(BranchCond(p.code[k].mnemonic).value, f)
    ensures s.pc == k && Next(p, s, e).pc == t && Next(p, s, e).flags == f
    ensures forall g: Gp :: Next(p, s, e).regs(g) == v
  {
    hide Target;
    hide MemoryAfter;
    e := Env(if t < TWO64 then t else 0, _ => v, f, _ => Cell(0, 8));
    s := State(k, _ => v, f, _ => Cell(0, 8));
  }

  lemma OverrunBreaks(p: Program, l: Loop, at: nat, s: State)
    requires Outside(l, s.pc) && Overruns(p, l, at, s)
    ensures !BoundedAtEveryVisit(p, l, at)
  {
    hide Run;
  }

  /** For any kind of loop: an entry with only plain instructions before the access breaks the bound. */
  lemma EarlyEntryBreaks(p: Program, l: Loop, at: nat, k: nat, t: nat)
    requires k < |p.code| && Outside(l, k) && Lands(p, k, t) && l.bound < TWO64
    requires t <= at && AllPlain(p.code, t, at, l.gp)
    ensures !BoundedAtEveryVisit(p, l, at)
  {
    hide Next;
    hide Lands;
    hide Overruns;
    hide BoundedAtEveryVisit;
    var s, e := LandWith(p, k, t, l.bound, Jumping(p.code[k].mnemonic));
    OverrunsBefore(p, l, at, Next(p, s, e));
    OverrunsNext(p, l, at, s, e);
    OverrunBreaks(p, l, at, s);
  }

  lemma LateEntryOverruns(p: Program, l: Loop, at: nat, k: nat, t: nat) returns (s: State, e: Env)
    requires Ordered(p, l) && Shaped(p, l, at) && k < |p.code|
    requires at < t <= l.back && Lands(p, k, t) && !Harmless(p, l, at, k, t)
    ensures s.pc == k && Overruns(p, l, at, Next(p, s, e))
  {
    hide Shaped;
    hide Next;
    hide Lands;
    hide Overruns;
    hide Agrees;
    hide LeaksBelow;
    hide Again;
    ShapeOrdered(p, l, at);
    ShapeWidths(p, l, at);
    var f := Jumping(p.code[k].mnemonic);
    if t <= l.bump {
      LeaksBelowExact(p, l, at, BumpLimit(p, l));
      var v: nat :| l.bound <= v < BumpLimit(p, l) && Again(p, l, v);
      s, e := LandWith(p, k, t, v - 1, f);
      OverrunsBump(p, l, at, Next(p, s, e));
    } else if t <= l.test {
      LeaksBelowExact(p, l, at, TWO64);
      var v: nat :| l.bound <= v < TWO64 && Again(p, l, v);
      s, e := LandWith(p, k, t, v, f);
      OverrunsTest(p, l, at, Next(p, s, e));
    } else {
      s, e := LandWith(p, k, t, l.bound, BothHold(p.code[k].mnemonic, BackCond(p, l)));
      OverrunsBack(p, l, at, Next(p, s, e));
    }
  }

  lemma HarmfulEntryBreaks(p: Program, l: Loop, at: nat, k: nat, t: nat)
    requires Ordered(p, l) && Shaped(p, l, at) && k < |p.code| && Outside(l, k)
    requires l.init < t <= l.back && Lands(p, k, t) && !Harmless(p, l, at, k, t)
    ensures !BoundedAtEveryVisit(p, l, at)
  {
    hide Shaped;
    hide Next;
    hide Lands;
    hide Overruns;
    hide Harmless;
    hide Plain;
    hide BoundedAtEveryVisit;
    ShapeOrdered(p, l, at);
    ShapeWidths(p, l, at);
    if t <= at {
      EarlyEntryBreaks(p, l, at, k, t);
    } else {
      var s, e := LateEntryOverruns(p, l, at, k, t);
      OverrunsNext(p, l, at, s, e);
      OverrunBreaks(p, l, at, s);
    }
  }

  /**
   For every straight post-test loop the recognisers match: the recorded bound holds at
   every visit of every run if and only if every way in past the initialiser is harmless.
   */
  lemma EntryExact(p: Program, l: Loop, at: nat)
    requires RecognisedPostTest(p, l, at) && StraightPostTest(p, l)
    ensures BoundedAtEveryVisit(p, l, at) <==> EntriesHarmless(p, l, at)
  {
    hide Next;
    hide Run;
    hide Lands;
    hide RecognisedPostTest;
    hide StraightPostTest;
    hide Harmless;
    ShapeOrdered(p, l, at);
    if EntriesHarmless(p, l, at) {
      forall s: State, es: seq<Env> | Outside(l, s.pc) && Run(p, s, es).pc == at
        ensures Run(p, s, es).regs(l.gp) < l.bound
      {
        EntryInvAlways(p, l, at, s, es);
      }
    } else {
      var k: nat, t: nat :| k < |p.code| && Outside(l, k) && l.init < t <= l.back &&
                            Lands(p, k, t) && !Harmless(p, l, at, k, t);
      HarmfulEntryBreaks(p, l, at, k, t);
    }
  }

  /** What a recorded post-test loop must satisfy for its bound to be right, at its widest. */
  ghost predicate SafelyEntered(p: Program, l: Loop, at: nat)
  {
    RecognisedPostTest(p, l, at) && StraightPostTest(p, l) && EntriesHarmless(p, l, at)
  }

  /** A sealed loop has no entry at all, so `Sealed` is a special case. */
  lemma SealedHarmless(p: Program, l: Loop, at: nat)
    requires PostTest(p, l, at)
    ensures EntriesHarmless(p, l, at)
  {
    hide Harmless;
    hide RecognisedPostTest;
    hide StraightPostTest;
    forall k: nat, t: nat | k < |p.code| && Outside(l, k) && l.init < t <= l.back
      ensures !Lands(p, k, t)
    {
      assert Resolved(p, k);
    }
  }

  /**
   Safety of Fb7 and Fb9b over whole programs: in a sealed loop each visit to the access
   has its index below the recorded bound, on every run that starts outside the loop and
   for the signed spellings of the branch as well as the unsigned ones.
   */
  lemma PostTestBounded(p: Program, l: Loop, at: nat)
    requires PostTest(p, l, at)
    ensures BoundedAtEveryVisit(p, l, at)
  {
    hide BoundedAtEveryVisit;
    hide EntriesHarmless;
    SealedHarmless(p, l, at);
    EntryExact(p, l, at);
  }

  lemma PostTestSound(p: Program, l: Loop, at: nat, s: State, es: seq<Env>)
    requires PostTest(p, l, at) && Outside(l, s.pc)
    ensures Run(p, s, es).pc == at ==> Run(p, s, es).regs(l.gp) < l.bound
  {
    hide PostTest;
    hide Run;
    PostTestBounded(p, l, at);
  }
}
