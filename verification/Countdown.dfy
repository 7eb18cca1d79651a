/**
 Fb8 on the machine: countdown loops `mov idx, N; ...; dec idx; access; jnz`.
 The recogniser accepts `jns` as well, and does not look at what sets the
 flags; both gaps are characterised here.
 */
module Countdown {
  import opened Basics
  import opened X86
  import opened Machine
  import opened Recognisers
  import opened LoopSoundness

  ghost predicate RecognisedCountdown(p: Program, l: Loop, at: nat)
  {
    && l.init < l.bump < at < l.back < |p.code|
    && (p.code[l.init].mnemonic.Mov? || p.code[l.init].mnemonic.Movabs?)
    && GpOperand(p.code[l.init], 0) == Some(l.gp)
    && ImmOperand(p.code[l.init], 1) == Some(l.bound) && l.bound > 0
    && IsDecOf(p.code[l.bump], l.gp) && IndexedBy(p.code[at], l.gp)
    && IsCountdownBranch(p.code[l.back].mnemonic)
  }

  /** As for the count-up loops; and nothing between the `dec` and the branch touches the flags. */
  predicate ConfinedCountdown(p: Program, l: Loop)
  {
    && l.init < l.head <= l.bump < l.back < |p.code|
    && WideView(p.code[l.init], l.gp, l.bound) && WideView(p.code[l.bump], l.gp, l.bound)
    && Target(p.physical, l.back) == Some(l.head)
    && AllPlain(p.code, l.init + 1, l.bump, l.gp) && AllPlain(p.code, l.bump + 1, l.back, l.gp)
    && (forall k | l.bump < k < l.back :: KeepsFlags(p.code[k]))
    && Sealed(p, l.init, l.back, {l.back})
  }

  ghost predicate CountdownLoop(p: Program, l: Loop, at: nat)
  {
    RecognisedCountdown(p, l, at) && ConfinedCountdown(p, l)
  }

  /** Every Fb8 fact comes from a recognised countdown around the access. */
  lemma CountdownFactOrigin(p: Program, at: nat) returns (l: Loop)
    requires at in CountdownInductions(p.code, |p.code|)
    ensures RecognisedCountdown(p, l, at)
    ensures CountdownInductions(p.code, |p.code|)[at] == Fact(l.gp, l.bound)
  {
    hide CountdownFact;
    hide DecBefore;
    hide BackBranch;
    hide CountdownInit;
    var f := CountdownFact(p.code, at, |p.code[at].operands|).value;
    DecBeforeMeaning(p.code, at, at, f.gp);
    var d := DecBefore(p.code, at, at, f.gp).value;
    BackBranchMeaning(p.code, at + 1, f.gp);
    CountdownInitMeaning(p.code, d, f.gp);
    var init := CountdownInit(p.code, d, f.gp).value;
    l := Loop(f.gp, f.bound, init.0, d, d, d, BackBranch(p.code, at + 1, f.gp).value);
  }

  /** Half the values of the decremented view: from here on its sign bit is set. */
  function Half(p: Program, l: Loop): (h: nat)
    requires l.bump < |p.code|
  {
    Modulus(OperationWidth(p.code[l.bump])) / 2
  }

  function Decremented(p: Program, l: Loop, v: nat): (v': int)
    requires l.bump < |p.code|
  {
    if v == 0 then 2 * Half(p, l) - 1 else v - 1
  }

  /** `jns` runs past zero and wraps, unless the first decrement already looks negative. */
  predicate Wraps(p: Program, l: Loop)
    requires l.bump < |p.code| && l.back < |p.code|
  {
    p.code[l.back].mnemonic == Jns && l.bound <= Half(p, l)
  }

  /** The `jns` branch is never taken: one visit only. */
  predicate OneShot(p: Program, l: Loop)
    requires l.bump < |p.code| && l.back < |p.code|
  {
    p.code[l.back].mnemonic == Jns && l.bound > Half(p, l)
  }

  ghost predicate FlagsOfIndex(p: Program, l: Loop, s: State)
    requires l.bump < |p.code|
  {
    s.flags.zf == (s.regs(l.gp) == 0) && s.flags.sf == (s.regs(l.gp) >= Half(p, l))
  }

  predicate Continues(p: Program, l: Loop, v: nat)
    requires l.bump < |p.code| && l.back < |p.code|
  {
    if p.code[l.back].mnemonic == Jns then v < Half(p, l) else v != 0
  }

  lemma ContinuesWhile(p: Program, l: Loop, at: nat, v: nat)
    requires CountdownLoop(p, l, at) && l.bump < |p.code| && l.back < |p.code|
    requires v < l.bound && !OneShot(p, l)
    ensures Continues(p, l, v) <==> v > 0 || Wraps(p, l)
  {
    hide CountdownLoop;
    CountdownOrder(p, l, at);
  }

  lemma CountdownOrder(p: Program, l: Loop, at: nat)
    requires CountdownLoop(p, l, at)
    ensures l.init < l.head <= l.bump < at < l.back < |p.code| && l.bound > 0
    ensures l.bound < 2 * Half(p, l)
  {
  }

  lemma CountdownDecrements(p: Program, l: Loop, at: nat, s: State, e: Env)
    requires CountdownLoop(p, l, at) && s.pc == l.bump < |p.code| && s.regs(l.gp) <= l.bound
    ensures Next(p, s, e).pc == s.pc + 1 && FlagsOfIndex(p, l, Next(p, s, e))
    ensures Next(p, s, e).regs(l.gp) == Decremented(p, l, s.regs(l.gp))
  {
    hide RecognisedCountdown;
    hide ConfinedCountdown;
    assert IsDecOf(p.code[l.bump], l.gp) && WideView(p.code[l.bump], l.gp, l.bound) by {
      CountdownParts(p, l, at);
    }
    ExecDecrements(p.code[s.pc], s, Resolve(p.code[s.pc], s, e), l.gp);
  }

  lemma CountdownParts(p: Program, l: Loop, at: nat)
    requires CountdownLoop(p, l, at)
    ensures l.init < l.head <= l.bump < at < l.back < |p.code|
    ensures IsDecOf(p.code[l.bump], l.gp) && WideView(p.code[l.bump], l.gp, l.bound)
    ensures IsCountdownBranch(p.code[l.back].mnemonic)
    ensures Target(p.physical, l.back) == Some(l.head)
  {
  }

  lemma CountdownBranches(p: Program, l: Loop, at: nat, s: State, e: Env)
    requires CountdownLoop(p, l, at) && s.pc == l.back < |p.code| && l.bump < |p.code|
    requires FlagsOfIndex(p, l, s)
    ensures Next(p, s, e).regs(l.gp) == s.regs(l.gp)
    ensures Next(p, s, e).pc == if Continues(p, l, s.regs(l.gp)) then l.head else l.back + 1
  {
    hide CountdownLoop;
    hide Next;
    CountdownParts(p, l, at);
    StepBranches(p, s, e);
  }

  /** One step inside the loop, place by place. */
  lemma CountdownNext(p: Program, l: Loop, at: nat, s: State, e: Env)
    requires CountdownLoop(p, l, at) && l.init < s.pc <= l.back < |p.code| && l.bump < |p.code|
    requires s.pc == l.bump ==> s.regs(l.gp) <= l.bound
    requires l.bump < s.pc ==> FlagsOfIndex(p, l, s)
    ensures var s' := Next(p, s, e);
            && (s.pc != l.bump ==> s'.regs(l.gp) == s.regs(l.gp))
            && (s.pc == l.bump ==> s'.regs(l.gp) == Decremented(p, l, s.regs(l.gp)))
            && (s.pc == l.back ==>
                s'.pc == if Continues(p, l, s.regs(l.gp)) then l.head else l.back + 1)
            && (s.pc != l.back ==> s'.pc == s.pc + 1)
            && (l.bump <= s.pc < l.back ==> FlagsOfIndex(p, l, s'))
  {
    hide Next;
    hide RecognisedCountdown;
    CountdownOrder(p, l, at);
    if s.pc == l.bump {
      CountdownDecrements(p, l, at, s, e);
    } else if s.pc == l.back {
      CountdownBranches(p, l, at, s, e);
    } else {
      StepPlain(p, s, e, l.gp);
    }
  }

  lemma CountdownEnters(p: Program, l: Loop, at: nat, s: State, e: Env)
    requires CountdownLoop(p, l, at) && s.pc == l.init
    ensures Next(p, s, e).pc == l.init + 1 && Next(p, s, e).regs(l.gp) == l.bound
  {
    hide IndexedBy;
    hide Sealed;
    assert OperandOr0(s, p.code[s.pc], 1, Resolve(p.code[s.pc], s, e)) == l.bound;
    WritesWide(p.code[s.pc], s, l.gp, l.bound);
  }

  // ----- safety -----

  ghost predicate CountdownInv(p: Program, l: Loop, s: State)
    requires l.bump < |p.code| && l.back < |p.code|
  {
    var v := s.regs(l.gp);
    && (l.init < s.pc <= l.bump ==> 1 <= v <= l.bound)
    && (l.bump < s.pc <= l.back ==> v < l.bound && FlagsOfIndex(p, l, s))
    && (OneShot(p, l) && l.init < s.pc <= l.bump ==> v == l.bound)
    && (OneShot(p, l) && l.bump < s.pc <= l.back ==> v == l.bound - 1)
  }

  lemma CountdownStep(p: Program, l: Loop, at: nat, s: State, e: Env)
    requires CountdownLoop(p, l, at) && l.back < |p.code| && l.bump < |p.code|
    requires !Wraps(p, l) && CountdownInv(p, l, s)
    ensures CountdownInv(p, l, Next(p, s, e))
  {
    CountdownOrder(p, l, at);
    if s.pc == l.init {
      hide Next;
      hide CountdownLoop;
      CountdownEnters(p, l, at, s, e);
    } else if Outside(l, s.pc) {
      StaysOutside(p, l, {l.back}, s, e);
    } else {
      hide Next;
      hide CountdownLoop;
      CountdownNext(p, l, at, s, e);
    }
  }

  lemma {:induction false} CountdownAlways(p: Program, l: Loop, at: nat, s: State, es: seq<Env>)
    requires CountdownLoop(p, l, at) && l.back < |p.code| && l.bump < |p.code|
    requires !Wraps(p, l) && CountdownInv(p, l, s)
    ensures CountdownInv(p, l, Run(p, s, es))
  {
    hide Next;
    hide CountdownLoop;
    hide CountdownInv;
    if |es| > 0 {
      CountdownAlways(p, l, at, s, es[..|es| - 1]);
      CountdownStep(p, l, at, Run(p, s, es[..|es| - 1]), es[|es| - 1]);
    }
  }

  /** Safety of Fb8 over whole programs, for every branch that does not wrap. */
  lemma CountdownSound(p: Program, l: Loop, at: nat, s: State, es: seq<Env>)
    requires CountdownLoop(p, l, at) && l.back < |p.code| && l.bump < |p.code|
    requires !Wraps(p, l) && Outside(l, s.pc)
    ensures Run(p, s, es).pc == at ==> Run(p, s, es).regs(l.gp) < l.bound
  {
    hide Run;
    hide CountdownLoop;
    CountdownOrder(p, l, at);
    CountdownAlways(p, l, at, s, es);
  }

  // ----- exact visits -----

  lemma {:induction false} CountdownPosition(
    p: Program, l: Loop, at: nat, s: State, es: seq<Env>)
    requires CountdownLoop(p, l, at) && l.bump < |p.code|
    requires s.pc == l.head && s.regs(l.gp) <= l.bound && |es| <= l.back - l.head
    ensures Run(p, s, es).pc == l.head + |es|
    ensures l.head + |es| <= l.bump ==> Run(p, s, es).regs(l.gp) == s.regs(l.gp)
    ensures l.bump < l.head + |es| ==> FlagsOfIndex(p, l, Run(p, s, es))
    ensures l.bump < l.head + |es| ==>
              Run(p, s, es).regs(l.gp) == Decremented(p, l, s.regs(l.gp))
  {
    hide Next;
    hide CountdownLoop;
    hide FlagsOfIndex;
    CountdownOrder(p, l, at);
    if |es| > 0 {
      var es' := es[..|es| - 1];
      CountdownPosition(p, l, at, s, es');
      CountdownNext(p, l, at, Run(p, s, es'), es[|es| - 1]);
    }
  }

  lemma CountdownIteration(p: Program, l: Loop, at: nat, s: State, es: seq<Env>)
    requires CountdownLoop(p, l, at) && l.bump < |p.code| && l.back < |p.code|
    requires s.pc == l.head && 1 <= s.regs(l.gp) <= l.bound && |es| == l.back - l.head + 1
    ensures Run(p, s, es).regs(l.gp) == s.regs(l.gp) - 1
    ensures Run(p, s, es).pc == if Continues(p, l, s.regs(l.gp) - 1) then l.head else l.back + 1
  {
    hide Next;
    hide CountdownLoop;
    hide FlagsOfIndex;
    hide Continues;
    CountdownOrder(p, l, at);
    CountdownPosition(p, l, at, s, es[..|es| - 1]);
    CountdownNext(p, l, at, Run(p, s, es[..|es| - 1]), es[|es| - 1]);
  }

  /** After `k` turns the index has come down by `k`; a `jnz` loop leaves on the turn that reaches zero. */
  lemma {:induction false} CountdownCount(
    p: Program, l: Loop, at: nat, s: State, es: seq<Env>, k: nat)
    requires CountdownLoop(p, l, at) && l.back < |p.code| && l.bump < |p.code|
    requires !OneShot(p, l) && l.head <= l.back
    requires s.pc == l.head && s.regs(l.gp) == l.bound && k <= l.bound
    requires |es| == k * (l.back - l.head + 1)
    ensures Run(p, s, es).regs(l.gp) == l.bound - k
    ensures Run(p, s, es).pc == if k < l.bound || Wraps(p, l) then l.head else l.back + 1
  {
    hide Next;
    hide CountdownLoop;
    hide OneShot;
    hide Wraps;
    hide Half;
    hide Continues;
    CountdownOrder(p, l, at);
    if k > 0 {
      var n := l.back - l.head + 1;
      assert |es| == (k - 1) * n + n;
      var first, last := es[..|es| - n], es[|es| - n..];
      assert es == first + last;
      CountdownCount(p, l, at, s, first, k - 1);
      RunSplit(p, s, first, last);
      CountdownIteration(p, l, at, Run(p, s, first), last);
      ContinuesWhile(p, l, at, l.bound - k);
    }
  }

  /**
   A countdown entered with index `bound` visits the place `|part|` instructions
   after its head once per turn; past the `dec` the index in turn `k` is
   `bound - 1 - k`, so the access sees every value of `0..bound` exactly once, in
   descending order.
   */
  lemma CountdownVisits(
    p: Program, l: Loop, at: nat, s: State, turns: seq<Env>, part: seq<Env>, k: nat)
    requires CountdownLoop(p, l, at) && l.back < |p.code| && l.bump < |p.code|
    requires !OneShot(p, l) && l.bump < l.head + |part| <= l.back
    requires s.pc == l.head && s.regs(l.gp) == l.bound && k < l.bound
    requires |turns| == k * (l.back - l.head + 1)
    ensures Run(p, s, turns + part).pc == l.head + |part|
    ensures Run(p, s, turns + part).regs(l.gp) == l.bound - 1 - k
  {
    hide Next;
    hide CountdownLoop;
    CountdownCount(p, l, at, s, turns, k);
    RunSplit(p, s, turns, part);
    CountdownPosition(p, l, at, Run(p, s, turns), part);
  }

  lemma CountdownEntry(p: Program, l: Loop, at: nat, s: State, es: seq<Env>)
    requires CountdownLoop(p, l, at) && l.init < l.head && s.pc == l.init && |es| == l.head - l.init
    ensures Run(p, s, es).pc == l.head && Run(p, s, es).regs(l.gp) == l.bound
  {
    hide Next;
    hide RecognisedCountdown;
    var first, rest := es[..1], es[1..];
    assert es == first + rest;
    RunSplit(p, s, first, rest);
    assert Run(p, s, first) == Next(p, s, es[0]) by {
      assert first[..0] == [] && Run(p, s, []) == s;
    }
    CountdownEnters(p, l, at, s, es[0]);
    PlainStretch(p, l.gp, Run(p, s, first), rest);
  }

  /** With `jns` the turn after zero visits the access with the wrapped index. */
  lemma CountdownOverrun(p: Program, l: Loop, at: nat) returns (s: State, es: seq<Env>)
    requires CountdownLoop(p, l, at) && l.back < |p.code| && l.bump < |p.code|
    requires Wraps(p, l)
    ensures s.pc == l.init
    ensures Run(p, s, es).pc == at && Run(p, s, es).regs(l.gp) == 2 * Half(p, l) - 1
  {
    hide Next;
    hide CountdownLoop;
    CountdownOrder(p, l, at);
    var n: nat := l.back - l.head + 1;
    s := State(l.init, _ => 0, Flags(false, false, false, false), _ => Cell(0, 8));
    var enter, turns, part := AnyEnvs(l.head - l.init), AnyEnvs(l.bound * n), AnyEnvs(at - l.head);
    CountdownEntry(p, l, at, s, enter);
    var s1 := Run(p, s, enter);
    CountdownCount(p, l, at, s1, turns, l.bound);
    RunSplit(p, s1, turns, part);
    CountdownPosition(p, l, at, Run(p, s1, turns), part);
    RunSplit(p, s, enter, turns + part);
    es := enter + (turns + part);
  }

  /** The recorded bound is right exactly when the loop's branch is not a wrapping `jns`. */
  lemma CountdownExact(p: Program, l: Loop, at: nat)
    requires CountdownLoop(p, l, at) && l.back < |p.code| && l.bump < |p.code|
    ensures BoundedAtEveryVisit(p, l, at) <==> !Wraps(p, l)
  {
    hide Run;
    hide CountdownLoop;
    hide Wraps;
    CountdownOrder(p, l, at);
    if !Wraps(p, l) {
      forall s: State, es: seq<Env> | Outside(l, s.pc) && Run(p, s, es).pc == at
        ensures Run(p, s, es).regs(l.gp) < l.bound
      {
        CountdownSound(p, l, at, s, es);
      }
    } else {
      var s, es := CountdownOverrun(p, l, at);
      assert Outside(l, s.pc) && Run(p, s, es).pc == at;
    }
  }

  ghost predicate AllLowered(p: Program)
  {
    forall k | 0 <= k < |p.code| :: Lowers(p.code[k].mnemonic)
  }

  /** In programs the lowering accepts, which lists no `jns`, every confined countdown fact is right. */
  lemma LoweredCountdownBounded(p: Program, l: Loop, at: nat)
    requires AllLowered(p) && CountdownLoop(p, l, at)
    ensures l.back < |p.code| && l.bump < |p.code| && !Wraps(p, l)
    ensures BoundedAtEveryVisit(p, l, at)
  {
    assert l.back < |p.code| && l.bump < |p.code| && Lowers(p.code[l.back].mnemonic);
    hide Lowers;
    assert p.code[l.back].mnemonic != Jns by { JnsNotLowered(p.code[l.back].mnemonic); }
    hide CountdownLoop;
    hide BoundedAtEveryVisit;
    CountdownExact(p, l, at);
  }

  lemma JnsNotLowered(m: Mnemonic)
    ensures Lowers(m) ==> m != Jns
  {
  }
}
