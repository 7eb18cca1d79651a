/**
 What a clean AAPCS64 report says, and does not say, about callee-saved registers
 (crates/semasm-aarch64/src/abi.rs): the rule counts saves and restores, it does not
 follow values.
 */
module CalleeSaved {
  import opened Basics
  import opened Aapcs64

  /** How an access through SP is addressed, which lowering does not keep. */
  datatype Form = Plain | Pre | Post

  /** Stack pointer, general registers and the eight-byte words of memory. */
  datatype Cpu = Cpu(sp: int, regs: nat -> int, words: int -> int)

  /** The general registers an instruction names, in order. */
  function Named(ops: seq<Operand>): (gs: seq<nat>)
    ensures forall g :: g in gs <==> Reg(Gp(g)) in ops
  {
    if ops == [] then []
    else
      var rest := Named(ops[1..]);
      assert forall o :: o in ops <==> o == ops[0] || o in ops[1..];
      if ops[0].Reg? && ops[0].reg.Gp? then [ops[0].reg.n] + rest else rest
  }

  /** Address of the `k`th word an SP access transfers. */
  function SlotAt(i: Instr, form: Form, sp: int, k: nat): (x: int)
    requires SpBased(i)
  {
    (if form == Post then sp else sp + MemOf(i.operands).value.disp) + 8 * k
  }

  predicate WritesReg(i: Instr, g: nat)
  {
    if Saves(i) then false
    else if Restores(i) then Reg(Gp(g)) in i.operands
    else if i.mnemonic == Bl then !(19 <= g <= 29)
    else if i.kind == Unknown then true
    else
      !(i.mnemonic in {Str, Stp}) && i.kind in {Load, Store, Binary} && |i.operands| > 0 &&
      i.operands[0] == Reg(Gp(g))
  }

  predicate WritesWord(i: Instr, form: Form, sp: int, x: int)
  {
    if Saves(i) then exists k | 0 <= k < |Named(i.operands)| :: -8 < x - SlotAt(i, form, sp, k) < 8
    else if i.mnemonic == Bl then x < sp
    else i.kind == Unknown || i.mnemonic in {Str, Stp} || (i.kind == Store && MemOf(i.operands).Some?)
  }

  predicate DistinctTargets(i: Instr)
  {
    forall j, k | 0 <= j < k < |Named(i.operands)| :: Named(i.operands)[j] != Named(i.operands)[k]
  }

  /** One instruction of a straight-line run. */
  ghost predicate Does(i: Instr, form: Form, s: Cpu, s': Cpu)
  {
    && MovesSp(i, form != Plain, s.sp, s'.sp)
    && (forall g: nat | !WritesReg(i, g) :: s'.regs(g) == s.regs(g))
    && (forall x: int | !WritesWord(i, form, s.sp, x) :: s'.words(x) == s.words(x))
    && (Saves(i) ==> forall k: nat | k < |Named(i.operands)| ::
          s'.words(SlotAt(i, form, s.sp, k)) == s.regs(Named(i.operands)[k]))
    && (Restores(i) && DistinctTargets(i) ==> forall k: nat | k < |Named(i.operands)| ::
          s'.regs(Named(i.operands)[k]) == s.words(SlotAt(i, form, s.sp, k)))
  }

  ghost predicate IsRun(body: seq<Instr>, forms: seq<Form>, ss: seq<Cpu>)
  {
    && |forms| == |body| && |ss| == |body| + 1
    && forall i, j | 0 <= i < j <= |body| && j == i + 1 :: Does(body[i], forms[i], ss[i], ss[j])
  }

  // ----- exactly when a register keeps its value -----

  /** Registers and words that certainly hold the followed value. */
  datatype Holding = Holding(regs: nat -> bool, words: int -> bool)

  /** Which transferred word lies at `x`, if one does. */
  function SlotIndex(i: Instr, form: Form, sp: int, x: int): (k: Option<nat>)
    requires SpBased(i)
    ensures k.Some? ==> k.value < |Named(i.operands)| && SlotAt(i, form, sp, k.value) == x
    ensures k.None? ==> forall m: nat | m < |Named(i.operands)| :: SlotAt(i, form, sp, m) != x
  {
    var d := x - SlotAt(i, form, sp, 0);
    if d % 8 == 0 && 0 <= d / 8 < |Named(i.operands)| then Some(d / 8) else None
  }

  predicate HoldsReg(i: Instr, form: Form, sp: int, h: Holding, r: nat)
  {
    if Restores(i) && DistinctTargets(i) && LastIndexOf(Named(i.operands), r).Some? then
      h.words(SlotAt(i, form, sp, LastIndexOf(Named(i.operands), r).value))
    else !WritesReg(i, r) && h.regs(r)
  }

  predicate HoldsWord(i: Instr, form: Form, sp: int, h: Holding, x: int)
  {
    if Saves(i) && SlotIndex(i, form, sp, x).Some? then
      h.regs(Named(i.operands)[SlotIndex(i, form, sp, x).value])
    else !WritesWord(i, form, sp, x) && h.words(x)
  }

  /** What holds the value after one instruction. */
  function HoldingAfter(i: Instr, form: Form, sp: int, h: Holding): (h': Holding)
  {
    Holding((r: nat) => HoldsReg(i, form, sp, h, r), x => HoldsWord(i, form, sp, h, x))
  }

  /**
   What holds the entry value of `g` after `n` instructions, with SP counted as the walk
   counts it: read off the body alone.
   */
  function HoldingAt(body: seq<Instr>, forms: seq<Form>, g: nat, sp: int, n: nat): (h: Holding)
    requires |forms| == |body| && n <= |body|
  {
    if n == 0 then Holding((r: nat) => r == g, x => false)
    else
      HoldingAfter(body[n - 1], forms[n - 1], sp - Delta(body, n - 1), HoldingAt(body, forms, g, sp, n - 1))
  }

  /** Everything in `h` has the value `v`. */
  ghost predicate AllHold(h: Holding, s: Cpu, v: int)
  {
    && (forall r: nat | h.regs(r) :: s.regs(r) == v)
    && (forall x: int | h.words(x) :: s.words(x) == v)
  }

  lemma HoldingStep(i: Instr, form: Form, s: Cpu, s': Cpu, h: Holding, v: int)
    requires Does(i, form, s, s') && AllHold(h, s, v)
    ensures AllHold(HoldingAfter(i, form, s.sp, h), s', v)
  {
    hide MovesSp;
    hide WritesReg;
    hide WritesWord;
    hide Saves;
    hide Restores;
    hide DistinctTargets;
    hide SlotAt;
    hide SlotIndex;
    hide LastIndexOf;
    hide Named;
    forall r: nat | HoldsReg(i, form, s.sp, h, r) ensures s'.regs(r) == v {
      if Restores(i) && DistinctTargets(i) && LastIndexOf(Named(i.operands), r).Some? {
        RestoresBased(i);
      }
    }
    forall x: int | HoldsWord(i, form, s.sp, h, x) ensures s'.words(x) == v {
      if Saves(i) { SavesBased(i); }
    }
  }

  lemma RestoresBased(i: Instr)
    requires Restores(i)
    ensures SpBased(i)
  {
  }

  lemma SavesBased(i: Instr)
    requires Saves(i)
    ensures SpBased(i)
  {
  }

  ghost predicate AllFaithful(body: seq<Instr>, forms: seq<Form>)
    requires |forms| == |body|
  {
    forall i | 0 <= i < |body| :: Faithful(body[i], forms[i] != Plain)
  }

  lemma {:induction false} SpOfRun(body: seq<Instr>, forms: seq<Form>, ss: seq<Cpu>, n: nat)
    requires IsRun(body, forms, ss) && AllFaithful(body, forms) && n <= |body|
    ensures ss[n].sp == ss[0].sp - Delta(body, n)
  {
    hide Faithful;
    hide MovesSp;
    hide SpChange;
    hide WritesReg;
    hide WritesWord;
    if n > 0 {
      var m := n - 1;
      SpOfRun(body, forms, ss, m);
      assert Does(body[m], forms[m], ss[m], ss[n]);
      FaithfulStep(body[m], forms[m] != Plain, ss[m].sp, ss[n].sp);
    }
  }

  lemma {:induction false} HoldingOfRun(body: seq<Instr>, forms: seq<Form>, g: nat, ss: seq<Cpu>, n: nat)
    requires IsRun(body, forms, ss) && AllFaithful(body, forms) && n <= |body|
    ensures AllHold(HoldingAt(body, forms, g, ss[0].sp, n), ss[n], ss[0].regs(g))
  {
    hide Does;
    hide AllFaithful;
    hide HoldingAfter;
    if n > 0 {
      var m := n - 1;
      HoldingOfRun(body, forms, g, ss, m);
      SpOfRun(body, forms, ss, m);
      assert Does(body[m], forms[m], ss[m], ss[n]);
      hide AllHold;
      HoldingStep(body[m], forms[m], ss[m], ss[n], HoldingAt(body, forms, g, ss[0].sp, m), ss[0].regs(g));
    }
  }

  /** The machine state that gives 0 to everything in `h` and 1 to everything else. */
  function Marked(sp: int, h: Holding): (s: Cpu)
  {
    Cpu(sp, (r: nat) => if h.regs(r) then 0 else 1, x => if h.words(x) then 0 else 1)
  }

  lemma MarkedValues(i: Instr, form: Form, sp: int, h: Holding, to: int)
    ensures var s := Marked(to, HoldingAfter(i, form, sp, h));
            && s.sp == to
            && (forall r: nat :: s.regs(r) == if HoldsReg(i, form, sp, h, r) then 0 else 1)
            && (forall x: int :: s.words(x) == if HoldsWord(i, form, sp, h, x) then 0 else 1)
  {
    hide HoldsReg;
    hide HoldsWord;
  }

  lemma MarkedMoves(i: Instr, form: Form, sp: int)
    requires Faithful(i, form != Plain)
    ensures MovesSp(i, form != Plain, sp, sp - SpChange(i))
  {
    hide *;
    SpAfterMoves(i, form != Plain, sp);
  }

  lemma MarkedDoes(i: Instr, form: Form, sp: int, h: Holding)
    requires Faithful(i, form != Plain)
    ensures Does(i, form, Marked(sp, h), Marked(sp - SpChange(i), HoldingAfter(i, form, sp, h)))
  {
    hide MovesSp;
    hide SpChange;
    hide Faithful;
    hide Named;
    hide WritesReg;
    hide WritesWord;
    hide SlotAt;
    hide HoldingAfter;
    hide HoldsReg;
    hide HoldsWord;
    hide Saves;
    hide Restores;
    hide DistinctTargets;
    var s, s' := Marked(sp, h), Marked(sp - SpChange(i), HoldingAfter(i, form, sp, h));
    MarkedMoves(i, form, sp);
    MarkedValues(i, form, sp, h, sp - SpChange(i));
    forall r: nat | !WritesReg(i, r) ensures s'.regs(r) == s.regs(r) { MarkedReg(i, form, sp, h, r); }
    forall x: int | !WritesWord(i, form, sp, x) ensures s'.words(x) == s.words(x) { MarkedWord(i, form, sp, h, x); }
    if Saves(i) {
      SavesBased(i);
      forall k: nat | k < |Named(i.operands)|
        ensures s'.words(SlotAt(i, form, sp, k)) == s.regs(Named(i.operands)[k])
      {
        MarkedSave(i, form, sp, h, k);
      }
    }
    if Restores(i) && DistinctTargets(i) {
      RestoresBased(i);
      forall k: nat | k < |Named(i.operands)|
        ensures s'.regs(Named(i.operands)[k]) == s.words(SlotAt(i, form, sp, k))
      {
        MarkedRestore(i, form, sp, h, k);
      }
    }
  }

  lemma MarkedReg(i: Instr, form: Form, sp: int, h: Holding, r: nat)
    requires !WritesReg(i, r)
    ensures HoldsReg(i, form, sp, h, r) <==> h.regs(r)
  {
    hide Saves;
    hide Restores;
    hide SlotAt;
    if Restores(i) && LastIndexOf(Named(i.operands), r).Some? { RestoreWrites(i, r); }
  }

  lemma RestoreWrites(i: Instr, r: nat)
    requires Restores(i) && r in Named(i.operands)
    ensures WritesReg(i, r)
  {
    hide Named;
  }

  lemma MarkedWord(i: Instr, form: Form, sp: int, h: Holding, x: int)
    requires !WritesWord(i, form, sp, x)
    ensures HoldsWord(i, form, sp, h, x) <==> h.words(x)
  {
    hide Named;
    hide SlotIndex;
    hide SlotAt;
  }

  lemma MarkedSave(i: Instr, form: Form, sp: int, h: Holding, k: nat)
    requires Saves(i) && k < |Named(i.operands)|
    ensures HoldsWord(i, form, sp, h, SlotAt(i, form, sp, k)) <==> h.regs(Named(i.operands)[k])
  {
    hide Named;
    hide Saves;
    SavesBased(i);
  }

  lemma MarkedRestore(i: Instr, form: Form, sp: int, h: Holding, k: nat)
    requires Restores(i) && DistinctTargets(i) && k < |Named(i.operands)|
    ensures HoldsReg(i, form, sp, h, Named(i.operands)[k]) <==> h.words(SlotAt(i, form, sp, k))
  {
    hide Named;
    hide Restores;
    hide SlotAt;
    RestoresBased(i);
    var m := LastIndexOf(Named(i.operands), Named(i.operands)[k]);
    assert Named(i.operands)[k] in Named(i.operands);
    assert m == Some(k);
  }

  function MarkedRun(body: seq<Instr>, forms: seq<Form>, g: nat, sp: int): (ss: seq<Cpu>)
    requires |forms| == |body|
  {
    seq(|body| + 1, n requires 0 <= n <= |body| =>
      Marked(sp - Delta(body, n), HoldingAt(body, forms, g, sp, n)))
  }

  lemma MarkedStep(body: seq<Instr>, forms: seq<Form>, g: nat, sp: int, i: nat)
    requires |forms| == |body| && AllFaithful(body, forms) && i < |body|
    ensures Does(body[i], forms[i], MarkedRun(body, forms, g, sp)[i], MarkedRun(body, forms, g, sp)[i + 1])
  {
    hide Does;
    hide Faithful;
    hide Marked;
    hide HoldingAfter;
    hide SpChange;
    MarkedDoes(body[i], forms[i], sp - Delta(body, i), HoldingAt(body, forms, g, sp, i));
  }

  lemma MarkedIsRun(body: seq<Instr>, forms: seq<Form>, g: nat, sp: int)
    requires |forms| == |body| && AllFaithful(body, forms)
    ensures IsRun(body, forms, MarkedRun(body, forms, g, sp))
  {
    hide Does;
    hide Faithful;
    hide Marked;
    hide HoldingAt;
    hide Delta;
    forall i, j | 0 <= i < j <= |body| && j == i + 1
      ensures Does(body[i], forms[i], MarkedRun(body, forms, g, sp)[i], MarkedRun(body, forms, g, sp)[j])
    {
      MarkedStep(body, forms, g, sp, i);
    }
  }

  /**
   Exactly when a register is preserved: in a body the walk reads faithfully, every
   straight-line run from `sp` ends with `g` as it was if and only if `g` still holds its
   entry value by the body alone.
   */
  lemma PreservedExact(body: seq<Instr>, forms: seq<Form>, g: nat, sp: int)
    requires |forms| == |body| && AllFaithful(body, forms)
    ensures (forall ss: seq<Cpu> | IsRun(body, forms, ss) && ss[0].sp == sp :: ss[|body|].regs(g) == ss[0].regs(g)) <==>
              HoldingAt(body, forms, g, sp, |body|).regs(g)
  {
    if HoldingAt(body, forms, g, sp, |body|).regs(g) {
      forall ss: seq<Cpu> | IsRun(body, forms, ss) && ss[0].sp == sp
        ensures ss[|body|].regs(g) == ss[0].regs(g)
      {
        HeldPreserved(body, forms, g, ss);
      }
    } else {
      NotHeldLost(body, forms, g, sp);
      var ss := MarkedRun(body, forms, g, sp);
      hide *;
      assert IsRun(body, forms, ss) && ss[0].sp == sp;
    }
    hide *;
  }

  lemma HeldPreserved(body: seq<Instr>, forms: seq<Form>, g: nat, ss: seq<Cpu>)
    requires IsRun(body, forms, ss) && AllFaithful(body, forms)
    requires HoldingAt(body, forms, g, ss[0].sp, |body|).regs(g)
    ensures ss[|body|].regs(g) == ss[0].regs(g)
  {
    hide Does;
    hide AllFaithful;
    hide HoldingAt;
    HoldingOfRun(body, forms, g, ss, |body|);
  }

  lemma NotHeldLost(body: seq<Instr>, forms: seq<Form>, g: nat, sp: int)
    requires |forms| == |body| && AllFaithful(body, forms)
    requires !HoldingAt(body, forms, g, sp, |body|).regs(g)
    ensures var ss := MarkedRun(body, forms, g, sp);
            && IsRun(body, forms, ss) && |ss| == |body| + 1 && ss[0].sp == sp
            && ss[|body|].regs(g) != ss[0].regs(g)
  {
    hide *;
    MarkedIsRun(body, forms, g, sp);
    MarkedEnds(body, forms, g, sp);
  }

  lemma MarkedEnds(body: seq<Instr>, forms: seq<Form>, g: nat, sp: int)
    requires |forms| == |body|
    ensures var ss := MarkedRun(body, forms, g, sp);
            && |ss| == |body| + 1 && ss[0].sp == sp && ss[0].regs(g) == 0
            && ss[|body|].regs(g) == if HoldingAt(body, forms, g, sp, |body|).regs(g) then 0 else 1
  {
    hide HoldingAfter;
    hide SpChange;
    var ss := MarkedRun(body, forms, g, sp);
    assert ss[0] == Marked(sp, HoldingAt(body, forms, g, sp, 0)) by { assert Delta(body, 0) == 0; }
    assert HoldingAt(body, forms, g, sp, 0).regs(g);
    hide HoldingAt;
    hide Delta;
  }

  // ----- a clean report without preservation -----

  const STORE: Instr := Instr(Str, Store, [Reg(Gp(19)), Mem(Some(Sp), -16)])
  const LOAD: Instr := Instr(Ldr, Load, [Reg(Gp(19)), Mem(Some(Sp), 16)])
  const BUMP: Instr := Instr(Add, Binary, [Reg(Gp(19)), Reg(Gp(19)), Imm(1)])
  const RETURN: Instr := Instr(Ret, Return, [])

  /** `str x19, [sp, #-16]!; ldr x19, [sp], #16; add x19, x19, #1; ret` */
  const BUMPED: seq<Instr> := [STORE, LOAD, BUMP, RETURN]

  function Moved(f: nat -> int, g: nat, v: int): (f': nat -> int)
  {
    (x: nat) => if x == g then v else f(x)
  }

  function Stored(f: int -> int, a: int, v: int): (f': int -> int)
  {
    x => if x == a then v else f(x)
  }

  function BumpedRun(s: Cpu): (ss: seq<Cpu>)
  {
    var words := Stored(s.words, s.sp - 16, s.regs(19));
    var after := Cpu(s.sp, Moved(s.regs, 19, s.regs(19) + 1), words);
    [s, Cpu(s.sp - 16, s.regs, words), Cpu(s.sp, s.regs, words), after, after]
  }

  lemma MemOfPair(o: Operand, m: Operand)
    requires m.Mem? && !o.Mem?
    ensures MemOf([o, m]) == Some(m)
  {
    assert [o, m][1..] == [m];
  }

  lemma NamedFirst(o: Operand)
    requires !o.Reg?
    ensures Named([Reg(Gp(19)), o]) == [19]
  {
    assert [Reg(Gp(19)), o][1..] == [o] && [o][1..] == [];
    assert Named([]) == [] && Named([o]) == [];
  }

  lemma StoreFacts()
    ensures MemOf(STORE.operands) == Some(Mem(Some(Sp), -16)) && Named(STORE.operands) == [19]
    ensures SpBased(STORE) && Saves(STORE) && !Restores(STORE) && SpChange(STORE) == 16
  {
    MemOfPair(Reg(Gp(19)), Mem(Some(Sp), -16));
    NamedFirst(Mem(Some(Sp), -16));
    assert STORE.operands[0] == Reg(Gp(19));
  }

  lemma LoadFacts()
    ensures MemOf(LOAD.operands) == Some(Mem(Some(Sp), 16)) && Named(LOAD.operands) == [19]
    ensures SpBased(LOAD) && Restores(LOAD) && !Saves(LOAD) && SpChange(LOAD) == -16
  {
    MemOfPair(Reg(Gp(19)), Mem(Some(Sp), 16));
    NamedFirst(Mem(Some(Sp), 16));
    assert LOAD.operands[0] == Reg(Gp(19));
  }

  lemma StoreDoes(s: Cpu)
    ensures Does(STORE, Pre, s, BumpedRun(s)[1])
  {
    StoreFacts();
    hide MemOf;
    hide Named;
    hide Saves;
    hide Restores;
    assert SlotAt(STORE, Pre, s.sp, 0) == s.sp - 16;
  }

  lemma LoadDoes(s: Cpu)
    ensures Does(LOAD, Post, BumpedRun(s)[1], BumpedRun(s)[2])
  {
    LoadFacts();
    hide MemOf;
    hide Named;
    hide Saves;
    hide Restores;
    assert SlotAt(LOAD, Post, s.sp - 16, 0) == s.sp - 16;
  }

  lemma RestDoes(s: Cpu)
    ensures Does(BUMP, Plain, BumpedRun(s)[2], BumpedRun(s)[3])
    ensures Does(RETURN, Plain, BumpedRun(s)[3], BumpedRun(s)[4])
  {
    hide Named;
    assert BUMP.operands[0] == Reg(Gp(19));
    assert MemOf(BUMP.operands).None? by {
      assert BUMP.operands[1..] == [Reg(Gp(19)), Imm(1)] && BUMP.operands[1..][1..] == [Imm(1)];
      assert [Imm(1)][1..] == [];
    }
  }

  lemma BumpedStack()
    ensures StackRule(BUMPED)
  {
    StoreFacts();
    LoadFacts();
    hide SpChange;
    assert SpChange(BUMP) == 0 by { BumpKeepsSp(); }
    assert BUMPED[0] == STORE && BUMPED[1] == LOAD && BUMPED[2] == BUMP;
    assert Delta(BUMPED, 0) == 0;
    assert Delta(BUMPED, 1) == 16 && Delta(BUMPED, 2) == 0 && Delta(BUMPED, 3) == 0;
  }

  lemma BumpKeepsSp()
    ensures SpChange(BUMP) == 0
  {
  }

  lemma BumpedSaved()
    ensures SavedRule(BUMPED)
  {
    StoreFacts();
    LoadFacts();
    hide MemOf;
    assert NamesGp(STORE, 19) && NamesGp(LOAD, 19) by {
      assert STORE.operands[0] == Reg(Gp(19)) && LOAD.operands[0] == Reg(Gp(19));
    }
    hide Saves;
    hide Restores;
    hide Named;
    forall g | Written(BUMPED, g) ensures g == 19 {
      OnlyNamed(g);
    }
    hide NamesGp;
    assert BUMPED[0] == STORE && BUMPED[1] == LOAD;
    assert SaveBlock(BUMPED, 0, 1) && SavedIn(BUMPED, 0, 1, 19);
    assert RestoreTail(BUMPED, 1) && RestoredIn(BUMPED, 1, 19);
  }

  lemma OnlyNamed(g: nat)
    requires Written(BUMPED, g)
    ensures g == 19
  {
    hide Named;
    hide MemOf;
  }

  /** A register written after its restore: the report is clean and the value is lost. */
  lemma WriteAfterRestore(s: Cpu)
    ensures StackRule(BUMPED) && SavedRule(BUMPED)
    ensures IsRun(BUMPED, [Pre, Post, Plain, Plain], BumpedRun(s))
    ensures BumpedRun(s)[4].regs(19) != s.regs(19)
  {
    BumpedStack();
    BumpedSaved();
    StoreDoes(s);
    LoadDoes(s);
    RestDoes(s);
    hide Does;
    hide StackRule;
    hide SavedRule;
  }
}
