/**
 The collector's record against the machine's own reads and writes: what an
 instruction touches through a memory operand is recorded, at its full width, and
 what is not recorded is not touched.
 */
module AccessRecords {
  import opened Basics
  import opened X86
  import opened Machine
  import opened Recognisers
  import opened MemoryEffects

  predicate Touches(i: LoweredInstr, k: nat)
  {
    Loads(i, k) || Stores(i, k)
  }

  /** A store other than a push goes through operand 0, which is recorded with the stored width. */
  lemma StoreRecorded(i: LoweredInstr, s: State, a: Abs, f: Option<Fact>)
    requires StoreRange(i, s).Some? && i.mnemonic != Push
    ensures Stores(i, 0) && OperandAccess(i, 0, a, f).Some?
    ensures var m, access := i.operands[0].mem, OperandAccess(i, 0, a, f).value;
            && StoreRange(i, s) == Some((EffectiveAddress(AddressRegs(i, s), m), access.width))
            && access.addr == Classify(m, a, f)
            && (access.mode == Store <==> i.mnemonic != Pop)
  {
    hide Classify;
    hide EffectiveAddress;
  }

  /** An operand whose value is taken is recorded; as a load unless it is stored to as well or pushed. */
  lemma LoadRecorded(i: LoweredInstr, k: nat, a: Abs, f: Option<Fact>)
    requires Loads(i, k)
    ensures OperandAccess(i, k, a, f).Some?
    ensures var m, access := i.operands[k].mem, OperandAccess(i, k, a, f).value;
            && access.width == Bytes(m.width) && access.addr == Classify(m, a, f)
            && (access.mode == Load <==> !Stores(i, k) && i.mnemonic != Push)
  {
    hide Classify;
  }

  lemma TouchedRecorded(i: LoweredInstr, k: nat, a: Abs, f: Option<Fact>)
    requires Touches(i, k)
    ensures OperandAccess(i, k, a, f).Some?
    ensures var m, access := i.operands[k].mem, OperandAccess(i, k, a, f).value;
            access.width == Bytes(m.width) && access.addr == Classify(m, a, f)
  {
    hide Classify;
    if Loads(i, k) { LoadRecorded(i, k, a, f); }
  }

  /** Operand counts and destinations as x86-64 encodes them, for the instructions given a meaning. */
  predicate Encodable(i: LoweredInstr)
  {
    match i.mnemonic
    case Push | Pop | Inc | Dec => |i.operands| == 1
    case Ret => forall k | 0 <= k < |i.operands| :: !i.operands[k].Mem?
    case Movzx | Movsx | Movsxd | Lea | Cmov(_) => |i.operands| == 2 && i.operands[0].Reg?
    case Nop => |i.operands| <= 1
    case _ => if IsControl(i.mnemonic) then |i.operands| == 1 else |i.operands| == 2
  }

  /** Apart from `nop`, a memory operand is recorded if and only if the machine reads or writes it. */
  lemma RecordedExact(i: LoweredInstr, k: nat, a: Abs, f: Option<Fact>)
    requires InSubset(i.mnemonic) && Encodable(i) && k < |i.operands| && i.operands[k].Mem?
    ensures OperandAccess(i, k, a, f).Some? <==> Touches(i, k) || i.mnemonic == Nop
  {
    hide Classify;
  }

  /** The mode says whether the machine writes, except for `push` and `pop` of a memory operand. */
  lemma ModeExact(i: LoweredInstr, k: nat, a: Abs, f: Option<Fact>)
    requires Touches(i, k)
    ensures OperandAccess(i, k, a, f).Some?
    ensures (OperandAccess(i, k, a, f).value.mode == Store <==> Stores(i, k)) <==>
            i.mnemonic != Push && i.mnemonic != Pop
  {
    hide Classify;
  }

  /** Replaces memory operand `k`. */
  function Redirected(i: LoweredInstr, k: nat, m: MemOperand): (r: LoweredInstr)
    requires k < |i.operands|
  {
    i.(operands := i.operands[k := Mem(m)])
  }

  lemma SameOperandValue(i: LoweredInstr, k: nat, m: MemOperand, s: State, e: Env, j: nat)
    requires k < |i.operands| && i.operands[k].Mem? && !Loads(i, k) && m.width == i.operands[k].mem.width
    ensures OperandOr0(s, Redirected(i, k, m), j, e) == OperandOr0(s, i, j, e)
  {
    hide ReadView;
  }

  lemma SameDestination(i: LoweredInstr, k: nat, m: MemOperand, s: State)
    requires k < |i.operands| && i.operands[k].Mem? && m.width == i.operands[k].mem.width
    ensures OperationWidth(Redirected(i, k, m)) == OperationWidth(i)
    ensures SameRegister(Redirected(i, k, m)) == SameRegister(i)
    ensures forall v: Word :: WriteDst(s, Redirected(i, k, m), v) == WriteDst(s, i, v)
  {
    hide Merged;
  }

  lemma SameArithmetic(i: LoweredInstr, k: nat, m: MemOperand, s: State, e: Env)
    requires i.mnemonic in {Xor, And, Or, Add, Sub, Inc, Dec, Cmp, Test, Shl, Shr}
    requires k < |i.operands| && i.operands[k].Mem?
    requires !Loads(i, k) && m.width == i.operands[k].mem.width
    ensures Exec(Redirected(i, k, m), s, e) == Exec(i, s, e)
  {
    hide OperandOr0;
    hide OperationWidth;
    hide SameRegister;
    hide WriteDst;
    hide Loads;
    hide SubFlags;
    hide ResultFlags;
    hide Holds;
    hide Signed;
    hide Overflows;
    hide EffectiveAddress;
    hide Modulus;
    SameOperandValue(i, k, m, s, e, 0);
    SameOperandValue(i, k, m, s, e, 1);
    SameDestination(i, k, m, s);
  }

  lemma SameExec(i: LoweredInstr, k: nat, m: MemOperand, s: State, e: Env)
    requires InSubset(i.mnemonic) && i.mnemonic != Lea && k < |i.operands| && i.operands[k].Mem?
    requires !Loads(i, k) && m.width == i.operands[k].mem.width
    ensures Exec(Redirected(i, k, m), s, e) == Exec(i, s, e)
  {
    if i.mnemonic in {Xor, And, Or, Add, Sub, Inc, Dec, Cmp, Test, Shl, Shr} {
      hide *;
      SameArithmetic(i, k, m, s, e);
    } else {
      SameMove(i, k, m, s, e);
    }
  }

  lemma SameMove(i: LoweredInstr, k: nat, m: MemOperand, s: State, e: Env)
    requires InSubset(i.mnemonic) && i.mnemonic != Lea && k < |i.operands| && i.operands[k].Mem?
    requires i.mnemonic !in {Xor, And, Or, Add, Sub, Inc, Dec, Cmp, Test, Shl, Shr}
    requires !Loads(i, k) && m.width == i.operands[k].mem.width
    ensures Exec(Redirected(i, k, m), s, e) == Exec(i, s, e)
  {
    hide OperandOr0;
    hide OperationWidth;
    hide SameRegister;
    hide WriteDst;
    hide Loads;
    hide SubFlags;
    hide ResultFlags;
    hide Holds;
    hide Signed;
    hide Overflows;
    hide EffectiveAddress;
    hide Modulus;
    SameOperandValue(i, k, m, s, e, 0);
    SameOperandValue(i, k, m, s, e, 1);
    SameDestination(i, k, m, s);
    if i.mnemonic == Pop {
      SameDestination(i, k, m, s.(regs := SetReg(s.regs, Rsp, (s.regs(Rsp) + 8) % TWO64)));
    }
  }

  lemma SameMemory(i: LoweredInstr, k: nat, m: MemOperand, s: State, e: Env)
    requires InSubset(i.mnemonic) && k < |i.operands| && i.operands[k].Mem?
    requires !Touches(i, k) && m.width == i.operands[k].mem.width
    ensures MemoryAfter(Redirected(i, k, m), s, e) == MemoryAfter(i, s, e)
    ensures Resolve(Redirected(i, k, m), s, e) == Resolve(i, s, e)
  {
    hide EffectiveAddress;
    hide ReadView;
    hide LoadWord;
    hide StoreWord;
    hide Scribble;
  }

  /** What is neither read nor written does not matter: the step is the same with any other operand there. */
  lemma UntouchedIrrelevant(i: LoweredInstr, k: nat, m: MemOperand, s: State, e: Env)
    requires InSubset(i.mnemonic) && i.mnemonic != Lea && k < |i.operands| && i.operands[k].Mem?
    requires !Touches(i, k) && m.width == i.operands[k].mem.width
    ensures Effect(Redirected(i, k, m), s, e) == Effect(i, s, e)
  {
    hide Exec;
    hide MemoryAfter;
    hide Resolve;
    hide Redirected;
    SameMemory(i, k, m, s, e);
    SameExec(i, k, m, s, Resolve(i, s, e));
  }
}
