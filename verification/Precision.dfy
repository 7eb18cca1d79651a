/**
 What the one-pass state does know: copies, spills, constants and guards carry their
 claims over without loss, and a recorded index carries what is known of it.
 */
module Precision {
  import opened Basics
  import opened X86
  import opened Machine
  import opened Recognisers
  import opened MemoryEffects
  import opened AbstractSoundness

  function Full(g: Gp): (r: Register) { Register(GpCell(g), B64, false) }

  function MovReg(dst: Gp, src: Gp): (i: LoweredInstr)
  {
    LoweredInstr(Mov, [Reg(Full(dst)), Reg(Full(src))])
  }

  function MovImm(dst: Gp, n: int): (i: LoweredInstr)
  {
    LoweredInstr(Mov, [Reg(Full(dst)), Imm(n)])
  }

  function FrameOperand(t: Slot): (o: Operand)
  {
    match t
    case RbpSlot(d) => Mem(MemOperand(Some(Full(Rbp)), None, 1, d, B64))
    case RspSlot(d) => Mem(MemOperand(Some(Full(Rsp)), None, 1, d, B64))
  }

  function SpillOf(t: Slot, src: Gp): (i: LoweredInstr)
  {
    LoweredInstr(Mov, [FrameOperand(t), Reg(Full(src))])
  }

  function ReloadOf(dst: Gp, t: Slot): (i: LoweredInstr)
  {
    LoweredInstr(Mov, [Reg(Full(dst)), FrameOperand(t)])
  }

  lemma SourceValue(dst: Gp, src: Gp, s: State, e: Env)
    ensures OperandOr0(s, MovReg(dst, src), 1, e) == s.regs(src)
  {
    assert s.regs(src) % TWO64 == s.regs(src);
  }

  lemma MovRegValue(dst: Gp, src: Gp, s: State, e: Env)
    ensures Exec(MovReg(dst, src), s, e).regs(dst) == s.regs(src)
  {
    SourceValue(dst, src, s, e);
    hide OperandOr0;
    hide OperationWidth;
  }

  /** After a 64-bit copy the claims about the destination hold exactly where those about the source did. */
  lemma CopyExact(a: Abs, dst: Gp, src: Gp, entry: Entry, s: State, e: Env)
    ensures RegOk(Transfer(a, MovReg(dst, src)), entry, Exec(MovReg(dst, src), s, e), dst) <==>
            RegOk(a, entry, s, src)
  {
    MovRegValue(dst, src, s, e);
    hide Exec;
  }

  /** After `mov dst, n` the claim is that the register holds `n`. */
  lemma ConstantExact(a: Abs, dst: Gp, n: Word, entry: Entry, s: State)
    ensures RegOk(Transfer(a, MovImm(dst, n)), entry, s, dst) <==> s.regs(dst) == n
  {
  }

  /** After `xor g, g` the claim is that the register holds 0. */
  lemma ZeroExact(a: Abs, g: Gp, entry: Entry, s: State)
    ensures RegOk(Transfer(a, LoweredInstr(Xor, [Reg(Full(g)), Reg(Full(g))])), entry, s, g) <==> s.regs(g) == 0
  {
  }

  lemma FrameOperandSlot(t: Slot)
    ensures FrameOperand(t).Mem? && FrameSlot(FrameOperand(t).mem) == Some(t)
  {
  }

  lemma Spilled(a: Abs, t: Slot, src: Gp)
    ensures Transfer(a, SpillOf(t, src)) == SpillTo(a.(pending := None), t, src)
  {
    FrameOperandSlot(t);
    hide FrameOperand;
    hide FrameSlot;
    hide SpillTo;
  }

  lemma Reloaded(a: Abs, dst: Gp, t: Slot)
    ensures Transfer(a, ReloadOf(dst, t)) == ReloadTo(a.(pending := None), dst, Some(t))
  {
    FrameOperandSlot(t);
    hide FrameOperand;
    hide FrameSlot;
    hide ReloadTo;
    hide Without;
  }

  lemma SlotHolds(a: Abs, t: Slot, src: Gp)
    ensures t in SpillTo(a, t, src).slots <==> src in a.affinity
    ensures src in a.affinity ==> SpillTo(a, t, src).slots[t] == a.affinity[src]
  {
  }

  lemma SlotGives(a: Abs, t: Slot, dst: Gp)
    ensures var r := ReloadTo(a, dst, Some(t));
            && (dst in r.affinity <==> t in a.slots) && (t in a.slots ==> r.affinity[dst] == a.slots[t])
            && dst !in r.consts && dst !in r.uppers
  {
    hide Without;
  }

  /** A pointer parameter spilled to a slot and loaded back is known again, under the same name. */
  lemma SpillReload(a: Abs, t: Slot, src: Gp, dst: Gp)
    ensures var a' := Transfer(Transfer(a, SpillOf(t, src)), ReloadOf(dst, t));
            && (dst in a'.affinity <==> src in a.affinity)
            && (src in a.affinity ==> a'.affinity[dst] == a.affinity[src])
            && dst !in a'.consts && dst !in a'.uppers
  {
    Spilled(a, t, src);
    Reloaded(Transfer(a, SpillOf(t, src)), dst, t);
    SlotHolds(a.(pending := None), t, src);
    SlotGives(SpillTo(a.(pending := None), t, src).(pending := None), t, dst);
    hide *;
  }

  /** `cmp g, n` followed by a guard not taken adds the claim that the register is below `n`. */
  lemma GuardAdds(a: Abs, g: Gp, n: nat, guard: LoweredInstr, entry: Entry, s: State)
    requires guard.mnemonic in {Jae, Jnb, Jge}
    ensures var a' := Transfer(Transfer(a, LoweredInstr(Cmp, [Reg(Full(g)), Imm(n)])), guard);
            RegOk(a', entry, s, g) <==> RegOk(a.(uppers := a.uppers[g := n]), entry, s, g)
  {
  }

  /** What is known of the register that scales an address: a loop fact first, then a constant, then a bound. */
  predicate IndexClaim(a: Abs, g: Gp, induction: Option<Fact>, v: Word)
  {
    if induction.Some? && induction.value.gp == g then v < induction.value.bound
    else if g in a.consts then v == a.consts[g]
    else g in a.uppers ==> v < a.uppers[g]
  }

  predicate RecordClaim(r: AccessAddr, v: Word)
    requires r.Indexed?
  {
    (r.indexConst.Some? ==> v == r.indexConst.value) && (r.indexMax.Some? ==> v < r.indexMax.value)
  }

  /** The record of an indexed access claims exactly that. */
  lemma IndexRecorded(a: Abs, m: MemOperand, g: Gp, induction: Option<Fact>)
    requires m.base.Some? && m.base.value.storage.GpCell? && m.base.value.storage.gp in a.affinity
    requires IndexGp(m) == Some(g)
    ensures var r := Classify(m, a, induction);
            && r.Indexed? && r.base == a.affinity[m.base.value.storage.gp]
            && r.scale == (if m.scale == 0 then 1 else m.scale) && r.disp == m.disp
            && forall v: Word :: RecordClaim(r, v) <==> IndexClaim(a, g, induction, v)
  {
  }
}
