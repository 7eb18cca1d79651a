/**
 The one-pass abstract state of the memory-effect collector and the accesses it
 records (crates/semasm-cli/src/memory_effects.rs:38-80, 566-905).
 */
module MemoryEffects {
  import opened Basics
  import opened X86
  import opened Machine
  import opened Recognisers

  datatype Slot = RbpSlot(disp: int) | RspSlot(disp: int)

  /** What is known before an instruction: pointer parameters, constants, exclusive upper bounds. */
  datatype Abs = Abs(
    affinity: map<Gp, string>, slots: map<Slot, string>,
    consts: map<Gp, nat>, uppers: map<Gp, nat>, pending: Option<(Gp, nat)>)

  datatype AccessAddr =
    | Affine(base: string, offset: int)
    | Indexed(base: string, scale: nat, disp: int, indexConst: Option<nat>, indexMax: Option<nat>)
    | StackFrame
    | UnknownAddr

  datatype AccessMode = Load | Store

  datatype Access = Access(mode: AccessMode, width: nat, addr: AccessAddr)

  // ----- addresses -----

  predicate IsFrameBase(r: Option<Register>)
  {
    r.Some? && (r.value.storage == GpCell(Rsp) || r.value.storage == GpCell(Rbp))
  }

  function FrameSlot(m: MemOperand): (t: Option<Slot>)
  {
    if m.index.Some? || !IsFrameBase(m.base) then None
    else if m.base.value.storage == GpCell(Rbp) then Some(RbpSlot(m.disp))
    else Some(RspSlot(m.disp))
  }

  /** Constant and exclusive upper bound known for an index register; a loop fact comes first. */
  function IndexFact(a: Abs, g: Gp, induction: Option<Fact>): (r: (Option<nat>, Option<nat>))
  {
    if induction.Some? && induction.value.gp == g then (None, Some(induction.value.bound))
    else if g in a.consts then (Some(a.consts[g]), None)
    else (None, if g in a.uppers then Some(a.uppers[g]) else None)
  }

  function Classify(m: MemOperand, a: Abs, induction: Option<Fact>): (r: AccessAddr)
  {
    if FrameSlot(m).Some? then StackFrame
    else if m.base.None? || !m.base.value.storage.GpCell? ||
            m.base.value.storage.gp !in a.affinity then UnknownAddr
    else
      var param := a.affinity[m.base.value.storage.gp];
      if m.index.Some? then
        var fact := if IndexGp(m).Some? then IndexFact(a, IndexGp(m).value, induction)
                    else (None, None);
        Indexed(param, if m.scale < 1 then 1 else m.scale, m.disp, fact.0, fact.1)
      else Affine(param, m.disp)
  }

  // ----- update_affinity -----

  function Without<K(!new), V>(m: map<K, V>, g: K): (m': map<K, V>)
    ensures g !in m'
    ensures forall x | x != g :: x in m' <==> x in m
    ensures forall x | x in m' :: m'[x] == m[x]
  {
    m - {g}
  }

  function Copied<V>(m: map<Gp, V>, dst: Gp, src: Gp): (m': map<Gp, V>)
  {
    if src in m then m[dst := m[src]] else Without(m, dst)
  }

  function Forget(a: Abs, g: Gp): (a': Abs)
  {
    a.(affinity := Without(a.affinity, g), consts := Without(a.consts, g), uppers := Without(a.uppers, g))
  }

  /** `mov [frame], reg`: the slot takes the register's parameter, or loses its own. */
  function SpillTo(a: Abs, slot: Slot, src: Gp): (a': Abs)
  {
    if src in a.affinity then a.(slots := a.slots[slot := a.affinity[src]])
    else a.(slots := Without(a.slots, slot))
  }

  function CopyTo(a: Abs, dst: Gp, src: Gp): (a': Abs)
  {
    a.(affinity := Copied(a.affinity, dst, src), consts := Copied(a.consts, dst, src),
       uppers := Copied(a.uppers, dst, src))
  }

  function SetTo(a: Abs, dst: Gp, n: int): (a': Abs)
  {
    Forget(a, dst).(consts := if n >= 0 then a.consts[dst := n] else Without(a.consts, dst))
  }

  function ReloadTo(a: Abs, dst: Gp, slot: Option<Slot>): (a': Abs)
  {
    if slot.Some? && slot.value in a.slots
    then Forget(a, dst).(affinity := a.affinity[dst := a.slots[slot.value]])
    else Forget(a, dst)
  }

  function TransferMov(a: Abs, i: LoweredInstr): (a': Abs)
  {
    if |i.operands| >= 2 && i.operands[0].Mem? && i.operands[1].Reg? then
      if FrameSlot(i.operands[0].mem).Some? && GpOperand(i, 1).Some?
      then SpillTo(a, FrameSlot(i.operands[0].mem).value, GpOperand(i, 1).value)
      else a
    else if GpOperand(i, 0).Some? then
      var dst := GpOperand(i, 0).value;
      if |i.operands| < 2 then Forget(a, dst)
      else match i.operands[1]
        case Reg(_) =>
          if GpOperand(i, 1).Some? then CopyTo(a, dst, GpOperand(i, 1).value) else Forget(a, dst)
        case Imm(n) => SetTo(a, dst, n)
        case Mem(m) => ReloadTo(a, dst, FrameSlot(m))
    else a
  }

  function TransferLea(a: Abs, i: LoweredInstr): (a': Abs)
  {
    if GpOperand(i, 0).None? then a
    else
      var dst := GpOperand(i, 0).value;
      var cleared := a.(consts := Without(a.consts, dst), uppers := Without(a.uppers, dst));
      if |i.operands| >= 2 && i.operands[1].Mem? &&
         Classify(i.operands[1].mem, cleared, None).Affine?
      then cleared.(affinity := a.affinity[dst := Classify(i.operands[1].mem, cleared, None).base])
      else Forget(a, dst)
  }

  function TransferXor(a: Abs, i: LoweredInstr): (a': Abs)
  {
    if |i.operands| >= 2 && i.operands[0].Reg? && i.operands[1].Reg? then
      if GpOperand(i, 0).None? || GpOperand(i, 1).None? then a
      else if GpOperand(i, 0) == GpOperand(i, 1)
      then Forget(a, GpOperand(i, 0).value).(consts := a.consts[GpOperand(i, 0).value := 0])
      else Forget(a, GpOperand(i, 0).value)
    else if GpOperand(i, 0).Some? then Forget(a, GpOperand(i, 0).value)
    else a
  }

  function ForgetDst(a: Abs, i: LoweredInstr): (a': Abs)
  {
    if GpOperand(i, 0).Some? then Forget(a, GpOperand(i, 0).value) else a
  }

  /** Pointer arithmetic keeps the parameter but loses constant and range. */
  function ForgetRange(a: Abs, i: LoweredInstr): (a': Abs)
  {
    if GpOperand(i, 0).Some?
    then a.(consts := Without(a.consts, GpOperand(i, 0).value),
            uppers := Without(a.uppers, GpOperand(i, 0).value))
    else a
  }

  function Transfer(a: Abs, i: LoweredInstr): (a': Abs)
  {
    var quiet := a.(pending := None);
    match i.mnemonic
    case Cmp =>
      if GpOperand(i, 0).Some? && ImmOperand(i, 1).Some? && ImmOperand(i, 1).value >= 0
      then a.(pending := Some((GpOperand(i, 0).value, ImmOperand(i, 1).value)))
      else quiet
    case Jae | Jnb | Jge =>
      if a.pending.Some? then quiet.(uppers := a.uppers[a.pending.value.0 := a.pending.value.1])
      else a
    case Mov | Movabs => TransferMov(quiet, i)
    case Lea => TransferLea(quiet, i)
    case Xor => TransferXor(quiet, i)
    case Pop | Movzx | Movsx | Movsxd | And | Or | Imul | Mul | Div | Idiv | Neg | Not =>
      ForgetDst(quiet, i)
    case Inc | Dec | Add | Sub | Adc | Sbb | Shl | Shr | Sal | Sar | Rol | Ror =>
      ForgetRange(quiet, i)
    case _ => quiet
  }

  // ----- record_accesses -----

  function ModeOf(i: LoweredInstr, k: nat): (m: Option<AccessMode>)
    requires k < |i.operands| && i.operands[k].Mem?
  {
    match i.mnemonic
    case Lea => None
    case Mov | Movabs | Movzx | Movsx | Movsxd =>
      if k == 0 then Some(Store)
      else if i.operands[1].Mem? then Some(Load) else None
    case Push | Stos => Some(Store)
    case Add | Sub | Adc | Sbb | And | Or | Xor | Inc | Dec | Not | Neg | Shl | Shr | Sal | Sar
       | Rol | Ror | Xchg =>
      if k == 0 then Some(Store) else Some(Load)
    case _ => Some(Load)
  }

  function OperandAccess(i: LoweredInstr, k: nat, a: Abs, induction: Option<Fact>)
    : (r: Option<Access>)
    requires k < |i.operands|
  {
    if i.operands[k].Mem? && ModeOf(i, k).Some?
    then Some(Access(ModeOf(i, k).value, Bytes(i.operands[k].mem.width),
                     Classify(i.operands[k].mem, a, induction)))
    else None
  }

  /** Accesses of the first `n` operands. */
  function Accesses(i: LoweredInstr, n: nat, a: Abs, induction: Option<Fact>): (r: seq<Access>)
    requires n <= |i.operands|
    ensures forall k | 0 <= k < n && OperandAccess(i, k, a, induction).Some? ::
              OperandAccess(i, k, a, induction).value in r
  {
    if n == 0 then []
    else
      var rest := Accesses(i, n - 1, a, induction);
      match OperandAccess(i, n - 1, a, induction)
      case Some(x) => rest + [x]
      case None => rest
  }

  // ----- seed_param_affinity and the pass -----

  datatype Abi = SysV | Win64

  datatype Param = Param(name: string, isPointer: bool)

  function ArgumentRegisters(abi: Abi): (regs: seq<Gp>)
  {
    match abi
    case SysV => [Rdi, Rsi, Rdx, Rcx, R8, R9]
    case Win64 => [Rcx, Rdx, R8, R9]
  }

  function Seeded(params: seq<Param>, regs: seq<Gp>, n: nat): (m: map<Gp, string>)
    requires n <= |params| && n <= |regs|
  {
    if n == 0 then map[]
    else if params[n - 1].isPointer
    then Seeded(params, regs, n - 1)[regs[n - 1] := params[n - 1].name]
    else Seeded(params, regs, n - 1)
  }

  function Initial(params: seq<Param>, abi: Abi): (a: Abs)
  {
    var regs := ArgumentRegisters(abi);
    var n := if |params| < |regs| then |params| else |regs|;
    Abs(Seeded(params, regs, n), map[], map[], map[], None)
  }

  /** The abstract state before instruction `n`. */
  function AbsAt(code: seq<LoweredInstr>, a: Abs, n: nat): (r: Abs)
    requires n <= |code|
  {
    if n == 0 then a else Transfer(AbsAt(code, a, n - 1), code[n - 1])
  }

  function FactAt(inductions: Inductions, k: nat): (f: Option<Fact>)
  {
    if k in inductions then Some(inductions[k]) else None
  }

  function Effects(code: seq<LoweredInstr>, inductions: Inductions, a: Abs, n: nat)
    : (r: seq<Access>)
    requires n <= |code|
    ensures forall k, j | 0 <= k < n && 0 <= j < |code[k].operands| &&
                          OperandAccess(code[k], j, AbsAt(code, a, k), FactAt(inductions, k)).Some? ::
              OperandAccess(code[k], j, AbsAt(code, a, k), FactAt(inductions, k)).value in r
  {
    if n == 0 then []
    else Effects(code, inductions, a, n - 1) +
         Accesses(code[n - 1], |code[n - 1].operands|, AbsAt(code, a, n - 1),
                  FactAt(inductions, n - 1))
  }

  /** The mutable maps of the pass. */
  class Tracker {
    var affinity: map<Gp, string>
    var slots: map<Slot, string>
    var consts: map<Gp, nat>
    var uppers: map<Gp, nat>
    var pending: Option<(Gp, nat)>

    function View(): (a: Abs)
      reads this
    {
      Abs(affinity, slots, consts, uppers, pending)
    }

    constructor (params: seq<Param>, abi: Abi)
      ensures View() == Initial(params, abi)
    {
      var regs := ArgumentRegisters(abi);
      var m: map<Gp, string> := map[];
      var n: nat := 0;
      while n < |params| && n < |regs|
        invariant n <= |params| && n <= |regs| && m == Seeded(params, regs, n)
      {
        if params[n].isPointer { m := m[regs[n] := params[n].name]; }
        n := n + 1;
      }
      affinity, slots, consts, uppers, pending := m, map[], map[], map[], None;
    }

    method ForgetRegister(g: Gp)
      modifies this
      ensures View() == Forget(old(View()), g)
    {
      affinity, consts, uppers := Without(affinity, g), Without(consts, g), Without(uppers, g);
    }

    method UpdateMov(i: LoweredInstr)
      modifies this
      ensures View() == TransferMov(old(View()), i)
    {
      if |i.operands| >= 2 && i.operands[0].Mem? && i.operands[1].Reg? {
        var slot := FrameSlot(i.operands[0].mem);
        if slot.Some? && GpOperand(i, 1).Some? {
          var src := GpOperand(i, 1).value;
          if src in affinity { slots := slots[slot.value := affinity[src]]; }
          else { slots := Without(slots, slot.value); }
        }
      } else if GpOperand(i, 0).Some? {
        var dst := GpOperand(i, 0).value;
        if |i.operands| < 2 {
          ForgetRegister(dst);
          return;
        }
        match i.operands[1]
        case Reg(_) =>
          if GpOperand(i, 1).Some? {
            var src := GpOperand(i, 1).value;
            affinity := if src in affinity then affinity[dst := affinity[src]] else Without(affinity, dst);
            consts := if src in consts then consts[dst := consts[src]] else Without(consts, dst);
            uppers := if src in uppers then uppers[dst := uppers[src]] else Without(uppers, dst);
          } else {
            ForgetRegister(dst);
          }
        case Imm(n) =>
          affinity := Without(affinity, dst);
          consts := if n >= 0 then consts[dst := n] else Without(consts, dst);
          uppers := Without(uppers, dst);
        case Mem(m) =>
          consts, uppers := Without(consts, dst), Without(uppers, dst);
          var slot := FrameSlot(m);
          if slot.Some? && slot.value in slots {
            affinity := affinity[dst := slots[slot.value]];
          } else {
            affinity := Without(affinity, dst);
          }
      }
    }

    method UpdateLea(i: LoweredInstr)
      modifies this
      ensures View() == TransferLea(old(View()), i)
    {
      var dst := GpOperand(i, 0);
      if dst.None? { return; }
      consts, uppers := Without(consts, dst.value), Without(uppers, dst.value);
      var addr := if |i.operands| >= 2 && i.operands[1].Mem?
                  then Classify(i.operands[1].mem, View(), None) else UnknownAddr;
      if addr.Affine? { affinity := affinity[dst.value := addr.base]; }
      else { affinity := Without(affinity, dst.value); }
    }

    method UpdateXor(i: LoweredInstr)
      modifies this
      ensures View() == TransferXor(old(View()), i)
    {
      var dst := GpOperand(i, 0);
      if |i.operands| >= 2 && i.operands[0].Reg? && i.operands[1].Reg? {
        if dst.Some? && GpOperand(i, 1).Some? {
          ForgetRegister(dst.value);
          if dst == GpOperand(i, 1) { consts := consts[dst.value := 0]; }
        }
      } else if dst.Some? {
        ForgetRegister(dst.value);
      }
    }

    method Update(i: LoweredInstr)
      modifies this
      ensures View() == Transfer(old(View()), i)
    {
      hide TransferMov;
      hide TransferLea;
      hide TransferXor;
      hide Without;
      hide GpOperand;
      hide ImmOperand;
      var dst := GpOperand(i, 0);
      match i.mnemonic
      case Cmp =>
        pending := None;
        if dst.Some? && ImmOperand(i, 1).Some? && ImmOperand(i, 1).value >= 0 {
          pending := Some((dst.value, ImmOperand(i, 1).value));
        }
      case Jae | Jnb | Jge =>
        if pending.Some? {
          uppers := uppers[pending.value.0 := pending.value.1];
          pending := None;
        }
      case Mov | Movabs =>
        pending := None;
        UpdateMov(i);
      case Lea =>
        pending := None;
        UpdateLea(i);
      case Xor =>
        pending := None;
        UpdateXor(i);
      case Pop | Movzx | Movsx | Movsxd | And | Or | Imul | Mul | Div | Idiv | Neg | Not =>
        pending := None;
        if dst.Some? { ForgetRegister(dst.value); }
      case Inc | Dec | Add | Sub | Adc | Sbb | Shl | Shr | Sal | Sar | Rol | Ror =>
        pending := None;
        if dst.Some? { consts, uppers := Without(consts, dst.value), Without(uppers, dst.value); }
      case _ =>
        pending := None;
    }
  }

  method Collect(p: Program, params: seq<Param>, abi: Abi) returns (out: seq<Access>)
    ensures out == Effects(p.code, AllInductions(p), Initial(params, abi), |p.code|)
  {
    hide AllInductions;
    hide Transfer;
    hide OperandAccess;
    hide Initial;
    var inductions := Discover(p);
    var tracker := new Tracker(params, abi);
    out := [];
    for k := 0 to |p.code|
      invariant out == Effects(p.code, inductions, Initial(params, abi), k)
      invariant tracker.View() == AbsAt(p.code, Initial(params, abi), k)
    {
      var i := p.code[k];
      var recorded := [];
      for j := 0 to |i.operands|
        invariant recorded == Accesses(i, j, tracker.View(), FactAt(inductions, k))
      {
        var access := OperandAccess(i, j, tracker.View(), FactAt(inductions, k));
        if access.Some? { recorded := recorded + [access.value]; }
      }
      out := out + recorded;
      tracker.Update(i);
    }
  }
}
