/**
 A small-step machine for lowered x86-64 code.  Whatever the analysis cannot
 know (loaded values, results of bitwise operations, registers after a call or
 after an instruction outside the lowered subset) is chosen by an `Env`, so a
 statement about every sequence of `Env` values is a statement about every run.
 */
module Machine {
  import opened Basics
  import opened X86

  type RegFile = Gp -> Word

  datatype Flags = Flags(cf: bool, zf: bool, sf: bool, of: bool)

  /** Byte `k` of the word a store wrote; `k` beyond 7 marks a byte of no tracked word. */
  datatype Cell = Cell(word: Word, k: nat)

  type Memory = Word -> Cell

  datatype State = State(pc: nat, regs: RegFile, flags: Flags, mem: Memory)

  /** One step's worth of outside choices. */
  datatype Env = Env(word: Word, regs: RegFile, flags: Flags, mem: Memory)

  datatype Program = Program(code: seq<LoweredInstr>, physical: seq<Physical>)

  // ----- register views -----

  function ReadView(regs: RegFile, r: Register): (v: Word)
  {
    match r.storage
    case GpCell(g) =>
      if r.width == B8 && r.high then (regs(g) / 256) % 256 else regs(g) % Modulus(r.width)
    case _ => 0
  }

  /** Writing a 32-bit view clears the upper half; narrower writes merge. */
  function Merged(prior: Word, r: Register, v: Word): (w: Word)
  {
    match r.width
    case B64 => v
    case B32 => v % TWO32
    case B16 => (prior - prior % 0x1_0000) + v % 0x1_0000
    case B8 => if r.high
      then (prior - prior % 0x1_0000) + (v % 256) * 256 + prior % 256
      else (prior - prior % 256) + v % 256
  }

  function SetReg(regs: RegFile, g: Gp, v: Word): (regs': RegFile)
  {
    x => if x == g then v else regs(x)
  }

  function WriteDst(s: State, i: LoweredInstr, v: Word): (s': State)
    ensures s'.pc == s.pc && s'.flags == s.flags && s'.mem == s.mem
  {
    if GpOperand(i, 0).Some? then
      var r := i.operands[0].reg;
      s.(regs := SetReg(s.regs, r.storage.gp, Merged(s.regs(r.storage.gp), r, v)))
    else
      s
  }

  // ----- operand values and flags -----

  function ViewOr0(regs: RegFile, r: Option<Register>): (v: Word)
  {
    if r.Some? then ReadView(regs, r.value) else 0
  }

  function EffectiveAddress(regs: RegFile, m: MemOperand): (a: Word)
  {
    (ViewOr0(regs, m.base) + ViewOr0(regs, m.index) * m.scale + m.disp) % TWO64
  }

  /** The value an operand supplies; a load supplies what the environment chose. */
  function Value(s: State, o: Operand, e: Env): (v: Word)
  {
    match o
    case Reg(r) => ReadView(s.regs, r)
    case Imm(n) => n % TWO64
    case Mem(m) => e.word % Modulus(m.width)
  }

  /** The instruction takes the value of its memory operand `k`. */
  predicate Loads(i: LoweredInstr, k: nat)
  {
    k < |i.operands| && i.operands[k].Mem? &&
    match i.mnemonic
    case Mov | Movabs | Movzx | Movsx | Movsxd | Cmov(_) => k == 1
    case Xor | And | Or | Add | Sub | Inc | Dec | Cmp | Test | Shl | Shr => k <= 1
    case Push | Jmp => k == 0
    case _ => BranchCond(i.mnemonic).Some? && k == 0
  }

  function OperandOr0(s: State, i: LoweredInstr, k: nat, e: Env): (v: Word)
  {
    if k < |i.operands| && (i.operands[k].Mem? ==> Loads(i, k)) then Value(s, i.operands[k], e) else 0
  }

  function OperationWidth(i: LoweredInstr): (w: Width)
  {
    if |i.operands| == 0 then B64
    else match i.operands[0]
      case Reg(r) => r.width
      case Mem(m) => m.width
      case Imm(_) => B64
  }

  function Signed(a: int, w: Width): (v: int)
  {
    if a >= Modulus(w) / 2 then a - Modulus(w) else a
  }

  /** Flags of `a - b` on a `w`-bit operand, as `cmp` and `sub` set them. */
  function SubFlags(a: int, b: int, w: Width): (f: Flags)
  {
    var d := Signed(a, w) - Signed(b, w);
    Flags(a < b, a == b, (a - b) % Modulus(w) >= Modulus(w) / 2,
          !(-(Modulus(w) / 2) <= d < Modulus(w) / 2))
  }

  function ResultFlags(cf: bool, of: bool, v: int, w: Width): (f: Flags)
  {
    Flags(cf, v == 0, v >= Modulus(w) / 2, of)
  }

  predicate Holds(c: Cond, f: Flags)
  {
    match c
    case CcAE => !f.cf
    case CcB => f.cf
    case CcA => !f.cf && !f.zf
    case CcBE => f.cf || f.zf
    case CcGE => f.sf == f.of
    case CcL => f.sf != f.of
    case CcG => !f.zf && f.sf == f.of
    case CcLE => f.zf || f.sf != f.of
    case CcE => f.zf
    case CcNE => !f.zf
    case CcS => f.sf
    case CcNS => !f.sf
  }

  // ----- one instruction -----

  predicate IsControl(m: Mnemonic)
  {
    BranchCond(m).Some? || m == Jmp || m == Ret
  }

  predicate SameRegister(i: LoweredInstr)
  {
    |i.operands| >= 2 && i.operands[0].Reg? && i.operands[0] == i.operands[1]
  }

  /** Registers and flags after one instruction; loads and unknown results come from `e.word`. */
  function Exec(i: LoweredInstr, s: State, e: Env): (s': State)
    ensures s'.pc == s.pc && s'.mem == s.mem
  {
    var w := OperationWidth(i);
    var a := OperandOr0(s, i, 0, e) % Modulus(w);
    var b := OperandOr0(s, i, 1, e) % Modulus(w);
    match i.mnemonic
    case Mov | Movabs | Movzx => WriteDst(s, i, OperandOr0(s, i, 1, e))
    case Movsx | Movsxd => WriteDst(s, i, e.word)
    case Lea =>
      WriteDst(s, i, if |i.operands| >= 2 && i.operands[1].Mem?
                     then EffectiveAddress(s.regs, i.operands[1].mem) else e.word)
    case Push => s.(regs := SetReg(s.regs, Rsp, (s.regs(Rsp) - 8) % TWO64))
    case Pop => WriteDst(s.(regs := SetReg(s.regs, Rsp, (s.regs(Rsp) + 8) % TWO64)), i, e.word)
    case Xor =>
      var v := if SameRegister(i) then 0 else e.word;
      WriteDst(s, i, v).(flags := ResultFlags(false, false, v % Modulus(w), w))
    case And | Or =>
      WriteDst(s, i, e.word).(flags := ResultFlags(false, false, e.word % Modulus(w), w))
    case Add => WriteDst(s, i, (a + b) % Modulus(w)).(flags :=
        ResultFlags(a + b >= Modulus(w), Overflows(Signed(a, w) + Signed(b, w), w),
                    (a + b) % Modulus(w), w))
    case Sub => WriteDst(s, i, (a - b) % Modulus(w)).(flags := SubFlags(a, b, w))
    case Inc => WriteDst(s, i, (a + 1) % Modulus(w)).(flags :=
        ResultFlags(s.flags.cf, Overflows(Signed(a, w) + 1, w), (a + 1) % Modulus(w), w))
    case Dec => WriteDst(s, i, (a - 1) % Modulus(w)).(flags :=
        ResultFlags(s.flags.cf, Overflows(Signed(a, w) - 1, w), (a - 1) % Modulus(w), w))
    case Cmp => s.(flags := SubFlags(a, b, w))
    case Test => s.(flags := ResultFlags(false, false,
        if SameRegister(i) then a else e.word % Modulus(w), w))
    case Shl | Shr => WriteDst(s, i, e.word).(flags := e.flags)
    case Cmov(cc) => WriteDst(s, i, if Holds(cc, s.flags) then OperandOr0(s, i, 1, e) else a)
    case Nop => s
    case _ => if IsControl(i.mnemonic) then s else s.(regs := e.regs, flags := e.flags)
  }

  /** The mnemonics given a meaning here: what the lowering accepts short of calls, and a few more. */
  predicate InSubset(m: Mnemonic)
  {
    match m
    case Mov | Movabs | Movzx | Movsx | Movsxd | Lea | Push | Pop | Xor | And | Or | Add | Sub
       | Inc | Dec | Cmp | Test | Shl | Shr | Cmov(_) | Nop => true
    case _ => IsControl(m)
  }

  predicate Overflows(d: int, w: Width)
  {
    !(-(Modulus(w) / 2) <= d < Modulus(w) / 2)
  }

  /** The registers an instruction may change: its destination, plus implicit ones. */
  predicate Clobbers(i: LoweredInstr, g: Gp)
  {
    match i.mnemonic
    case Mov | Movabs | Movzx | Movsx | Movsxd | Lea | Xor | And | Or | Add | Sub | Inc | Dec
       | Shl | Shr | Cmov(_) => GpOperand(i, 0) == Some(g)
    case Push => g == Rsp
    case Pop => g == Rsp || GpOperand(i, 0) == Some(g)
    case Cmp | Test | Nop => false
    case _ => !IsControl(i.mnemonic)
  }

  predicate KeepsFlags(i: LoweredInstr)
  {
    i.mnemonic.Cmov? || IsControl(i.mnemonic) ||
    i.mnemonic in {Mov, Movabs, Movzx, Movsx, Movsxd, Lea, Push, Pop, Nop}
  }

  lemma WriteFrame(s: State, i: LoweredInstr, v: Word, g: Gp)
    requires GpOperand(i, 0) != Some(g)
    ensures WriteDst(s, i, v).regs(g) == s.regs(g)
  {
    hide Merged;
  }

  lemma MoveFrame(i: LoweredInstr, s: State, e: Env, g: Gp)
    requires i.mnemonic in {Mov, Movabs, Movzx, Movsx, Movsxd, Lea, Push, Pop} || i.mnemonic.Cmov?
    ensures !Clobbers(i, g) ==> Exec(i, s, e).regs(g) == s.regs(g)
    ensures Exec(i, s, e).flags == s.flags
  {
    hide Merged;
    hide EffectiveAddress;
    hide Value;
    hide Modulus;
    hide Holds;
  }

  lemma ArithmeticFrame(i: LoweredInstr, s: State, e: Env, g: Gp)
    requires i.mnemonic in {Xor, And, Or, Add, Sub, Inc, Dec, Shl, Shr} && !Clobbers(i, g)
    ensures Exec(i, s, e).regs(g) == s.regs(g)
  {
    hide SubFlags;
    hide ResultFlags;
    hide Overflows;
    hide Signed;
    hide OperandOr0;
    hide Modulus;
    hide WriteDst;
    forall v: Word ensures WriteDst(s, i, v).regs(g) == s.regs(g) { WriteFrame(s, i, v, g); }
  }

  lemma OtherFrame(i: LoweredInstr, s: State, e: Env, g: Gp)
    requires IsControl(i.mnemonic) || i.mnemonic in {Cmp, Test, Nop}
    ensures Exec(i, s, e).regs(g) == s.regs(g)
    ensures IsControl(i.mnemonic) || i.mnemonic == Nop ==> Exec(i, s, e).flags == s.flags
  {
    hide SubFlags;
    hide ResultFlags;
    hide OperandOr0;
    hide Modulus;
    hide WriteDst;
  }

  /** Instructions change only the registers they clobber, and flags only if they may. */
  lemma ExecFrame(i: LoweredInstr, s: State, e: Env, g: Gp)
    ensures !Clobbers(i, g) ==> Exec(i, s, e).regs(g) == s.regs(g)
    ensures KeepsFlags(i) ==> Exec(i, s, e).flags == s.flags
  {
    hide Exec;
    if i.mnemonic in {Mov, Movabs, Movzx, Movsx, Movsxd, Lea, Push, Pop} || i.mnemonic.Cmov? {
      MoveFrame(i, s, e, g);
    } else if IsControl(i.mnemonic) || i.mnemonic in {Cmp, Test, Nop} {
      OtherFrame(i, s, e, g);
    } else if !Clobbers(i, g) {
      ArithmeticFrame(i, s, e, g);
    }
  }

  // ----- memory -----

  function Offset(address: Word, x: Word): (k: nat)
    ensures k < TWO64
  {
    (x - address) % TWO64
  }

  function ByteAt(address: Word, k: nat): (x: Word)
  {
    (address + k) % TWO64
  }

  /** The word stored at `address`, when its eight bytes are still those of one store. */
  function LoadWord(mem: Memory, address: Word): (v: Option<Word>)
  {
    var c := mem(address);
    if forall k | 0 <= k < 8 :: mem(ByteAt(address, k)) == Cell(c.word, k)
    then Some(c.word) else None
  }

  function StoreWord(mem: Memory, address: Word, v: Word): (mem': Memory)
  {
    (x: Word) => if Offset(address, x) < 8 then Cell(v, Offset(address, x)) else mem(x)
  }

  /** Overwrites `n` bytes with bytes of no tracked word. */
  function Scribble(mem: Memory, address: Word, n: nat, v: Word): (mem': Memory)
  {
    (x: Word) => if Offset(address, x) < n then Cell(v, 8) else mem(x)
  }

  predicate WritesMemory(m: Mnemonic)
  {
    match m
    case Mov | Movabs | Pop | Xor | And | Or | Add | Sub | Inc | Dec | Shl | Shr => true
    case _ => false
  }

  /** The instruction stores through its memory operand `k`. */
  predicate Stores(i: LoweredInstr, k: nat)
  {
    k == 0 && |i.operands| > 0 && i.operands[0].Mem? && WritesMemory(i.mnemonic)
  }

  function Bytes(w: Width): (n: nat)
  {
    match w case B8 => 1 case B16 => 2 case B32 => 4 case B64 => 8
  }

  /** The registers a destination address is computed from: `pop` has moved `rsp` by then. */
  function AddressRegs(i: LoweredInstr, s: State): (regs: RegFile)
  {
    if i.mnemonic == Pop then SetReg(s.regs, Rsp, (s.regs(Rsp) + 8) % TWO64) else s.regs
  }

  /** First byte and length of what an instruction of the lowered subset stores. */
  function StoreRange(i: LoweredInstr, s: State): (r: Option<(Word, nat)>)
  {
    if i.mnemonic == Push then Some(((s.regs(Rsp) - 8) % TWO64, 8))
    else if Stores(i, 0) then
      Some((EffectiveAddress(AddressRegs(i, s), i.operands[0].mem), Bytes(i.operands[0].mem.width)))
    else None
  }

  predicate IsWordSpill(i: LoweredInstr)
  {
    (i.mnemonic == Mov || i.mnemonic == Movabs) && |i.operands| >= 2 && i.operands[0].Mem? &&
    i.operands[0].mem.width == B64 && i.operands[1].Reg?
  }

  function MemoryAfter(i: LoweredInstr, s: State, e: Env): (mem: Memory)
  {
    match StoreRange(i, s)
    case Some(r) =>
      if IsWordSpill(i) then StoreWord(s.mem, r.0, ReadView(s.regs, i.operands[1].reg))
      else Scribble(s.mem, r.0, r.1, e.word)
    case None =>
      if InSubset(i.mnemonic) then s.mem else e.mem
  }

  /** A 64-bit `mov` from memory reads back what was stored there. */
  function Resolve(i: LoweredInstr, s: State, e: Env): (e': Env)
  {
    if (i.mnemonic == Mov || i.mnemonic == Movabs) && |i.operands| >= 2 &&
       i.operands[1].Mem? && i.operands[1].mem.width == B64 then
      match LoadWord(s.mem, EffectiveAddress(s.regs, i.operands[1].mem))
      case Some(v) => e.(word := v)
      case None => e
    else e
  }

  /** Everything one instruction does apart from moving the program counter. */
  function Effect(i: LoweredInstr, s: State, e: Env): (s': State)
  {
    Exec(i, s, Resolve(i, s, e)).(mem := MemoryAfter(i, s, e))
  }

  // ----- control flow and runs -----

  /** Index of the last instruction decoded at `address`; a later duplicate hides an earlier one. */
  function IndexOfAddress(physical: seq<Physical>, address: nat): (k: Option<nat>)
    ensures k.Some? ==> k.value < |physical| && physical[k.value].address == address
    ensures k.None? ==> forall j | 0 <= j < |physical| :: physical[j].address != address
  {
    var addresses := seq(|physical|, i requires 0 <= i < |physical| => physical[i].address);
    assert forall j | 0 <= j < |physical| :: addresses[j] == physical[j].address;
    LastIndexOf(addresses, address)
  }

  function Target(physical: seq<Physical>, k: nat): (t: Option<nat>)
    ensures t.Some? ==> t.value < |physical|
  {
    if k < |physical| && physical[k].target.Some?
    then IndexOfAddress(physical, physical[k].target.value)
    else None
  }

  /** Where a taken branch goes: to its decoded target, or wherever the environment says. */
  function Goto(p: Program, k: nat, e: Env): (pc: nat)
  {
    match Target(p.physical, k)
    case Some(t) => t
    case None => e.word
  }

  /** An instruction of unlisted mnemonic may be a branch. */
  function NextPc(p: Program, s: State, e: Env): (pc: nat)
    requires s.pc < |p.code|
  {
    var m := p.code[s.pc].mnemonic;
    if m == Ret then |p.code|
    else if m.Other? then e.word
    else if m == Jmp then Goto(p, s.pc, e)
    else if BranchCond(m).Some? then
      if Holds(BranchCond(m).value, s.flags) then Goto(p, s.pc, e) else s.pc + 1
    else s.pc + 1
  }

  function Next(p: Program, s: State, e: Env): (s': State)
  {
    if s.pc < |p.code|
    then Effect(p.code[s.pc], s, e).(pc := NextPc(p, s, e))
    else s
  }

  /** The state after the steps resolved by `es`. */
  function Run(p: Program, s: State, es: seq<Env>): (s': State)
  {
    if |es| == 0 then s else Next(p, Run(p, s, es[..|es| - 1]), es[|es| - 1])
  }

  lemma {:induction false} RunSplit(p: Program, s: State, a: seq<Env>, b: seq<Env>)
    ensures Run(p, s, a + b) == Run(p, Run(p, s, a), b)
  {
    if |b| == 0 {
      assert a + b == a;
    } else {
      assert (a + b)[..|a + b| - 1] == a + b[..|b| - 1];
      RunSplit(p, s, a, b[..|b| - 1]);
    }
  }

  /** What `SF != OF` says after a compare: signed less-than. */
  lemma CompareConditions(a: int, b: int, w: Width)
    requires 0 <= a < Modulus(w) && 0 <= b < Modulus(w)
    ensures Holds(CcB, SubFlags(a, b, w)) <==> a < b
    ensures Holds(CcAE, SubFlags(a, b, w)) <==> a >= b
    ensures Holds(CcL, SubFlags(a, b, w)) <==> Signed(a, w) < Signed(b, w)
    ensures Holds(CcGE, SubFlags(a, b, w)) <==> Signed(a, w) >= Signed(b, w)
  {
    var m := Modulus(w);
    var r := if a >= b then a - b else a - b + m;
    assert (a - b) % m == r by { WrapOnce(a - b, m, r); }
    hide Modulus;
  }

  lemma WrapOnce(d: int, m: int, r: int)
    requires m > 0 && 0 <= r < m && (d == r || d + m == r)
    ensures d % m == r
  {
    if d + m == r { assert d == -1 * m + r; }
  }
}
