/**
 The lowered x86-64 instruction form that the memory-effect collector reads
 (crates/semasm-x86/src/lib.rs and lower.rs).  Mnemonics are an enumeration:
 one constructor per spelling the collector distinguishes, and `Other` for
 every remaining spelling.
 */
module X86 {
  import opened Basics

  /** A 64-bit machine word. */
  type Word = x: int | 0 <= x < TWO64

  datatype Gp =
    | Rax | Rbx | Rcx | Rdx | Rsi | Rdi | Rsp | Rbp
    | R8 | R9 | R10 | R11 | R12 | R13 | R14 | R15

  datatype Width = B8 | B16 | B32 | B64

  datatype Storage = GpCell(gp: Gp) | Rip | Rflags | Seg(index: nat) | Xmm(index: nat)

  /** A view of a storage cell; `high` selects the second byte of a `B8` view. */
  datatype Register = Register(storage: Storage, width: Width, high: bool)

  datatype MemOperand = MemOperand(
    base: Option<Register>, index: Option<Register>, scale: nat, disp: int, width: Width)

  datatype Operand = Reg(reg: Register) | Mem(mem: MemOperand) | Imm(imm: int)

  /** Condition codes tested by branches and conditional moves. */
  datatype Cond = CcAE | CcB | CcA | CcBE | CcGE | CcL | CcG | CcLE | CcE | CcNE | CcS | CcNS

  datatype Mnemonic =
    | Mov | Movabs | Movzx | Movsx | Movsxd | Lea | Push | Pop
    | Xor | And | Or | Add | Sub | Adc | Sbb | Inc | Dec | Neg | Not
    | Imul | Mul | Div | Idiv | Shl | Shr | Sal | Sar | Rol | Ror | Xchg | Stos
    | Cmp | Test | Nop
    | Jae | Jnb | Jge | Ja | Jb | Jnae | Jbe | Jg | Jl | Jnge | Jle
    | Je | Jz | Jne | Jnz | Js | Jns | Jmp | Call | Ret
    | Cmov(cc: Cond)
    | Other(name: string)

  datatype LoweredInstr = LoweredInstr(mnemonic: Mnemonic, operands: seq<Operand>)

  /** Address of a decoded instruction and its first operand read as a hexadecimal address. */
  datatype Physical = Physical(address: nat, target: Option<nat>)

  /** The general-purpose register viewed by operand `k`, if that operand is one. */
  function GpOperand(i: LoweredInstr, k: nat): (g: Option<Gp>)
  {
    if k < |i.operands| && i.operands[k].Reg? && i.operands[k].reg.storage.GpCell?
    then Some(i.operands[k].reg.storage.gp)
    else None
  }

  function ImmOperand(i: LoweredInstr, k: nat): (v: Option<int>)
  {
    if k < |i.operands| && i.operands[k].Imm? then Some(i.operands[k].imm) else None
  }

  /** The general-purpose register that scales the address of a memory operand. */
  function IndexGp(mem: MemOperand): (g: Option<Gp>)
  {
    if mem.index.Some? && mem.index.value.storage.GpCell?
    then Some(mem.index.value.storage.gp)
    else None
  }

  /** Number of values of a view: two to the power of its width. */
  function Modulus(w: Width): (m: int)
    ensures 256 <= m <= TWO64 && m % 2 == 0
  {
    match w
    case B8 => 0x100
    case B16 => 0x1_0000
    case B32 => TWO32
    case B64 => TWO64
  }

  /** The condition a conditional branch tests; jumps, calls and returns have none. */
  function BranchCond(m: Mnemonic): (c: Option<Cond>)
  {
    match m
    case Jae | Jnb => Some(CcAE)
    case Jb | Jnae => Some(CcB)
    case Ja => Some(CcA)
    case Jbe => Some(CcBE)
    case Jge => Some(CcGE)
    case Jl | Jnge => Some(CcL)
    case Jg => Some(CcG)
    case Jle => Some(CcLE)
    case Je | Jz => Some(CcE)
    case Jne | Jnz => Some(CcNE)
    case Js => Some(CcS)
    case Jns => Some(CcNS)
    case _ => None
  }

  /** The mnemonics the lowering lists; the staged run stops at any other. */
  predicate Lowers(m: Mnemonic)
  {
    match m
    case Mov | Movabs | Push | Pop | Lea | Movzx | Xor | Add | Sub | Inc | Dec | And | Or | Shl | Shr
       | Cmp | Test | Jmp | Je | Jne | Jz | Jnz | Ja | Jae | Jb | Jbe | Jg | Jge | Jl | Jle
       | Call | Ret | Cmov(_) => true
    case Other(name) => name in {"retn", "retf", "syscall"}
    case _ => false
  }
}
