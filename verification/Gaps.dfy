/**
 Programs the collector accepts and is wrong about.  Each lemma names a concrete
 program, what the pass records about it and a run that contradicts the record;
 together they show why `Tracked` and the `Confined` predicates ask what they ask.
 */
module Gaps {
  import opened Basics
  import opened X86
  import opened Machine
  import opened Recognisers
  import opened MemoryEffects
  import opened AbstractSoundness
  import LoopSoundness

  function Full(g: Gp): (r: Register) { Register(GpCell(g), B64, false) }

  function Low32(g: Gp): (r: Register) { Register(GpCell(g), B32, false) }

  function At(base: Gp, index: Gp): (o: Operand)
  {
    Mem(MemOperand(Some(Full(base)), Some(Full(index)), 1, 0, B8))
  }

  function Op(m: Mnemonic, ops: seq<Operand>): (i: LoweredInstr) { LoweredInstr(m, ops) }

  /** Knowledge at entry: `rdi` holds the pointer parameter `buffer`. */
  const ENTRY: Abs := Abs(map[Rdi := "buffer"], map[], map[], map[], None)

  const CLEAR: Flags := Flags(false, false, false, false)

  const BLANK: Memory := _ => Cell(0, 8)

  function Start(pc: nat, regs: RegFile): (s: State) { State(pc, regs, CLEAR, BLANK) }

  function Word0(w: Word): (e: Env) { Env(w, _ => 0, CLEAR, BLANK) }

  /** `mov rax, 3; cmovb rax, rcx`: the conditional move is not seen as a write. */
  lemma ConditionalMoveRecorded()
    ensures var i := Op(Cmov(CcB), [Reg(Full(Rax)), Reg(Full(Rcx))]);
            var a := Transfer(Transfer(ENTRY, Op(Mov, [Reg(Full(Rax)), Imm(3)])), i);
            Classify(At(Rdi, Rax).mem, a, None) == Indexed("buffer", 1, 0, Some(3), None)
  {
    hide Without;
    hide TransferLea;
    hide TransferXor;
    var m := Transfer(ENTRY, Op(Mov, [Reg(Full(Rax)), Imm(3)]));
    assert Rax in m.consts && m.consts[Rax] == 3;
    assert Rdi in m.affinity && m.affinity[Rdi] == "buffer";
    hide TransferMov;
    var a := Transfer(m, Op(Cmov(CcB), [Reg(Full(Rax)), Reg(Full(Rcx))]));
    assert a == m.(pending := None);
    hide Transfer;
    assert IndexFact(a, Rax, None) == (Some(3), None);
  }

  lemma ConditionalMoveUnseen(s: State, e: Env)
    requires s.flags.cf && s.regs(Rax) == 3 && s.regs(Rcx) == 100
    ensures Exec(Op(Cmov(CcB), [Reg(Full(Rax)), Reg(Full(Rcx))]), s, e).regs(Rax) == 100
  {
  }

  /** `add rdi, 100`: the moved pointer is still recorded as the parameter itself. */
  lemma MovedPointerRecorded()
    ensures Classify(MemOperand(Some(Full(Rdi)), None, 1, 0, B8),
                     Transfer(ENTRY, Op(Add, [Reg(Full(Rdi)), Imm(100)])), None)
            == Affine("buffer", 0)
  {
    hide TransferMov;
    hide TransferLea;
    hide TransferXor;
    hide Without;
  }

  lemma MovedPointerUnseen(buffer: Word, s: State, e: Env)
    requires buffer + 100 < TWO64 && s.regs(Rdi) == buffer
    ensures Exec(Op(Add, [Reg(Full(Rdi)), Imm(100)]), s, e).regs(Rdi) == buffer + 100
  {
    hide Exec;
    AddValue(Rdi, 100, s, e);
  }

  /** `lea rdi, [rdi + 8]` drops its displacement in the same way. */
  lemma LeaDropsDisplacement(s: State, e: Env)
    requires s.regs(Rdi) == 1000
    ensures var i := Op(Lea, [Reg(Full(Rdi)), Mem(MemOperand(Some(Full(Rdi)), None, 1, 8, B64))]);
            && Rdi in Transfer(ENTRY, i).affinity && Transfer(ENTRY, i).affinity[Rdi] == "buffer"
            && Exec(i, s, e).regs(Rdi) == 1008
  {
    LeaMoves(s, e);
    hide Exec;
    hide TransferMov;
    hide TransferXor;
    hide Without;
  }

  lemma LeaMoves(s: State, e: Env)
    requires s.regs(Rdi) == 1000
    ensures var i := Op(Lea, [Reg(Full(Rdi)), Mem(MemOperand(Some(Full(Rdi)), None, 1, 8, B64))]);
            Exec(i, s, e).regs(Rdi) == 1008
  {
  }

  /** `cmp eax, 8; jae`: a 32-bit guard is recorded as a bound on all of `rax`. */
  lemma NarrowGuardRecorded()
    ensures var c, j := Op(Cmp, [Reg(Low32(Rax)), Imm(8)]), Op(Jae, []);
            Transfer(Transfer(ENTRY, c), j).uppers == map[Rax := 8]
  {
    hide TransferMov;
    hide TransferLea;
    hide TransferXor;
    hide Without;
  }

  /** The guard falls through on the low half alone; the access uses all of `rax`. */
  lemma NarrowGuard()
    ensures var c := Op(Cmp, [Reg(Low32(Rax)), Imm(8)]);
            var s := Exec(c, Start(0, _ => TWO32), Word0(0));
            !Holds(CcAE, s.flags) && s.regs(Rax) >= 8
  {
    var c, s0, e := Op(Cmp, [Reg(Low32(Rax)), Imm(8)]), Start(0, _ => TWO32), Word0(0);
    NarrowOperands(s0, e);
    hide OperandOr0;
    hide WriteDst;
    hide OperationWidth;
    hide Signed;
    assert Exec(c, s0, e).flags == SubFlags(0, 8, B32);
  }

  lemma NarrowOperands(s: State, e: Env)
    requires s.regs(Rax) == TWO32
    ensures var c := Op(Cmp, [Reg(Low32(Rax)), Imm(8)]);
            && OperationWidth(c) == B32
            && OperandOr0(s, c, 0, e) == 0 && OperandOr0(s, c, 1, e) == 8
  {
    hide Exec;
  }

  /** A bare guard bounds its register whatever it held exactly when the branch is unsigned. */
  lemma GuardExact(m: Mnemonic, n: nat)
    requires IsGuard(m) && n < TWO63
    ensures (forall v: Word :: !Holds(BranchCond(m).value, SubFlags(v, n, B64)) ==> v < n)
            <==> m != Jge
  {
    forall v: Word
      ensures !Holds(CcAE, SubFlags(v, n, B64)) <==> v < n
    {
      CompareConditions(v, n, B64);
    }
    CompareConditions(TWO64 - 1, n, B64);
    assert Signed(TWO64 - 1, B64) == -1;
    assert !Holds(CcGE, SubFlags(TWO64 - 1, n, B64));
  }

  /** `mov rax, 2^40; mov ecx, eax`: the 32-bit copy keeps the 64-bit constant. */
  lemma NarrowCopy()
    ensures var first := Op(Mov, [Reg(Full(Rax)), Imm(0x100_0000_0000)]);
            var copy := Op(Mov, [Reg(Low32(Rcx)), Reg(Low32(Rax))]);
            && Rcx in Transfer(Transfer(ENTRY, first), copy).consts
            && Transfer(Transfer(ENTRY, first), copy).consts[Rcx] == 0x100_0000_0000
            && Exec(copy, Start(0, _ => 0x100_0000_0000), Word0(0)).regs(Rcx) == 0
  {
  }

  /** `xor rax, rax; xor rax, 5`: the second `xor` does not end the search for a zero. */
  lemma XorImmediateUnseen()
    ensures var code := [Op(Xor, [Reg(Full(Rax)), Reg(Full(Rax))]),
                         Op(Xor, [Reg(Full(Rax)), Imm(5)])];
            ZeroInit(code, 2, Rax) && Clobbers(code[1], Rax)
    ensures Exec(Op(Xor, [Reg(Full(Rax)), Imm(5)]), Start(0, _ => 0), Word0(5)).regs(Rax) == 5
  {
    var code := [Op(Xor, [Reg(Full(Rax)), Reg(Full(Rax))]), Op(Xor, [Reg(Full(Rax)), Imm(5)])];
    assert ZeroScan(code[1], Rax).Skip? && ZeroScan(code[0], Rax) == Stop(true);
    assert ZeroInit(code, 1, Rax);
  }

  // ----- exactly when one instruction keeps the pass right -----

  /** The pass is right about every register. */
  ghost predicate Right(a: Abs, entry: Entry, s: State)
  {
    forall x: Gp :: RegOk(a, entry, s, x)
  }

  /** Whatever the machine does, the pass stays right about `g` across `i`. */
  ghost predicate StaysRight(a: Abs, i: LoweredInstr, g: Gp)
  {
    forall entry: Entry, s: State, e: Env | Right(a, entry, s) :: RegOk(Transfer(a, i), entry, Exec(i, s, e), g)
  }

  function AddTo(g: Gp, n: int): (i: LoweredInstr)
  {
    Op(Add, [Reg(Full(g)), Imm(n)])
  }

  lemma AddValue(g: Gp, n: int, s: State, e: Env)
    ensures Exec(AddTo(g, n), s, e).regs(g) == (s.regs(g) + n % TWO64) % TWO64
  {
    AddReads(g, n, s, e);
    hide OperandOr0;
    hide OperationWidth;
    hide ResultFlags;
    hide Overflows;
    hide Signed;
  }

  lemma AddReads(g: Gp, n: int, s: State, e: Env)
    ensures var i := AddTo(g, n);
            && OperationWidth(i) == B64 && OperandOr0(s, i, 0, e) % TWO64 == s.regs(g)
            && OperandOr0(s, i, 1, e) % TWO64 == n % TWO64
  {
    hide Exec;
  }

  lemma AddTransfer(a: Abs, g: Gp, n: int)
    ensures var a' := Transfer(a, AddTo(g, n));
            a'.affinity == a.affinity && g !in a'.consts && g !in a'.uppers
  {
    hide TransferMov;
    hide TransferLea;
    hide TransferXor;
    hide Without;
  }

  /** `add g, n` keeps a parameter pointer right if and only if it adds nothing. */
  lemma MovedPointerExact(a: Abs, g: Gp, n: int, entry: Entry, s: State)
    requires g in a.affinity && Right(a, entry, s)
    ensures StaysRight(a, AddTo(g, n), g) <==> n % TWO64 == 0
  {
    hide Exec;
    hide Transfer;
    AddTransfer(a, g, n);
    forall s: State, e: Env ensures Exec(AddTo(g, n), s, e).regs(g) == (s.regs(g) + n % TWO64) % TWO64 {
      AddValue(g, n, s, e);
    }
    if StaysRight(a, AddTo(g, n), g) {
      assert RegOk(a, entry, s, g);
      assert RegOk(Transfer(a, AddTo(g, n)), entry, Exec(AddTo(g, n), s, Word0(0)), g);
    } else {
      var entry', s', e' :| Right(a, entry', s') && !RegOk(Transfer(a, AddTo(g, n)), entry', Exec(AddTo(g, n), s', e'), g);
      assert RegOk(a, entry', s', g);
    }
  }

  function LeaOf(dst: Gp, base: Gp, d: int): (i: LoweredInstr)
  {
    Op(Lea, [Reg(Full(dst)), Mem(MemOperand(Some(Full(base)), None, 1, d, B64))])
  }

  lemma LeaValue(dst: Gp, base: Gp, d: int, s: State, e: Env)
    ensures Exec(LeaOf(dst, base, d), s, e).regs(dst) == (s.regs(base) + d) % TWO64
  {
    hide OperandOr0;
  }

  lemma LeaTransfer(a: Abs, dst: Gp, base: Gp, d: int)
    requires base in a.affinity && base != Rsp && base != Rbp
    ensures var a' := Transfer(a, LeaOf(dst, base, d));
            && dst in a'.affinity && a'.affinity[dst] == a.affinity[base]
            && dst !in a'.consts && dst !in a'.uppers
  {
    hide TransferMov;
    hide TransferXor;
    hide Without;
  }

  /** `lea dst, [base + d]` from a parameter pointer is right if and only if `d` is nothing. */
  lemma LeaExact(a: Abs, dst: Gp, base: Gp, d: int, entry: Entry, s: State)
    requires base in a.affinity && base != Rsp && base != Rbp && Right(a, entry, s)
    ensures StaysRight(a, LeaOf(dst, base, d), dst) <==> d % TWO64 == 0
  {
    hide Exec;
    hide Transfer;
    var i := LeaOf(dst, base, d);
    LeaTransfer(a, dst, base, d);
    forall s: State, e: Env ensures Exec(i, s, e).regs(dst) == (s.regs(base) + d) % TWO64 {
      LeaValue(dst, base, d, s, e);
    }
    if StaysRight(a, i, dst) {
      assert RegOk(a, entry, s, base);
      assert RegOk(Transfer(a, i), entry, Exec(i, s, Word0(0)), dst);
      AddsNothing(s.regs(base), d);
    } else {
      var entry', s', e' :| Right(a, entry', s') && !RegOk(Transfer(a, i), entry', Exec(i, s', e'), dst);
      assert RegOk(a, entry', s', base);
      AddsNothing(s'.regs(base), d);
    }
  }

  lemma AddsNothing(v: Word, d: int)
    ensures (v + d) % TWO64 == v <==> d % TWO64 == 0
  {
  }

  function NarrowMov(dst: Gp, src: Gp): (i: LoweredInstr)
  {
    Op(Mov, [Reg(Low32(dst)), Reg(Low32(src))])
  }

  lemma NarrowMovValue(dst: Gp, src: Gp, s: State, e: Env)
    ensures Exec(NarrowMov(dst, src), s, e).regs(dst) == s.regs(src) % TWO32
  {
    MovValue(NarrowMov(dst, src), s, e, dst);
    hide Exec;
  }

  lemma NarrowMovTransfer(a: Abs, dst: Gp, src: Gp)
    requires src in a.consts && src !in a.affinity
    ensures var a' := Transfer(a, NarrowMov(dst, src));
            && dst in a'.consts && a'.consts[dst] == a.consts[src] && dst !in a'.affinity
            && (dst in a'.uppers ==> src in a.uppers && a'.uppers[dst] == a.uppers[src])
  {
    hide TransferLea;
    hide TransferXor;
    hide Without;
  }

  /** A 32-bit copy of a known constant is right if and only if the constant fits 32 bits. */
  lemma NarrowCopyExact(a: Abs, dst: Gp, src: Gp, entry: Entry, s: State)
    requires src in a.consts && src !in a.affinity && Right(a, entry, s)
    ensures StaysRight(a, NarrowMov(dst, src), dst) <==> a.consts[src] < TWO32
  {
    hide Exec;
    hide Transfer;
    var i := NarrowMov(dst, src);
    NarrowMovTransfer(a, dst, src);
    forall s: State, e: Env ensures Exec(i, s, e).regs(dst) == s.regs(src) % TWO32 {
      NarrowMovValue(dst, src, s, e);
    }
    if StaysRight(a, i, dst) {
      assert RegOk(a, entry, s, src);
      assert RegOk(Transfer(a, i), entry, Exec(i, s, Word0(0)), dst);
    } else {
      var entry', s', e' :| Right(a, entry', s') && !RegOk(Transfer(a, i), entry', Exec(i, s', e'), dst);
      assert RegOk(a, entry', s', src);
    }
  }

  /** A guard of any width bounds the whole register if and only if it is unsigned and 64 bits wide. */
  lemma GuardWidthExact(m: Mnemonic, w: Width, n: nat)
    requires IsGuard(m) && 0 < n < Modulus(w) / 2
    ensures (forall v: Word :: !Holds(BranchCond(m).value, SubFlags(v % Modulus(w), n, w)) ==> v < n) <==>
              m != Jge && w == B64
  {
    if w == B64 {
      GuardExact(m, n);
      hide SubFlags;
      forall v: Word ensures SubFlags(v % Modulus(w), n, w) == SubFlags(v, n, B64) {
        assert v % Modulus(w) == v;
      }
    } else {
      var v: Word := Modulus(w);
      assert v % Modulus(w) == 0;
      CompareConditions(0, n, w);
      assert !Holds(BranchCond(m).value, SubFlags(v % Modulus(w), n, w));
    }
  }

  function CmovOf(cc: Cond, dst: Gp, src: Gp): (i: LoweredInstr)
  {
    Op(Cmov(cc), [Reg(Full(dst)), Reg(Full(src))])
  }

  function FlagsFor(cc: Cond): (f: Flags)
    ensures Holds(cc, f)
  {
    match cc
    case CcAE | CcA | CcGE | CcG | CcNE | CcNS => Flags(false, false, false, false)
    case CcB => Flags(true, false, false, false)
    case CcBE => Flags(true, false, false, false)
    case CcL => Flags(false, false, true, false)
    case CcLE => Flags(false, false, true, false)
    case CcE => Flags(false, true, false, false)
    case CcS => Flags(false, false, true, false)
  }

  lemma CmovValue(cc: Cond, dst: Gp, src: Gp, s: State, e: Env)
    ensures Exec(CmovOf(cc, dst, src), s, e).regs(dst) ==
            if Holds(cc, s.flags) then s.regs(src) else s.regs(dst)
  {
    hide Holds;
  }

  lemma CmovTransfer(a: Abs, cc: Cond, dst: Gp, src: Gp)
    ensures SameRegisterMaps(a, Transfer(a, CmovOf(cc, dst, src)))
  {
    hide TransferMov;
    hide TransferLea;
    hide TransferXor;
    hide Without;
  }

  /**
   A conditional move from a register nothing is known about keeps the pass right if and
   only if nothing is known about its destination either.
   */
  lemma ConditionalMoveExact(a: Abs, cc: Cond, dst: Gp, src: Gp, entry: Entry, s: State)
    requires NoFacts(a, src) && dst != src && Right(a, entry, s)
    requires dst in a.uppers ==> a.uppers[dst] < TWO64
    ensures StaysRight(a, CmovOf(cc, dst, src), dst) <==> NoFacts(a, dst)
  {
    hide Exec;
    hide Transfer;
    var i := CmovOf(cc, dst, src);
    CmovTransfer(a, cc, dst, src);
    if !NoFacts(a, dst) {
      var v: Word := if dst in a.uppers then TWO64 - 1 else (s.regs(dst) + 1) % TWO64;
      var t := s.(regs := SetReg(s.regs, src, v), flags := FlagsFor(cc));
      forall x: Gp ensures RegOk(a, entry, t, x) { assert RegOk(a, entry, s, x); }
      CmovValue(cc, dst, src, t, Word0(0));
      assert RegOk(a, entry, s, dst);
      assert Right(a, entry, t) && !RegOk(Transfer(a, i), entry, Exec(i, t, Word0(0)), dst);
    }
  }

  // ----- spill slots -----

  /** `mov qword [rbp + d], n` */
  function SlotSet(d: int, n: int): (i: LoweredInstr)
  {
    Op(Mov, [Mem(MemOperand(Some(Full(Rbp)), None, 1, d, B64)), Imm(n)])
  }

  /** Whatever the machine does, the pass stays right about the slot across `i`. */
  ghost predicate SlotStaysRight(a: Abs, i: LoweredInstr, t: Slot)
  {
    forall entry: Entry, s: State, e: Env | SlotOk(a, entry, s, t) :: SlotOk(Transfer(a, i), entry, Effect(i, s, e), t)
  }

  lemma SlotSetTransfer(a: Abs, d: int, n: int)
    ensures Transfer(a, SlotSet(d, n)).slots == a.slots
  {
    hide TransferLea;
    hide TransferXor;
    hide Without;
  }

  lemma SlotSetAddress(d: int, n: int, s: State, e: Env)
    ensures StoreRange(SlotSet(d, n), s) == Some((SlotAddress(s.regs, RbpSlot(d)), 8))
    ensures !IsWordSpill(SlotSet(d, n))
    ensures SlotAddress(Effect(SlotSet(d, n), s, e).regs, RbpSlot(d)) == SlotAddress(s.regs, RbpSlot(d))
  {
    SlotSetRange(d, n, s);
    SlotSetKeeps(d, n, s, e);
    hide StoreRange;
    hide Effect;
  }

  lemma SlotSetRange(d: int, n: int, s: State)
    ensures StoreRange(SlotSet(d, n), s) == Some((SlotAddress(s.regs, RbpSlot(d)), 8))
  {
    var i := SlotSet(d, n);
    assert AddressRegs(i, s) == s.regs;
    hide AddressRegs;
    hide EffectiveAddress;
    FrameAddress(s.regs, i.operands[0].mem);
  }

  lemma SlotSetKeeps(d: int, n: int, s: State, e: Env)
    ensures Effect(SlotSet(d, n), s, e).regs(Rbp) == s.regs(Rbp)
  {
    ExecFrame(SlotSet(d, n), s, Resolve(SlotSet(d, n), s, e), Rbp);
    hide Exec;
    hide MemoryAfter;
  }

  lemma ScribbledHasNoWord(mem: Memory, address: Word, v: Word)
    ensures LoadWord(Scribble(mem, address, 8, v), address).None?
  {
    OffsetOfByte(address, 0);
    assert ByteAt(address, 0) == address;
    assert Scribble(mem, address, 8, v)(ByteAt(address, 0)) == Cell(v, 8);
  }

  lemma SlotSetLoses(d: int, n: int, s: State, e: Env)
    ensures LoadWord(Effect(SlotSet(d, n), s, e).mem, SlotAddress(s.regs, RbpSlot(d))).None?
  {
    SlotSetAddress(d, n, s, e);
    ScribbledHasNoWord(s.mem, SlotAddress(s.regs, RbpSlot(d)), e.word);
    hide Exec;
    hide LoadWord;
    hide Scribble;
    hide SlotAddress;
    hide StoreRange;
    hide IsWordSpill;
    hide SlotSet;
  }

  /** A state in which slot `t` holds the word `v`. */
  function SlotHolding(t: Slot, v: Word): (s: State)
  {
    State(0, _ => 0, CLEAR, StoreWord(BLANK, SlotAddress(_ => 0, t), v))
  }

  /** An immediate store to a spill slot keeps the pass right about it if and only if nothing is known of it. */
  lemma SlotSetExact(a: Abs, d: int, n: int)
    ensures Tracked(a, SlotSet(d, n))
    ensures SlotStaysRight(a, SlotSet(d, n), RbpSlot(d)) <==> RbpSlot(d) !in a.slots
  {
    hide Transfer;
    hide Effect;
    hide LoadWord;
    hide StoreWord;
    hide SlotAddress;
    SlotSetTransfer(a, d, n);
    var i, t := SlotSet(d, n), RbpSlot(d);
    if t in a.slots {
      var entry: Entry, e := _ => 0, Word0(0);
      var s := SlotHolding(t, 0);
      LoadAfterStore(BLANK, SlotAddress(_ => 0, t), 0);
      assert SlotOk(a, entry, s, t);
      SlotSetLoses(d, n, s, e);
      SlotSetAddress(d, n, s, e);
      assert !SlotOk(Transfer(a, i), entry, Effect(i, s, e), t);
    }
  }

  // ----- whole programs -----

  /** `jmp access; xor rax, rax; access; inc rax; cmp rax, 8; jb access`. */
  const ENTERED_SIDEWAYS: Program := Program(
    [ Op(Jmp, []),
      Op(Xor, [Reg(Full(Rax)), Reg(Full(Rax))]),
      Op(Mov, [Reg(Full(Rcx)), At(Rdi, Rax)]),
      Op(Inc, [Reg(Full(Rax))]),
      Op(Cmp, [Reg(Full(Rax)), Imm(8)]),
      Op(Jb, []) ],
    [ Physical(0, Some(2)), Physical(1, None), Physical(2, None), Physical(3, None),
      Physical(4, None), Physical(5, Some(2)) ])

  lemma SidewaysRecorded()
    ensures PostTestFact(ENTERED_SIDEWAYS.code, 2, 2) == Some(Fact(Rax, 8))
  {
    var code := ENTERED_SIDEWAYS.code;
    assert ZeroInit(code, 1, Rax) == false && ZeroInit(code, 2, Rax);
    assert PostTestBound(code, 4, Rax, true) == Some(8);
    assert PostTestBound(code, 3, Rax, false) == Some(8);
    assert IndexGp(code[2].operands[1].mem) == Some(Rax);
    assert PostTestOperand(code, 2, code[2].operands[1]) == Some(Fact(Rax, 8));
  }

  lemma SidewaysTarget(k: nat)
    requires k == 0 || k == 5
    ensures Target(ENTERED_SIDEWAYS.physical, k) == Some(2)
  {
    var ph := ENTERED_SIDEWAYS.physical;
    var t := IndexOfAddress(ph, 2);
    assert ph[2].address == 2;
  }

  /** Entered past its initialiser, the recorded loop is visited with any index at all. */
  lemma SidewaysVisit(s: State, e: Env)
    requires s.pc == 0 && s.regs(Rax) == 100
    ensures Run(ENTERED_SIDEWAYS, s, [e]).pc == 2
    ensures Run(ENTERED_SIDEWAYS, s, [e]).regs(Rax) == 100
  {
    SidewaysTarget(0);
    hide Target;
    assert [e][..0] == [];
    assert Run(ENTERED_SIDEWAYS, s, []) == s;
  }

  /** `mov rax, 2; dec rax; access; test rdx, rdx; jnz dec`: the branch tests `rdx`, not the index. */
  const RETESTED: Program := Program(
    [ Op(Mov, [Reg(Full(Rax)), Imm(2)]),
      Op(Dec, [Reg(Full(Rax))]),
      Op(Mov, [Reg(Full(Rcx)), At(Rdi, Rax)]),
      Op(Test, [Reg(Full(Rdx)), Reg(Full(Rdx))]),
      Op(Jnz, []) ],
    [ Physical(0, None), Physical(1, None), Physical(2, None), Physical(3, None),
      Physical(4, Some(1)) ])

  lemma RetestedRecorded()
    ensures CountdownBound(RETESTED.code, 2, Rax) == Some(2)
  {
    var code := RETESTED.code;
    assert DecBefore(code, 2, 2, Rax) == Some(1);
    assert BackBranch(code, 4, Rax) == Some(4) && BackBranch(code, 3, Rax) == Some(4);
    assert CountdownInit(code, 1, Rax) == Some((0, 2));
  }

  lemma RetestedTarget()
    ensures Target(RETESTED.physical, 4) == Some(1)
  {
    var t := IndexOfAddress(RETESTED.physical, 1);
    assert RETESTED.physical[1].address == 1;
  }

  lemma RetestedDec(s: State, e: Env)
    requires s.pc == 1
    ensures var s' := Next(RETESTED, s, e);
            s'.pc == 2 && s'.regs(Rdx) == s.regs(Rdx) && s'.regs(Rax) == (s.regs(Rax) - 1) % TWO64
  {
    hide MemoryAfter;
    hide Target;
    assert s.regs(Rax) % TWO64 == s.regs(Rax);
  }

  lemma RetestedRest(s: State, e: Env)
    requires 2 <= s.pc <= 4 && s.regs(Rdx) == 1 && (s.pc == 4 ==> !s.flags.zf)
    ensures var s' := Next(RETESTED, s, e);
            && s'.pc == (if s.pc == 4 then 1 else s.pc + 1)
            && s'.regs(Rax) == s.regs(Rax) && s'.regs(Rdx) == 1
            && (s.pc == 3 ==> !s'.flags.zf)
  {
    hide *;
    RetestedCode();
    NextParts(RETESTED, s, e);
    if s.pc == 2 {
      RetestedLoads(s, e);
    } else if s.pc == 3 {
      RetestedTests(s, e);
    } else {
      RetestedJumps(s, e);
    }
  }

  lemma RetestedLoads(s: State, e: Env)
    requires s.pc == 2
    ensures |RETESTED.code| == 5 && NextPc(RETESTED, s, e) == 3
    ensures var t := Exec(RETESTED.code[2], s, Resolve(RETESTED.code[2], s, e));
            t.regs(Rax) == s.regs(Rax) && t.regs(Rdx) == s.regs(Rdx)
  {
    RetestedCode();
    hide Exec;
    hide Resolve;
    LoadKeeps(RETESTED.code[2], s, Resolve(RETESTED.code[2], s, e));
  }

  lemma RetestedTests(s: State, e: Env)
    requires s.pc == 3 && s.regs(Rdx) == 1
    ensures |RETESTED.code| == 5 && NextPc(RETESTED, s, e) == 4
    ensures var t := Exec(RETESTED.code[3], s, Resolve(RETESTED.code[3], s, e));
            t.regs == s.regs && !t.flags.zf
  {
    RetestedCode();
    hide Exec;
    hide Resolve;
    TestOne(RETESTED.code[3], s, Resolve(RETESTED.code[3], s, e));
  }

  lemma RetestedJumps(s: State, e: Env)
    requires s.pc == 4 && !s.flags.zf
    ensures |RETESTED.code| == 5 && NextPc(RETESTED, s, e) == 1
    ensures Exec(RETESTED.code[4], s, Resolve(RETESTED.code[4], s, e)) == s
  {
    RetestedCode();
    RetestedTarget();
    hide Exec;
    hide Resolve;
    hide Target;
    JumpKeeps(RETESTED.code[4], s, Resolve(RETESTED.code[4], s, e));
  }

  lemma NextParts(p: Program, s: State, e: Env)
    requires s.pc < |p.code|
    ensures var s', t := Next(p, s, e), Exec(p.code[s.pc], s, Resolve(p.code[s.pc], s, e));
            s'.regs == t.regs && s'.flags == t.flags && s'.pc == NextPc(p, s, e)
  {
    hide Exec;
    hide Resolve;
    hide MemoryAfter;
    hide NextPc;
  }

  lemma JumpKeeps(i: LoweredInstr, s: State, e: Env)
    requires i.mnemonic == Jnz
    ensures Exec(i, s, e) == s
  {
    hide OperandOr0;
  }

  lemma RetestedCode()
    ensures |RETESTED.code| == 5
    ensures RETESTED.code[2] == Op(Mov, [Reg(Full(Rcx)), At(Rdi, Rax)])
    ensures RETESTED.code[3] == Op(Test, [Reg(Full(Rdx)), Reg(Full(Rdx))])
    ensures RETESTED.code[4] == Op(Jnz, [])
  {
  }

  lemma LoadKeeps(i: LoweredInstr, s: State, e: Env)
    requires i == Op(Mov, [Reg(Full(Rcx)), At(Rdi, Rax)])
    ensures Exec(i, s, e).regs(Rax) == s.regs(Rax) && Exec(i, s, e).regs(Rdx) == s.regs(Rdx)
  {
    hide OperandOr0;
    hide Merged;
  }

  lemma TestOne(i: LoweredInstr, s: State, e: Env)
    requires i == Op(Test, [Reg(Full(Rdx)), Reg(Full(Rdx))]) && s.regs(Rdx) == 1
    ensures Exec(i, s, e).regs == s.regs && !Exec(i, s, e).flags.zf
  {
    assert 1 % TWO64 == 1;
  }

  lemma RetestedTurn(s: State, e1: Env, e2: Env, e3: Env, e4: Env)
    requires s.pc == 1 && s.regs(Rdx) == 1
    ensures var s' := Run(RETESTED, s, [e1, e2, e3, e4]);
            s'.pc == 1 && s'.regs(Rdx) == 1 && s'.regs(Rax) == (s.regs(Rax) - 1) % TWO64
  {
    hide Next;
    var s1 := Next(RETESTED, s, e1);
    var s2 := Next(RETESTED, s1, e2);
    var s3 := Next(RETESTED, s2, e3);
    RetestedDec(s, e1);
    RetestedRest(s1, e2);
    RetestedRest(s2, e3);
    RetestedRest(s3, e4);
    assert [e1][..0] == [] && Run(RETESTED, s, [e1]) == s1;
    assert [e1, e2][..1] == [e1] && Run(RETESTED, s, [e1, e2]) == s2;
    assert [e1, e2, e3][..2] == [e1, e2] && Run(RETESTED, s, [e1, e2, e3]) == s3;
    assert [e1, e2, e3, e4][..3] == [e1, e2, e3];
  }

  /** Two turns after `rax` was 2 the branch is still taken, and the access sees the wrapped index. */
  lemma RetestedWraps(s: State, e: Env)
    requires s.pc == 1 && s.regs(Rdx) == 1 && s.regs(Rax) == 2
    ensures var turn := [e, e, e, e];
            var s' := Next(RETESTED, Run(RETESTED, Run(RETESTED, s, turn), turn), e);
            s'.pc == 2 && s'.regs(Rax) == TWO64 - 1
  {
    hide Next;
    hide Run;
    RetestedTurn(s, e, e, e, e);
    var t := Run(RETESTED, s, [e, e, e, e]);
    RetestedTurn(t, e, e, e, e);
    RetestedDec(Run(RETESTED, t, [e, e, e, e]), e);
  }

  /** `xor rax, rax; access; add rax, 16; cmp rax, 64; jb access`: no recogniser matches the stride. */
  const STRIDED: Program := Program(
    [ Op(Xor, [Reg(Full(Rax)), Reg(Full(Rax))]),
      Op(Mov, [Reg(Full(Rcx)), At(Rdi, Rax)]),
      Op(Add, [Reg(Full(Rax)), Imm(16)]),
      Op(Cmp, [Reg(Full(Rax)), Imm(64)]),
      Op(Jb, []) ],
    [ Physical(0, None), Physical(1, None), Physical(2, None), Physical(3, None), Physical(4, Some(1)) ])

  lemma StridedUnmatched()
    ensures PostTestBound(STRIDED.code, 2, Rax, false).None?
  {
  }

  /** The constant of the first pass is recorded for every visit... */
  lemma ConstantRecorded()
    ensures Classify(At(Rdi, Rax).mem, AbsAt(STRIDED.code, ENTRY, 1), None)
            == Indexed("buffer", 1, 0, Some(0), None)
  {
    hide TransferMov;
    hide TransferLea;
    hide Without;
    var code := STRIDED.code;
    assert AbsAt(code, ENTRY, 0) == ENTRY;
    var a := Transfer(ENTRY, code[0]);
    assert AbsAt(code, ENTRY, 1) == a;
    assert Rax in a.consts && a.consts[Rax] == 0 && Rdi in a.affinity && a.affinity[Rdi] == "buffer";
    hide Transfer;
    assert IndexFact(a, Rax, None) == (Some(0), None);
  }

  lemma StridedTarget()
    ensures Target(STRIDED.physical, 4) == Some(1)
  {
    var t := IndexOfAddress(STRIDED.physical, 1);
    assert STRIDED.physical[1].address == 1;
  }

  lemma StridedAdd(s: State, e: Env)
    requires s.pc == 2 && s.regs(Rax) == 0
    ensures Next(STRIDED, s, e).pc == 3 && Next(STRIDED, s, e).regs(Rax) == 16
  {
    hide MemoryAfter;
    hide Target;
    assert STRIDED.code[2] == AddTo(Rax, 16);
    AddValue(Rax, 16, s, Resolve(STRIDED.code[2], s, e));
    hide Exec;
  }

  lemma StridedStart(s: State, e: Env)
    requires s.pc == 0 || (s.pc == 1 && s.regs(Rax) == 0)
    ensures Next(STRIDED, s, e).pc == s.pc + 1 && Next(STRIDED, s, e).regs(Rax) == 0
  {
    hide MemoryAfter;
    hide Target;
    hide AddTo;
  }

  lemma StridedCompare(s: State, e: Env)
    requires s.pc == 3 && s.regs(Rax) == 16
    ensures var s' := Next(STRIDED, s, e);
            s'.pc == 4 && s'.regs(Rax) == 16 && s'.flags == SubFlags(16, 64, B64)
  {
    hide MemoryAfter;
    hide Target;
    hide SubFlags;
    assert 16 % TWO64 == 16 && 64 % TWO64 == 64;
  }

  lemma StridedBranch(s: State, e: Env)
    requires s.pc == 4 && s.regs(Rax) == 16 && s.flags == SubFlags(16, 64, B64)
    ensures Next(STRIDED, s, e).pc == 1 && Next(STRIDED, s, e).regs(Rax) == 16
  {
    StridedTarget();
    hide MemoryAfter;
    hide Target;
    CompareConditions(16, 64, B64);
    hide SubFlags;
  }

  /** ...but five steps after entry the access is visited again, with index 16. */
  lemma ConstantOnBackEdge(s: State, e: Env)
    requires s.pc == 0
    ensures Run(STRIDED, s, [e, e]).pc == 2
    ensures var s' := Run(STRIDED, s, [e, e, e, e, e]); s'.pc == 1 && s'.regs(Rax) == 16
  {
    hide Next;
    var s1 := Next(STRIDED, s, e);
    var s2 := Next(STRIDED, s1, e);
    var s3 := Next(STRIDED, s2, e);
    var s4 := Next(STRIDED, s3, e);
    StridedStart(s, e);
    StridedStart(s1, e);
    StridedAdd(s2, e);
    StridedCompare(s3, e);
    StridedBranch(s4, e);
    assert [e][..0] == [] && Run(STRIDED, s, [e]) == s1;
    assert [e, e][..1] == [e] && Run(STRIDED, s, [e, e]) == s2;
    assert [e, e, e][..2] == [e, e] && Run(STRIDED, s, [e, e, e]) == s3;
    assert [e, e, e, e][..3] == [e, e, e] && Run(STRIDED, s, [e, e, e, e]) == s4;
    assert [e, e, e, e, e][..4] == [e, e, e, e];
  }
}
