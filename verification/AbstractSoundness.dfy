/**
 The collector's abstract state is right about the machine on every
 fall-through run, for every program whose instructions pass `Tracked`.
 */
module AbstractSoundness {
  import opened Basics
  import opened X86
  import opened Machine
  import opened Recognisers
  import opened MemoryEffects

  /** Values of the pointer parameters at entry, by name. */
  type Entry = string -> Word

  // ----- what the abstract state claims -----

  ghost predicate RegOk(a: Abs, entry: Entry, s: State, g: Gp)
  {
    && (g in a.consts ==> s.regs(g) == a.consts[g])
    && (g in a.uppers ==> s.regs(g) < a.uppers[g])
    && (g in a.affinity ==> s.regs(g) == entry(a.affinity[g]))
  }

  ghost predicate PendingOk(a: Abs, s: State)
  {
    a.pending.Some? && Holds(CcB, s.flags) ==> s.regs(a.pending.value.0) < a.pending.value.1
  }

  function SlotAddress(regs: RegFile, t: Slot): (a: Word)
  {
    match t
    case RbpSlot(d) => (regs(Rbp) + d) % TWO64
    case RspSlot(d) => (regs(Rsp) + d) % TWO64
  }

  ghost predicate SlotOk(a: Abs, entry: Entry, s: State, t: Slot)
  {
    t in a.slots ==> LoadWord(s.mem, SlotAddress(s.regs, t)) == Some(entry(a.slots[t]))
  }

  ghost predicate Sound(a: Abs, entry: Entry, s: State)
  {
    (forall g: Gp :: RegOk(a, entry, s, g)) && PendingOk(a, s) &&
    forall t: Slot :: SlotOk(a, entry, s, t)
  }

  // ----- the instructions the transfer function is right about -----

  predicate NoFacts(a: Abs, g: Gp)
  {
    g !in a.consts && g !in a.uppers && g !in a.affinity
  }

  predicate FullBase(m: MemOperand)
  {
    m.base.Some? ==> m.base.value.width == B64
  }

  predicate TrackedMov(a: Abs, i: LoweredInstr)
  {
    if |i.operands| < 2 then true
    else if i.operands[0].Mem? then
      var m := i.operands[0].mem;
      FrameSlot(m).Some? && GpOperand(i, 1).Some? && GpOperand(i, 1).value in a.affinity ==>
        m.width == B64 && FullBase(m) && i.operands[1].reg.width == B64
    else if GpOperand(i, 0).None? then true
    else
      var w := i.operands[0].reg.width;
      match i.operands[1]
      case Reg(r) =>
        r.storage.GpCell? ==>
          var src := r.storage.gp;
          || NoFacts(a, src)
          || (w == B64 && r.width == B64)
          || (w == B32 && r.width == B32 && src !in a.affinity &&
              (src in a.consts ==> a.consts[src] < TWO32))
      case Imm(n) => n >= 0 ==> (w == B64 && n < TWO64) || (w == B32 && n < TWO32)
      case Mem(m) =>
        FrameSlot(m).Some? && FrameSlot(m).value in a.slots ==>
          w == B64 && m.width == B64 && FullBase(m)
  }

  predicate TrackedLea(a: Abs, i: LoweredInstr)
  {
    |i.operands| >= 2 && i.operands[1].Mem? && GpOperand(i, 0).Some? &&
    Classify(i.operands[1].mem, a, None).Affine? ==>
      i.operands[0].reg.width == B64 && i.operands[1].mem.disp == 0 && FullBase(i.operands[1].mem)
  }

  predicate TrackedXor(a: Abs, i: LoweredInstr)
  {
    |i.operands| >= 2 && i.operands[1].Reg? && GpOperand(i, 0).Some? ==>
      if GpOperand(i, 1) == GpOperand(i, 0)
      then SameRegister(i) && i.operands[0].reg.width in {B32, B64}
      else GpOperand(i, 1).Some? || NoFacts(a, GpOperand(i, 0).value)
  }

  predicate TrackedCmp(i: LoweredInstr)
  {
    GpOperand(i, 0).Some? && ImmOperand(i, 1).Some? && ImmOperand(i, 1).value >= 0 ==>
      i.operands[0].reg.width == B64 && ImmOperand(i, 1).value < TWO64
  }

  predicate Tracked(a: Abs, i: LoweredInstr)
  {
    && InSubset(i.mnemonic)
    && (Clobbers(i, Rbp) ==> forall t | t in a.slots :: t.RspSlot?)
    && (Clobbers(i, Rsp) ==> forall t | t in a.slots :: t.RbpSlot?)
    && match i.mnemonic
       case Mov | Movabs => TrackedMov(a, i)
       case Lea => TrackedLea(a, i)
       case Xor => TrackedXor(a, i)
       case Cmp => TrackedCmp(i)
       case Jge => a.pending.None?
       case Push | Pop => NoFacts(a, Rsp)
       case Cmov(_) => GpOperand(i, 0).Some? ==> NoFacts(a, GpOperand(i, 0).value)
       case Inc | Dec | Add | Sub | Shl | Shr =>
         GpOperand(i, 0).Some? ==> GpOperand(i, 0).value !in a.affinity
       case _ => true
  }

  /** The slot a `mov` to the frame redefines. */
  function OwnSlot(i: LoweredInstr): (t: Option<Slot>)
  {
    if IsWordSpill(i) && GpOperand(i, 1).Some? then FrameSlot(i.operands[0].mem) else None
  }

  /** What the step stores stays clear of every other live spill slot. */
  ghost predicate FrameSafe(a: Abs, i: LoweredInstr, s: State)
  {
    StoreRange(i, s).Some? ==>
      forall t, k | t in Transfer(a, i).slots && Some(t) != OwnSlot(i) && 0 <= k < 8 ::
        Offset(StoreRange(i, s).value.0, ByteAt(SlotAddress(s.regs, t), k))
          >= StoreRange(i, s).value.1
  }

  // ----- memory -----

  lemma OffsetOfByte(address: Word, k: nat)
    requires k < TWO64
    ensures Offset(address, ByteAt(address, k)) == k
  {
    hide Without;
  }

  lemma LoadAfterStore(mem: Memory, address: Word, v: Word)
    ensures LoadWord(StoreWord(mem, address, v), address) == Some(v)
  {
    hide Without;
    forall k | 0 <= k < 8
      ensures StoreWord(mem, address, v)(ByteAt(address, k)) == Cell(v, k)
    {
      OffsetOfByte(address, k);
    }
    assert ByteAt(address, 0) == address;
  }

  lemma LoadFramed(mem: Memory, mem': Memory, at: Word)
    requires forall k | 0 <= k < 8 :: mem'(ByteAt(at, k)) == mem(ByteAt(at, k))
    ensures LoadWord(mem', at) == LoadWord(mem, at)
  {
    hide Without;
    assert ByteAt(at, 0) == at;
  }

  lemma FrameAddress(regs: RegFile, m: MemOperand)
    requires FrameSlot(m).Some? && FullBase(m)
    ensures EffectiveAddress(regs, m) == SlotAddress(regs, FrameSlot(m).value)
  {
    hide Without;
  }

  // ----- one step, slot by slot and register by register -----

  /** Bytes outside the stored range keep their cells. */
  lemma MemoryKept(i: LoweredInstr, s: State, e: Env, x: Word)
    requires InSubset(i.mnemonic)
    requires StoreRange(i, s).Some? ==>
               Offset(StoreRange(i, s).value.0, x) >= StoreRange(i, s).value.1
    ensures MemoryAfter(i, s, e)(x) == s.mem(x)
  {
    hide Without;
    hide EffectiveAddress;
    hide ReadView;
  }

  lemma TrackedFrame(a: Abs, i: LoweredInstr, t: Slot)
    requires Tracked(a, i) && t in a.slots
    ensures InSubset(i.mnemonic)
    ensures t.RbpSlot? ==> !Clobbers(i, Rbp)
    ensures t.RspSlot? ==> !Clobbers(i, Rsp)
  {
    hide Without;
    hide Clobbers;
    hide TrackedMov;
    hide TrackedLea;
    hide TrackedXor;
  }

  lemma SlotStays(a: Abs, i: LoweredInstr, s: State, e: Env, t: Slot)
    requires Tracked(a, i) && t in a.slots
    ensures SlotAddress(Effect(i, s, e).regs, t) == SlotAddress(s.regs, t)
  {
    hide Without;
    hide Exec;
    hide MemoryAfter;
    hide Resolve;
    hide Clobbers;
    hide Tracked;
    TrackedFrame(a, i, t);
    ExecFrame(i, s, Resolve(i, s, e), Rbp);
    ExecFrame(i, s, Resolve(i, s, e), Rsp);
  }

  lemma SlotKept(a: Abs, i: LoweredInstr, entry: Entry, s: State, e: Env, t: Slot)
    requires Tracked(a, i) && FrameSafe(a, i, s)
    requires t in a.slots && SlotOk(a, entry, s, t)
    requires t in Transfer(a, i).slots && Some(t) != OwnSlot(i)
    ensures LoadWord(Effect(i, s, e).mem, SlotAddress(Effect(i, s, e).regs, t)) ==
            Some(entry(a.slots[t]))
  {
    hide *;
    SlotStays(a, i, s, e, t);
    SlotBytesKept(a, i, s, e, t);
    LoadFramed(s.mem, Effect(i, s, e).mem, SlotAddress(s.regs, t));
    SlotOkMeaning(a, entry, s, t);
  }

  lemma SlotOkMeaning(a: Abs, entry: Entry, s: State, t: Slot)
    requires t in a.slots && SlotOk(a, entry, s, t)
    ensures LoadWord(s.mem, SlotAddress(s.regs, t)) == Some(entry(a.slots[t]))
  {
    hide Without;
  }

  lemma SlotBytesKept(a: Abs, i: LoweredInstr, s: State, e: Env, t: Slot)
    requires Tracked(a, i) && FrameSafe(a, i, s) && t in a.slots
    requires t in Transfer(a, i).slots && Some(t) != OwnSlot(i)
    ensures forall k | 0 <= k < 8 ::
              Effect(i, s, e).mem(ByteAt(SlotAddress(s.regs, t), k)) ==
              s.mem(ByteAt(SlotAddress(s.regs, t), k))
  {
    hide Without;
    TrackedFrame(a, i, t);
    hide Tracked;
    hide Exec;
    hide MemoryAfter;
    hide StoreRange;
    hide Transfer;
    hide InSubset;
    hide SlotAddress;
    hide OwnSlot;
    hide ByteAt;
    forall k | 0 <= k < 8
      ensures MemoryAfter(i, s, e)(ByteAt(SlotAddress(s.regs, t), k)) ==
              s.mem(ByteAt(SlotAddress(s.regs, t), k))
    {
      MemoryKept(i, s, e, ByteAt(SlotAddress(s.regs, t), k));
    }
  }

  lemma SlotsElsewhere(a: Abs, i: LoweredInstr, t: Slot)
    requires Tracked(a, i) && t in Transfer(a, i).slots && Some(t) != OwnSlot(i)
    ensures t in a.slots && Transfer(a, i).slots[t] == a.slots[t]
  {
    hide Clobbers;
    hide Without;
    hide FrameSlot;
    hide TrackedLea;
    hide TrackedXor;
    if i.mnemonic.Mov? || i.mnemonic.Movabs? {
      TransferCases(a, i);
      hide Transfer;
      hide CopyTo;
      hide SetTo;
      hide ReloadTo;
      hide Forget;
      MovSlots(a.(pending := None), i);
    } else {
      SlotsUntouched(a, i);
    }
  }

  lemma SlotsUntouched(a: Abs, i: LoweredInstr)
    requires !(i.mnemonic.Mov? || i.mnemonic.Movabs?)
    ensures Transfer(a, i).slots == a.slots
  {
    hide Without;
    hide Classify;
    hide GpOperand;
    hide ImmOperand;
  }

  lemma MovSlots(a: Abs, i: LoweredInstr)
    ensures !(|i.operands| >= 2 && i.operands[0].Mem? && i.operands[1].Reg?) ==>
              TransferMov(a, i).slots == a.slots
  {
    hide Without;
    hide FrameSlot;
    hide GpOperand;
  }

  lemma SpillEffect(i: LoweredInstr, s: State, e: Env)
    requires IsWordSpill(i)
    ensures Effect(i, s, e).regs == s.regs
    ensures Effect(i, s, e).mem ==
            StoreWord(s.mem, EffectiveAddress(s.regs, i.operands[0].mem),
                      ReadView(s.regs, i.operands[1].reg))
  {
    hide EffectiveAddress;
    hide ReadView;
    hide StoreWord;
  }

  lemma SpillTransfer(a: Abs, i: LoweredInstr, t: Slot)
    requires OwnSlot(i) == Some(t) && t in Transfer(a, i).slots
    ensures GpOperand(i, 1).value in a.affinity
    ensures Transfer(a, i).slots[t] == a.affinity[GpOperand(i, 1).value]
  {
    hide Transfer;
    hide Without;
    hide FrameSlot;
    TransferCases(a, i);
  }

  lemma SpillWidths(a: Abs, i: LoweredInstr)
    requires Tracked(a, i) && OwnSlot(i).Some? && GpOperand(i, 1).value in a.affinity
    ensures FullBase(i.operands[0].mem) && i.operands[1].reg.width == B64
  {
    hide Clobbers;
    hide FrameSlot;
  }

  lemma SlotSpilled(a: Abs, i: LoweredInstr, entry: Entry, s: State, e: Env, t: Slot)
    requires Tracked(a, i) && OwnSlot(i) == Some(t) && t in Transfer(a, i).slots
    requires forall g: Gp :: RegOk(a, entry, s, g)
    ensures SlotOk(Transfer(a, i), entry, Effect(i, s, e), t)
  {
    hide Tracked;
    hide Transfer;
    hide Effect;
    hide LoadWord;
    hide StoreWord;
    hide EffectiveAddress;
    hide SlotAddress;
    hide FrameSlot;
    SpillTransfer(a, i, t);
    SpillWidths(a, i);
    SpillEffect(i, s, e);
    var m := i.operands[0].mem;
    var src := GpOperand(i, 1).value;
    assert RegOk(a, entry, s, src);
    FrameAddress(s.regs, m);
    LoadAfterStore(s.mem, EffectiveAddress(s.regs, m), s.regs(src));
  }

  predicate SameFacts(a: Abs, b: Abs, g: Gp)
  {
    && (g in a.consts <==> g in b.consts) && (g in a.consts ==> a.consts[g] == b.consts[g])
    && (g in a.uppers <==> g in b.uppers) && (g in a.uppers ==> a.uppers[g] == b.uppers[g])
    && (g in a.affinity <==> g in b.affinity)
    && (g in a.affinity ==> a.affinity[g] == b.affinity[g])
  }

  predicate SameRegisterMaps(a: Abs, b: Abs)
  {
    a.consts == b.consts && a.uppers == b.uppers && a.affinity == b.affinity
  }

  lemma SameMapsSameFacts(a: Abs, b: Abs, g: Gp)
    requires SameRegisterMaps(a, b)
    ensures SameFacts(a, b, g)
  {
    hide Without;
  }

  lemma ForgetElsewhere(a: Abs, dst: Gp, g: Gp)
    requires g != dst
    ensures SameFacts(a, Forget(a, dst), g)
  {
    hide Without;
  }

  lemma CopyElsewhere(a: Abs, dst: Gp, src: Gp, g: Gp)
    requires g != dst
    ensures SameFacts(a, CopyTo(a, dst, src), g)
  {
    hide Without;
  }

  lemma SetElsewhere(a: Abs, dst: Gp, n: int, slot: Option<Slot>, g: Gp)
    requires g != dst
    ensures SameFacts(a, SetTo(a, dst, n), g) && SameFacts(a, ReloadTo(a, dst, slot), g)
  {
    hide Without;
  }

  lemma MovElsewhere(a: Abs, i: LoweredInstr, g: Gp)
    requires GpOperand(i, 0) != Some(g)
    ensures SameFacts(a, TransferMov(a, i), g)
  {
    hide Without;
    hide FrameSlot;
    hide GpOperand;
    hide SameFacts;
    hide CopyTo;
    hide SetTo;
    hide ReloadTo;
    hide Forget;
    var t := TransferMov(a, i);
    if |i.operands| >= 2 && GpOperand(i, 0).Some? {
      var dst := GpOperand(i, 0).value;
      match i.operands[1]
      case Reg(_) =>
        if GpOperand(i, 1).Some? { CopyElsewhere(a, dst, GpOperand(i, 1).value, g); }
        ForgetElsewhere(a, dst, g);
      case Imm(n) => SetElsewhere(a, dst, n, None, g);
      case Mem(m) => SetElsewhere(a, dst, 0, FrameSlot(m), g);
    } else if GpOperand(i, 0).Some? {
      ForgetElsewhere(a, GpOperand(i, 0).value, g);
    }
    if SameRegisterMaps(a, t) { SameMapsSameFacts(a, t, g); }
  }

  lemma LeaXorElsewhere(a: Abs, i: LoweredInstr, g: Gp)
    requires GpOperand(i, 0) != Some(g)
    ensures SameFacts(a, TransferLea(a, i), g) && SameFacts(a, TransferXor(a, i), g)
  {
    hide Without;
    hide Classify;
  }

  lemma MovKeepsPending(a: Abs, i: LoweredInstr)
    ensures TransferMov(a, i).pending == a.pending
  {
    hide Without;
    hide Copied;
    hide FrameSlot;
    hide GpOperand;
  }

  lemma PendingCleared(a: Abs, i: LoweredInstr)
    ensures TransferMov(a, i).pending == a.pending
    ensures TransferLea(a, i).pending == a.pending
    ensures TransferXor(a, i).pending == a.pending
  {
    hide Without;
    hide Classify;
    hide FrameSlot;
    hide GpOperand;
    hide TransferMov;
    MovKeepsPending(a, i);
  }

  predicate IsArithmetic(m: Mnemonic)
  {
    m.Inc? || m.Dec? || m.Add? || m.Sub? || m.Shl? || m.Shr?
  }

  predicate IsForgetting(m: Mnemonic)
  {
    m.Pop? || m.Movzx? || m.Movsx? || m.Movsxd? || m.And? || m.Or?
  }

  predicate IsDerived(m: Mnemonic)
  {
    m.Mov? || m.Movabs? || m.Lea? || m.Xor?
  }

  /** Which of the five transfer functions an instruction uses. */
  lemma TransferCases(a: Abs, i: LoweredInstr)
    ensures var quiet := a.(pending := None);
            && (IsArithmetic(i.mnemonic) ==> Transfer(a, i) == ForgetRange(quiet, i))
            && (IsForgetting(i.mnemonic) ==> Transfer(a, i) == ForgetDst(quiet, i))
            && (i.mnemonic.Mov? || i.mnemonic.Movabs? ==> Transfer(a, i) == TransferMov(quiet, i))
            && (i.mnemonic.Lea? ==> Transfer(a, i) == TransferLea(quiet, i))
            && (i.mnemonic.Xor? ==> Transfer(a, i) == TransferXor(quiet, i))
  {
    hide TransferMov;
    hide TransferLea;
    hide TransferXor;
    hide ForgetDst;
    hide ForgetRange;
    hide GpOperand;
  }

  lemma ForgettingElsewhere(a: Abs, i: LoweredInstr, g: Gp)
    requires GpOperand(i, 0) != Some(g)
    ensures SameFacts(a, ForgetDst(a, i), g) && SameFacts(a, ForgetRange(a, i), g)
  {
    hide Without;
    hide GpOperand;
  }

  lemma DerivedElsewhere(a: Abs, i: LoweredInstr, g: Gp)
    requires IsDerived(i.mnemonic) || IsArithmetic(i.mnemonic) || IsForgetting(i.mnemonic)
    requires GpOperand(i, 0) != Some(g)
    ensures SameFacts(a, Transfer(a, i), g)
  {
    hide Transfer;
    hide TransferMov;
    hide TransferLea;
    hide TransferXor;
    hide ForgetDst;
    hide ForgetRange;
    hide GpOperand;
    TransferCases(a, i);
    var quiet := a.(pending := None);
    MovElsewhere(quiet, i, g);
    LeaXorElsewhere(quiet, i, g);
    ForgettingElsewhere(quiet, i, g);
  }

  lemma ClobbersDestination(i: LoweredInstr, g: Gp)
    requires IsDerived(i.mnemonic) || IsArithmetic(i.mnemonic) || IsForgetting(i.mnemonic)
    requires !Clobbers(i, g)
    ensures GpOperand(i, 0) != Some(g)
  {
    hide GpOperand;
  }

  lemma QuietElsewhere(a: Abs, i: LoweredInstr, g: Gp)
    requires InSubset(i.mnemonic) && !IsArithmetic(i.mnemonic) && !IsForgetting(i.mnemonic)
    requires !IsDerived(i.mnemonic) && !(IsGuard(i.mnemonic) && a.pending.Some?)
    ensures SameRegisterMaps(a, Transfer(a, i))
  {
    hide Without;
    hide GpOperand;
    hide ImmOperand;
  }

  /** A guard's fall-through is the only way to learn about a register the instruction leaves alone. */
  lemma FactsElsewhere(a: Abs, i: LoweredInstr, g: Gp)
    requires InSubset(i.mnemonic) && !Clobbers(i, g)
    requires !(IsGuard(i.mnemonic) && a.pending.Some?)
    ensures SameFacts(a, Transfer(a, i), g)
  {
    hide *;
    if IsDerived(i.mnemonic) || IsArithmetic(i.mnemonic) || IsForgetting(i.mnemonic) {
      ClobbersDestination(i, g);
      DerivedElsewhere(a, i, g);
    } else {
      QuietElsewhere(a, i, g);
      SameMapsSameFacts(a, Transfer(a, i), g);
    }
  }

  predicate FallsThrough(i: LoweredInstr, s: State)
  {
    i.mnemonic != Jmp && i.mnemonic != Ret &&
    (BranchCond(i.mnemonic).Some? ==> !Holds(BranchCond(i.mnemonic).value, s.flags))
  }

  lemma RegKept(a: Abs, i: LoweredInstr, entry: Entry, s: State, e: Env, g: Gp)
    requires Tracked(a, i) && FallsThrough(i, s) && !Clobbers(i, g)
    requires RegOk(a, entry, s, g) && PendingOk(a, s)
    ensures RegOk(Transfer(a, i), entry, Effect(i, s, e), g)
  {
    hide Without;
    ExecFrame(i, s, Resolve(i, s, e), g);
    hide Exec;
    hide Resolve;
    hide Clobbers;
    if IsGuard(i.mnemonic) && a.pending.Some? {
    } else {
      FactsElsewhere(a, i, g);
      hide Transfer;
    }
  }

  lemma DestinationForgotten(a: Abs, i: LoweredInstr, g: Gp)
    requires GpOperand(i, 0) == Some(g)
    ensures NoFacts(ForgetDst(a.(pending := None), i), g)
    ensures g !in a.affinity ==> NoFacts(ForgetRange(a.(pending := None), i), g)
  {
    hide Without;
    hide GpOperand;
  }

  lemma StillForgotten(a: Abs, i: LoweredInstr, g: Gp)
    requires NoFacts(a, g)
    ensures NoFacts(ForgetDst(a.(pending := None), i), g)
    ensures SameRegisterMaps(a, Transfer(a, i)) ==> NoFacts(Transfer(a, i), g)
  {
    hide Without;
    hide GpOperand;
    hide Transfer;
  }

  lemma TrackedWrites(a: Abs, i: LoweredInstr, g: Gp)
    requires Tracked(a, i) && Clobbers(i, g) && !IsDerived(i.mnemonic)
    ensures IsArithmetic(i.mnemonic) ==> GpOperand(i, 0) == Some(g) && g !in a.affinity
    ensures IsForgetting(i.mnemonic) ==> GpOperand(i, 0) == Some(g) || NoFacts(a, g)
    ensures !IsArithmetic(i.mnemonic) && !IsForgetting(i.mnemonic) ==>
              (i.mnemonic.Cmov? || i.mnemonic.Push?) && NoFacts(a, g)
  {
    hide GpOperand;
    hide TrackedMov;
    hide TrackedLea;
    hide TrackedXor;
    hide TrackedCmp;
  }

  lemma WrittenForgotten(a: Abs, i: LoweredInstr, g: Gp)
    requires Tracked(a, i) && Clobbers(i, g) && !IsDerived(i.mnemonic)
    ensures NoFacts(Transfer(a, i), g)
  {
    hide *;
    TrackedWrites(a, i, g);
    TransferCases(a, i);
    if GpOperand(i, 0) == Some(g) { DestinationForgotten(a, i, g); }
    if NoFacts(a, g) { StillForgotten(a, i, g); }
    if !IsArithmetic(i.mnemonic) && !IsForgetting(i.mnemonic) { PushAndCmovQuiet(a, i); }
  }

  lemma PushAndCmovQuiet(a: Abs, i: LoweredInstr)
    requires i.mnemonic.Cmov? || i.mnemonic.Push?
    ensures SameRegisterMaps(a, Transfer(a, i))
  {
  }

  // ----- the three instructions that establish facts about their destination -----

  lemma MovValue(i: LoweredInstr, s: State, e: Env, g: Gp)
    requires (i.mnemonic.Mov? || i.mnemonic.Movabs?) && GpOperand(i, 0) == Some(g)
    ensures Exec(i, s, e).regs(g) ==
            Merged(s.regs(g), i.operands[0].reg, OperandOr0(s, i, 1, e))
  {
    hide Merged;
    hide OperandOr0;
  }

  lemma CopyOk(a: Abs, entry: Entry, s: State, s': State, dst: Gp, src: Gp)
    requires RegOk(a, entry, s, src)
    requires NoFacts(a, src) || s'.regs(dst) == s.regs(src) ||
             (s'.regs(dst) <= s.regs(src) && src !in a.affinity && src !in a.consts)
    ensures RegOk(CopyTo(a.(pending := None), dst, src), entry, s', dst)
  {
    hide Without;
  }

  lemma MovFromRegister(a: Abs, i: LoweredInstr, entry: Entry, s: State, e: Env, g: Gp)
    requires i.mnemonic.Mov? || i.mnemonic.Movabs?
    requires GpOperand(i, 0) == Some(g) && |i.operands| >= 2 && GpOperand(i, 1).Some?
    requires TrackedMov(a, i) && RegOk(a, entry, s, GpOperand(i, 1).value)
    ensures RegOk(Transfer(a, i), entry, Exec(i, s, e), g)
  {
    hide Exec;
    hide Transfer;
    hide CopyTo;
    hide FrameSlot;
    TransferCases(a, i);
    MovValue(i, s, e, g);
    var src := GpOperand(i, 1).value;
    var v := ReadView(s.regs, i.operands[1].reg);
    assert OperandOr0(s, i, 1, e) == v;
    CopyOk(a, entry, s, Exec(i, s, e), g, src);
  }

  lemma SetOk(a: Abs, entry: Entry, s: State, dst: Gp, n: int)
    requires n >= 0 ==> s.regs(dst) == n
    ensures RegOk(SetTo(a, dst, n), entry, s, dst)
  {
    hide Without;
  }

  lemma MovImmediate(a: Abs, i: LoweredInstr, entry: Entry, s: State, e: Env, g: Gp)
    requires i.mnemonic.Mov? || i.mnemonic.Movabs?
    requires GpOperand(i, 0) == Some(g) && ImmOperand(i, 1).Some? && TrackedMov(a, i)
    ensures RegOk(Transfer(a, i), entry, Exec(i, s, e), g)
  {
    hide Exec;
    hide Transfer;
    hide SetTo;
    hide FrameSlot;
    TransferCases(a, i);
    MovValue(i, s, e, g);
    SetOk(a.(pending := None), entry, Exec(i, s, e), g, ImmOperand(i, 1).value);
  }

  lemma ReloadOk(a: Abs, entry: Entry, s: State, dst: Gp, slot: Option<Slot>)
    requires slot.Some? && slot.value in a.slots ==> s.regs(dst) == entry(a.slots[slot.value])
    ensures RegOk(ReloadTo(a, dst, slot), entry, s, dst)
  {
    hide Without;
  }

  lemma ReloadValue(a: Abs, i: LoweredInstr, entry: Entry, s: State, e: Env)
    requires (i.mnemonic.Mov? || i.mnemonic.Movabs?) && |i.operands| >= 2 && i.operands[1].Mem?
    requires i.operands[1].mem.width == B64 && FullBase(i.operands[1].mem)
    requires FrameSlot(i.operands[1].mem).Some?
    requires FrameSlot(i.operands[1].mem).value in a.slots
    requires SlotOk(a, entry, s, FrameSlot(i.operands[1].mem).value)
    ensures OperandOr0(s, i, 1, Resolve(i, s, e)) == entry(a.slots[FrameSlot(i.operands[1].mem).value])
  {
    hide LoadWord;
    hide EffectiveAddress;
    hide SlotAddress;
    hide FrameSlot;
    FrameAddress(s.regs, i.operands[1].mem);
  }

  lemma MovReload(a: Abs, i: LoweredInstr, entry: Entry, s: State, e: Env, g: Gp)
    requires i.mnemonic.Mov? || i.mnemonic.Movabs?
    requires GpOperand(i, 0) == Some(g) && |i.operands| >= 2 && i.operands[1].Mem?
    requires TrackedMov(a, i) && forall t: Slot :: SlotOk(a, entry, s, t)
    ensures RegOk(Transfer(a, i), entry, Exec(i, s, Resolve(i, s, e)), g)
  {
    hide Exec;
    hide Transfer;
    hide ReloadTo;
    hide FrameSlot;
    hide SlotOk;
    hide Resolve;
    hide OperandOr0;
    TransferCases(a, i);
    var e' := Resolve(i, s, e);
    MovValue(i, s, e', g);
    var slot := FrameSlot(i.operands[1].mem);
    if slot.Some? && slot.value in a.slots {
      assert SlotOk(a, entry, s, slot.value);
      ReloadValue(a, i, entry, s, e);
    }
    ReloadOk(a.(pending := None), entry, Exec(i, s, e'), g, slot);
  }

  predicate AffineBase(m: MemOperand, a: Abs)
  {
    FrameSlot(m).None? && m.index.None? && m.base.Some? && m.base.value.storage.GpCell? &&
    m.base.value.storage.gp in a.affinity
  }

  lemma ClassifyAffine(m: MemOperand, a: Abs, induction: Option<Fact>)
    ensures Classify(m, a, induction).Affine? <==> AffineBase(m, a)
    ensures AffineBase(m, a) ==>
              Classify(m, a, induction) == Affine(a.affinity[m.base.value.storage.gp], m.disp)
  {
    hide FrameSlot;
    hide IndexFact;
  }

  lemma LeaCases(a: Abs, i: LoweredInstr, g: Gp)
    requires GpOperand(i, 0) == Some(g)
    ensures |i.operands| >= 2 && i.operands[1].Mem? && AffineBase(i.operands[1].mem, a) ==>
              var t := TransferLea(a, i);
              && t.affinity == a.affinity[g := a.affinity[i.operands[1].mem.base.value.storage.gp]]
              && g !in t.consts && g !in t.uppers
    ensures !(|i.operands| >= 2 && i.operands[1].Mem? && AffineBase(i.operands[1].mem, a)) ==>
              NoFacts(TransferLea(a, i), g)
  {
    hide Without;
    hide Classify;
    hide FrameSlot;
    var cleared := a.(consts := Without(a.consts, g), uppers := Without(a.uppers, g));
    if |i.operands| >= 2 && i.operands[1].Mem? {
      ClassifyAffine(i.operands[1].mem, cleared, None);
    }
  }

  lemma LeaWritten(a: Abs, i: LoweredInstr, entry: Entry, s: State, e: Env, g: Gp)
    requires i.mnemonic.Lea? && GpOperand(i, 0) == Some(g) && TrackedLea(a, i)
    requires forall x: Gp :: RegOk(a, entry, s, x)
    ensures RegOk(Transfer(a, i), entry, Exec(i, s, e), g)
  {
    hide Transfer;
    hide TransferLea;
    hide Classify;
    hide FrameSlot;
    var quiet := a.(pending := None);
    TransferCases(a, i);
    LeaCases(quiet, i, g);
    if |i.operands| >= 2 && i.operands[1].Mem? && AffineBase(i.operands[1].mem, a) {
      var m := i.operands[1].mem;
      ClassifyAffine(m, a, None);
      assert RegOk(a, entry, s, m.base.value.storage.gp);
      assert EffectiveAddress(s.regs, m) == s.regs(m.base.value.storage.gp);
    }
  }

  lemma XorWritten(a: Abs, i: LoweredInstr, entry: Entry, s: State, e: Env, g: Gp)
    requires i.mnemonic.Xor? && GpOperand(i, 0) == Some(g) && TrackedXor(a, i)
    ensures RegOk(Transfer(a, i), entry, Exec(i, s, e), g)
  {
    hide Without;
  }

  lemma MovWritten(a: Abs, i: LoweredInstr, entry: Entry, s: State, e: Env, g: Gp)
    requires Tracked(a, i) && Clobbers(i, g) && Sound(a, entry, s)
    requires i.mnemonic.Mov? || i.mnemonic.Movabs?
    ensures RegOk(Transfer(a, i), entry, Effect(i, s, e), g)
  {
    hide Without;
    hide Exec;
    hide Resolve;
    var e' := Resolve(i, s, e);
    if |i.operands| < 2 {
    } else if i.operands[1].Imm? {
      MovImmediate(a, i, entry, s, e', g);
    } else if i.operands[1].Mem? {
      MovReload(a, i, entry, s, e, g);
    } else if GpOperand(i, 1).Some? {
      assert RegOk(a, entry, s, GpOperand(i, 1).value);
      MovFromRegister(a, i, entry, s, e', g);
    }
  }

  lemma RegWritten(a: Abs, i: LoweredInstr, entry: Entry, s: State, e: Env, g: Gp)
    requires Tracked(a, i) && Clobbers(i, g) && Sound(a, entry, s)
    ensures RegOk(Transfer(a, i), entry, Effect(i, s, e), g)
  {
    hide Without;
    hide Exec;
    var e' := Resolve(i, s, e);
    if i.mnemonic.Mov? || i.mnemonic.Movabs? {
      hide Transfer;
      hide Effect;
      hide Tracked;
      MovWritten(a, i, entry, s, e, g);
    } else if i.mnemonic.Lea? {
      LeaWritten(a, i, entry, s, e', g);
    } else if i.mnemonic.Xor? {
      XorWritten(a, i, entry, s, e', g);
    } else {
      hide Clobbers;
      hide Tracked;
      hide Transfer;
      WrittenForgotten(a, i, g);
    }
  }

  lemma CompareFlags(i: LoweredInstr, s: State, e: Env, g: Gp, n: nat)
    requires i.mnemonic == Cmp && GpOperand(i, 0) == Some(g) && ImmOperand(i, 1) == Some(n)
    requires i.operands[0].reg.width == B64 && n < TWO64
    ensures Exec(i, s, e).flags.cf == (s.regs(g) < n)
    ensures Exec(i, s, e).regs(g) == s.regs(g)
  {
    hide Without;
    assert OperandOr0(s, i, 1, e) == n && OperationWidth(i) == B64;
    assert OperandOr0(s, i, 0, e) == s.regs(g);
    assert s.regs(g) % TWO64 == s.regs(g) && n % TWO64 == n;
  }

  lemma PendingAfterCompare(a: Abs, i: LoweredInstr, s: State, e: Env)
    requires i.mnemonic == Cmp && TrackedCmp(i)
    ensures PendingOk(Transfer(a, i), Effect(i, s, e))
  {
    hide Without;
    hide Exec;
    hide MemoryAfter;
    hide Resolve;
    if Transfer(a, i).pending.Some? {
      CompareFlags(i, s, Resolve(i, s, e), GpOperand(i, 0).value, ImmOperand(i, 1).value);
    }
  }

  lemma NoPendingAfter(a: Abs, i: LoweredInstr)
    requires i.mnemonic != Cmp
    ensures Transfer(a, i).pending.None?
  {
    hide Without;
    hide TransferMov;
    hide TransferLea;
    hide TransferXor;
    PendingCleared(a.(pending := None), i);
  }

  // ----- soundness of one step and of fall-through runs -----

  lemma TransferSound(a: Abs, i: LoweredInstr, entry: Entry, s: State, e: Env)
    requires Sound(a, entry, s) && Tracked(a, i) && FallsThrough(i, s) && FrameSafe(a, i, s)
    ensures Sound(Transfer(a, i), entry, Effect(i, s, e))
  {
    hide Without;
    hide Transfer;
    hide Effect;
    hide RegOk;
    hide FrameSafe;
    var a', s' := Transfer(a, i), Effect(i, s, e);
    forall g: Gp ensures RegOk(a', entry, s', g) {
      hide Clobbers;
      hide Tracked;
      if Clobbers(i, g) { RegWritten(a, i, entry, s, e, g); }
      else { RegKept(a, i, entry, s, e, g); }
    }
    forall t: Slot ensures SlotOk(a', entry, s', t) {
      hide Tracked;
      if t in a'.slots {
        if OwnSlot(i) == Some(t) {
          SlotSpilled(a, i, entry, s, e, t);
        } else {
          SlotsElsewhere(a, i, t);
          SlotKept(a, i, entry, s, e, t);
        }
      }
    }
    if i.mnemonic == Cmp {
      PendingAfterCompare(a, i, s, e);
    } else {
      NoPendingAfter(a, i);
    }
  }

  /** Every step runs the next instruction in line, tracked and clear of the frame. */
  ghost predicate FallThroughRun(p: Program, a: Abs, s: State, es: seq<Env>)
    requires |es| <= |p.code|
  {
    |es| == 0 ||
    var n := |es| - 1;
    var now, t := AbsAt(p.code, a, n), Run(p, s, es[..n]);
    && FallThroughRun(p, a, s, es[..n])
    && Tracked(now, p.code[n]) && FallsThrough(p.code[n], t) && FrameSafe(now, p.code[n], t)
  }

  lemma TrackedListed(a: Abs, i: LoweredInstr)
    requires Tracked(a, i)
    ensures !i.mnemonic.Other?
  {
    hide TrackedMov;
    hide TrackedLea;
    hide TrackedXor;
    hide TrackedCmp;
    hide Clobbers;
  }

  lemma StepSound(p: Program, a: Abs, entry: Entry, s: State, e: Env)
    requires s.pc < |p.code| && Sound(a, entry, s)
    requires Tracked(a, p.code[s.pc]) && FallsThrough(p.code[s.pc], s)
    requires FrameSafe(a, p.code[s.pc], s)
    ensures Next(p, s, e).pc == s.pc + 1
    ensures Sound(Transfer(a, p.code[s.pc]), entry, Next(p, s, e))
  {
    hide Without;
    hide Sound;
    hide Transfer;
    hide Effect;
    hide Tracked;
    hide FrameSafe;
    var i := p.code[s.pc];
    TrackedListed(a, i);
    TransferSound(a, i, entry, s, e);
    SoundIgnoresPc(Transfer(a, i), entry, Effect(i, s, e), Next(p, s, e));
  }

  /**
   On every fall-through run of a tracked program each constant, each exclusive
   upper bound, each parameter pointer and each spill slot of the abstract state
   is right about the machine.
   */
  lemma {:induction false} LinearSound(p: Program, a: Abs, entry: Entry, s: State, es: seq<Env>)
    requires |es| <= |p.code| && s.pc == 0 && Sound(a, entry, s)
    requires FallThroughRun(p, a, s, es)
    ensures Run(p, s, es).pc == |es|
    ensures Sound(AbsAt(p.code, a, |es|), entry, Run(p, s, es))
  {
    hide Without;
    hide Sound;
    hide Transfer;
    hide Next;
    hide Tracked;
    hide FrameSafe;
    hide FallsThrough;
    if |es| > 0 {
      var n := |es| - 1;
      LinearSound(p, a, entry, s, es[..n]);
      StepSound(p, AbsAt(p.code, a, n), entry, Run(p, s, es[..n]), es[n]);
    }
  }

  lemma SoundIgnoresPc(a: Abs, entry: Entry, s: State, s': State)
    requires Sound(a, entry, s) && s' == s.(pc := s'.pc)
    ensures Sound(a, entry, s')
  {
    hide Without;
    forall g: Gp ensures RegOk(a, entry, s', g) { assert RegOk(a, entry, s, g); }
    forall t: Slot ensures SlotOk(a, entry, s', t) { assert SlotOk(a, entry, s, t); }
  }

  // ----- recorded addresses -----

  /** The address operand uses full registers and a real scale, as 64-bit addressing does. */
  predicate FullAddress(m: MemOperand)
  {
    FullBase(m) && m.scale >= 1 && (m.index.Some? ==> m.index.value.width == B64)
  }

  /** What a recorded address says about the machine address of its operand. */
  ghost predicate AddressOk(addr: AccessAddr, m: MemOperand, entry: Entry, s: State)
  {
    match addr
    case Affine(base, off) => EffectiveAddress(s.regs, m) == (entry(base) + off) % TWO64
    case Indexed(base, scale, disp, c, max) =>
      var index := ViewOr0(s.regs, m.index);
      && EffectiveAddress(s.regs, m) == (entry(base) + index * scale + disp) % TWO64
      && (c.Some? ==> index == c.value) && (max.Some? ==> index < max.value)
    case _ => true
  }

  lemma FullView(regs: RegFile, r: Register)
    requires r.width == B64 && r.storage.GpCell?
    ensures ReadView(regs, r) == regs(r.storage.gp)
  {
  }

  lemma ClassifySound(a: Abs, m: MemOperand, induction: Option<Fact>, entry: Entry, s: State)
    requires (forall g: Gp :: RegOk(a, entry, s, g)) && FullAddress(m)
    requires induction.Some? && IndexGp(m) == Some(induction.value.gp) ==>
               s.regs(induction.value.gp) < induction.value.bound
    ensures AddressOk(Classify(m, a, induction), m, entry, s)
  {
    hide Without;
    hide ReadView;
    if Classify(m, a, induction).Affine? || Classify(m, a, induction).Indexed? {
      assert RegOk(a, entry, s, m.base.value.storage.gp);
      FullView(s.regs, m.base.value);
      if IndexGp(m).Some? {
        assert RegOk(a, entry, s, IndexGp(m).value);
        FullView(s.regs, m.index.value);
      }
    }
  }

  // ----- entry -----

  /**
   Where the calling conventions pass parameter `k`: section 3.2.3 of the System V
   AMD64 ABI, and the x64 calling convention of Windows.
   */
  function PassedIn(abi: Abi, k: nat): (g: Option<Gp>)
  {
    match abi
    case SysV =>
      if k == 0 then Some(Rdi) else if k == 1 then Some(Rsi) else if k == 2 then Some(Rdx)
      else if k == 3 then Some(Rcx) else if k == 4 then Some(R8) else if k == 5 then Some(R9) else None
    case Win64 =>
      if k == 0 then Some(Rcx) else if k == 1 then Some(Rdx) else if k == 2 then Some(R8)
      else if k == 3 then Some(R9) else None
  }

  lemma RegistersPassed(abi: Abi, k: nat)
    ensures k < |ArgumentRegisters(abi)| <==> PassedIn(abi, k).Some?
    ensures k < |ArgumentRegisters(abi)| ==> PassedIn(abi, k) == Some(ArgumentRegisters(abi)[k])
  {
  }

  /** The machine at the routine's entry: pointer parameters are where the convention passes them. */
  ghost predicate AtEntry(params: seq<Param>, abi: Abi, entry: Entry, s: State)
  {
    s.pc == 0 &&
    forall k | 0 <= k < |params| && params[k].isPointer && PassedIn(abi, k).Some? ::
      s.regs(PassedIn(abi, k).value) == entry(params[k].name)
  }

  lemma {:induction false} SeededOk(
    params: seq<Param>, abi: Abi, entry: Entry, s: State, n: nat, g: Gp)
    requires AtEntry(params, abi, entry, s)
    requires n <= |params| && n <= |ArgumentRegisters(abi)|
    requires g in Seeded(params, ArgumentRegisters(abi), n)
    ensures s.regs(g) == entry(Seeded(params, ArgumentRegisters(abi), n)[g])
  {
    if n > 0 { RegistersPassed(abi, n - 1); }
    if n > 0 && !(params[n - 1].isPointer && ArgumentRegisters(abi)[n - 1] == g) {
      SeededOk(params, abi, entry, s, n - 1, g);
    }
  }

  lemma {:induction false} SeededExact(params: seq<Param>, abi: Abi, n: nat, k: nat)
    requires n <= |params| && n <= |ArgumentRegisters(abi)| && k < |ArgumentRegisters(abi)|
    ensures var g, m := ArgumentRegisters(abi)[k], Seeded(params, ArgumentRegisters(abi), n);
            && (g in m <==> k < n && params[k].isPointer)
            && (g in m ==> m[g] == params[k].name)
    ensures forall g | g in Seeded(params, ArgumentRegisters(abi), n) :: g in ArgumentRegisters(abi)
  {
    if n > 0 { SeededExact(params, abi, n - 1, k); }
  }

  /** A register is taken for a parameter exactly if that parameter is a pointer passed in it. */
  lemma InitialExact(params: seq<Param>, abi: Abi, g: Gp)
    ensures g in Initial(params, abi).affinity <==>
              exists k | 0 <= k < |params| :: PassedIn(abi, k) == Some(g) && params[k].isPointer
    ensures forall k | 0 <= k < |params| && params[k].isPointer && PassedIn(abi, k).Some? ::
              var g := PassedIn(abi, k).value;
              g in Initial(params, abi).affinity && Initial(params, abi).affinity[g] == params[k].name
    ensures g in Initial(params, abi).affinity ==> g in ArgumentRegisters(abi)
  {
    var regs := ArgumentRegisters(abi);
    var n := if |params| < |regs| then |params| else |regs|;
    SeededExact(params, abi, n, 0);
    forall k: nat
      ensures PassedIn(abi, k).Some? <==> k < |regs|
      ensures k < |regs| ==> PassedIn(abi, k) == Some(regs[k])
      ensures k < |regs| ==> (regs[k] in Seeded(params, regs, n) <==> k < n && params[k].isPointer)
      ensures k < |regs| && regs[k] in Seeded(params, regs, n) ==> Seeded(params, regs, n)[regs[k]] == params[k].name
    {
      RegistersPassed(abi, k);
      if k < |regs| { SeededExact(params, abi, n, k); }
    }
    hide Seeded;
    hide PassedIn;
  }

  /** Seeding the parameter registers starts the pass in a state that is right. */
  lemma InitialSound(params: seq<Param>, abi: Abi, entry: Entry, s: State)
    requires AtEntry(params, abi, entry, s)
    ensures Sound(Initial(params, abi), entry, s)
  {
    var a := Initial(params, abi);
    var regs := ArgumentRegisters(abi);
    forall g: Gp ensures RegOk(a, entry, s, g) {
      if g in a.affinity {
        SeededOk(params, abi, entry, s, if |params| < |regs| then |params| else |regs|, g);
      }
    }
  }
}
