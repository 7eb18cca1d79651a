/**
 The AAPCS64 walk over a lowered body (crates/semasm-aarch64/src/abi.rs) and what a
 clean report says about the stack pointer of a straight-line run
 (section 5.2.2.1 of AAPCS64, IHI 0055B).
 */
module Aapcs64 {
  import opened Basics

  /** A general register by number (30 is LR), the stack pointer, or the flags. */
  datatype Storage = Gp(n: nat) | Sp | Nzcv

  datatype Operand = Reg(reg: Storage) | Mem(base: Option<Storage>, disp: int) | Imm(value: int)

  datatype Kind = Load | Store | Binary | Return | Unknown | OtherKind

  datatype Mnemonic = Str | Stp | Ldr | Ldp | Add | Sub | Bl | Ret | OtherOp

  datatype Instr = Instr(mnemonic: Mnemonic, kind: Kind, operands: seq<Operand>)

  const LR: nat := 30

  predicate NonVolatile(g: nat)
  {
    19 <= g <= 30
  }

  // ----- one instruction -----

  /** The first memory operand. */
  function MemOf(ops: seq<Operand>): (m: Option<Operand>)
    ensures m.Some? ==> m.value.Mem?
  {
    if ops == [] then None else if ops[0].Mem? then Some(ops[0]) else MemOf(ops[1..])
  }

  predicate SpBased(i: Instr)
  {
    MemOf(i.operands).Some? && MemOf(i.operands).value.base == Some(Sp)
  }

  predicate Transfers(m: Mnemonic)
  {
    m in {Str, Stp, Ldr, Ldp}
  }

  /** The immediate an `add` or `sub` takes, in the three- or two-operand form. */
  function Amount(i: Instr): (n: Option<int>)
  {
    if |i.operands| > 1 && i.operands[1].Imm? then Some(i.operands[1].value)
    else if |i.operands| > 2 && i.operands[1].Reg? && i.operands[2].Imm? then Some(i.operands[2].value)
    else None
  }

  predicate AdjustsSp(i: Instr)
  {
    i.mnemonic in {Add, Sub} && |i.operands| > 0 && i.operands[0] == Reg(Sp) && Amount(i).Some?
  }

  /** Growth of the stack the walk charges to an instruction. */
  function SpChange(i: Instr): (d: int)
  {
    if Transfers(i.mnemonic) then (if SpBased(i) then -MemOf(i.operands).value.disp else 0)
    else if AdjustsSp(i) then (if i.mnemonic == Sub then Amount(i).value else -Amount(i).value)
    else 0
  }

  predicate NamesGp(i: Instr, g: nat)
  {
    exists k | 0 <= k < |i.operands| :: i.operands[k] == Reg(Gp(g))
  }

  predicate NamesAnyGp(i: Instr)
  {
    exists k | 0 <= k < |i.operands| :: i.operands[k].Reg? && i.operands[k].reg.Gp?
  }

  /** Stores general registers through SP. */
  predicate Saves(i: Instr)
  {
    i.kind == Store && SpBased(i) && NamesAnyGp(i)
  }

  predicate Restores(i: Instr)
  {
    i.kind == Load && SpBased(i) && NamesAnyGp(i)
  }

  /** Kinds the epilogue scan passes over. */
  predicate Skips(i: Instr)
  {
    i.kind in {Return, Binary, Unknown}
  }

  /** The registers of section 5.1.1 of AAPCS64 a routine must keep, the frame pointer 29 and LR 30 among them. */
  lemma NonVolatileExact(g: nat)
    ensures NonVolatile(g) <==> g in {19, 20, 21, 22, 23, 24, 25, 26, 27, 28, 29, LR}
  {
  }

  /** The forms that move SP: an immediate subtracted or added in either form, and a transfer by its displacement. */
  lemma SpChangeForms(kind: Kind, r: Storage, n: int)
    ensures SpChange(Instr(Sub, kind, [Reg(Sp), Imm(n)])) == n
    ensures SpChange(Instr(Add, kind, [Reg(Sp), Imm(n)])) == -n
    ensures SpChange(Instr(Sub, kind, [Reg(Sp), Reg(r), Imm(n)])) == n
    ensures SpChange(Instr(Add, kind, [Reg(Sp), Reg(r), Imm(n)])) == -n
    ensures forall m | Transfers(m) :: SpChange(Instr(m, kind, [Reg(r), Mem(Some(Sp), n)])) == -n
    ensures r != Sp ==> SpChange(Instr(Sub, kind, [Reg(r), Imm(n)])) == 0
    ensures forall m | m in {Bl, Ret, OtherOp} :: SpChange(Instr(m, kind, [Reg(Sp), Imm(n)])) == 0
  {
    var ops := [Reg(r), Mem(Some(Sp), n)];
    assert MemOf(ops[1..]) == Some(ops[1]);
    assert MemOf(ops) == Some(ops[1]);
  }

  // ----- register scans -----

  ghost predicate Written(body: seq<Instr>, g: nat)
  {
    NonVolatile(g) && exists i | 0 <= i < |body| :: NamesGp(body[i], g)
  }

  /** The first block of consecutive saves is `from..to`. */
  ghost predicate SaveBlock(body: seq<Instr>, from: nat, to: nat)
  {
    && from <= to <= |body|
    && (forall i | 0 <= i < from :: !Saves(body[i]))
    && (forall i | from <= i < to :: Saves(body[i]))
    && (to < |body| ==> from < to && !Saves(body[to]))
  }

  ghost predicate SavedIn(body: seq<Instr>, from: nat, to: nat, g: nat)
    requires to <= |body|
  {
    exists i | from <= i < to :: NamesGp(body[i], g)
  }

  /** The last stretch of restores and skipped kinds starts at `from`. */
  ghost predicate RestoreTail(body: seq<Instr>, from: nat)
  {
    && from <= |body|
    && (forall i | from <= i < |body| :: Skips(body[i]) || Restores(body[i]))
    && (from > 0 ==> !Skips(body[from - 1]) && !Restores(body[from - 1]))
  }

  ghost predicate RestoredIn(body: seq<Instr>, from: nat, g: nat)
    requires from <= |body|
  {
    exists i | from <= i < |body| :: !Skips(body[i]) && NamesGp(body[i], g)
  }

  /** Stored through SP in the save block. */
  ghost predicate Saved(body: seq<Instr>, g: nat)
  {
    exists from: nat, to: nat :: SaveBlock(body, from, to) && SavedIn(body, from, to, g)
  }

  /** Loaded through SP in the restore tail. */
  ghost predicate Restored(body: seq<Instr>, g: nat)
  {
    exists from: nat :: RestoreTail(body, from) && RestoredIn(body, from, g)
  }

  /** General registers an instruction names. */
  method Targets(i: Instr) returns (gs: set<nat>)
    ensures forall g :: g in gs <==> NamesGp(i, g)
  {
    gs := {};
    for k := 0 to |i.operands|
      invariant forall g :: g in gs <==> exists j | 0 <= j < k :: i.operands[j] == Reg(Gp(g))
    {
      if i.operands[k].Reg? && i.operands[k].reg.Gp? { gs := gs + {i.operands[k].reg.n}; }
    }
  }

  method WrittenNonVolatile(body: seq<Instr>) returns (out: set<nat>)
    ensures forall g :: g in out <==> Written(body, g)
  {
    hide NamesGp;
    out := {};
    for i := 0 to |body|
      invariant forall g :: g in out <==> NonVolatile(g) && exists j | 0 <= j < i :: NamesGp(body[j], g)
    {
      var gs := Targets(body[i]);
      out := out + set g | g in gs && NonVolatile(g);
    }
  }

  method PrologueSaved(body: seq<Instr>) returns (out: set<nat>)
    ensures forall g :: g in out <==> Saved(body, g)
  {
    hide NamesGp;
    hide Saves;
    hide Saved;
    out := {};
    var i: nat := 0;
    ghost var from: nat := 0;
    var open := false;
    while i < |body| && (Saves(body[i]) || !open)
      invariant i <= |body| && from <= i && (open <==> from < i)
      invariant forall k | 0 <= k < from :: !Saves(body[k])
      invariant forall k | from <= k < i :: Saves(body[k])
      invariant forall g :: g in out <==> SavedIn(body, from, i, g)
    {
      if Saves(body[i]) {
        var gs := Targets(body[i]);
        out := out + gs;
        open := true;
      } else {
        from := i + 1;
      }
      i := i + 1;
    }
    forall g ensures SavedIn(body, from, i, g) <==> Saved(body, g) {
      SavedMeaning(body, from, i, g);
    }
  }

  method EpilogueRestored(body: seq<Instr>) returns (out: set<nat>)
    ensures forall g :: g in out <==> Restored(body, g)
  {
    hide NamesGp;
    hide Restores;
    hide Skips;
    hide Restored;
    out := {};
    var i: nat := |body|;
    while i > 0
      invariant i <= |body|
      invariant forall k | i <= k < |body| :: Skips(body[k]) || Restores(body[k])
      invariant forall g :: g in out <==> RestoredIn(body, i, g)
    {
      if !Skips(body[i - 1]) {
        if !Restores(body[i - 1]) { break; }
        var gs := Targets(body[i - 1]);
        out := out + gs;
      }
      i := i - 1;
    }
    forall g ensures RestoredIn(body, i, g) <==> Restored(body, g) {
      RestoredMeaning(body, i, g);
    }
  }

  lemma SaveBlockUnique(body: seq<Instr>, a: nat, b: nat, c: nat, d: nat)
    requires SaveBlock(body, a, b) && SaveBlock(body, c, d)
    ensures a < b || c < d ==> a == c && b == d
  {
    hide Saves;
    assert (a < b ==> Saves(body[a])) && (c < d ==> Saves(body[c]));
  }

  lemma SavedMeaning(body: seq<Instr>, from: nat, to: nat, g: nat)
    requires SaveBlock(body, from, to)
    ensures SavedIn(body, from, to, g) <==> Saved(body, g)
  {
    hide NamesGp;
    if Saved(body, g) {
      var a: nat, b: nat :| SaveBlock(body, a, b) && SavedIn(body, a, b, g);
      SaveBlockUnique(body, from, to, a, b);
    }
  }

  lemma RestoreTailUnique(body: seq<Instr>, a: nat, b: nat)
    requires RestoreTail(body, a) && RestoreTail(body, b)
    ensures a == b
  {
    hide Skips;
    hide Restores;
  }

  lemma RestoredMeaning(body: seq<Instr>, from: nat, g: nat)
    requires RestoreTail(body, from)
    ensures RestoredIn(body, from, g) <==> Restored(body, g)
  {
    hide NamesGp;
    if Restored(body, g) {
      var a: nat :| RestoreTail(body, a) && RestoredIn(body, a, g);
      RestoreTailUnique(body, from, a);
    }
  }

  // ----- the walk -----

  datatype Finding =
    | StackAlignCall(at: nat) | StackBalanceRet(at: nat)
    | NotPreserved(reg: nat) | NotRestored(reg: nat) | LrClobbered

  datatype CallSite = CallSite(index: nat, delta: int)

  datatype AbiReport = AbiReport(findings: set<Finding>, isLeaf: bool, finalDelta: int, callSites: seq<CallSite>)

  /** Net growth charged to the first `n` instructions. */
  function Delta(body: seq<Instr>, n: nat): (d: int)
    requires n <= |body|
  {
    if n == 0 then 0 else Delta(body, n - 1) + SpChange(body[n - 1])
  }

  ghost predicate AlignFinding(body: seq<Instr>, n: nat, i: nat)
    requires n <= |body|
  {
    i < n && body[i].mnemonic == Bl && Delta(body, i) % 16 != 0
  }

  ghost predicate BalanceFinding(body: seq<Instr>, n: nat, i: nat)
    requires n <= |body|
  {
    i < n && body[i].mnemonic == Ret && Delta(body, i) != 0
  }

  /** The findings of the stack walk over the first `n` instructions. */
  ghost predicate WalkFindings(body: seq<Instr>, n: nat, fs: set<Finding>)
    requires n <= |body|
  {
    forall f :: f in fs <==>
      (f.StackAlignCall? && AlignFinding(body, n, f.at)) || (f.StackBalanceRet? && BalanceFinding(body, n, f.at))
  }

  method Walk(body: seq<Instr>)
    returns (fs: set<Finding>, delta: int, sites: seq<CallSite>, leaf: bool, lrSaved: bool)
    ensures WalkFindings(body, |body|, fs) && delta == Delta(body, |body|)
    ensures forall s :: s in sites <==>
              s.index < |body| && body[s.index].mnemonic == Bl && s.delta == Delta(body, s.index)
    ensures leaf <==> forall i | 0 <= i < |body| :: body[i].mnemonic != Bl
    ensures lrSaved <==> exists i | 0 <= i < |body| :: Saves(body[i]) && NamesGp(body[i], LR)
  {
    hide SpChange;
    hide NamesGp;
    hide Saves;
    fs, delta, sites, leaf, lrSaved := {}, 0, [], true, false;
    for i := 0 to |body|
      invariant WalkFindings(body, i, fs) && delta == Delta(body, i)
      invariant forall s :: s in sites <==>
                  s.index < i && body[s.index].mnemonic == Bl && s.delta == Delta(body, s.index)
      invariant leaf <==> forall k | 0 <= k < i :: body[k].mnemonic != Bl
      invariant lrSaved <==> exists k | 0 <= k < i :: Saves(body[k]) && NamesGp(body[k], LR)
    {
      if body[i].mnemonic == Bl {
        leaf := false;
        sites := sites + [CallSite(i, delta)];
        if delta % 16 != 0 { fs := fs + {StackAlignCall(i)}; }
      }
      if body[i].mnemonic == Ret && delta != 0 { fs := fs + {StackBalanceRet(i)}; }
      if Saves(body[i]) {
        var gs := Targets(body[i]);
        if LR in gs { lrSaved := true; }
      }
      delta := delta + SpChange(body[i]);
    }
  }

  /** Every `bl` and `ret` meets the stack rule as the walk counts it. */
  ghost predicate StackRule(body: seq<Instr>)
  {
    && (forall i | 0 <= i < |body| && body[i].mnemonic == Bl :: Delta(body, i) % 16 == 0)
    && (forall i | 0 <= i < |body| && body[i].mnemonic == Ret :: Delta(body, i) == 0)
  }

  /** Every non-volatile register named is in the save block and the restore tail. */
  ghost predicate SavedRule(body: seq<Instr>)
  {
    forall g | Written(body, g) :: Saved(body, g) && Restored(body, g)
  }

  /**
   The report is clean exactly when the stack rule and the saved-register rule hold;
   the separate check for a clobbered LR never decides.
   */
  method Analyze(body: seq<Instr>) returns (r: AbiReport)
    ensures r.findings == {} <==> StackRule(body) && SavedRule(body)
    ensures LrClobbered in r.findings ==> NotPreserved(LR) in r.findings
    ensures r.finalDelta == Delta(body, |body|)
    ensures forall s :: s in r.callSites <==>
              s.index < |body| && body[s.index].mnemonic == Bl && s.delta == Delta(body, s.index)
    ensures r.isLeaf <==> forall i | 0 <= i < |body| :: body[i].mnemonic != Bl
  {
    hide *;
    var fs, delta, sites, leaf, lrSaved := Walk(body);
    var written := WrittenNonVolatile(body);
    var saved := PrologueSaved(body);
    var restored := EpilogueRestored(body);
    var lost := set g | g in written && g !in saved :: NotPreserved(g);
    var kept := set g | g in written && g !in restored :: NotRestored(g);
    var lr := if !leaf && !lrSaved && LR in written then {LrClobbered} else {};
    if Saved(body, LR) { LrRedundant(body); }
    StackClean(body, fs);
    SavedRuleUnfolds(body);
    r := AbiReport(fs + lost + kept + lr, leaf, delta, sites);
    assert lost == {} <==> forall g | g in written :: g in saved by {
      assert forall g | g in written && g !in saved :: NotPreserved(g) in lost;
    }
    assert kept == {} <==> forall g | g in written :: g in restored by {
      assert forall g | g in written && g !in restored :: NotRestored(g) in kept;
    }
    assert lr != {} ==> NotPreserved(LR) in lost;
    WalkNeverLr(body, fs);
    assert r.findings == {} <==> fs == {} && lost == {} && kept == {} && lr == {};
  }

  lemma WalkNeverLr(body: seq<Instr>, fs: set<Finding>)
    requires WalkFindings(body, |body|, fs)
    ensures LrClobbered !in fs
  {
  }

  lemma StackClean(body: seq<Instr>, fs: set<Finding>)
    requires WalkFindings(body, |body|, fs)
    ensures fs == {} <==> StackRule(body)
  {
    hide Delta;
    if fs == {} {
      forall i | 0 <= i < |body| && body[i].mnemonic == Bl ensures Delta(body, i) % 16 == 0 {
        assert StackAlignCall(i) !in fs;
      }
      forall i | 0 <= i < |body| && body[i].mnemonic == Ret ensures Delta(body, i) == 0 {
        assert StackBalanceRet(i) !in fs;
      }
    }
  }

  lemma SavedRuleUnfolds(body: seq<Instr>)
    ensures SavedRule(body) <==> forall g | Written(body, g) :: Saved(body, g) && Restored(body, g)
  {
  }

  /** A register in the save block was saved somewhere: the LR check adds nothing. */
  lemma LrRedundant(body: seq<Instr>)
    requires Saved(body, LR)
    ensures exists i | 0 <= i < |body| :: Saves(body[i]) && NamesGp(body[i], LR)
  {
    hide Saves;
    hide NamesGp;
    var from: nat, to: nat :| SaveBlock(body, from, to) && SavedIn(body, from, to, LR);
    var i :| from <= i < to && NamesGp(body[i], LR);
    assert Saves(body[i]);
  }

  // ----- the machine's stack pointer -----

  /** Gives SP a value in a way the walk does not follow, as `mov sp, x29` does. */
  predicate SetsSp(i: Instr)
  {
    && !Transfers(i.mnemonic) && !AdjustsSp(i) && i.kind in {Load, Store, Binary}
    && |i.operands| > 0 && i.operands[0] == Reg(Sp)
  }

  /**
   Stack pointer after an instruction of a straight-line run: a transfer moves it only
   with write-back, an `add` or `sub` by its immediate if it starts from SP; what
   another register brings in is not known here.
   */
  predicate MovesSp(i: Instr, writeBack: bool, before: int, after: int)
  {
    if Transfers(i.mnemonic) then
      after == (if SpBased(i) && writeBack then before + MemOf(i.operands).value.disp else before)
    else if AdjustsSp(i) then
      (i.operands[1] == Reg(Sp) || i.operands[1].Imm?) ==>
        after == (if i.mnemonic == Sub then before - Amount(i).value else before + Amount(i).value)
    else SetsSp(i) || after == before
  }

  /** SP accesses with an offset write back, and SP is set from nothing but itself. */
  predicate Faithful(i: Instr, writeBack: bool)
  {
    && (Transfers(i.mnemonic) && SpBased(i) && MemOf(i.operands).value.disp != 0 ==> writeBack)
    && (AdjustsSp(i) ==> i.operands[1] == Reg(Sp) || i.operands[1].Imm?)
    && !SetsSp(i)
  }

  /** The values of SP along a straight-line run of the body. */
  ghost predicate SpRun(body: seq<Instr>, wb: seq<bool>, sps: seq<int>)
  {
    && |wb| == |body| && |sps| == |body| + 1
    && forall i, j | 0 <= i < j <= |body| && j == i + 1 :: MovesSp(body[i], wb[i], sps[i], sps[j])
  }

  lemma FaithfulStep(i: Instr, writeBack: bool, before: int, after: int)
    requires Faithful(i, writeBack) && MovesSp(i, writeBack, before, after)
    ensures after == before - SpChange(i)
  {
    hide MemOf;
    hide Amount;
  }

  /** The walk's delta is how far SP has moved. */
  lemma {:induction false} DeltaIsSp(body: seq<Instr>, wb: seq<bool>, sps: seq<int>, n: nat)
    requires SpRun(body, wb, sps) && n <= |body|
    requires forall i | 0 <= i < n :: Faithful(body[i], wb[i])
    ensures sps[n] == sps[0] - Delta(body, n)
  {
    hide SpChange;
    hide Faithful;
    hide MovesSp;
    if n > 0 {
      var m := n - 1;
      DeltaIsSp(body, wb, sps, m);
      assert MovesSp(body[m], wb[m], sps[m], sps[n]);
      FaithfulStep(body[m], wb[m], sps[m], sps[n]);
    }
  }

  /**
   In a body the walk reads faithfully, the stack rule holds exactly when SP is 16-byte
   aligned at every `bl` and back at its entry value at every `ret`.
   */
  lemma StackRuleMeaning(body: seq<Instr>, wb: seq<bool>, sps: seq<int>)
    requires SpRun(body, wb, sps) && sps[0] % 16 == 0
    requires forall i | 0 <= i < |body| :: Faithful(body[i], wb[i])
    ensures StackRule(body) <==>
              && (forall i | 0 <= i < |body| && body[i].mnemonic == Bl :: sps[i] % 16 == 0)
              && (forall i | 0 <= i < |body| && body[i].mnemonic == Ret :: sps[i] == sps[0])
  {
    assert |sps| == |body| + 1;
    hide Delta;
    hide Faithful;
    hide SpRun;
    forall i | 0 <= i < |body| ensures sps[i] == sps[0] - Delta(body, i) {
      DeltaIsSp(body, wb, sps, i);
    }
    forall i | 0 <= i < |body| ensures sps[i] % 16 == 0 <==> Delta(body, i) % 16 == 0 {
      AlignedDifference(sps[0], Delta(body, i));
    }
  }

  /** A value SP may take, off the walk's count where that is possible. */
  function SpAfter(i: Instr, writeBack: bool, before: int): (after: int)
  {
    if Transfers(i.mnemonic) then
      (if SpBased(i) && writeBack then before + MemOf(i.operands).value.disp else before)
    else if Faithful(i, writeBack) then before - SpChange(i)
    else before - SpChange(i) + 1
  }

  lemma SpAfterMoves(i: Instr, writeBack: bool, before: int)
    ensures MovesSp(i, writeBack, before, SpAfter(i, writeBack, before))
    ensures SpAfter(i, writeBack, before) == before - SpChange(i) <==> Faithful(i, writeBack)
  {
    hide MemOf;
    hide Amount;
  }

  function SpsFrom(body: seq<Instr>, wb: seq<bool>, sp: int, n: nat): (sps: seq<int>)
    requires |wb| == |body| && n <= |body|
    ensures |sps| == n + 1 && sps[0] == sp
  {
    if n == 0 then [sp]
    else
      var before := SpsFrom(body, wb, sp, n - 1);
      before + [SpAfter(body[n - 1], wb[n - 1], before[n - 1])]
  }

  lemma {:induction false} SpsFromStep(body: seq<Instr>, wb: seq<bool>, sp: int, n: nat, k: nat)
    requires |wb| == |body| && k < n <= |body|
    ensures var sps := SpsFrom(body, wb, sp, n); sps[k + 1] == SpAfter(body[k], wb[k], sps[k])
  {
    hide SpAfter;
    if k < n - 1 { SpsFromStep(body, wb, sp, n - 1, k); }
  }

  /** The walk's delta is right at every point of a run. */
  ghost predicate Tracks(body: seq<Instr>, sps: seq<int>)
    requires |sps| == |body| + 1
  {
    forall n | 0 <= n <= |body| :: sps[n] == sps[0] - Delta(body, n)
  }

  /**
   Exactly when the delta is the machine's: it follows SP on every straight-line run if
   and only if every instruction is faithful.
   */
  lemma DeltaExact(body: seq<Instr>, wb: seq<bool>)
    requires |wb| == |body|
    ensures (forall sps | SpRun(body, wb, sps) :: Tracks(body, sps)) <==>
              forall i | 0 <= i < |body| :: Faithful(body[i], wb[i])
  {
    hide Faithful;
    hide MovesSp;
    hide SpAfter;
    hide SpChange;
    if forall i | 0 <= i < |body| :: Faithful(body[i], wb[i]) {
      forall sps | SpRun(body, wb, sps) ensures Tracks(body, sps) {
        forall n | 0 <= n <= |body| ensures sps[n] == sps[0] - Delta(body, n) {
          DeltaIsSp(body, wb, sps, n);
        }
      }
    }
    if forall sps | SpRun(body, wb, sps) :: Tracks(body, sps) {
      var sps := SpsFrom(body, wb, 0, |body|);
      forall i, j | 0 <= i < j <= |body| && j == i + 1 ensures MovesSp(body[i], wb[i], sps[i], sps[j]) {
        SpsFromStep(body, wb, 0, |body|, i);
        SpAfterMoves(body[i], wb[i], sps[i]);
      }
      assert SpRun(body, wb, sps);
      forall i | 0 <= i < |body| ensures Faithful(body[i], wb[i]) {
        SpsFromStep(body, wb, 0, |body|, i);
        SpAfterMoves(body[i], wb[i], sps[i]);
        assert sps[i] == sps[0] - Delta(body, i) && sps[i + 1] == sps[0] - Delta(body, i + 1);
      }
    }
  }

  lemma AlignedDifference(a: int, d: int)
    requires a % 16 == 0
    ensures (a - d) % 16 == 0 <==> d % 16 == 0
  {
  }

  /**
   Without write-back the walk can be fooled: a plain load at `[sp, #16]` is counted as
   a pop, so a body that never gives its frame back is reported balanced.
   */
  lemma PlainLoadHidesFrame(sp: int)
    ensures var body := [ Instr(Sub, Binary, [Reg(Sp), Reg(Sp), Imm(16)]),
                        Instr(Ldr, Load, [Reg(Gp(0)), Mem(Some(Sp), 16)]),
                        Instr(Ret, Return, []) ];
            && SpRun(body, [false, false, false], [sp, sp - 16, sp - 16, sp - 16])
            && StackRule(body) && SavedRule(body)
  {
    var sub := Instr(Sub, Binary, [Reg(Sp), Reg(Sp), Imm(16)]);
    var ldr := Instr(Ldr, Load, [Reg(Gp(0)), Mem(Some(Sp), 16)]);
    var ret := Instr(Ret, Return, []);
    var body := [sub, ldr, ret];
    assert ldr.operands[1..] == [Mem(Some(Sp), 16)];
    assert MemOf(ldr.operands) == Some(Mem(Some(Sp), 16));
    assert SpChange(sub) == 16 && SpChange(ldr) == -16;
    assert Delta(body, 1) == 16 && Delta(body, 2) == 0;
    assert MovesSp(sub, false, sp, sp - 16) && MovesSp(ldr, false, sp - 16, sp - 16);
    forall g ensures !Written(body, g) {
      NotWritten(sub, ldr, ret, g);
    }
  }

  lemma NotWritten(sub: Instr, ldr: Instr, ret: Instr, g: nat)
    requires sub == Instr(Sub, Binary, [Reg(Sp), Reg(Sp), Imm(16)])
    requires ldr == Instr(Ldr, Load, [Reg(Gp(0)), Mem(Some(Sp), 16)])
    requires ret == Instr(Ret, Return, [])
    ensures !Written([sub, ldr, ret], g)
  {
    if NonVolatile(g) {
      assert !NamesGp(sub, g) && !NamesGp(ldr, g) && !NamesGp(ret, g);
    }
  }
}
