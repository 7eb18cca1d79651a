/**
 What an instruction does to control, read off its decoder groups, its mnemonic and
 its decoded target.  Nothing here asks how the graph builder classifies it; that the
 classification agrees is a theorem.
 */
module ControlFlow {
  import opened Basics
  import opened Cfg

  predicate Returns(x: Instr)
  {
    x.inRet || x.mnemonic == Ret
  }

  predicate Calls(x: Instr)
  {
    !Returns(x) && (x.inCall || (!x.inJump && x.mnemonic == Blr))
  }

  predicate Jumps(x: Instr)
  {
    !Returns(x) && !Calls(x) && (x.inJump || x.mnemonic in {Br, Jr})
  }

  /** A jump that may be declined; one of unknown mnemonic and target is not known to be. */
  predicate IsConditional(x: Instr)
  {
    Jumps(x) && x.inJump && x.mnemonic !in {Jmp, B, Br, J, Jr} &&
    (x.target.Some? || x.mnemonic.Conditional?)
  }

  predicate FallsThrough(x: Instr)
  {
    !Returns(x) && (Jumps(x) ==> IsConditional(x))
  }

  predicate EndsBlock(x: Instr)
  {
    Returns(x) || Jumps(x)
  }

  /** Where a jump or call leads: a known address, one the linker has yet to fill in, or any address. */
  datatype Destination = Nowhere | Known(address: nat) | Unlinked | Anywhere

  function DestinationOf(x: Instr): (d: Destination)
  {
    if !Calls(x) && !Jumps(x) then Nowhere
    else if (x.inCall || x.inJump) && x.target.Some? then Known(x.target.value)
    else if IsConditional(x) then Unlinked
    else Anywhere
  }

  /** The builder's classification says what the instruction does. */
  lemma ClassifyExact(x: Instr)
    ensures Classify(x) == Return <==> Returns(x)
    ensures Classify(x).Call? <==> Calls(x)
    ensures forall a :: Classify(x) == Call(None, Some(a)) <==> Calls(x) && DestinationOf(x) == Known(a)
    ensures Classify(x) == Call(None, None) <==> Calls(x) && DestinationOf(x) == Anywhere
    ensures forall a :: Classify(x) == UnconditionalBranch(None, a) <==>
                          Jumps(x) && !IsConditional(x) && DestinationOf(x) == Known(a)
    ensures Classify(x).ConditionalBranch? <==> IsConditional(x)
    ensures IsConditional(x) ==>
              Classify(x) == ConditionalBranch(
                None, if DestinationOf(x).Known? then DestinationOf(x).address else 0)
    ensures Classify(x) == Indirect <==> Jumps(x) && DestinationOf(x) == Anywhere
    ensures Classify(x) == Fallthrough <==> !Returns(x) && !Calls(x) && !Jumps(x)
    ensures IsTerminator(Classify(x)) <==> EndsBlock(x)
  {
  }

  /** Instruction `i` can send control to instruction `j` by a jump, a taken branch or a direct call. */
  predicate Transfers(ins: seq<Instr>, i: nat, j: nat)
    requires i < |ins|
  {
    match DestinationOf(ins[i])
    case Known(a) => Resolve(ins, a) == Some(j)
    case Unlinked => Resolve(ins, 0) == Some(j)
    case _ => false
  }

  /** Control can pass from instruction `i` to instruction `j` in one step of known destination. */
  predicate Flows(ins: seq<Instr>, i: nat, j: nat)
  {
    i < |ins| && j < |ins| && (Transfers(ins, i, j) || (FallsThrough(ins[i]) && j == i + 1))
  }
}
