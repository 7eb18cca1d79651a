/**
 The leaf control-flow policy (`check_cfg_leaf`, crates/semasm-cli/src/commands.rs)
 and what an accepted listing can do when it runs.
 */
module LeafPolicy {
  import opened Basics
  import opened Cfg
  import opened ControlFlow
  import opened CfgSoundness

  datatype LeafError =
    | IndirectBranch(at: nat)
    | UnknownTerminator(at: nat)
    | IndirectCall(at: nat)
    | EmptyInput
    | IncompleteJump(from: nat, to: nat)
    | IncompleteConditional(from: nat, to: nat)
    | NonDirectTerminator(at: nat)

  // ----- the policy -----

  function InstrError(i: Instr): (e: Option<LeafError>)
  {
    match Classify(i)
    case Indirect => Some(IndirectBranch(i.address))
    case Unknown => Some(UnknownTerminator(i.address))
    case Call(_, None) => Some(IndirectCall(i.address))
    case _ => None
  }

  function BlockError(b: Block): (e: Option<LeafError>)
  {
    match b.last
    case UnconditionalBranch(None, a) => if a != 0 then Some(IncompleteJump(b.endAddress, a)) else None
    case ConditionalBranch(None, a) => if a != 0 then Some(IncompleteConditional(b.endAddress, a)) else None
    case Indirect => Some(NonDirectTerminator(b.endAddress))
    case Unknown => Some(NonDirectTerminator(b.endAddress))
    case _ => None
  }

  predicate LeafAccepts(ins: seq<Instr>)
  {
    && ins != []
    && (forall i | 0 <= i < |ins| :: InstrError(ins[i]).None?)
    && (forall b | 0 <= b < |Built(ins).blocks| :: BlockError(Built(ins).blocks[b]).None?)
  }

  method CheckCfgLeaf(ins: seq<Instr>) returns (r: Option<LeafError>)
    ensures r.None? <==> LeafAccepts(ins)
    ensures r.Some? ==>
              || (r == Some(EmptyInput) && ins == [])
              || (exists i :: 0 <= i < |ins| && r == InstrError(ins[i]) &&
                    forall k | 0 <= k < i :: InstrError(ins[k]).None?)
              || ((forall i | 0 <= i < |ins| :: InstrError(ins[i]).None?) &&
                  exists b :: 0 <= b < |Built(ins).blocks| && r == BlockError(Built(ins).blocks[b]) &&
                    forall k | 0 <= k < b :: BlockError(Built(ins).blocks[k]).None?)
  {
    hide InstrError;
    hide BlockError;
    hide Built;
    for i := 0 to |ins|
      invariant forall k | 0 <= k < i :: InstrError(ins[k]).None?
    {
      var e := InstrError(ins[i]);
      if e.Some? { return e; }
    }
    var g := Build(ins);
    if g.None? { return Some(EmptyInput); }
    var blocks := g.value.blocks;
    for b := 0 to |blocks|
      invariant forall k | 0 <= k < b :: BlockError(blocks[k]).None?
    {
      var e := BlockError(blocks[b]);
      if e.Some? { return e; }
    }
    r := None;
  }

  // ----- where control can go -----

  datatype Place =
    | At(index: nat)
    | Returned
    | InCallee(address: nat)
    | ThroughPlaceholder   // a branch whose encoded target is still 0
    | PastEnd
    | Escaped              // an address no decoded instruction has, or one not known

  function Next(ins: seq<Instr>, i: nat): (p: Place)
  {
    if i + 1 < |ins| then At(i + 1) else PastEnd
  }

  function BranchTo(ins: seq<Instr>, a: nat): (p: Place)
  {
    match Resolve(ins, a)
    case Some(k) => At(k)
    case None => if a == 0 then ThroughPlaceholder else Escaped
  }

  /** Control may pass from instruction `i` to `p`. */
  predicate Steps(ins: seq<Instr>, i: nat, p: Place)
    requires i < |ins|
  {
    || (Returns(ins[i]) && p == Returned)
    || (FallsThrough(ins[i]) && p == Next(ins, i))
    || match DestinationOf(ins[i])
       case Nowhere => false
       case Known(a) => p == if Calls(ins[i]) then InCallee(a) else BranchTo(ins, a)
       case Unlinked => p == ThroughPlaceholder
       case Anywhere => p == Escaped || (p.At? && p.index < |ins|)
  }

  /** The error of an instruction names its address and what is wrong with it. */
  lemma InstrErrorExact(x: Instr)
    ensures InstrError(x) ==
            if Jumps(x) && DestinationOf(x) == Anywhere then Some(IndirectBranch(x.address))
            else if Calls(x) && DestinationOf(x) == Anywhere then Some(IndirectCall(x.address))
            else None
  {
    ClassifyExact(x);
    hide Classify;
    hide Jumps;
    hide Calls;
    hide Returns;
    hide IsConditional;
  }

  // ----- block ends speak for their last instruction -----

  lemma {:induction false} LastOfFound(es: seq<Edge>, kind: EdgeKind, to: Option<nat>)
    requires exists e :: e in es && e.kind == kind
    requires forall e | e in es && e.kind == kind :: e.to == to
    ensures LastOf(es, kind) == to
  {
    var n := |es| - 1;
    if es[n].kind != kind {
      assert forall e | e in es[..n] :: e in es;
      var e :| e in es && e.kind == kind;
      assert e in es[..n];
      LastOfFound(es[..n], kind, to);
    } else {
      assert es[n] in es;
    }
  }

  /** Only the closing instruction of a block contributes a jump or taken edge. */
  lemma ClosingEdge(ins: seq<Instr>, order: seq<nat>, i: nat, e: Edge)
    requires InRange(order, |ins|) && i < |ins| && e in EdgesOf(ins, order, i)
    ensures e.kind == JumpEdge ==>
              Classify(ins[i]).UnconditionalBranch? && e.to == Resolve(ins, Classify(ins[i]).address)
    ensures e.kind == TakenEdge ==>
              Classify(ins[i]).ConditionalBranch? && e.to == Resolve(ins, Classify(ins[i]).takenAddress)
  {
    hide Classify;
    hide Resolve;
    hide NextAddress;
  }

  lemma RawEdges(ins: seq<Instr>, order: seq<nat>, b: Block, kind: EdgeKind)
    requires InRange(order, |ins|) && BlockOk(ins, order, b) && kind in {JumpEdge, TakenEdge}
    ensures b.start < b.end <= |ins|
    ensures forall e | e in b.successors && e.kind == kind :: e in EdgesOf(ins, order, b.end - 1)
    ensures forall e | e in EdgesOf(ins, order, b.end - 1) :: e in b.successors
  {
    hide EdgesOf;
    hide Classify;
    forall e | e in b.successors && e.kind == kind ensures e in EdgesOf(ins, order, b.end - 1) {
      var i :| b.start <= i < b.end && e in EdgesOf(ins, order, i);
      ClosingEdge(ins, order, i, e);
    }
  }

  lemma OwnEdge(ins: seq<Instr>, order: seq<nat>, i: nat)
    requires InRange(order, |ins|) && i < |ins|
    ensures Classify(ins[i]).UnconditionalBranch? ==>
              Edge(0, Resolve(ins, Classify(ins[i]).address), JumpEdge) in EdgesOf(ins, order, i)
    ensures Classify(ins[i]).ConditionalBranch? ==>
              Edge(0, Resolve(ins, Classify(ins[i]).takenAddress), TakenEdge) in EdgesOf(ins, order, i)
  {
    hide Classify;
    hide Resolve;
    hide NextAddress;
    var es := EdgesOf(ins, order, i);
    if Classify(ins[i]).UnconditionalBranch? || Classify(ins[i]).ConditionalBranch? {
      assert es[0] in es;
    }
  }

  lemma RawJumpTarget(ins: seq<Instr>, order: seq<nat>, b: Block)
    requires InRange(order, |ins|) && BlockOk(ins, order, b) && b.last.UnconditionalBranch?
    ensures LastOf(b.successors, JumpEdge) == Resolve(ins, b.last.address)
  {
    hide *;
    var to := Resolve(ins, b.last.address);
    ClosingClass(ins, order, b);
    RawEdges(ins, order, b, JumpEdge);
    OwnEdge(ins, order, b.end - 1);
    assert Edge(0, to, JumpEdge) in b.successors;
    forall e | e in b.successors && e.kind == JumpEdge ensures e.to == to {
      ClosingEdge(ins, order, b.end - 1, e);
    }
    LastOfFound(b.successors, JumpEdge, to);
  }

  lemma RawTakenTarget(ins: seq<Instr>, order: seq<nat>, b: Block)
    requires InRange(order, |ins|) && BlockOk(ins, order, b) && b.last.ConditionalBranch?
    ensures LastOf(b.successors, TakenEdge) == Resolve(ins, b.last.takenAddress)
  {
    hide *;
    var to := Resolve(ins, b.last.takenAddress);
    ClosingClass(ins, order, b);
    RawEdges(ins, order, b, TakenEdge);
    OwnEdge(ins, order, b.end - 1);
    assert Edge(0, to, TakenEdge) in b.successors;
    forall e | e in b.successors && e.kind == TakenEdge ensures e.to == to {
      ClosingEdge(ins, order, b.end - 1, e);
    }
    LastOfFound(b.successors, TakenEdge, to);
  }

  /** The raw target of a closing branch is the decoded instruction at its address. */
  lemma RawTarget(ins: seq<Instr>, order: seq<nat>, b: Block)
    requires InRange(order, |ins|) && BlockOk(ins, order, b)
    ensures b.last.UnconditionalBranch? ==>
              LastOf(b.successors, JumpEdge) == Resolve(ins, b.last.address)
    ensures b.last.ConditionalBranch? ==>
              LastOf(b.successors, TakenEdge) == Resolve(ins, b.last.takenAddress)
  {
    hide *;
    if b.last.UnconditionalBranch? { RawJumpTarget(ins, order, b); }
    if b.last.ConditionalBranch? { RawTakenTarget(ins, order, b); }
  }

  lemma ClosingClass(ins: seq<Instr>, order: seq<nat>, b: Block)
    requires InRange(order, |ins|) && BlockOk(ins, order, b)
    ensures b.start < b.end <= |ins| && b.last == Classify(ins[b.end - 1])
  {
    hide Classify;
    hide EdgesOf;
  }

  function Through(raw: seq<Block>, to: Option<nat>): (b: Option<nat>)
  {
    if to.Some? then BlockOf(raw, to.value) else None
  }

  lemma {:induction false} LastOfResolved(raw: seq<Block>, bi: nat, es: seq<Edge>, kind: EdgeKind)
    ensures LastOf(ResolveEdges(raw, bi, es), kind) == Through(raw, LastOf(es, kind))
  {
    hide BlockOf;
    if es != [] {
      var n := |es| - 1;
      LastOfResolved(raw, bi, es[..n], kind);
      var r := ResolveEdges(raw, bi, es);
      assert r[..n] == ResolveEdges(raw, bi, es[..n]);
    }
  }

  lemma ThroughSome(ins: seq<Instr>, raw: seq<Block>, a: nat)
    requires Tiles(raw, |ins|)
    ensures Through(raw, Resolve(ins, a)).Some? <==> Resolve(ins, a).Some?
  {
    if Resolve(ins, a).Some? {
      var k := TilesCover(raw, |ins|, Resolve(ins, a).value);
      BlockOfOwn(raw, |ins|, k, Resolve(ins, a).value);
    }
  }

  /** A block is refused exactly when its closing instruction can escape. */
  lemma BlockErrorExact(ins: seq<Instr>, bi: nat)
    requires Increasing(ins) && bi < |RawBlocks(ins)|
    ensures bi < |Built(ins).blocks|
    ensures var b := RawBlocks(ins)[bi];
            b.start < b.end <= |ins| &&
            (BlockError(Built(ins).blocks[bi]).None? <==> ClosesInside(ins, Classify(ins[b.end - 1])))
  {
    hide *;
    var raw, order := RawBlocks(ins), OrderOf(ins, |ins|);
    var b := raw[bi];
    RawBlocksOk(ins);
    RawTiles(ins, raw);
    RawBlock(ins, raw, bi);
    BuiltBlock(ins, bi);
    ClosingClass(ins, order, b);
    RawTarget(ins, order, b);
    LastOfResolved(raw, bi, b.successors, JumpEdge);
    LastOfResolved(raw, bi, b.successors, TakenEdge);
    if b.last.UnconditionalBranch? { ThroughSome(ins, raw, b.last.address); }
    if b.last.ConditionalBranch? { ThroughSome(ins, raw, b.last.takenAddress); }
    ResolvedError(ins, raw, bi);
  }

  /** The error of a block names its closing instruction and where that was to go. */
  lemma BlockErrorNamed(ins: seq<Instr>, bi: nat)
    requires Increasing(ins) && bi < |Built(ins).blocks| && BlockError(Built(ins).blocks[bi]).Some?
    ensures bi < |RawBlocks(ins)| && RawBlocks(ins)[bi].start < RawBlocks(ins)[bi].end <= |ins|
    ensures var x := ins[RawBlocks(ins)[bi].end - 1];
            match BlockError(Built(ins).blocks[bi]).value
            case IncompleteJump(from, to) =>
              from == x.address && Jumps(x) && !IsConditional(x) && DestinationOf(x) == Known(to)
            case IncompleteConditional(from, to) =>
              from == x.address && IsConditional(x) && DestinationOf(x) == Known(to)
            case NonDirectTerminator(at) => at == x.address && Jumps(x) && DestinationOf(x) == Anywhere
            case _ => false
  {
    hide *;
    BuiltShape(ins);
    var raw, order := RawBlocks(ins), OrderOf(ins, |ins|);
    RawBlocksOk(ins);
    RawBlock(ins, raw, bi);
    BuiltBlock(ins, bi);
    ClosingClass(ins, order, raw[bi]);
    ClosingAddress(ins, order, raw[bi]);
    ClosingError(raw, bi, ins[raw[bi].end - 1]);
  }

  lemma ClosingAddress(ins: seq<Instr>, order: seq<nat>, b: Block)
    requires InRange(order, |ins|) && BlockOk(ins, order, b)
    ensures b.start < b.end <= |ins| && b.endAddress == ins[b.end - 1].address
  {
    hide Classify;
    hide EdgesOf;
  }

  lemma ClosingError(raw: seq<Block>, bi: nat, x: Instr)
    requires bi < |raw| && raw[bi].endAddress == x.address && raw[bi].last == Classify(x)
    requires BlockError(ResolveBlock(raw, bi)).Some?
    ensures match BlockError(ResolveBlock(raw, bi)).value
            case IncompleteJump(from, to) =>
              from == x.address && Jumps(x) && !IsConditional(x) && DestinationOf(x) == Known(to)
            case IncompleteConditional(from, to) =>
              from == x.address && IsConditional(x) && DestinationOf(x) == Known(to)
            case NonDirectTerminator(at) => at == x.address && Jumps(x) && DestinationOf(x) == Anywhere
            case _ => false
  {
    ClassifyExact(x);
    if IsConditional(x) { ConditionalDestination(x); }
    hide Classify;
    hide Jumps;
    hide Calls;
    hide Returns;
    hide IsConditional;
    hide DestinationOf;
    hide ResolveEdges;
    hide LastOf;
  }

  lemma ConditionalDestination(x: Instr)
    requires IsConditional(x)
    ensures DestinationOf(x).Known? || DestinationOf(x) == Unlinked
  {
  }

  predicate ClosesInside(ins: seq<Instr>, e: BlockEnd)
  {
    match e
    case UnconditionalBranch(_, a) => a == 0 || Resolve(ins, a).Some?
    case ConditionalBranch(_, a) => a == 0 || Resolve(ins, a).Some?
    case Indirect => false
    case Unknown => false
    case _ => true
  }

  lemma ResolvedError(ins: seq<Instr>, raw: seq<Block>, bi: nat)
    requires bi < |raw|
    requires var b, es := raw[bi], ResolveEdges(raw, bi, raw[bi].successors);
             && (b.last.UnconditionalBranch? ==>
                   (LastOf(es, JumpEdge).Some? <==> Resolve(ins, b.last.address).Some?))
             && (b.last.ConditionalBranch? ==>
                   (LastOf(es, TakenEdge).Some? <==> Resolve(ins, b.last.takenAddress).Some?))
    ensures BlockError(ResolveBlock(raw, bi)).None? <==> ClosesInside(ins, raw[bi].last)
  {
    hide Resolve;
    hide ResolveEdges;
    hide LastOf;
  }

  // ----- the policy is exact -----

  /** Instruction `i` cannot hand control to an undecoded or unknown place. */
  predicate Contained(ins: seq<Instr>, i: nat)
    requires i < |ins|
  {
    !Steps(ins, i, Escaped)
  }

  lemma ContainedExact(ins: seq<Instr>, i: nat)
    requires i < |ins|
    ensures Contained(ins, i) <==> InstrError(ins[i]).None? && ClosesInside(ins, Classify(ins[i]))
  {
    ClassifyExact(ins[i]);
    hide Classify;
    hide Returns;
    hide Jumps;
    hide IsConditional;
    hide Resolve;
  }

  lemma NonClosing(ins: seq<Instr>, i: nat)
    requires i < |ins| && !IsTerminator(Classify(ins[i]))
    ensures ClosesInside(ins, Classify(ins[i]))
  {
    hide Classify;
  }

  /** Either an instruction closes its block or it is not a terminator. */
  lemma InstrClosesInside(ins: seq<Instr>, i: nat)
    requires Increasing(ins) && i < |ins|
    requires forall b | 0 <= b < |Built(ins).blocks| :: BlockError(Built(ins).blocks[b]).None?
    ensures ClosesInside(ins, Classify(ins[i]))
  {
    hide *;
    var raw := RawBlocks(ins);
    RawBlocksOk(ins);
    RawTiles(ins, raw);
    var bi := TilesCover(raw, |ins|, i);
    BlockErrorExact(ins, bi);
    if i < raw[bi].end - 1 {
      RawCutAt(ins, raw, bi);
      CutInside(ins, raw[bi], bi == |raw| - 1, i);
      NonClosing(ins, i);
    }
  }

  lemma CutInside(ins: seq<Instr>, b: Block, final: bool, i: nat)
    requires CutAt(ins, b, final) && b.start <= i < b.end - 1
    ensures i < |ins| && !IsTerminator(Classify(ins[i]))
  {
    if i < |ins| { ClassifyExact(ins[i]); }
    hide Classify;
    hide EndsBlock;
  }

  /**
   The policy accepts a sorted listing exactly when it is not empty and no
   instruction of it, reachable or not, can pass control to an address that is
   not decoded and not a placeholder.
   */
  lemma AcceptsExact(ins: seq<Instr>)
    requires Increasing(ins)
    ensures LeafAccepts(ins) <==> ins != [] && forall i | 0 <= i < |ins| :: Contained(ins, i)
  {
    if LeafAccepts(ins) {
      AcceptedContained(ins);
    }
    if ins != [] && forall i | 0 <= i < |ins| :: Contained(ins, i) {
      ContainedAccepted(ins);
    }
    hide *;
  }

  lemma AcceptedContained(ins: seq<Instr>)
    requires Increasing(ins) && LeafAccepts(ins)
    ensures ins != [] && forall i | 0 <= i < |ins| :: Contained(ins, i)
  {
    hide InstrError;
    hide BlockError;
    hide Built;
    hide Contained;
    hide Increasing;
    hide Classify;
    hide ClosesInside;
    forall i | 0 <= i < |ins| ensures Contained(ins, i) {
      InstrClosesInside(ins, i);
      ContainedExact(ins, i);
    }
  }

  lemma ContainedAccepted(ins: seq<Instr>)
    requires Increasing(ins) && ins != [] && forall i | 0 <= i < |ins| :: Contained(ins, i)
    ensures LeafAccepts(ins)
  {
    hide InstrError;
    hide BlockError;
    hide Built;
    hide RawBlocks;
    hide Contained;
    hide Increasing;
    hide Classify;
    hide ClosesInside;
    forall i | 0 <= i < |ins| ensures InstrError(ins[i]).None? {
      ContainedExact(ins, i);
    }
    BuiltShape(ins);
    forall b | 0 <= b < |Built(ins).blocks| ensures BlockError(Built(ins).blocks[b]).None? {
      BlockErrorExact(ins, b);
      ContainedExact(ins, RawBlocks(ins)[b].end - 1);
    }
  }

  // ----- whole runs -----

  /** Only decoded instructions step on. */
  predicate Moves(ins: seq<Instr>, p: Place, q: Place)
  {
    p.At? && p.index < |ins| && Steps(ins, p.index, q)
  }

  /** A run from the first instruction. */
  ghost predicate IsRun(ins: seq<Instr>, run: seq<Place>)
  {
    |run| > 0 && run[0] == At(0) &&
    forall j, k | 0 <= j < k < |run| && k == j + 1 :: Moves(ins, run[j], run[k])
  }

  lemma StepsInside(ins: seq<Instr>, i: nat, p: Place)
    requires i < |ins| && Steps(ins, i, p) && p.At?
    ensures p.index < |ins|
  {
    hide Classify;
  }

  /**
   Every run of an accepted listing visits decoded instructions only, until it
   returns, makes a direct call, takes a placeholder branch or falls off the end.
   */
  lemma AcceptedRunsStayInside(ins: seq<Instr>, run: seq<Place>, k: nat)
    requires Increasing(ins) && LeafAccepts(ins) && IsRun(ins, run) && k < |run|
    ensures run[k] != Escaped && (run[k].At? ==> run[k].index < |ins|)
  {
    AcceptsExact(ins);
    hide LeafAccepts;
    hide Steps;
    if k > 0 {
      assert Moves(ins, run[k - 1], run[k]);
      assert Contained(ins, run[k - 1].index);
      if run[k].At? { StepsInside(ins, run[k - 1].index, run[k]); }
    } else {
      assert ins != [] by { AcceptsNonempty(ins); }
    }
  }

  /** Indices of the first `n` places of a run. */
  function Indices(run: seq<Place>, n: nat): (path: seq<nat>)
    requires n <= |run|
  {
    seq(n, j requires 0 <= j < n => if run[j].At? then run[j].index else 0)
  }

  /** An instruction that cannot escape steps only along flows of known destination. */
  lemma ContainedFlows(ins: seq<Instr>, i: nat, j: nat)
    requires i < |ins| && j < |ins| && Contained(ins, i) && Steps(ins, i, At(j))
    ensures Flows(ins, i, j)
  {
    hide Resolve;
    hide Returns;
    hide Calls;
    hide Jumps;
  }

  lemma RunIsPath(ins: seq<Instr>, run: seq<Place>, k: nat)
    requires Increasing(ins) && LeafAccepts(ins) && IsRun(ins, run) && k < |run| && run[k].At?
    ensures FlowPath(ins, Indices(run, k + 1))
  {
    AcceptsExact(ins);
    hide LeafAccepts;
    hide Steps;
    hide Flows;
    hide Increasing;
    var path := Indices(run, k + 1);
    forall j, l | 0 <= j < l < |path| && l == j + 1 ensures Flows(ins, path[j], path[l]) {
      assert Moves(ins, run[j], run[l]);
      if l < k { assert Moves(ins, run[l], run[l + 1]); }
      assert Contained(ins, run[j].index);
      StepsInside(ins, run[j].index, run[l]);
      ContainedFlows(ins, run[j].index, run[l].index);
    }
  }

  /** Every place an accepted listing's run visits lies in a block the graph says is reachable. */
  lemma AcceptedRunReaches(ins: seq<Instr>, run: seq<Place>, k: nat) returns (b: nat)
    requires Increasing(ins) && LeafAccepts(ins) && IsRun(ins, run) && k < |run| && run[k].At?
    ensures b < |Built(ins).blocks| && Reachable(Built(ins), b)
    ensures Built(ins).blocks[b].start <= run[k].index < Built(ins).blocks[b].end
  {
    RunIsPath(ins, run, k);
    AcceptsNonempty(ins);
    hide LeafAccepts;
    hide FlowPath;
    hide Reachable;
    hide Built;
    b := FlowReachesBlock(ins, Indices(run, k + 1));
  }

  lemma AcceptsNonempty(ins: seq<Instr>)
    requires LeafAccepts(ins)
    ensures ins != []
  {
    hide Built;
    hide InstrError;
    hide BlockError;
  }
}
