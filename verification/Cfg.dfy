/**
 Control-flow graph construction (crates/semasm-cfg/src/lib.rs).  An instruction
 carries what the classifier looks at: its decoder groups, its mnemonic class and
 the numeric target its operands spell, if any.
 */
module Cfg {
  import opened Basics

  datatype Mnemonic =
    | Ret | Jmp | B | Br | J | Jr | Blr
    | Conditional(name: string)  // a known direct conditional branch
    | Plain(name: string)

  datatype Instr = Instr(
    address: nat, inRet: bool, inCall: bool, inJump: bool, mnemonic: Mnemonic, target: Option<nat>)

  datatype BlockEnd =
    | Fallthrough
    | UnconditionalBranch(target: Option<nat>, address: nat)
    | ConditionalBranch(taken: Option<nat>, takenAddress: nat)
    | Call(callee: Option<nat>, calleeAddress: Option<nat>)
    | Return
    | Indirect
    | Unknown

  datatype EdgeKind = FallEdge | JumpEdge | TakenEdge | CallEdge

  datatype Edge = Edge(from: nat, to: Option<nat>, kind: EdgeKind)

  /** A block of instructions `start..end`; before resolution its edges point at instructions. */
  datatype Block = Block(
    index: nat, start: nat, end: nat, startAddress: nat, endAddress: nat,
    successors: seq<Edge>, last: BlockEnd)

  datatype Graph = Graph(blocks: seq<Block>, entry: nat)

  // ----- classify -----

  function Classify(i: Instr): (e: BlockEnd)
    ensures e != Unknown
  {
    if i.inRet || i.mnemonic == Ret then Return
    else if i.inCall then Call(None, i.target)
    else if i.inJump then
      if i.mnemonic in {Jmp, B, Br, J, Jr} then
        match i.target
        case Some(a) => UnconditionalBranch(None, a)
        case None => Indirect
      else
        match i.target
        case Some(a) => ConditionalBranch(None, a)
        case None => if i.mnemonic.Conditional? then ConditionalBranch(None, 0) else Indirect
    else if i.mnemonic == Br || i.mnemonic == Jr then Indirect
    else if i.mnemonic == Blr then Call(None, None)
    else Fallthrough
  }

  predicate IsTerminator(e: BlockEnd)
  {
    !e.Fallthrough? && !e.Call?
  }

  // ----- order and addresses -----

  predicate InRange(order: seq<nat>, n: nat)
  {
    forall k | 0 <= k < |order| :: order[k] < n
  }

  /** Inserts `i` after every index whose address is not larger, as a stable sort does. */
  function Insert(ins: seq<Instr>, order: seq<nat>, i: nat): (r: seq<nat>)
    requires i < |ins| && InRange(order, |ins|)
    ensures |r| == |order| + 1 && InRange(r, |ins|)
  {
    if order == [] then [i]
    else if ins[order[|order| - 1]].address <= ins[i].address then order + [i]
    else Insert(ins, order[..|order| - 1], i) + [order[|order| - 1]]
  }

  function OrderOf(ins: seq<Instr>, n: nat): (order: seq<nat>)
    requires n <= |ins|
    ensures |order| == n && InRange(order, |ins|)
  {
    if n == 0 then [] else Insert(ins, OrderOf(ins, n - 1), n - 1)
  }

  /** The last instruction decoded at an address. */
  function Resolve(ins: seq<Instr>, address: nat): (k: Option<nat>)
    ensures k.Some? ==> k.value < |ins| && ins[k.value].address == address
    ensures k.None? ==> forall j | 0 <= j < |ins| :: ins[j].address != address
  {
    var addresses := seq(|ins|, i requires 0 <= i < |ins| => ins[i].address);
    assert forall j | 0 <= j < |ins| :: addresses[j] == ins[j].address;
    LastIndexOf(addresses, address)
  }

  function Position(order: seq<nat>, i: nat): (q: Option<nat>)
    ensures q.Some? ==> q.value < |order| && order[q.value] == i
  {
    if order == [] then None
    else if order[0] == i then Some(0)
    else match Position(order[1..], i)
      case Some(q) => Some(q + 1)
      case None => None
  }

  function NextAddress(ins: seq<Instr>, order: seq<nat>, i: nat): (a: Option<nat>)
    requires InRange(order, |ins|)
  {
    match Position(order, i)
    case None => None
    case Some(q) => if q + 1 < |order| then Some(ins[order[q + 1]].address) else None
  }

  // ----- first pass: cutting at terminators -----

  /** Outgoing edges one instruction contributes, as instruction indices. */
  function EdgesOf(ins: seq<Instr>, order: seq<nat>, i: nat): (es: seq<Edge>)
    requires i < |ins| && InRange(order, |ins|)
  {
    match Classify(ins[i])
    case UnconditionalBranch(_, a) => [Edge(0, Resolve(ins, a), JumpEdge)]
    case ConditionalBranch(_, a) =>
      [Edge(0, Resolve(ins, a), TakenEdge)] +
      (match NextAddress(ins, order, i)
       case Some(na) => [Edge(0, Resolve(ins, na), FallEdge)]
       case None => [])
    case Call(_, Some(a)) => [Edge(0, Resolve(ins, a), CallEdge)]
    case _ => []
  }

  function Opened(ins: seq<Instr>, current: Option<Block>, i: nat): (b: Block)
    requires i < |ins|
  {
    if current.Some? then current.value
    else Block(0, i, i + 1, ins[i].address, ins[i].address, [], Fallthrough)
  }

  function Extended(ins: seq<Instr>, order: seq<nat>, current: Option<Block>, i: nat): (b: Block)
    requires i < |ins| && InRange(order, |ins|)
  {
    var b := Opened(ins, current, i);
    b.(end := i + 1, endAddress := ins[i].address, last := Classify(ins[i]),
       successors := b.successors + EdgesOf(ins, order, i))
  }

  /** Finished blocks and the open one after the first `n` instructions in address order. */
  function Cut(ins: seq<Instr>, order: seq<nat>, n: nat): (r: (seq<Block>, Option<Block>))
    requires n <= |order| && InRange(order, |ins|)
  {
    if n == 0 then ([], None)
    else
      var (done, current) := Cut(ins, order, n - 1);
      var b := Extended(ins, order, current, order[n - 1]);
      if IsTerminator(Classify(ins[order[n - 1]])) then (done + [b], None) else (done, Some(b))
  }

  function RawBlocks(ins: seq<Instr>): (r: seq<Block>)
  {
    var order := OrderOf(ins, |ins|);
    var (done, current) := Cut(ins, order, |ins|);
    if current.Some? then done + [current.value] else done
  }

  // ----- second pass: resolving edges to blocks -----

  /** The last block whose range holds instruction `i`. */
  function BlockOf(blocks: seq<Block>, i: nat): (b: Option<nat>)
    ensures b.Some? ==> b.value < |blocks| && blocks[b.value].start <= i < blocks[b.value].end
    ensures b.None? ==> forall k | 0 <= k < |blocks| :: !(blocks[k].start <= i < blocks[k].end)
  {
    if blocks == [] then None
    else if blocks[|blocks| - 1].start <= i < blocks[|blocks| - 1].end then Some(|blocks| - 1)
    else BlockOf(blocks[..|blocks| - 1], i)
  }

  function ResolveEdge(raw: seq<Block>, bi: nat, e: Edge): (r: Edge)
  {
    Edge(bi, if e.to.Some? then BlockOf(raw, e.to.value) else None, e.kind)
  }

  function ResolveEdges(raw: seq<Block>, bi: nat, es: seq<Edge>): (r: seq<Edge>)
    ensures |r| == |es| && forall k | 0 <= k < |es| :: r[k] == ResolveEdge(raw, bi, es[k])
  {
    if es == [] then [] else ResolveEdges(raw, bi, es[..|es| - 1]) + [ResolveEdge(raw, bi, es[|es| - 1])]
  }

  /** Target of the last edge of a kind. */
  function LastOf(es: seq<Edge>, kind: EdgeKind): (to: Option<nat>)
  {
    if es == [] then None
    else if es[|es| - 1].kind == kind then es[|es| - 1].to
    else LastOf(es[..|es| - 1], kind)
  }

  function ResolveEnd(e: BlockEnd, es: seq<Edge>): (r: BlockEnd)
  {
    match e
    case UnconditionalBranch(_, a) => UnconditionalBranch(LastOf(es, JumpEdge), a)
    case ConditionalBranch(_, a) => ConditionalBranch(LastOf(es, TakenEdge), a)
    case Call(_, a) => Call(LastOf(es, CallEdge), a)
    case other => other
  }

  function ResolveBlock(raw: seq<Block>, bi: nat): (b: Block)
    requires bi < |raw|
  {
    var es := ResolveEdges(raw, bi, raw[bi].successors);
    raw[bi].(index := bi, successors := es, last := ResolveEnd(raw[bi].last, es))
  }

  /** Index of the first block with the lowest start address. */
  function EntryOf(blocks: seq<Block>, n: nat): (k: nat)
    requires n <= |blocks|
    ensures n > 0 ==> k < n && forall j | 0 <= j < n :: blocks[k].startAddress <= blocks[j].startAddress
    ensures n > 0 ==> forall j | 0 <= j < k :: blocks[j].startAddress > blocks[k].startAddress
  {
    if n == 0 then 0
    else
      var k := EntryOf(blocks, n - 1);
      if n > 1 && blocks[k].startAddress <= blocks[n - 1].startAddress then k else n - 1
  }

  function Built(ins: seq<Instr>): (g: Graph)
  {
    var raw := RawBlocks(ins);
    var blocks := seq(|raw|, bi requires 0 <= bi < |raw| => ResolveBlock(raw, bi));
    Graph(blocks, EntryOf(blocks, |blocks|))
  }

  // ----- the source's loops -----

  method CutBlocks(ins: seq<Instr>) returns (raw: seq<Block>)
    ensures raw == RawBlocks(ins)
  {
    hide EdgesOf;
    hide OrderOf;
    var order := OrderOf(ins, |ins|);
    raw := [];
    var current: Option<Block> := None;
    for n := 0 to |order|
      invariant (raw, current) == Cut(ins, order, n)
    {
      var i := order[n];
      var b := Opened(ins, current, i);
      var end := Classify(ins[i]);
      b := b.(end := i + 1, endAddress := ins[i].address, last := end,
              successors := b.successors + EdgesOf(ins, order, i));
      if IsTerminator(end) {
        raw, current := raw + [b], None;
      } else {
        current := Some(b);
      }
    }
    if current.Some? { raw := raw + [current.value]; }
  }

  method MapRange(before: map<nat, nat>, start: nat, end: nat, bi: nat) returns (m: map<nat, nat>)
    ensures forall k :: k in m <==> k in before || start <= k < end
    ensures forall k :: k in m ==> m[k] == if start <= k < end then bi else before[k]
  {
    m := before;
    var i := start;
    while i < end
      invariant start <= i && (i <= end || i == start)
      invariant forall k :: k in m <==> k in before || start <= k < i
      invariant forall k :: k in m ==> m[k] == if start <= k < i then bi else before[k]
    {
      m := m[i := bi];
      i := i + 1;
    }
  }

  lemma BlockOfNext(raw: seq<Block>, bi: nat, i: nat)
    requires bi < |raw|
    ensures BlockOf(raw[..bi + 1], i) ==
            if raw[bi].start <= i < raw[bi].end then Some(bi) else BlockOf(raw[..bi], i)
  {
    assert raw[..bi + 1][..bi] == raw[..bi];
  }

  /** The source's `instr_to_block` map. */
  method MapInstructions(raw: seq<Block>) returns (m: map<nat, nat>)
    ensures forall i :: (i in m <==> BlockOf(raw, i).Some?) && (i in m ==> Some(m[i]) == BlockOf(raw, i))
  {
    m := map[];
    for bi := 0 to |raw|
      invariant forall i :: i in m <==> BlockOf(raw[..bi], i).Some?
      invariant forall i :: i in m ==> Some(m[i]) == BlockOf(raw[..bi], i)
    {
      hide BlockOf;
      m := MapRange(m, raw[bi].start, raw[bi].end, bi);
      forall i: nat { BlockOfNext(raw, bi, i); }
    }
    assert raw[..|raw|] == raw;
  }

  method ResolveOne(raw: seq<Block>, instrToBlock: map<nat, nat>, bi: nat) returns (b: Block)
    requires bi < |raw|
    requires forall i :: i in instrToBlock <==> BlockOf(raw, i).Some?
    requires forall i :: i in instrToBlock ==> Some(instrToBlock[i]) == BlockOf(raw, i)
    ensures b == ResolveBlock(raw, bi)
  {
    hide BlockOf;
    var all := raw[bi].successors;
    var es: seq<Edge> := [];
    var jump, taken, callee := None, None, None;
    for k := 0 to |all|
      invariant es == ResolveEdges(raw, bi, all[..k])
      invariant jump == LastOf(es, JumpEdge) && taken == LastOf(es, TakenEdge)
      invariant callee == LastOf(es, CallEdge)
    {
      var e := all[k];
      assert all[..k + 1][..k] == all[..k];
      var to := if e.to.Some? && e.to.value in instrToBlock
                then Some(instrToBlock[e.to.value]) else None;
      match e.kind {
        case JumpEdge => jump := to;
        case TakenEdge => taken := to;
        case CallEdge => callee := to;
        case FallEdge =>
      }
      assert Edge(bi, to, e.kind) == ResolveEdge(raw, bi, e);
      ghost var before := es;
      es := es + [Edge(bi, to, e.kind)];
      assert es[..|es| - 1] == before;
    }
    assert all[..|all|] == all;
    var last := match raw[bi].last
      case UnconditionalBranch(_, a) => UnconditionalBranch(jump, a)
      case ConditionalBranch(_, a) => ConditionalBranch(taken, a)
      case Call(_, a) => Call(callee, a)
      case other => other;
    b := raw[bi].(index := bi, successors := es, last := last);
  }

  method Build(ins: seq<Instr>) returns (r: Option<Graph>)
    ensures r == if ins == [] then None else Some(Built(ins))
  {
    hide ResolveBlock;
    hide RawBlocks;
    if ins == [] { return None; }
    var raw := CutBlocks(ins);
    var instrToBlock := MapInstructions(raw);
    var blocks: seq<Block> := [];
    for bi := 0 to |raw|
      invariant |blocks| == bi && forall k | 0 <= k < bi :: blocks[k] == ResolveBlock(raw, k)
    {
      var b := ResolveOne(raw, instrToBlock, bi);
      blocks := blocks + [b];
    }
    assert blocks == Built(ins).blocks;
    r := Some(Graph(blocks, EntryOf(blocks, |blocks|)));
  }
}
