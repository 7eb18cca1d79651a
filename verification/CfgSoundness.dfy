/**
 What the graph says about the code, for instruction lists whose addresses
 strictly increase: the blocks partition the instructions, resolved edges stay in
 range, and everything control flow can reach lies in a reachable block.
 */
module CfgSoundness {
  import opened Basics
  import opened Cfg
  import opened ControlFlow

  predicate Increasing(ins: seq<Instr>)
  {
    forall i, j | 0 <= i < j < |ins| :: ins[i].address < ins[j].address
  }

  predicate Identity(order: seq<nat>)
  {
    forall k | 0 <= k < |order| :: order[k] == k
  }

  // ----- order and addresses of sorted input -----

  lemma {:induction false} OrderIdentity(ins: seq<Instr>, n: nat)
    requires Increasing(ins) && n <= |ins|
    ensures Identity(OrderOf(ins, n))
  {
    if n > 0 { OrderIdentity(ins, n - 1); }
  }

  lemma {:induction false} PositionFirst(order: seq<nat>, i: nat, q: nat)
    requires q < |order| && order[q] == i && forall k | 0 <= k < q :: order[k] != i
    ensures Position(order, i) == Some(q)
  {
    if q > 0 { PositionFirst(order[1..], i, q - 1); }
  }

  lemma ResolveOwn(ins: seq<Instr>, i: nat)
    requires Increasing(ins) && i < |ins|
    ensures Resolve(ins, ins[i].address) == Some(i)
  {
  }

  lemma NextOwn(ins: seq<Instr>, order: seq<nat>, i: nat)
    requires Increasing(ins) && Identity(order) && |order| == |ins| && i < |ins|
    ensures NextAddress(ins, order, i) == if i + 1 < |ins| then Some(ins[i + 1].address) else None
  {
    PositionFirst(order, i, i);
  }

  // ----- the cut -----

  /** Blocks laid end to end over the indices `0..hi`. */
  ghost predicate Tiles(blocks: seq<Block>, hi: nat)
  {
    && (forall k | 0 <= k < |blocks| :: blocks[k].start < blocks[k].end)
    && (|blocks| > 0 ==> blocks[0].start == 0)
    && (forall j, k | 0 <= j < k < |blocks| && k == j + 1 :: blocks[j].end == blocks[k].start)
    && hi == (if |blocks| == 0 then 0 else blocks[|blocks| - 1].end)
  }

  /** Terminators only at the end, every instruction's edges included. */
  ghost predicate BlockOk(ins: seq<Instr>, order: seq<nat>, b: Block)
    requires InRange(order, |ins|)
  {
    && b.start < b.end <= |ins| && b.startAddress == ins[b.start].address
    && b.endAddress == ins[b.end - 1].address && b.last == Classify(ins[b.end - 1])
    && (forall i | b.start <= i < b.end - 1 :: !IsTerminator(Classify(ins[i])))
    && (forall i, e | b.start <= i < b.end && e in EdgesOf(ins, order, i) :: e in b.successors)
    && (forall e | e in b.successors ::
          exists i :: b.start <= i < b.end && e in EdgesOf(ins, order, i))
  }

  function Joined(done: seq<Block>, current: Option<Block>): (all: seq<Block>)
  {
    if current.Some? then done + [current.value] else done
  }

  /** Finished blocks and the open one tile the first `n` instructions. */
  ghost predicate CutOk(
    ins: seq<Instr>, order: seq<nat>, done: seq<Block>, current: Option<Block>, n: nat)
    requires InRange(order, |ins|)
  {
    && Tiles(Joined(done, current), n)
    && (forall k | 0 <= k < |done| :: BlockOk(ins, order, done[k]) && IsTerminator(done[k].last))
    && (current.Some? ==> current.value.end == n && BlockOk(ins, order, current.value))
    && (current.Some? ==> !IsTerminator(current.value.last))
  }

  lemma ExtendedOk(ins: seq<Instr>, order: seq<nat>, current: Option<Block>, i: nat)
    requires InRange(order, |ins|) && i < |ins|
    requires current.Some? ==> current.value.end == i && BlockOk(ins, order, current.value) &&
                               !IsTerminator(current.value.last)
    ensures BlockOk(ins, order, Extended(ins, order, current, i))
  {
    hide EdgesOf;
    hide Classify;
    hide IsTerminator;
    var b := Extended(ins, order, current, i);
    forall e | e in b.successors
      ensures exists k :: b.start <= k < b.end && e in EdgesOf(ins, order, k)
    {
      if e in EdgesOf(ins, order, i) {
      } else {
        var k :| current.value.start <= k < current.value.end && e in EdgesOf(ins, order, k);
      }
    }
  }

  lemma TilesExtend(done: seq<Block>, current: Option<Block>, b: Block, n: nat)
    requires Tiles(Joined(done, current), n) && b.end == n + 1
    requires b.start == if current.Some? then current.value.start else n
    requires current.Some? ==> current.value.end == n && current.value.start < n
    ensures Tiles(done + [b], n + 1)
  {
    var all := done + [b];
    var prior := Joined(done, current);
    forall j, k | 0 <= j < k < |all| && k == j + 1 ensures all[j].end == all[k].start {
      assert prior[j] == all[j];
      if k < |prior| { assert prior[j].end == prior[k].start && prior[k].start == all[k].start; }
    }
    if |prior| > 0 { assert prior[0].start == all[0].start; }
    forall k | 0 <= k < |all| ensures all[k].start < all[k].end {
      if k < |done| { assert prior[k] == all[k]; }
    }
  }

  lemma {:induction false} CutInvariant(ins: seq<Instr>, order: seq<nat>, n: nat)
    requires InRange(order, |ins|) && Identity(order) && n <= |order|
    ensures CutOk(ins, order, Cut(ins, order, n).0, Cut(ins, order, n).1, n)
  {
    hide BlockOk;
    hide Extended;
    hide Classify;
    hide Tiles;
    if n == 0 {
      assert Tiles([], 0) by { TilesNone(); }
    } else {
      CutInvariant(ins, order, n - 1);
      assert order[n - 1] == n - 1 < |ins|;
      var done, current := Cut(ins, order, n - 1).0, Cut(ins, order, n - 1).1;
      if current.Some? { BlockOrder(ins, order, current.value); }
      ExtendedOk(ins, order, current, n - 1);
      ExtendedShape(ins, order, current, n - 1);
      TilesExtend(done, current, Extended(ins, order, current, n - 1), n - 1);
    }
  }

  lemma TilesNone()
    ensures Tiles([], 0)
  {
  }

  lemma BlockOrder(ins: seq<Instr>, order: seq<nat>, b: Block)
    requires InRange(order, |ins|) && BlockOk(ins, order, b)
    ensures b.start < b.end <= |ins|
  {
  }

  lemma ExtendedShape(ins: seq<Instr>, order: seq<nat>, current: Option<Block>, i: nat)
    requires InRange(order, |ins|) && i < |ins|
    ensures var b := Extended(ins, order, current, i);
            && b.start == (if current.Some? then current.value.start else i) && b.end == i + 1
            && b.last == Classify(ins[i])
  {
    hide EdgesOf;
  }

  /** The raw blocks of sorted input tile the instructions and are cut exactly at terminators. */
  ghost predicate RawOk(ins: seq<Instr>, raw: seq<Block>)
  {
    var order := OrderOf(ins, |ins|);
    && Tiles(raw, |ins|)
    && (forall k | 0 <= k < |raw| :: BlockOk(ins, order, raw[k]))
    && (forall k | 0 <= k < |raw| - 1 :: IsTerminator(raw[k].last))
  }

  lemma RawBlocksOk(ins: seq<Instr>)
    requires Increasing(ins)
    ensures RawOk(ins, RawBlocks(ins))
  {
    hide BlockOk;
    hide OrderOf;
    hide Cut;
    hide Tiles;
    var order := OrderOf(ins, |ins|);
    OrderIdentity(ins, |ins|);
    CutInvariant(ins, order, |ins|);
  }

  // ----- the built graph -----

  lemma {:induction false} TilesOrdered(blocks: seq<Block>, hi: nat, j: nat, k: nat)
    requires Tiles(blocks, hi) && j < k < |blocks|
    ensures blocks[j].end <= blocks[k].start
    decreases k - j
  {
    if j + 1 < k {
      TilesOrdered(blocks, hi, j + 1, k);
      assert blocks[j].end == blocks[j + 1].start;
    }
  }

  /** Tiles never overlap: an instruction is in exactly the block that holds it. */
  lemma BlockOfOwn(blocks: seq<Block>, hi: nat, k: nat, i: nat)
    requires Tiles(blocks, hi) && k < |blocks| && blocks[k].start <= i < blocks[k].end
    ensures BlockOf(blocks, i) == Some(k)
  {
    hide BlockOf;
    var b := BlockOf(blocks, i);
    if b.Some? && b.value < k { TilesOrdered(blocks, hi, b.value, k); }
    if b.Some? && b.value > k { TilesOrdered(blocks, hi, k, b.value); }
  }

  lemma {:induction false} TilesCover(blocks: seq<Block>, hi: nat, i: nat) returns (k: nat)
    requires Tiles(blocks, hi) && i < hi
    ensures k < |blocks| && blocks[k].start <= i < blocks[k].end
  {
    var n := |blocks| - 1;
    if blocks[n].start <= i {
      k := n;
    } else {
      var init := blocks[..n];
      assert n > 0 && blocks[n - 1].end == blocks[n].start;
      k := TilesCover(init, blocks[n].start, i);
    }
  }

  /** Edges of a graph point at its blocks. */
  predicate WellFormed(g: Graph)
  {
    g.entry < |g.blocks| &&
    forall b, k | 0 <= b < |g.blocks| && 0 <= k < |g.blocks[b].successors| ::
      var to := g.blocks[b].successors[k].to;
      to.Some? ==> to.value < |g.blocks|
  }

  lemma BuiltBlock(ins: seq<Instr>, bi: nat)
    requires bi < |RawBlocks(ins)|
    ensures bi < |Built(ins).blocks| == |RawBlocks(ins)|
    ensures var b, r := Built(ins).blocks[bi], RawBlocks(ins)[bi];
            && b == ResolveBlock(RawBlocks(ins), bi)
            && b.index == bi && b.start == r.start && b.end == r.end
            && b.startAddress == r.startAddress
            && b.successors == ResolveEdges(RawBlocks(ins), bi, r.successors)
  {
    hide RawBlocks;
    hide ResolveEdges;
    hide EntryOf;
  }

  /** A block holds no terminator except at its end, and ends at one unless it is the last. */
  ghost predicate CutAt(ins: seq<Instr>, b: Block, final: bool)
  {
    && b.start < b.end <= |ins| && b.startAddress == ins[b.start].address
    && (forall i | b.start <= i < b.end - 1 :: !EndsBlock(ins[i]))
    && (!final ==> EndsBlock(ins[b.end - 1]))
  }

  lemma RawCutAt(ins: seq<Instr>, raw: seq<Block>, bi: nat)
    requires RawOk(ins, raw) && bi < |raw|
    ensures CutAt(ins, raw[bi], bi == |raw| - 1)
  {
    forall x: Instr ensures IsTerminator(Classify(x)) <==> EndsBlock(x) { ClassifyExact(x); }
    hide EndsBlock;
    hide Tiles;
    hide OrderOf;
    hide EdgesOf;
    hide Classify;
  }

  lemma TilesSame(a: seq<Block>, b: seq<Block>, hi: nat)
    requires Tiles(a, hi) && |a| == |b|
    requires forall k | 0 <= k < |a| :: a[k].start == b[k].start && a[k].end == b[k].end
    ensures Tiles(b, hi)
  {
  }

  lemma RawTiles(ins: seq<Instr>, raw: seq<Block>)
    requires RawOk(ins, raw)
    ensures Tiles(raw, |ins|)
  {
  }

  lemma TilesNonempty(blocks: seq<Block>, hi: nat)
    requires Tiles(blocks, hi) && hi > 0
    ensures |blocks| > 0
  {
  }

  /** For sorted input the blocks partition the instructions, cut exactly at terminators. */
  lemma BuiltPartition(ins: seq<Instr>)
    requires Increasing(ins)
    ensures Tiles(Built(ins).blocks, |ins|)
    ensures forall bi | 0 <= bi < |Built(ins).blocks| ::
              Built(ins).blocks[bi].index == bi &&
              CutAt(ins, Built(ins).blocks[bi], bi == |Built(ins).blocks| - 1)
    ensures ins != [] ==> Built(ins).entry == 0 && Built(ins).blocks != []
  {
    hide *;
    var raw, blocks := RawBlocks(ins), Built(ins).blocks;
    RawBlocksOk(ins);
    RawTiles(ins, raw);
    BuiltShape(ins);
    forall bi | 0 <= bi < |raw|
      ensures blocks[bi].start == raw[bi].start && blocks[bi].end == raw[bi].end
      ensures blocks[bi].index == bi && CutAt(ins, blocks[bi], bi == |raw| - 1)
    {
      BuiltCut(ins, bi);
    }
    TilesSame(raw, blocks, |ins|);
    if ins != [] {
      TilesNonempty(blocks, |ins|);
      EntryFirst(ins, blocks);
    }
  }

  lemma BuiltShape(ins: seq<Instr>)
    ensures |Built(ins).blocks| == |RawBlocks(ins)|
    ensures Built(ins).entry == EntryOf(Built(ins).blocks, |Built(ins).blocks|)
  {
    hide RawBlocks;
    hide ResolveBlock;
    hide EntryOf;
  }

  lemma BuiltCut(ins: seq<Instr>, bi: nat)
    requires RawOk(ins, RawBlocks(ins)) && bi < |RawBlocks(ins)|
    ensures bi < |Built(ins).blocks| == |RawBlocks(ins)|
    ensures var b, r := Built(ins).blocks[bi], RawBlocks(ins)[bi];
            b.index == bi && b.start == r.start && b.end == r.end &&
            CutAt(ins, b, bi == |RawBlocks(ins)| - 1)
  {
    hide *;
    BuiltBlock(ins, bi);
    RawCutAt(ins, RawBlocks(ins), bi);
    CutAtSame(ins, RawBlocks(ins)[bi], Built(ins).blocks[bi], bi == |RawBlocks(ins)| - 1);
  }

  lemma CutAtSame(ins: seq<Instr>, a: Block, b: Block, final: bool)
    requires CutAt(ins, a, final) && a.start == b.start && a.end == b.end
    requires a.startAddress == b.startAddress
    ensures CutAt(ins, b, final)
  {
    hide Classify;
  }

  lemma {:induction false} EntryFirst(ins: seq<Instr>, blocks: seq<Block>)
    requires Increasing(ins) && Tiles(blocks, |ins|) && |blocks| > 0
    requires forall bi | 0 <= bi < |blocks| :: CutAt(ins, blocks[bi], bi == |blocks| - 1)
    ensures EntryOf(blocks, |blocks|) == 0
  {
    hide Classify;
    forall k | 0 < k < |blocks| ensures blocks[0].startAddress < blocks[k].startAddress {
      TilesOrdered(blocks, |ins|, 0, k);
    }
  }

  lemma RawNonempty(ins: seq<Instr>)
    requires ins != []
    ensures |RawBlocks(ins)| > 0
  {
    hide EdgesOf;
    hide Classify;
    hide OrderOf;
  }

  /** In order or not, the entry and every resolved edge of a graph are in range. */
  lemma BuiltWellFormed(ins: seq<Instr>)
    requires ins != []
    ensures WellFormed(Built(ins))
  {
    RawNonempty(ins);
    BuiltShape(ins);
    hide RawBlocks;
    hide BlockOf;
    var g := Built(ins);
    forall b, k | 0 <= b < |g.blocks| && 0 <= k < |g.blocks[b].successors|
      ensures var to := g.blocks[b].successors[k].to; to.Some? ==> to.value < |g.blocks|
    {
      BuiltBlock(ins, b);
    }
  }

  // ----- reachability -----

  predicate HasEdge(g: Graph, from: nat, to: nat)
  {
    from < |g.blocks| &&
    exists k | 0 <= k < |g.blocks[from].successors| :: g.blocks[from].successors[k].to == Some(to)
  }

  /** A path over resolved edges from the entry to `b`. */
  ghost predicate PathTo(g: Graph, path: seq<nat>, b: nat)
  {
    |path| > 0 && path[0] == g.entry && path[|path| - 1] == b &&
    forall j, k | 0 <= j < k < |path| && k == j + 1 :: HasEdge(g, path[j], path[k])
  }

  ghost predicate Reachable(g: Graph, b: nat)
  {
    exists path :: PathTo(g, path, b)
  }

  lemma ReachableStep(g: Graph, b: nat, to: nat)
    requires Reachable(g, b) && HasEdge(g, b, to)
    ensures Reachable(g, to)
  {
    hide HasEdge;
    var path :| PathTo(g, path, b);
    var longer := path + [to];
    forall j, k | 0 <= j < k < |longer| && k == j + 1 ensures HasEdge(g, longer[j], longer[k]) {
      if k < |path| { assert HasEdge(g, path[j], path[k]); }
    }
    assert PathTo(g, longer, to);
  }

  lemma BlockHasEdge(ins: seq<Instr>, order: seq<nat>, b: Block, i: nat, e: Edge) returns (k: nat)
    requires InRange(order, |ins|) && BlockOk(ins, order, b)
    requires b.start <= i < b.end <= |ins| && e in EdgesOf(ins, order, i)
    ensures k < |b.successors| && b.successors[k] == e
  {
    hide EdgesOf;
    hide Classify;
    assert e in b.successors;
    k :| 0 <= k < |b.successors| && b.successors[k] == e;
  }

  lemma RawBlock(ins: seq<Instr>, raw: seq<Block>, bi: nat)
    requires RawOk(ins, raw) && bi < |raw|
    ensures BlockOk(ins, OrderOf(ins, |ins|), raw[bi])
  {
    hide BlockOk;
    hide Tiles;
  }

  /** An edge an instruction contributes is an edge of its block. */
  lemma EdgeLifts(ins: seq<Instr>, bi: nat, i: nat, e: Edge, j: nat, bj: nat)
    requires Increasing(ins) && bi < |RawBlocks(ins)| && bj < |RawBlocks(ins)|
    requires RawBlocks(ins)[bi].start <= i < RawBlocks(ins)[bi].end <= |ins|
    requires RawBlocks(ins)[bj].start <= j < RawBlocks(ins)[bj].end
    requires e in EdgesOf(ins, OrderOf(ins, |ins|), i) && e.to == Some(j)
    ensures HasEdge(Built(ins), bi, bj)
  {
    hide RawBlocks;
    hide RawOk;
    hide OrderOf;
    hide EdgesOf;
    hide Built;
    hide Tiles;
    hide BlockOk;
    hide BlockOf;
    hide ResolveEdges;
    hide ResolveBlock;
    var raw := RawBlocks(ins);
    RawBlocksOk(ins);
    RawTiles(ins, raw);
    RawBlock(ins, raw, bi);
    var k := BlockHasEdge(ins, OrderOf(ins, |ins|), raw[bi], i, e);
    BlockOfOwn(raw, |ins|, bj, j);
    BuiltBlock(ins, bi);
    assert Built(ins).blocks[bi].successors[k] == ResolveEdge(raw, bi, e);
  }

  /** The edges an instruction contributes lead exactly where it can send control out of line. */
  lemma EdgesMean(ins: seq<Instr>, order: seq<nat>, i: nat, j: nat)
    requires Increasing(ins) && Identity(order) && |order| == |ins| && InRange(order, |ins|)
    requires i < |ins| && j < |ins|
    ensures (exists e :: e in EdgesOf(ins, order, i) && e.to == Some(j)) <==>
            Transfers(ins, i, j) || (IsConditional(ins[i]) && j == i + 1)
  {
    ClassifyExact(ins[i]);
    NextOwn(ins, order, i);
    if i + 1 < |ins| { ResolveOwn(ins, i + 1); }
    hide NextAddress;
    hide Resolve;
    hide Classify;
    hide Returns;
    hide Calls;
    hide Jumps;
    hide IsConditional;
    hide Increasing;
    hide Identity;
    var es := EdgesOf(ins, order, i);
    forall k | 0 <= k < |es| ensures es[k] in es {}
    if |es| > 0 { assert es[0] in es; }
    if |es| > 1 { assert es[1] in es; }
  }

  /** Which edge carries a flow, unless it is the silent step to the next instruction. */
  lemma FlowEdge(ins: seq<Instr>, order: seq<nat>, i: nat, j: nat) returns (e: Edge)
    requires Increasing(ins) && Flows(ins, i, j)
    requires Identity(order) && |order| == |ins| && InRange(order, |ins|)
    ensures i < |ins| && j < |ins|
    ensures (j == i + 1 && !EndsBlock(ins[i])) ||
            (e in EdgesOf(ins, order, i) && e.to == Some(j))
  {
    EdgesMean(ins, order, i, j);
    hide EdgesOf;
    hide Transfers;
    hide Increasing;
    hide Identity;
    e := Edge(0, None, FallEdge);
    if Transfers(ins, i, j) || (IsConditional(ins[i]) && j == i + 1) {
      e :| e in EdgesOf(ins, order, i) && e.to == Some(j);
    }
  }

  lemma NextBlock(ins: seq<Instr>, raw: seq<Block>, bi: nat, i: nat)
    requires RawOk(ins, raw) && bi < |raw| && raw[bi].start <= i < raw[bi].end <= |ins| && i + 1 < |ins|
    requires !EndsBlock(ins[i])
    ensures i + 1 < raw[bi].end
  {
    RawCutAt(ins, raw, bi);
    hide OrderOf;
    hide BlockOk;
    hide Classify;
  }

  /** One step of control stays in its block or follows an edge of the graph. */
  lemma FlowLifts(ins: seq<Instr>, i: nat, j: nat, bi: nat, bj: nat)
    requires Increasing(ins) && Flows(ins, i, j)
    requires bi < |RawBlocks(ins)| && bj < |RawBlocks(ins)|
    requires RawBlocks(ins)[bi].start <= i < RawBlocks(ins)[bi].end
    requires RawBlocks(ins)[bj].start <= j < RawBlocks(ins)[bj].end
    ensures bi == bj || HasEdge(Built(ins), bi, bj)
  {
    hide *;
    var raw := RawBlocks(ins);
    OrderIdentity(ins, |ins|);
    var e := FlowEdge(ins, OrderOf(ins, |ins|), i, j);
    RawBlocksOk(ins);
    RawTiles(ins, raw);
    RawBlock(ins, raw, bi);
    BlockOrder(ins, OrderOf(ins, |ins|), raw[bi]);
    if j == i + 1 && !EndsBlock(ins[i]) {
      NextBlock(ins, raw, bi, i);
      BlockOfOwn(raw, |ins|, bi, j);
      BlockOfOwn(raw, |ins|, bj, j);
    } else {
      EdgeLifts(ins, bi, i, e, j, bj);
    }
  }

  /** Instruction `i` can send control to `j` other than silently to the next in its block. */
  predicate Branches(ins: seq<Instr>, i: nat, j: nat)
  {
    i < |ins| && j < |ins| && (Transfers(ins, i, j) || (IsConditional(ins[i]) && j == i + 1))
  }

  predicate Within(b: Block, i: nat)
  {
    b.start <= i < b.end
  }

  ghost predicate BranchesBetween(ins: seq<Instr>, b: Block, c: Block)
  {
    exists i: nat, j: nat :: Within(b, i) && Within(c, j) && Branches(ins, i, j)
  }

  /** Where the edge behind a resolved one comes from and goes to. */
  lemma EdgeOrigin(ins: seq<Instr>, bi: nat, k: nat) returns (i: nat, j: nat)
    requires Increasing(ins) && bi < |RawBlocks(ins)| && bi < |Built(ins).blocks|
    requires k < |Built(ins).blocks[bi].successors| && Built(ins).blocks[bi].successors[k].to.Some?
    ensures Within(RawBlocks(ins)[bi], i) && Branches(ins, i, j)
    ensures Built(ins).blocks[bi].successors[k].to.value < |RawBlocks(ins)|
    ensures Within(RawBlocks(ins)[Built(ins).blocks[bi].successors[k].to.value], j)
  {
    hide *;
    var raw, order := RawBlocks(ins), OrderOf(ins, |ins|);
    RawBlocksOk(ins);
    RawTiles(ins, raw);
    RawBlock(ins, raw, bi);
    BuiltBlock(ins, bi);
    OrderIdentity(ins, |ins|);
    var e := raw[bi].successors[k];
    EdgeResolves(raw, bi, e);
    j := e.to.value;
    i := BlockEdgeOrigin(ins, order, raw[bi], e);
    WithinMeans(raw[Built(ins).blocks[bi].successors[k].to.value], j);
    WithinMeans(raw[bi], i);
    EdgeTargets(ins, order, i, e);
    EdgesMean(ins, order, i, j);
    BranchesMean(ins, i, j);
  }

  lemma WithinMeans(b: Block, i: nat)
    ensures Within(b, i) <==> b.start <= i < b.end
  {
  }

  lemma BranchesMean(ins: seq<Instr>, i: nat, j: nat)
    requires i < |ins| && j < |ins|
    ensures Branches(ins, i, j) <==> Transfers(ins, i, j) || (IsConditional(ins[i]) && j == i + 1)
  {
    hide Transfers;
    hide IsConditional;
  }

  lemma EdgeResolves(raw: seq<Block>, bi: nat, e: Edge)
    requires ResolveEdge(raw, bi, e).to.Some?
    ensures e.to.Some? && ResolveEdge(raw, bi, e).to == BlockOf(raw, e.to.value)
    ensures ResolveEdge(raw, bi, e).to.value < |raw|
    ensures raw[ResolveEdge(raw, bi, e).to.value].start <= e.to.value < raw[ResolveEdge(raw, bi, e).to.value].end
  {
  }

  lemma BlockEdgeOrigin(ins: seq<Instr>, order: seq<nat>, b: Block, e: Edge) returns (i: nat)
    requires InRange(order, |ins|) && BlockOk(ins, order, b) && e in b.successors
    ensures b.start <= i < b.end <= |ins| && e in EdgesOf(ins, order, i)
  {
    hide EdgesOf;
    hide Classify;
    i :| b.start <= i < b.end && e in EdgesOf(ins, order, i);
  }

  lemma EdgeTargets(ins: seq<Instr>, order: seq<nat>, i: nat, e: Edge)
    requires InRange(order, |ins|) && i < |ins| && e in EdgesOf(ins, order, i) && e.to.Some?
    ensures e.to.value < |ins|
  {
    hide NextAddress;
    hide Classify;
  }

  /** Block `bi` has an edge to `bj` if and only if an instruction of the one can branch to one of the other. */
  lemma EdgesExact(ins: seq<Instr>, bi: nat, bj: nat)
    requires Increasing(ins) && bi < |Built(ins).blocks| && bj < |Built(ins).blocks|
    ensures HasEdge(Built(ins), bi, bj) <==>
            BranchesBetween(ins, Built(ins).blocks[bi], Built(ins).blocks[bj])
  {
    hide RawBlocks;
    hide Built;
    hide Branches;
    hide EdgesOf;
    hide OrderOf;
    hide Increasing;
    hide Transfers;
    BuiltShape(ins);
    BuiltBlockRange(ins, bi);
    BuiltBlockRange(ins, bj);
    if HasEdge(Built(ins), bi, bj) {
      var k :| 0 <= k < |Built(ins).blocks[bi].successors| &&
               Built(ins).blocks[bi].successors[k].to == Some(bj);
      var i, j := EdgeOrigin(ins, bi, k);
    }
    if BranchesBetween(ins, Built(ins).blocks[bi], Built(ins).blocks[bj]) {
      var i: nat, j: nat :| Within(Built(ins).blocks[bi], i) && Within(Built(ins).blocks[bj], j) &&
                            Branches(ins, i, j);
      BranchHasEdge(ins, bi, bj, i, j);
    }
  }

  lemma BranchHasEdge(ins: seq<Instr>, bi: nat, bj: nat, i: nat, j: nat)
    requires Increasing(ins) && bi < |RawBlocks(ins)| && bj < |RawBlocks(ins)|
    requires Within(RawBlocks(ins)[bi], i) && Within(RawBlocks(ins)[bj], j) && Branches(ins, i, j)
    ensures HasEdge(Built(ins), bi, bj)
  {
    var order := OrderOf(ins, |ins|);
    hide RawBlocks;
    hide HasEdge;
    hide Built;
    hide EdgesOf;
    hide OrderOf;
    hide Transfers;
    hide Increasing;
    RawBlocksOk(ins);
    RawBlock(ins, RawBlocks(ins), bi);
    BlockOrder(ins, order, RawBlocks(ins)[bi]);
    OrderIdentity(ins, |ins|);
    EdgesMean(ins, order, i, j);
    var e :| e in EdgesOf(ins, order, i) && e.to == Some(j);
    EdgeLifts(ins, bi, i, e, j, bj);
  }

  /** A path of control over instructions from the first one. */
  ghost predicate FlowPath(ins: seq<Instr>, path: seq<nat>)
  {
    |path| > 0 && path[0] == 0 &&
    forall j, k | 0 <= j < k < |path| && k == j + 1 :: Flows(ins, path[j], path[k])
  }

  lemma FlowPathLast(ins: seq<Instr>, path: seq<nat>)
    requires FlowPath(ins, path) && |path| > 1
    ensures FlowPath(ins, path[..|path| - 1])
    ensures Flows(ins, path[|path| - 2], path[|path| - 1])
    ensures path[|path| - 1] < |ins|
  {
    hide Classify;
  }

  lemma EntryReachable(ins: seq<Instr>)
    requires Increasing(ins) && ins != []
    ensures |Built(ins).blocks| > 0 && Reachable(Built(ins), 0)
    ensures Built(ins).blocks[0].start == 0 < Built(ins).blocks[0].end
  {
    BuiltPartition(ins);
    hide Built;
    hide CutAt;
    assert PathTo(Built(ins), [0], 0);
  }

  /**
   Block reachability over-approximates instruction reachability: whatever
   fall-through, jumps, taken branches and direct calls can reach lies in a block
   reachable from the entry.
   */
  lemma {:induction false} FlowReachesBlock(ins: seq<Instr>, path: seq<nat>) returns (b: nat)
    requires Increasing(ins) && ins != [] && FlowPath(ins, path)
    ensures b < |Built(ins).blocks| && path[|path| - 1] < |ins|
    ensures Built(ins).blocks[b].start <= path[|path| - 1] < Built(ins).blocks[b].end
    ensures Reachable(Built(ins), b)
    decreases |path|
  {
    var g, n := Built(ins), |path| - 1;
    if n == 0 {
      b := 0;
      EntryReachable(ins);
      hide *;
    } else {
      FlowPathLast(ins, path);
      hide *;
      BuiltPartition(ins);
      var b' := FlowReachesBlock(ins, path[..n]);
      b := TilesCover(g.blocks, |ins|, path[n]);
      BuiltBlockRange(ins, b);
      BuiltBlockRange(ins, b');
      FlowLifts(ins, path[n - 1], path[n], b', b);
      if b != b' { ReachableStep(g, b', b); }
    }
  }

  lemma BuiltBlockRange(ins: seq<Instr>, b: nat)
    requires b < |Built(ins).blocks|
    ensures b < |RawBlocks(ins)|
    ensures Built(ins).blocks[b].start == RawBlocks(ins)[b].start
    ensures Built(ins).blocks[b].end == RawBlocks(ins)[b].end
  {
    hide *;
    BuiltShape(ins);
    BuiltBlock(ins, b);
  }

  /** No instruction of a block the graph reports unreachable can be reached by control. */
  lemma UnreachedBlockIsDead(ins: seq<Instr>, b: nat, path: seq<nat>)
    requires Increasing(ins) && ins != [] && FlowPath(ins, path)
    requires b < |Built(ins).blocks| && !Reachable(Built(ins), b)
    ensures !(Built(ins).blocks[b].start <= path[|path| - 1] < Built(ins).blocks[b].end)
  {
    var i := path[|path| - 1];
    hide *;
    var c := FlowReachesBlock(ins, path);
    BuiltPartition(ins);
    if Built(ins).blocks[b].start <= i < Built(ins).blocks[b].end {
      BlockOfOwn(Built(ins).blocks, |ins|, b, i);
      BlockOfOwn(Built(ins).blocks, |ins|, c, i);
    }
  }

  /**
   Sorting inside the builder does not make input order immaterial: blocks keep
   instruction indices as ranges, so two instructions given in descending address
   order end up in one block whose range is empty.
   */
  lemma UnsortedRangeEmpty(a: Instr, b: Instr)
    requires a.address > b.address && !EndsBlock(b)
    ensures |RawBlocks([a, b])| == 1
    ensures RawBlocks([a, b])[0].start == RawBlocks([a, b])[0].end == 1
    ensures BlockOf(RawBlocks([a, b]), 0).None? && BlockOf(RawBlocks([a, b]), 1).None?
  {
    var ins := [a, b];
    assert OrderOf(ins, 1) == [0];
    assert Insert(ins, [], 1) == [1];
    assert OrderOf(ins, 2) == [1, 0];
    var order: seq<nat> := [1, 0];
    ClassifyExact(b);
    hide Classify;
    assert Cut(ins, order, 0).1 == None;
    assert Cut(ins, order, 1).0 == [] && Cut(ins, order, 1).1.Some?;
    hide IsTerminator;
    hide EdgesOf;
    var block := Extended(ins, order, Cut(ins, order, 1).1, 0);
    assert Cut(ins, order, 1).0 + [block] == [block] && order[1] == 0;
    assert Cut(ins, order, 2) == ([block], None) || Cut(ins, order, 2) == ([], Some(block));
    assert RawBlocks(ins) == [block];
  }
}
