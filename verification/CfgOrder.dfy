/**
 What the builder's internal sort does and does not save callers from
 (crates/semasm-cfg/src/lib.rs): blocks are cut along addresses but keep index
 ranges, and the two agree exactly when the list ascends within each block.
 */
module CfgOrder {
  import opened Basics
  import opened Cfg
  import opened ControlFlow
  import opened CfgSoundness

  predicate DistinctAddresses(ins: seq<Instr>)
  {
    forall i, j | 0 <= i < j < |ins| :: ins[i].address != ins[j].address
  }

  /** `j` is at the next higher address after `i`. */
  predicate Follows(ins: seq<Instr>, i: nat, j: nat)
  {
    && i < |ins| && j < |ins| && ins[i].address < ins[j].address
    && forall k | 0 <= k < |ins| :: !(ins[i].address < ins[k].address < ins[j].address)
  }

  /** Below the end of a block the next instruction in memory is the next in the list. */
  predicate AscendsByBlock(ins: seq<Instr>)
  {
    forall i, j | 0 <= i < |ins| && 0 <= j < |ins| && Follows(ins, i, j) && !EndsBlock(ins[i]) ::
      j == i + 1
  }

  predicate InIndexRange(b: Block, i: nat)
  {
    b.start <= i < b.end
  }

  predicate InAddressRange(ins: seq<Instr>, b: Block, i: nat)
  {
    i < |ins| && b.startAddress <= ins[i].address <= b.endAddress
  }

  /** The index range and the address range of a block name the same instructions in the same order. */
  ghost predicate RangeRight(ins: seq<Instr>, b: Block)
  {
    && (forall i: nat :: InIndexRange(b, i) <==> InAddressRange(ins, b, i))
    && (forall i: nat, j: nat | InIndexRange(b, i) && InIndexRange(b, j) && i < j && j < |ins| ::
          ins[i].address < ins[j].address)
  }

  // ----- the order is a sorted permutation -----

  predicate SortedBy(ins: seq<Instr>, order: seq<nat>)
    requires InRange(order, |ins|)
  {
    forall a, b | 0 <= a < b < |order| :: ins[order[a]].address < ins[order[b]].address
  }

  predicate Listed(order: seq<nat>, i: nat)
  {
    exists q | 0 <= q < |order| :: order[q] == i
  }

  lemma ListedWith(order: seq<nat>, i: nat)
    ensures forall k: nat :: Listed(order + [i], k) <==> k == i || Listed(order, k)
  {
    var r := order + [i];
    assert r[|order|] == i;
    forall k: nat | Listed(order, k) ensures Listed(r, k) {
      var q :| 0 <= q < |order| && order[q] == k;
      assert r[q] == k;
    }
  }

  lemma SortedWith(ins: seq<Instr>, order: seq<nat>, i: nat)
    requires i < |ins| && InRange(order, |ins|) && SortedBy(ins, order)
    requires forall k: nat | Listed(order, k) :: k < |ins| && ins[k].address < ins[i].address
    ensures SortedBy(ins, order + [i])
  {
    forall q | 0 <= q < |order| ensures ins[order[q]].address < ins[i].address {
      assert Listed(order, order[q]);
    }
  }

  lemma {:induction false} InsertSorts(ins: seq<Instr>, order: seq<nat>, i: nat)
    requires i < |ins| && InRange(order, |ins|) && SortedBy(ins, order)
    requires forall q | 0 <= q < |order| :: ins[order[q]].address != ins[i].address
    ensures SortedBy(ins, Insert(ins, order, i))
    ensures forall k: nat :: Listed(Insert(ins, order, i), k) <==> k == i || Listed(order, k)
  {
    if order == [] || ins[order[|order| - 1]].address <= ins[i].address {
      assert Insert(ins, order, i) == order + [i];
      ListedWith(order, i);
      SortedWith(ins, order, i);
    } else {
      var n := |order| - 1;
      var init, last := order[..n], order[n];
      assert order == init + [last];
      InsertSorts(ins, init, i);
      assert Insert(ins, order, i) == Insert(ins, init, i) + [last];
      ListedWith(init, last);
      ListedWith(Insert(ins, init, i), last);
      forall k: nat | Listed(Insert(ins, init, i), k) ensures k < |ins| && ins[k].address < ins[last].address {
        if k != i { var q :| 0 <= q < |init| && init[q] == k; }
      }
      SortedWith(ins, Insert(ins, init, i), last);
    }
  }

  lemma {:induction false} OrderSorts(ins: seq<Instr>, n: nat)
    requires DistinctAddresses(ins) && n <= |ins|
    ensures SortedBy(ins, OrderOf(ins, n))
    ensures forall k: nat :: Listed(OrderOf(ins, n), k) <==> k < n
  {
    hide Insert;
    hide SortedBy;
    if n == 0 {
      NothingSorted(ins);
    } else {
      OrderSorts(ins, n - 1);
      var order := OrderOf(ins, n - 1);
      forall q | 0 <= q < |order| ensures ins[order[q]].address != ins[n - 1].address {
        assert Listed(order, order[q]);
        assert order[q] < n - 1;
      }
      hide Listed;
      InsertSorts(ins, order, n - 1);
    }
  }

  lemma NothingSorted(ins: seq<Instr>)
    ensures SortedBy(ins, [])
  {
  }

  // ----- blocks by positions of the order -----

  /** The order as the builder walks it: sorted, and every instruction once. */
  predicate Walk(ins: seq<Instr>, order: seq<nat>)
  {
    && InRange(order, |ins|) && |order| == |ins| && SortedBy(ins, order)
    && forall k: nat | k < |ins| :: Listed(order, k)
  }

  predicate Ends(ins: seq<Instr>, order: seq<nat>, q: nat)
    requires InRange(order, |ins|) && q < |order|
  {
    EndsBlock(ins[order[q]])
  }

  /** Block `b` was cut from positions `lo..hi` of the order. */
  ghost predicate CutFrom(ins: seq<Instr>, order: seq<nat>, b: Block, lo: nat, hi: nat)
    requires InRange(order, |ins|)
  {
    && lo < hi <= |order|
    && b.start == order[lo] && b.end == order[hi - 1] + 1
    && b.startAddress == ins[order[lo]].address && b.endAddress == ins[order[hi - 1]].address
    && forall q | lo <= q < hi - 1 :: !Ends(ins, order, q)
  }

  /** Blocks laid end to end over the positions `0..n`, each but the last closed by a terminator. */
  ghost predicate CutAlong(ins: seq<Instr>, order: seq<nat>, bs: seq<Block>, cuts: seq<nat>, n: nat)
    requires InRange(order, |ins|)
  {
    && |cuts| == |bs| + 1 && cuts[0] == 0 && cuts[|bs|] == n <= |order|
    && (forall k | 0 <= k < |bs| :: CutFrom(ins, order, bs[k], cuts[k], cuts[k + 1]))
    && (forall k | 0 < k < |bs| :: 0 < cuts[k] <= |order| && Ends(ins, order, cuts[k] - 1))
  }

  lemma CutUnfolds(ins: seq<Instr>, order: seq<nat>, n: nat)
    requires InRange(order, |ins|) && 0 < n <= |order|
    ensures order[n - 1] < |ins|
    ensures var (done, current) := Cut(ins, order, n - 1);
            var b := Extended(ins, order, current, order[n - 1]);
            && Joined(Cut(ins, order, n).0, Cut(ins, order, n).1) == done + [b]
            && (Cut(ins, order, n).1.None? <==> Ends(ins, order, n - 1))
  {
    hide Extended;
    ClassifyExact(ins[order[n - 1]]);
    hide EndsBlock;
    hide Classify;
    hide IsTerminator;
  }

  lemma ExtendedFrom(ins: seq<Instr>, order: seq<nat>, current: Option<Block>, lo: nat, n: nat)
    requires InRange(order, |ins|) && 0 < n <= |order|
    requires if current.Some? then n > 1 && CutFrom(ins, order, current.value, lo, n - 1) && !Ends(ins, order, n - 2)
             else lo == n - 1
    ensures CutFrom(ins, order, Extended(ins, order, current, order[n - 1]), lo, n)
  {
    hide EdgesOf;
    hide Classify;
    hide IsTerminator;
  }

  lemma {:induction false} CutPositions(ins: seq<Instr>, order: seq<nat>, n: nat) returns (cuts: seq<nat>)
    requires InRange(order, |ins|) && n <= |order|
    ensures CutAlong(ins, order, Joined(Cut(ins, order, n).0, Cut(ins, order, n).1), cuts, n)
    ensures n > 0 ==> (Cut(ins, order, n).1.None? <==> Ends(ins, order, n - 1))
    ensures n == 0 ==> Cut(ins, order, n).1.None?
  {
    hide *;
    if n == 0 {
      cuts := [0];
      NothingCut(ins, order);
    } else {
      var before := CutPositions(ins, order, n - 1);
      CutUnfolds(ins, order, n);
      var done, current := Cut(ins, order, n - 1).0, Cut(ins, order, n - 1).1;
      LastCut(ins, order, done, current, before, n - 1);
      cuts := if current.Some? then before[..|done| + 1] + [n] else before + [n];
      if current.Some? { CutNonempty(ins, order, current.value, before[|done|], n - 1); }
      ExtendedFrom(ins, order, current, cuts[|done|], n);
      Replaced(ins, order, done, current, Extended(ins, order, current, order[n - 1]), before, cuts, n);
    }
  }

  lemma NothingCut(ins: seq<Instr>, order: seq<nat>)
    requires InRange(order, |ins|)
    ensures Cut(ins, order, 0).1.None?
    ensures CutAlong(ins, order, Joined(Cut(ins, order, 0).0, Cut(ins, order, 0).1), [0], 0)
  {
  }

  lemma LastCut(
    ins: seq<Instr>, order: seq<nat>, done: seq<Block>, current: Option<Block>, cuts: seq<nat>, n: nat)
    requires InRange(order, |ins|) && CutAlong(ins, order, Joined(done, current), cuts, n)
    ensures |Joined(done, current)| == |done| + (if current.Some? then 1 else 0)
    ensures |cuts| == |Joined(done, current)| + 1
    ensures if current.Some? then CutFrom(ins, order, current.value, cuts[|done|], n) else cuts[|done|] == n
  {
    hide CutFrom;
    hide Ends;
    var all := Joined(done, current);
    if current.Some? {
      assert all[|done|] == current.value;
      assert CutFrom(ins, order, all[|done|], cuts[|done|], cuts[|done| + 1]);
    }
  }

  lemma CutNonempty(ins: seq<Instr>, order: seq<nat>, b: Block, lo: nat, hi: nat)
    requires InRange(order, |ins|) && CutFrom(ins, order, b, lo, hi)
    ensures lo < hi <= |order|
  {
  }

  /** Replacing or appending the open block keeps the blocks laid end to end. */
  lemma Replaced(
    ins: seq<Instr>, order: seq<nat>, done: seq<Block>, current: Option<Block>, b: Block,
    before: seq<nat>, cuts: seq<nat>, n: nat)
    requires InRange(order, |ins|) && 0 < n <= |order|
    requires CutAlong(ins, order, Joined(done, current), before, n - 1)
    requires current.None? && n > 1 ==> Ends(ins, order, n - 2)
    requires |before| == |Joined(done, current)| + 1
    requires cuts == if current.Some? then before[..|done| + 1] + [n] else before + [n]
    requires CutFrom(ins, order, b, cuts[|done|], n)
    ensures CutAlong(ins, order, done + [b], cuts, n)
  {
    hide Ends;
    hide CutFrom;
    hide InRange;
    var bs, prior := done + [b], Joined(done, current);
    forall k | 0 <= k < |bs| ensures CutFrom(ins, order, bs[k], cuts[k], cuts[k + 1]) {
      if k < |done| {
        assert CutFrom(ins, order, prior[k], before[k], before[k + 1]);
        assert prior[k] == bs[k] && cuts[k] == before[k] && cuts[k + 1] == before[k + 1];
      }
    }
    forall k | 0 < k < |bs| ensures 0 < cuts[k] <= |order| && Ends(ins, order, cuts[k] - 1) {
      if k < |prior| {
        assert cuts[k] == before[k];
      } else {
        assert cuts[k] == n - 1;
        assert CutFrom(ins, order, prior[k - 1], before[k - 1], before[k]);
        CutNonempty(ins, order, prior[k - 1], before[k - 1], before[k]);
      }
    }
  }

  // ----- neighbours -----

  lemma PositionOf(ins: seq<Instr>, order: seq<nat>, i: nat) returns (q: nat)
    requires Walk(ins, order) && i < |ins|
    ensures q < |order| && order[q] == i
  {
    assert Listed(order, i);
    q :| 0 <= q < |order| && order[q] == i;
  }

  /** Neighbours in the order are at neighbouring addresses. */
  lemma NeighboursFollow(ins: seq<Instr>, order: seq<nat>, q: nat)
    requires Walk(ins, order) && q + 1 < |order|
    ensures Follows(ins, order[q], order[q + 1])
  {
    forall k | 0 <= k < |ins|
      ensures !(ins[order[q]].address < ins[k].address < ins[order[q + 1]].address)
    {
      var p := PositionOf(ins, order, k);
    }
  }

  lemma FollowersNeighbour(ins: seq<Instr>, order: seq<nat>, q: nat, j: nat)
    requires Walk(ins, order) && q < |order| && Follows(ins, order[q], j)
    ensures q + 1 < |order| && order[q + 1] == j
  {
    var p := PositionOf(ins, order, j);
    assert q < p;
    assert q + 1 < |order| && ins[order[q]].address < ins[order[q + 1]].address;
  }

  /** The block that holds a position. */
  lemma BlockAt(ins: seq<Instr>, order: seq<nat>, bs: seq<Block>, cuts: seq<nat>, n: nat, q: nat)
    returns (k: nat)
    requires InRange(order, |ins|) && CutAlong(ins, order, bs, cuts, n) && q < n
    ensures k < |bs| && cuts[k] <= q < cuts[k + 1]
  {
    hide CutFrom;
    k := 0;
    while !(q < cuts[k + 1])
      invariant k < |bs| && cuts[k] <= q
      decreases |bs| - k
    {
      k := k + 1;
    }
  }

  // ----- ranges -----

  /** In a list that ascends by block a block's positions are consecutive indices. */
  lemma {:induction false} Consecutive(ins: seq<Instr>, order: seq<nat>, b: Block, lo: nat, hi: nat, q: nat)
    requires Walk(ins, order) && AscendsByBlock(ins) && CutFrom(ins, order, b, lo, hi) && lo <= q < hi
    ensures order[q] == b.start + (q - lo)
  {
    hide Classify;
    hide IsTerminator;
    if q > lo {
      Consecutive(ins, order, b, lo, hi, q - 1);
      NeighboursFollow(ins, order, q - 1);
      assert !Ends(ins, order, q - 1);
      assert Follows(ins, order[q - 1], order[q]);
    }
  }

  lemma AscendingRight(ins: seq<Instr>, order: seq<nat>, b: Block, lo: nat, hi: nat)
    requires Walk(ins, order) && AscendsByBlock(ins) && CutFrom(ins, order, b, lo, hi)
    ensures RangeRight(ins, b)
  {
    hide AscendsByBlock;
    Consecutive(ins, order, b, lo, hi, hi - 1);
    forall i: nat ensures InIndexRange(b, i) <==> InAddressRange(ins, b, i) {
      if InIndexRange(b, i) { Consecutive(ins, order, b, lo, hi, lo + (i - b.start)); }
      if InAddressRange(ins, b, i) {
        var q := PositionOf(ins, order, i);
        assert lo <= q < hi;
        Consecutive(ins, order, b, lo, hi, q);
      }
    }
    forall i: nat, j: nat | InIndexRange(b, i) && InIndexRange(b, j) && i < j && j < |ins|
      ensures ins[i].address < ins[j].address
    {
      Consecutive(ins, order, b, lo, hi, lo + (i - b.start));
      Consecutive(ins, order, b, lo, hi, lo + (j - b.start));
    }
  }

  /** In a block whose ranges agree, neighbours in memory are neighbours in the list. */
  lemma RightAscends(ins: seq<Instr>, b: Block, i: nat, j: nat)
    requires RangeRight(ins, b) && Follows(ins, i, j) && InAddressRange(ins, b, i) && InAddressRange(ins, b, j)
    ensures j == i + 1
  {
    assert InIndexRange(b, i) && InIndexRange(b, j);
    assert i < j;
    assert InIndexRange(b, i + 1) && ins[i].address < ins[i + 1].address;
  }

  /** The raw blocks of a list with distinct addresses, by positions of its order. */
  lemma RawPositions(ins: seq<Instr>) returns (order: seq<nat>, cuts: seq<nat>)
    requires DistinctAddresses(ins)
    ensures Walk(ins, order) && CutAlong(ins, order, RawBlocks(ins), cuts, |ins|)
  {
    order := OrderOf(ins, |ins|);
    OrderSorts(ins, |ins|);
    hide OrderOf;
    cuts := CutPositions(ins, order, |ins|);
    hide Cut;
    hide CutAlong;
  }

  /** A terminator-free step of memory stays in its block. */
  lemma StepInBlock(ins: seq<Instr>, order: seq<nat>, bs: seq<Block>, cuts: seq<nat>, i: nat, j: nat)
    returns (k: nat)
    requires Walk(ins, order) && CutAlong(ins, order, bs, cuts, |ins|)
    requires Follows(ins, i, j) && !EndsBlock(ins[i])
    ensures k < |bs| && InAddressRange(ins, bs[k], i) && InAddressRange(ins, bs[k], j)
  {
    hide Classify;
    hide IsTerminator;
    var q := PositionOf(ins, order, i);
    FollowersNeighbour(ins, order, q, j);
    k := BlockAt(ins, order, bs, cuts, |ins|, q);
    assert CutFrom(ins, order, bs[k], cuts[k], cuts[k + 1]);
    assert k + 1 < |bs| ==> Ends(ins, order, cuts[k + 1] - 1);
    assert q + 1 < cuts[k + 1];
    InsideAddresses(ins, order, bs[k], cuts[k], cuts[k + 1], q);
    InsideAddresses(ins, order, bs[k], cuts[k], cuts[k + 1], q + 1);
  }

  lemma InsideAddresses(ins: seq<Instr>, order: seq<nat>, b: Block, lo: nat, hi: nat, q: nat)
    requires Walk(ins, order) && CutFrom(ins, order, b, lo, hi) && lo <= q < hi
    ensures InAddressRange(ins, b, order[q])
  {
    hide Ends;
  }

  lemma RawRangesExact(ins: seq<Instr>)
    requires DistinctAddresses(ins)
    ensures (forall k | 0 <= k < |RawBlocks(ins)| :: RangeRight(ins, RawBlocks(ins)[k])) <==> AscendsByBlock(ins)
  {
    var raw := RawBlocks(ins);
    hide RawBlocks;
    hide RangeRight;
    hide Classify;
    hide IsTerminator;
    var order, cuts := RawPositions(ins);
    if AscendsByBlock(ins) {
      forall k | 0 <= k < |raw| ensures RangeRight(ins, raw[k]) {
        AscendingRight(ins, order, raw[k], cuts[k], cuts[k + 1]);
      }
    }
    if forall k | 0 <= k < |raw| :: RangeRight(ins, raw[k]) {
      forall i, j | 0 <= i < |ins| && 0 <= j < |ins| && Follows(ins, i, j) && !EndsBlock(ins[i])
        ensures j == i + 1
      {
        var k := StepInBlock(ins, order, raw, cuts, i, j);
        RightAscends(ins, raw[k], i, j);
      }
    }
  }

  lemma SameRange(ins: seq<Instr>, a: Block, b: Block)
    requires a.start == b.start && a.end == b.end
    requires a.startAddress == b.startAddress && a.endAddress == b.endAddress
    ensures RangeRight(ins, a) <==> RangeRight(ins, b)
  {
    assert forall i: nat :: InIndexRange(a, i) <==> InIndexRange(b, i);
    assert forall i: nat :: InAddressRange(ins, a, i) <==> InAddressRange(ins, b, i);
  }

  lemma ResolvedRange(raw: seq<Block>, bi: nat)
    requires bi < |raw|
    ensures var b := ResolveBlock(raw, bi);
            && b.start == raw[bi].start && b.end == raw[bi].end
            && b.startAddress == raw[bi].startAddress && b.endAddress == raw[bi].endAddress
  {
    hide ResolveEdges;
    hide ResolveEnd;
  }

  /**
   Exactly when callers need not sort: for distinct addresses, every block's index range
   and address range name the same instructions in the same order if and only if the
   list ascends by block.
   */
  lemma RangesExact(ins: seq<Instr>)
    requires DistinctAddresses(ins)
    ensures (forall k | 0 <= k < |Built(ins).blocks| :: RangeRight(ins, Built(ins).blocks[k])) <==> AscendsByBlock(ins)
  {
    hide *;
    RawRangesExact(ins);
    BuiltShape(ins);
    forall k | 0 <= k < |Built(ins).blocks|
      ensures RangeRight(ins, Built(ins).blocks[k]) <==> RangeRight(ins, RawBlocks(ins)[k])
    {
      BuiltBlock(ins, k);
      ResolvedRange(RawBlocks(ins), k);
      SameRange(ins, Built(ins).blocks[k], RawBlocks(ins)[k]);
    }
  }

  /** Such a list is partitioned: every instruction is in the range of exactly one block. */
  lemma AscendingPartition(ins: seq<Instr>, i: nat) returns (k: nat)
    requires DistinctAddresses(ins) && AscendsByBlock(ins) && i < |ins|
    ensures k < |RawBlocks(ins)| && InIndexRange(RawBlocks(ins)[k], i)
    ensures forall m | 0 <= m < |RawBlocks(ins)| && InIndexRange(RawBlocks(ins)[m], i) :: m == k
  {
    var raw := RawBlocks(ins);
    RawRangesExact(ins);
    hide RawBlocks;
    hide AscendsByBlock;
    var order, cuts := RawPositions(ins);
    var q := PositionOf(ins, order, i);
    k := BlockAt(ins, order, raw, cuts, |ins|, q);
    InsideAddresses(ins, order, raw[k], cuts[k], cuts[k + 1], q);
    assert RangeRight(ins, raw[k]);
    forall m | 0 <= m < |raw| && InIndexRange(raw[m], i) ensures m == k {
      assert RangeRight(ins, raw[m]) && InAddressRange(ins, raw[m], i);
      PositionInside(ins, order, raw[m], cuts[m], cuts[m + 1], q);
      OneCut(ins, order, raw, cuts, |ins|, k, m, q);
    }
  }

  lemma PositionInside(ins: seq<Instr>, order: seq<nat>, b: Block, lo: nat, hi: nat, q: nat)
    requires Walk(ins, order) && CutFrom(ins, order, b, lo, hi) && q < |order|
    requires InAddressRange(ins, b, order[q])
    ensures lo <= q < hi
  {
    hide Ends;
  }

  lemma OneCut(
    ins: seq<Instr>, order: seq<nat>, bs: seq<Block>, cuts: seq<nat>, n: nat, k: nat, m: nat, q: nat)
    requires InRange(order, |ins|) && CutAlong(ins, order, bs, cuts, n) && k < |bs| && m < |bs|
    requires cuts[k] <= q < cuts[k + 1] && cuts[m] <= q < cuts[m + 1]
    ensures m == k
  {
    if k < m { CutsAscend(ins, order, bs, cuts, n, k + 1, m); }
    if m < k { CutsAscend(ins, order, bs, cuts, n, m + 1, k); }
  }

  lemma {:induction false} CutsAscend(
    ins: seq<Instr>, order: seq<nat>, bs: seq<Block>, cuts: seq<nat>, n: nat, k: nat, m: nat)
    requires InRange(order, |ins|) && CutAlong(ins, order, bs, cuts, n) && k <= m <= |bs|
    ensures cuts[k] <= cuts[m]
    decreases m - k
  {
    hide Ends;
    if k < m {
      CutsAscend(ins, order, bs, cuts, n, k, m - 1);
      assert CutFrom(ins, order, bs[m - 1], cuts[m - 1], cuts[m]);
    }
  }
}
