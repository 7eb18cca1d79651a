/**
 The worklist that lists unreachable blocks (crates/semasm-cfg/src/lib.rs).
 */
module CfgReach {
  import opened Basics
  import opened Cfg
  import opened CfgSoundness

  ghost predicate Ascending(r: seq<nat>)
  {
    forall i, j | 0 <= i < j < |r| :: r[i] < r[j]
  }

  ghost predicate Distinct(q: seq<nat>)
  {
    forall i, j | 0 <= i < j < |q| :: q[i] != q[j]
  }

  lemma {:induction false} BoundedSet(s: set<nat>, n: nat)
    requires forall x | x in s :: x < n
    ensures |s| <= n
  {
    if n == 0 {
      assert s == {};
    } else {
      BoundedSet(s - {n - 1}, n - 1);
    }
  }

  /** The marked blocks: every one handled already (`done`) or waiting once in the queue. */
  ghost predicate Worklist(g: Graph, seen: seq<bool>, done: set<nat>, queue: seq<nat>)
  {
    && |seen| == |g.blocks|
    && (forall b | b in done :: b < |seen|)
    && (forall k | 0 <= k < |queue| :: queue[k] < |seen| && queue[k] !in done)
    && Distinct(queue)
    && (forall b | 0 <= b < |seen| :: seen[b] <==> b in done || b in queue)
  }

  ghost predicate Sound(g: Graph, seen: seq<bool>)
  {
    forall b | 0 <= b < |seen| && seen[b] :: Reachable(g, b)
  }

  /** Handled blocks have all their successors marked. */
  ghost predicate Closed(g: Graph, seen: seq<bool>, done: set<nat>)
  {
    forall b: nat, to: nat | b in done && HasEdge(g, b, to) :: to < |seen| && seen[to]
  }

  lemma Enqueue(g: Graph, seen: seq<bool>, done: set<nat>, queue: seq<nat>, to: nat)
    requires Worklist(g, seen, done, queue) && to < |seen| && !seen[to]
    ensures Worklist(g, seen[to := true], done, queue + [to])
  {
    var seen', queue' := seen[to := true], queue + [to];
    forall b | 0 <= b < |seen'| ensures seen'[b] <==> b in done || b in queue' {
      assert seen[b] <==> b in done || b in queue;
    }
  }

  lemma Dequeue(g: Graph, seen: seq<bool>, done: set<nat>, queue: seq<nat>)
    requires Worklist(g, seen, done, queue) && queue != []
    ensures Worklist(g, seen, done + {queue[0]}, queue[1..])
  {
    var done', queue' := done + {queue[0]}, queue[1..];
    forall b | 0 <= b < |seen| ensures seen[b] <==> b in done' || b in queue' {
      assert queue == [queue[0]] + queue';
    }
    forall k | 0 <= k < |queue'| ensures queue'[k] < |seen| && queue'[k] !in done' {
      assert queue'[k] == queue[k + 1];
    }
  }

  /** The first `k` successors of `b` are marked. */
  ghost predicate Marked(g: Graph, seen: seq<bool>, b: nat, k: nat)
    requires b < |g.blocks| && k <= |g.blocks[b].successors|
  {
    forall i | 0 <= i < k :: var to := g.blocks[b].successors[i].to;
                             to.Some? ==> to.value < |seen| && seen[to.value]
  }

  /** Marks the successors of one block, queueing the new ones. */
  method Visit(g: Graph, seen: array<bool>, b: nat, queue0: seq<nat>, ghost done: set<nat>)
    returns (queue: seq<nat>)
    requires WellFormed(g) && b < |g.blocks| && Reachable(g, b)
    requires Worklist(g, seen[..], done, queue0) && Sound(g, seen[..])
    modifies seen
    ensures Worklist(g, seen[..], done, queue) && Sound(g, seen[..])
    ensures Marked(g, seen[..], b, |g.blocks[b].successors|)
    ensures forall c | 0 <= c < seen.Length && old(seen[c]) :: seen[c]
  {
    hide Reachable;
    hide HasEdge;
    hide Worklist;
    queue := queue0;
    var es := g.blocks[b].successors;
    for k := 0 to |es|
      invariant Worklist(g, seen[..], done, queue) && Sound(g, seen[..])
      invariant Marked(g, seen[..], b, k)
      invariant forall c | 0 <= c < seen.Length && old(seen[c]) :: seen[c]
    {
      if es[k].to.Some? {
        var to := es[k].to.value;
        WorklistLength(g, seen[..], done, queue);
        if !seen[to] {
          ghost var before := seen[..];
          Enqueue(g, before, done, queue, to);
          SuccessorReachable(g, b, k);
          seen[to] := true;
          queue := queue + [to];
          assert seen[..] == before[to := true];
        }
      }
    }
  }

  lemma WorklistLength(g: Graph, seen: seq<bool>, done: set<nat>, queue: seq<nat>)
    requires Worklist(g, seen, done, queue)
    ensures |seen| == |g.blocks|
  {
  }

  lemma SuccessorReachable(g: Graph, b: nat, k: nat)
    requires b < |g.blocks| && k < |g.blocks[b].successors| && Reachable(g, b)
    requires g.blocks[b].successors[k].to.Some?
    ensures Reachable(g, g.blocks[b].successors[k].to.value)
  {
    hide Reachable;
    ReachableStep(g, b, g.blocks[b].successors[k].to.value);
  }

  lemma ClosedGrows(
    g: Graph, before: seq<bool>, seen: seq<bool>, done: set<nat>, b: nat)
    requires Closed(g, before, done) && |before| == |seen| && b < |g.blocks|
    requires forall c | 0 <= c < |seen| && before[c] :: seen[c]
    requires Marked(g, seen, b, |g.blocks[b].successors|)
    ensures Closed(g, seen, done + {b})
  {
    forall c: nat, to: nat | c in done + {b} && HasEdge(g, c, to) ensures to < |seen| && seen[to] {
      if c !in done {
        var k :| 0 <= k < |g.blocks[b].successors| && g.blocks[b].successors[k].to == Some(to);
      }
    }
  }

  /** A marked, closed set that holds the entry holds every reachable block. */
  lemma {:induction false} ClosedCovers(g: Graph, seen: seq<bool>, done: set<nat>, path: seq<nat>, b: nat)
    requires Closed(g, seen, done) && PathTo(g, path, b)
    requires forall c | 0 <= c < |seen| && seen[c] :: c in done
    requires g.entry < |seen| && seen[g.entry]
    ensures b < |seen| && seen[b]
    decreases |path|
  {
    var n := |path| - 1;
    if n > 0 {
      var init := path[..n];
      assert PathTo(g, init, path[n - 1]);
      ClosedCovers(g, seen, done, init, path[n - 1]);
      assert HasEdge(g, path[n - 1], path[n]);
    }
  }

  /** Each block enters the queue at most once, so the loop handles at most every block. */
  method MarkReachable(g: Graph) returns (seen: array<bool>)
    requires WellFormed(g)
    ensures fresh(seen) && seen.Length == |g.blocks|
    ensures forall b | 0 <= b < seen.Length :: seen[b] <==> Reachable(g, b)
  {
    seen := new bool[|g.blocks|](_ => false);
    var queue: seq<nat> := [g.entry];
    seen[g.entry] := true;
    ghost var done: set<nat> := {};
    StartReachable(g);
    hide Reachable;
    hide HasEdge;
    while queue != []
      invariant Worklist(g, seen[..], done, queue) && Sound(g, seen[..])
      invariant Closed(g, seen[..], done) && g.entry < seen.Length && seen[g.entry]
      decreases |g.blocks| - |done|
    {
      ghost var before := seen[..];
      var b := queue[0];
      Dequeue(g, seen[..], done, queue);
      BoundedSet(done + {b}, |g.blocks|);
      queue := Visit(g, seen, b, queue[1..], done + {b});
      ClosedGrows(g, before, seen[..], done, b);
      done := done + {b};
    }
    forall b | 0 <= b < seen.Length && Reachable(g, b) ensures seen[b] {
      var path := ReachablePath(g, b);
      ClosedCovers(g, seen[..], done, path, b);
    }
  }

  lemma StartReachable(g: Graph)
    ensures Reachable(g, g.entry)
  {
    assert PathTo(g, [g.entry], g.entry);
  }

  lemma ReachablePath(g: Graph, b: nat) returns (path: seq<nat>)
    requires Reachable(g, b)
    ensures PathTo(g, path, b)
  {
    path :| PathTo(g, path, b);
  }

  /** Exactly the blocks outside the closure of the resolved edges from the entry, ascending. */
  method UnreachableBlocks(g: Graph) returns (r: seq<nat>)
    requires WellFormed(g)
    ensures Ascending(r)
    ensures forall b: nat :: b in r <==> b < |g.blocks| && !Reachable(g, b)
  {
    var seen := MarkReachable(g);
    hide Reachable;
    r := [];
    for i := 0 to seen.Length
      invariant Ascending(r) && forall k | 0 <= k < |r| :: r[k] < i
      invariant forall b: nat :: b in r <==> b < i && !seen[b]
    {
      if !seen[i] { r := r + [i]; }
    }
  }
}
