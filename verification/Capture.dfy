/**
 Bounded process capture (crates/semasm-build/src/exec.rs): draining one pipe, and
 the polling loop that waits for the child and both drains.
 */
module Capture {
  import opened Basics
  import opened CanonicalJson
  import opened Evaluator

  // ----- draining a pipe -----

  datatype Read = Chunk(bytes: seq<Byte>) | Eof | ReadError

  datatype Captured = Captured(bytes: seq<Byte>, total: nat, truncated: bool, failed: bool)

  /** Position of the read that ends the stream. */
  ghost predicate EndsAt(script: seq<Read>, n: nat)
  {
    n < |script| && !script[n].Chunk? && forall i | 0 <= i < n :: script[i].Chunk?
  }

  /** Everything the first `n` reads delivered. */
  function Stream(script: seq<Read>, n: nat): (b: seq<Byte>)
    requires n <= |script|
  {
    if n == 0 then []
    else Stream(script, n - 1) + (if script[n - 1].Chunk? then script[n - 1].bytes else [])
  }

  function Taken(b: seq<Byte>, limit: nat): (r: seq<Byte>)
  {
    if |b| <= limit then b else b[..limit]
  }

  /** Keeps at most `limit` bytes but reads and counts to the end of the stream. */
  method Drain(script: seq<Read>, limit: nat, ghost end: nat) returns (c: Captured)
    requires EndsAt(script, end)
    ensures c.bytes == Taken(Stream(script, end), limit) && c.total == |Stream(script, end)|
    ensures c.truncated <==> |Stream(script, end)| > limit
    ensures c.failed <==> script[end].ReadError?
  {
    var captured: seq<Byte> := [];
    var total: nat := 0;
    var i: nat := 0;
    while script[i].Chunk?
      invariant i <= end < |script|
      invariant total == |Stream(script, i)| && captured == Taken(Stream(script, i), limit)
      decreases end - i
    {
      var chunk := script[i].bytes;
      total := total + |chunk|;
      var remaining := limit - |captured|;
      captured := captured + Taken(chunk, remaining);
      assert Stream(script, i + 1) == Stream(script, i) + chunk;
      i := i + 1;
    }
    c := Captured(captured, total, total > |captured|, script[i].ReadError?);
  }

  /**
   Judging the capture is judging the whole stream, as long as the limit leaves room
   for what is expected: a limit can only make a run fail.
   */
  lemma CaptureFailsClosed(b: seq<Byte>, limit: nat, want: seq<Byte>)
    ensures Begins(Taken(b, limit), want) <==> Begins(b, want) && |want| <= limit
  {
    if |b| > limit && |want| <= limit {
      assert b[..limit][..|want|] == b[..|want|];
    }
  }

  // ----- the polling loop -----

  datatype Wait = Running | Exited(code: Option<int>) | WaitFailed

  /** What one turn of the loop observes: the child, the two drains, the clock. */
  datatype Turn = Turn(wait: Wait, out: Option<Captured>, err: Option<Captured>, late: bool)

  datatype Polled =
    | PollError
    | Polled(exit: Option<Option<int>>, out: Option<Captured>, err: Option<Captured>, timedOut: bool)

  /** First of the first `n` turns that saw the child exit. */
  function ExitBy(ts: seq<Turn>, n: nat): (e: Option<Option<int>>)
    requires n <= |ts|
  {
    if n == 0 then None
    else if ExitBy(ts, n - 1).Some? then ExitBy(ts, n - 1)
    else match ts[n - 1].wait
      case Exited(code) => Some(code)
      case _ => None
  }

  function OutBy(ts: seq<Turn>, n: nat): (c: Option<Captured>)
    requires n <= |ts|
  {
    if n == 0 then None else if OutBy(ts, n - 1).Some? then OutBy(ts, n - 1) else ts[n - 1].out
  }

  function ErrBy(ts: seq<Turn>, n: nat): (c: Option<Captured>)
    requires n <= |ts|
  {
    if n == 0 then None else if ErrBy(ts, n - 1).Some? then ErrBy(ts, n - 1) else ts[n - 1].err
  }

  predicate CompleteBy(ts: seq<Turn>, n: nat)
    requires n <= |ts|
  {
    ExitBy(ts, n).Some? && OutBy(ts, n).Some? && ErrBy(ts, n).Some?
  }

  /** The child could not be polled in turn `n`, before it was seen to exit. */
  predicate BrokenAt(ts: seq<Turn>, n: nat)
    requires n < |ts|
  {
    ExitBy(ts, n).None? && ts[n].wait.WaitFailed?
  }

  predicate StopsAt(ts: seq<Turn>, n: nat)
    requires n < |ts|
  {
    BrokenAt(ts, n) || CompleteBy(ts, n + 1) || ts[n].late
  }

  /**
   The loop ends in the first turn that is broken, complete or late.  A result that is
   not a timeout has seen the exit and both drains; `killed` is what waiting for the
   child gives after its process tree was terminated.
   */
  method Poll(ts: seq<Turn>, killed: Option<Option<int>>) returns (r: Polled, ghost n: nat)
    requires exists i | 0 <= i < |ts| :: ts[i].late
    ensures n < |ts| && StopsAt(ts, n) && forall k | 0 <= k < n :: !StopsAt(ts, k)
    ensures r.PollError? <==> BrokenAt(ts, n)
    ensures r.Polled? ==> (r.timedOut <==> !CompleteBy(ts, n + 1))
    ensures r.Polled? ==> r.out == OutBy(ts, n + 1) && r.err == ErrBy(ts, n + 1)
    ensures r.Polled? ==> r.exit == if ExitBy(ts, n + 1).Some? then ExitBy(ts, n + 1) else killed
    ensures r.Polled? && !r.timedOut ==> r.exit.Some? && r.out.Some? && r.err.Some?
  {
    var status: Option<Option<int>> := None;
    var out: Option<Captured>, err: Option<Captured> := None, None;
    ghost var last :| 0 <= last < |ts| && ts[last].late;
    n := 0;
    var i: nat := 0;
    while true
      invariant n == i <= last
      invariant status == ExitBy(ts, i) && out == OutBy(ts, i) && err == ErrBy(ts, i)
      invariant forall k | 0 <= k < i :: !StopsAt(ts, k)
      decreases last - i
    {
      var t := ts[i];
      if status.None? {
        match t.wait {
          case Exited(code) => status := Some(code);
          case Running =>
          case WaitFailed => return PollError, n;
        }
      }
      if out.None? { out := t.out; }
      if err.None? { err := t.err; }
      if out.Some? && err.Some? && status.Some? {
        return Polled(status, out, err, false), n;
      }
      if t.late {
        return Polled(if status.Some? then status else killed, out, err, true), n;
      }
      i := i + 1;
      n := i;
    }
  }

  /**
   Whatever the interleaving: once the child's exit and both drains arrive by turn `n`,
   with no polling failure before and the deadline not passed before, the loop returns
   them and does not time out.
   */
  lemma CompletesInTime(ts: seq<Turn>, n: nat, stop: nat)
    requires n < |ts| && stop < |ts| && CompleteBy(ts, n + 1)
    requires forall k | 0 <= k < n :: !ts[k].late
    requires forall k | 0 <= k <= n :: !ts[k].wait.WaitFailed?
    requires StopsAt(ts, stop) && forall k | 0 <= k < stop :: !StopsAt(ts, k)
    ensures stop <= n && CompleteBy(ts, stop + 1) && !BrokenAt(ts, stop)
  {
    assert StopsAt(ts, n);
    if stop < n {
      assert CompleteBy(ts, stop + 1);
    }
  }
}
