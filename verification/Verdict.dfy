/**
 Verdict composition (crates/semasm-agent/src/verify.rs): static gates, the status a
 report starts with, and the evidence attached to it afterwards.
 */
module Verdict {
  import opened Basics
  import RegionAccess

  datatype GateStatus = Passed | Failed | Skipped

  datatype Coverage = Coverage(total: nat, modeled: nat, unknown: nat)

  datatype Gates = Gates(
    objectPolicy: GateStatus, decode: Coverage, lowering: Coverage, abi: GateStatus,
    capability: GateStatus, control: GateStatus, memory: GateStatus)

  datatype Stage = TargetStage | ObjectStage | DecodeStage | LoweringStage | AbiStage
    | CapabilityStage | CfgStage | ControlStage | MemoryStage | OtherStage

  datatype GateError = GateError(stage: Stage, decode: Option<Coverage>, lowering: Option<Coverage>)

  datatype Status =
    | Verified | VerifiedUnderPreconditions
    | SemanticFailed | ExecutableFailed | BehaviorFailed | ExecutionDenied

  predicate Full(c: Coverage)
  {
    c.unknown == 0 && c.modeled == c.total
  }

  predicate LeafOk(g: GateStatus)
  {
    g == Passed || g == Skipped
  }

  predicate AllPassed(g: Gates)
  {
    && g.objectPolicy == Passed && g.abi == Passed && g.capability == Passed
    && LeafOk(g.control) && LeafOk(g.memory)
    && Full(g.decode) && Full(g.lowering)
  }

  const NOT_STARTED := Coverage(0, 0, 0)
  const UNKNOWN_INCOMPLETE := Coverage(0, 0, 1)

  function Or(c: Option<Coverage>, fallback: Coverage): (r: Coverage)
  {
    if c.Some? then c.value else fallback
  }

  /** The gate record of a stage error: later stages did not run. */
  function FromError(e: GateError): (g: Gates)
  {
    var decode, lowering := Or(e.decode, NOT_STARTED), Or(e.lowering, NOT_STARTED);
    match e.stage
    case TargetStage => Gates(Failed, NOT_STARTED, NOT_STARTED, Skipped, Skipped, Skipped, Skipped)
    case ObjectStage => Gates(Failed, NOT_STARTED, NOT_STARTED, Skipped, Skipped, Skipped, Skipped)
    case DecodeStage =>
      Gates(Passed, Or(e.decode, UNKNOWN_INCOMPLETE), NOT_STARTED, Skipped, Skipped, Skipped, Skipped)
    case LoweringStage =>
      Gates(Passed, decode, Or(e.lowering, UNKNOWN_INCOMPLETE), Skipped, Skipped, Skipped, Skipped)
    case AbiStage => Gates(Passed, decode, lowering, Failed, Skipped, Skipped, Skipped)
    case CapabilityStage => Gates(Passed, decode, lowering, Passed, Failed, Skipped, Skipped)
    case CfgStage => Gates(Passed, decode, lowering, Passed, Passed, Failed, Skipped)
    case ControlStage => Gates(Passed, decode, lowering, Passed, Passed, Failed, Skipped)
    case MemoryStage => Gates(Passed, decode, lowering, Passed, Passed, Passed, Failed)
    case OtherStage =>
      Gates(Failed, Or(e.decode, UNKNOWN_INCOMPLETE), lowering, Skipped, Skipped, Skipped, Skipped)
  }

  /** The status a report starts with; `behavior` says whether every case passed. */
  function FromParts(g: Gates, executable: GateStatus, behavior: Option<bool>): (s: Status)
    ensures s == Verified <==> AllPassed(g) && executable != Failed && behavior == Some(true)
    ensures s != VerifiedUnderPreconditions
  {
    if !AllPassed(g) then SemanticFailed
    else if executable == Failed then ExecutableFailed
    else if behavior.None? then ExecutionDenied
    else if behavior.value then Verified
    else BehaviorFailed
  }

  /** A report starts as verified exactly if every gate did its part, nothing was left unmodelled and every case passed. */
  lemma VerifiedExact(g: Gates, executable: GateStatus, behavior: Option<bool>)
    ensures FromParts(g, executable, behavior) == Verified <==>
            && g.objectPolicy == Passed && g.abi == Passed && g.capability == Passed
            && g.control != Failed && g.memory != Failed
            && g.decode.modeled == g.decode.total && g.decode.unknown == 0
            && g.lowering.modeled == g.lowering.total && g.lowering.unknown == 0
            && executable != Failed && behavior == Some(true)
  {
  }

  // ----- evidence -----

  datatype Evidence =
    | AliasEvidence(status: RegionAccess.Status)
    | RegionEvidence(status: RegionAccess.Status)
    | ExpressionEvidence(status: RegionAccess.Status)

  /** Evidence that fails the report: any non-pass, but incomplete region access only observes. */
  predicate Fails(e: Evidence)
  {
    e.status == RegionAccess.Failed || (e.status == RegionAccess.Incomplete && !e.RegionEvidence?)
  }

  predicate Demotes(e: Evidence)
  {
    e.status == RegionAccess.PassedUnderPreconditions
  }

  function Attach(s: Status, e: Evidence): (r: Status)
  {
    match e
    case AliasEvidence(st) =>
      if st == RegionAccess.Passed then s
      else if st == RegionAccess.PassedUnderPreconditions then
        (if s == Verified then VerifiedUnderPreconditions else s)
      else SemanticFailed
    case RegionEvidence(st) =>
      if st == RegionAccess.Passed || st == RegionAccess.Incomplete then s
      else if st == RegionAccess.PassedUnderPreconditions then
        (if s == Verified then VerifiedUnderPreconditions else s)
      else SemanticFailed
    case ExpressionEvidence(st) =>
      if st == RegionAccess.Passed then s
      else if st == RegionAccess.PassedUnderPreconditions then
        (if s == Verified then VerifiedUnderPreconditions else s)
      else SemanticFailed
  }

  function AttachAll(s: Status, es: seq<Evidence>): (r: Status)
  {
    if es == [] then s else Attach(AttachAll(s, es[..|es| - 1]), es[|es| - 1])
  }

  predicate AnyFails(es: seq<Evidence>)
  {
    exists i | 0 <= i < |es| :: Fails(es[i])
  }

  predicate AnyDemotes(es: seq<Evidence>)
  {
    exists i | 0 <= i < |es| :: Demotes(es[i])
  }

  /** What a whole list of evidence amounts to. */
  function Folded(s: Status, es: seq<Evidence>): (r: Status)
  {
    if AnyFails(es) then SemanticFailed
    else if AnyDemotes(es) && s == Verified then VerifiedUnderPreconditions
    else s
  }

  lemma {:induction false} AttachFolds(s: Status, es: seq<Evidence>)
    ensures AttachAll(s, es) == Folded(s, es)
  {
    if es != [] {
      var n := |es| - 1;
      AttachFolds(s, es[..n]);
      assert forall i | 0 <= i < n :: es[..n][i] == es[i];
      assert AnyFails(es) <==> AnyFails(es[..n]) || Fails(es[n]);
      assert AnyDemotes(es) <==> AnyDemotes(es[..n]) || Demotes(es[n]);
    }
  }

  /** The order and multiplicity of attachments do not matter. */
  lemma AttachOrderFree(s: Status, es: seq<Evidence>, fs: seq<Evidence>)
    requires forall e :: e in es <==> e in fs
    ensures AttachAll(s, es) == AttachAll(s, fs)
  {
    AttachFolds(s, es);
    AttachFolds(s, fs);
    SameMembers(es, fs);
    SameMembers(fs, es);
  }

  lemma SameMembers(es: seq<Evidence>, fs: seq<Evidence>)
    requires forall e | e in es :: e in fs
    ensures AnyFails(es) ==> AnyFails(fs)
    ensures AnyDemotes(es) ==> AnyDemotes(fs)
  {
    if AnyFails(es) {
      var i :| 0 <= i < |es| && Fails(es[i]);
      assert es[i] in fs;
    }
    if AnyDemotes(es) {
      var i :| 0 <= i < |es| && Demotes(es[i]);
      assert es[i] in fs;
    }
  }

  predicate Positive(s: Status)
  {
    s == Verified || s == VerifiedUnderPreconditions
  }

  function Rank(s: Status): (r: nat)
  {
    if s == Verified then 2 else if s == VerifiedUnderPreconditions then 1 else 0
  }

  /** Evidence never raises a verdict, and a failed one stays as it is or turns semantic. */
  lemma AttachNeverRaises(s: Status, es: seq<Evidence>)
    ensures Rank(AttachAll(s, es)) <= Rank(s)
    ensures !Positive(s) ==> AttachAll(s, es) == s || AttachAll(s, es) == SemanticFailed
    ensures Positive(AttachAll(s, es)) <==> Positive(s) && !AnyFails(es)
    ensures AttachAll(s, es) == Verified <==> s == Verified && !AnyFails(es) && !AnyDemotes(es)
  {
    AttachFolds(s, es);
  }

  /** No gate error can end in anything but a semantic failure, whatever is attached. */
  lemma GateErrorsFail(
    e: GateError, executable: GateStatus, behavior: Option<bool>, es: seq<Evidence>)
    ensures AttachAll(FromParts(FromError(e), executable, behavior), es) == SemanticFailed
  {
    AttachNeverRaises(SemanticFailed, es);
    ErrorGatesFail(e);
    hide FromError;
    hide AttachAll;
  }

  lemma ErrorGatesFail(e: GateError)
    ensures !AllPassed(FromError(e))
  {
    hide Full;
    hide Or;
  }

  /** The gates in the order they run. */
  function InOrder(g: Gates): (gs: seq<GateStatus>)
  {
    [g.objectPolicy, g.abi, g.capability, g.control, g.memory]
  }

  /** Where a stage's error shows: the stages before it passed and those after it did not run. */
  function FailedAt(s: Stage): (k: nat)
  {
    match s
    case TargetStage => 0
    case ObjectStage => 0
    case OtherStage => 0
    case DecodeStage => 1
    case LoweringStage => 1
    case AbiStage => 1
    case CapabilityStage => 2
    case CfgStage => 3
    case ControlStage => 3
    case MemoryStage => 4
  }

  /** An error leaves the gates before it passed, its own failed (or a coverage incomplete) and the rest skipped. */
  lemma ErrorStops(e: GateError, k: nat)
    requires k < 5
    ensures var g := FromError(e);
            && (k < FailedAt(e.stage) ==> InOrder(g)[k] == Passed)
            && (k > FailedAt(e.stage) ==> InOrder(g)[k] == Skipped)
            && (k == FailedAt(e.stage) ==>
                  InOrder(g)[k] == if e.stage in {DecodeStage, LoweringStage} then Skipped else Failed)
            && (e.stage == DecodeStage ==> g.decode == Or(e.decode, UNKNOWN_INCOMPLETE))
            && (e.stage == LoweringStage ==> g.lowering == Or(e.lowering, UNKNOWN_INCOMPLETE))
  {
  }
}
