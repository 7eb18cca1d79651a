/**
 The staged verification run (`run_agent_verify_core`,
 crates/semasm-cli/src/commands.rs).  What tools, files and the candidate process
 answer is part of the request.
 */
module Pipeline {
  import opened Basics
  import opened CanonicalJson
  import opened Evaluator
  import opened Shapes
  import opened Fixtures
  import ShapeCoherence
  import RegionAccess
  import Verdict

  datatype Tool = Succeeded | Rejected | Broken

  /** An external vector document and which of its bindings match the run. */
  datatype Document = Document(
    schemaOk: bool, digestOk: bool, targetOk: bool, symbolOk: bool, cases: seq<ExternalCase>)

  datatype VectorsFile = NoFile | Unreadable | Malformed | Given(doc: Document)

  datatype Candidate =
    | GateFailed(error: Verdict.GateError)
    | Checked(gates: Verdict.Gates, alias: Option<RegionAccess.Status>, region: Option<RegionAccess.Status>)

  datatype RunOutput = RunOutput(stdout: seq<Byte>, success: bool, timedOut: bool)

  datatype Request = Request(
    targetKnown: bool, toolsFound: bool, contractRead: bool, sourceRead: bool, contractUtf8: bool,
    contract: Option<Contract>, vectorsFile: VectorsFile, scratchMade: bool, assemble: Tool,
    candidate: Candidate, harnessGenerated: bool, harnessWritten: bool, assembleHarness: Tool,
    link: Tool, executableOk: bool, allowExecution: bool, run: Option<RunOutput>,
    expressions: Option<RegionAccess.Status>)

  datatype Binding = Binding(name: Name, caseId: Option<string>)

  datatype VectorSet = VectorSet(builtinCount: nat, externalCount: nat, cases: seq<Binding>)

  datatype FinalReport = FinalReport(
    status: Verdict.Status, gates: Verdict.Gates, executable: Verdict.GateStatus,
    behavior: Option<Report>, vectorSet: VectorSet)

  datatype Outcome = Early | Done(report: FinalReport, exitOk: bool)

  // ----- vectors and their bindings -----

  predicate DistinctIds(cases: seq<ExternalCase>)
  {
    forall i, j | 0 <= i < j < |cases| :: cases[i].id != cases[j].id
  }

  predicate AllDerived(c: Contract, cases: seq<ExternalCase>)
  {
    forall i | 0 <= i < |cases| :: DeriveExternal(c, cases[i]).Some?
  }

  function ExternalVectors(c: Contract, cases: seq<ExternalCase>): (vs: seq<TestVector>)
    requires AllDerived(c, cases)
    ensures |vs| == |cases|
  {
    seq(|cases|, i requires 0 <= i < |cases| => DeriveExternal(c, cases[i]).value)
  }

  /** Case bindings name the vectors in order, builtins first, then the caller's ids. */
  predicate Bound(c: Contract, cases: seq<ExternalCase>, vs: seq<TestVector>, bs: seq<Binding>)
  {
    var n := |Synthesize(c)|;
    && |bs| == |vs| == n + |cases|
    && (forall i | 0 <= i < |vs| :: bs[i].name == vs[i].name)
    && (forall i | 0 <= i < n :: bs[i].caseId.None? && vs[i] == Synthesize(c)[i])
    && (forall i | 0 <= i < |cases| :: bs[n + i].caseId == Some(cases[i].id))
  }

  method BindBuiltins(vs: seq<TestVector>) returns (bs: seq<Binding>)
    ensures |bs| == |vs| && forall i | 0 <= i < |vs| :: bs[i] == Binding(vs[i].name, None)
  {
    bs := [];
    for i := 0 to |vs|
      invariant |bs| == i && forall k | 0 <= k < i :: bs[k] == Binding(vs[k].name, None)
    {
      bs := bs + [Binding(vs[i].name, None)];
    }
  }

  /** The vector-binding loop: stops at a repeated id or an inadmissible case. */
  method BindExternal(c: Contract, cases: seq<ExternalCase>)
    returns (ok: bool, vs: seq<TestVector>, bs: seq<Binding>)
    ensures ok <==> DistinctIds(cases) && AllDerived(c, cases)
    ensures ok ==> AllDerived(c, cases) && vs == Synthesize(c) + ExternalVectors(c, cases)
    ensures ok ==> Bound(c, cases, vs, bs)
  {
    hide Synthesize;
    hide DeriveExternal;
    vs := Synthesize(c);
    var n := |vs|;
    bs := BindBuiltins(vs);
    var ids: set<string> := {};
    for i := 0 to |cases|
      invariant DistinctIds(cases[..i]) && AllDerived(c, cases[..i])
      invariant forall id :: id in ids <==> exists k | 0 <= k < i :: cases[k].id == id
      invariant vs == Synthesize(c) + ExternalVectors(c, cases[..i])
      invariant Bound(c, cases[..i], vs, bs)
    {
      if cases[i].id in ids {
        assert !DistinctIds(cases);
        return false, vs, bs;
      }
      ids := ids + {cases[i].id};
      var v := DeriveExternal(c, cases[i]);
      if v.None? {
        assert !AllDerived(c, cases);
        return false, vs, bs;
      }
      assert ExternalVectors(c, cases[..i + 1]) == ExternalVectors(c, cases[..i]) + [v.value];
      BoundStep(c, cases[..i], vs, bs, cases[i], v.value);
      assert cases[..i] + [cases[i]] == cases[..i + 1];
      bs := bs + [Binding(v.value.name, Some(cases[i].id))];
      vs := vs + [v.value];
    }
    assert cases[..|cases|] == cases;
    ok := true;
  }

  lemma BoundStep(
    c: Contract, cases: seq<ExternalCase>, vs: seq<TestVector>, bs: seq<Binding>, e: ExternalCase,
    v: TestVector)
    requires Bound(c, cases, vs, bs)
    ensures Bound(c, cases + [e], vs + [v], bs + [Binding(v.name, Some(e.id))])
  {
    hide Synthesize;
  }

  predicate DocumentOk(d: Document)
  {
    d.schemaOk && d.digestOk && d.targetOk && d.symbolOk && d.cases != []
  }

  function Cases(f: VectorsFile): (cases: seq<ExternalCase>)
  {
    if f.Given? then f.doc.cases else []
  }

  predicate VectorsAdmitted(c: Contract, f: VectorsFile)
  {
    && Synthesize(c) != []
    && (f.NoFile? || (f.Given? && DocumentOk(f.doc)))
    && DistinctIds(Cases(f)) && AllDerived(c, Cases(f))
  }

  function VectorsOf(c: Contract, f: VectorsFile): (vs: seq<TestVector>)
    requires VectorsAdmitted(c, f)
  {
    Synthesize(c) + ExternalVectors(c, Cases(f))
  }

  /** Stages up to the vector set; none when the run stops early. */
  method PlanVectors(c: Contract, f: VectorsFile)
    returns (ok: bool, vs: seq<TestVector>, plan: VectorSet)
    ensures ok <==> VectorsAdmitted(c, f)
    ensures ok ==> VectorsAdmitted(c, f) && vs == VectorsOf(c, f) && Bound(c, Cases(f), vs, plan.cases)
    ensures ok ==> plan.builtinCount == |Synthesize(c)| && plan.externalCount == |Cases(f)|
  {
    hide Synthesize;
    hide DeriveExternal;
    vs, plan := [], VectorSet(0, 0, []);
    if Synthesize(c) == [] || f.Unreadable? || f.Malformed? || (f.Given? && !DocumentOk(f.doc)) {
      return false, vs, plan;
    }
    var bs;
    ok, vs, bs := BindExternal(c, Cases(f));
    if ok { plan := VectorSet(|Synthesize(c)|, |vs| - |Synthesize(c)|, bs); }
  }

  /**
   Vectors are admitted exactly if the contract has builtin ones and a given document is
   well-formed, bound to this run, not empty, free of repeated ids and derivable throughout.
   */
  lemma AdmissionExact(c: Contract, f: VectorsFile)
    ensures VectorsAdmitted(c, f) <==>
            && RecogniseOracle(c).Some?
            && match f
               case NoFile => true
               case Unreadable => false
               case Malformed => false
               case Given(d) =>
                 && d.schemaOk && d.digestOk && d.targetOk && d.symbolOk && |d.cases| > 0
                 && (forall i, j | 0 <= i < j < |d.cases| :: d.cases[i].id != d.cases[j].id)
                 && forall i | 0 <= i < |d.cases| :: DeriveExternal(c, d.cases[i]).Some?
  {
    ShapeCoherence.SynthesizedIffRecognised(c);
    hide Synthesize;
    hide DeriveExternal;
    hide RecogniseOracle;
  }

  // ----- evidence, in the two orders the source attaches it -----

  function AliasList(r: Request): (es: seq<Verdict.Evidence>)
  {
    if r.candidate.Checked? && r.candidate.alias.Some?
    then [Verdict.AliasEvidence(r.candidate.alias.value)] else []
  }

  function RegionList(r: Request): (es: seq<Verdict.Evidence>)
  {
    if r.candidate.Checked? && r.candidate.region.Some?
    then [Verdict.RegionEvidence(r.candidate.region.value)] else []
  }

  function ExpressionList(r: Request): (es: seq<Verdict.Evidence>)
  {
    if r.expressions.Some? then [Verdict.ExpressionEvidence(r.expressions.value)] else []
  }

  /** Reports finished before the candidate runs. */
  function StaticEvidence(r: Request): (es: seq<Verdict.Evidence>)
  {
    AliasList(r) + RegionList(r) + ExpressionList(r)
  }

  /** Reports finished after it ran. */
  function RunEvidence(r: Request): (es: seq<Verdict.Evidence>)
  {
    AliasList(r) + ExpressionList(r) + RegionList(r)
  }

  /** The two attachment orders give the same status. */
  lemma OrdersAgree(r: Request, s: Verdict.Status)
    ensures Verdict.AttachAll(s, StaticEvidence(r)) == Verdict.AttachAll(s, RunEvidence(r))
  {
    Verdict.AttachOrderFree(s, StaticEvidence(r), RunEvidence(r));
  }

  // ----- the run -----

  function GatesOf(c: Candidate): (g: Verdict.Gates)
  {
    if c.GateFailed? then Verdict.FromError(c.error) else c.gates
  }

  /** What a positive verdict needs. */
  ghost predicate Admitted(r: Request)
  {
    && r.targetKnown && r.toolsFound && r.contractRead && r.sourceRead && r.contractUtf8
    && r.contract.Some? && VectorsAdmitted(r.contract.value, r.vectorsFile)
    && r.scratchMade && r.assemble == Succeeded
    && r.candidate.Checked? && Verdict.AllPassed(r.candidate.gates)
    && r.harnessGenerated && r.harnessWritten && r.assembleHarness == Succeeded
    && r.link == Succeeded && r.executableOk
    && r.allowExecution && r.run.Some?
    && RecogniseOracle(r.contract.value).Some?
    && Begins(r.run.value.stdout,
              Expected(OracleShape(RecogniseOracle(r.contract.value).value),
                       VectorsOf(r.contract.value, r.vectorsFile)))
    && !Verdict.AnyFails(RunEvidence(r))
  }

  /** Results, bindings and vectors of a finished run line up, builtins first. */
  ghost predicate Evidenced(c: Contract, f: VectorsFile, rep: FinalReport)
  {
    && VectorsAdmitted(c, f)
    && rep.behavior.Some? && rep.behavior.value.allPassed && AllPassed(rep.behavior.value.cases)
    && var vs, cases := VectorsOf(c, f), rep.behavior.value.cases;
       && |cases| == |vs| > 0 && Bound(c, Cases(f), vs, rep.vectorSet.cases)
       && rep.vectorSet.builtinCount == |Synthesize(c)| > 0
       && rep.vectorSet.externalCount == |Cases(f)|
       && forall i | 0 <= i < |cases| ::
            cases[i].passed && cases[i].name == vs[i].name == rep.vectorSet.cases[i].name
  }

  /** Stages before any code is built; the shape always resolves once vectors exist. */
  method Prepare(r: Request) returns (ok: bool, vs: seq<TestVector>, plan: VectorSet, shape: Shape)
    ensures ok <==>
              && r.targetKnown && r.toolsFound && r.contractRead && r.sourceRead && r.contractUtf8
              && r.contract.Some? && VectorsAdmitted(r.contract.value, r.vectorsFile)
    ensures ok ==>
              && vs == VectorsOf(r.contract.value, r.vectorsFile)
              && Bound(r.contract.value, Cases(r.vectorsFile), vs, plan.cases)
              && plan.builtinCount == |Synthesize(r.contract.value)|
              && plan.externalCount == |Cases(r.vectorsFile)|
    ensures ok ==> RecogniseOracle(r.contract.value).Some? &&
                   shape == OracleShape(RecogniseOracle(r.contract.value).value)
  {
    hide Synthesize;
    hide DeriveExternal;
    hide RecogniseOracle;
    hide ResolveShape;
    vs, plan, shape := [], VectorSet(0, 0, []), PureInt;
    if !r.targetKnown || !r.toolsFound || !r.contractRead || !r.sourceRead || !r.contractUtf8 ||
       r.contract.None? {
      return false, vs, plan, shape;
    }
    var c := r.contract.value;
    ok, vs, plan := PlanVectors(c, r.vectorsFile);
    if !ok { return; }
    ShapeCoherence.ResolutionCoherent(c, ExternalVectors(c, Cases(r.vectorsFile)));
    var resolved := ResolveShape(c, vs);
    if resolved.None? { return false, vs, plan, shape; }
    shape := resolved.value;
  }

  /**
   One verification run.  The verdict is positive exactly when every gate passed, the
   candidate was run with permission, its output begins with everything the vectors
   expect, and no evidence failed.
   */
  method RunCore(r: Request) returns (out: Outcome)
    ensures out.Done? && Verdict.Positive(out.report.status) <==> Admitted(r)
    ensures out.Done? ==> (out.exitOk <==> Verdict.Positive(out.report.status))
    ensures out.Done? && Verdict.Positive(out.report.status) ==>
              && r.contract.Some? && Evidenced(r.contract.value, r.vectorsFile, out.report)
              && out.report.gates == GatesOf(r.candidate) && Verdict.AllPassed(out.report.gates)
    ensures out.Done? && out.report.status == Verdict.Verified ==> !Verdict.AnyDemotes(RunEvidence(r))
    ensures out.Done? && r.candidate.GateFailed? ==> out.report.status == Verdict.SemanticFailed
  {
    hide Synthesize;
    hide DeriveExternal;
    hide RecogniseOracle;
    hide Expected;
    hide RunEvidence;
    hide StaticEvidence;
    hide Verdict.AttachAll;
    hide Verdict.AllPassed;
    hide Verdict.FromError;
    hide Bound;
    hide AllDerived;
    hide DistinctIds;
    var ready, vs, plan, shape := Prepare(r);
    if !ready || !r.scratchMade || r.assemble != Succeeded { return Early; }
    var gates := GatesOf(r.candidate);
    if r.candidate.GateFailed? {
      Verdict.ErrorGatesFail(r.candidate.error);
      out := FinishStatic(r, gates, Verdict.Skipped, plan);
      return;
    }
    if !r.harnessGenerated {
      out := FinishStatic(r, gates, Verdict.Skipped, plan);
      return;
    }
    if !r.harnessWritten || r.assembleHarness != Succeeded || r.link != Succeeded { return Early; }
    if !r.executableOk {
      out := FinishStatic(r, gates, Verdict.Failed, plan);
      return;
    }
    if !r.allowExecution {
      out := FinishStatic(r, gates, Verdict.Passed, plan);
      return;
    }
    if r.run.None? { return Early; }
    var behavior := Evaluate(r.run.value.stdout, vs, shape);
    var start := Verdict.FromParts(gates, Verdict.Passed, Some(behavior.allPassed));
    Verdict.AttachNeverRaises(start, RunEvidence(r));
    var status := Verdict.AttachAll(start, RunEvidence(r));
    out := Done(FinalReport(status, gates, Verdict.Passed, Some(behavior), plan), Verdict.Positive(status));
    if Verdict.Positive(status) {
      EvidencedIntro(r.contract.value, r.vectorsFile, out.report, vs, behavior);
    }
  }

  lemma EvidencedIntro(
    c: Contract, f: VectorsFile, rep: FinalReport, vs: seq<TestVector>, b: Report)
    requires VectorsAdmitted(c, f) && vs == VectorsOf(c, f) && rep.behavior == Some(b)
    requires b.allPassed && AllPassed(b.cases) && |b.cases| == |vs|
    requires forall i | 0 <= i < |vs| :: b.cases[i].name == vs[i].name
    requires Bound(c, Cases(f), vs, rep.vectorSet.cases)
    requires rep.vectorSet.builtinCount == |Synthesize(c)| && rep.vectorSet.externalCount == |Cases(f)|
    ensures Evidenced(c, f, rep)
  {
    hide Synthesize;
    hide DeriveExternal;
  }

  /** A report finished without running the candidate: never a positive one. */
  method FinishStatic(r: Request, gates: Verdict.Gates, executable: Verdict.GateStatus, plan: VectorSet)
    returns (out: Outcome)
    ensures out.Done? && !out.exitOk && !Verdict.Positive(out.report.status)
    ensures !Verdict.AllPassed(gates) ==> out.report.status == Verdict.SemanticFailed
  {
    hide Verdict.AllPassed;
    hide StaticEvidence;
    hide Verdict.AttachAll;
    var start := Verdict.FromParts(gates, executable, None);
    Verdict.AttachNeverRaises(start, StaticEvidence(r));
    var status := Verdict.AttachAll(start, StaticEvidence(r));
    out := Done(FinalReport(status, gates, executable, None, plan), false);
  }

  /**
   No vacuous verification: a positive verdict rests on at least one vector that ran,
   with permission, under gates that passed with full coverage.
   */
  lemma NoVacuousVerdict(r: Request)
    requires Admitted(r)
    ensures r.allowExecution && r.run.Some?
    ensures var g := r.candidate.gates;
            && g.decode.modeled == g.decode.total && g.decode.unknown == 0
            && g.lowering.modeled == g.lowering.total && g.lowering.unknown == 0
    ensures |VectorsOf(r.contract.value, r.vectorsFile)| > 0
    ensures |r.run.value.stdout| >= 8 * |VectorsOf(r.contract.value, r.vectorsFile)|
  {
    hide Synthesize;
    hide DeriveExternal;
    hide RecogniseOracle;
    hide Words;
    hide Echoes;
    hide RunEvidence;
    hide AllDerived;
    hide DistinctIds;
    hide OracleShape;
    hide Verdict.AnyFails;
  }

  /** A positive verdict is attainable for every contract that gets vectors at all. */
  lemma Attainable(c: Contract) returns (r: Request)
    requires Synthesize(c) != []
    ensures r.contract == Some(c) && Admitted(r)
  {
    ShapeCoherence.SynthesizedIffRecognised(c);
    hide Synthesize;
    hide DeriveExternal;
    hide RecogniseOracle;
    hide OracleShape;
    hide Expected;
    var full := Verdict.Coverage(1, 1, 0);
    var gates := Verdict.Gates(Verdict.Passed, full, full, Verdict.Passed, Verdict.Passed,
                               Verdict.Passed, Verdict.Passed);
    assert VectorsAdmitted(c, NoFile);
    var want := Expected(OracleShape(RecogniseOracle(c).value), VectorsOf(c, NoFile));
    assert want[..|want|] == want;
    r := Request(
      true, true, true, true, true, Some(c), NoFile, true, Succeeded, Checked(gates, None, None),
      true, true, Succeeded, Succeeded, true, true, Some(RunOutput(want, true, false)), None);
    assert RunEvidence(r) == [];
  }

  /** How the candidate ended never enters the verdict: only its output does. */
  lemma EndingIgnored(r: Request, success: bool, timedOut: bool)
    requires r.run.Some?
    ensures Admitted(r) <==> Admitted(r.(run := Some(RunOutput(r.run.value.stdout, success, timedOut))))
  {
    hide VectorsAdmitted;
    hide RecogniseOracle;
    hide Expected;
    hide Verdict.AllPassed;
    var t := r.(run := Some(RunOutput(r.run.value.stdout, success, timedOut)));
    assert RunEvidence(t) == RunEvidence(r);
    hide RunEvidence;
  }

  /** So every contract with vectors has a run that failed, was killed by timeout, and is verified. */
  lemma TimedOutAdmitted(c: Contract) returns (r: Request)
    requires Synthesize(c) != []
    ensures r.contract == Some(c) && Admitted(r) && r.run.Some?
    ensures r.run.value.timedOut && !r.run.value.success
  {
    var t := Attainable(c);
    assert t.run.Some?;
    EndingIgnored(t, false, true);
    r := t.(run := Some(RunOutput(t.run.value.stdout, false, true)));
    hide *;
  }
}
