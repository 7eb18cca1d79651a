/**
 Recognition, synthesis and shape resolution agree with each other, and what the
 fixtures owe the contract they were made from.
 */
module ShapeCoherence {
  import opened Basics
  import opened CanonicalJson
  import opened IntegerOracles
  import opened Evaluator
  import opened Shapes
  import opened Fixtures
  import ContractExpr

  /** Vectors exist exactly for the contracts with a recognised oracle. */
  lemma SynthesizedIffRecognised(c: Contract)
    ensures Synthesize(c) != [] <==> RecogniseOracle(c).Some?
  {
    hide Scan;
    hide Replace;
    hide MemsetOf;
    hide MemcpyOf;
    hide MemCmpOf;
    hide SumOf;
    hide UnsignedOf;
    hide SignedOf;
    hide UnaryOf;
    hide CellLoadOf;
    hide CellStoreOf;
    hide Repeat;
    hide Counting;
  }

  lemma DetectFirst(vs: seq<TestVector>, more: seq<TestVector>)
    requires vs != []
    ensures DetectShape(vs + more) == DetectShape([vs[0]])
  {
    hide IsBuffer;
    hide IsNumber;
    assert (vs + more)[0] == vs[0];
  }

  // The layout the first vector of each family has.

  lemma ScanLayout(s: ScanShape)
    ensures ScanVectors(s) != [] && DetectShape([ScanVectors(s)[0]]) == Some(BufferScan)
  {
  }

  lemma ReplaceLayout(s: ReplaceShape)
    ensures ReplaceVectors(s) != [] && DetectShape([ReplaceVectors(s)[0]]) == Some(ReplaceByte)
  {
  }

  lemma MemsetLayout(s: MemsetShape)
    ensures MemsetVectors(s) != [] && DetectShape([MemsetVectors(s)[0]]) == Some(BufferScan)
  {
  }

  lemma PairLayout(s: PairShape)
    ensures MemcpyVectors(s) != [] && DetectShape([MemcpyVectors(s)[0]]) == Some(MemCmp)
    ensures MemCmpVectors(s) != [] && DetectShape([MemCmpVectors(s)[0]]) == Some(MemCmp)
  {
  }

  lemma SumLayout(s: SumShape)
    ensures SumVectors(s) != [] && DetectShape([SumVectors(s)[0]]) == Some(I64Sum)
  {
  }

  lemma UnsignedLayout(op: UnsignedOp)
    ensures UnsignedVectors(op) != [] && DetectShape([UnsignedVectors(op)[0]]) == Some(PureInt)
  {
  }

  lemma SignedLayout(op: SignedOp)
    ensures SignedVectors(op) != [] && DetectShape([SignedVectors(op)[0]]) == Some(PureInt)
  {
  }

  lemma UnaryLayout(op: UnaryOp)
    ensures UnaryVectors(op) != [] && DetectShape([UnaryVectors(op)[0]]) == Some(PureIntUnary)
  {
  }

  lemma CellLayout()
    ensures DetectShape([CellLoadVector(0)]) == Some(CellLoad)
    ensures DetectShape([CellStoreVector(0, 7)]) == Some(I64Sum)
  {
  }

  lemma DetectedShape(c: Contract, more: seq<TestVector>)
    requires RecogniseOracle(c).Some?
    ensures var got, want := DetectShape(Synthesize(c) + more), OracleShape(RecogniseOracle(c).value);
            || got == Some(want)
            || (want == Memset && got == Some(BufferScan))
            || (want == Memcpy && got == Some(MemCmp))
            || (want == CellStore && got == Some(I64Sum))
  {
    hide DetectShape;
    hide Scan;
    hide Replace;
    hide MemsetOf;
    hide MemcpyOf;
    hide MemCmpOf;
    hide SumOf;
    hide UnsignedOf;
    hide SignedOf;
    hide UnaryOf;
    hide CellLoadOf;
    hide CellStoreOf;
    hide ScanVectors;
    hide ReplaceVectors;
    hide MemsetVectors;
    hide MemcpyVectors;
    hide MemCmpVectors;
    hide SumVectors;
    hide UnsignedVectors;
    hide SignedVectors;
    hide UnaryVectors;
    hide CellLoadVector;
    hide CellStoreVector;
    SynthesizedIffRecognised(c);
    DetectFirst(Synthesize(c), more);
    if Scan(c).Some? { ScanLayout(Scan(c).value); }
    else if Replace(c).Some? { ReplaceLayout(Replace(c).value); }
    else if MemsetOf(c).Some? { MemsetLayout(MemsetOf(c).value); }
    else if MemcpyOf(c).Some? { PairLayout(MemcpyOf(c).value); }
    else if MemCmpOf(c).Some? { PairLayout(MemCmpOf(c).value); }
    else if SumOf(c).Some? { SumLayout(SumOf(c).value); }
    else if UnsignedOf(c).Some? { UnsignedLayout(UnsignedOf(c).value); }
    else if SignedOf(c).Some? { SignedLayout(SignedOf(c).value); }
    else if UnaryOf(c).Some? { UnaryLayout(UnaryOf(c).value); }
    else { CellLayout(); }
  }

  /**
   Shape resolution succeeds for every contract that gets vectors, whatever external
   vectors are appended, and always with the shape of the recognised oracle.
   */
  lemma ResolutionCoherent(c: Contract, more: seq<TestVector>)
    requires Synthesize(c) != []
    ensures RecogniseOracle(c).Some?
    ensures ResolveShape(c, Synthesize(c) + more) == Some(OracleShape(RecogniseOracle(c).value))
  {
    SynthesizedIffRecognised(c);
    DetectedShape(c, more);
    hide Synthesize;
    hide RecogniseOracle;
    hide DetectShape;
  }

  // ----- external cases -----

  lemma NoPointers(ps: seq<Param>)
    requires forall q | q in ps :: !IsPtr(q.ty)
    ensures FirstParam(ps, IsConstPtr).None? && FirstParam(ps, IsMutPtr).None?
    ensures FirstParam(ps, IsMutU8Ptr).None? && FirstParam(ps, IsConstI64Ptr).None?
    ensures ParamsOf(ps, IsConstU8Ptr) == []
  {
    hide FirstParam;
    assert FirstParam(ps, IsConstU8Ptr).None?;
  }

  lemma IntegerContract(c: Contract)
    requires UnsignedOf(c).Some? || SignedOf(c).Some? || UnaryOf(c).Some?
    ensures forall q | q in c.params :: !IsPtr(q.ty)
    ensures UnsignedOf(c).Some? ==> SignedOf(c).None? && UnaryOf(c).None?
    ensures SignedOf(c).Some? ==> UnaryOf(c).None?
  {
    hide FirstParam;
    hide SignedByName;
    hide UnaryHits;
    hide ExtremumOf;
    if SignedOf(c).Some? || UnaryOf(c).Some? {
      forall q | q in c.params ensures q.ty == Int(64) {
      }
    }
    if UnsignedOf(c).Some? {
      var p := FirstParam(c.params, IsUsize);
      assert p.Some? && p.value in c.params && p.value.ty == Usize;
    }
  }

  /** A contract that admits external cases is recognised as exactly that integer oracle. */
  lemma IntegerOracleRecognised(c: Contract)
    requires UnsignedOf(c).Some? || SignedOf(c).Some? || UnaryOf(c).Some?
    ensures UnsignedOf(c).Some? ==> RecogniseOracle(c) == Some(UnsignedOracle(UnsignedOf(c).value))
    ensures SignedOf(c).Some? ==> RecogniseOracle(c) == Some(SignedOracle(SignedOf(c).value))
    ensures UnaryOf(c).Some? ==> RecogniseOracle(c) == Some(UnaryOracle(UnaryOf(c).value))
  {
    IntegerContract(c);
    NoPointers(c.params);
    NotBuffer(c);
    hide UnsignedOf;
    hide SignedOf;
    hide UnaryOf;
    hide Scan;
    hide Replace;
    hide MemsetOf;
    hide MemcpyOf;
    hide MemCmpOf;
    hide SumOf;
  }

  lemma NotBuffer(c: Contract)
    requires FirstParam(c.params, IsConstPtr).None? && FirstParam(c.params, IsMutPtr).None?
    requires FirstParam(c.params, IsMutU8Ptr).None? && FirstParam(c.params, IsConstI64Ptr).None?
    requires ParamsOf(c.params, IsConstU8Ptr) == []
    ensures Scan(c).None? && Replace(c).None? && MemsetOf(c).None?
    ensures MemcpyOf(c).None? && MemCmpOf(c).None? && SumOf(c).None?
  {
    hide FirstParam;
    hide ParamsOf;
    hide Contains;
    hide LengthBound;
    hide RequiredByte;
  }

  /** What an integer oracle makes of a vector's own inputs. */
  function Reduced(o: Oracle, v: TestVector): (r: Option<int>)
  {
    match o
    case UnsignedOracle(op) =>
      if |v.inputs| == 2 && AsU64(v.inputs[0]).Some? && AsU64(v.inputs[1]).Some?
      then Some(ReduceUnsigned(op, AsU64(v.inputs[0]).value, AsU64(v.inputs[1]).value)) else None
    case SignedOracle(op) =>
      if |v.inputs| == 2 && AsI64(v.inputs[0]).Some? && AsI64(v.inputs[1]).Some?
      then Some(ReduceSigned(op, AsI64(v.inputs[0]).value, AsI64(v.inputs[1]).value)) else None
    case UnaryOracle(op) =>
      if |v.inputs| == 1 && AsI64(v.inputs[0]).Some?
      then Some(ReduceUnary(op, AsI64(v.inputs[0]).value)) else None
    case _ => None
  }

  /**
   An accepted external case of a contract with no surplus parameters passes exactly
   its caller's inputs, in parameter order, and expects the recognised oracle's value.
   */
  lemma ExternalExpected(c: Contract, e: ExternalCase, v: TestVector)
    requires DeriveExternal(c, e) == Some(v)
    requires UnsignedOf(c).Some? ==> |c.params| == 2
    ensures RecogniseOracle(c).Some?
    ensures Reduced(RecogniseOracle(c).value, v).Some?
    ensures v.expected == JsonInt(Reduced(RecogniseOracle(c).value, v).value)
    ensures |v.inputs| == |c.params|
    ensures forall i | 0 <= i < |c.params| ::
              c.params[i].name in e.inputs && v.inputs[i] == e.inputs[c.params[i].name]
  {
    IntegerOracleRecognised(c);
    SignedArity(c);
    hide UnsignedOf;
    hide SignedOf;
    hide UnaryOf;
    hide RecogniseOracle;
    hide AsU64;
    hide AsI64;
    hide ReduceUnsigned;
    hide ReduceSigned;
    hide ReduceUnary;
    hide JsonInt;
    hide Blank;
  }

  lemma SignedArity(c: Contract)
    ensures SignedOf(c).Some? ==> |c.params| == 2
    ensures UnaryOf(c).Some? ==> |c.params| == 1
  {
    hide Contains;
    hide SignedByName;
    hide UnaryHits;
  }

  ghost predicate DistinctNames(ps: seq<Param>)
  {
    forall i, j | 0 <= i < j < |ps| :: ps[i].name != ps[j].name
  }

  /** The expectation is the oracle's value of the inputs for the contract's two `usize` parameters. */
  predicate ExpectsUsize(c: Contract, e: ExternalCase, v: TestVector)
    requires UnsignedOf(c).Some?
  {
    var ps := ParamsOf(c.params, IsUsize);
    && |ps| == 2 && ps[0].name in e.inputs && ps[1].name in e.inputs
    && var (a, b) := (AsU64(e.inputs[ps[0].name]), AsU64(e.inputs[ps[1].name]));
       a.Some? && b.Some? && v.expected == JsonInt(ReduceUnsigned(UnsignedOf(c).value, a.value, b.value))
  }

  lemma {:induction false} ParamsOfMembers(ps: seq<Param>, want: SemType -> bool)
    ensures forall p | p in ParamsOf(ps, want) :: p in ps && want(p.ty)
  {
    if ps != [] { ParamsOfMembers(ps[1..], want); }
  }

  lemma LeadingPair(ps: seq<Param>)
    requires |ParamsOf(ps, IsUsize)| == 2 && |ps| >= 2 && IsUsize(ps[0].ty) && IsUsize(ps[1].ty)
    ensures ParamsOf(ps, IsUsize) == [ps[0], ps[1]]
  {
    assert ps[1..][1..] == ps[2..];
    assert ParamsOf(ps, IsUsize) == [ps[0]] + ([ps[1]] + ParamsOf(ps[2..], IsUsize));
  }

  function Names(ps: seq<Param>): (ns: set<string>)
    ensures forall n :: n in ns <==> exists i | 0 <= i < |ps| :: ps[i].name == n
  {
    set i | 0 <= i < |ps| :: ps[i].name
  }

  lemma {:induction false} NamesCount(ps: seq<Param>)
    requires DistinctNames(ps)
    ensures |Names(ps)| == |ps|
  {
    if ps != [] {
      var n := |ps| - 1;
      NamesCount(ps[..n]);
      assert Names(ps) == Names(ps[..n]) + {ps[n].name};
      assert ps[n].name !in Names(ps[..n]);
    }
  }

  /** A case that gives `odd` one value and every other parameter another. */
  function OddCase(ps: seq<Param>, odd: string, x: int, y: int): (e: ExternalCase)
  {
    ExternalCase("case", map n | n in Names(ps) :: if n == odd then JsonInt(x) else JsonInt(y))
  }

  lemma OddCaseShape(ps: seq<Param>, j: nat, x: int, y: int)
    requires DistinctNames(ps) && j < 2 <= |ps|
    ensures var e := OddCase(ps, ps[j].name, x, y);
            && !Blank(e.id) && |e.inputs| == |ps|
            && (forall i | 0 <= i < |ps| :: ps[i].name in e.inputs)
            && e.inputs[ps[j].name] == JsonInt(x) && e.inputs[ps[1 - j].name] == JsonInt(y)
  {
    var e := OddCase(ps, ps[j].name, x, y);
    NamesCount(ps);
    hide JsonInt;
    assert e.inputs.Keys == Names(ps);
    assert |e.inputs| == |e.inputs.Keys|;
    assert e.id[0] == 'c';
  }

  lemma DeriveUnsigned(c: Contract, e: ExternalCase, a: int, b: int)
    requires UnsignedOf(c).Some? && |c.params| >= 2 && !Blank(e.id) && |e.inputs| == |c.params|
    requires forall i | 0 <= i < |c.params| :: c.params[i].name in e.inputs
    requires AsU64(e.inputs[c.params[0].name]) == Some(a) && AsU64(e.inputs[c.params[1].name]) == Some(b)
    ensures IsU64(a) && IsU64(b) && DeriveExternal(c, e).Some?
    ensures DeriveExternal(c, e).value.expected == JsonInt(ReduceUnsigned(UnsignedOf(c).value, a, b))
  {
    assert IsU64(a) && IsU64(b);
    hide UnsignedOf;
    hide SignedOf;
    hide UnaryOf;
    hide AsU64;
    hide AsI64;
    hide JsonInt;
    hide Blank;
    hide ReduceUnsigned;
  }

  lemma OddCaseAccepted(c: Contract, j: nat, x: int, y: int)
    requires UnsignedOf(c).Some? && DistinctNames(c.params) && j < 2 <= |c.params|
    requires 0 <= x <= 1 && 0 <= y <= 1
    ensures var v := DeriveExternal(c, OddCase(c.params, c.params[j].name, x, y));
            v.Some? && v.value.expected == JsonInt(ReduceUnsigned(UnsignedOf(c).value, x, y))
  {
    var e := OddCase(c.params, c.params[j].name, x, y);
    hide OddCase;
    hide DeriveExternal;
    hide UnsignedOf;
    hide JsonInt;
    hide Blank;
    OddCaseShape(c.params, j, x, y);
    JsonIntBack(x);
    JsonIntBack(y);
    if j == 0 { DeriveUnsigned(c, e, x, y); } else { DeriveUnsigned(c, e, y, x); }
  }

  lemma OddCaseMisses(c: Contract, j: nat, x: int, y: int, v: TestVector)
    requires UnsignedOf(c).Some? && DistinctNames(c.params) && j < 2 <= |c.params| && !IsUsize(c.params[j].ty)
    requires 0 <= x <= 1 && 0 <= y <= 1 && x != y
    requires x == if UnsignedOf(c).value == UMin then 0 else 1
    requires v.expected == JsonInt(ReduceUnsigned(UnsignedOf(c).value, x, y))
    ensures !ExpectsUsize(c, OddCase(c.params, c.params[j].name, x, y), v)
  {
    var e, ps := OddCase(c.params, c.params[j].name, x, y), ParamsOf(c.params, IsUsize);
    ParamsOfMembers(c.params, IsUsize);
    forall p | p in ps && p.name in e.inputs ensures e.inputs[p.name] == JsonInt(y) {
      var i :| 0 <= i < |c.params| && c.params[i] == p;
      assert i != j;
    }
    JsonIntBack(y);
    JsonIntBack(x);
    hide UnsignedOf;
    hide ParamsOf;
    hide OddCase;
    hide JsonInt;
    if |ps| == 2 { assert ps[0] in ps && ps[1] in ps; }
  }

  /**
   Exactly when the two-`usize` oracle reads the right inputs: every accepted case expects
   the value of its two `usize` inputs if and only if those parameters come first.
   */
  lemma UnsignedExternalExact(c: Contract)
    requires UnsignedOf(c).Some? && DistinctNames(c.params)
    ensures |c.params| >= 2
    ensures (forall e: ExternalCase | DeriveExternal(c, e).Some? :: ExpectsUsize(c, e, DeriveExternal(c, e).value)) <==>
              IsUsize(c.params[0].ty) && IsUsize(c.params[1].ty)
  {
    assert |c.params| >= 2;
    if IsUsize(c.params[0].ty) && IsUsize(c.params[1].ty) {
      forall e: ExternalCase | DeriveExternal(c, e).Some? ensures ExpectsUsize(c, e, DeriveExternal(c, e).value) {
        LeadingPairRead(c, e);
      }
    } else {
      hide UnsignedOf;
      hide DeriveExternal;
      hide ExpectsUsize;
      var j := if IsUsize(c.params[0].ty) then 1 else 0;
      var x := if UnsignedOf(c).value == UMin then 0 else 1;
      var e := OddCase(c.params, c.params[j].name, x, 1 - x);
      OddCaseAccepted(c, j, x, 1 - x);
      OddCaseMisses(c, j, x, 1 - x, DeriveExternal(c, e).value);
    }
  }

  lemma LeadingPairRead(c: Contract, e: ExternalCase)
    requires UnsignedOf(c).Some? && |c.params| >= 2 && DeriveExternal(c, e).Some?
    requires IsUsize(c.params[0].ty) && IsUsize(c.params[1].ty)
    ensures ExpectsUsize(c, e, DeriveExternal(c, e).value)
  {
    assert |ParamsOf(c.params, IsUsize)| == 2;
    LeadingPair(c.params);
    hide UnsignedOf;
    hide ParamsOf;
    hide AsU64;
    hide JsonInt;
    hide Blank;
    hide ReduceUnsigned;
  }

  /**
   With a surplus leading parameter the derived expectation is about the wrong pair:
   the oracle reads parameters 0 and 1 whatever their types.
   */
  lemma SurplusParameter(c: Contract, e: ExternalCase, x: nat, a: nat, b: nat)
    requires c.params == [Param("x", UInt(64)), Param("a", Usize), Param("b", Usize)]
    requires c.name == "min" && c.results == [Usize] && c.promises == []
    requires !Blank(e.id) && x < a < b < TWO63
    requires e.inputs == map["x" := JsonInt(x), "a" := JsonInt(a), "b" := JsonInt(b)]
    ensures UnsignedOf(c) == Some(UMin)
    ensures DeriveExternal(c, e).Some? && DeriveExternal(c, e).value.expected == JsonInt(x)
    ensures x != ReduceUnsigned(UMin, a, b)
  {
    SurplusRecognised(c);
    var names := ["x", "a", "b"];
    assert |e.inputs| == 3;
    forall i | 0 <= i < |c.params| ensures c.params[i].name in e.inputs {
      assert c.params[i].name == names[i];
    }
    JsonIntBack(x);
    JsonIntBack(a);
    hide UnsignedOf;
    hide SignedOf;
    hide UnaryOf;
    hide Blank;
    hide JsonInt;
  }

  lemma SurplusRecognised(c: Contract)
    requires c.params == [Param("x", UInt(64)), Param("a", Usize), Param("b", Usize)]
    requires c.name == "min" && c.results == [Usize] && c.promises == []
    ensures UnsignedOf(c) == Some(UMin)
  {
    var ps := c.params;
    assert ps[1..] == [Param("a", Usize), Param("b", Usize)];
    assert ps[1..][1..] == [Param("b", Usize)];
    assert ParamsOf(ps[1..][1..], IsUsize) == [Param("b", Usize)];
    assert ParamsOf(ps[1..], IsUsize) == [Param("a", Usize), Param("b", Usize)];
    assert ParamsOf(ps, IsUsize) == [Param("a", Usize), Param("b", Usize)];
    assert Contains("min", "min") && !Contains("min", "max") by {
      assert "min"[..3] == "min";
      assert !Contains("min"[1..], "max");
      assert "min"[0] == 'm' && "min"[1] == 'i' && "max"[1] == 'a';
    }
  }

  // ----- what resolution accepts -----

  /** Where buffers and numbers stand among the inputs of a shape's vectors. */
  function Layout(s: Shape): (buffers: seq<bool>)
  {
    match s
    case ReplaceByte => [true, false, false, false]
    case BufferScan => [true, false, false]
    case Memset => [true, false, false]
    case MemCmp => [true, true, false]
    case Memcpy => [true, true, false]
    case I64Sum => [true, false]
    case CellStore => [true, false]
    case PureInt => [false, false]
    case PureIntUnary => [false]
    case CellLoad => [true]
  }

  predicate Fits(xs: seq<Value>, buffers: seq<bool>)
  {
    |xs| == |buffers| && forall i | 0 <= i < |xs| :: if buffers[i] then IsBuffer(xs[i]) else IsNumber(xs[i])
  }

  predicate LaidOut(xs: seq<Value>, s: Shape)
  {
    Fits(xs, Layout(s))
  }

  /** Resolution yields a shape exactly if it is the oracle's and the first vector is laid out for it. */
  lemma ResolveExact(c: Contract, vs: seq<TestVector>, s: Shape)
    ensures ResolveShape(c, vs) == Some(s) <==>
            && RecogniseOracle(c).Some? && s == OracleShape(RecogniseOracle(c).value)
            && vs != [] && LaidOut(vs[0].inputs, s)
  {
    hide RecogniseOracle;
    if vs != [] { DetectExact(vs, s); }
    hide DetectShape;
    hide LaidOut;
  }

  /** The shape whose layout detection reports. */
  function Wire(s: Shape): (d: Shape)
  {
    if s == Memset then BufferScan else if s == Memcpy then MemCmp else if s == CellStore then I64Sum else s
  }

  lemma FitsUnrolled(xs: seq<Value>, w: seq<bool>)
    requires |w| <= 4
    ensures Fits(xs, w) <==>
            && |xs| == |w|
            && (|w| > 0 ==> if w[0] then IsBuffer(xs[0]) else IsNumber(xs[0]))
            && (|w| > 1 ==> if w[1] then IsBuffer(xs[1]) else IsNumber(xs[1]))
            && (|w| > 2 ==> if w[2] then IsBuffer(xs[2]) else IsNumber(xs[2]))
            && (|w| > 3 ==> if w[3] then IsBuffer(xs[3]) else IsNumber(xs[3]))
  {
    hide IsBuffer;
    hide IsNumber;
  }

  lemma DetectExact(vs: seq<TestVector>, s: Shape)
    requires vs != []
    ensures DetectShape(vs) == Some(Wire(s)) <==> LaidOut(vs[0].inputs, s)
    ensures DetectShape(vs).Some? ==> DetectShape(vs).value !in {Memset, Memcpy, CellStore}
  {
    FitsUnrolled(vs[0].inputs, Layout(s));
    hide Fits;
  }

  // ----- the contract's own length bound -----

  lemma BoundOfSound(e: ContractExpr.Expr, name: string, w: ContractExpr.World)
    requires ContractExpr.Truth(e, w) && w.ints(name) >= 0 && BoundOf(e, name).Some?
    ensures w.ints(name) <= BoundOf(e, name).value
  {
  }

  /** The four spellings of an upper bound; `< 0`, which no length meets, counts as `<= 0`. */
  lemma BoundSpellings(name: string, n: nat)
    ensures BoundOf(ContractExpr.Binary(ContractExpr.Le, ContractExpr.Ident(name), ContractExpr.IntLit(n)), name) == Some(n)
    ensures BoundOf(ContractExpr.Binary(ContractExpr.Ge, ContractExpr.IntLit(n), ContractExpr.Ident(name)), name) == Some(n)
    ensures n > 0 ==>
              BoundOf(ContractExpr.Binary(ContractExpr.Lt, ContractExpr.Ident(name), ContractExpr.IntLit(n)), name) == Some(n - 1)
    ensures n > 0 ==>
              BoundOf(ContractExpr.Binary(ContractExpr.Gt, ContractExpr.IntLit(n), ContractExpr.Ident(name)), name) == Some(n - 1)
  {
  }

  /** A condition that gives a bound says exactly that the length respects it, unless it excludes length 0. */
  lemma BoundOfExact(e: ContractExpr.Expr, name: string, w: ContractExpr.World)
    requires w.ints(name) >= 0 && BoundOf(e, name).Some?
    ensures (ContractExpr.Truth(e, w) <==> w.ints(name) <= BoundOf(e, name).value) <==>
            !(w.ints(name) == 0 && !ContractExpr.Truth(e, w))
  {
  }

  /** The recognised bound is the least of those the conditions give, and there is one if any gives one. */
  lemma {:induction false} LengthBoundLeast(conds: seq<ContractExpr.Expr>, name: string)
    ensures LengthBound(conds, name).Some? <==> exists i | 0 <= i < |conds| :: BoundOf(conds[i], name).Some?
    ensures forall i | 0 <= i < |conds| && BoundOf(conds[i], name).Some? ::
              LengthBound(conds, name).value <= BoundOf(conds[i], name).value
    ensures LengthBound(conds, name).Some? ==>
              exists i | 0 <= i < |conds| :: BoundOf(conds[i], name) == LengthBound(conds, name)
  {
    hide BoundOf;
    if conds != [] {
      var n := |conds| - 1;
      LengthBoundLeast(conds[..n], name);
      assert forall i | 0 <= i < n :: conds[..n][i] == conds[i];
    }
  }

  /** A byte is recognised from the first condition that sets it equal to a byte, either way round. */
  lemma {:induction false} RequiredByteExact(conds: seq<ContractExpr.Expr>, name: string, n: int)
    ensures RequiredByte(conds, name) == Some(n) <==>
              exists i | 0 <= i < |conds| :: SetsByte(conds[i], name, n) && NoneSetsByte(conds, name, i)
  {
    if conds != [] {
      RequiredByteExact(conds[1..], name, n);
      assert forall i | 0 <= i < |conds| - 1 :: conds[1..][i] == conds[i + 1];
      ByteOfExact(conds[0], name, n);
      if RequiredByte(conds, name) == Some(n) && ByteOf(conds[0], name).None? {
        var i :| 0 <= i < |conds| - 1 && SetsByte(conds[1..][i], name, n) && NoneSetsByte(conds[1..], name, i);
        forall j, m | 0 <= j < i + 1 ensures !SetsByte(conds[j], name, m) {
          if j == 0 { ByteOfExact(conds[0], name, m); } else { assert conds[j] == conds[1..][j - 1]; }
        }
        assert SetsByte(conds[i + 1], name, n) && NoneSetsByte(conds, name, i + 1);
      }
      if i :| 0 <= i < |conds| && SetsByte(conds[i], name, n) && NoneSetsByte(conds, name, i) {
        if i > 0 {
          if m: int :| ByteOf(conds[0], name) == Some(m) { ByteOfExact(conds[0], name, m); }
          assert NoneSetsByte(conds[1..], name, i - 1);
          assert SetsByte(conds[1..][i - 1], name, n);
        }
      }
    }
  }

  predicate SetsByte(e: ContractExpr.Expr, name: string, n: int)
  {
    0 <= n < 256 &&
    (e == ContractExpr.Binary(ContractExpr.Eq, ContractExpr.Ident(name), ContractExpr.IntLit(n)) ||
     e == ContractExpr.Binary(ContractExpr.Eq, ContractExpr.IntLit(n), ContractExpr.Ident(name)))
  }

  ghost predicate NoneSetsByte(conds: seq<ContractExpr.Expr>, name: string, i: nat)
    requires i <= |conds|
  {
    forall j, m | 0 <= j < i :: !SetsByte(conds[j], name, m)
  }

  lemma ByteOfExact(e: ContractExpr.Expr, name: string, n: int)
    ensures ByteOf(e, name) == Some(n) <==> SetsByte(e, name, n)
  {
  }

  /** The recognised bound is one every length the conditions allow respects. */
  lemma {:induction false} LengthBoundSound(
    conds: seq<ContractExpr.Expr>, name: string, w: ContractExpr.World)
    requires LengthBound(conds, name).Some? && w.ints(name) >= 0
    requires forall i | 0 <= i < |conds| :: ContractExpr.Truth(conds[i], w)
    ensures w.ints(name) <= LengthBound(conds, name).value
  {
    hide BoundOf;
    hide ContractExpr.Truth;
    var n := |conds| - 1;
    if LengthBound(conds[..n], name).Some? { LengthBoundSound(conds[..n], name, w); }
    if BoundOf(conds[n], name).Some? { BoundOfSound(conds[n], name, w); }
  }

  /** A bound that leaves room for `n` bytes. */
  predicate Room(maxLength: Option<int>, n: nat)
  {
    maxLength.Some? ==> maxLength.value >= n
  }

  /** No fixture's buffer is longer than the bound. */
  predicate FitsBound(vs: seq<TestVector>, maxLength: Option<int>)
  {
    maxLength.Some? ==> forall i | 0 <= i < |vs| :: |ItemsAt(vs[i], 0)| <= maxLength.value
  }

  lemma ScanLength(t: Title, b: Option<seq<Byte>>, x: Byte, n: int)
    ensures |ItemsAt(ScanVector(t, b, x, n), 0)| == |Contents(b)|
  {
  }

  lemma RowLengths(rows: seq<Row>, x: Byte, maxLength: Option<int>)
    ensures FitsBound(FromRows(rows, x), maxLength) <==>
              (maxLength.Some? ==> forall i | 0 <= i < |rows| :: |Contents(rows[i].buf)| <= maxLength.value)
  {
    hide Contents;
    hide ItemsAt;
    hide ScanVector;
    forall i | 0 <= i < |rows| ensures |ItemsAt(FromRows(rows, x)[i], 0)| == |Contents(rows[i].buf)| {
      ScanLength(rows[i].title, rows[i].buf, x, rows[i].expected);
    }
  }

  /** Scan fixtures obey a contract's length bound exactly when it leaves room for three bytes. */
  lemma ScanFitsBound(s: ScanShape)
    ensures FitsBound(ScanVectors(s), s.maxLength) <==> Room(s.maxLength, 3)
  {
    RowLengths(ScanRows(s), s.needle, s.maxLength);
    hide FromRows;
    hide FitsBound;
    hide NonNeedle;
    hide Repeat;
    var rows := ScanRows(s);
    assert |Contents(rows[2].buf)| == 3;
  }

  /** A length a fixture may have: at most 256, and within the bound or the single byte every bound gets. */
  predicate FixtureLength(maxLength: Option<int>, m: int)
  {
    1 <= m <= 256 && (m == 1 || maxLength.None? || m <= maxLength.value)
  }

  /** The longest fixtures have the largest of these lengths. */
  lemma CappedExact(maxLength: Option<int>, n: nat)
    ensures n == Capped(maxLength) <==>
            FixtureLength(maxLength, n) && forall m | FixtureLength(maxLength, m) :: m <= n
  {
    assert FixtureLength(maxLength, Capped(maxLength));
  }

  /** The longest scan fixture holds nothing but needles, the longest memset fixture no byte of the value. */
  lemma LongestRows(s: ScanShape, t: MemsetShape)
    ensures exists i | 0 <= i < |ScanVectors(s)| ::
              && ScanVectors(s)[i].name == Builtin(Longest)
              && |BufferOf(ScanVectors(s)[i], 0)| == Capped(s.maxLength)
              && forall k | 0 <= k < Capped(s.maxLength) :: BufferOf(ScanVectors(s)[i], 0)[k] == s.needle
    ensures exists i | 0 <= i < |MemsetVectors(t)| ::
              && MemsetVectors(t)[i].name == Builtin(Longest)
              && |BufferOf(MemsetVectors(t)[i], 0)| == Capped(t.maxLength)
              && forall k | 0 <= k < Capped(t.maxLength) :: BufferOf(MemsetVectors(t)[i], 0)[k] != t.value
  {
    var k, n := s.needle, Capped(s.maxLength);
    var i := LongestScanRow(s);
    BufferBack(ScanVectors(s)[i], 0, Some(Repeat(k, n)));
    var f, m := NextByte(t.value), Capped(t.maxLength);
    NextDiffers(t.value);
    var v := MemsetVectors(t)[4];
    assert MemsetRows(t)[4] == Row(Longest, Some(Repeat(f, m)), 0);
    assert v == ScanVector(Longest, Some(Repeat(f, m)), t.value, 0);
    BufferBack(v, 0, Some(Repeat(f, m)));
    hide MemsetRows;
    hide ScanRows;
    hide BufferOf;
  }

  lemma LongestScanRow(s: ScanShape) returns (i: nat)
    ensures i < |ScanVectors(s)| && ScanVectors(s)[i].name == Builtin(Longest)
    ensures 0 < |ScanVectors(s)[i].inputs| && ScanVectors(s)[i].inputs[0] == BufferArg(Some(Repeat(s.needle, Capped(s.maxLength))))
  {
    hide NonNeedle;
    hide Repeat;
    hide BufferArg;
    i := match s.op case Count => 5 case FindFirst => 6 case FindLast => 7;
    var row := ScanRows(s)[i];
    assert row.title == Longest && row.buf == Some(Repeat(s.needle, Capped(s.maxLength)));
    assert ScanVectors(s)[i] == ScanVector(row.title, row.buf, s.needle, row.expected);
  }

  /** The longest replace fixture has one byte to keep, if there is room for it, and needles after it. */
  lemma LongestReplace(s: ReplaceShape)
    ensures var n, vs := Capped(s.maxLength), ReplaceVectors(s);
            exists i | 0 <= i < |vs| ::
              && vs[i].name == Builtin(Longest) && |BufferOf(vs[i], 0)| == n
              && (n > 1 ==> BufferOf(vs[i], 0)[0] != s.needle)
              && forall k | 0 <= k < n && (n > 1 ==> k > 0) :: BufferOf(vs[i], 0)[k] == s.needle
  {
    var most, vs := MaxReplaceBuffer(s), ReplaceVectors(s);
    var i := |vs| - 1;
    NextDiffers(s.needle);
    MostReplace(s);
    hide MaxReplaceBuffer;
    hide CountOf;
    assert vs[i] == ReplaceVector(Longest, Some(most), s.needle, s.replacement, CountOf(most, s.needle));
    BufferBack(vs[i], 0, Some(most));
    hide BufferOf;
    hide ReplaceVector;
  }

  lemma MostReplace(s: ReplaceShape)
    ensures var n, most := Capped(s.maxLength), MaxReplaceBuffer(s);
            && |most| == n && (n > 1 ==> most[0] == NextByte(s.needle))
            && forall k | 0 <= k < n && (n > 1 ==> k > 0) :: most[k] == s.needle
  {
    hide NextByte;
  }

  /** The longest memcpy fixture copies 0, 1, 2 and so on over a buffer of 0xEE. */
  lemma LongestCopy(s: PairShape)
    ensures var n, vs := Capped(s.maxLength), MemcpyVectors(s);
            exists i | 0 <= i < |vs| ::
              && vs[i].name == Builtin(Longest) && |BufferOf(vs[i], 0)| == n == |BufferOf(vs[i], 1)|
              && forall k | 0 <= k < n :: BufferOf(vs[i], 0)[k] == 0xEE && BufferOf(vs[i], 1)[k] == k % 256
  {
    var n := Capped(s.maxLength);
    var v := MemcpyVectors(s)[3];
    assert v == PairVector(Longest, Some(Repeat(0xEE, n)), Some(Counting(n)), 0);
    BufferBack(v, 0, Some(Repeat(0xEE, n)));
    BufferBack(v, 1, Some(Counting(n)));
    hide BufferOf;
  }

  /** Memset fixtures need room for five. */
  lemma MemsetFitsBound(s: MemsetShape)
    ensures FitsBound(MemsetVectors(s), s.maxLength) <==> Room(s.maxLength, 5)
  {
    RowLengths(MemsetRows(s), s.value, s.maxLength);
    hide FromRows;
    hide FitsBound;
    hide NextByte;
    hide Repeat;
    var rows := MemsetRows(s);
    assert |Contents(rows[2].buf)| == 5;
  }

  lemma ReplaceLength(t: Title, b: Option<seq<Byte>>, k: Byte, r: Byte, n: int)
    ensures |ItemsAt(ReplaceVector(t, b, k, r, n), 0)| == |Contents(b)|
  {
  }

  /** Replace fixtures need room for five. */
  lemma ReplaceFitsBound(s: ReplaceShape)
    ensures FitsBound(ReplaceVectors(s), s.maxLength) <==> Room(s.maxLength, 5)
  {
    hide ReplaceVector;
    hide ItemsAt;
    hide CountOf;
    hide NextByte;
    var k, r, most := s.needle, s.replacement, MaxReplaceBuffer(s);
    assert |most| == Capped(s.maxLength);
    hide MaxReplaceBuffer;
    ReplaceLength(EmptyInput, None, k, r, 0);
    ReplaceLength(OneByteMatch, Some([k]), k, r, 1);
    ReplaceLength(OneByteMiss, Some([NextByte(k)]), k, r, 0);
    ReplaceLength(MixedHits, Some([k, 1, k, 2, k]), k, r, 3);
    ReplaceLength(SameReplacement, Some([k, k, 7]), k, k, 2);
    ReplaceLength(Longest, Some(most), k, r, CountOf(most, k));
    var vs := ReplaceVectors(s);
    assert |ItemsAt(vs[3], 0)| == 5;
  }

  lemma PairLength(t: Title, a: Option<seq<Byte>>, b: Option<seq<Byte>>, n: int)
    ensures |ItemsAt(PairVector(t, a, b, n), 0)| == |Contents(a)|
  {
  }

  /** Memcpy fixtures need room for five. */
  lemma MemcpyFitsBound(s: PairShape)
    ensures FitsBound(MemcpyVectors(s), s.maxLength) <==> Room(s.maxLength, 5)
  {
    hide PairVector;
    hide ItemsAt;
    hide Counting;
    var n := Capped(s.maxLength);
    PairLength(EmptyInput, None, None, 0);
    PairLength(OneByte, Some([0xEE]), Some([0x5A]), 0);
    PairLength(ShortCopy, Some(Repeat(0xEE, 5)), Some([1, 2, 3, 4, 5]), 0);
    PairLength(Longest, Some(Repeat(0xEE, n)), Some(Counting(n)), 0);
    hide Repeat;
    var vs := MemcpyVectors(s);
    assert |ItemsAt(vs[2], 0)| == 5;
  }

  /** Compare fixtures need room for four. */
  lemma CompareFitsBound(s: PairShape)
    ensures FitsBound(MemCmpVectors(s), s.maxLength) <==> Room(s.maxLength, 4)
  {
    hide PairVector;
    hide ItemsAt;
    hide Counting;
    var c := Counting(Capped(s.maxLength));
    PairLength(EmptyBuffers, Some([]), Some([]), 0);
    PairLength(EqualBuffers, Some([0, 127, 255]), Some([0, 127, 255]), 0);
    PairLength(LessThan, Some([0]), Some([255]), -1);
    PairLength(GreaterThan, Some([255]), Some([0]), 1);
    PairLength(PrefixThenDifference, Some([1, 2, 3, 4]), Some([1, 2, 3, 5]), -1);
    PairLength(Longest, Some(c), Some(c), 0);
    PairLength(NullBuffers, None, None, 0);
    var vs := MemCmpVectors(s);
    assert |ItemsAt(vs[4], 0)| == 4;
  }

  lemma SumLength(t: Title, xs: Option<seq<int>>, n: int)
    ensures |ItemsAt(SumVector(t, xs, n), 0)| == if xs.Some? then |xs.value| else 0
  {
  }

  /** Sum fixtures need room for four words. */
  lemma SumFitsBound(s: SumShape)
    ensures FitsBound(SumVectors(s), s.maxLength) <==> Room(s.maxLength, 4)
  {
    hide SumVector;
    hide ItemsAt;
    var n := Capped(s.maxLength);
    SumLength(EmptySum, None, 0);
    SumLength(Positive, Some([1, 2, 3, 4]), 10);
    SumLength(Mixed, Some([-5, 2, 10]), 7);
    SumLength(SingleNegative, Some([-1]), -1);
    SumLength(WrappingOverflow, Some([TWO63 - 1, 1]), -TWO63);
    SumLength(Longest, Some(seq(n, i => 1)), n);
    SumLength(NullPointer, None, 0);
    var vs := SumVectors(s);
    assert |ItemsAt(vs[1], 0)| == 4;
  }

  /**
   Under a tighter bound the three-byte fixture is a call the contract excludes: no
   values with that length meet all the contract's conditions.
   */
  lemma FixtureOutsideContract(c: Contract, w: ContractExpr.World)
    requires Scan(c).Some? && Scan(c).value.maxLength.Some? && Scan(c).value.maxLength.value < 3
    requires FirstParam(c.params, IsUsize).Some?
    requires w.ints(FirstParam(c.params, IsUsize).value.name) == |Contents(ScanRows(Scan(c).value)[2].buf)|
    ensures w.ints(FirstParam(c.params, IsUsize).value.name) == 3
    ensures exists i :: 0 <= i < |c.conditions| && !ContractExpr.Truth(c.conditions[i], w)
  {
    var s, name := Scan(c).value, FirstParam(c.params, IsUsize).value.name;
    NoMatchLength(s);
    assert s.maxLength == LengthBound(c.conditions, name);
    hide Scan;
    hide ScanRows;
    if forall i | 0 <= i < |c.conditions| :: ContractExpr.Truth(c.conditions[i], w) {
      LengthBoundSound(c.conditions, name, w);
    }
  }

  lemma NoMatchLength(s: ScanShape)
    ensures |ScanRows(s)| > 2 && |Contents(ScanRows(s)[2].buf)| == 3
  {
    hide NonNeedle;
    hide Repeat;
  }
}
