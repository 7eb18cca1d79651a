/**
 Calling shapes (crates/semasm-agent/src/harness.rs): how a checked contract is
 recognised, which fixtures it gets, and which wire layout the harness uses.
 Names and condition texts arrive lower-cased and without white space.
 */
module Shapes {
  import opened Basics
  import opened CanonicalJson
  import opened IntegerOracles
  import opened Evaluator
  import opened ContractExpr

  // ----- contracts -----

  datatype SemType = Ptr(isConst: bool, inner: SemType) | Usize | Isize | UInt(bits: nat) | Int(bits: nat) | OtherType

  datatype Param = Param(name: string, ty: SemType)

  datatype Effect = Effect(kind: string, region: Option<string>)

  datatype Contract = Contract(
    name: string, params: seq<Param>, results: seq<SemType>,
    conditions: seq<Expr>, promises: seq<string>, effects: seq<Effect>)

  predicate Contains(s: string, t: string)
  {
    |t| <= |s| && (s[..|t|] == t || (s != [] && Contains(s[1..], t)))
  }

  /** `t` stands alone between underscores or the ends of `s`. */
  predicate TokenHit(s: string, t: string)
  {
    || s == t
    || (|s| >= |t| + 1 && s[..|t| + 1] == t + "_")
    || (|s| >= |t| + 1 && s[|s| - |t| - 1..] == "_" + t)
    || Contains(s, "_" + t + "_")
  }

  function FirstParam(ps: seq<Param>, want: SemType -> bool): (p: Option<Param>)
    ensures p.Some? ==> p.value in ps && want(p.value.ty)
    ensures p.None? ==> forall q | q in ps :: !want(q.ty)
  {
    if ps == [] then None else if want(ps[0].ty) then Some(ps[0]) else FirstParam(ps[1..], want)
  }

  function ParamsOf(ps: seq<Param>, want: SemType -> bool): (r: seq<Param>)
    ensures |r| <= |ps|
    ensures |r| > 0 ==> FirstParam(ps, want).Some?
    ensures |r| == |ps| ==> forall q | q in ps :: want(q.ty)
  {
    if ps == [] then []
    else if want(ps[0].ty) then [ps[0]] + ParamsOf(ps[1..], want)
    else ParamsOf(ps[1..], want)
  }

  predicate IsPtr(t: SemType) { t.Ptr? }
  predicate IsConstPtr(t: SemType) { t.Ptr? && t.isConst }
  predicate IsMutPtr(t: SemType) { t.Ptr? && !t.isConst }
  predicate IsConstU8Ptr(t: SemType) { t == Ptr(true, UInt(8)) }
  predicate IsMutU8Ptr(t: SemType) { t == Ptr(false, UInt(8)) }
  predicate IsConstI64Ptr(t: SemType) { t == Ptr(true, Int(64)) }
  predicate IsUsize(t: SemType) { t.Usize? }
  predicate IsU8(t: SemType) { t == UInt(8) }
  predicate IsI64Type(t: SemType) { t == Int(64) }

  predicate HasEffect(c: Contract, kind: string)
  {
    exists i | 0 <= i < |c.effects| :: c.effects[i].kind == kind
  }

  // ----- bounds and constants a contract requires -----

  /** `name <= n` in any of its four spellings gives the inclusive bound. */
  function BoundOf(e: Expr, name: string): (b: Option<int>)
  {
    if !e.Binary? then None
    else match (e.op, e.left, e.right)
      case (Le, Ident(x), IntLit(n)) => if x == name && n >= 0 then Some(n) else None
      case (Lt, Ident(x), IntLit(n)) => if x == name && n >= 0 then Some(if n == 0 then 0 else n - 1) else None
      case (Ge, IntLit(n), Ident(x)) => if x == name && n >= 0 then Some(n) else None
      case (Gt, IntLit(n), Ident(x)) => if x == name && n >= 0 then Some(if n == 0 then 0 else n - 1) else None
      case _ => None
  }

  /** The tightest of the bounds the conditions give. */
  function LengthBound(conds: seq<Expr>, name: string): (b: Option<int>)
  {
    if conds == [] then None
    else
      var before, here := LengthBound(conds[..|conds| - 1], name), BoundOf(conds[|conds| - 1], name);
      if here.None? then before
      else if before.None? || here.value < before.value then here
      else before
  }

  function ByteOf(e: Expr, name: string): (b: Option<int>)
    ensures b.Some? ==> 0 <= b.value < 256
  {
    if !e.Binary? || e.op != Eq then None
    else match (e.left, e.right)
      case (Ident(x), IntLit(n)) => if x == name && 0 <= n < 256 then Some(n) else None
      case (IntLit(n), Ident(x)) => if x == name && 0 <= n < 256 then Some(n) else None
      case _ => None
  }

  function RequiredByte(conds: seq<Expr>, name: string): (b: Option<int>)
    ensures b.Some? ==> 0 <= b.value < 256
  {
    if conds == [] then None
    else if ByteOf(conds[0], name).Some? then ByteOf(conds[0], name)
    else RequiredByte(conds[1..], name)
  }

  function RequiredByteOr(c: Contract, name: string, fallback: Byte): (b: Byte)
  {
    match RequiredByte(c.conditions, name)
    case Some(n) => n
    case None => fallback
  }

  predicate NullWhenEmpty(c: Contract, ptr: string, len: string)
  {
    exists i | 0 <= i < |c.effects| ::
      c.effects[i].kind == "memory_read" && c.effects[i].region == Some(ptr + "[0.." + len + "]")
  }

  // ----- recognisers -----

  const DEFAULT_NEEDLE: Byte := 0x41

  datatype ScanOp = Count | FindFirst | FindLast

  datatype ScanShape = ScanShape(op: ScanOp, needle: Byte, maxLength: Option<int>, nullable: bool)
  datatype ReplaceShape = ReplaceShape(needle: Byte, replacement: Byte, maxLength: Option<int>)
  datatype MemsetShape = MemsetShape(value: Byte, maxLength: Option<int>)
  datatype PairShape = PairShape(maxLength: Option<int>, nullable: bool)
  datatype SumShape = SumShape(maxLength: Option<int>, nullable: bool)

  function ScanOpOf(name: string): (op: Option<ScanOp>)
  {
    var count := Contains(name, "count");
    var last := Contains(name, "last") || Contains(name, "rfind");
    var find := Contains(name, "find") || Contains(name, "index");
    if count && !last && !find then Some(Count)
    else if !count && last then Some(FindLast)
    else if !count && !last && find then Some(FindFirst)
    else None
  }

  function Scan(c: Contract): (r: Option<ScanShape>)
  {
    var ptr, len := FirstParam(c.params, IsConstPtr), FirstParam(c.params, IsUsize);
    var needle, op := FirstParam(c.params, IsU8), ScanOpOf(c.name);
    if ptr.Some? && len.Some? && needle.Some? && Usize in c.results && op.Some? then
      Some(ScanShape(op.value, RequiredByteOr(c, needle.value.name, DEFAULT_NEEDLE),
                     LengthBound(c.conditions, len.value.name),
                     NullWhenEmpty(c, ptr.value.name, len.value.name)))
    else None
  }

  function Replace(c: Contract): (r: Option<ReplaceShape>)
  {
    var ptr, len := FirstParam(c.params, IsMutPtr), FirstParam(c.params, IsUsize);
    var bytes := ParamsOf(c.params, IsU8);
    if Contains(c.name, "replace") && HasEffect(c, "memory_write") && ptr.Some? && len.Some? &&
       Usize in c.results && |bytes| >= 2
    then
      Some(ReplaceShape(RequiredByteOr(c, bytes[0].name, DEFAULT_NEEDLE),
                        RequiredByteOr(c, bytes[1].name, 0), LengthBound(c.conditions, len.value.name)))
    else None
  }

  function MemsetOf(c: Contract): (r: Option<MemsetShape>)
  {
    var ptr, len := FirstParam(c.params, IsMutPtr), FirstParam(c.params, IsUsize);
    var bytes := ParamsOf(c.params, IsU8);
    if Contains(c.name, "memset") && HasEffect(c, "memory_write") && ptr.Some? && len.Some? &&
       Usize in c.results && |bytes| == 1
    then
      Some(MemsetShape(RequiredByteOr(c, bytes[0].name, DEFAULT_NEEDLE),
                       LengthBound(c.conditions, len.value.name)))
    else None
  }

  function MemcpyOf(c: Contract): (r: Option<PairShape>)
  {
    var dst, src := FirstParam(c.params, IsMutU8Ptr), FirstParam(c.params, IsConstU8Ptr);
    var len := FirstParam(c.params, IsUsize);
    if Contains(c.name, "memcpy") && HasEffect(c, "memory_write") && |c.params| == 3 &&
       |c.results| == 1 && dst.Some? && src.Some? && len.Some? && Usize in c.results
    then Some(PairShape(LengthBound(c.conditions, len.value.name), false))
    else None
  }

  function MemCmpOf(c: Contract): (r: Option<PairShape>)
  {
    var ptrs, lens := ParamsOf(c.params, IsConstU8Ptr), ParamsOf(c.params, IsUsize);
    if (Contains(c.name, "memcmp") || Contains(c.name, "bcmp")) && |c.params| == 3 &&
       |c.results| == 1 && |ptrs| == 2 && ptrs[0].name != ptrs[1].name && |lens| == 1 &&
       c.results[0] == Isize
    then
      Some(PairShape(LengthBound(c.conditions, lens[0].name),
                     NullWhenEmpty(c, ptrs[0].name, lens[0].name) &&
                     NullWhenEmpty(c, ptrs[1].name, lens[0].name)))
    else None
  }

  function SumOf(c: Contract): (r: Option<SumShape>)
  {
    var ptr, len := FirstParam(c.params, IsConstI64Ptr), FirstParam(c.params, IsUsize);
    if ptr.Some? && len.Some? && Int(64) in c.results && |c.params| == 2 then
      Some(SumShape(LengthBound(c.conditions, len.value.name),
                    NullWhenEmpty(c, ptr.value.name, len.value.name)))
    else None
  }

  /** The operation a name and the weak promises agree on; a conflict gives none. */
  function Agreed<T(==)>(byName: Option<T>, byPromise: Option<T>): (r: Option<T>)
  {
    if byName.Some? && byPromise.Some? then (if byName == byPromise then byName else None)
    else if byName.Some? then byName
    else byPromise
  }

  function ExtremumOf(c: Contract): (op: Option<UnsignedOp>)
  {
    var le := "result<=a" in c.promises && "result<=b" in c.promises;
    var ge := "result>=a" in c.promises && "result>=b" in c.promises;
    if le && !ge then Some(UMin) else if ge && !le then Some(UMax) else None
  }

  function UnsignedOf(c: Contract): (op: Option<UnsignedOp>)
  {
    var min, max := Contains(c.name, "min"), Contains(c.name, "max");
    var byName := if min && !max then Some(UMin) else if max && !min then Some(UMax) else None;
    if |ParamsOf(c.params, IsUsize)| == 2 && FirstParam(c.params, IsPtr).None? &&
       FirstParam(c.params, IsU8).None? && Usize in c.results
    then Agreed(byName, ExtremumOf(c))
    else None
  }

  function SignedByName(name: string): (op: Option<SignedOp>)
  {
    var add := TokenHit(name, "add") || TokenHit(name, "sum");
    var sub, min, max := TokenHit(name, "sub"), TokenHit(name, "min"), TokenHit(name, "max");
    if Contains(name, "add_then") || Contains(name, "then_double") then Some(AddThenDouble)
    else if add && !sub && !min && !max then Some(Add)
    else if sub && !add && !min && !max then Some(Sub)
    else if min && !add && !sub && !max then Some(Min)
    else if max && !add && !sub && !min then Some(Max)
    else None
  }

  function SignedOf(c: Contract): (op: Option<SignedOp>)
  {
    var byPromise := match ExtremumOf(c)
      case Some(UMin) => Some(Min)
      case Some(UMax) => Some(Max)
      case None => None;
    if |c.params| == 2 && |ParamsOf(c.params, IsI64Type)| == 2 && Int(64) in c.results then
      Agreed(SignedByName(c.name), byPromise)
    else None
  }

  /** Every unary operation the name mentions, in the order the source lists them. */
  function UnaryHits(name: string): (ops: seq<UnaryOp>)
  {
    Hit(Contains(name, "abs"), Abs) +
    Hit(Contains(name, "sum_range"), SumRange) +
    Hit(Contains(name, "countdown"), Countdown) +
    Hit(Contains(name, "scale") || (Contains(name, "double") && !Contains(name, "then")), Double) +
    Hit(TokenHit(name, "inc") || Contains(name, "increment"), Inc) +
    Hit(Contains(name, "add_base"), AddBase100) +
    Hit(Contains(name, "return") || Contains(name, "identity") || Contains(name, "stack_local") ||
        Contains(name, "spill"), Identity)
  }

  function Hit(here: bool, op: UnaryOp): (ops: seq<UnaryOp>)
    ensures |ops| <= 1 && forall o :: o in ops <==> here && o == op
  {
    if here then [op] else []
  }

  function UnaryOf(c: Contract): (op: Option<UnaryOp>)
  {
    if |c.params| == 1 && c.params[0].ty == Int(64) && Int(64) in c.results &&
       |UnaryHits(c.name)| == 1
    then Some(UnaryHits(c.name)[0])
    else None
  }

  predicate CellLoadOf(c: Contract) { Contains(c.name, "load_byte0") }
  predicate CellStoreOf(c: Contract) { Contains(c.name, "store_byte0") }

  // ----- the recognised oracle -----

  datatype Oracle =
    | ScanOracle(op: ScanOp) | ReplaceOracle | MemsetOracle | MemcpyOracle | MemCmpOracle | SumOracle
    | UnsignedOracle(uop: UnsignedOp) | SignedOracle(sop: SignedOp) | UnaryOracle(xop: UnaryOp)
    | CellLoadOracle | CellStoreOracle

  function RecogniseOracle(c: Contract): (o: Option<Oracle>)
  {
    if Scan(c).Some? then Some(ScanOracle(Scan(c).value.op))
    else if Replace(c).Some? then Some(ReplaceOracle)
    else if MemsetOf(c).Some? then Some(MemsetOracle)
    else if MemcpyOf(c).Some? then Some(MemcpyOracle)
    else if MemCmpOf(c).Some? then Some(MemCmpOracle)
    else if SumOf(c).Some? then Some(SumOracle)
    else if UnsignedOf(c).Some? then Some(UnsignedOracle(UnsignedOf(c).value))
    else if SignedOf(c).Some? then Some(SignedOracle(SignedOf(c).value))
    else if UnaryOf(c).Some? then Some(UnaryOracle(UnaryOf(c).value))
    else if CellLoadOf(c) then Some(CellLoadOracle)
    else if CellStoreOf(c) then Some(CellStoreOracle)
    else None
  }

  function OracleShape(o: Oracle): (s: Shape)
  {
    match o
    case ScanOracle(_) => BufferScan
    case ReplaceOracle => ReplaceByte
    case MemsetOracle => Memset
    case MemcpyOracle => Memcpy
    case MemCmpOracle => MemCmp
    case SumOracle => I64Sum
    case UnsignedOracle(_) => PureInt
    case SignedOracle(_) => PureInt
    case UnaryOracle(_) => PureIntUnary
    case CellLoadOracle => CellLoad
    case CellStoreOracle => CellStore
  }

  predicate IsBuffer(v: Value) { v.Null? || v.Arr? }
  predicate IsNumber(v: Value) { v.Num? }

  /** The layout of the first vector's inputs. */
  function DetectShape(vs: seq<TestVector>): (s: Option<Shape>)
  {
    if vs == [] then None
    else
      var xs := vs[0].inputs;
      if |xs| == 4 && IsBuffer(xs[0]) && IsNumber(xs[1]) && IsNumber(xs[2]) && IsNumber(xs[3]) then
        Some(ReplaceByte)
      else if |xs| == 3 && IsBuffer(xs[0]) && IsBuffer(xs[1]) && IsNumber(xs[2]) then Some(MemCmp)
      else if |xs| == 3 && IsBuffer(xs[0]) && IsNumber(xs[1]) && IsNumber(xs[2]) then Some(BufferScan)
      else if |xs| == 2 && IsBuffer(xs[0]) && IsNumber(xs[1]) then Some(I64Sum)
      else if |xs| == 2 && IsNumber(xs[0]) && IsNumber(xs[1]) then Some(PureInt)
      else if |xs| == 1 && IsNumber(xs[0]) then Some(PureIntUnary)
      else if |xs| == 1 && IsBuffer(xs[0]) then Some(CellLoad)
      else None
  }

  function ResolveShape(c: Contract, vs: seq<TestVector>): (s: Option<Shape>)
  {
    var o, detected := RecogniseOracle(c), DetectShape(vs);
    if o.None? || detected.None? then None
    else
      var want, got := OracleShape(o.value), detected.value;
      if got == want || (want == Memset && got == BufferScan) || (want == Memcpy && got == MemCmp) ||
         (want == CellStore && got == I64Sum)
      then Some(want)
      else None
  }

  // ----- external cases -----

  datatype ExternalCase = ExternalCase(id: string, inputs: map<string, Value>)

  function JsonInt(x: int): (v: Value)
  {
    if x >= 0 then Num(PosInt(x)) else Num(NegInt(-x))
  }

  predicate Blank(s: string)
  {
    forall i | 0 <= i < |s| :: s[i] in {' ', '\t', '\n', '\r'}
  }

  const FIXTURE_CAP: int := 256

  /** The vector a caller's named inputs give under an integer oracle, or none. */
  function DeriveExternal(c: Contract, e: ExternalCase): (v: Option<TestVector>)
  {
    if Blank(e.id) || |e.inputs| != |c.params| ||
       exists i | 0 <= i < |c.params| :: c.params[i].name !in e.inputs
    then None
    else
      var xs := seq(|c.params|, i requires 0 <= i < |c.params| => e.inputs[c.params[i].name]);
      var expected :=
        if UnsignedOf(c).Some? then
          var a, b := AsU64(xs[0]), AsU64(xs[1]);
          if a.Some? && b.Some? then Some(ReduceUnsigned(UnsignedOf(c).value, a.value, b.value)) else None
        else if SignedOf(c).Some? then
          var a, b := AsI64(xs[0]), AsI64(xs[1]);
          if a.Some? && b.Some? then Some(ReduceSigned(SignedOf(c).value, a.value, b.value)) else None
        else if UnaryOf(c).Some? then
          var op, x := UnaryOf(c).value, AsI64(xs[0]);
          if x.None? || (op == SumRange && x.value < 0) ||
             (op == Countdown && (x.value > FIXTURE_CAP || x.value < -FIXTURE_CAP))
          then None
          else Some(ReduceUnary(op, x.value))
        else None;
      match expected
      case Some(r) => Some(TestVector(External(e.id), xs, JsonInt(r)))
      case None => None
  }
}
