/**
 Which contracts the recognisers of crates/semasm-agent/src/harness.rs take for which
 routine, in terms of what the contract's name, parameters, conditions, effects and
 promises say.
 */
module ShapeMeaning {
  import opened Basics
  import opened IntegerOracles
  import opened CanonicalJson
  import opened Evaluator
  import opened Shapes
  import opened Fixtures
  import ContractExpr
  import ShapeCoherence

  // ----- words in names -----

  predicate OccursAt(s: string, t: string, i: nat)
  {
    i + |t| <= |s| && s[i..i + |t|] == t
  }

  /** `t` occurs somewhere in `s`. */
  ghost predicate Occurs(s: string, t: string)
  {
    exists i: nat :: OccursAt(s, t, i)
  }

  lemma {:induction false} ContainsExact(s: string, t: string)
    ensures Contains(s, t) <==> Occurs(s, t)
  {
    if |t| <= |s| && s != [] { ContainsExact(s[1..], t); }
    if Contains(s, t) {
      if s[..|t|] == t {
        assert OccursAt(s, t, 0);
      } else {
        var i: nat :| OccursAt(s[1..], t, i);
        assert s[1..][i..i + |t|] == s[i + 1..i + 1 + |t|];
        assert OccursAt(s, t, i + 1);
      }
    }
    if Occurs(s, t) {
      var i: nat :| OccursAt(s, t, i);
      if i > 0 {
        assert s[1..][i - 1..i - 1 + |t|] == s[i..i + |t|];
        assert OccursAt(s[1..], t, i - 1);
      }
    }
  }

  /** An occurrence with an underscore or an end of the name on either side. */
  predicate StandsAt(s: string, t: string, i: nat)
  {
    && OccursAt(s, t, i)
    && (i > 0 ==> s[i - 1] == '_') && (i + |t| < |s| ==> s[i + |t|] == '_')
  }

  ghost predicate Stands(s: string, t: string)
  {
    exists i: nat :: StandsAt(s, t, i)
  }

  lemma TokenBefore(s: string, t: string)
    requires |s| >= |t| + 1 && s[..|t| + 1] == t + "_"
    ensures StandsAt(s, t, 0)
  {
    assert s[0..|t|] == (t + "_")[..|t|] && s[|t|] == (t + "_")[|t|];
  }

  lemma TokenAfter(s: string, t: string)
    requires |s| >= |t| + 1 && s[|s| - |t| - 1..] == "_" + t
    ensures StandsAt(s, t, |s| - |t|)
  {
    var i := |s| - |t|;
    assert s[i..i + |t|] == ("_" + t)[1..] && s[i - 1] == ("_" + t)[0];
  }

  lemma TokenInside(s: string, t: string, j: nat)
    requires OccursAt(s, "_" + t + "_", j)
    ensures StandsAt(s, t, j + 1)
  {
    var w, i := "_" + t + "_", j + 1;
    assert w[0] == '_' && w[1..1 + |t|] == t && w[1 + |t|] == '_';
    var part := s[j..j + |w|];
    assert part == w;
    assert forall k | 0 <= k < |w| :: part[k] == s[j + k];
    forall k | 0 <= k < |t| ensures s[i..i + |t|][k] == t[k] {
      assert part[1 + k] == w[1 + k];
    }
    assert s[i..i + |t|] == t;
  }

  lemma TokenFound(s: string, t: string)
    requires TokenHit(s, t)
    ensures Stands(s, t)
  {
    hide Contains;
    if s == t {
      assert StandsAt(s, t, 0);
    } else if |s| >= |t| + 1 && s[..|t| + 1] == t + "_" {
      TokenBefore(s, t);
    } else if |s| >= |t| + 1 && s[|s| - |t| - 1..] == "_" + t {
      TokenAfter(s, t);
    } else {
      ContainsExact(s, "_" + t + "_");
      hide OccursAt;
      var j: nat :| OccursAt(s, "_" + t + "_", j);
      TokenInside(s, t, j);
    }
  }

  lemma TokenStands(s: string, t: string, i: nat)
    requires StandsAt(s, t, i)
    ensures TokenHit(s, t)
  {
    if i == 0 && |t| == |s| {
      assert s == t;
    } else if i == 0 {
      assert s[..|t| + 1] == s[0..|t|] + [s[|t|]];
    } else if i + |t| == |s| {
      assert s[|s| - |t| - 1..] == [s[i - 1]] + s[i..i + |t|];
    } else {
      var w := "_" + t + "_";
      assert s[i - 1..i + |t| + 1] == [s[i - 1]] + s[i..i + |t|] + [s[i + |t|]];
      assert OccursAt(s, w, i - 1);
      ContainsExact(s, w);
    }
  }

  /** A token of a name is a part of it between underscores. */
  lemma TokenExact(s: string, t: string)
    ensures TokenHit(s, t) <==> Stands(s, t)
  {
    if TokenHit(s, t) { TokenFound(s, t); }
    if i: nat :| StandsAt(s, t, i) { TokenStands(s, t, i); }
  }

  // ----- integer operations -----

  /** The name speaks for the operation. */
  ghost predicate NameSays(name: string, op: UnsignedOp)
  {
    match op
    case UMin => Occurs(name, "min") && !Occurs(name, "max")
    case UMax => Occurs(name, "max") && !Occurs(name, "min")
  }

  /** The promises bound the result by both operands on the operation's side, and not on the other. */
  predicate PromisesSay(promises: seq<string>, op: UnsignedOp)
  {
    var le := "result<=a" in promises && "result<=b" in promises;
    var ge := "result>=a" in promises && "result>=b" in promises;
    match op
    case UMin => le && !ge
    case UMax => ge && !le
  }

  /** Two `usize` parameters, no pointer or byte, and a `usize` result. */
  predicate TwoUsize(c: Contract)
  {
    && |ParamsOf(c.params, IsUsize)| == 2 && Usize in c.results
    && forall p | p in c.params :: !p.ty.Ptr? && p.ty != UInt(8)
  }

  function Other(op: UnsignedOp): (o: UnsignedOp)
  {
    if op == UMin then UMax else UMin
  }

  /** An operation is recognised if and only if something speaks for it and nothing for the other. */
  lemma UnsignedExact(c: Contract, op: UnsignedOp)
    ensures UnsignedOf(c) == Some(op) <==>
            && TwoUsize(c)
            && (NameSays(c.name, op) || PromisesSay(c.promises, op))
            && !NameSays(c.name, Other(op)) && !PromisesSay(c.promises, Other(op))
  {
    ContainsExact(c.name, "min");
    ContainsExact(c.name, "max");
    hide Contains;
    hide Occurs;
    hide ParamsOf;
  }

  /** The recognised operation keeps what the promises it was read from say. */
  lemma PromiseKept(c: Contract, a: int, b: int)
    requires IsU64(a) && IsU64(b) && ExtremumOf(c).Some?
    ensures var r := ReduceUnsigned(ExtremumOf(c).value, a, b);
            && ("result<=a" in c.promises && "result<=b" in c.promises ==> r <= a && r <= b)
            && ("result>=a" in c.promises && "result>=b" in c.promises ==> r >= a && r >= b)
  {
  }

  /** A two-part name of the combined operation. */
  ghost predicate Combined(name: string)
  {
    Occurs(name, "add_then") || Occurs(name, "then_double")
  }

  /** Tokens of the name that speak for an operation. */
  ghost predicate Token(name: string, op: SignedOp)
  {
    match op
    case Add => Stands(name, "add") || Stands(name, "sum")
    case Sub => Stands(name, "sub")
    case Min => Stands(name, "min")
    case Max => Stands(name, "max")
    case AddThenDouble => false
  }

  /** A name gives an operation if and only if it is combined, or has tokens of that operation alone. */
  lemma SignedNameExact(name: string, op: SignedOp)
    ensures SignedByName(name) == Some(op) <==>
            if Combined(name) then op == AddThenDouble
            else Token(name, op) && forall o: SignedOp | o != op :: !Token(name, o)
  {
    ContainsExact(name, "add_then");
    ContainsExact(name, "then_double");
    TokenExact(name, "add");
    TokenExact(name, "sum");
    TokenExact(name, "sub");
    TokenExact(name, "min");
    TokenExact(name, "max");
    hide Contains;
    hide TokenHit;
    hide Occurs;
    hide Stands;
    assert Token(name, Add) <==> TokenHit(name, "add") || TokenHit(name, "sum");
    assert Token(name, Sub) <==> TokenHit(name, "sub");
    assert Token(name, Min) <==> TokenHit(name, "min");
    assert Token(name, Max) <==> TokenHit(name, "max");
  }

  ghost predicate SignedPromise(promises: seq<string>, op: SignedOp)
  {
    (op == Min && PromisesSay(promises, UMin)) || (op == Max && PromisesSay(promises, UMax))
  }

  /** Two signed words to one: recognised if and only if name and promises do not disagree and one of them speaks. */
  lemma SignedExact(c: Contract, op: SignedOp)
    ensures SignedOf(c) == Some(op) <==>
            && |c.params| == 2 && (forall p | p in c.params :: p.ty == Int(64)) && Int(64) in c.results
            && (SignedByName(c.name) == Some(op) || SignedPromise(c.promises, op))
            && (SignedByName(c.name).Some? ==> SignedByName(c.name) == Some(op))
            && forall o: SignedOp | SignedPromise(c.promises, o) :: o == op
  {
    hide SignedByName;
    WordsAll(c.params);
    hide ParamsOf;
    assert PromisesSay(c.promises, UMin) ==> SignedPromise(c.promises, Min);
    assert PromisesSay(c.promises, UMax) ==> SignedPromise(c.promises, Max);
  }

  lemma {:induction false} WordsAll(ps: seq<Param>)
    ensures |ParamsOf(ps, IsI64Type)| == |ps| <==> forall p | p in ps :: p.ty == Int(64)
  {
    if ps != [] {
      WordsAll(ps[1..]);
      assert forall p :: p in ps <==> p == ps[0] || p in ps[1..];
    }
  }

  /** The name mentions the operation. */
  ghost predicate Mentions(name: string, op: UnaryOp)
  {
    match op
    case Abs => Occurs(name, "abs")
    case SumRange => Occurs(name, "sum_range")
    case Countdown => Occurs(name, "countdown")
    case Double => Occurs(name, "scale") || (Occurs(name, "double") && !Occurs(name, "then"))
    case Inc => Stands(name, "inc") || Occurs(name, "increment")
    case AddBase100 => Occurs(name, "add_base")
    case Identity =>
      Occurs(name, "return") || Occurs(name, "identity") || Occurs(name, "stack_local") || Occurs(name, "spill")
  }

  lemma UnaryWords(name: string)
    ensures Contains(name, "abs") <==> Occurs(name, "abs")
    ensures Contains(name, "sum_range") <==> Occurs(name, "sum_range")
    ensures Contains(name, "countdown") <==> Occurs(name, "countdown")
    ensures Contains(name, "scale") <==> Occurs(name, "scale")
    ensures Contains(name, "double") <==> Occurs(name, "double")
    ensures Contains(name, "then") <==> Occurs(name, "then")
    ensures TokenHit(name, "inc") <==> Stands(name, "inc")
    ensures Contains(name, "increment") <==> Occurs(name, "increment")
    ensures Contains(name, "add_base") <==> Occurs(name, "add_base")
    ensures Contains(name, "return") <==> Occurs(name, "return")
    ensures Contains(name, "identity") <==> Occurs(name, "identity")
    ensures Contains(name, "stack_local") <==> Occurs(name, "stack_local")
    ensures Contains(name, "spill") <==> Occurs(name, "spill")
  {
    ContainsExact(name, "abs");
    ContainsExact(name, "sum_range");
    ContainsExact(name, "countdown");
    ContainsExact(name, "scale");
    ContainsExact(name, "double");
    ContainsExact(name, "then");
    TokenExact(name, "inc");
    ContainsExact(name, "increment");
    ContainsExact(name, "add_base");
    ContainsExact(name, "return");
    ContainsExact(name, "identity");
    ContainsExact(name, "stack_local");
    ContainsExact(name, "spill");
    hide *;
  }

  lemma HitsMention(name: string, op: UnaryOp)
    ensures op in UnaryHits(name) <==> Mentions(name, op)
  {
    UnaryWords(name);
    hide Hit;
    hide Contains;
    hide TokenHit;
    hide Occurs;
    hide Stands;
  }

  lemma HitsDistinct(name: string)
    ensures |UnaryHits(name)| > 1 ==> UnaryHits(name)[0] != UnaryHits(name)[1]
  {
    hide Contains;
    hide TokenHit;
  }

  lemma OnlyElement(hits: seq<UnaryOp>, op: UnaryOp)
    requires |hits| > 1 ==> hits[0] != hits[1]
    ensures hits == [op] <==> op in hits && forall o: UnaryOp | o in hits :: o == op
  {
    assert forall i | 0 <= i < |hits| :: hits[i] in hits;
  }

  lemma OnlyHit(name: string, op: UnaryOp)
    ensures UnaryHits(name) == [op] <==> Mentions(name, op) && forall o: UnaryOp | Mentions(name, o) :: o == op
  {
    hide UnaryHits;
    hide Mentions;
    forall o: UnaryOp ensures o in UnaryHits(name) <==> Mentions(name, o) { HitsMention(name, o); }
    HitsDistinct(name);
    OnlyElement(UnaryHits(name), op);
  }

  /** One signed word to one: recognised if and only if the name mentions that operation and no other. */
  lemma UnaryExact(c: Contract, op: UnaryOp)
    ensures UnaryOf(c) == Some(op) <==>
            && |c.params| == 1 && c.params[0].ty == Int(64) && Int(64) in c.results
            && Mentions(c.name, op) && forall o: UnaryOp | Mentions(c.name, o) :: o == op
  {
    OnlyHit(c.name, op);
    hide UnaryHits;
    hide Mentions;
    if |UnaryHits(c.name)| == 1 { assert UnaryHits(c.name) == [UnaryHits(c.name)[0]]; }
  }

  // ----- parameters by type -----

  predicate FirstAt(ps: seq<Param>, want: SemType -> bool, k: nat)
  {
    k < |ps| && want(ps[k].ty) && forall j | 0 <= j < k :: !want(ps[j].ty)
  }

  /** `p` is the first parameter of the wanted type. */
  ghost predicate IsFirst(ps: seq<Param>, want: SemType -> bool, p: Param)
  {
    exists k: nat :: FirstAt(ps, want, k) && ps[k] == p
  }

  predicate SecondAt(ps: seq<Param>, want: SemType -> bool, j: nat, k: nat)
  {
    j < k < |ps| && FirstAt(ps, want, j) && want(ps[k].ty) && forall i | j < i < k :: !want(ps[i].ty)
  }

  ghost predicate IsSecond(ps: seq<Param>, want: SemType -> bool, p: Param)
  {
    exists j: nat, k: nat :: SecondAt(ps, want, j, k) && ps[k] == p
  }

  ghost predicate HasFirst(ps: seq<Param>, want: SemType -> bool)
  {
    exists p :: IsFirst(ps, want, p)
  }

  lemma {:induction false} FirstParamIs(ps: seq<Param>, want: SemType -> bool, p: Param)
    ensures FirstParam(ps, want) == Some(p) <==> IsFirst(ps, want, p)
  {
    if ps != [] {
      FirstParamIs(ps[1..], want, p);
      if want(ps[0].ty) {
        assert FirstAt(ps, want, 0);
      } else {
        if k: nat :| FirstAt(ps[1..], want, k) && ps[1..][k] == p {
          assert forall j | 0 < j <= k :: ps[j] == ps[1..][j - 1];
          assert FirstAt(ps, want, k + 1);
        }
        if k: nat :| FirstAt(ps, want, k) && ps[k] == p {
          assert forall j | 0 <= j < k :: ps[1..][j] == ps[j + 1];
          assert FirstAt(ps[1..], want, k - 1);
        }
      }
    }
  }

  lemma FirstParamSome(ps: seq<Param>, want: SemType -> bool)
    ensures FirstParam(ps, want).Some? <==> HasFirst(ps, want)
    ensures FirstParam(ps, want).Some? ==> IsFirst(ps, want, FirstParam(ps, want).value)
  {
    if FirstParam(ps, want).Some? { FirstParamIs(ps, want, FirstParam(ps, want).value); }
    if p :| IsFirst(ps, want, p) { FirstParamIs(ps, want, p); }
  }

  lemma {:induction false} ParamsHead(ps: seq<Param>, want: SemType -> bool)
    ensures ParamsOf(ps, want) != [] ==> FirstParam(ps, want) == Some(ParamsOf(ps, want)[0])
    ensures ParamsOf(ps, want) == [] ==> FirstParam(ps, want).None?
  {
    if ps != [] { ParamsHead(ps[1..], want); }
  }

  lemma SecondHere(ps: seq<Param>, want: SemType -> bool, p: Param)
    requires ps != [] && want(ps[0].ty)
    ensures IsSecond(ps, want, p) <==> IsFirst(ps[1..], want, p)
  {
    var rest := ps[1..];
    assert FirstAt(ps, want, 0);
    if k: nat :| FirstAt(rest, want, k) && rest[k] == p {
      assert forall i | 0 < i <= k :: ps[i] == rest[i - 1];
      assert SecondAt(ps, want, 0, k + 1);
    }
    if j: nat, k: nat :| SecondAt(ps, want, j, k) && ps[k] == p {
      assert forall i | 0 <= i < k :: rest[i] == ps[i + 1];
      assert FirstAt(rest, want, k - 1);
    }
  }

  lemma FirstLater(ps: seq<Param>, want: SemType -> bool, j: nat)
    requires ps != [] && !want(ps[0].ty)
    ensures FirstAt(ps, want, j + 1) <==> FirstAt(ps[1..], want, j)
    ensures !FirstAt(ps, want, 0)
  {
    if j + 1 < |ps| {
      assert forall i | 0 < i <= j + 1 :: ps[i] == ps[1..][i - 1];
    }
  }

  lemma SecondLaterAt(ps: seq<Param>, want: SemType -> bool, j: nat, k: nat)
    requires ps != [] && !want(ps[0].ty)
    ensures SecondAt(ps, want, j + 1, k + 1) <==> SecondAt(ps[1..], want, j, k)
  {
    FirstLater(ps, want, j);
    hide FirstAt;
    if k + 1 < |ps| {
      assert forall i | 0 < i <= k + 1 :: ps[i] == ps[1..][i - 1];
    }
  }

  lemma SecondLater(ps: seq<Param>, want: SemType -> bool, p: Param)
    requires ps != [] && !want(ps[0].ty)
    ensures IsSecond(ps, want, p) <==> IsSecond(ps[1..], want, p)
  {
    if j: nat, k: nat :| SecondAt(ps[1..], want, j, k) && ps[1..][k] == p {
      SecondLaterAt(ps, want, j, k);
    }
    if j: nat, k: nat :| SecondAt(ps, want, j, k) && ps[k] == p {
      FirstLater(ps, want, j);
      SecondLaterAt(ps, want, j - 1, k - 1);
    }
  }

  lemma {:induction false} SecondParamIs(ps: seq<Param>, want: SemType -> bool, p: Param)
    ensures |ParamsOf(ps, want)| >= 2 && ParamsOf(ps, want)[1] == p <==> IsSecond(ps, want, p)
  {
    hide IsFirst;
    hide FirstParam;
    if ps == [] {
    } else if want(ps[0].ty) {
      ParamsHead(ps[1..], want);
      FirstParamIs(ps[1..], want, p);
      SecondHere(ps, want, p);
      hide IsSecond;
    } else {
      SecondParamIs(ps[1..], want, p);
      SecondLater(ps, want, p);
      hide IsSecond;
    }
  }

  // ----- buffer routines -----

  /** The byte the conditions set a parameter to, or the default if none does. */
  ghost predicate ByteFor(conds: seq<ContractExpr.Expr>, name: string, fallback: Byte, b: Byte)
  {
    || (exists i | 0 <= i < |conds| ::
          ShapeCoherence.SetsByte(conds[i], name, b) && ShapeCoherence.NoneSetsByte(conds, name, i))
    || (b == fallback && ShapeCoherence.NoneSetsByte(conds, name, |conds|))
  }

  lemma ByteForExact(c: Contract, name: string, fallback: Byte, b: Byte)
    ensures RequiredByteOr(c, name, fallback) == b <==> ByteFor(c.conditions, name, fallback, b)
  {
    var conds := c.conditions;
    ShapeCoherence.RequiredByteExact(conds, name, b);
    hide ShapeCoherence.SetsByte;
    match RequiredByte(conds, name)
    case Some(n) =>
      ShapeCoherence.RequiredByteExact(conds, name, n);
      var i :| 0 <= i < |conds| && ShapeCoherence.SetsByte(conds[i], name, n) &&
               ShapeCoherence.NoneSetsByte(conds, name, i);
    case None =>
      if i, m :| 0 <= i < |conds| && ShapeCoherence.SetsByte(conds[i], name, m) {
        var k, n := FirstSetter(conds, name, i);
        ShapeCoherence.RequiredByteExact(conds, name, n);
      }
  }

  lemma {:induction false} FirstSetter(conds: seq<ContractExpr.Expr>, name: string, i: nat) returns (k: nat, n: int)
    requires i < |conds| && exists m :: ShapeCoherence.SetsByte(conds[i], name, m)
    ensures k < |conds| && ShapeCoherence.SetsByte(conds[k], name, n) && ShapeCoherence.NoneSetsByte(conds, name, k)
    decreases i
  {
    hide ShapeCoherence.SetsByte;
    if j, m :| 0 <= j < i && ShapeCoherence.SetsByte(conds[j], name, m) {
      k, n := FirstSetter(conds, name, j);
    } else {
      k := i;
      n :| ShapeCoherence.SetsByte(conds[i], name, n);
    }
  }

  predicate Declares(c: Contract, e: Effect)
  {
    e in c.effects
  }

  /** The contract says that the buffer is read over exactly its length. */
  predicate ReadsExactly(c: Contract, ptr: string, len: string)
  {
    Declares(c, Effect("memory_read", Some(ptr + "[0.." + len + "]")))
  }

  lemma NullWhenExact(c: Contract, ptr: string, len: string)
    ensures NullWhenEmpty(c, ptr, len) <==> ReadsExactly(c, ptr, len)
  {
    var region := ptr + "[0.." + len + "]";
    if NullWhenEmpty(c, ptr, len) {
      var i :| 0 <= i < |c.effects| && c.effects[i].kind == "memory_read" && c.effects[i].region == Some(region);
      assert c.effects[i] == Effect("memory_read", Some(region));
    }
  }

  predicate MayWrite(c: Contract)
  {
    exists e | e in c.effects :: e.kind == "memory_write"
  }

  lemma MayWriteExact(c: Contract)
    ensures HasEffect(c, "memory_write") <==> MayWrite(c)
  {
    if e :| e in c.effects && e.kind == "memory_write" {
      var i :| 0 <= i < |c.effects| && c.effects[i] == e;
    }
  }

  /** "last" or "rfind" makes a search a backward one; a count must name no search. */
  ghost predicate ScanWord(name: string, op: ScanOp)
  {
    var count := Occurs(name, "count");
    var last := Occurs(name, "last") || Occurs(name, "rfind");
    var find := Occurs(name, "find") || Occurs(name, "index");
    match op
    case Count => count && !last && !find
    case FindLast => last && !count
    case FindFirst => find && !last && !count
  }

  lemma ScanWordExact(name: string, op: ScanOp)
    ensures ScanOpOf(name) == Some(op) <==> ScanWord(name, op)
  {
    ContainsExact(name, "count");
    ContainsExact(name, "last");
    ContainsExact(name, "rfind");
    ContainsExact(name, "find");
    ContainsExact(name, "index");
    hide Contains;
    hide Occurs;
  }

  /** What makes a contract a scan of this shape. */
  ghost predicate IsScan(c: Contract, s: ScanShape, p: Param, n: Param, b: Param)
  {
    && IsFirst(c.params, IsConstPtr, p) && IsFirst(c.params, IsUsize, n) && IsFirst(c.params, IsU8, b)
    && Usize in c.results && ScanWord(c.name, s.op)
    && ByteFor(c.conditions, b.name, 0x41, s.needle)
    && s.maxLength == LengthBound(c.conditions, n.name)
    && (s.nullable <==> ReadsExactly(c, p.name, n.name))
  }

  lemma ScanExact(c: Contract, s: ScanShape)
    ensures Scan(c) == Some(s) <==> exists p, n, b :: IsScan(c, s, p, n, b)
  {
    FirstParamSome(c.params, IsConstPtr);
    FirstParamSome(c.params, IsUsize);
    FirstParamSome(c.params, IsU8);
    ScanWordExact(c.name, s.op);
    hide FirstParam;
    hide ScanOpOf;
    hide ScanWord;
    hide LengthBound;
    hide RequiredByteOr;
    hide NullWhenEmpty;
    hide ReadsExactly;
    hide ByteFor;
    hide IsFirst;
    forall p, n, b | IsScan(c, s, p, n, b) ensures Scan(c) == Some(s) {
      FirstParamIs(c.params, IsConstPtr, p);
      FirstParamIs(c.params, IsUsize, n);
      FirstParamIs(c.params, IsU8, b);
      ByteForExact(c, b.name, 0x41, s.needle);
      NullWhenExact(c, p.name, n.name);
    }
    if Scan(c) == Some(s) {
      var p, n := FirstParam(c.params, IsConstPtr).value, FirstParam(c.params, IsUsize).value;
      var b := FirstParam(c.params, IsU8).value;
      ByteForExact(c, b.name, 0x41, s.needle);
      NullWhenExact(c, p.name, n.name);
      assert IsScan(c, s, p, n, b);
    }
  }

  ghost predicate IsReplace(c: Contract, s: ReplaceShape, n: Param, k: Param, r: Param)
  {
    && HasFirst(c.params, IsMutPtr) && IsFirst(c.params, IsUsize, n)
    && IsFirst(c.params, IsU8, k) && IsSecond(c.params, IsU8, r)
    && Usize in c.results && Occurs(c.name, "replace") && MayWrite(c)
    && ByteFor(c.conditions, k.name, 0x41, s.needle) && ByteFor(c.conditions, r.name, 0, s.replacement)
    && s.maxLength == LengthBound(c.conditions, n.name)
  }

  /** The first byte parameter is the needle, the second the replacement. */
  lemma ReplaceExact(c: Contract, s: ReplaceShape)
    ensures Replace(c) == Some(s) <==> exists n, k, r :: IsReplace(c, s, n, k, r)
  {
    FirstParamSome(c.params, IsMutPtr);
    FirstParamSome(c.params, IsUsize);
    ContainsExact(c.name, "replace");
    MayWriteExact(c);
    ParamsHead(c.params, IsU8);
    hide FirstParam;
    hide ParamsOf;
    hide Contains;
    hide Occurs;
    hide HasEffect;
    hide MayWrite;
    hide LengthBound;
    hide RequiredByteOr;
    hide ByteFor;
    hide IsFirst;
    hide IsSecond;
    hide HasFirst;
    forall n, k, r | IsReplace(c, s, n, k, r) ensures Replace(c) == Some(s) {
      FirstParamIs(c.params, IsUsize, n);
      FirstParamIs(c.params, IsU8, k);
      SecondParamIs(c.params, IsU8, r);
      ByteForExact(c, k.name, 0x41, s.needle);
      ByteForExact(c, r.name, 0, s.replacement);
    }
    if Replace(c) == Some(s) {
      var bytes, n := ParamsOf(c.params, IsU8), FirstParam(c.params, IsUsize).value;
      FirstParamIs(c.params, IsU8, bytes[0]);
      SecondParamIs(c.params, IsU8, bytes[1]);
      ByteForExact(c, bytes[0].name, 0x41, s.needle);
      ByteForExact(c, bytes[1].name, 0, s.replacement);
      assert IsReplace(c, s, n, bytes[0], bytes[1]);
    }
  }

  ghost predicate IsMemset(c: Contract, s: MemsetShape, n: Param, b: Param)
  {
    && HasFirst(c.params, IsMutPtr) && IsFirst(c.params, IsUsize, n)
    && IsFirst(c.params, IsU8, b) && (forall r :: !IsSecond(c.params, IsU8, r))
    && Usize in c.results && Occurs(c.name, "memset") && MayWrite(c)
    && ByteFor(c.conditions, b.name, 0x41, s.value) && s.maxLength == LengthBound(c.conditions, n.name)
  }

  lemma OnlyParam(ps: seq<Param>, want: SemType -> bool, p: Param)
    ensures ParamsOf(ps, want) == [p] <==> IsFirst(ps, want, p) && forall r :: !IsSecond(ps, want, r)
  {
    ParamsHead(ps, want);
    FirstParamIs(ps, want, p);
    hide FirstParam;
    hide IsFirst;
    hide IsSecond;
    var all := ParamsOf(ps, want);
    hide ParamsOf;
    forall r ensures |all| >= 2 && all[1] == r <==> IsSecond(ps, want, r) { SecondParamIs(ps, want, r); }
    if |all| >= 2 { assert IsSecond(ps, want, all[1]); }
  }

  lemma MemsetExact(c: Contract, s: MemsetShape)
    ensures MemsetOf(c) == Some(s) <==> exists n, b :: IsMemset(c, s, n, b)
  {
    FirstParamSome(c.params, IsMutPtr);
    FirstParamSome(c.params, IsUsize);
    ContainsExact(c.name, "memset");
    MayWriteExact(c);
    hide FirstParam;
    hide ParamsOf;
    hide Contains;
    hide Occurs;
    hide HasEffect;
    hide MayWrite;
    hide LengthBound;
    hide RequiredByteOr;
    hide ByteFor;
    hide IsFirst;
    hide IsSecond;
    hide HasFirst;
    forall n, b | IsMemset(c, s, n, b) ensures MemsetOf(c) == Some(s) {
      FirstParamIs(c.params, IsUsize, n);
      OnlyParam(c.params, IsU8, b);
      ByteForExact(c, b.name, 0x41, s.value);
    }
    if MemsetOf(c) == Some(s) {
      var bytes, n := ParamsOf(c.params, IsU8), FirstParam(c.params, IsUsize).value;
      assert bytes == [bytes[0]];
      OnlyParam(c.params, IsU8, bytes[0]);
      ByteForExact(c, bytes[0].name, 0x41, s.value);
      assert IsMemset(c, s, n, bytes[0]);
    }
  }

  ghost predicate IsMemcpy(c: Contract, s: PairShape, n: Param)
  {
    && |c.params| == 3 && c.results == [Usize] && Occurs(c.name, "memcpy") && MayWrite(c)
    && HasFirst(c.params, IsMutU8Ptr) && HasFirst(c.params, IsConstU8Ptr) && IsFirst(c.params, IsUsize, n)
    && s == PairShape(LengthBound(c.conditions, n.name), false)
  }

  lemma MemcpyExact(c: Contract, s: PairShape)
    ensures MemcpyOf(c) == Some(s) <==> exists n :: IsMemcpy(c, s, n)
  {
    FirstParamSome(c.params, IsMutU8Ptr);
    FirstParamSome(c.params, IsConstU8Ptr);
    FirstParamSome(c.params, IsUsize);
    ContainsExact(c.name, "memcpy");
    MayWriteExact(c);
    hide FirstParam;
    hide Contains;
    hide Occurs;
    hide HasEffect;
    hide MayWrite;
    hide LengthBound;
    hide IsFirst;
    hide HasFirst;
    forall n | IsMemcpy(c, s, n) ensures MemcpyOf(c) == Some(s) {
      FirstParamIs(c.params, IsUsize, n);
    }
    if MemcpyOf(c) == Some(s) {
      assert c.results == [Usize];
      assert IsMemcpy(c, s, FirstParam(c.params, IsUsize).value);
    }
  }

  ghost predicate IsMemCmp(c: Contract, s: PairShape, a: Param, b: Param, n: Param)
  {
    && |c.params| == 3 && c.results == [Isize] && (Occurs(c.name, "memcmp") || Occurs(c.name, "bcmp"))
    && IsFirst(c.params, IsConstU8Ptr, a) && IsSecond(c.params, IsConstU8Ptr, b) && a.name != b.name
    && IsFirst(c.params, IsUsize, n)
    && s.maxLength == LengthBound(c.conditions, n.name)
    && (s.nullable <==> ReadsExactly(c, a.name, n.name) && ReadsExactly(c, b.name, n.name))
  }

  lemma {:induction false} ParamCount(ps: seq<Param>, f: SemType -> bool, g: SemType -> bool)
    requires forall t :: !(f(t) && g(t))
    ensures |ParamsOf(ps, f)| + |ParamsOf(ps, g)| <= |ps|
  {
    if ps != [] { ParamCount(ps[1..], f, g); }
  }

  lemma MemCmpExact(c: Contract, s: PairShape)
    ensures MemCmpOf(c) == Some(s) <==> exists a, b, n :: IsMemCmp(c, s, a, b, n)
  {
    ContainsExact(c.name, "memcmp");
    ContainsExact(c.name, "bcmp");
    ParamCount(c.params, IsConstU8Ptr, IsUsize);
    ParamsHead(c.params, IsConstU8Ptr);
    ParamsHead(c.params, IsUsize);
    hide FirstParam;
    hide ParamsOf;
    hide Contains;
    hide Occurs;
    hide LengthBound;
    hide NullWhenEmpty;
    hide ReadsExactly;
    hide IsFirst;
    hide IsSecond;
    forall a, b, n | IsMemCmp(c, s, a, b, n) ensures MemCmpOf(c) == Some(s) {
      FirstParamIs(c.params, IsConstU8Ptr, a);
      SecondParamIs(c.params, IsConstU8Ptr, b);
      FirstParamIs(c.params, IsUsize, n);
      NullWhenExact(c, a.name, n.name);
      NullWhenExact(c, b.name, n.name);
    }
    if MemCmpOf(c) == Some(s) {
      var ptrs, lens := ParamsOf(c.params, IsConstU8Ptr), ParamsOf(c.params, IsUsize);
      FirstParamIs(c.params, IsConstU8Ptr, ptrs[0]);
      SecondParamIs(c.params, IsConstU8Ptr, ptrs[1]);
      FirstParamIs(c.params, IsUsize, lens[0]);
      NullWhenExact(c, ptrs[0].name, lens[0].name);
      NullWhenExact(c, ptrs[1].name, lens[0].name);
      assert c.results == [Isize];
      assert IsMemCmp(c, s, ptrs[0], ptrs[1], lens[0]);
    }
  }

  ghost predicate IsSum(c: Contract, s: SumShape, p: Param, n: Param)
  {
    && |c.params| == 2 && Int(64) in c.results
    && IsFirst(c.params, IsConstI64Ptr, p) && IsFirst(c.params, IsUsize, n)
    && s.maxLength == LengthBound(c.conditions, n.name)
    && (s.nullable <==> ReadsExactly(c, p.name, n.name))
  }

  lemma SumExact(c: Contract, s: SumShape)
    ensures SumOf(c) == Some(s) <==> exists p, n :: IsSum(c, s, p, n)
  {
    FirstParamSome(c.params, IsConstI64Ptr);
    FirstParamSome(c.params, IsUsize);
    hide FirstParam;
    hide LengthBound;
    hide NullWhenEmpty;
    hide ReadsExactly;
    hide IsFirst;
    forall p, n | IsSum(c, s, p, n) ensures SumOf(c) == Some(s) {
      FirstParamIs(c.params, IsConstI64Ptr, p);
      FirstParamIs(c.params, IsUsize, n);
      NullWhenExact(c, p.name, n.name);
    }
    if SumOf(c) == Some(s) {
      var p, n := FirstParam(c.params, IsConstI64Ptr).value, FirstParam(c.params, IsUsize).value;
      NullWhenExact(c, p.name, n.name);
      assert IsSum(c, s, p, n);
    }
  }

  /** The single-cell routines go by name alone. */
  lemma CellExact(c: Contract)
    ensures CellLoadOf(c) <==> Occurs(c.name, "load_byte0")
    ensures CellStoreOf(c) <==> Occurs(c.name, "store_byte0")
  {
    ContainsExact(c.name, "load_byte0");
    ContainsExact(c.name, "store_byte0");
  }

  // ----- wire shapes and external cases -----

  /** Only the oracles of writing routines have guarded regions read back. */
  lemma OracleWrites(o: Oracle)
    ensures Writes(OracleShape(o)) <==> o in {ReplaceOracle, MemsetOracle, MemcpyOracle}
    ensures OracleShape(o) == Memcpy <==> o == MemcpyOracle
    ensures OracleShape(o) == Memset <==> o == MemsetOracle
  {
  }

  /** The words an integer contract takes from a case, or none of them. */
  predicate InputsFit(c: Contract, xs: seq<Value>)
    requires |xs| == |c.params|
  {
    if UnsignedOf(c).Some? then |xs| >= 2 && AsU64(xs[0]).Some? && AsU64(xs[1]).Some?
    else if SignedOf(c).Some? then |xs| >= 2 && AsI64(xs[0]).Some? && AsI64(xs[1]).Some?
    else if UnaryOf(c).Some? then
      && |xs| >= 1 && AsI64(xs[0]).Some?
      && (UnaryOf(c) == Some(SumRange) ==> AsI64(xs[0]).value >= 0)
      && (UnaryOf(c) == Some(Countdown) ==> -256 <= AsI64(xs[0]).value <= 256)
    else false
  }

  /** A case is admitted if and only if it has an id, a value for each parameter and no other, and words that fit. */
  lemma AdmittedExact(c: Contract, e: ExternalCase)
    ensures DeriveExternal(c, e).Some? <==>
            && !Blank(e.id) && |e.inputs| == |c.params|
            && (forall i | 0 <= i < |c.params| :: c.params[i].name in e.inputs)
            && InputsFit(c, seq(|c.params|, i requires 0 <= i < |c.params| =>
                 if c.params[i].name in e.inputs then e.inputs[c.params[i].name] else Null))
  {
    ShapeCoherence.SignedArity(c);
    UsizeArity(c);
    hide Blank;
    hide UnsignedOf;
    hide SignedOf;
    hide UnaryOf;
    hide AsU64;
    hide AsI64;
    hide ReduceUnsigned;
    hide ReduceSigned;
    hide ReduceUnary;
    if forall i | 0 <= i < |c.params| :: c.params[i].name in e.inputs {
      assert seq(|c.params|, i requires 0 <= i < |c.params| =>
               if c.params[i].name in e.inputs then e.inputs[c.params[i].name] else Null)
          == seq(|c.params|, i requires 0 <= i < |c.params| && c.params[i].name in e.inputs =>
               e.inputs[c.params[i].name]);
    }
  }

  lemma UsizeArity(c: Contract)
    ensures UnsignedOf(c).Some? ==> |c.params| >= 2
  {
    hide Contains;
    hide ExtremumOf;
    hide FirstParam;
  }
}
