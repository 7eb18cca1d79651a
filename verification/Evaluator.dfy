/**
 The harness wire protocol (crates/semasm-agent/src/harness.rs): what a generated
 harness writes for a list of test vectors, and how the evaluator reads it back.
 */
module Evaluator {
  import opened Basics
  import opened CanonicalJson
  import opened IntegerOracles

  /** The builtin fixtures. */
  datatype Title =
    | NullPointer | EmptyInput | OneByteMatch | NoMatch | AllMatch | EmbeddedZeros | Longest
    | MatchAfterZeros | MatchAtEnd | LastOfTwo | OneByteMiss | MixedHits | SameReplacement
    | OneByte | ShortPattern | AlreadyFilled | ShortCopy | EmptyBuffers | EqualBuffers | LessThan
    | GreaterThan | PrefixThenDifference | NullBuffers | EmptySum | Positive | Mixed
    | SingleNegative | WrappingOverflow | BothZero | ASmaller | BSmaller | Equal | ZeroAndLarge
    | WideSpread | BothPositive | MixedSigns | BothNegative | EqualNegative | MaxWraps | MinWraps
    | Zero | One | Five | Ten | Twenty | Negative | MinusOne | MaxValue | CellByte | StoreOver

  datatype Name = Builtin(title: Title) | External(id: string)

  datatype TestVector = TestVector(name: Name, inputs: seq<Value>, expected: Value)

  datatype Case = Case(name: Name, passed: bool, observed: Option<nat>)

  datatype Report = Report(cases: seq<Case>, allPassed: bool)

  datatype Shape =
    | BufferScan | ReplaceByte | Memset | MemCmp | Memcpy
    | I64Sum | PureInt | PureIntUnary | CellLoad | CellStore

  // ----- JSON numbers as machine words -----

  function AsU64(v: Value): (r: Option<nat>)
    ensures r.Some? ==> r.value < TWO64
  {
    if v.Num? && v.num.PosInt? && v.num.n < TWO64 then Some(v.num.n) else None
  }

  function AsI64(v: Value): (r: Option<int>)
    ensures r.Some? ==> -TWO63 <= r.value < TWO63
  {
    if v.Num? && v.num.PosInt? && v.num.n < TWO63 then Some(v.num.n)
    else if v.Num? && v.num.NegInt? && v.num.magnitude <= TWO63 then Some(0 - v.num.magnitude)
    else None
  }

  /** Two's-complement bits of the expected value; all ones when it is not an integer. */
  function ExpectedBits(v: Value): (w: nat)
    ensures w < TWO64
  {
    if AsU64(v).Some? then AsU64(v).value
    else if AsI64(v).Some? then AsI64(v).value % TWO64
    else TWO64 - 1
  }

  /** `n` as `k` little-endian bytes. */
  function Le(n: nat, k: nat): (b: seq<Byte>)
    ensures |b| == k
  {
    if k == 0 then [] else [n % 256] + Le(n / 256, k - 1)
  }

  function FromLe(b: seq<Byte>): (n: nat)
  {
    if b == [] then 0 else b[0] + 256 * FromLe(b[1..])
  }

  // ----- expected buffers -----

  function U64At(v: TestVector, i: nat): (n: nat)
  {
    if i < |v.inputs| && AsU64(v.inputs[i]).Some? then AsU64(v.inputs[i]).value else 0
  }

  function ItemsAt(v: TestVector, i: nat): (items: seq<Value>)
  {
    if i < |v.inputs| && v.inputs[i].Arr? then v.inputs[i].items else []
  }

  function MaskedByte(v: Value): (b: Byte)
  {
    (if AsU64(v).Some? then AsU64(v).value else 0) % 256
  }

  function ClampedByte(v: Value): (b: Byte)
  {
    var n := if AsU64(v).Some? then AsU64(v).value else 0;
    if n < 255 then n else 255
  }

  function ReplacedBuffer(v: TestVector): (b: seq<Byte>)
  {
    var items := ItemsAt(v, 0);
    seq(|items|, i requires 0 <= i < |items| =>
      if MaskedByte(items[i]) == U64At(v, 2) % 256 then U64At(v, 3) % 256 else MaskedByte(items[i]))
  }

  function FilledBuffer(v: TestVector): (b: seq<Byte>)
  {
    seq(U64At(v, 1), i => U64At(v, 2) % 256)
  }

  function CopiedBuffer(v: TestVector): (b: seq<Byte>)
  {
    var items := ItemsAt(v, 1);
    seq(|items|, i requires 0 <= i < |items| => MaskedByte(items[i]))
  }

  function SourceBuffer(v: TestVector): (b: seq<Byte>)
  {
    var items := ItemsAt(v, 1);
    seq(|items|, i requires 0 <= i < |items| => ClampedByte(items[i]))
  }

  const GUARD_PRE: Byte := 0xA5
  const GUARD_POST: Byte := 0x5A

  function Guarded(payload: seq<Byte>): (b: seq<Byte>)
  {
    [GUARD_PRE] + payload + [GUARD_POST]
  }

  predicate Writes(shape: Shape)
  {
    shape in {ReplaceByte, Memset, Memcpy}
  }

  function Echo(shape: Shape, v: TestVector): (b: seq<Byte>)
    requires Writes(shape)
    ensures |b| >= 2
  {
    match shape
    case ReplaceByte => Guarded(ReplacedBuffer(v))
    case Memset => Guarded(FilledBuffer(v))
    case Memcpy => Guarded(CopiedBuffer(v)) + Guarded(SourceBuffer(v))
  }

  // ----- the stream a passing run must begin with -----

  function Words(vs: seq<TestVector>): (b: seq<Byte>)
    ensures |b| == 8 * |vs|
  {
    if vs == [] then [] else Words(vs[..|vs| - 1]) + Le(ExpectedBits(vs[|vs| - 1].expected), 8)
  }

  function Echoes(shape: Shape, vs: seq<TestVector>): (b: seq<Byte>)
    requires Writes(shape)
  {
    if vs == [] then [] else Echoes(shape, vs[..|vs| - 1]) + Echo(shape, vs[|vs| - 1])
  }

  function Expected(shape: Shape, vs: seq<TestVector>): (b: seq<Byte>)
  {
    if Writes(shape) then Words(vs) + Echoes(shape, vs) else Words(vs)
  }

  /** `b` begins with `p`. */
  predicate Begins(b: seq<Byte>, p: seq<Byte>)
  {
    |p| <= |b| && b[..|p|] == p
  }

  predicate AllPassed(cases: seq<Case>)
  {
    forall i | 0 <= i < |cases| :: cases[i].passed
  }

  // ----- little-endian words -----

  lemma {:induction false} LeRoundTrip(b: seq<Byte>, n: nat)
    requires n < Pow256(|b|)
    ensures FromLe(b) == n <==> b == Le(n, |b|)
  {
    if b != [] {
      LeRoundTrip(b[1..], n / 256);
      assert b == [b[0]] + b[1..];
      assert FromLe(b) == n <==> b[0] == n % 256 && FromLe(b[1..]) == n / 256;
      assert Le(n, |b|)[0] == n % 256 && Le(n, |b|)[1..] == Le(n / 256, |b| - 1);
    }
  }

  function Pow256(k: nat): (p: nat)
  {
    if k == 0 then 1 else 256 * Pow256(k - 1)
  }

  lemma WordReads(b: seq<Byte>, n: nat)
    requires |b| == 8 && n < TWO64
    ensures FromLe(b) == n <==> b == Le(n, 8)
  {
    Pow8();
    LeRoundTrip(b, n);
  }

  lemma Pow8()
    ensures Pow256(8) == TWO64
  {
    assert Pow256(2) == 0x1_0000;
    assert Pow256(4) == 0x1_0000_0000;
    assert Pow256(6) == 0x1_0000_0000_0000;
  }

  /** Extending what a stream must begin with by one more piece. */
  lemma BeginsStep(b: seq<Byte>, p: seq<Byte>, q: seq<Byte>)
    ensures Begins(b, p + q) <==>
              Begins(b, p) && |p| + |q| <= |b| && b[|p|..|p| + |q|] == q
  {
    if Begins(b, p) && |p| + |q| <= |b| && b[|p|..|p| + |q|] == q {
      assert b[..|p| + |q|] == b[..|p|] + b[|p|..|p| + |q|];
    }
    if Begins(b, p + q) {
      assert b[..|p|] == (p + q)[..|p|] == p;
      assert b[|p|..|p| + |q|] == b[..|p + q|][|p|..] == q;
    }
  }

  // ----- the evaluator -----

  /** The `i`th result word, if the stream is long enough. */
  function WordAt(stdout: seq<Byte>, i: nat): (w: Option<nat>)
  {
    if |stdout| >= 8 * i + 8 then Some(FromLe(stdout[8 * i..8 * i + 8])) else None
  }

  predicate WordOk(stdout: seq<Byte>, v: TestVector, i: nat)
  {
    WordAt(stdout, i) == Some(ExpectedBits(v.expected))
  }

  lemma WordsStep(stdout: seq<Byte>, vs: seq<TestVector>, i: nat)
    requires i < |vs|
    ensures Begins(stdout, Words(vs[..i + 1])) <==>
              Begins(stdout, Words(vs[..i])) && WordOk(stdout, vs[i], i)
  {
    hide Le;
    hide FromLe;
    hide ExpectedBits;
    var w := ExpectedBits(vs[i].expected);
    assert vs[..i + 1][..i] == vs[..i];
    BeginsStep(stdout, Words(vs[..i]), Le(w, 8));
    if |stdout| >= 8 * i + 8 { WordReads(stdout[8 * i..8 * i + 8], w); }
  }

  method ReadWords(stdout: seq<Byte>, count: nat) returns (words: seq<Option<nat>>)
    ensures |words| == count && forall i | 0 <= i < count :: words[i] == WordAt(stdout, i)
  {
    words := [];
    for i := 0 to count
      invariant |words| == i && forall k | 0 <= k < i :: words[k] == WordAt(stdout, k)
    {
      var base := i * 8;
      var word := if |stdout| >= base + 8 then Some(FromLe(stdout[base..base + 8])) else None;
      words := words + [word];
    }
  }

  /** All cases pass exactly when the stream begins with every expected word. */
  method EvaluateWordsOnly(stdout: seq<Byte>, vs: seq<TestVector>) returns (r: Report)
    ensures |r.cases| == |vs|
    ensures forall i | 0 <= i < |vs| :: r.cases[i].name == vs[i].name &&
              (r.cases[i].passed <==> WordOk(stdout, vs[i], i))
    ensures r.allPassed <==> AllPassed(r.cases)
    ensures r.allPassed <==> Begins(stdout, Words(vs))
  {
    hide Words;
    hide WordAt;
    hide ExpectedBits;
    var words := ReadWords(stdout, |vs|);
    var cases: seq<Case> := [];
    var all := true;
    assert Begins(stdout, Words(vs[..0])) by { NoWords(stdout, vs[..0]); }
    for i := 0 to |vs|
      invariant |cases| == i
      invariant forall k | 0 <= k < i :: cases[k].name == vs[k].name &&
                  (cases[k].passed <==> WordOk(stdout, vs[k], k))
      invariant all <==> AllPassed(cases)
      invariant all <==> Begins(stdout, Words(vs[..i]))
    {
      var passed := words[i].Some? && words[i].value == ExpectedBits(vs[i].expected);
      WordsStep(stdout, vs, i);
      cases := cases + [Case(vs[i].name, passed, words[i])];
      all := all && passed;
    }
    assert vs[..|vs|] == vs;
    r := Report(cases, all);
  }

  lemma NoWords(stdout: seq<Byte>, vs: seq<TestVector>)
    requires vs == []
    ensures Begins(stdout, Words(vs))
  {
  }

  lemma EchoesStep(
    shape: Shape, stdout: seq<Byte>, vs: seq<TestVector>, i: nat, start: nat)
    requires Writes(shape) && i < |vs| && start <= |stdout|
    ensures |Echoes(shape, vs[..i + 1])| == |Echoes(shape, vs[..i])| + |Echo(shape, vs[i])|
    ensures Begins(stdout[start..], Echoes(shape, vs[..i + 1])) <==>
              && Begins(stdout[start..], Echoes(shape, vs[..i]))
              && var at := start + |Echoes(shape, vs[..i])|;
                 at + |Echo(shape, vs[i])| <= |stdout| &&
                 stdout[at..at + |Echo(shape, vs[i])|] == Echo(shape, vs[i])
  {
    hide Echo;
    assert vs[..i + 1][..i] == vs[..i];
    var p, q := Echoes(shape, vs[..i]), Echo(shape, vs[i]);
    BeginsStep(stdout[start..], p, q);
    if start + |p| + |q| <= |stdout| {
      assert stdout[start..][|p|..|p| + |q|] == stdout[start + |p|..start + |p| + |q|];
    }
  }

  /** How far the result words reach: all of them, or as many as the stream holds. */
  function WordsEnd(stdout: seq<Byte>, count: nat): (offset: nat)
    ensures offset <= |stdout|
    ensures |stdout| >= 8 * count ==> offset == 8 * count
  {
    if |stdout| >= 8 * count then 8 * count else |stdout| / 8 * 8
  }

  method ReadCounts(stdout: seq<Byte>, count: nat) returns (words: seq<Option<nat>>, offset: nat)
    ensures |words| == count && forall i | 0 <= i < count :: words[i] == WordAt(stdout, i)
    ensures offset == WordsEnd(stdout, count)
  {
    hide FromLe;
    words := [];
    offset := 0;
    for i := 0 to count
      invariant |words| == i && forall k | 0 <= k < i :: words[k] == WordAt(stdout, k)
      invariant offset == WordsEnd(stdout, i)
    {
      if |stdout| >= offset + 8 {
        words := words + [Some(FromLe(stdout[offset..offset + 8]))];
        offset := offset + 8;
      } else {
        words := words + [None];
      }
    }
  }

  /**
   All cases pass exactly when the stream begins with every expected word followed
   by every expected guarded region.
   */
  method EvaluateCountAndBuffer(stdout: seq<Byte>, vs: seq<TestVector>, shape: Shape)
    returns (r: Report)
    requires Writes(shape)
    ensures |r.cases| == |vs| && forall i | 0 <= i < |vs| :: r.cases[i].name == vs[i].name
    ensures forall i | 0 <= i < |vs| && r.cases[i].passed :: WordOk(stdout, vs[i], i)
    ensures r.allPassed <==> AllPassed(r.cases)
    ensures r.allPassed <==> Begins(stdout, Words(vs) + Echoes(shape, vs))
  {
    hide Words;
    hide WordAt;
    hide ExpectedBits;
    hide Echo;
    hide Echoes;
    var words: seq<Option<nat>>, offset: nat := ReadCounts(stdout, |vs|);
    ghost var start := offset;
    var cases: seq<Case> := [];
    var all := true;
    ghost var countsOk, buffersOk := true, true;
    NoWords(stdout, vs[..0]);
    NoEchoes(shape, stdout[start..], vs[..0]);
    for i := 0 to |vs|
      invariant |cases| == i && forall k | 0 <= k < i :: cases[k].name == vs[k].name
      invariant forall k | 0 <= k < i && cases[k].passed :: WordOk(stdout, vs[k], k)
      invariant (all <==> AllPassed(cases)) && (all <==> countsOk && buffersOk)
      invariant countsOk <==> Begins(stdout, Words(vs[..i]))
      invariant buffersOk <==> Begins(stdout[start..], Echoes(shape, vs[..i]))
      invariant offset <= |stdout| && (buffersOk ==> offset == start + |Echoes(shape, vs[..i])|)
    {
      var echo := Echo(shape, vs[i]);
      var countOk := words[i].Some? && words[i].value == ExpectedBits(vs[i].expected);
      WordsStep(stdout, vs, i);
      EchoesStep(shape, stdout, vs, i, start);
      var bufferOk := false;
      if |stdout| >= offset + |echo| {
        bufferOk := stdout[offset..offset + |echo|] == echo;
        offset := offset + |echo|;
      }
      countsOk, buffersOk := countsOk && countOk, buffersOk && bufferOk;
      cases := cases + [Case(vs[i].name, countOk && bufferOk, words[i])];
      all := all && countOk && bufferOk;
    }
    assert vs[..|vs|] == vs;
    WordsThenEchoes(shape, stdout, vs);
    r := Report(cases, all);
  }

  lemma NoEchoes(shape: Shape, stdout: seq<Byte>, vs: seq<TestVector>)
    requires Writes(shape) && vs == []
    ensures Echoes(shape, vs) == [] && Begins(stdout, Echoes(shape, vs))
  {
  }

  lemma WordsThenEchoes(shape: Shape, stdout: seq<Byte>, vs: seq<TestVector>)
    requires Writes(shape)
    ensures Begins(stdout, Words(vs) + Echoes(shape, vs)) <==>
              Begins(stdout, Words(vs)) &&
              Begins(stdout[WordsEnd(stdout, |vs|)..], Echoes(shape, vs))
  {
    hide Words;
    hide Echoes;
    var p, q := Words(vs), Echoes(shape, vs);
    BeginsStep(stdout, p, q);
    if |p| + |q| <= |stdout| {
      assert stdout[|p|..][..|q|] == stdout[|p|..|p| + |q|];
    }
  }

  method Evaluate(stdout: seq<Byte>, vs: seq<TestVector>, shape: Shape) returns (r: Report)
    ensures |r.cases| == |vs| && forall i | 0 <= i < |vs| :: r.cases[i].name == vs[i].name
    ensures r.allPassed <==> AllPassed(r.cases)
    ensures r.allPassed <==> Begins(stdout, Expected(shape, vs))
  {
    hide Words;
    hide Echoes;
    if Writes(shape) {
      r := EvaluateCountAndBuffer(stdout, vs, shape);
    } else {
      r := EvaluateWordsOnly(stdout, vs);
    }
  }

  // ----- against a run of the generated harness -----

  /** What one call left behind: its result word and the guarded regions, as written. */
  datatype Outcome = Outcome(word: nat, regions: seq<Byte>)

  function WordsOut(os: seq<Outcome>): (b: seq<Byte>)
    ensures |b| == 8 * |os|
  {
    if os == [] then [] else WordsOut(os[..|os| - 1]) + Le(os[|os| - 1].word, 8)
  }

  function RegionsOut(os: seq<Outcome>): (b: seq<Byte>)
  {
    if os == [] then [] else RegionsOut(os[..|os| - 1]) + os[|os| - 1].regions
  }

  /** The generated harness writes all result words, then, for write shapes, every region. */
  function HarnessOutput(shape: Shape, os: seq<Outcome>): (b: seq<Byte>)
  {
    if Writes(shape) then WordsOut(os) + RegionsOut(os) else WordsOut(os)
  }

  lemma LeInjective(m: nat, n: nat)
    requires m < TWO64 && n < TWO64
    ensures Le(m, 8) == Le(n, 8) <==> m == n
  {
    WordReads(Le(m, 8), m);
    WordReads(Le(m, 8), n);
  }

  lemma {:induction false} WordsEqual(os: seq<Outcome>, vs: seq<TestVector>)
    requires |os| == |vs| && forall i | 0 <= i < |os| :: os[i].word < TWO64
    ensures WordsOut(os) == Words(vs) <==>
              forall i | 0 <= i < |os| :: os[i].word == ExpectedBits(vs[i].expected)
  {
    hide Le;
    hide ExpectedBits;
    if os != [] {
      var n := |os| - 1;
      WordsEqual(os[..n], vs[..n]);
      LeInjective(os[n].word, ExpectedBits(vs[n].expected));
      TailEqual(WordsOut(os[..n]), Words(vs[..n]), Le(os[n].word, 8), Le(ExpectedBits(vs[n].expected), 8));
    }
  }

  lemma TailEqual(a: seq<Byte>, b: seq<Byte>, c: seq<Byte>, d: seq<Byte>)
    requires |a| == |b|
    ensures a + c == b + d <==> a == b && c == d
  {
    if a + c == b + d {
      assert a == (a + c)[..|a|] && b == (b + d)[..|a|];
      assert c == (a + c)[|a|..] && d == (b + d)[|a|..];
    }
  }

  lemma {:induction false} RegionsEqual(shape: Shape, os: seq<Outcome>, vs: seq<TestVector>)
    requires Writes(shape) && |os| == |vs|
    requires forall i | 0 <= i < |os| :: |os[i].regions| == |Echo(shape, vs[i])|
    ensures |RegionsOut(os)| == |Echoes(shape, vs)|
    ensures RegionsOut(os) == Echoes(shape, vs) <==>
              forall i | 0 <= i < |os| :: os[i].regions == Echo(shape, vs[i])
  {
    hide Echo;
    if os != [] {
      var n := |os| - 1;
      var init, first := os[..n], vs[..n];
      RegionsEqual(shape, init, first);
      assert RegionsOut(os) == RegionsOut(init) + os[n].regions;
      assert Echoes(shape, vs) == Echoes(shape, first) + Echo(shape, vs[n]);
      TailEqual(RegionsOut(init), Echoes(shape, first), os[n].regions, Echo(shape, vs[n]));
      hide RegionsOut;
      hide Echoes;
      assert forall i | 0 <= i < n :: init[i] == os[i] && first[i] == vs[i];
    }
  }

  /**
   The output of a complete harness run passes exactly when every result word and
   every byte of every guarded region is the expected one.
   */
  lemma HarnessPasses(shape: Shape, os: seq<Outcome>, vs: seq<TestVector>)
    requires |os| == |vs| && forall i | 0 <= i < |os| :: os[i].word < TWO64
    requires Writes(shape) ==>
               forall i | 0 <= i < |os| :: |os[i].regions| == |Echo(shape, vs[i])|
    ensures Begins(HarnessOutput(shape, os), Expected(shape, vs)) <==>
              forall i | 0 <= i < |os| ::
                os[i].word == ExpectedBits(vs[i].expected) &&
                (Writes(shape) ==> os[i].regions == Echo(shape, vs[i]))
  {
    hide Words;
    hide Echoes;
    hide WordsOut;
    hide RegionsOut;
    hide ExpectedBits;
    hide Echo;
    WordsEqual(os, vs);
    var out, want := HarnessOutput(shape, os), Expected(shape, vs);
    if Writes(shape) {
      RegionsEqual(shape, os, vs);
      TailEqual(WordsOut(os), Words(vs), RegionsOut(os), Echoes(shape, vs));
    }
    assert |out| == |want|;
    assert out[..|want|] == out;
  }

  /** A write-shape region passes only with both guards intact and the exact payload between. */
  lemma GuardsIntact(region: seq<Byte>, payload: seq<Byte>)
    requires |region| == |payload| + 2
    ensures region == Guarded(payload) <==>
              && region[0] == GUARD_PRE && region[|region| - 1] == GUARD_POST
              && forall i | 0 <= i < |payload| :: region[i + 1] == payload[i]
  {
    assert forall i | 0 <= i < |payload| :: Guarded(payload)[i + 1] == payload[i];
    if region[0] == GUARD_PRE && region[|region| - 1] == GUARD_POST &&
       forall i | 0 <= i < |payload| :: region[i + 1] == payload[i] {
      forall i | 0 <= i < |region| ensures region[i] == Guarded(payload)[i] {
        if 0 < i < |region| - 1 { assert region[i - 1 + 1] == payload[i - 1]; }
      }
    }
  }

  /**
   The two readings of a source byte, masked for the destination and clamped for
   the source, agree exactly when no item is above 255 except those ending in 0xff:
   only then can a correct copy pass.
   */
  lemma CopyExpectationConsistent(v: TestVector)
    ensures CopiedBuffer(v) == SourceBuffer(v) <==>
              forall i | 0 <= i < |ItemsAt(v, 1)| ::
                var n := AsU64(ItemsAt(v, 1)[i]);
                n.None? || n.value <= 255 || n.value % 256 == 255
  {
    hide AsU64;
    var items := ItemsAt(v, 1);
    hide ItemsAt;
    forall i | 0 <= i < |items|
      ensures CopiedBuffer(v)[i] == SourceBuffer(v)[i] <==>
                AsU64(items[i]).None? || AsU64(items[i]).value <= 255 ||
                AsU64(items[i]).value % 256 == 255
    {
    }
  }
}
