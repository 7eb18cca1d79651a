/**
 Synthesised test vectors (crates/semasm-agent/src/harness.rs) against independent
 definitions of what each oracle claims.
 */
module Fixtures {
  import opened Basics
  import opened CanonicalJson
  import opened IntegerOracles
  import opened Evaluator
  import opened Shapes

  // ----- building vectors -----

  function Bytes(xs: seq<Byte>): (v: Value)
  {
    Arr(seq(|xs|, i requires 0 <= i < |xs| => JsonInt(xs[i])))
  }

  function BufferArg(b: Option<seq<Byte>>): (v: Value)
  {
    if b.Some? then Bytes(b.value) else Null
  }

  function LengthArg(b: Option<seq<Byte>>): (v: Value)
  {
    JsonInt(if b.Some? then |b.value| else 0)
  }

  function Contents(b: Option<seq<Byte>>): (xs: seq<Byte>)
  {
    if b.Some? then b.value else []
  }

  function ScanVector(t: Title, b: Option<seq<Byte>>, needle: Byte, expected: int): (v: TestVector)
  {
    TestVector(Builtin(t), [BufferArg(b), LengthArg(b), JsonInt(needle)], JsonInt(expected))
  }

  function ReplaceVector(t: Title, b: Option<seq<Byte>>, needle: Byte, replacement: Byte, expected: int)
    : (v: TestVector)
  {
    TestVector(Builtin(t), [BufferArg(b), LengthArg(b), JsonInt(needle), JsonInt(replacement)], JsonInt(expected))
  }

  function PairVector(t: Title, a: Option<seq<Byte>>, b: Option<seq<Byte>>, expected: int): (v: TestVector)
  {
    TestVector(Builtin(t), [BufferArg(a), BufferArg(b), LengthArg(b)], JsonInt(expected))
  }

  function SumVector(t: Title, xs: Option<seq<int>>, expected: int): (v: TestVector)
  {
    var items := if xs.Some? then xs.value else [];
    TestVector(
      Builtin(t),
      [if xs.Some? then Arr(seq(|items|, i requires 0 <= i < |items| => JsonInt(items[i]))) else Null,
       JsonInt(|items|)],
      JsonInt(expected))
  }

  function Repeat(x: Byte, n: nat): (xs: seq<Byte>)
    ensures |xs| == n && forall i | 0 <= i < n :: xs[i] == x
  {
    seq(n, i => x)
  }

  function Counting(n: nat): (xs: seq<Byte>)
    ensures |xs| == n
  {
    seq(n, i requires 0 <= i < n => i % 256)
  }

  function Capped(maxLength: Option<int>): (n: nat)
    ensures 1 <= n <= FIXTURE_CAP
  {
    var m := if maxLength.Some? then maxLength.value else FIXTURE_CAP;
    if m < 1 then 1 else if m > FIXTURE_CAP then FIXTURE_CAP else m
  }

  /** The three smallest bytes other than the needle. */
  function NonNeedle(needle: Byte): (b: (Byte, Byte, Byte))
    ensures b.0 != needle && b.1 != needle && b.2 != needle
    ensures b.0 < b.1 < b.2
  {
    (if needle == 0 then 1 else 0, if needle <= 1 then 2 else 1, if needle <= 2 then 3 else 2)
  }

  method NonNeedleBytes(needle: Byte) returns (out: seq<Byte>)
    ensures out == [NonNeedle(needle).0, NonNeedle(needle).1, NonNeedle(needle).2]
  {
    out := [];
    var value: int := 0;
    while |out| < 3
      invariant |out| <= 3 && 0 <= value < 256 && value <= 4
      invariant value == if needle < value then |out| + 1 else |out|
      invariant |out| > 0 ==> out[0] == NonNeedle(needle).0
      invariant |out| > 1 ==> out[1] == NonNeedle(needle).1
      invariant |out| > 2 ==> out[2] == NonNeedle(needle).2
      decreases 8 - value
    {
      if value != needle { out := out + [value]; }
      value := (value + 1) % 256;
    }
  }

  // ----- the fixtures -----

  /** One fixture of a byte buffer: `None` is the null pointer. */
  datatype Row = Row(title: Title, buf: Option<seq<Byte>>, expected: int)

  function FromRows(rows: seq<Row>, x: Byte): (vs: seq<TestVector>)
    ensures |vs| == |rows|
  {
    seq(|rows|, i requires 0 <= i < |rows| => ScanVector(rows[i].title, rows[i].buf, x, rows[i].expected))
  }

  function NullRow(nullable: bool): (rows: seq<Row>)
  {
    if nullable then [Row(NullPointer, None, 0)] else []
  }

  function CountRows(s: ScanShape): (rows: seq<Row>)
  {
    var k, no, n := s.needle, NonNeedle(s.needle), Capped(s.maxLength);
    [ Row(EmptyInput, None, 0),
      Row(OneByteMatch, Some([k]), 1),
      Row(NoMatch, Some([no.0, no.1, no.2]), 0),
      Row(AllMatch, Some([k, k]), 2),
      Row(EmbeddedZeros, Some([0, k, 0]), 1),
      Row(Longest, Some(Repeat(k, n)), n) ] + NullRow(s.nullable)
  }

  function FindFirstRows(s: ScanShape): (rows: seq<Row>)
  {
    var k, no, n := s.needle, NonNeedle(s.needle), Capped(s.maxLength);
    [ Row(EmptyInput, None, 0),
      Row(OneByteMatch, Some([k]), 0),
      Row(NoMatch, Some([no.0, no.1, no.2]), 3),
      Row(AllMatch, Some([k, k]), 0),
      Row(MatchAfterZeros, Some([0, k, 0]), 1),
      Row(MatchAtEnd, Some([no.0, no.1, k]), 2),
      Row(Longest, Some(Repeat(k, n)), 0) ] + NullRow(s.nullable)
  }

  function FindLastRows(s: ScanShape): (rows: seq<Row>)
  {
    var k, no, n := s.needle, NonNeedle(s.needle), Capped(s.maxLength);
    [ Row(EmptyInput, None, 0),
      Row(OneByteMatch, Some([k]), 0),
      Row(NoMatch, Some([no.0, no.1, no.2]), 3),
      Row(AllMatch, Some([k, k]), 1),
      Row(MatchAfterZeros, Some([0, k, 0]), 1),
      Row(MatchAtEnd, Some([no.0, no.1, k]), 2),
      Row(LastOfTwo, Some([k, no.0, k]), 2),
      Row(Longest, Some(Repeat(k, n)), n - 1) ] + NullRow(s.nullable)
  }

  function ScanRows(s: ScanShape): (rows: seq<Row>)
  {
    match s.op
    case Count => CountRows(s)
    case FindFirst => FindFirstRows(s)
    case FindLast => FindLastRows(s)
  }

  function ScanVectors(s: ScanShape): (vs: seq<TestVector>)
  {
    FromRows(ScanRows(s), s.needle)
  }

  function NextByte(b: Byte): (r: Byte)
  {
    (b + 1) % 256
  }

  /** All needles, the first spoilt when there is room for it. */
  function MaxReplaceBuffer(s: ReplaceShape): (xs: seq<Byte>)
  {
    var n := Capped(s.maxLength);
    if n > 1 then [NextByte(s.needle)] + Repeat(s.needle, n - 1) else Repeat(s.needle, n)
  }

  function ReplaceVectors(s: ReplaceShape): (vs: seq<TestVector>)
  {
    var k, r := s.needle, s.replacement;
    [ ReplaceVector(EmptyInput, None, k, r, 0),
      ReplaceVector(OneByteMatch, Some([k]), k, r, 1),
      ReplaceVector(OneByteMiss, Some([NextByte(k)]), k, r, 0),
      ReplaceVector(MixedHits, Some([k, 1, k, 2, k]), k, r, 3) ] +
    (if k != r then [ReplaceVector(SameReplacement, Some([k, k, 7]), k, k, 2)] else []) +
    [ ReplaceVector(Longest, Some(MaxReplaceBuffer(s)), k, r,
                    CountOf(MaxReplaceBuffer(s), k)) ]
  }

  function MemsetRows(s: MemsetShape): (rows: seq<Row>)
  {
    var x, f := s.value, NextByte(s.value);
    [ Row(EmptyInput, None, 0),
      Row(OneByte, Some([f]), 0),
      Row(ShortPattern, Some([f, f, f, f, f]), 0),
      Row(AlreadyFilled, Some([x, x, x]), 0),
      Row(Longest, Some(Repeat(f, Capped(s.maxLength))), 0) ]
  }

  function MemsetVectors(s: MemsetShape): (vs: seq<TestVector>)
  {
    FromRows(MemsetRows(s), s.value)
  }

  function MemcpyVectors(s: PairShape): (vs: seq<TestVector>)
  {
    [ PairVector(EmptyInput, None, None, 0),
      PairVector(OneByte, Some([0xEE]), Some([0x5A]), 0),
      PairVector(ShortCopy, Some(Repeat(0xEE, 5)), Some([1, 2, 3, 4, 5]), 0),
      PairVector(Longest, Some(Repeat(0xEE, Capped(s.maxLength))),
                 Some(Counting(Capped(s.maxLength))), 0) ]
  }

  function MemCmpVectors(s: PairShape): (vs: seq<TestVector>)
  {
    [ PairVector(EmptyBuffers, Some([]), Some([]), 0),
      PairVector(EqualBuffers, Some([0, 127, 255]), Some([0, 127, 255]), 0),
      PairVector(LessThan, Some([0]), Some([255]), -1),
      PairVector(GreaterThan, Some([255]), Some([0]), 1),
      PairVector(PrefixThenDifference, Some([1, 2, 3, 4]), Some([1, 2, 3, 5]), -1),
      PairVector(Longest, Some(Counting(Capped(s.maxLength))),
                 Some(Counting(Capped(s.maxLength))), 0) ] +
    (if s.nullable then [PairVector(NullBuffers, None, None, 0)] else [])
  }

  function SumVectors(s: SumShape): (vs: seq<TestVector>)
  {
    [ SumVector(EmptySum, None, 0),
      SumVector(Positive, Some([1, 2, 3, 4]), 10),
      SumVector(Mixed, Some([-5, 2, 10]), 7),
      SumVector(SingleNegative, Some([-1]), -1),
      SumVector(WrappingOverflow, Some([TWO63 - 1, 1]), -TWO63),
      SumVector(Longest, Some(seq(Capped(s.maxLength), i => 1)),
                Capped(s.maxLength)) ] +
    (if s.nullable then [SumVector(NullPointer, None, 0)] else [])
  }

  function UnsignedVector(op: UnsignedOp, t: Title, a: int, b: int): (v: TestVector)
    requires IsU64(a) && IsU64(b)
  {
    TestVector(Builtin(t), [JsonInt(a), JsonInt(b)], JsonInt(ReduceUnsigned(op, a, b)))
  }

  function UnsignedVectors(op: UnsignedOp): (vs: seq<TestVector>)
  {
    [ UnsignedVector(op, BothZero, 0, 0), UnsignedVector(op, ASmaller, 1, 2),
      UnsignedVector(op, BSmaller, 5, 3), UnsignedVector(op, Equal, 7, 7),
      UnsignedVector(op, ZeroAndLarge, 0, 1_000_000), UnsignedVector(op, WideSpread, 100, 50) ]
  }

  function SignedVector(op: SignedOp, t: Title, a: int, b: int): (v: TestVector)
    requires IsI64(a) && IsI64(b)
  {
    TestVector(Builtin(t), [JsonInt(a), JsonInt(b)], JsonInt(ReduceSigned(op, a, b)))
  }

  function SignedVectors(op: SignedOp): (vs: seq<TestVector>)
  {
    [ SignedVector(op, BothZero, 0, 0), SignedVector(op, BothPositive, 5, 3),
      SignedVector(op, MixedSigns, -3, 7), SignedVector(op, BothNegative, -5, -2),
      SignedVector(op, EqualNegative, -7, -7), SignedVector(op, WideSpread, 1_000_000, -50),
      SignedVector(op, MaxWraps, TWO63 - 1, 1), SignedVector(op, MinWraps, -TWO63, -1) ]
  }

  function UnaryVector(op: UnaryOp, t: Title, x: int): (v: TestVector)
    requires IsI64(x)
  {
    TestVector(Builtin(t), [JsonInt(x)], JsonInt(ReduceUnary(op, x)))
  }

  function UnaryVectors(op: UnaryOp): (vs: seq<TestVector>)
  {
    match op
    case SumRange =>
      [ UnaryVector(op, Zero, 0), UnaryVector(op, One, 1), UnaryVector(op, Five, 5),
        UnaryVector(op, Ten, 10), UnaryVector(op, Twenty, 20) ]
    case Countdown =>
      [ UnaryVector(op, Zero, 0), UnaryVector(op, Positive, 5), UnaryVector(op, Ten, 10),
        UnaryVector(op, Negative, -3), UnaryVector(op, MinusOne, -1) ]
    case _ =>
      [ UnaryVector(op, Zero, 0), UnaryVector(op, Positive, 5), UnaryVector(op, Negative, -5),
        UnaryVector(op, MaxValue, TWO63 - 1), UnaryVector(op, MinWraps, -TWO63) ]
  }

  function CellLoadVector(b: Byte): (v: TestVector)
  {
    TestVector(Builtin(CellByte), [Bytes([b])], JsonInt(b))
  }

  function CellStoreVector(initial: Byte, value: Byte): (v: TestVector)
  {
    TestVector(Builtin(StoreOver), [Bytes([initial]), JsonInt(value)], JsonInt(value))
  }

  function Synthesize(c: Contract): (vs: seq<TestVector>)
  {
    if Scan(c).Some? then ScanVectors(Scan(c).value)
    else if Replace(c).Some? then ReplaceVectors(Replace(c).value)
    else if MemsetOf(c).Some? then MemsetVectors(MemsetOf(c).value)
    else if MemcpyOf(c).Some? then MemcpyVectors(MemcpyOf(c).value)
    else if MemCmpOf(c).Some? then MemCmpVectors(MemCmpOf(c).value)
    else if SumOf(c).Some? then SumVectors(SumOf(c).value)
    else if UnsignedOf(c).Some? then UnsignedVectors(UnsignedOf(c).value)
    else if SignedOf(c).Some? then SignedVectors(SignedOf(c).value)
    else if UnaryOf(c).Some? then UnaryVectors(UnaryOf(c).value)
    else if CellLoadOf(c) then
      [CellLoadVector(0), CellLoadVector(1), CellLoadVector(0x41), CellLoadVector(0xff)]
    else if CellStoreOf(c) then
      [CellStoreVector(0, 7), CellStoreVector(0xff, 0), CellStoreVector(0x11, 0x22),
       CellStoreVector(0, 0xff)]
    else []
  }

  // ----- what the oracles claim -----

  function CountOf(b: seq<Byte>, x: Byte): (n: nat)
  {
    if b == [] then 0 else CountOf(b[..|b| - 1], x) + if b[|b| - 1] == x then 1 else 0
  }

  /** `n` is the first position of `x`, or the length when there is none. */
  predicate IsFirst(b: seq<Byte>, x: Byte, n: int)
  {
    0 <= n <= |b| && (n < |b| ==> b[n] == x) && forall i | 0 <= i < n :: b[i] != x
  }

  /** `n` is the last position of `x`, or the length when there is none. */
  predicate IsLast(b: seq<Byte>, x: Byte, n: int)
  {
    if x in b then 0 <= n < |b| && b[n] == x && forall i | n < i < |b| :: b[i] != x
    else n == |b|
  }

  predicate ScanAnswer(op: ScanOp, b: seq<Byte>, x: Byte, n: int)
  {
    match op
    case Count => n == CountOf(b, x)
    case FindFirst => IsFirst(b, x, n)
    case FindLast => IsLast(b, x, n)
  }

  /** Sign of the first difference, bytes unsigned. */
  predicate ComparesTo(a: seq<Byte>, b: seq<Byte>, n: int)
    requires |a| == |b|
  {
    || (n == 0 && a == b)
    || exists i :: 0 <= i < |a| && a[..i] == b[..i] &&
         ((a[i] < b[i] && n == -1) || (a[i] > b[i] && n == 1))
  }

  function WordSum(xs: seq<int>): (s: int)
  {
    if xs == [] then 0 else Wrap(WordSum(xs[..|xs| - 1]) + xs[|xs| - 1])
  }

  function BufferOf(v: TestVector, i: nat): (xs: seq<Byte>)
  {
    var items := ItemsAt(v, i);
    seq(|items|, k requires 0 <= k < |items| => MaskedByte(items[k]))
  }

  /** The whole buffer is the fixture: its length argument says so. */
  predicate WholeBuffer(v: TestVector, i: nat, len: nat)
  {
    len < |v.inputs| && v.inputs[len] == JsonInt(|ItemsAt(v, i)|)
  }

  predicate ScanClaim(op: ScanOp, v: TestVector)
  {
    WholeBuffer(v, 0, 1) && AsI64(v.expected).Some? &&
    ScanAnswer(op, BufferOf(v, 0), U64At(v, 2) % 256, AsI64(v.expected).value)
  }

  predicate ReplaceClaim(v: TestVector)
  {
    WholeBuffer(v, 0, 1) && v.expected == JsonInt(CountOf(BufferOf(v, 0), U64At(v, 2) % 256))
  }

  predicate CompareClaim(v: TestVector)
  {
    |ItemsAt(v, 0)| == |ItemsAt(v, 1)| && WholeBuffer(v, 0, 2) && AsI64(v.expected).Some? &&
    ComparesTo(BufferOf(v, 0), BufferOf(v, 1), AsI64(v.expected).value)
  }

  // ----- scan fixtures -----

  lemma JsonIntBack(x: int)
    ensures 0 <= x < TWO64 ==> AsU64(JsonInt(x)) == Some(x)
    ensures -TWO63 <= x < TWO63 ==> AsI64(JsonInt(x)) == Some(x)
    ensures forall y: int :: JsonInt(y) == JsonInt(x) ==> y == x
  {
  }

  lemma BufferBack(v: TestVector, i: nat, b: Option<seq<Byte>>)
    requires i < |v.inputs| && v.inputs[i] == BufferArg(b)
    ensures BufferOf(v, i) == Contents(b) && |ItemsAt(v, i)| == |Contents(b)|
  {
    var items := ItemsAt(v, i);
    forall k | 0 <= k < |items| ensures MaskedByte(items[k]) == Contents(b)[k] {
      JsonIntBack(Contents(b)[k]);
    }
  }

  lemma ScanVectorClaim(op: ScanOp, t: Title, b: Option<seq<Byte>>, needle: Byte, n: int)
    requires IsI64(n)
    ensures ScanClaim(op, ScanVector(t, b, needle, n)) <==> ScanAnswer(op, Contents(b), needle, n)
  {
    var v := ScanVector(t, b, needle, n);
    BufferBack(v, 0, b);
    JsonIntBack(needle);
    JsonIntBack(n);
    hide JsonInt;
    hide ScanAnswer;
    hide BufferOf;
    hide ItemsAt;
    hide BufferArg;
    assert U64At(v, 2) == needle;
  }

  lemma CountSmall(a: Byte, b: Byte, c: Byte, x: Byte)
    ensures CountOf([], x) == 0
    ensures CountOf([a], x) == if a == x then 1 else 0
    ensures CountOf([a, b], x) == CountOf([a], x) + if b == x then 1 else 0
    ensures CountOf([a, b, c], x) == CountOf([a, b], x) + if c == x then 1 else 0
  {
    assert [a][..0] == [] && [a, b][..1] == [a] && [a, b, c][..2] == [a, b];
  }

  lemma {:induction false} CountRepeat(x: Byte, n: nat)
    ensures CountOf(Repeat(x, n), x) == n
  {
    if n > 0 {
      assert Repeat(x, n)[..n - 1] == Repeat(x, n - 1);
      CountRepeat(x, n - 1);
    }
  }

  predicate AllScan(op: ScanOp, vs: seq<TestVector>)
  {
    forall i | 0 <= i < |vs| :: ScanClaim(op, vs[i])
  }

  predicate RowOk(op: ScanOp, x: Byte, r: Row)
  {
    ScanAnswer(op, Contents(r.buf), x, r.expected)
  }

  lemma RowsClaim(op: ScanOp, rows: seq<Row>, x: Byte)
    requires forall i | 0 <= i < |rows| :: IsI64(rows[i].expected)
    ensures AllScan(op, FromRows(rows, x)) <==> forall i | 0 <= i < |rows| :: RowOk(op, x, rows[i])
  {
    var vs := FromRows(rows, x);
    hide ScanClaim;
    hide ScanAnswer;
    forall i | 0 <= i < |rows| ensures ScanClaim(op, vs[i]) <==> RowOk(op, x, rows[i]) {
      ScanVectorClaim(op, rows[i].title, rows[i].buf, x, rows[i].expected);
    }
  }

  lemma CountRowsOk(s: ScanShape)
    ensures (forall i | 0 <= i < |CountRows(s)| :: RowOk(Count, s.needle, CountRows(s)[i])) <==> s.needle != 0
  {
    var k, no, n := s.needle, NonNeedle(s.needle), Capped(s.maxLength);
    CountSmall(k, k, k, k);
    CountSmall(no.0, no.1, no.2, k);
    CountSmall(0, k, 0, k);
    CountRepeat(k, n);
    hide CountOf;
    hide Repeat;
    hide NonNeedle;
    var rows := CountRows(s);
    assert RowOk(Count, k, rows[4]) <==> k != 0;
  }

  lemma FindFirstRowsOk(s: ScanShape)
    ensures (forall i | 0 <= i < |FindFirstRows(s)| :: RowOk(FindFirst, s.needle, FindFirstRows(s)[i])) <==>
              s.needle != 0
  {
    hide Repeat;
    hide NonNeedle;
    var rows := FindFirstRows(s);
    var b: seq<Byte> := [0, s.needle, 0];
    assert rows[4].buf == Some(b) && b[0] == 0 && b[1] == s.needle;
    assert RowOk(FindFirst, s.needle, rows[4]) <==> s.needle != 0;
  }

  lemma FindLastRowsOk(s: ScanShape)
    ensures (forall i | 0 <= i < |FindLastRows(s)| :: RowOk(FindLast, s.needle, FindLastRows(s)[i])) <==>
              s.needle != 0
  {
    hide NonNeedle;
    hide Repeat;
    var k, n := s.needle, Capped(s.maxLength);
    var rows := FindLastRows(s);
    assert Repeat(k, n)[n - 1] == k;
    var b: seq<Byte> := [0, k, 0];
    assert rows[4].buf == Some(b) && b[0] == 0 && b[1] == k && b[2] == 0;
    assert RowOk(FindLast, k, rows[4]) <==> k != 0;
  }

  lemma RowsSmall(s: ScanShape)
    ensures forall i | 0 <= i < |ScanRows(s)| :: IsI64(ScanRows(s)[i].expected)
  {
    hide Repeat;
    hide NonNeedle;
  }

  /** The scan fixtures are what their oracle claims exactly when the needle is not zero. */
  lemma ScanFixturesExact(s: ScanShape)
    ensures AllScan(s.op, ScanVectors(s)) <==> s.needle != 0
  {
    RowsSmall(s);
    RowsClaim(s.op, ScanRows(s), s.needle);
    CountRowsOk(s);
    FindFirstRowsOk(s);
    FindLastRowsOk(s);
    hide CountRows;
    hide FindFirstRows;
    hide FindLastRows;
    hide RowOk;
    hide AllScan;
  }

  // ----- replace fixtures -----

  predicate AllReplace(vs: seq<TestVector>)
  {
    forall i | 0 <= i < |vs| :: ReplaceClaim(vs[i])
  }

  lemma ReplaceVectorReads(t: Title, b: Option<seq<Byte>>, needle: Byte, replacement: Byte, n: int)
    ensures var v := ReplaceVector(t, b, needle, replacement, n);
            && U64At(v, 2) == needle && BufferOf(v, 0) == Contents(b) && WholeBuffer(v, 0, 1)
            && v.expected == JsonInt(n)
  {
    var v := ReplaceVector(t, b, needle, replacement, n);
    BufferBack(v, 0, b);
    JsonIntBack(needle);
    hide JsonInt;
    hide BufferOf;
    hide BufferArg;
  }

  lemma ReplaceVectorClaim(
    t: Title, b: Option<seq<Byte>>, needle: Byte, replacement: Byte, n: int)
    ensures ReplaceClaim(ReplaceVector(t, b, needle, replacement, n)) <==>
              n == CountOf(Contents(b), needle)
  {
    hide JsonInt;
    hide CountOf;
    hide BufferOf;
    hide ReplaceVector;
    hide U64At;
    hide WholeBuffer;
    ReplaceVectorReads(t, b, needle, replacement, n);
    JsonIntBack(n);
  }

  lemma CountFive(k: Byte, a: Byte, b: Byte)
    ensures CountOf([k, a, k, b, k], k) == 3 + (if a == k then 1 else 0) + (if b == k then 1 else 0)
  {
    CountSmall(k, a, k, k);
    assert [k, a, k, b][..3] == [k, a, k];
    assert CountOf([k, a, k, b], k) == CountOf([k, a, k], k) + if b == k then 1 else 0;
    assert [k, a, k, b, k][..4] == [k, a, k, b];
  }

  /**
   The replace fixtures are what their oracle claims exactly when the needle is none
   of the filler bytes 1, 2 and 7; 7 is harmless when it is the replacement too.
   */
  lemma ReplaceFixturesExact(s: ReplaceShape)
    ensures AllReplace(ReplaceVectors(s)) <==>
              s.needle != 1 && s.needle != 2 && (s.needle == 7 ==> s.replacement == 7)
  {
    hide ReplaceClaim;
    hide ReplaceVector;
    hide MaxReplaceBuffer;
    hide CountOf;
    hide NextByte;
    ReplaceVectorClaims(s);
    var k, r, vs := s.needle, s.replacement, ReplaceVectors(s);
    assert ReplaceClaim(vs[3]) <==> k != 1 && k != 2;
    if k != r { assert ReplaceClaim(vs[4]) <==> k != 7; }
  }

  lemma ReplaceVectorClaims(s: ReplaceShape)
    ensures var k, r, most := s.needle, s.replacement, MaxReplaceBuffer(s);
            && ReplaceClaim(ReplaceVector(EmptyInput, None, k, r, 0))
            && ReplaceClaim(ReplaceVector(OneByteMatch, Some([k]), k, r, 1))
            && ReplaceClaim(ReplaceVector(OneByteMiss, Some([NextByte(k)]), k, r, 0))
            && (ReplaceClaim(ReplaceVector(MixedHits, Some([k, 1, k, 2, k]), k, r, 3)) <==> k != 1 && k != 2)
            && (ReplaceClaim(ReplaceVector(SameReplacement, Some([k, k, 7]), k, k, 2)) <==> k != 7)
            && ReplaceClaim(ReplaceVector(Longest, Some(most), k, r, CountOf(most, k)))
  {
    hide ReplaceClaim;
    hide ReplaceVector;
    hide MaxReplaceBuffer;
    hide CountOf;
    hide NextByte;
    var k, r, most := s.needle, s.replacement, MaxReplaceBuffer(s);
    NextDiffers(k);
    CountSmall(k, k, 7, k);
    CountSmall(NextByte(k), 0, 0, k);
    CountFive(k, 1, 2);
    ReplaceVectorClaim(EmptyInput, None, k, r, 0);
    ReplaceVectorClaim(OneByteMatch, Some([k]), k, r, 1);
    ReplaceVectorClaim(OneByteMiss, Some([NextByte(k)]), k, r, 0);
    ReplaceVectorClaim(MixedHits, Some([k, 1, k, 2, k]), k, r, 3);
    ReplaceVectorClaim(SameReplacement, Some([k, k, 7]), k, k, 2);
    ReplaceVectorClaim(Longest, Some(most), k, r, CountOf(most, k));
  }

  // ----- write fixtures -----

  /** A routine that leaves its buffer alone cannot pass the memset fixtures. */
  lemma IdleMemsetFails(s: MemsetShape)
    ensures |MemsetVectors(s)| > 1 && BufferOf(MemsetVectors(s)[1], 0) != FilledBuffer(MemsetVectors(s)[1])
  {
    var v := MemsetVectors(s)[1];
    BufferBack(v, 0, Some([NextByte(s.value)]));
    JsonIntBack(s.value);
    JsonIntBack(1);
    assert U64At(v, 2) == s.value && U64At(v, 1) == 1;
    hide *;
    assert FilledBuffer(v) == [s.value] by { FilledOne(v, s.value); }
    assert NextByte(s.value) != s.value by { NextDiffers(s.value); }
    assert BufferOf(v, 0)[0] != FilledBuffer(v)[0];
  }

  lemma FilledOne(v: TestVector, x: Byte)
    requires U64At(v, 1) == 1 && U64At(v, 2) == x
    ensures FilledBuffer(v) == [x]
  {
  }

  lemma NextDiffers(x: Byte)
    ensures NextByte(x) != x
  {
  }

  // ----- single cells -----

  /** A cell load is to return the cell, a cell store the stored value. */
  lemma CellFixturesCorrect(b: Byte, x: Byte)
    ensures BufferOf(CellLoadVector(b), 0) == [b] && ExpectedBits(CellLoadVector(b).expected) == b
    ensures BufferOf(CellStoreVector(b, x), 0) == [b] && U64At(CellStoreVector(b, x), 1) == x
    ensures ExpectedBits(CellStoreVector(b, x).expected) == x
  {
    BufferBack(CellLoadVector(b), 0, Some([b]));
    BufferBack(CellStoreVector(b, x), 0, Some([b]));
    ExpectedMeaning(b);
    ExpectedMeaning(x);
  }

  /** The result word of an integer is its residue modulo 2^64, signed or unsigned. */
  lemma ExpectedMeaning(n: int)
    ensures -TWO63 <= n < TWO64 ==> ExpectedBits(JsonInt(n)) == n % TWO64
  {
  }

  // ----- compare fixtures -----

  lemma PairVectorClaim(t: Title, a: Option<seq<Byte>>, b: Option<seq<Byte>>, n: int)
    requires IsI64(n) && |Contents(a)| == |Contents(b)| && ComparesTo(Contents(a), Contents(b), n)
    ensures CompareClaim(PairVector(t, a, b, n))
  {
    var v := PairVector(t, a, b, n);
    BufferBack(v, 0, a);
    BufferBack(v, 1, b);
    JsonIntBack(n);
    hide JsonInt;
    hide ComparesTo;
    hide BufferOf;
    hide ItemsAt;
    hide BufferArg;
  }

  lemma DiffersAt(a: seq<Byte>, b: seq<Byte>, i: nat)
    requires |a| == |b| && i < |a| && a[..i] == b[..i] && a[i] < b[i]
    ensures ComparesTo(a, b, -1) && ComparesTo(b, a, 1)
  {
  }

  lemma SameCompares(a: seq<Byte>)
    ensures ComparesTo(a, a, 0)
  {
  }

  /** Every compare fixture expects the sign of the first unsigned difference. */
  lemma CompareFixturesCorrect(s: PairShape)
    ensures forall i | 0 <= i < |MemCmpVectors(s)| :: CompareClaim(MemCmpVectors(s)[i])
  {
    hide CompareClaim;
    hide PairVector;
    hide ComparesTo;
    hide Counting;
    var c := Counting(Capped(s.maxLength));
    SameCompares([]);
    SameCompares([0, 127, 255]);
    SameCompares(c);
    DiffersAt([0], [255], 0);
    DiffersAt([1, 2, 3, 4], [1, 2, 3, 5], 3);
    PairVectorClaim(EmptyBuffers, Some([]), Some([]), 0);
    PairVectorClaim(EqualBuffers, Some([0, 127, 255]), Some([0, 127, 255]), 0);
    PairVectorClaim(LessThan, Some([0]), Some([255]), -1);
    PairVectorClaim(GreaterThan, Some([255]), Some([0]), 1);
    PairVectorClaim(PrefixThenDifference, Some([1, 2, 3, 4]), Some([1, 2, 3, 5]), -1);
    PairVectorClaim(Longest, Some(c), Some(c), 0);
    PairVectorClaim(NullBuffers, None, None, 0);
  }

  // ----- sum fixtures -----

  function WordsAt(v: TestVector, i: nat): (xs: seq<int>)
  {
    var items := ItemsAt(v, i);
    seq(|items|, k requires 0 <= k < |items| => if AsI64(items[k]).Some? then AsI64(items[k]).value else 0)
  }

  predicate SumClaim(v: TestVector)
  {
    WholeBuffer(v, 0, 1) && v.expected == JsonInt(WordSum(WordsAt(v, 0)))
  }

  lemma SumVectorClaim(t: Title, xs: Option<seq<int>>, n: int)
    requires xs.Some? ==> forall i | 0 <= i < |xs.value| :: IsI64(xs.value[i])
    requires n == WordSum(if xs.Some? then xs.value else [])
    ensures SumClaim(SumVector(t, xs, n))
  {
    hide WordSum;
    hide JsonInt;
    hide AsI64;
    var v := SumVector(t, xs, n);
    var values := if xs.Some? then xs.value else [];
    var items := ItemsAt(v, 0);
    assert |items| == |values|;
    forall i | 0 <= i < |items| ensures AsI64(items[i]) == Some(values[i]) {
      JsonIntBack(values[i]);
    }
    assert WordsAt(v, 0) == values;
  }

  lemma WordSumStep(xs: seq<int>, x: int, n: int)
    requires IsI64(WordSum(xs) + x) && n == WordSum(xs) + x
    ensures WordSum(xs + [x]) == n
  {
    assert (xs + [x])[..|xs|] == xs;
    WrapUnique(n, n);
  }

  lemma {:induction false} WordSumOnes(n: nat)
    requires n < TWO63
    ensures WordSum(seq(n, i => 1)) == n
  {
    if n > 0 {
      WordSumOnes(n - 1);
      assert seq(n, i => 1) == seq(n - 1, i => 1) + [1];
      WordSumStep(seq(n - 1, i => 1), 1, n);
    }
  }

  lemma WordSumFour(a: int, b: int, c: int, d: int)
    requires IsI64(a) && IsI64(a + b) && IsI64(a + b + c) && IsI64(a + b + c + d)
    ensures WordSum([]) == 0 && WordSum([a]) == a && WordSum([a, b]) == a + b
    ensures WordSum([a, b, c]) == a + b + c && WordSum([a, b, c, d]) == a + b + c + d
  {
    assert WordSum([]) == 0;
    hide WordSum;
    assert [] + [a] == [a] && [a] + [b] == [a, b];
    assert [a, b] + [c] == [a, b, c] && [a, b, c] + [d] == [a, b, c, d];
    WordSumStep([], a, a);
    WordSumStep([a], b, a + b);
    WordSumStep([a, b], c, a + b + c);
    WordSumStep([a, b, c], d, a + b + c + d);
  }

  lemma WordSumOverflow()
    ensures WordSum([TWO63 - 1, 1]) == -TWO63
  {
    WordSumFour(TWO63 - 1, 0, 0, 0);
    assert [TWO63 - 1, 1][..1] == [TWO63 - 1];
  }

  /** Every sum fixture expects the wrapped sum of its values, overflow included. */
  lemma SumFixturesCorrect(s: SumShape)
    ensures forall i | 0 <= i < |SumVectors(s)| :: SumClaim(SumVectors(s)[i])
  {
    hide WordSum;
    hide SumClaim;
    hide SumVector;
    var n := Capped(s.maxLength);
    SumFixtureSums(n);
    SumVectorClaim(EmptySum, None, 0);
    SumVectorClaim(Positive, Some([1, 2, 3, 4]), 10);
    SumVectorClaim(Mixed, Some([-5, 2, 10]), 7);
    SumVectorClaim(SingleNegative, Some([-1]), -1);
    SumVectorClaim(WrappingOverflow, Some([TWO63 - 1, 1]), -TWO63);
    SumVectorClaim(Longest, Some(seq(n, i => 1)), n);
    SumVectorClaim(NullPointer, None, 0);
  }

  lemma SumFixtureSums(n: nat)
    requires n < TWO63
    ensures WordSum([]) == 0 && WordSum([1, 2, 3, 4]) == 10 && WordSum([-5, 2, 10]) == 7
    ensures WordSum([-1]) == -1 && WordSum([TWO63 - 1, 1]) == -TWO63
    ensures WordSum(seq(n, i => 1)) == n
  {
    hide WordSum;
    WordSumFour(1, 2, 3, 4);
    WordSumFour(-5, 2, 10, 0);
    WordSumFour(-1, 0, 0, 0);
    WordSumOverflow();
    WordSumOnes(n);
  }
}
