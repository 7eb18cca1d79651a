/**
 The scalar integer oracles (crates/semasm-agent/src/harness.rs): 64-bit wrapping
 arithmetic, and when the closed form of `sum_range` is the wrapped sum it claims.
 */
module IntegerOracles {
  import opened Basics

  predicate IsI64(x: int)
  {
    -TWO63 <= x < TWO63
  }

  predicate IsU64(x: int)
  {
    0 <= x < TWO64
  }

  /** The signed 64-bit value congruent to `x`. */
  function Wrap(x: int): (r: int)
    ensures IsI64(r) && (r - x) % TWO64 == 0
  {
    var m := x % TWO64;
    if m < TWO63 then m else m - TWO64
  }

  /** Division by two, truncating toward zero. */
  function Halve(x: int): (r: int)
  {
    if x >= 0 then x / 2 else -((-x) / 2)
  }

  datatype UnsignedOp = UMin | UMax
  datatype SignedOp = Add | Sub | Min | Max | AddThenDouble
  datatype UnaryOp = Identity | Abs | SumRange | Countdown | Double | Inc | AddBase100

  function ReduceUnsigned(op: UnsignedOp, a: int, b: int): (r: int)
    requires IsU64(a) && IsU64(b)
    ensures IsU64(r) && (r == a || r == b)
    ensures op == UMin ==> r <= a && r <= b
    ensures op == UMax ==> r >= a && r >= b
  {
    match op
    case UMin => if a <= b then a else b
    case UMax => if a <= b then b else a
  }

  function ReduceSigned(op: SignedOp, a: int, b: int): (r: int)
    requires IsI64(a) && IsI64(b)
    ensures IsI64(r)
  {
    match op
    case Add => Wrap(a + b)
    case Sub => Wrap(a - b)
    case Min => if a <= b then a else b
    case Max => if a <= b then b else a
    case AddThenDouble => Wrap(Wrap(a + b) * 2)
  }

  function ReduceUnary(op: UnaryOp, x: int): (r: int)
    requires IsI64(x)
    ensures IsI64(r)
  {
    match op
    case Identity => x
    case Countdown => x
    case Abs => if x < 0 then Wrap(-x) else x
    case SumRange => Halve(Wrap(x * Wrap(x + 1)))
    case Double => Wrap(x * 2)
    case Inc => Wrap(x + 1)
    case AddBase100 => Wrap(x + 100)
  }

  // ----- wrapping is arithmetic modulo 2^64 -----

  lemma WrapUnique(x: int, r: int)
    requires IsI64(r) && (r - x) % TWO64 == 0
    ensures Wrap(x) == r
  {
    var w := Wrap(x);
    assert (r - w) % TWO64 == 0 by { CongruentTrans(r, x, w); }
  }

  /** Two numbers that differ by a multiple of 2^64. */
  predicate SameWord(x: int, y: int)
  {
    (x - y) % TWO64 == 0
  }

  /** The two-operand oracles: the one signed word that is the sum, difference or double sum; the bound attained. */
  lemma SignedMeaning(a: int, b: int, r: int)
    requires IsI64(a) && IsI64(b) && IsI64(r)
    ensures r == ReduceSigned(Add, a, b) <==> SameWord(r, a + b)
    ensures r == ReduceSigned(Sub, a, b) <==> SameWord(r, a - b)
    ensures r == ReduceSigned(AddThenDouble, a, b) <==> SameWord(r, 2 * (a + b))
    ensures r == ReduceSigned(Min, a, b) <==> r <= a && r <= b && (r == a || r == b)
    ensures r == ReduceSigned(Max, a, b) <==> r >= a && r >= b && (r == a || r == b)
  {
    AddThenDoubleWraps(a, b);
    WrapExact(a + b, r);
    WrapExact(a - b, r);
    WrapExact((a + b) * 2, r);
  }

  /** The one-operand oracles; the magnitude of the least word does not fit, and is itself. */
  lemma UnaryMeaning(x: int, r: int)
    requires IsI64(x) && IsI64(r)
    ensures r == ReduceUnary(Identity, x) <==> r == x
    ensures r == ReduceUnary(Countdown, x) <==> r == x
    ensures r == ReduceUnary(Double, x) <==> SameWord(r, 2 * x)
    ensures r == ReduceUnary(Inc, x) <==> SameWord(r, x + 1)
    ensures r == ReduceUnary(AddBase100, x) <==> SameWord(r, x + 100)
    ensures r == ReduceUnary(Abs, x) <==> if x == -TWO63 then r == x else r >= 0 && (r == x || r == -x)
  {
    WrapExact(2 * x, r);
    WrapExact(x + 1, r);
    WrapExact(x + 100, r);
    if x > -TWO63 { WrapExact(-x, -x); }
    else { WrapExact(-x, x); }
  }

  lemma WrapExact(x: int, r: int)
    requires IsI64(r)
    ensures r == Wrap(x) <==> SameWord(r, x)
  {
    if SameWord(r, x) { WrapUnique(x, r); }
  }

  lemma CongruentTrans(a: int, b: int, c: int)
    requires (a - b) % TWO64 == 0 && (c - b) % TWO64 == 0
    ensures (a - c) % TWO64 == 0
  {
    var p, q := (a - b) / TWO64, (c - b) / TWO64;
    assert a - c == (p - q) * TWO64;
  }

  lemma Congruent(x: int, y: int, k: int)
    requires y == x + k * TWO64
    ensures (y - x) % TWO64 == 0 && Wrap(x) == Wrap(y)
  {
    Multiple(k);
    var w := Wrap(x);
    CongruentTrans(w, x, y);
    WrapUnique(y, w);
  }

  lemma Multiple(k: int)
    ensures (k * TWO64) % TWO64 == 0
  {
  }

  /** Wrapping an operand before an addition changes nothing. */
  lemma WrapAdd(x: int, y: int)
    ensures Wrap(Wrap(x) + y) == Wrap(x + y)
  {
    var k := (Wrap(x) - x) / TWO64;
    Congruent(x + y, Wrap(x) + y, k);
  }

  /** Wrapping an operand before a multiplication changes nothing. */
  lemma WrapMul(x: int, y: int)
    ensures Wrap(x * Wrap(y)) == Wrap(x * y)
  {
    var k := (Wrap(y) - y) / TWO64;
    assert Wrap(y) == y + k * TWO64;
    Distribute(x, y, k);
    Congruent(x * y, x * Wrap(y), x * k);
  }

  lemma Distribute(x: int, y: int, k: int)
    ensures x * (y + k * TWO64) == x * y + x * k * TWO64
  {
  }

  /** `2 * (a + b)` computed in two wrapping steps is the wrapped product. */
  lemma AddThenDoubleWraps(a: int, b: int)
    requires IsI64(a) && IsI64(b)
    ensures ReduceSigned(AddThenDouble, a, b) == Wrap(2 * (a + b))
  {
    hide Wrap;
    WrapMul(2, a + b);
  }

  // ----- sum_range -----

  /** What the routine computes: a running 64-bit sum over `0, 1, .., n`. */
  function WrappedSum(n: nat): (s: int)
  {
    if n == 0 then 0 else Wrap(WrappedSum(n - 1) + n)
  }

  function Triangle(n: nat): (t: nat)
  {
    if n == 0 then 0 else Triangle(n - 1) + n
  }

  lemma {:induction false} TriangleTwice(n: nat)
    ensures 2 * Triangle(n) == n * (n + 1)
  {
    if n > 0 { TriangleTwice(n - 1); }
  }

  lemma {:induction false} WrappedSumIsTriangle(n: nat)
    ensures WrappedSum(n) == Wrap(Triangle(n))
  {
    hide Wrap;
    if n == 0 {
      WrapUnique(0, 0);
    } else {
      WrappedSumIsTriangle(n - 1);
      WrapAdd(Triangle(n - 1), n);
    }
  }

  /** The closed form always halves the wrapped double of the sum. */
  lemma ClosedForm(n: nat)
    requires IsI64(n)
    ensures ReduceUnary(SumRange, n) == Halve(Wrap(2 * Triangle(n)))
  {
    hide Wrap;
    WrapMul(n, n + 1);
    TriangleTwice(n);
  }

  lemma HalveDouble(t: int)
    ensures -TWO62 <= Wrap(t) < TWO62 ==> Halve(Wrap(2 * t)) == Wrap(t)
    ensures -TWO62 <= Halve(Wrap(2 * t)) < TWO62
  {
    var w := Wrap(2 * t);
    var k := (w - 2 * t) / TWO64;
    assert w == 2 * (t + k * TWO63);
    if -TWO62 <= Wrap(t) < TWO62 {
      var j := (Wrap(t) - t) / TWO64;
      assert 2 * Wrap(t) == 2 * t + 2 * j * TWO64;
      Multiple(2 * j);
      WrapUnique(2 * t, 2 * Wrap(t));
    }
  }

  /**
   The oracle's closed form is the wrapped sum exactly when the triangular number,
   reduced modulo 2^64 to a signed word, fits 63 bits.
   */
  lemma SumRangeExact(n: nat)
    requires IsI64(n)
    ensures ReduceUnary(SumRange, n) == WrappedSum(n) <==>
              (n * (n + 1) / 2 + TWO62) % TWO64 < TWO63
  {
    hide *;
    ClosedForm(n);
    WrappedSumIsTriangle(n);
    HalveDouble(Triangle(n));
    TriangleTwice(n);
    assert n * (n + 1) / 2 == Triangle(n);
    Fits63(Triangle(n));
  }

  lemma Fits63(t: int)
    ensures -TWO62 <= Wrap(t) < TWO62 <==> (t + TWO62) % TWO64 < TWO63
  {
  }

  lemma MulMonotone(m: nat, n: nat)
    requires m <= n
    ensures m * (m + 1) <= n * (n + 1)
  {
  }

  lemma BelowBound(t: int)
    requires 0 <= t < TWO62
    ensures (t + TWO62) % TWO64 < TWO63 && Wrap(t) == t
  {
  }

  lemma AboveBound(t: int)
    requires TWO62 <= t < 3 * TWO62
    ensures (t + TWO62) % TWO64 >= TWO63
  {
  }

  /** The closed form is right for every input up to 3037000499 ... */
  lemma {:induction false} SumRangeCorrect(n: nat)
    requires n <= 3037000499
    ensures IsI64(n) && ReduceUnary(SumRange, n) == WrappedSum(n) == Triangle(n)
  {
    assert IsI64(n);
    hide *;
    MulMonotone(n, 3037000499);
    TriangleTwice(n);
    BelowBound(Triangle(n));
    assert n * (n + 1) / 2 == Triangle(n);
    SumRangeExact(n);
    WrappedSumIsTriangle(n);
  }

  /** ... and wrong for the inputs just above it, which external cases may name. */
  lemma {:induction false} SumRangeWrong(n: nat)
    requires 3037000500 <= n <= 5260239168
    ensures IsI64(n) && ReduceUnary(SumRange, n) != WrappedSum(n)
  {
    assert IsI64(n);
    hide *;
    MulMonotone(3037000500, n);
    MulMonotone(n, 5260239168);
    TriangleTwice(n);
    assert n * (n + 1) / 2 == Triangle(n);
    AboveBound(Triangle(n));
    SumRangeExact(n);
  }
}
