/**
 What a write harness must leave in its guarded regions, byte by byte
 (crates/semasm-agent/src/harness.rs): the replaced, filled or copied bytes between
 intact guards, and that a routine which does nothing is found out.
 */
module WritePayloads {
  import opened Basics
  import opened CanonicalJson
  import opened IntegerOracles
  import opened Evaluator
  import opened Shapes
  import opened Fixtures

  /** The bytes between the guards of the region that starts at `at`. */
  function Payload(echo: seq<Byte>, at: nat, n: nat): (b: seq<Byte>)
    requires at + n + 2 <= |echo|
  {
    echo[at + 1..at + 1 + n]
  }

  /** Positions at which two buffers differ. */
  function Changes(a: seq<Byte>, b: seq<Byte>): (n: nat)
    requires |a| == |b|
  {
    if a == [] then 0
    else Changes(a[..|a| - 1], b[..|b| - 1]) + if a[|a| - 1] != b[|b| - 1] then 1 else 0
  }

  /** `b` is `a` with every `k` turned into `r` and nothing else touched. */
  predicate IsReplacement(a: seq<Byte>, k: Byte, r: Byte, b: seq<Byte>)
  {
    |b| == |a| && forall i | 0 <= i < |a| :: b[i] == if a[i] == k then r else a[i]
  }

  // ----- replacing -----

  /** For every replace vector: guards, length and each byte in between. */
  lemma ReplacePayload(v: TestVector)
    ensures var echo, xs := Echo(ReplaceByte, v), BufferOf(v, 0);
            && |echo| == |xs| + 2 && echo[0] == 0xA5 && echo[|xs| + 1] == 0x5A
            && IsReplacement(xs, U64At(v, 2) % 256, U64At(v, 3) % 256, Payload(echo, 0, |xs|))
  {
    hide AsU64;
    hide ItemsAt;
    hide U64At;
    hide MaskedByte;
  }

  lemma {:induction false} ReplacementCounts(a: seq<Byte>, k: Byte, r: Byte, b: seq<Byte>)
    requires IsReplacement(a, k, r, b)
    ensures Changes(a, b) == if k == r then 0 else CountOf(a, k)
    ensures k != r ==> k !in b
  {
    if a != [] { ReplacementCounts(a[..|a| - 1], k, r, b[..|b| - 1]); }
  }

  /**
   A replace fixture that claims what its oracle does asks for one result: the number of
   bytes the expected payload changes, when the replacement is another byte.
   */
  lemma ReplaceWordIsChanges(v: TestVector)
    requires ReplaceClaim(v) && |BufferOf(v, 0)| < TWO63 && U64At(v, 2) % 256 != U64At(v, 3) % 256
    ensures |Echo(ReplaceByte, v)| == |BufferOf(v, 0)| + 2
    ensures ExpectedBits(v.expected) ==
            Changes(BufferOf(v, 0), Payload(Echo(ReplaceByte, v), 0, |BufferOf(v, 0)|))
  {
    ReplacePayload(v);
    var xs := BufferOf(v, 0);
    ReplacementCounts(xs, U64At(v, 2) % 256, U64At(v, 3) % 256, Payload(Echo(ReplaceByte, v), 0, |xs|));
    CountAtMost(xs, U64At(v, 2) % 256);
    hide BufferOf;
    hide Echo;
    JsonIntBack(CountOf(xs, U64At(v, 2) % 256));
    hide JsonInt;
    hide CountOf;
  }

  lemma {:induction false} CountAtMost(b: seq<Byte>, x: Byte)
    ensures CountOf(b, x) <= |b|
  {
    if b != [] { CountAtMost(b[..|b| - 1], x); }
  }

  /** The region of a routine that leaves the vector's buffer alone. */
  function IdleRegion(v: TestVector): (b: seq<Byte>)
  {
    Guarded(BufferOf(v, 0))
  }

  /** Doing nothing is right exactly where nothing is to be replaced. */
  lemma IdleRight(v: TestVector)
    ensures IdleRegion(v) == Echo(ReplaceByte, v) <==>
            U64At(v, 2) % 256 == U64At(v, 3) % 256 || CountOf(BufferOf(v, 0), U64At(v, 2) % 256) == 0
  {
    ReplacePayload(v);
    hide BufferOf;
    hide Echo;
    hide U64At;
    hide CountOf;
    var xs, echo, k, r := BufferOf(v, 0), Echo(ReplaceByte, v), U64At(v, 2) % 256, U64At(v, 3) % 256;
    var payload := Payload(echo, 0, |xs|);
    ReplacementCounts(xs, k, r, payload);
    hide IsReplacement;
    hide Changes;
    ChangesNone(xs, payload);
    assert echo == Guarded(payload);
    TailEqual([GUARD_PRE], [GUARD_PRE], xs + [GUARD_POST], payload + [GUARD_POST]);
    assert Guarded(xs) == [GUARD_PRE] + (xs + [GUARD_POST]);
    assert Guarded(payload) == [GUARD_PRE] + (payload + [GUARD_POST]);
    TailEqual(xs, payload, [GUARD_POST], [GUARD_POST]);
  }

  lemma IdleReplaceVector(t: Title, b: Option<seq<Byte>>, k: Byte, r: Byte, n: int)
    ensures var v := ReplaceVector(t, b, k, r, n);
            IdleRegion(v) == Echo(ReplaceByte, v) <==> k == r || CountOf(Contents(b), k) == 0
  {
    var v := ReplaceVector(t, b, k, r, n);
    ReplaceVectorReads(t, b, k, r, n);
    JsonIntBack(r);
    assert U64At(v, 3) == r;
    hide *;
    IdleRight(v);
  }

  lemma {:induction false} ChangesNone(a: seq<Byte>, b: seq<Byte>)
    requires |a| == |b|
    ensures Changes(a, b) == 0 <==> a == b
  {
    if a != [] {
      ChangesNone(a[..|a| - 1], b[..|b| - 1]);
      assert a == a[..|a| - 1] + [a[|a| - 1]] && b == b[..|b| - 1] + [b[|b| - 1]];
    }
  }

  /** Leaving every buffer alone meets the replace fixtures if and only if there is nothing to replace. */
  lemma IdleReplaceExact(s: ReplaceShape)
    ensures (forall i | 0 <= i < |ReplaceVectors(s)| ::
               IdleRegion(ReplaceVectors(s)[i]) == Echo(ReplaceByte, ReplaceVectors(s)[i])) <==>
            s.needle == s.replacement
  {
    var k, r, most := s.needle, s.replacement, MaxReplaceBuffer(s);
    CountSmall(k, k, k, k);
    hide ReplaceVector;
    hide MaxReplaceBuffer;
    hide CountOf;
    hide NextByte;
    hide IdleRegion;
    hide Echo;
    IdleReplaceVector(EmptyInput, None, k, r, 0);
    IdleReplaceVector(OneByteMatch, Some([k]), k, r, 1);
    IdleReplaceVector(OneByteMiss, Some([NextByte(k)]), k, r, 0);
    IdleReplaceVector(MixedHits, Some([k, 1, k, 2, k]), k, r, 3);
    IdleReplaceVector(Longest, Some(most), k, r, CountOf(most, k));
    var vs := ReplaceVectors(s);
    assert vs[1] == ReplaceVector(OneByteMatch, Some([k]), k, r, 1);
  }

  /** A complete run of such a routine does not pass, whatever words it returns. */
  lemma IdleReplaceRunFails(s: ReplaceShape, os: seq<Outcome>)
    requires s.needle != s.replacement && |os| == |ReplaceVectors(s)|
    requires forall i | 0 <= i < |os| :: os[i].word < TWO64 && os[i].regions == IdleRegion(ReplaceVectors(s)[i])
    ensures !Begins(HarnessOutput(ReplaceByte, os), Expected(ReplaceByte, ReplaceVectors(s)))
  {
    var vs := ReplaceVectors(s);
    IdleReplaceExact(s);
    hide ReplaceVectors;
    hide HarnessOutput;
    hide Expected;
    hide Begins;
    forall i | 0 <= i < |os| ensures |os[i].regions| == |Echo(ReplaceByte, vs[i])| {
      ReplacePayload(vs[i]);
    }
    hide Echo;
    HarnessPasses(ReplaceByte, os, vs);
  }

  // ----- filling -----

  /** For every vector: as many bytes as asked for, each the fill byte. */
  lemma FillPayload(v: TestVector)
    ensures var echo, n := Echo(Memset, v), U64At(v, 1);
            && |echo| == n + 2 && echo[0] == 0xA5 && echo[n + 1] == 0x5A
            && forall i | 0 <= i < n :: Payload(echo, 0, n)[i] == U64At(v, 2) % 256
  {
    hide U64At;
  }

  /** The memset fixtures ask for the whole buffer to hold the value, and the result 0. */
  lemma FillFixtures(s: MemsetShape, i: nat)
    requires i < |MemsetVectors(s)|
    ensures var v := MemsetVectors(s)[i];
            U64At(v, 1) == |BufferOf(v, 0)| && U64At(v, 2) == s.value && ExpectedBits(v.expected) == 0
  {
    hide Repeat;
    hide NextByte;
    var row := MemsetRows(s)[i];
    var v := ScanVector(row.title, row.buf, s.value, row.expected);
    assert v == MemsetVectors(s)[i];
    BufferBack(v, 0, row.buf);
    JsonIntBack(|Contents(row.buf)|);
    JsonIntBack(s.value);
    ExpectedMeaning(0);
    assert row.expected == 0;
    hide JsonInt;
    hide BufferOf;
    hide BufferArg;
  }

  // ----- copying -----

  /** For every vector: the destination is read modulo 256 and comes first, the source is capped at 255. */
  lemma CopyRegions(v: TestVector, i: nat)
    requires i < |ItemsAt(v, 1)|
    ensures var echo, n, item := Echo(Memcpy, v), |ItemsAt(v, 1)|, AsU64(ItemsAt(v, 1)[i]);
            var x := if item.Some? then item.value else 0;
            && |echo| == 2 * n + 4
            && Payload(echo, 0, n)[i] == x % 256
            && Payload(echo, n + 2, n)[i] == if x < 255 then x else 255
  {
    hide AsU64;
    hide ItemsAt;
  }

  /** For every copy of bytes: the destination holds the source, and the source is as it was. */
  lemma CopyPayload(t: Title, a: Option<seq<Byte>>, b: Option<seq<Byte>>, n: int)
    ensures var echo, xs := Echo(Memcpy, PairVector(t, a, b, n)), Contents(b);
            && |echo| == 2 * |xs| + 4
            && echo[0] == 0xA5 && echo[|xs| + 1] == 0x5A
            && echo[|xs| + 2] == 0xA5 && echo[2 * |xs| + 3] == 0x5A
            && Payload(echo, 0, |xs|) == xs && Payload(echo, |xs| + 2, |xs|) == xs
  {
    var v := PairVector(t, a, b, n);
    CopyReads(t, a, b, n);
    hide BufferOf;
    hide PairVector;
    hide CopiedBuffer;
    hide SourceBuffer;
    var xs, echo := Contents(b), Echo(Memcpy, v);
    assert Payload(echo, 0, |xs|) == xs;
    assert Payload(echo, |xs| + 2, |xs|) == xs;
  }

  lemma CopyReads(t: Title, a: Option<seq<Byte>>, b: Option<seq<Byte>>, n: int)
    ensures CopiedBuffer(PairVector(t, a, b, n)) == Contents(b) && SourceBuffer(PairVector(t, a, b, n)) == Contents(b)
  {
    var v, xs := PairVector(t, a, b, n), Contents(b);
    BufferBack(v, 1, b);
    hide JsonInt;
    hide BufferArg;
    forall i | 0 <= i < |xs| ensures MaskedByte(ItemsAt(v, 1)[i]) == xs[i] && ClampedByte(ItemsAt(v, 1)[i]) == xs[i] {
      ItemReads(v, b, i);
    }
    hide PairVector;
    CopiedIs(v, xs);
  }

  lemma ItemReads(v: TestVector, b: Option<seq<Byte>>, i: nat)
    requires 1 < |v.inputs| && v.inputs[1] == BufferArg(b) && i < |Contents(b)|
    ensures i < |ItemsAt(v, 1)|
    ensures MaskedByte(ItemsAt(v, 1)[i]) == Contents(b)[i] && ClampedByte(ItemsAt(v, 1)[i]) == Contents(b)[i]
  {
    JsonIntBack(Contents(b)[i]);
    assert ItemsAt(v, 1)[i] == JsonInt(Contents(b)[i]);
    hide JsonInt;
  }

  lemma CopiedIs(v: TestVector, xs: seq<Byte>)
    requires |ItemsAt(v, 1)| == |xs|
    requires forall i | 0 <= i < |xs| :: MaskedByte(ItemsAt(v, 1)[i]) == xs[i] && ClampedByte(ItemsAt(v, 1)[i]) == xs[i]
    ensures CopiedBuffer(v) == xs && SourceBuffer(v) == xs
  {
  }

  /** The memcpy fixtures copy between buffers of one length, given as such, and ask for the result 0. */
  lemma CopyFixtures(s: PairShape, i: nat)
    requires i < |MemcpyVectors(s)|
    ensures var v := MemcpyVectors(s)[i];
            |BufferOf(v, 0)| == |BufferOf(v, 1)| == U64At(v, 2) && ExpectedBits(v.expected) == 0
  {
    hide Repeat;
    hide Counting;
    var n := Capped(s.maxLength);
    ExpectedMeaning(0);
    match i
    case 0 => PairReads(EmptyInput, None, None, 0);
    case 1 => PairReads(OneByte, Some([0xEE]), Some([0x5A]), 0);
    case 2 => PairReads(ShortCopy, Some(Repeat(0xEE, 5)), Some([1, 2, 3, 4, 5]), 0);
    case _ => PairReads(Longest, Some(Repeat(0xEE, n)), Some(Counting(n)), 0);
  }

  lemma PairReads(t: Title, a: Option<seq<Byte>>, b: Option<seq<Byte>>, n: int)
    requires |Contents(b)| < TWO64
    ensures var v := PairVector(t, a, b, n);
            && BufferOf(v, 0) == Contents(a) && BufferOf(v, 1) == Contents(b)
            && U64At(v, 2) == |Contents(b)| && v.expected == JsonInt(n)
  {
    var v := PairVector(t, a, b, n);
    BufferBack(v, 0, a);
    BufferBack(v, 1, b);
    JsonIntBack(|Contents(b)|);
    hide JsonInt;
    hide BufferOf;
    hide BufferArg;
  }

  /** A copy routine that leaves its destination alone disagrees with the one-byte fixture. */
  lemma IdleCopyFails(s: PairShape)
    ensures |MemcpyVectors(s)| > 1
    ensures BufferOf(MemcpyVectors(s)[1], 0) == [0xEE] && |Echo(Memcpy, MemcpyVectors(s)[1])| == 6
    ensures Payload(Echo(Memcpy, MemcpyVectors(s)[1]), 0, 1) == [0x5A]
  {
    hide Repeat;
    hide Counting;
    var v := MemcpyVectors(s)[1];
    assert v == PairVector(OneByte, Some([0xEE]), Some([0x5A]), 0);
    BufferBack(v, 0, Some([0xEE]));
    CopyPayload(OneByte, Some([0xEE]), Some([0x5A]), 0);
  }
}
