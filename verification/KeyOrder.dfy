/**
 The order of object keys: comparing scalar values one by one, as the model does, is
 comparing the bytes of the keys' UTF-8 (section 3 of RFC 3629), as the source does.
 */
module KeyOrder {
  import opened CanonicalJson
  import JsonRoundTrip

  function Utf8Text(s: Text): (t: seq<Byte>)
  {
    if s == [] then [] else Utf8(s[0]) + Utf8Text(s[1..])
  }

  /** `a` and `b` agree up to position `i`, where `a` ends or has the smaller byte. */
  predicate DiffersAt(a: seq<Byte>, b: seq<Byte>, i: nat)
  {
    && i <= |a| && i < |b| && (forall k | 0 <= k < i :: a[k] == b[k])
    && (i < |a| ==> a[i] < b[i])
  }

  /** Order of byte strings. */
  ghost predicate BytesLess(a: seq<Byte>, b: seq<Byte>)
  {
    exists i: nat :: DiffersAt(a, b, i)
  }

  lemma LessOneWay(a: seq<Byte>, b: seq<Byte>)
    requires BytesLess(a, b)
    ensures !BytesLess(b, a) && a != b
  {
    var i: nat :| DiffersAt(a, b, i);
  }

  /** The last base-64 digit decides between numbers that agree above it. */
  lemma LastDigit(c: nat, d: nat)
    requires c < d
    ensures c / 0x40 < d / 0x40 || (c / 0x40 == d / 0x40 && c % 0x40 < d % 0x40)
  {
  }

  lemma Quotients(c: nat)
    ensures c / 0x1000 == c / 0x40 / 0x40 && c / 0x4_0000 == c / 0x1000 / 0x40
  {
  }

  lemma TwoBytes(c: Scalar, d: Scalar)
    requires 0x80 <= c < d < 0x800
    ensures DiffersAt(Utf8(c), Utf8(d), if c / 0x40 != d / 0x40 then 0 else 1)
  {
    LastDigit(c, d);
  }

  lemma ThreeBytes(c: Scalar, d: Scalar)
    requires 0x800 <= c < d < 0x1_0000
    ensures DiffersAt(Utf8(c), Utf8(d), if c / 0x1000 != d / 0x1000 then 0 else if c / 0x40 != d / 0x40 then 1 else 2)
  {
    LastDigit(c, d);
    if c / 0x40 != d / 0x40 { LastDigit(c / 0x40, d / 0x40); }
    Quotients(c);
    Quotients(d);
    ThreeCompared(c, d, c / 0x1000, d / 0x1000, c / 0x40, d / 0x40);
  }

  /** Which of three bytes differs first, with the quotients named. */
  lemma ThreeCompared(c: Scalar, d: Scalar, c2: nat, d2: nat, c1: nat, d1: nat)
    requires 0x800 <= c < d < 0x1_0000
    requires c2 == c / 0x1000 && d2 == d / 0x1000 && c1 == c / 0x40 && d1 == d / 0x40
    requires c1 < d1 || (c1 == d1 && c % 0x40 < d % 0x40)
    requires c1 != d1 ==> c2 < d2 || (c2 == d2 && c1 % 0x40 < d1 % 0x40)
    requires c1 == d1 ==> c2 == d2
    ensures DiffersAt(Utf8(c), Utf8(d), if c2 != d2 then 0 else if c1 != d1 then 1 else 2)
  {
    var x, y := Utf8(c), Utf8(d);
    assert x[0] == 0xE0 + c2 && x[1] == 0x80 + c1 % 0x40 && x[2] == 0x80 + c % 0x40;
    assert y[0] == 0xE0 + d2 && y[1] == 0x80 + d1 % 0x40 && y[2] == 0x80 + d % 0x40;
    hide Utf8;
  }

  lemma FourBytes(c: Scalar, d: Scalar)
    requires 0x1_0000 <= c < d
    ensures DiffersAt(Utf8(c), Utf8(d),
              if c / 0x4_0000 != d / 0x4_0000 then 0 else if c / 0x1000 != d / 0x1000 then 1
              else if c / 0x40 != d / 0x40 then 2 else 3)
  {
    LastDigit(c, d);
    Quotients(c);
    Quotients(d);
    if c / 0x40 != d / 0x40 {
      LastDigit(c / 0x40, d / 0x40);
      if c / 0x1000 != d / 0x1000 { LastDigit(c / 0x1000, d / 0x1000); }
    }
    FourCompared(c, d, c / 0x4_0000, d / 0x4_0000, c / 0x1000, d / 0x1000, c / 0x40, d / 0x40);
  }

  lemma FourCompared(c: Scalar, d: Scalar, c3: nat, d3: nat, c2: nat, d2: nat, c1: nat, d1: nat)
    requires 0x1_0000 <= c < d && c3 == c / 0x4_0000 && d3 == d / 0x4_0000
    requires c2 == c / 0x1000 && d2 == d / 0x1000 && c1 == c / 0x40 && d1 == d / 0x40
    requires c1 < d1 || (c1 == d1 && c % 0x40 < d % 0x40)
    requires c1 != d1 ==> c2 < d2 || (c2 == d2 && c1 % 0x40 < d1 % 0x40)
    requires c2 != d2 ==> c3 < d3 || (c3 == d3 && c2 % 0x40 < d2 % 0x40)
    requires (c1 == d1 ==> c2 == d2) && (c2 == d2 ==> c3 == d3)
    ensures DiffersAt(Utf8(c), Utf8(d),
              if c3 != d3 then 0 else if c2 != d2 then 1 else if c1 != d1 then 2 else 3)
  {
    var x, y := Utf8(c), Utf8(d);
    assert x[0] == 0xF0 + c3 && x[1] == 0x80 + c2 % 0x40 && x[2] == 0x80 + c1 % 0x40 && x[3] == 0x80 + c % 0x40;
    assert y[0] == 0xF0 + d3 && y[1] == 0x80 + d2 % 0x40 && y[2] == 0x80 + d1 % 0x40 && y[3] == 0x80 + d % 0x40;
    hide Utf8;
  }

  /** Fewer bytes, smaller lead byte. */
  lemma LeadOrder(c: Scalar, d: Scalar)
    requires c < d && (c < 0x80 || |Utf8(c)| != |Utf8(d)|)
    ensures DiffersAt(Utf8(c), Utf8(d), 0)
  {
  }

  lemma Lengths(c: Scalar)
    ensures |Utf8(c)| == if c < 0x80 then 1 else if c < 0x800 then 2 else if c < 0x1_0000 then 3 else 4
  {
  }

  /** The bytes of a larger character are larger, and neither is a prefix of the other. */
  lemma CharOrder(c: Scalar, d: Scalar) returns (i: nat)
    requires c < d
    ensures i < |Utf8(c)| && DiffersAt(Utf8(c), Utf8(d), i)
  {
    Lengths(c);
    Lengths(d);
    hide Utf8;
    hide DiffersAt;
    if c < 0x80 || |Utf8(c)| != |Utf8(d)| {
      LeadOrder(c, d);
      i := 0;
    } else if c < 0x800 {
      TwoBytes(c, d);
      i := if c / 0x40 != d / 0x40 then 0 else 1;
    } else if c < 0x1_0000 {
      ThreeBytes(c, d);
      i := if c / 0x1000 != d / 0x1000 then 0 else if c / 0x40 != d / 0x40 then 1 else 2;
    } else {
      FourBytes(c, d);
      i := if c / 0x4_0000 != d / 0x4_0000 then 0 else if c / 0x1000 != d / 0x1000 then 1
           else if c / 0x40 != d / 0x40 then 2 else 3;
    }
  }

  lemma Prefixed(p: seq<Byte>, a: seq<Byte>, b: seq<Byte>)
    requires BytesLess(a, b)
    ensures BytesLess(p + a, p + b)
  {
    var i: nat :| DiffersAt(a, b, i);
    assert DiffersAt(p + a, p + b, |p| + i);
  }

  lemma {:induction false} LessBytes(a: Text, b: Text)
    requires Less(a, b)
    ensures BytesLess(Utf8Text(a), Utf8Text(b))
  {
    var x, y := Utf8Text(a), Utf8Text(b);
    if a == [] {
      assert DiffersAt(x, y, 0);
    } else if a[0] < b[0] {
      var i := CharOrder(a[0], b[0]);
      hide Utf8;
      assert DiffersAt(x, y, i);
    } else {
      LessBytes(a[1..], b[1..]);
      Prefixed(Utf8(a[0]), Utf8Text(a[1..]), Utf8Text(b[1..]));
    }
  }

  /** Keys are in the byte order of their UTF-8. */
  lemma LessIsByteOrder(a: Text, b: Text)
    ensures Less(a, b) <==> BytesLess(Utf8Text(a), Utf8Text(b))
  {
    JsonRoundTrip.LessTotal(a, b);
    if Less(a, b) {
      LessBytes(a, b);
    } else if a != b {
      LessBytes(b, a);
      LessOneWay(Utf8Text(b), Utf8Text(a));
    }
  }
}
