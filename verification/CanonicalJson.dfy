/**
 The canonical JSON encoder behind every content hash
 (crates/semasm-agent/src/lib.rs): keys sorted, no white space, and the escapes
 of section 7 of RFC 8259.
 */
module CanonicalJson {
  type Byte = b: int | 0 <= b < 256

  /** A Unicode scalar value, the source's `char`. */
  type Scalar = c: int | (0 <= c < 0xD800) || (0xE000 <= c < 0x11_0000)

  type Text = seq<Scalar>

  /** Integers print in decimal; a finite double stands for its shortest printed form. */
  datatype Number = PosInt(n: nat) | NegInt(magnitude: nat) | Float(printed: seq<Byte>)

  datatype Member = Member(key: Text, value: Value)

  /** Object members stand in the order the map yields them. */
  datatype Value =
    | Null
    | Bool(b: bool)
    | Num(num: Number)
    | Str(text: Text)
    | Arr(items: seq<Value>)
    | Obj(members: seq<Member>)

  // ----- what a value is, whatever the order of its members -----

  datatype Tree =
    | NullT
    | BoolT(b: bool)
    | NumT(num: Number)
    | StrT(text: Text)
    | ArrT(items: seq<Tree>)
    | ObjT(members: map<Text, Tree>)

  /** Keys of one object are distinct, as in any map. */
  predicate DistinctKeys(ms: seq<Member>)
  {
    forall i, j | 0 <= i < j < |ms| :: ms[i].key != ms[j].key
  }

  predicate IsDigit(b: Byte)
  {
    48 <= b <= 57
  }

  /** Characters a printed number is made of: digits, `-`, `+`, `.`, `e`. */
  predicate IsNumeric(b: Byte)
  {
    IsDigit(b) || b == 45 || b == 43 || b == 46 || b == 101
  }

  predicate AllNumeric(t: seq<Byte>)
  {
    forall i | 0 <= i < |t| :: IsNumeric(t[i])
  }

  predicate HasPointOrExponent(t: seq<Byte>)
  {
    exists i | 0 <= i < |t| :: t[i] == 46 || t[i] == 101
  }

  predicate WfNumber(n: Number)
  {
    match n
    case PosInt(_) => true
    case NegInt(m) => m > 0
    case Float(t) =>
      t != [] && AllNumeric(t) && (IsDigit(t[0]) || t[0] == 45) && HasPointOrExponent(t)
  }

  predicate Wf(v: Value)
  {
    match v
    case Num(n) => WfNumber(n)
    case Arr(items) => forall i | 0 <= i < |items| :: Wf(items[i])
    case Obj(ms) => DistinctKeys(ms) && forall i | 0 <= i < |ms| :: Wf(ms[i].value)
    case _ => true
  }

  predicate HasKey(ms: seq<Member>, k: Text)
  {
    exists i | 0 <= i < |ms| :: ms[i].key == k
  }

  /** Position of the member a lookup by key finds. */
  function Find(ms: seq<Member>, k: Text): (i: nat)
    requires HasKey(ms, k)
    ensures i < |ms| && ms[i].key == k
  {
    if ms[0].key == k then 0 else Find(ms[1..], k) + 1
  }

  function KeySet(ms: seq<Member>): (ks: set<Text>)
    ensures forall k :: k in ks <==> HasKey(ms, k)
  {
    set i | 0 <= i < |ms| :: ms[i].key
  }

  ghost function Meaning(v: Value): (t: Tree)
  {
    match v
    case Null => NullT
    case Bool(b) => BoolT(b)
    case Num(n) => NumT(n)
    case Str(s) => StrT(s)
    case Arr(items) => ArrT(seq(|items|, i requires 0 <= i < |items| => Meaning(items[i])))
    case Obj(ms) => ObjT(map k | k in KeySet(ms) :: Meaning(ms[Find(ms, k)].value))
  }

  // ----- key order -----

  predicate Less(a: Text, b: Text)
  {
    b != [] && (a == [] || a[0] < b[0] || (a[0] == b[0] && Less(a[1..], b[1..])))
  }

  predicate Sorted(ks: seq<Text>)
  {
    forall i, j | 0 <= i < j < |ks| :: Less(ks[i], ks[j])
  }

  function InsertKey(ks: seq<Text>, k: Text): (r: seq<Text>)
    ensures |r| == |ks| + 1
    ensures forall x :: x in r <==> x == k || x in ks
  {
    if ks == [] then [k]
    else if Less(ks[|ks| - 1], k) then ks + [k]
    else
      var init, last := ks[..|ks| - 1], ks[|ks| - 1];
      assert ks == init + [last];
      InsertKey(init, k) + [last]
  }

  function SortedKeys(ms: seq<Member>): (ks: seq<Text>)
    ensures |ks| == |ms|
    ensures forall k :: k in ks <==> HasKey(ms, k)
  {
    if ms == [] then []
    else
      var init, last := ms[..|ms| - 1], ms[|ms| - 1];
      assert ms == init + [last];
      InsertKey(SortedKeys(init), last.key)
  }

  // ----- the encoding -----

  function Decimal(n: nat): (t: seq<Byte>)
    ensures t != [] && forall i | 0 <= i < |t| :: IsDigit(t[i])
  {
    if n < 10 then [48 + n] else Decimal(n / 10) + [48 + n % 10]
  }

  function NumberText(n: Number): (t: seq<Byte>)
  {
    match n
    case PosInt(k) => Decimal(k)
    case NegInt(m) => [45] + Decimal(m)
    case Float(printed) => printed
  }

  function Utf8(c: Scalar): (t: seq<Byte>)
  {
    if c < 0x80 then [c]
    else if c < 0x800 then [0xC0 + c / 0x40, 0x80 + c % 0x40]
    else if c < 0x1_0000 then [0xE0 + c / 0x1000, 0x80 + c / 0x40 % 0x40, 0x80 + c % 0x40]
    else [0xF0 + c / 0x4_0000, 0x80 + c / 0x1000 % 0x40, 0x80 + c / 0x40 % 0x40, 0x80 + c % 0x40]
  }

  function HexDigit(d: nat): (b: Byte)
    requires d < 16
  {
    if d < 10 then 48 + d else 87 + d
  }

  function EncChar(c: Scalar): (t: seq<Byte>)
    ensures t != []
  {
    if c == 34 then [92, 34]
    else if c == 92 then [92, 92]
    else if c == 10 then [92, 110]
    else if c == 13 then [92, 114]
    else if c == 9 then [92, 116]
    else if c < 0x20 then [92, 117, 48, 48, HexDigit(c / 16), HexDigit(c % 16)]
    else Utf8(c)
  }

  function EncChars(s: Text): (t: seq<Byte>)
  {
    if s == [] then [] else EncChar(s[0]) + EncChars(s[1..])
  }

  function EncStr(s: Text): (t: seq<Byte>)
    ensures t != [] && t[0] == 34
  {
    [34] + EncChars(s) + [34]
  }

  function Separator(i: nat): (t: seq<Byte>)
  {
    if i > 0 then [44] else []
  }

  function Enc(v: Value): (t: seq<Byte>)
    decreases v, 2, 0
  {
    match v
    case Null => [110, 117, 108, 108]
    case Bool(b) => if b then [116, 114, 117, 101] else [102, 97, 108, 115, 101]
    case Num(n) => NumberText(n)
    case Str(s) => EncStr(s)
    case Arr(items) => [91] + EncItems(v, 0) + [93]
    case Obj(ms) => [123] + EncMembers(v, SortedKeys(ms), 0) + [125]
  }

  /** The items from position `i` on, each after its separator. */
  function EncItems(v: Value, i: nat): (t: seq<Byte>)
    requires v.Arr? && i <= |v.items|
    decreases v, 1, |v.items| - i
  {
    if i == |v.items| then [] else Separator(i) + Enc(v.items[i]) + EncItems(v, i + 1)
  }

  /** The members from the `i`th key on. */
  function EncMembers(v: Value, ks: seq<Text>, i: nat): (t: seq<Byte>)
    requires v.Obj? && i <= |ks| && forall k | k in ks :: HasKey(v.members, k)
    decreases v, 1, |ks| - i
  {
    if i == |ks| then []
    else
      Separator(i) + EncMember(v, ks[i]) +
      EncMembers(v, ks, i + 1)
  }

  function EncMember(v: Value, key: Text): (t: seq<Byte>)
    requires v.Obj? && HasKey(v.members, key)
    decreases v, 0, 0
  {
    EncStr(key) + [58] + Enc(v.members[Find(v.members, key)].value)
  }

  // ----- the writer -----

  class Buffer {
    var bytes: seq<Byte>

    constructor ()
      ensures bytes == []
    {
      bytes := [];
    }

    method Extend(t: seq<Byte>)
      modifies this
      ensures bytes == old(bytes) + t
    {
      bytes := bytes + t;
    }
  }

  method WriteString(buf: Buffer, s: Text)
    modifies buf
    ensures buf.bytes == old(buf.bytes) + EncStr(s)
  {
    hide EncChar;
    ghost var start := buf.bytes + [34];
    buf.Extend([34]);
    for i := 0 to |s|
      invariant buf.bytes + EncChars(s[i..]) == start + EncChars(s)
    {
      assert s[i..][0] == s[i] && s[i..][1..] == s[i + 1..];
      ghost var before := buf.bytes;
      buf.Extend(EncChar(s[i]));
      assert buf.bytes + EncChars(s[i + 1..]) == before + (EncChar(s[i]) + EncChars(s[i + 1..]));
    }
    assert s[|s|..] == [];
    assert buf.bytes == start + EncChars(s);
    buf.Extend([34]);
  }

  /** Appends the canonical bytes of `v` to the buffer. */
  method WriteCanonical(buf: Buffer, v: Value)
    modifies buf
    ensures buf.bytes == old(buf.bytes) + Enc(v)
    decreases v, 4
  {
    match v {
      case Null => buf.Extend([110, 117, 108, 108]);
      case Bool(b) => buf.Extend(if b then [116, 114, 117, 101] else [102, 97, 108, 115, 101]);
      case Num(n) => buf.Extend(NumberText(n));
      case Str(s) => WriteString(buf, s);
      case Arr(_) => WriteItems(buf, v);
      case Obj(_) => WriteMembers(buf, v);
    }
  }

  method WriteItems(buf: Buffer, v: Value)
    requires v.Arr?
    modifies buf
    ensures buf.bytes == old(buf.bytes) + Enc(v)
    decreases v, 2
  {
    hide *;
    ghost var start := buf.bytes;
    buf.Extend([91]);
    ghost var inside := buf.bytes;
    for i := 0 to |v.items|
      invariant buf.bytes + EncItems(v, i) == inside + EncItems(v, 0)
    {
      WriteNextItem(buf, v, i);
    }
    EncItemsUnfolds(v, |v.items|);
    assert buf.bytes == inside + EncItems(v, 0);
    buf.Extend([93]);
    EncUnfolds(v);
    Reassociate(start, [91], EncItems(v, 0), [93]);
  }

  /** One turn of the loop over items: what is written is what was still to come. */
  method WriteNextItem(buf: Buffer, v: Value, i: nat)
    requires v.Arr? && i < |v.items|
    modifies buf
    ensures buf.bytes + EncItems(v, i + 1) == old(buf.bytes) + EncItems(v, i)
    decreases v, 1
  {
    hide *;
    ghost var before := buf.bytes;
    if i > 0 { buf.Extend([44]); }
    SeparatorAt(i);
    assert buf.bytes == before + Separator(i);
    WriteCanonical(buf, v.items[i]);
    EncItemsUnfolds(v, i);
    Reassociate(before, Separator(i), Enc(v.items[i]), EncItems(v, i + 1));
  }

  method WriteMembers(buf: Buffer, v: Value)
    requires v.Obj?
    modifies buf
    ensures buf.bytes == old(buf.bytes) + Enc(v)
    decreases v, 3
  {
    hide *;
    ghost var start := buf.bytes;
    var ks := SortedKeys(v.members);
    buf.Extend([123]);
    WriteKeys(buf, v, ks);
    buf.Extend([125]);
    EncUnfolds(v);
    Reassociate(start, [123], EncMembers(v, ks, 0), [125]);
  }

  method WriteKeys(buf: Buffer, v: Value, ks: seq<Text>)
    requires v.Obj? && forall k | k in ks :: HasKey(v.members, k)
    modifies buf
    ensures buf.bytes == old(buf.bytes) + EncMembers(v, ks, 0)
    decreases v, 2
  {
    hide *;
    ghost var inside := buf.bytes;
    for i := 0 to |ks|
      invariant buf.bytes + EncMembers(v, ks, i) == inside + EncMembers(v, ks, 0)
    {
      WriteNextMember(buf, v, ks, i);
    }
    EncMembersUnfolds(v, ks, |ks|);
    assert buf.bytes == buf.bytes + [];
  }

  /** One turn of the loop over keys. */
  method WriteNextMember(buf: Buffer, v: Value, ks: seq<Text>, i: nat)
    requires v.Obj? && i < |ks| && forall k | k in ks :: HasKey(v.members, k)
    modifies buf
    ensures buf.bytes + EncMembers(v, ks, i + 1) == old(buf.bytes) + EncMembers(v, ks, i)
    decreases v, 1
  {
    hide *;
    ghost var before := buf.bytes;
    if i > 0 { buf.Extend([44]); }
    SeparatorAt(i);
    assert buf.bytes == before + Separator(i);
    WriteMember(buf, v, ks[i]);
    EncMembersUnfolds(v, ks, i);
    Reassociate(before, Separator(i), EncMember(v, ks[i]), EncMembers(v, ks, i + 1));
  }

  method WriteMember(buf: Buffer, v: Value, key: Text)
    requires v.Obj? && HasKey(v.members, key)
    modifies buf
    ensures buf.bytes == old(buf.bytes) + EncMember(v, key)
    decreases v, 0
  {
    hide EncStr;
    hide Enc;
    hide Find;
    var value := v.members[Find(v.members, key)].value;
    ghost var start := buf.bytes;
    WriteString(buf, key);
    buf.Extend([58]);
    assert buf.bytes == start + (EncStr(key) + [58]);
    WriteCanonical(buf, value);
    Reassociate(start, EncStr(key) + [58], Enc(value), []);
  }

  lemma Reassociate(a: seq<Byte>, b: seq<Byte>, c: seq<Byte>, d: seq<Byte>)
    ensures a + b + c + d == a + (b + c + d)
    ensures a + b + c == a + (b + c)
  {
  }

  // One-step unfoldings of the mutually recursive encoding.

  lemma SeparatorAt(i: nat)
    ensures Separator(i) == if i > 0 then [44] else []
  {
  }

  lemma EncUnfolds(v: Value)
    ensures v.Arr? ==> Enc(v) == [91] + EncItems(v, 0) + [93]
    ensures v.Obj? ==> Enc(v) == [123] + EncMembers(v, SortedKeys(v.members), 0) + [125]
  {
  }

  lemma EncItemsUnfolds(v: Value, i: nat)
    requires v.Arr? && i <= |v.items|
    ensures i == |v.items| ==> EncItems(v, i) == []
    ensures i < |v.items| ==>
              EncItems(v, i) == Separator(i) + Enc(v.items[i]) + EncItems(v, i + 1)
  {
    hide Enc;
    hide Separator;
  }

  lemma EncMembersUnfolds(v: Value, ks: seq<Text>, i: nat)
    requires v.Obj? && i <= |ks| && forall k | k in ks :: HasKey(v.members, k)
    ensures i == |ks| ==> EncMembers(v, ks, i) == []
    ensures i < |ks| ==>
              EncMembers(v, ks, i) ==
              Separator(i) + EncMember(v, ks[i]) +
              EncMembers(v, ks, i + 1)
  {
    hide Enc;
    hide Separator;
    hide EncStr;
    hide Find;
  }

  method Canonical(v: Value) returns (t: seq<Byte>)
    ensures t == Enc(v)
  {
    var buf := new Buffer();
    WriteCanonical(buf, v);
    t := buf.bytes;
  }
}
