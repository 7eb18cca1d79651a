/**
 A reader for canonical JSON, and the round trip: reading back what the encoder
 wrote gives the value it was given.  Injectivity up to key order follows.
 */
module JsonRoundTrip {
  import opened CanonicalJson

  datatype Parsed<T> = Fail | Got(value: T, rest: seq<Byte>)

  // ----- the reader -----

  function HexValue(b: Byte): (d: int)
    ensures -1 <= d < 16
  {
    if IsDigit(b) then b - 48 else if 97 <= b <= 102 then b - 87 else -1
  }

  predicate IsScalar(c: int)
  {
    0 <= c < 0xD800 || 0xE000 <= c < 0x11_0000
  }

  function Checked(c: int, rest: seq<Byte>): (r: Parsed<Scalar>)
  {
    if IsScalar(c) then Got(c, rest) else Fail
  }

  function ReadEscape(b: seq<Byte>): (r: Parsed<Scalar>)
    ensures r.Got? ==> |r.rest| < |b|
  {
    if |b| == 0 then Fail
    else if b[0] == 34 || b[0] == 92 then Got(b[0], b[1..])
    else if b[0] == 110 then Got(10, b[1..])
    else if b[0] == 114 then Got(13, b[1..])
    else if b[0] == 116 then Got(9, b[1..])
    else if b[0] == 117 && |b| >= 5 && forall i | 1 <= i < 5 :: HexValue(b[i]) >= 0 then
      Checked(((HexValue(b[1]) * 16 + HexValue(b[2])) * 16 + HexValue(b[3])) * 16 + HexValue(b[4]),
              b[5..])
    else Fail
  }

  /** Appends the six payload bits of a continuation byte to `high - mark`. */
  function Joined(high: int, mark: int, low: int): (c: int)
  {
    (high - mark) * 0x40 + (low - 0x80)
  }

  function ReadChar(b: seq<Byte>): (r: Parsed<Scalar>)
    ensures r.Got? ==> |r.rest| < |b|
  {
    if |b| == 0 then Fail
    else if b[0] == 92 then ReadEscape(b[1..])
    else if b[0] < 0x80 then Got(b[0], b[1..])
    else if 0xC0 <= b[0] < 0xE0 && |b| >= 2 then
      Checked(Joined(b[0], 0xC0, b[1]), b[2..])
    else if 0xE0 <= b[0] < 0xF0 && |b| >= 3 then
      Checked(Joined(Joined(b[0], 0xE0, b[1]), 0, b[2]), b[3..])
    else if 0xF0 <= b[0] && |b| >= 4 then
      Checked(Joined(Joined(Joined(b[0], 0xF0, b[1]), 0, b[2]), 0, b[3]), b[4..])
    else Fail
  }

  /** Characters up to and including the closing quote. */
  function ReadChars(b: seq<Byte>): (r: Parsed<Text>)
    ensures r.Got? ==> |r.rest| < |b|
    decreases |b|
  {
    if |b| == 0 then Fail
    else if b[0] == 34 then Got([], b[1..])
    else match ReadChar(b)
      case Fail => Fail
      case Got(c, rest) =>
        match ReadChars(rest)
        case Fail => Fail
        case Got(s, rest') => Got([c] + s, rest')
  }

  function NumericPrefix(b: seq<Byte>): (n: nat)
    ensures n <= |b| && forall i | 0 <= i < n :: IsNumeric(b[i])
    ensures n < |b| ==> !IsNumeric(b[n])
  {
    if |b| > 0 && IsNumeric(b[0]) then NumericPrefix(b[1..]) + 1 else 0
  }

  function DecimalValue(t: seq<Byte>): (n: nat)
    requires forall i | 0 <= i < |t| :: IsDigit(t[i])
  {
    if t == [] then 0
    else
      assert IsDigit(t[|t| - 1]);
      DecimalValue(t[..|t| - 1]) * 10 + t[|t| - 1] - 48
  }

  predicate AllDigits(t: seq<Byte>)
  {
    forall i | 0 <= i < |t| :: IsDigit(t[i])
  }

  function ReadNumber(t: seq<Byte>): (r: Parsed<Number>)
  {
    if HasPointOrExponent(t) then Got(Float(t), [])
    else if t != [] && AllDigits(t) then Got(PosInt(DecimalValue(t)), [])
    else if |t| > 1 && t[0] == 45 && AllDigits(t[1..]) then Got(NegInt(DecimalValue(t[1..])), [])
    else Fail
  }

  function Keyword(b: seq<Byte>, word: seq<Byte>, t: Tree): (r: Parsed<Tree>)
    requires word != []
    ensures r.Got? ==> |r.rest| < |b|
  {
    if |word| <= |b| && b[..|word|] == word then Got(t, b[|word|..]) else Fail
  }

  function ReadValue(b: seq<Byte>): (r: Parsed<Tree>)
    ensures r.Got? ==> |r.rest| < |b|
    decreases |b|, 0
  {
    if |b| == 0 then Fail
    else if b[0] == 110 then Keyword(b, [110, 117, 108, 108], NullT)
    else if b[0] == 116 then Keyword(b, [116, 114, 117, 101], BoolT(true))
    else if b[0] == 102 then Keyword(b, [102, 97, 108, 115, 101], BoolT(false))
    else if b[0] == 34 then
      match ReadChars(b[1..])
      case Fail => Fail
      case Got(s, rest) => Got(StrT(s), rest)
    else if b[0] == 91 then
      if |b| > 1 && b[1] == 93 then Got(ArrT([]), b[2..])
      else match ReadItems(b[1..])
        case Fail => Fail
        case Got(ts, rest) => Got(ArrT(ts), rest)
    else if b[0] == 123 then
      if |b| > 1 && b[1] == 125 then Got(ObjT(map[]), b[2..])
      else match ReadMembers(b[1..])
        case Fail => Fail
        case Got(m, rest) => Got(ObjT(m), rest)
    else
      var n := NumericPrefix(b);
      match ReadNumber(b[..n])
      case Fail => Fail
      case Got(num, _) => if n > 0 then Got(NumT(num), b[n..]) else Fail
  }

  /** One item and what follows it, up to the closing bracket. */
  function ReadItems(b: seq<Byte>): (r: Parsed<seq<Tree>>)
    ensures r.Got? ==> |r.rest| < |b|
    decreases |b|, 1
  {
    match ReadValue(b)
    case Fail => Fail
    case Got(t, rest) =>
      if |rest| == 0 then Fail
      else if rest[0] == 93 then Got([t], rest[1..])
      else if rest[0] == 44 then
        match ReadItems(rest[1..])
        case Fail => Fail
        case Got(ts, rest') => Got([t] + ts, rest')
      else Fail
  }

  function ReadMember(b: seq<Byte>): (r: Parsed<(Text, Tree)>)
    ensures r.Got? ==> |r.rest| < |b|
    decreases |b|, 1
  {
    if |b| == 0 || b[0] != 34 then Fail
    else match ReadChars(b[1..])
      case Fail => Fail
      case Got(k, rest) =>
        if |rest| == 0 || rest[0] != 58 then Fail
        else match ReadValue(rest[1..])
          case Fail => Fail
          case Got(t, rest') => Got((k, t), rest')
  }

  function ReadMembers(b: seq<Byte>): (r: Parsed<map<Text, Tree>>)
    ensures r.Got? ==> |r.rest| < |b|
    decreases |b|, 2
  {
    match ReadMember(b)
    case Fail => Fail
    case Got(kt, rest) =>
      if |rest| == 0 then Fail
      else if rest[0] == 125 then Got(map[kt.0 := kt.1], rest[1..])
      else if rest[0] == 44 then
        match ReadMembers(rest[1..])
        case Fail => Fail
        case Got(m, rest') => Got(m[kt.0 := kt.1], rest')
      else Fail
  }

  // ----- characters and strings -----

  lemma EscapeBack(c: Scalar, rest: seq<Byte>)
    requires c < 0x20 && c != 10 && c != 13 && c != 9
    ensures ReadChar(EncChar(c) + rest) == Got(c, rest)
  {
    var b := EncChar(c) + rest;
    assert b[1..] == [117, 48, 48, HexDigit(c / 16), HexDigit(c % 16)] + rest;
    assert b[1..][5..] == rest;
    assert HexValue(48) == 0;
    assert HexValue(HexDigit(c / 16)) == c / 16 && HexValue(HexDigit(c % 16)) == c % 16;
  }

  lemma JoinedBack(c: nat)
    ensures Joined(c / 0x40, 0, 0x80 + c % 0x40) == c
  {
  }

  lemma Utf8Two(c: Scalar, rest: seq<Byte>)
    requires 0x80 <= c < 0x800
    ensures ReadChar(Utf8(c) + rest) == Got(c, rest)
  {
    var b := [0xC0 + c / 0x40, 0x80 + c % 0x40] + rest;
    assert b[2..] == rest;
    JoinedBack(c);
    assert Joined(b[0], 0xC0, b[1]) == c;
  }

  lemma Utf8Three(c: Scalar, rest: seq<Byte>)
    requires 0x800 <= c < 0x1_0000
    ensures ReadChar(Utf8(c) + rest) == Got(c, rest)
  {
    var b := [0xE0 + c / 0x1000, 0x80 + c / 0x40 % 0x40, 0x80 + c % 0x40] + rest;
    assert b[3..] == rest;
    JoinedBack(c);
    JoinedBack(c / 0x40);
    assert c / 0x40 / 0x40 == c / 0x1000;
    assert Joined(b[0], 0xE0, b[1]) == c / 0x40;
    hide Joined;
  }

  lemma Utf8Four(c: Scalar, rest: seq<Byte>)
    requires 0x1_0000 <= c
    ensures ReadChar(Utf8(c) + rest) == Got(c, rest)
  {
    var b := [0xF0 + c / 0x4_0000, 0x80 + c / 0x1000 % 0x40, 0x80 + c / 0x40 % 0x40, 0x80 + c % 0x40] + rest;
    assert b[4..] == rest;
    JoinedBack(c);
    JoinedBack(c / 0x40);
    JoinedBack(c / 0x1000);
    assert c / 0x40 / 0x40 == c / 0x1000 && c / 0x1000 / 0x40 == c / 0x4_0000;
    assert Joined(b[0], 0xF0, b[1]) == c / 0x1000;
    hide Joined;
  }

  lemma Utf8Back(c: Scalar, rest: seq<Byte>)
    requires c != 92
    ensures ReadChar(Utf8(c) + rest) == Got(c, rest)
  {
    if c < 0x80 {
      assert (Utf8(c) + rest)[1..] == rest;
    } else {
      hide ReadChar;
      if c < 0x800 { Utf8Two(c, rest); }
      else if c < 0x1_0000 { Utf8Three(c, rest); }
      else { Utf8Four(c, rest); }
    }
  }

  lemma CharBack(c: Scalar, rest: seq<Byte>)
    ensures ReadChar(EncChar(c) + rest) == Got(c, rest)
    ensures (EncChar(c) + rest)[0] != 34
  {
    if c in {34, 92, 10, 13, 9} {
      var b := EncChar(c) + rest;
      assert b[1..][1..] == rest && b[1..][0] == EncChar(c)[1];
    } else if c < 0x20 {
      EscapeBack(c, rest);
    } else {
      Utf8Back(c, rest);
    }
  }

  lemma {:induction false} CharsBack(s: Text, rest: seq<Byte>)
    ensures ReadChars(EncChars(s) + [34] + rest) == Got(s, rest)
  {
    hide EncChar;
    hide ReadChar;
    var b := EncChars(s) + [34] + rest;
    if s == [] {
      assert b == [34] + rest;
    } else {
      var more := EncChars(s[1..]) + [34] + rest;
      assert b == EncChar(s[0]) + more;
      CharBack(s[0], more);
      CharsBack(s[1..], rest);
      assert [s[0]] + s[1..] == s;
    }
  }

  // ----- numbers -----

  lemma {:induction false} DecimalBack(n: nat)
    ensures DecimalValue(Decimal(n)) == n
  {
    if n >= 10 {
      DecimalBack(n / 10);
      var t := Decimal(n);
      assert t[..|t| - 1] == Decimal(n / 10);
    }
  }

  lemma NegBack(digits: seq<Byte>)
    requires digits != [] && AllDigits(digits)
    ensures AllNumeric([45] + digits)
    ensures ReadNumber([45] + digits) == Got(NegInt(DecimalValue(digits)), [])
  {
    hide DecimalValue;
    var t := [45] + digits;
    assert t[1..] == digits;
    forall i | 0 <= i < |t| ensures t[i] == 45 || IsDigit(t[i]) {
      if i > 0 { assert t[i] == digits[i - 1]; }
    }
    assert !HasPointOrExponent(t);
    assert !IsDigit(t[0]);
    assert !AllDigits(t);
  }

  lemma NumberBack(n: Number)
    requires WfNumber(n)
    ensures ReadNumber(NumberText(n)) == Got(n, [])
    ensures NumberText(n) != [] && AllNumeric(NumberText(n))
    ensures IsDigit(NumberText(n)[0]) || NumberText(n)[0] == 45
  {
    hide Decimal;
    hide DecimalValue;
    match n {
      case PosInt(k) => DecimalBack(k);
      case NegInt(m) =>
        DecimalBack(m);
        NegBack(Decimal(m));
        hide ReadNumber;
      case Float(_) =>
    }
  }

  /** What may follow a value: nothing, or a byte no number contains. */
  predicate Delimited(rest: seq<Byte>)
  {
    rest == [] || !IsNumeric(rest[0])
  }

  lemma PrefixMaximal(t: seq<Byte>, rest: seq<Byte>)
    requires AllNumeric(t) && Delimited(rest)
    ensures NumericPrefix(t + rest) == |t|
  {
    hide IsNumeric;
    var b := t + rest;
    var n := NumericPrefix(b);
    assert forall i | 0 <= i < |t| :: IsNumeric(b[i]);
    assert rest != [] ==> b[|t|] == rest[0];
  }

  lemma NumBack(n: Number, rest: seq<Byte>)
    requires WfNumber(n) && Delimited(rest)
    ensures ReadValue(NumberText(n) + rest) == Got(NumT(n), rest)
  {
    hide ReadNumber;
    hide NumericPrefix;
    NumberBack(n);
    hide NumberText;
    var t := NumberText(n);
    PrefixMaximal(t, rest);
    var b := t + rest;
    assert b[..|t|] == t && b[|t|..] == rest && b[0] == t[0];
  }

  // ----- values -----

  function FirstByte(v: Value): (b: set<int>)
  {
    match v
    case Null => {110}
    case Bool(_) => {116, 102}
    case Num(_) => {45, 48, 49, 50, 51, 52, 53, 54, 55, 56, 57}
    case Str(_) => {34}
    case Arr(_) => {91}
    case Obj(_) => {123}
  }

  lemma EncFirst(v: Value)
    requires Wf(v)
    ensures Enc(v) != [] && Enc(v)[0] in FirstByte(v) && Enc(v)[0] != 93
  {
    hide SortedKeys;
    if v.Num? { NumberBack(v.num); }
  }

  lemma KeywordBack(word: seq<Byte>, t: Tree, rest: seq<Byte>)
    requires word != []
    ensures Keyword(word + rest, word, t) == Got(t, rest)
  {
    assert (word + rest)[..|word|] == word && (word + rest)[|word|..] == rest;
  }

  // One-step unfoldings of the reader on a bracket.

  lemma ReadArray(body: seq<Byte>)
    requires body != []
    ensures ReadValue([91] + body) ==
            if body[0] == 93 then Got(ArrT([]), body[1..])
            else match ReadItems(body)
              case Fail => Fail
              case Got(ts, rest) => Got(ArrT(ts), rest)
  {
    hide ReadItems;
    var b := [91] + body;
    assert b[1..] == body && b[2..] == body[1..];
  }

  lemma ReadObject(body: seq<Byte>)
    requires body != []
    ensures ReadValue([123] + body) ==
            if body[0] == 125 then Got(ObjT(map[]), body[1..])
            else match ReadMembers(body)
              case Fail => Fail
              case Got(m, rest) => Got(ObjT(m), rest)
  {
    hide ReadMembers;
    var b := [123] + body;
    assert b[1..] == body && b[2..] == body[1..];
  }

  lemma ReadItemsStep(b: seq<Byte>, t: Tree, rest: seq<Byte>)
    requires ReadValue(b) == Got(t, rest) && rest != []
    ensures rest[0] == 93 ==> ReadItems(b) == Got([t], rest[1..])
    ensures rest[0] == 44 && ReadItems(rest[1..]).Got? ==>
              ReadItems(b) == Got([t] + ReadItems(rest[1..]).value, ReadItems(rest[1..]).rest)
  {
    hide ReadValue;
  }

  lemma ReadMembersStep(b: seq<Byte>, k: Text, t: Tree, rest: seq<Byte>)
    requires ReadMember(b) == Got((k, t), rest) && rest != []
    ensures rest[0] == 125 ==> ReadMembers(b) == Got(map[k := t], rest[1..])
    ensures rest[0] == 44 && ReadMembers(rest[1..]).Got? ==>
              ReadMembers(b) == Got(ReadMembers(rest[1..]).value[k := t], ReadMembers(rest[1..]).rest)
  {
    hide ReadMember;
  }

  lemma ReadMemberStep(k: Text, body: seq<Byte>, t: Tree, rest: seq<Byte>)
    requires ReadValue(body) == Got(t, rest)
    ensures ReadMember(EncStr(k) + [58] + body) == Got((k, t), rest)
  {
    hide ReadValue;
    hide ReadChars;
    hide EncChars;
    var b := EncStr(k) + [58] + body;
    CharsBack(k, [58] + body);
    assert b[0] == 34;
    assert b[1..] == EncChars(k) + [34] + ([58] + body);
    assert ([58] + body)[1..] == body;
  }

  /** Reading back the bytes of a value gives the value, and leaves what follows. */
  lemma {:induction false} ValueBack(v: Value, rest: seq<Byte>)
    requires Wf(v) && Delimited(rest)
    ensures ReadValue(Enc(v) + rest) == Got(Meaning(v), rest)
    decreases v, 2, 0
  {
    hide Keyword;
    hide ReadChars;
    hide ReadMembers;
    hide ReadItems;
    hide EncChars;
    hide NumberText;
    hide EncItems;
    hide EncMembers;
    match v {
      case Null => KeywordBack([110, 117, 108, 108], NullT, rest);
      case Bool(b) =>
        KeywordBack([116, 114, 117, 101], BoolT(true), rest);
        KeywordBack([102, 97, 108, 115, 101], BoolT(false), rest);
      case Num(n) => NumBack(n, rest);
      case Str(s) => StrBack(s, rest);
      case Arr(_) => ArrBack(v, rest);
      case Obj(_) => ObjBack(v, rest);
    }
  }

  lemma StrBack(s: Text, rest: seq<Byte>)
    ensures ReadValue(EncStr(s) + rest) == Got(StrT(s), rest)
  {
    hide ReadChars;
    hide EncChars;
    var b := EncStr(s) + rest;
    assert b[0] == 34;
    assert b[1..] == EncChars(s) + [34] + rest;
    CharsBack(s, rest);
  }

  lemma {:induction false} ArrBack(v: Value, rest: seq<Byte>)
    requires Wf(v) && v.Arr?
    ensures ReadValue(Enc(v) + rest) == Got(Meaning(v), rest)
    decreases v, 1, 0
  {
    hide *;
    EncUnfolds(v);
    EncItemsUnfolds(v, 0);
    ArrMeaning(v);
    var body := EncItems(v, 0) + [93] + rest;
    if v.items == [] {
      assert body[0] == 93 && body[1..] == rest;
    } else {
      ItemsBack(v, 0, rest);
      WfItem(v, 0);
      EncFirst(v.items[0]);
      SeparatorAt(0);
      assert body == Enc(v.items[0]) + EncItems(v, 1) + [93] + rest;
      assert body[0] == Enc(v.items[0])[0];
    }
    ReadArray(body);
    assert Enc(v) + rest == [91] + body;
  }

  lemma ArrMeaning(v: Value)
    requires v.Arr?
    ensures Meaning(v) == ArrT(Meanings(v, 0))
    ensures v.items == [] ==> Meanings(v, 0) == []
  {
  }

  ghost function Meanings(v: Value, i: nat): (ts: seq<Tree>)
    requires v.Arr? && i <= |v.items|
  {
    Meaning(v).items[i..]
  }

  lemma MeaningsUnfold(v: Value, i: nat)
    requires v.Arr? && i < |v.items|
    ensures Meanings(v, i) == [Meaning(v.items[i])] + Meanings(v, i + 1)
    ensures i + 1 == |v.items| ==> Meanings(v, i) == [Meaning(v.items[i])]
  {
  }

  lemma WfItem(v: Value, i: nat)
    requires Wf(v) && v.Arr? && i < |v.items|
    ensures Wf(v.items[i])
  {
  }

  lemma {:induction false} ItemsBack(v: Value, i: nat, rest: seq<Byte>)
    requires Wf(v) && v.Arr? && i < |v.items|
    ensures ReadItems(Enc(v.items[i]) + EncItems(v, i + 1) + [93] + rest) == Got(Meanings(v, i), rest)
    decreases v, 0, |v.items| - i
  {
    hide *;
    var item := v.items[i];
    var after := EncItems(v, i + 1) + [93] + rest;
    var b := Enc(item) + EncItems(v, i + 1) + [93] + rest;
    assert b == Enc(item) + after;
    WfItem(v, i);
    EncItemsUnfolds(v, i + 1);
    SeparatorAt(i + 1);
    MeaningsUnfold(v, i);
    if i + 1 == |v.items| {
      assert after == [93] + rest;
    } else {
      ItemsBack(v, i + 1, rest);
      assert after == [44] + (Enc(v.items[i + 1]) + EncItems(v, i + 2) + [93] + rest);
    }
    BracketDelimits(after);
    ValueBack(item, after);
    ReadItemsStep(b, Meaning(item), after);
    assert after[1..] == if i + 1 == |v.items| then rest
                         else Enc(v.items[i + 1]) + EncItems(v, i + 2) + [93] + rest;
  }

  lemma BracketDelimits(rest: seq<Byte>)
    requires rest != [] && rest[0] in {44, 93, 125}
    ensures Delimited(rest)
  {
  }

  ghost function MembersFrom(v: Value, ks: seq<Text>, i: nat): (m: map<Text, Tree>)
    requires v.Obj? && i <= |ks| && forall k | k in ks :: HasKey(v.members, k)
  {
    map k | k in ks[i..] :: Meaning(v.members[Find(v.members, k)].value)
  }

  lemma MembersFromUnfold(v: Value, ks: seq<Text>, i: nat)
    requires v.Obj? && i < |ks| && forall k | k in ks :: HasKey(v.members, k)
    ensures MembersFrom(v, ks, i) ==
            MembersFrom(v, ks, i + 1)[ks[i] := Meaning(v.members[Find(v.members, ks[i])].value)]
    ensures i + 1 == |ks| ==> MembersFrom(v, ks, i + 1) == map[]
  {
    hide Meaning;
    hide Find;
    hide HasKey;
    assert ks[i..] == [ks[i]] + ks[i + 1..];
  }

  lemma MembersAll(v: Value)
    requires v.Obj?
    ensures Meaning(v) == ObjT(MembersFrom(v, SortedKeys(v.members), 0))
  {
    var ks := SortedKeys(v.members);
    assert ks[0..] == ks;
    hide SortedKeys;
    hide Find;
    hide HasKey;
    assert Meaning(v).members == MembersFrom(v, ks, 0);
  }

  lemma WfMember(v: Value, k: Text)
    requires Wf(v) && v.Obj? && HasKey(v.members, k)
    ensures Wf(v.members[Find(v.members, k)].value)
  {
  }

  lemma {:induction false} MemberBack(v: Value, k: Text, rest: seq<Byte>)
    requires Wf(v) && v.Obj? && HasKey(v.members, k) && Delimited(rest)
    ensures ReadMember(EncMember(v, k) + rest) ==
            Got((k, Meaning(v.members[Find(v.members, k)].value)), rest)
    decreases v, 0, 0
  {
    var value := v.members[Find(v.members, k)].value;
    assert EncMember(v, k) == EncStr(k) + [58] + Enc(value);
    hide *;
    WfMember(v, k);
    ValueBack(value, rest);
    ReadMemberStep(k, Enc(value) + rest, Meaning(value), rest);
    Reassociate(EncStr(k) + [58], Enc(value), rest, []);
  }

  lemma {:induction false} MembersBack(v: Value, ks: seq<Text>, i: nat, rest: seq<Byte>)
    requires Wf(v) && v.Obj? && i < |ks| && forall k | k in ks :: HasKey(v.members, k)
    ensures ReadMembers(EncMember(v, ks[i]) + EncMembers(v, ks, i + 1) + [125] + rest) ==
            Got(MembersFrom(v, ks, i), rest)
    decreases v, 1, |ks| - i
  {
    hide *;
    var k := ks[i];
    var after := EncMembers(v, ks, i + 1) + [125] + rest;
    var b := EncMember(v, k) + EncMembers(v, ks, i + 1) + [125] + rest;
    assert b == EncMember(v, k) + after;
    EncMembersUnfolds(v, ks, i + 1);
    SeparatorAt(i + 1);
    MembersFromUnfold(v, ks, i);
    if i + 1 == |ks| {
      assert after == [125] + rest;
    } else {
      MembersBack(v, ks, i + 1, rest);
      assert after == [44] + (EncMember(v, ks[i + 1]) + EncMembers(v, ks, i + 2) + [125] + rest);
    }
    BracketDelimits(after);
    MemberBack(v, k, after);
    ReadMembersStep(b, k, Meaning(v.members[Find(v.members, k)].value), after);
    assert after[1..] == if i + 1 == |ks| then rest
                         else EncMember(v, ks[i + 1]) + EncMembers(v, ks, i + 2) + [125] + rest;
  }

  lemma EncMemberFirst(v: Value, k: Text)
    requires v.Obj? && HasKey(v.members, k)
    ensures EncMember(v, k) != [] && EncMember(v, k)[0] == 34
  {
    hide Enc;
    hide EncChars;
  }

  lemma {:induction false} ObjBack(v: Value, rest: seq<Byte>)
    requires Wf(v) && v.Obj?
    ensures ReadValue(Enc(v) + rest) == Got(Meaning(v), rest)
    decreases v, 1, |v.members| + 1
  {
    hide *;
    var ks := SortedKeys(v.members);
    EncUnfolds(v);
    EncMembersUnfolds(v, ks, 0);
    MembersAll(v);
    var body := EncMembers(v, ks, 0) + [125] + rest;
    if ks == [] {
      MembersNone(v, ks);
      assert body[0] == 125 && body[1..] == rest;
    } else {
      assert ks[0] in ks;
      MembersBack(v, ks, 0, rest);
      EncMemberFirst(v, ks[0]);
      SeparatorAt(0);
      assert body == EncMember(v, ks[0]) + EncMembers(v, ks, 1) + [125] + rest;
      assert body[0] == EncMember(v, ks[0])[0];
    }
    ReadObject(body);
    assert Enc(v) + rest == [123] + body;
  }

  lemma MembersNone(v: Value, ks: seq<Text>)
    requires v.Obj? && ks == []
    ensures MembersFrom(v, ks, 0) == map[]
  {
  }

  // ----- key order -----

  lemma {:induction false} LessTrans(a: Text, b: Text, c: Text)
    requires Less(a, b) && Less(b, c)
    ensures Less(a, c)
  {
    if a != [] && a[0] == b[0] == c[0] { LessTrans(a[1..], b[1..], c[1..]); }
  }

  lemma {:induction false} LessTotal(a: Text, b: Text)
    ensures Less(a, b) || a == b || Less(b, a)
    ensures !(Less(a, b) && Less(b, a)) && !Less(a, a)
  {
    if a != [] { LessTotal(a[1..], a[1..]); }
    if a != [] && b != [] && a[0] == b[0] {
      LessTotal(a[1..], b[1..]);
      if a[1..] == b[1..] { assert a == [a[0]] + a[1..] && b == [b[0]] + b[1..]; }
    }
  }

  lemma {:induction false} InsertSorted(ks: seq<Text>, k: Text)
    requires Sorted(ks) && k !in ks
    ensures Sorted(InsertKey(ks, k))
  {
    hide Less;
    if ks != [] {
      var init, last := ks[..|ks| - 1], ks[|ks| - 1];
      var r := InsertKey(ks, k);
      if Less(last, k) {
        forall i, j | 0 <= i < j < |r| ensures Less(r[i], r[j]) {
          if j == |ks| && i < |ks| - 1 { LessTrans(ks[i], last, k); }
        }
      } else {
        LessTotal(last, k);
        InsertSorted(init, k);
        var r0 := InsertKey(init, k);
        forall i, j | 0 <= i < j < |r| ensures Less(r[i], r[j]) {
          if j == |r0| {
            assert r[i] in r0;
            if r[i] != k {
              var m :| 0 <= m < |init| && init[m] == r[i];
              assert Less(ks[m], ks[|ks| - 1]);
            }
          }
        }
      }
    }
  }

  lemma {:induction false} SortedKeysSorted(ms: seq<Member>)
    requires DistinctKeys(ms)
    ensures Sorted(SortedKeys(ms))
  {
    hide Less;
    hide InsertKey;
    if ms != [] {
      var init, last := ms[..|ms| - 1], ms[|ms| - 1];
      SortedKeysSorted(init);
      InsertSorted(SortedKeys(init), last.key);
    }
  }

  /** A set of keys has one sorted listing. */
  lemma {:induction false} SortedUnique(a: seq<Text>, b: seq<Text>)
    requires Sorted(a) && Sorted(b) && forall k :: k in a <==> k in b
    ensures a == b
  {
    hide Less;
    FirstShared(a, b);
    FirstShared(b, a);
    if a != [] && b != [] {
      var m, n := |a| - 1, |b| - 1;
      assert a[m] in b && b[n] in a;
      LessTotal(a[m], b[n]);
      assert a[m] == b[n];
      NoLast(a);
      NoLast(b);
      forall k | true ensures k in a[..m] <==> k in b[..n] {
        assert k in a[..m] <==> k in a && k != a[m];
        assert k in b[..n] <==> k in b && k != b[n];
      }
      SortedUnique(a[..m], b[..n]);
      assert a == a[..m] + [a[m]] && b == b[..n] + [b[n]];
    }
  }

  lemma FirstShared(a: seq<Text>, b: seq<Text>)
    requires forall k | k in a :: k in b
    ensures a != [] ==> b != []
  {
    if a != [] { assert a[0] in a; }
  }

  lemma NoLast(a: seq<Text>)
    requires Sorted(a) && a != []
    ensures forall k :: k in a[..|a| - 1] <==> k in a && k != a[|a| - 1]
  {
    hide Less;
    var m := |a| - 1;
    LessTotal(a[m], a[m]);
    assert a == a[..m] + [a[m]];
    forall k | k in a[..m] ensures k != a[m] {
      var i :| 0 <= i < m && a[i] == k;
      assert Less(a[i], a[m]);
    }
  }

  // ----- the encoder is injective up to key order -----

  /** Equal values, members in any order, encode to the same bytes. */
  lemma {:induction false} SameMeaningSameBytes(a: Value, b: Value)
    requires Wf(a) && Wf(b) && Meaning(a) == Meaning(b)
    ensures Enc(a) == Enc(b)
    decreases a, 1, 0
  {
    match a {
      case Arr(_) =>
        EncUnfolds(a);
        EncUnfolds(b);
        ItemsSame(a, b, 0);
        hide *;
      case Obj(_) => ObjSame(a, b); hide *;
      case _ =>
    }
  }

  lemma {:induction false} ItemsSame(a: Value, b: Value, i: nat)
    requires Wf(a) && Wf(b) && a.Arr? && b.Arr? && Meaning(a) == Meaning(b)
    requires i <= |a.items|
    ensures |a.items| == |b.items| && EncItems(a, i) == EncItems(b, i)
    decreases a, 0, |a.items| - i
  {
    assert |Meaning(a).items| == |Meaning(b).items|;
    EncItemsUnfolds(a, i);
    EncItemsUnfolds(b, i);
    if i < |a.items| {
      assert Meaning(a).items[i] == Meaning(a.items[i]);
      assert Meaning(b).items[i] == Meaning(b.items[i]);
      SameMeaningSameBytes(a.items[i], b.items[i]);
      ItemsSame(a, b, i + 1);
    }
    hide *;
  }

  lemma SameKeys(a: Value, b: Value)
    requires Wf(a) && Wf(b) && a.Obj? && b.Obj? && Meaning(a) == Meaning(b)
    ensures SortedKeys(a.members) == SortedKeys(b.members)
    ensures forall k | HasKey(a.members, k) :: HasKey(b.members, k) &&
              Meaning(a.members[Find(a.members, k)].value) == Meaning(b.members[Find(b.members, k)].value)
  {
    var ka, kb := SortedKeys(a.members), SortedKeys(b.members);
    SortedKeysSorted(a.members);
    SortedKeysSorted(b.members);
    hide SortedKeys;
    hide Sorted;
    hide HasKey;
    hide Find;
    var ma, mb := Meaning(a).members, Meaning(b).members;
    assert forall k :: k in ma <==> HasKey(a.members, k);
    assert forall k :: k in mb <==> HasKey(b.members, k);
    forall k | HasKey(a.members, k)
      ensures HasKey(b.members, k)
      ensures Meaning(a.members[Find(a.members, k)].value) == Meaning(b.members[Find(b.members, k)].value)
    {
      assert k in ma && k in mb && ma[k] == mb[k];
    }
    SortedUnique(ka, kb);
  }

  lemma {:induction false} ObjSame(a: Value, b: Value)
    requires Wf(a) && Wf(b) && a.Obj? && b.Obj? && Meaning(a) == Meaning(b)
    ensures Enc(a) == Enc(b)
    decreases a, 0, |a.members| + 1
  {
    var ks := SortedKeys(a.members);
    SameKeys(a, b);
    EncUnfolds(a);
    EncUnfolds(b);
    MembersSame(a, b, ks, 0);
    hide *;
  }

  lemma {:induction false} MembersSame(a: Value, b: Value, ks: seq<Text>, i: nat)
    requires Wf(a) && Wf(b) && a.Obj? && b.Obj? && i <= |ks|
    requires forall k | k in ks :: HasKey(a.members, k) && HasKey(b.members, k)
    requires forall k | k in ks ::
               Meaning(a.members[Find(a.members, k)].value) == Meaning(b.members[Find(b.members, k)].value)
    ensures EncMembers(a, ks, i) == EncMembers(b, ks, i)
    decreases a, 0, |ks| - i
  {
    EncMembersUnfolds(a, ks, i);
    EncMembersUnfolds(b, ks, i);
    if i < |ks| {
      var k := ks[i];
      assert k in ks;
      WfMember(a, k);
      WfMember(b, k);
      var va, vb := a.members[Find(a.members, k)].value, b.members[Find(b.members, k)].value;
      SameMeaningSameBytes(va, vb);
      hide Wf;
      hide Enc;
      hide EncMembers;
      hide EncStr;
      assert EncMember(a, k) == EncMember(b, k);
      MembersSame(a, b, ks, i + 1);
    }
  }

  /** Equal bytes if and only if equal values up to the order of object members. */
  lemma EncInjective(a: Value, b: Value)
    requires Wf(a) && Wf(b)
    ensures Enc(a) == Enc(b) <==> Meaning(a) == Meaning(b)
  {
    if Enc(a) == Enc(b) {
      ValueBack(a, []);
      ValueBack(b, []);
      assert Enc(a) + [] == Enc(b) + [];
    }
    if Meaning(a) == Meaning(b) { SameMeaningSameBytes(a, b); }
    hide *;
  }

  /** No two encodings share a stream position: what was written can be told from what follows. */
  lemma EncUniquelyDecodable(a: Value, b: Value, r: seq<Byte>, s: seq<Byte>)
    requires Wf(a) && Wf(b) && Delimited(r) && Delimited(s) && Enc(a) + r == Enc(b) + s
    ensures Meaning(a) == Meaning(b) && r == s
  {
    ValueBack(a, r);
    ValueBack(b, s);
    hide *;
  }

  // ----- what is escaped -----

  /** Exactly quotes, backslashes and control characters are escaped, five of them by a letter or themselves. */
  lemma EscapesExact(c: Scalar)
    ensures EncChar(c)[0] == 92 <==> c == 34 || c == 92 || c < 0x20
    ensures EncChar(c)[0] == 92 ==> (|EncChar(c)| == 2 <==> c in {34, 92, 10, 13, 9})
    ensures forall i | 0 <= i < |EncChar(c)| :: EncChar(c)[i] >= 0x20
    ensures forall i | 0 <= i < |EncChar(c)| && EncChar(c)[i] == 34 :: c == 34 && i == 1
  {
  }
}
