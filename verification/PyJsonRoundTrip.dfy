/** Reading what the printer writes gives the value back, for every nesting. */
module PyJsonRoundTrip {
  import opened Wrappers
  import opened PyJson

  /** What a stored value is: its integers fit 64 bits and its objects' keys are distinct. */
  ghost predicate Valid(v: Json)
    decreases v
  {
    match v
    case Int(n) => InRange(n)
    case Arr(items) => forall x :: x in items ==> Valid(x)
    case Obj(members) =>
      && (forall m :: m in members ==> Valid(m.1))
      && DistinctKeys(members)
    case _ => true
  }

  ghost predicate DistinctKeys(members: seq<(string, Json)>) {
    forall i, j :: 0 <= i < j < |members| ==> members[i].0 != members[j].0
  }

  /** A number printed before `rest` ends there. */
  ghost predicate EndsNumber(rest: string) {
    rest == "" || (!IsDigit(rest[0]) && rest[0] !in ".eE")
  }

  // ---------------------------------------------------------------- numbers

  lemma {:induction false} DecimalDigits(n: nat)
    ensures var s := Decimal(n); IsDigit(s[0]) && (s[0] == '0' ==> n == 0 && s == "0")
    ensures forall c :: c in Decimal(n) ==> IsDigit(c)
  {
    if n >= 10 {
      DecimalDigits(n / 10);
    }
  }

  /** Reading digits, then one more. */
  lemma {:induction false} ReadDigitsSnoc(s: string, c: char, acc: nat, rest: string)
    requires forall d :: d in s ==> IsDigit(d)
    requires IsDigit(c) && (rest == "" || !IsDigit(rest[0]))
    ensures ReadDigits(s + [c] + rest, acc) == (10 * ReadDigits(s, acc).0 + DigitValue(c), rest)
  {
    if s == "" {
      assert s + [c] + rest == [c] + rest;
      assert ([c] + rest)[1..] == rest;
    } else {
      assert (s + [c] + rest)[1..] == s[1..] + [c] + rest;
      ReadDigitsSnoc(s[1..], c, 10 * acc + DigitValue(s[0]), rest);
    }
  }

  lemma {:induction false} ReadDecimal(n: nat, rest: string)
    requires rest == "" || !IsDigit(rest[0])
    ensures ReadDigits(Decimal(n) + rest, 0) == (n, rest)
    decreases n
  {
    hide ReadDigits;
    var c := Digit(n % 10);
    DigitRoundTrip(n % 10);
    if n >= 10 {
      DecimalDigits(n / 10);
      ReadDigitsSnoc(Decimal(n / 10), c, 0, rest);
      ReadDecimal(n / 10, "");
      assert Decimal(n / 10) + "" == Decimal(n / 10);
      assert Decimal(n) + rest == Decimal(n / 10) + [c] + rest;
    } else {
      assert "" + [c] + rest == Decimal(n) + rest;
      ReadDigitsSnoc("", c, 0, rest);
      ReadNoDigits();
    }
  }

  lemma DigitRoundTrip(d: nat)
    requires d < 10
    ensures IsDigit(Digit(d)) && DigitValue(Digit(d)) == d
  {}

  lemma ReadNoDigits()
    ensures ReadDigits("", 0) == (0, "")
  {}

  lemma IntRoundTrip(n: int, rest: string)
    requires InRange(n) && EndsNumber(rest)
    ensures ReadInt(IntText(n) + rest) == Some((Int(n), rest))
  {
    hide Decimal, ReadDigits;
    var m: nat := if n < 0 then -n else n;
    DecimalDigits(m);
    ReadDecimal(m, rest);
    var d := Decimal(m);
    assert n < 0 ==> (IntText(n) + rest)[1..] == d + rest;
    assert (d + rest)[0] == d[0];
    if |d| == 1 {
      assert |d + rest| > 1 ==> (d + rest)[1] == rest[0];
    }
  }

  // ---------------------------------------------------------------- strings

  lemma HexDigit(d: nat)
    requires d < 16
    ensures HexValue(Digit(d)) == Some(d)
  {}

  lemma ControlEscape(c: char, rest: string)
    requires c < ' '
    ensures var s := "u00" + [Digit(c as nat / 16), Digit(c as nat % 16)] + rest;
      ReadEscape(s) == Some((c, rest))
  {
    var hi, lo := c as nat / 16, c as nat % 16;
    HexDigit(0);
    HexDigit(hi);
    HexDigit(lo);
    var s := "u00" + [Digit(hi), Digit(lo)] + rest;
    assert s[1..][0] == '0' && s[1..][1] == '0' && s[1..][2] == Digit(hi) && s[1..][3] == Digit(lo);
    assert s[5..] == rest;
  }

  lemma ShortEscape(c: char, rest: string)
    requires CharText(c)[0] == '\\' && |CharText(c)| == 2
    ensures ReadEscape([CharText(c)[1]] + rest) == Some((c, rest))
  {
    assert ([CharText(c)[1]] + rest)[1..] == rest;
  }

  /** What comes after the backslash of an escaped character is read as that character. */
  lemma EscapeRoundTrip(c: char, rest: string)
    requires CharText(c)[0] == '\\'
    ensures ReadEscape(CharText(c)[1..] + rest) == Some((c, rest))
  {
    hide ReadEscape;
    if |CharText(c)| == 2 {
      ShortEscape(c, rest);
      assert CharText(c)[1..] == [CharText(c)[1]];
    } else {
      ControlEscape(c, rest);
      assert CharText(c)[1..] == "u00" + [Digit(c as nat / 16), Digit(c as nat % 16)];
    }
  }

  lemma PlainChar(c: char)
    requires CharText(c)[0] != '\\'
    ensures CharText(c) == [c] && c >= ' ' && c != '\"'
  {}

  /** One printed character, then the rest of the string. */
  lemma CharRoundTrip(c: char, rest: string)
    ensures ReadChars(CharText(c) + rest) ==
      match ReadChars(rest) case None => None case Some((more, after)) => Some(([c] + more, after))
  {
    hide ReadEscape, CharText;
    var t := CharText(c);
    if t[0] == '\\' {
      assert (t + rest)[1..] == t[1..] + rest;
      EscapeRoundTrip(c, rest);
    } else {
      PlainChar(c);
      assert (t + rest)[1..] == rest;
    }
  }

  lemma {:induction false} CharsRoundTrip(s: string, rest: string)
    ensures ReadChars(CharsText(s) + "\"" + rest) == Some((s, rest))
  {
    hide ReadChars, CharText;
    if s == "" {
      assert CharsText(s) + "\"" + rest == "\"" + rest;
      CharsEnd(rest);
    } else {
      CharsRoundTrip(s[1..], rest);
      CharRoundTrip(s[0], CharsText(s[1..]) + "\"" + rest);
      assert CharsText(s) + "\"" + rest == CharText(s[0]) + (CharsText(s[1..]) + "\"" + rest);
      assert [s[0]] + s[1..] == s;
    }
  }

  lemma CharsEnd(rest: string)
    ensures ReadChars("\"" + rest) == Some(("", rest))
  {
    assert ("\"" + rest)[1..] == rest;
  }

  lemma StrRoundTrip(s: string, rest: string)
    ensures StrText(s) + rest != "" && (StrText(s) + rest)[0] == '\"' && ReadChars((StrText(s) + rest)[1..]) == Some((s, rest))
  {
    hide ReadChars, CharsText;
    CharsRoundTrip(s, rest);
    assert (StrText(s) + rest)[1..] == CharsText(s) + "\"" + rest;
  }

  // ---------------------------------------------------------------- values

  /** A printed value starts with a character that is neither white space nor punctuation. */
  lemma FirstChar(v: Json)
    ensures Text(v) != "" && !IsWs(Text(v)[0]) && Text(v)[0] !in "]},:"
  {
    match v
    case Int(n) => DecimalDigits(if n < 0 then -n else n);
    case _ =>
  }

  lemma SkipNothing(s: string)
    requires s != "" && !IsWs(s[0])
    ensures SkipWs(s) == s
    ensures SkipWs(" " + s) == s
  {
    assert (" " + s)[1..] == s;
  }

  /** White space before a value does not matter. */
  lemma LeadingSpace(s: string)
    ensures ReadValue(" " + s) == ReadValue(s)
    ensures ReadItems(" " + s) == ReadItems(s)
    ensures forall acc :: ReadMembers(" " + s, acc) == ReadMembers(s, acc)
  {
    assert (" " + s)[1..] == s;
    assert SkipWs(" " + s) == SkipWs(s);
    hide ReadInt, ReadChars;
    assert ReadValue(" " + s) == ReadValue(s);
  }

  lemma WordRoundTrip(v: Json, rest: string)
    requires v.Null? || v.Bool?
    ensures ReadValue(Text(v) + rest) == Some((v, rest))
  {
    var s := Text(v) + rest;
    SkipNothing(s);
    assert s[|Text(v)|..] == rest;
    assert s[0] == Text(v)[0];
  }

  lemma {:induction false} ValueRoundTrip(v: Json, rest: string)
    requires Valid(v) && EndsNumber(rest)
    ensures ReadValue(Text(v) + rest) == Some((v, rest))
    decreases v, 1
  {
    hide ReadInt, ReadChars, StrText, IntText, ReadValue, EndsNumber;
    match v
    case Null => WordRoundTrip(v, rest);
    case Bool(_) => WordRoundTrip(v, rest);
    case Int(n) => IntValueRoundTrip(n, rest);
    case Str(s) => StrValueRoundTrip(s, rest);
    case Arr(items) =>
      if items == [] {
        EmptyArray(rest);
        assert Text(v) == "[]";
      } else {
        ItemsRoundTrip(items, rest);
        FirstChar(items[0]);
        ArrayFromItems(items, rest);
      }
    case Obj(members) =>
      if members == [] {
        EmptyObject(rest);
        assert Text(v) == "{}";
      } else {
        assert [] + members == members;
        MembersRoundTrip([], members, rest);
        ObjectFromMembers(members, rest);
      }
  }

  lemma IntValueRoundTrip(n: int, rest: string)
    requires InRange(n) && EndsNumber(rest)
    ensures ReadValue(IntText(n) + rest) == Some((Int(n), rest))
  {
    hide ReadInt;
    IntRoundTrip(n, rest);
    DecimalDigits(if n < 0 then -n else n);
    var s := IntText(n) + rest;
    assert s[0] == IntText(n)[0];
    assert !IsWs(s[0]) && s[0] !in "ntf\"[{" by {
      assert n >= 0 ==> IsDigit(s[0]);
    }
    SkipNothing(s);
  }

  lemma StrValueRoundTrip(t: string, rest: string)
    ensures ReadValue(StrText(t) + rest) == Some((Str(t), rest))
  {
    hide ReadChars, StrText;
    StrRoundTrip(t, rest);
    SkipNothing(StrText(t) + rest);
  }

  lemma EmptyArray(rest: string)
    ensures ReadValue("[]" + rest) == Some((Arr([]), rest))
  {
    var s := "[]" + rest;
    SkipNothing(s);
    assert s[1..] == "]" + rest;
    SkipNothing(s[1..]);
    assert s[1..][1..] == rest;
  }

  lemma EmptyObject(rest: string)
    ensures ReadValue("{}" + rest) == Some((Obj([]), rest))
  {
    var s := "{}" + rest;
    SkipNothing(s);
    assert s[1..] == "}" + rest;
    SkipNothing(s[1..]);
    assert s[1..][1..] == rest;
  }

  lemma ArrayFromItems(items: seq<Json>, rest: string)
    requires items != [] && !IsWs(Text(items[0])[0]) && Text(items[0])[0] != ']' && Text(items[0]) != ""
    requires ReadItems(ItemsText(items) + "]" + rest) == Some((items, rest))
    ensures ReadValue(Text(Arr(items)) + rest) == Some((Arr(items), rest))
  {
    hide ReadItems;
    var s, t := Text(Arr(items)) + rest, ItemsText(items) + "]" + rest;
    SkipNothing(s);
    assert s[1..] == t;
    assert t[0] == Text(items[0])[0];
    SkipNothing(t);
  }

  lemma MembersStart(members: seq<(string, Json)>)
    requires members != []
    ensures MembersText(members) != "" && MembersText(members)[0] == '\"'
  {}

  lemma ObjectFromMembers(members: seq<(string, Json)>, rest: string)
    requires members != []
    requires ReadMembers(MembersText(members) + "}" + rest, []) == Some((members, rest))
    ensures ReadValue(Text(Obj(members)) + rest) == Some((Obj(members), rest))
  {
    hide ReadMembers, MembersText;
    var s, t := Text(Obj(members)) + rest, MembersText(members) + "}" + rest;
    SkipNothing(s);
    assert s[1..] == t;
    assert t[0] == '\"' by { MembersStart(members); }
    SkipNothing(t);
  }

  lemma {:induction false} ItemsRoundTrip(items: seq<Json>, rest: string)
    requires items != [] && forall x :: x in items ==> Valid(x)
    ensures ReadItems(ItemsText(items) + "]" + rest) == Some((items, rest))
    decreases items, 0
  {
    hide Text, ReadValue, ItemsText, ReadItems, Valid;
    var x, tail := items[0], ItemsTail(items, rest);
    ItemsSplit(items, rest);
    assert x in items;
    ValueRoundTrip(x, tail);
    ItemRead(x, tail);
    if |items| == 1 {
      assert tail[1..] == rest && items == [x];
    } else {
      var more := ItemsText(items[1..]) + "]" + rest;
      assert tail[1..] == " " + more;
      LeadingSpace(more);
      ItemsRoundTrip(items[1..], rest);
      assert [x] + items[1..] == items;
    }
  }

  /** What follows the first element. */
  ghost function ItemsTail(items: seq<Json>, rest: string): string
    requires items != []
  {
    if |items| == 1 then "]" + rest else ", " + (ItemsText(items[1..]) + "]" + rest)
  }

  lemma ItemsSplit(items: seq<Json>, rest: string)
    requires items != []
    ensures ItemsText(items) + "]" + rest == Text(items[0]) + ItemsTail(items, rest)
  {
    hide Text;
  }

  lemma ItemRead(x: Json, tail: string)
    requires ReadValue(Text(x) + tail) == Some((x, tail)) && tail != "" && !IsWs(tail[0])
    ensures ReadItems(Text(x) + tail) ==
      if tail[0] == ']' then Some(([x], tail[1..]))
      else if tail[0] != ',' then None
      else match ReadItems(tail[1..])
        case None => None
        case Some((more, rest)) => Some(([x] + more, rest))
  {
    hide Text, ReadValue;
    SkipNothing(tail);
  }

  /** A new key goes to the end. */
  lemma {:induction false} PutNew(members: seq<(string, Json)>, key: string, v: Json)
    requires forall m :: m in members ==> m.0 != key
    ensures Put(members, key, v) == members + [(key, v)]
  {
    if members != [] {
      assert members[0] in members;
      PutNew(members[1..], key, v);
    }
  }

  /** Reading one member leaves its value for `ReadValue` and what follows for the caller. */
  lemma MemberRoundTrip(m: (string, Json), tail: string, acc: seq<(string, Json)>)
    requires ReadValue(Text(m.1) + tail) == Some((m.1, tail))
    requires tail != "" && !IsWs(tail[0])
    ensures ReadMembers(MemberText(m) + tail, acc) ==
      if tail[0] == '}' then Some((Put(acc, m.0, m.1), tail[1..]))
      else if tail[0] != ',' then None
      else ReadMembers(tail[1..], Put(acc, m.0, m.1))
  {
    hide ReadChars, StrText, Text, ReadValue, Put;
    var s := MemberText(m) + tail;
    var colon := ": " + Text(m.1) + tail;
    assert s == StrText(m.0) + colon;
    StrRoundTrip(m.0, colon);
    SkipNothing(s);
    SkipNothing(colon);
    assert colon[1..] == " " + (Text(m.1) + tail);
    LeadingSpace(Text(m.1) + tail);
    SkipNothing(tail);
  }

  lemma {:induction false} MemberValue(m: (string, Json), tail: string)
    requires Valid(m.1) && EndsNumber(tail)
    ensures ReadValue(Text(m.1) + tail) == Some((m.1, tail))
    decreases m, 2
  {
    ValueRoundTrip(m.1, tail);
  }

  lemma {:induction false} MembersRoundTrip(acc: seq<(string, Json)>, members: seq<(string, Json)>, rest: string)
    requires members != [] && (forall m :: m in members ==> Valid(m.1)) && DistinctKeys(acc + members)
    ensures ReadMembers(MembersText(members) + "}" + rest, acc) == Some((acc + members, rest))
    decreases members, 0
  {
    hide Text, ReadValue, MemberText, MembersText, ReadMembers, Valid, DistinctKeys;
    var m, tail := members[0], MembersTail(members, rest);
    NewKey(acc, members);
    PutNew(acc, m.0, m.1);
    assert m in members;
    MembersSplit(members, rest);
    MemberValue(m, tail);
    MemberRoundTrip(m, tail, acc);
    if |members| == 1 {
      assert tail[1..] == rest;
      assert members == [m];
    } else {
      var more := MembersText(members[1..]) + "}" + rest;
      assert tail[1..] == " " + more;
      LeadingSpace(more);
      assert acc + [m] + members[1..] == acc + members;
      MembersRoundTrip(acc + [m], members[1..], rest);
    }
  }

  /** What follows the first member. */
  ghost function MembersTail(members: seq<(string, Json)>, rest: string): string
    requires members != []
  {
    if |members| == 1 then "}" + rest else ", " + (MembersText(members[1..]) + "}" + rest)
  }

  lemma MembersSplit(members: seq<(string, Json)>, rest: string)
    requires members != []
    ensures MembersText(members) + "}" + rest == MemberText(members[0]) + MembersTail(members, rest)
  {
    hide MemberText;
  }

  lemma NewKey(acc: seq<(string, Json)>, members: seq<(string, Json)>)
    requires members != [] && DistinctKeys(acc + members)
    ensures forall a :: a in acc ==> a.0 != members[0].0
  {
    assert (acc + members)[|acc|] == members[0];
    forall a | a in acc ensures a.0 != members[0].0 {
      var i :| 0 <= i < |acc| && acc[i] == a;
      assert (acc + members)[i] == a;
    }
  }

  /** Every stored value is what reading its printed form gives. */
  lemma RoundTrip(v: Json)
    requires Valid(v)
    ensures Read(Text(v)) == Some(v)
  {
    hide ReadValue, Text;
    ValueRoundTrip(v, "");
    assert Text(v) + "" == Text(v);
  }
}
