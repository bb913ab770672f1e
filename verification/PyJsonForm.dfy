/** The printed form, said without the printer: what Python's `json.dumps` writes when it keeps characters
    outside ASCII as they are. */
module PyJsonForm {
  import opened Wrappers
  import opened PyJson

  // ---------------------------------------------------------------- characters and numbers

  /** The letter of a short escape. */
  ghost predicate ShortEscape(c: char, letter: char) {
    || (c == '\n' && letter == 'n') || (c == '\r' && letter == 'r') || (c == '\t' && letter == 't')
    || (c == '\U{08}' && letter == 'b') || (c == '\U{0C}' && letter == 'f')
  }

  ghost predicate LowerHex(d: char, n: int) {
    ('0' <= d <= '9' && d as int == '0' as int + n) || ('a' <= d <= 'f' && d as int == 'a' as int + n - 10)
  }

  /** A quote or a backslash after a backslash; a control character by its short escape, or by its four
      hexadecimal digits in lower case if it has none; any other character as it is. */
  ghost predicate CharPrinted(c: char, part: string) {
    if c == '\"' || c == '\\' then part == ['\\', c]
    else if c >= ' ' then part == [c]
    else if exists letter :: ShortEscape(c, letter) then |part| == 2 && part[0] == '\\' && ShortEscape(c, part[1])
    else |part| == 6 && part[..4] == "\\u00" && exists h, l :: TwoDigits(c, h, l) && LowerHex(part[4], h) && LowerHex(part[5], l)
  }

  ghost predicate TwoDigits(c: char, h: int, l: int) { 0 <= h < 16 && 0 <= l < 16 && c as int == 16 * h + l }

  function Concat(parts: seq<string>): string {
    if parts == [] then "" else parts[0] + Concat(parts[1..])
  }

  ghost predicate StringPrinted(s: string, text: string) {
    exists parts :: PartsOf(s, parts) && text == "\"" + Concat(parts) + "\""
  }

  ghost predicate PartsOf(s: string, parts: seq<string>) {
    |parts| == |s| && forall i :: 0 <= i < |s| ==> CharPrinted(s[i], parts[i])
  }

  predicate IsFigure(d: char) { '0' <= d <= '9' }

  /** The value of a run of decimal digits. */
  ghost function ValueOf(digits: string): int {
    if digits == "" then 0 else 10 * ValueOf(digits[..|digits| - 1]) + (digits[|digits| - 1] as int - '0' as int)
  }

  /** Decimal digits without a needless zero in front. */
  ghost predicate NaturalPrinted(n: nat, text: string) {
    && text != "" && (forall d :: d in text ==> IsFigure(d))
    && ValueOf(text) == n && (text[0] == '0' ==> text == "0")
  }

  ghost predicate IntPrinted(n: int, text: string) {
    if n < 0 then text != "" && text[0] == '-' && NaturalPrinted(-n, text[1..]) else NaturalPrinted(n, text)
  }

  // ---------------------------------------------------------------- values

  /** The parts with a comma and a blank between any two. */
  function Listed(parts: seq<string>): string {
    if parts == [] then "" else if |parts| == 1 then parts[0] else parts[0] + ", " + Listed(parts[1..])
  }

  ghost predicate Printed(v: Json, text: string)
    decreases v
  {
    match v
    case Null => text == "null"
    case Bool(b) => text == if b then "true" else "false"
    case Int(n) => IntPrinted(n, text)
    case Str(s) => StringPrinted(s, text)
    case Arr(items) =>
      exists parts: seq<string> :: text == "[" + Listed(parts) + "]" && |parts| == |items|
        && forall i :: 0 <= i < |items| ==> Printed(items[i], parts[i])
    case Obj(members) =>
      exists parts: seq<string> :: text == "{" + Listed(parts) + "}" && |parts| == |members|
        && forall i :: 0 <= i < |members| ==> MemberPrinted(members[i], parts[i])
  }

  ghost predicate MemberPrinted(m: (string, Json), part: string)
    decreases m
  {
    exists key, value :: StringPrinted(m.0, key) && Printed(m.1, value) && part == key + ": " + value
  }

  // ---------------------------------------------------------------- the printer

  lemma CharIsPrinted(c: char)
    ensures CharPrinted(c, CharText(c))
  {
    if c == '\n' { assert ShortEscape(c, 'n'); }
    if c == '\r' { assert ShortEscape(c, 'r'); }
    if c == '\t' { assert ShortEscape(c, 't'); }
    if c == '\U{08}' { assert ShortEscape(c, 'b'); }
    if c == '\U{0C}' { assert ShortEscape(c, 'f'); }
    if c < ' ' && forall letter :: !ShortEscape(c, letter) {
      var h, l := c as int / 16, c as int % 16;
      HexDigit(h);
      HexDigit(l);
      assert TwoDigits(c, h, l);
    }
  }

  lemma HexDigit(d: nat)
    requires d < 16
    ensures LowerHex(Digit(d), d) && (d < 10 ==> IsFigure(Digit(d)) && Digit(d) as int == '0' as int + d)
  {}

  lemma {:induction false} CharsArePrinted(s: string) returns (parts: seq<string>)
    ensures PartsOf(s, parts) && CharsText(s) == Concat(parts)
  {
    hide CharText, CharPrinted;
    parts := [];
    if s != "" {
      var rest := CharsArePrinted(s[1..]);
      CharIsPrinted(s[0]);
      parts := [CharText(s[0])] + rest;
      assert parts[1..] == rest;
    }
  }

  lemma StringIsPrinted(s: string)
    ensures StringPrinted(s, StrText(s))
  {
    hide CharsText, Concat, PartsOf;
    var parts := CharsArePrinted(s);
  }

  lemma {:induction false} DecimalIsPrinted(n: nat)
    ensures NaturalPrinted(n, Decimal(n)) && (Decimal(n)[0] == '0' ==> n == 0)
  {
    if n < 10 {
      HexDigit(n);
      assert [Digit(n)][..0] == "";
    } else {
      DecimalIsPrinted(n / 10);
      HexDigit(n % 10);
      var init, d := Decimal(n / 10), Digit(n % 10);
      assert (init + [d])[..|init|] == init;
      assert forall c :: c in init + [d] ==> c in init || c == d;
    }
  }

  lemma {:induction false} ItemsArePrinted(items: seq<Json>) returns (parts: seq<string>)
    ensures ItemsText(items) == Listed(parts) && |parts| == |items|
    ensures forall i :: 0 <= i < |items| ==> Printed(items[i], parts[i])
    decreases items
  {
    hide Text, Printed;
    parts := [];
    if items != [] {
      var rest := ItemsArePrinted(items[1..]);
      IsPrinted(items[0]);
      parts := [Text(items[0])] + rest;
      assert parts[1..] == rest;
    }
  }

  lemma {:induction false} MemberIsPrinted(m: (string, Json))
    ensures MemberPrinted(m, MemberText(m))
    decreases m
  {
    hide Text, Printed, StrText, StringPrinted;
    StringIsPrinted(m.0);
    IsPrinted(m.1);
  }

  lemma {:induction false} MembersArePrinted(members: seq<(string, Json)>) returns (parts: seq<string>)
    ensures MembersText(members) == Listed(parts) && |parts| == |members|
    ensures forall i :: 0 <= i < |members| ==> MemberPrinted(members[i], parts[i])
    decreases members
  {
    hide MemberText, MemberPrinted;
    parts := [];
    if members != [] {
      var rest := MembersArePrinted(members[1..]);
      MemberIsPrinted(members[0]);
      parts := [MemberText(members[0])] + rest;
      assert parts[1..] == rest;
    }
  }

  /** Every value is printed in that form. */
  lemma {:induction false} IsPrinted(v: Json)
    ensures Printed(v, Text(v))
    decreases v
  {
    hide StringPrinted, ItemsText, MembersText, StrText, Listed, MemberPrinted, NaturalPrinted, Decimal;
    match v
    case Int(n) =>
      DecimalIsPrinted(if n < 0 then -n else n);
      if n < 0 {
        assert ("-" + Decimal(-n))[1..] == Decimal(-n);
      }
    case Str(s) => StringIsPrinted(s);
    case Arr(items) => var parts := ItemsArePrinted(items);
    case Obj(members) => var parts := MembersArePrinted(members);
    case _ =>
  }
}
