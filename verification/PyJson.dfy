/** JSON values, the printer that writes them the way Python's `json.dumps` does, and the reader the
    stored text goes back through (RFC 8259; integers only). */
module PyJson {
  import opened Wrappers

  datatype Json =
    | Null
    | Bool(b: bool)
    | Int(n: int)
    | Str(s: string)
    | Arr(items: seq<Json>)
    | Obj(members: seq<(string, Json)>)

  // ---------------------------------------------------------------- the printed form

  function Digit(d: nat): char
    requires d < 16
  {
    "0123456789abcdef"[d]
  }

  function Decimal(n: nat): (s: string)
    ensures s != ""
  {
    if n < 10 then [Digit(n)] else Decimal(n / 10) + [Digit(n % 10)]
  }

  function IntText(n: int): string {
    if n < 0 then "-" + Decimal(-n) else Decimal(n)
  }

  /** One character inside a string: the short escapes, `\u00xx` for the other controls. */
  function CharText(c: char): (s: string)
    ensures s != ""
  {
    if c == '\"' then "\\\""
    else if c == '\\' then "\\\\"
    else if c == '\n' then "\\n"
    else if c == '\r' then "\\r"
    else if c == '\t' then "\\t"
    else if c == '\U{08}' then "\\b"
    else if c == '\U{0C}' then "\\f"
    else if c < ' ' then "\\u00" + [Digit(c as nat / 16), Digit(c as nat % 16)]
    else [c]
  }

  function CharsText(s: string): string {
    if s == "" then "" else CharText(s[0]) + CharsText(s[1..])
  }

  function StrText(s: string): string { "\"" + CharsText(s) + "\"" }

  function Text(v: Json): string
    decreases v, 1
  {
    match v
    case Null => "null"
    case Bool(b) => if b then "true" else "false"
    case Int(n) => IntText(n)
    case Str(s) => StrText(s)
    case Arr(items) => "[" + ItemsText(items) + "]"
    case Obj(members) => "{" + MembersText(members) + "}"
  }

  function ItemsText(items: seq<Json>): string
    decreases items, 0
  {
    if items == [] then ""
    else if |items| == 1 then Text(items[0])
    else Text(items[0]) + ", " + ItemsText(items[1..])
  }

  function MemberText(m: (string, Json)): string
    decreases m, 2
  {
    StrText(m.0) + ": " + Text(m.1)
  }

  function MembersText(members: seq<(string, Json)>): string
    decreases members, 0
  {
    if members == [] then ""
    else if |members| == 1 then MemberText(members[0])
    else MemberText(members[0]) + ", " + MembersText(members[1..])
  }

  // ---------------------------------------------------------------- the reader

  predicate IsWs(c: char) { c == ' ' || c == '\t' || c == '\n' || c == '\r' }

  function SkipWs(s: string): (r: string)
    ensures |r| <= |s|
    ensures r != "" ==> !IsWs(r[0])
  {
    if s != "" && IsWs(s[0]) then SkipWs(s[1..]) else s
  }

  predicate IsDigit(c: char) { '0' <= c <= '9' }

  function DigitValue(c: char): nat
    requires IsDigit(c)
  {
    c as nat - '0' as nat
  }

  /** The run of digits at the start of `s`, read after `acc`. */
  function ReadDigits(s: string, acc: nat): (r: (nat, string))
    ensures |r.1| <= |s|
    ensures s != "" && IsDigit(s[0]) ==> |r.1| < |s|
  {
    if s != "" && IsDigit(s[0]) then ReadDigits(s[1..], 10 * acc + DigitValue(s[0])) else (acc, s)
  }

  /** What a 64-bit number holds: signed if negative, unsigned otherwise. */
  predicate InRange(n: int) { -0x8000_0000_0000_0000 <= n < 0x1_0000_0000_0000_0000 }

  /** An integer: no leading zero, no fraction, no exponent. */
  function ReadInt(s: string): (r: Option<(Json, string)>)
    ensures r.Some? ==> |r.value.1| < |s|
  {
    var neg := s != "" && s[0] == '-';
    var d := if neg then s[1..] else s;
    if d == "" || !IsDigit(d[0]) then None
    else if d[0] == '0' && |d| > 1 && IsDigit(d[1]) then None
    else
      var (n, rest) := ReadDigits(d, 0);
      var value: int := if neg then -(n as int) else n;
      if rest != "" && rest[0] in ".eE" then None
      else if (neg && n == 0) || !InRange(value) then None
      else Some((Int(value), rest))
  }

  function HexValue(c: char): Option<nat> {
    if IsDigit(c) then Some(DigitValue(c))
    else if 'a' <= c <= 'f' then Some(c as nat - 'a' as nat + 10)
    else if 'A' <= c <= 'F' then Some(c as nat - 'A' as nat + 10)
    else None
  }

  /** The code unit of four hexadecimal digits. */
  function ReadHex4(s: string): (r: Option<nat>)
    ensures r.Some? ==> |s| >= 4
  {
    if |s| < 4 then None
    else
      var a, b, c, d := HexValue(s[0]), HexValue(s[1]), HexValue(s[2]), HexValue(s[3]);
      if a.None? || b.None? || c.None? || d.None? then None
      else Some(4096 * a.value + 256 * b.value + 16 * c.value + d.value)
  }

  predicate IsScalar(n: nat) { n < 0xD800 || 0xE000 <= n < 0x11_0000 }

  /** The character of an escape sequence, after its backslash: a pair of `\u` surrogates makes one. */
  function ReadEscape(s: string): (r: Option<(char, string)>)
    ensures r.Some? ==> |r.value.1| < |s|
  {
    if s == "" then None
    else if s[0] in "\"\\/" then Some((s[0], s[1..]))
    else if s[0] == 'b' then Some(('\U{08}', s[1..]))
    else if s[0] == 'f' then Some(('\U{0C}', s[1..]))
    else if s[0] == 'n' then Some(('\n', s[1..]))
    else if s[0] == 'r' then Some(('\r', s[1..]))
    else if s[0] == 't' then Some(('\t', s[1..]))
    else if s[0] != 'u' then None
    else
      match ReadHex4(s[1..])
      case None => None
      case Some(unit) =>
        if 0xD800 <= unit < 0xDC00 then
          if |s| < 7 || s[5..7] != "\\u" then None
          else
            match ReadHex4(s[7..])
            case None => None
            case Some(low) =>
              var code := 0x1_0000 + 0x400 * (unit - 0xD800) + (low - 0xDC00);
              if 0xDC00 <= low < 0xE000 && IsScalar(code) then Some((code as char, s[11..])) else None
        else if IsScalar(unit) then Some((unit as char, s[5..]))
        else None
  }

  /** The rest of a string, after its opening quote. */
  function ReadChars(s: string): (r: Option<(string, string)>)
    ensures r.Some? ==> |r.value.1| < |s|
    decreases |s|
  {
    if s == "" || s[0] < ' ' then None
    else if s[0] == '\"' then Some(("", s[1..]))
    else if s[0] == '\\' then
      match ReadEscape(s[1..])
      case None => None
      case Some((c, rest)) =>
        match ReadChars(rest)
        case None => None
        case Some((more, after)) => Some(([c] + more, after))
    else
      match ReadChars(s[1..])
      case None => None
      case Some((more, after)) => Some(([s[0]] + more, after))
  }

  /** Inserting into an ordered map: an existing key keeps its place and takes the new value. */
  function Put(members: seq<(string, Json)>, key: string, v: Json): seq<(string, Json)> {
    if members == [] then [(key, v)]
    else if members[0].0 == key then [(key, v)] + members[1..]
    else [members[0]] + Put(members[1..], key, v)
  }

  function ReadValue(text: string): (r: Option<(Json, string)>)
    ensures r.Some? ==> |r.value.1| < |text|
    decreases |text|, 1
  {
    var s := SkipWs(text);
    if s == "" then None
    else if "null" <= s then Some((Null, s[4..]))
    else if "true" <= s then Some((Bool(true), s[4..]))
    else if "false" <= s then Some((Bool(false), s[5..]))
    else if s[0] == '\"' then
      (match ReadChars(s[1..])
       case None => None
       case Some((chars, rest)) => Some((Str(chars), rest)))
    else if s[0] == '[' then
      var t := SkipWs(s[1..]);
      if t != "" && t[0] == ']' then Some((Arr([]), t[1..]))
      else
        (match ReadItems(t)
         case None => None
         case Some((items, rest)) => Some((Arr(items), rest)))
    else if s[0] == '{' then
      var t := SkipWs(s[1..]);
      if t != "" && t[0] == '}' then Some((Obj([]), t[1..]))
      else
        (match ReadMembers(t, [])
         case None => None
         case Some((members, rest)) => Some((Obj(members), rest)))
    else ReadInt(s)
  }

  /** One or more elements, then the closing bracket. */
  function ReadItems(s: string): (r: Option<(seq<Json>, string)>)
    ensures r.Some? ==> |r.value.1| < |s|
    decreases |s|, 2
  {
    match ReadValue(s)
    case None => None
    case Some((v, after)) =>
      var t := SkipWs(after);
      if t == "" then None
      else if t[0] == ']' then Some(([v], t[1..]))
      else if t[0] != ',' then None
      else
        match ReadItems(t[1..])
        case None => None
        case Some((more, rest)) => Some(([v] + more, rest))
  }

  /** One or more members added to `acc`, then the closing brace. */
  function ReadMembers(text: string, acc: seq<(string, Json)>): (r: Option<(seq<(string, Json)>, string)>)
    ensures r.Some? ==> |r.value.1| < |text|
    decreases |text|, 2
  {
    var s := SkipWs(text);
    if s == "" || s[0] != '\"' then None
    else
      match ReadChars(s[1..])
      case None => None
      case Some((key, afterKey)) =>
        var colon := SkipWs(afterKey);
        if colon == "" || colon[0] != ':' then None
        else
          match ReadValue(colon[1..])
          case None => None
          case Some((v, after)) =>
            var t := SkipWs(after);
            if t == "" then None
            else if t[0] == '}' then Some((Put(acc, key, v), t[1..]))
            else if t[0] != ',' then None
            else ReadMembers(t[1..], Put(acc, key, v))
  }

  /** A whole text: one value, then nothing but white space. */
  function Read(text: string): Option<Json> {
    match ReadValue(text)
    case None => None
    case Some((v, rest)) => if SkipWs(rest) == "" then Some(v) else None
  }
}
