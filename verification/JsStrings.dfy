/** The string operations of the scripting languages that several components share. */
module JsStrings {
  /** `split` on one character: the pieces between its occurrences, at least one of them. */
  function Split(s: string, sep: char): (parts: seq<string>)
    ensures |parts| >= 1
    ensures forall p :: p in parts ==> sep !in p
    ensures Join(parts, sep) == s
  {
    if s == "" then [""]
    else
      var rest := Split(s[1..], sep);
      if s[0] == sep then
        assert [s[0]] + s[1..] == s;
        assert ([""] + rest)[1..] == rest;
        [""] + rest
      else
        assert ([[s[0]] + rest[0]] + rest[1..])[1..] == rest[1..];
        [[s[0]] + rest[0]] + rest[1..]
  }

  /** `join`: the pieces with the separator between them. */
  function Join(parts: seq<string>, sep: char): string {
    if parts == [] then ""
    else if |parts| == 1 then parts[0]
    else parts[0] + [sep] + Join(parts[1..], sep)
  }

  /** Splitting and joining are inverse: two texts with the same lines are the same text. */
  lemma {:induction false} SplitJoin(parts: seq<string>, sep: char)
    requires parts != []
    requires forall p :: p in parts ==> sep !in p
    ensures Split(Join(parts, sep), sep) == parts
    decreases |parts|, |parts[0]|
  {
    var s := Join(parts, sep);
    if parts[0] == "" {
      if |parts| > 1 {
        assert s[1..] == Join(parts[1..], sep);
        SplitJoin(parts[1..], sep);
      }
    } else {
      var parts' := [parts[0][1..]] + parts[1..];
      assert sep !in parts[0] && parts[0][0] in parts[0];
      forall p | p in parts' ensures sep !in p {
        if p == parts[0][1..] {
          assert forall c :: c in p ==> c in parts[0];
        }
      }
      assert s[1..] == Join(parts', sep) by {
        if |parts| > 1 { assert parts'[1..] == parts[1..]; }
      }
      SplitJoin(parts', sep);
      assert [s[0]] + parts'[0] == parts[0];
      assert [parts[0]] + parts[1..] == parts;
    }
  }

  /** White space and line terminators: what `\s` matches and `trim` removes. */
  predicate IsSpace(c: char) {
    c == ' ' || c == '\t' || c == '\n' || c == '\r' || c == '\U{0B}' || c == '\U{0C}' || c == '\U{A0}' || c == '\U{1680}' || '\U{2000}' <= c <= '\U{200A}'
    || c == '\U{2028}' || c == '\U{2029}' || c == '\U{202F}' || c == '\U{205F}' || c == '\U{3000}' || c == '\U{FEFF}'
  }

  function TrimStart(s: string): (t: string)
    ensures |t| <= |s| && t == s[|s| - |t|..]
    ensures t != "" ==> !IsSpace(t[0])
    ensures forall i :: 0 <= i < |s| - |t| ==> IsSpace(s[i])
  {
    if s != "" && IsSpace(s[0]) then TrimStart(s[1..]) else s
  }

  function TrimEnd(s: string): (t: string)
    ensures t <= s
    ensures t != "" ==> !IsSpace(t[|t| - 1])
    ensures forall i :: |t| <= i < |s| ==> IsSpace(s[i])
  {
    if s != "" && IsSpace(s[|s| - 1]) then TrimEnd(s[..|s| - 1]) else s
  }

  function Trim(s: string): string { TrimEnd(TrimStart(s)) }

  predicate Blank(s: string) { forall c :: c in s ==> IsSpace(c) }

  lemma TrimBlank(s: string)
    ensures Trim(s) == "" <==> Blank(s)
  {
    var t := TrimStart(s);
    assert t != "" ==> t[0] in s;
    if Trim(s) == "" {
      assert t == "";
      forall c | c in s ensures IsSpace(c) {
        var i :| 0 <= i < |s| && s[i] == c;
      }
    }
  }

  /** From `i` on, the text is `r`, as far as the text goes. */
  ghost predicate Follows(code: string, i: nat, r: string) {
    forall j :: 0 <= j < |r| && i + j < |code| ==> code[i + j] == r[j]
  }

  lemma FollowsSplit(code: string, i: nat, a: string, b: string)
    requires Follows(code, i, a + b)
    ensures Follows(code, i, a) && Follows(code, i + |a|, b)
  {
    var r := a + b;
    forall j | 0 <= j < |a| && i + j < |code| ensures code[i + j] == a[j] {
      assert r[j] == a[j];
    }
    forall j | 0 <= j < |b| && i + |a| + j < |code| ensures code[i + |a| + j] == b[j] {
      assert r[|a| + j] == b[j] && code[i + (|a| + j)] == r[|a| + j];
    }
  }

  lemma FollowsFirst(code: string, i: nat, r: string)
    requires Follows(code, i, r) && r != "" && i < |code|
    ensures code[i] == r[0]
  {
    assert code[i + 0] == r[0];
  }

  lemma FollowsSecond(code: string, i: nat, r: string)
    requires Follows(code, i, r) && |r| > 1 && i + 1 < |code|
    ensures code[i + 1] == r[1]
  {}
}
