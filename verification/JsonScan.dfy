/** Finding where a JSON value ends, and escaping the control characters a model leaves raw. */
module JsonScan {
  import opened Wrappers
  import opened JsStrings
  import opened JsonLexer

  // ---------------------------------------------------------------- where a value ends

  function Left(src: string, i: nat): nat { if i < |src| then |src| - i else 0 }

  /** Does this bracket count, when only braces may? */
  predicate Counts(c: char, bracesOnly: bool) { c == '{' || c == '}' || (!bracesOnly && (c == '[' || c == ']')) }

  /** Right after the bracket that brings the depth back to zero, outside strings. */
  function EndFrom(src: string, i: nat, depth: int, q: Quote, bracesOnly: bool): (r: Option<nat>)
    ensures r.Some? ==> i < r.value <= |src|
    decreases Left(src, i)
  {
    if i >= |src| then None
    else
      var c := src[i];
      if q.inString || c == '\"' then EndFrom(src, i + 1, depth, ReadQuote(q, c), bracesOnly)
      else if Counts(c, bracesOnly) && IsOpener(c) then EndFrom(src, i + 1, depth + 1, q, bracesOnly)
      else if Counts(c, bracesOnly) then
        if depth - 1 == 0 then Some(i + 1) else EndFrom(src, i + 1, depth - 1, q, bracesOnly)
      else EndFrom(src, i + 1, depth, q, bracesOnly)
  }

  method ScanEnd(src: string, start: nat, bracesOnly: bool) returns (end: Option<nat>)
    ensures end == EndFrom(src, start, 0, OUTSIDE, bracesOnly)
  {
    var depth := 0;
    var inString, escaped := false, false;
    var i: nat := start;
    while i < |src|
      invariant escaped ==> inString
      invariant EndFrom(src, i, depth, Quote(inString, escaped), bracesOnly) == EndFrom(src, start, 0, OUTSIDE, bracesOnly)
      decreases Left(src, i)
    {
      var ch := src[i];
      if inString {
        if escaped {
          escaped := false;
        } else if ch == '\\' {
          escaped := true;
        } else if ch == '\"' {
          inString := false;
        }
      } else if ch == '\"' {
        inString := true;
      } else if ch == '{' || (!bracesOnly && ch == '[') {
        depth := depth + 1;
      } else if ch == '}' || (!bracesOnly && ch == ']') {
        depth := depth - 1;
        if depth == 0 {
          return Some(i + 1);
        }
      }
      i := i + 1;
    }
    end := None;
  }

  /** The position after the object opened at `start`, if it closes. */
  method ObjectEnd(src: string, start: nat) returns (end: Option<nat>)
    ensures end == EndFrom(src, start, 0, OUTSIDE, true)
  {
    end := ScanEnd(src, start, true);
  }

  function FirstOpener(src: string, i: nat): (r: Option<nat>)
    ensures r.Some? ==> i <= r.value < |src|
    decreases Left(src, i)
  {
    if i >= |src| then None else if IsOpener(src[i]) then Some(i) else FirstOpener(src, i + 1)
  }

  function FirstValue(src: string): Option<string> {
    match FirstOpener(src, 0)
    case None => None
    case Some(start) =>
      match EndFrom(src, start, 0, OUTSIDE, false)
      case None => None
      case Some(end) => Some(src[start..end])
  }

  method FirstJsonValue(src: string) returns (value: Option<string>)
    ensures value == FirstValue(src)
  {
    var start := FirstOpener(src, 0);
    if start.None? {
      return None;
    }
    var end := ScanEnd(src, start.value, false);
    value := if end.None? then None else Some(src[start.value..end.value]);
  }

  // ---------------------------------------------------------------- values found whole

  /** A run of text at `i` leaves the scan as it was, or the text stops inside it and nothing is found. */
  ghost predicate Passes(src: string, i: nat, n: nat, depth: int, q: Quote, q': Quote, bracesOnly: bool) {
    EndFrom(src, i, depth, q, bracesOnly) == if i + n <= |src| then EndFrom(src, i + n, depth, q', bracesOnly) else None
  }

  lemma {:induction false} PiecesPass(src: string, i: nat, body: seq<Piece>, depth: int, bracesOnly: bool)
    requires Follows(src, i, PiecesText(body)) && Meant(Quoted(body))
    ensures Passes(src, i, |PiecesText(body)|, depth, Quote(true, false), Quote(true, false), bracesOnly)
    decreases |body|
  {
    if body != [] && i < |src| {
      var p, rest := body[0], body[1..];
      var t := match p case Raw(c) => [c] case Escaped(c) => ['\\', c];
      assert p in body;
      assert Meant(Quoted(rest)) by {
        forall x | x in rest && x.Raw? ensures x.c != '\"' && x.c != '\\' { assert x in body; }
      }
      FollowsSplit(src, i, t, PiecesText(rest));
      FollowsFirst(src, i, t);
      PiecesPass(src, i + |t|, rest, depth, bracesOnly);
    }
  }

  lemma QuotedPass(src: string, i: nat, body: seq<Piece>, depth: int, bracesOnly: bool)
    requires Follows(src, i, NodeText(Quoted(body))) && Meant(Quoted(body))
    ensures Passes(src, i, |NodeText(Quoted(body))|, depth, OUTSIDE, OUTSIDE, bracesOnly)
  {
    if i < |src| {
      FollowsSplit(src, i, "\"", PiecesText(body) + "\"");
      FollowsFirst(src, i, "\"");
      FollowsSplit(src, i + 1, PiecesText(body), "\"");
      PiecesPass(src, i + 1, body, depth, bracesOnly);
      var end := i + 1 + |PiecesText(body)|;
      if end < |src| {
        FollowsFirst(src, end, "\"");
      }
    }
  }

  /** At a positive depth, a whole node changes nothing. */
  lemma {:induction false} NodePass(src: string, i: nat, n: Node, depth: int, bracesOnly: bool)
    requires depth > 0 && Follows(src, i, NodeText(n)) && Meant(n)
    ensures Passes(src, i, |NodeText(n)|, depth, OUTSIDE, OUTSIDE, bracesOnly)
    decreases n
  {
    if i < |src| {
      match n
      case Other(c) => FollowsFirst(src, i, [c]);
      case Quoted(body) => QuotedPass(src, i, body, depth, bracesOnly);
      case Nest(open, nodes) =>
        var inner := if Counts(open, bracesOnly) then depth + 1 else depth;
        NestOpens(src, i, n, depth, bracesOnly);
        NodesPass(src, i + 1, nodes, inner, bracesOnly);
        NestCloses(src, i + 1 + |NodesText(nodes)|, CloserOf(open), inner, bracesOnly);
    }
  }

  lemma NestOpens(src: string, i: nat, n: Node, depth: int, bracesOnly: bool)
    requires n.Nest? && IsOpener(n.open) && i < |src| && Follows(src, i, NodeText(n))
    ensures EndFrom(src, i, depth, OUTSIDE, bracesOnly)
         == EndFrom(src, i + 1, if Counts(n.open, bracesOnly) then depth + 1 else depth, OUTSIDE, bracesOnly)
    ensures Follows(src, i + 1, NodesText(n.nodes))
    ensures Follows(src, i + 1 + |NodesText(n.nodes)|, [CloserOf(n.open)])
  {
    FollowsSplit(src, i, [n.open], NodesText(n.nodes) + [CloserOf(n.open)]);
    FollowsFirst(src, i, [n.open]);
    FollowsSplit(src, i + 1, NodesText(n.nodes), [CloserOf(n.open)]);
  }

  lemma NestCloses(src: string, i: nat, c: char, depth: int, bracesOnly: bool)
    requires IsCloser(c) && Follows(src, i, [c])
    ensures EndFrom(src, i, depth, OUTSIDE, bracesOnly) ==
      if i >= |src| then None
      else if !Counts(c, bracesOnly) then EndFrom(src, i + 1, depth, OUTSIDE, bracesOnly)
      else if depth == 1 then Some(i + 1)
      else EndFrom(src, i + 1, depth - 1, OUTSIDE, bracesOnly)
  {
    if i < |src| {
      FollowsFirst(src, i, [c]);
    }
  }

  lemma {:induction false} NodesPass(src: string, i: nat, nodes: seq<Node>, depth: int, bracesOnly: bool)
    requires depth > 0 && Follows(src, i, NodesText(nodes)) && AllMeant(nodes)
    ensures Passes(src, i, |NodesText(nodes)|, depth, OUTSIDE, OUTSIDE, bracesOnly)
    decreases nodes
  {
    hide EndFrom, Follows, NodeText, Meant;
    if nodes != [] {
      FollowsSplit(src, i, NodeText(nodes[0]), NodesText(nodes[1..]));
      NodePass(src, i, nodes[0], depth, bracesOnly);
      NodesPass(src, i + |NodeText(nodes[0])|, nodes[1..], depth, bracesOnly);
    }
  }

  /** A bracketed value, wherever it stands and whatever follows, is found to its last character; cut
      anywhere, it is not found at all. */
  lemma ValueIsFound(src: string, i: nat, n: Node, bracesOnly: bool)
    requires n.Nest? && Meant(n) && Counts(n.open, bracesOnly) && Follows(src, i, NodeText(n))
    ensures EndFrom(src, i, 0, OUTSIDE, bracesOnly) ==
      if i + |NodeText(n)| <= |src| then Some(i + |NodeText(n)|) else None
  {
    if i < |src| {
      NestOpens(src, i, n, 0, bracesOnly);
      NodesPass(src, i + 1, n.nodes, 1, bracesOnly);
      NestCloses(src, i + 1 + |NodesText(n.nodes)|, CloserOf(n.open), 1, bracesOnly);
    }
  }

  lemma {:induction false} OpenerAfter(junk: string, rest: string, i: nat)
    requires i <= |junk| && (forall c :: c in junk ==> !IsOpener(c)) && rest != "" && IsOpener(rest[0])
    ensures FirstOpener(junk + rest, i) == Some(|junk|)
    decreases |junk| - i
  {
    if i < |junk| {
      assert (junk + rest)[i] == junk[i] && junk[i] in junk;
      OpenerAfter(junk, rest, i + 1);
    }
  }

  /** The first value is cut out of whatever surrounds it; a truncated one is not a value. */
  lemma FirstValueFound(junk: string, n: Node, rest: string, k: nat)
    requires (forall c :: c in junk ==> !IsOpener(c)) && n.Nest? && Meant(n)
    ensures FirstValue(junk + NodeText(n) + rest) == Some(NodeText(n))
    ensures k < |NodeText(n)| ==> FirstValue(junk + NodeText(n)[..k]) == None
  {
    hide EndFrom, NodesText;
    var src, t := junk + NodeText(n) + rest, NodeText(n);
    assert src == junk + (t + rest);
    OpenerAfter(junk, t + rest, 0);
    ValueIsFound(src, |junk|, n, false);
    assert src[|junk|..|junk| + |t|] == t;
    if 0 < k < |t| {
      OpenerAfter(junk, t[..k], 0);
      ValueIsFound(junk + t[..k], |junk|, n, false);
    } else if k == 0 {
      NoOpener(junk, 0);
      assert junk + t[..0] == junk;
    }
  }

  lemma {:induction false} NoOpener(junk: string, i: nat)
    requires forall c :: c in junk ==> !IsOpener(c)
    ensures FirstOpener(junk, i) == None
    decreases Left(junk, i)
  {
    if i < |junk| {
      assert junk[i] in junk;
      NoOpener(junk, i + 1);
    }
  }

  // ---------------------------------------------------------------- the end of any value

  /** Openers less closers outside strings. */
  ghost function Depth(q: Quote, s: string, bracesOnly: bool): int
    decreases |s|
  {
    if s == "" then 0
    else
      Depth(ReadQuote(q, s[0]), s[1..], bracesOnly)
      + if q.inString || !Counts(s[0], bracesOnly) then 0 else if IsOpener(s[0]) then 1 else -1
  }

  /** The text up to `e` ends in a closer outside strings, and no bracket of it is left open. */
  ghost predicate Balances(src: string, i: nat, depth: int, q: Quote, bracesOnly: bool, e: nat) {
    && i < e <= |src|
    && !AfterQuotes(q, src[i..e - 1]).inString && IsCloser(src[e - 1]) && Counts(src[e - 1], bracesOnly)
    && depth + Depth(q, src[i..e], bracesOnly) == 0
  }

  lemma BalancesLater(src: string, i: nat, depth: int, q: Quote, bracesOnly: bool, e: nat)
    requires i + 1 < e <= |src|
    ensures var step := Depth(q, [src[i]], bracesOnly);
      Balances(src, i, depth, q, bracesOnly, e) <==> Balances(src, i + 1, depth + step, ReadQuote(q, src[i]), bracesOnly, e)
  {
    assert src[i..e][1..] == src[i + 1..e] && src[i..e - 1][1..] == src[i + 1..e - 1];
    assert [src[i]][1..] == "";
  }

  lemma BalancesHere(src: string, i: nat, depth: int, q: Quote, bracesOnly: bool)
    requires i < |src|
    ensures Balances(src, i, depth, q, bracesOnly, i + 1)
      <==> !q.inString && IsCloser(src[i]) && Counts(src[i], bracesOnly) && depth - 1 == 0
    ensures Depth(q, [src[i]], bracesOnly)
      == if q.inString || !Counts(src[i], bracesOnly) then 0 else if IsOpener(src[i]) then 1 else -1
  {
    assert src[i..i] == "" && src[i..i + 1] == [src[i]] && [src[i]][1..] == "";
    assert Depth(ReadQuote(q, src[i]), "", bracesOnly) == 0;
  }

  /** Whatever the text, well nested or not, the end found is the first at which all is closed. */
  lemma {:induction false} EndMeans(src: string, i: nat, depth: int, q: Quote, bracesOnly: bool)
    ensures var end := EndFrom(src, i, depth, q, bracesOnly);
      && (end.Some? ==> Balances(src, i, depth, q, bracesOnly, end.value))
      && (forall e: nat :: (end.None? || e < end.value) ==> !Balances(src, i, depth, q, bracesOnly, e))
    decreases Left(src, i)
  {
    hide Balances, Depth;
    NothingBalances(src, i, depth, q, bracesOnly);
    if i < |src| {
      var step := Depth(q, [src[i]], bracesOnly);
      BalancesHere(src, i, depth, q, bracesOnly);
      EndMeans(src, i + 1, depth + step, ReadQuote(q, src[i]), bracesOnly);
      forall e: nat | i + 1 < e <= |src|
        ensures Balances(src, i, depth, q, bracesOnly, e) <==> Balances(src, i + 1, depth + step, ReadQuote(q, src[i]), bracesOnly, e)
      {
        BalancesLater(src, i, depth, q, bracesOnly, e);
      }
    }
  }

  lemma NothingBalances(src: string, i: nat, depth: int, q: Quote, bracesOnly: bool)
    ensures forall e: nat :: e <= i || e > |src| ==> !Balances(src, i, depth, q, bracesOnly, e)
  {}

  // ---------------------------------------------------------------- raw control characters

  /** How a character is written, given where it stands. */
  function EscapedChar(q: Quote, c: char): (s: string)
    ensures s != ""
  {
    if q.inString && !q.escaped && c == '\n' then "\\n"
    else if q.inString && !q.escaped && c == '\r' then "\\r"
    else if q.inString && !q.escaped && c == '\t' then "\\t"
    else [c]
  }

  function EscapeFrom(q: Quote, s: string): string
    decreases |s|
  {
    if s == "" then "" else EscapedChar(q, s[0]) + EscapeFrom(ReadQuote(q, s[0]), s[1..])
  }

  lemma NothingToEscape(q: Quote)
    ensures EscapeFrom(q, "") == ""
  {}

  lemma EscapeStep(out: string, q: Quote, s: string, i: nat)
    requires i < |s|
    ensures out + EscapeFrom(q, s[i..]) == (out + EscapedChar(q, s[i])) + EscapeFrom(ReadQuote(q, s[i]), s[i + 1..])
  {
    assert s[i..][1..] == s[i + 1..];
    var t := EscapedChar(q, s[i]);
    var rest := EscapeFrom(ReadQuote(q, s[i]), s[i + 1..]);
    assert out + (t + rest) == (out + t) + rest;
  }

  method EscapeRawControlChars(src: string) returns (out: string)
    ensures out == EscapeFrom(OUTSIDE, src)
  {
    hide EscapeFrom;
    assert src[0..] == src;
    out := "";
    var inString, escaped := false, false;
    for i := 0 to |src|
      invariant escaped ==> inString
      invariant out + EscapeFrom(Quote(inString, escaped), src[i..]) == EscapeFrom(OUTSIDE, src)
    {
      var ch := src[i];
      EscapeStep(out, Quote(inString, escaped), src, i);
      if inString {
        if escaped {
          escaped, out := false, out + [ch];
        } else if ch == '\\' {
          escaped, out := true, out + [ch];
        } else if ch == '\"' {
          inString, out := false, out + [ch];
        } else if ch == '\n' {
          out := out + "\\n";
        } else if ch == '\r' {
          out := out + "\\r";
        } else if ch == '\t' {
          out := out + "\\t";
        } else {
          out := out + [ch];
        }
      } else {
        if ch == '\"' {
          inString := true;
        }
        out := out + [ch];
      }
    }
    NothingToEscape(Quote(inString, escaped));
    assert src[|src|..] == "";
  }

  /** No control character stands raw in a string: what section 7 of RFC 8259 asks of one. */
  ghost predicate NoControl(q: Quote, s: string)
    decreases |s|
  {
    s == "" || ((q.inString ==> s[0] >= ' ') && NoControl(ReadQuote(q, s[0]), s[1..]))
  }

  predicate IsBreakOrTab(c: char) { c == '\n' || c == '\r' || c == '\t' }

  /** Every control character of a string is a line break, a carriage return or a tab that does not stand
      right after a backslash. */
  ghost predicate OnlyEscapable(q: Quote, s: string)
    decreases |s|
  {
    s == "" || ((q.inString && s[0] < ' ' ==> IsBreakOrTab(s[0]) && !q.escaped) && OnlyEscapable(ReadQuote(q, s[0]), s[1..]))
  }

  /** No string holds a line break, a carriage return or a tab, except right after a backslash. */
  ghost predicate NoneEscapable(q: Quote, s: string)
    decreases |s|
  {
    s == "" || (!(q.inString && !q.escaped && IsBreakOrTab(s[0])) && NoneEscapable(ReadQuote(q, s[0]), s[1..]))
  }

  /** What a lenient reader gets: characters outside strings, characters of strings with the three
      control escapes read, and other escapes by their character. */
  datatype Token = Outside(c: char) | Inside(c: char) | Escape(c: char)

  ghost function TokensOf(q: Quote, c: char): seq<Token> {
    if !q.inString then [Outside(c)]
    else if q.escaped then
      [if c == 'n' then Inside('\n') else if c == 'r' then Inside('\r') else if c == 't' then Inside('\t') else Escape(c)]
    else if c == '\\' then []
    else [Inside(c)]
  }

  ghost function Tokens(q: Quote, s: string): seq<Token>
    decreases |s|
  {
    if s == "" then [] else TokensOf(q, s[0]) + Tokens(ReadQuote(q, s[0]), s[1..])
  }

  /** What is written for a character, in front of any text. */
  lemma EscapedCharMeans(q: Quote, c: char, rest: string)
    requires q.escaped ==> q.inString
    ensures Tokens(q, EscapedChar(q, c) + rest) == TokensOf(q, c) + Tokens(ReadQuote(q, c), rest)
    ensures NoneEscapable(q, EscapedChar(q, c) + rest) == NoneEscapable(ReadQuote(q, c), rest)
    ensures NoControl(q, EscapedChar(q, c) + rest)
        <==> (q.inString && c < ' ' ==> IsBreakOrTab(c) && !q.escaped) && NoControl(ReadQuote(q, c), rest)
  {
    var t := EscapedChar(q, c);
    if |t| == 1 {
      assert (t + rest)[1..] == rest;
    } else {
      var u := (t + rest)[1..];
      assert u[0] == t[1] && u[1..] == rest;
      assert [] + Tokens(Quote(true, true), u) == Tokens(Quote(true, true), u);
    }
  }

  /** Escaping keeps the meaning. It leaves a string free of control characters exactly when those it held
      can all be escaped, and changes a text exactly when there is one to escape. */
  lemma {:induction false} EscapingIsSafe(q: Quote, s: string)
    requires q.escaped ==> q.inString
    ensures Tokens(q, EscapeFrom(q, s)) == Tokens(q, s)
    ensures NoControl(q, EscapeFrom(q, s)) <==> OnlyEscapable(q, s)
    ensures NoneEscapable(q, EscapeFrom(q, s))
    ensures EscapeFrom(q, s) == s <==> NoneEscapable(q, s)
    decreases |s|
  {
    hide EscapedChar, TokensOf, IsBreakOrTab;
    EscapingChanges(q, s);
    if s != "" {
      var next := ReadQuote(q, s[0]);
      EscapingIsSafe(next, s[1..]);
      EscapedCharMeans(q, s[0], EscapeFrom(next, s[1..]));
    }
  }

  /** Escaping lengthens a text exactly when there is something to escape. */
  lemma {:induction false} EscapingChanges(q: Quote, s: string)
    requires q.escaped ==> q.inString
    ensures NoneEscapable(q, s) ==> EscapeFrom(q, s) == s
    ensures |EscapeFrom(q, s)| >= |s| && (!NoneEscapable(q, s) ==> |EscapeFrom(q, s)| > |s|)
    decreases |s|
  {
    if s != "" {
      EscapingChanges(ReadQuote(q, s[0]), s[1..]);
      assert [s[0]] + s[1..] == s;
    }
  }

  /** Texts it leaves as they are, with a raw control character in their string: any right after a
      backslash, and any other than those three. */
  lemma ControlStaysRaw(c: char, slash: bool)
    requires c < ' ' && (slash || !IsBreakOrTab(c))
    ensures var s := if slash then ['\"', '\\', c, '\"'] else ['\"', c, '\"'];
      EscapeFrom(OUTSIDE, s) == s && !NoControl(OUTSIDE, s)
  {
    hide EscapeFrom;
    var s, t := if slash then ['\"', '\\', c, '\"'] else ['\"', c, '\"'], [c, '\"'];
    EscapingChanges(OUTSIDE, s);
    ControlAhead(Quote(true, slash), c, t);
    assert slash ==> s[1..] == ['\\', c, '\"'] && s[1..][1..] == t;
    assert !slash ==> s[1..] == t;
    assert NoneEscapable(Quote(true, false), s[1..]) && !NoControl(Quote(true, false), s[1..]);
  }

  lemma ControlAhead(q: Quote, c: char, t: string)
    requires q.inString && c < ' ' && (q.escaped || !IsBreakOrTab(c)) && t == [c, '\"']
    ensures NoneEscapable(q, t) && !NoControl(q, t)
  {
    assert t[1..] == ['\"'] && t[1..][1..] == "";
  }

  /** Escaping moves no string boundary and no bracket, in any text. */
  lemma {:induction false} EscapingKeepsStructure(st: State, s: string)
    requires st.escaped ==> st.inString
    ensures After(st, EscapeFrom(Quote(st.inString, st.escaped), s)) == After(st, s)
    decreases |s|
  {
    var q := Quote(st.inString, st.escaped);
    if st.bad {
      BadStays(st, s);
      BadStays(st, EscapeFrom(q, s));
    } else if s != "" {
      var next, rest := Read(st, s[0]), EscapeFrom(ReadQuote(q, s[0]), s[1..]);
      EscapedCharReads(st, s[0]);
      AfterAppend(st, EscapedChar(q, s[0]), rest);
      if next.bad {
        BadStays(next, s[1..]);
        BadStays(next, rest);
      } else {
        EscapingKeepsStructure(next, s[1..]);
      }
    }
  }

  /** What is written for a character leaves the scanner where the character would. */
  lemma EscapedCharReads(st: State, c: char)
    requires !st.bad && (st.escaped ==> st.inString)
    ensures After(st, EscapedChar(Quote(st.inString, st.escaped), c)) == Read(st, c)
  {
    var t := EscapedChar(Quote(st.inString, st.escaped), c);
    OneRead(st, t[0]);
    if |t| == 2 {
      AfterSnoc(st, [t[0]], t[1]);
      assert t == [t[0]] + [t[1]];
    } else {
      assert t == [t[0]];
    }
  }

  lemma OneRead(st: State, c: char)
    ensures After(st, [c]) == Read(st, c)
  {
    assert [c][1..] == "";
  }
}
