/** What the repair functions agree on: which characters of a JSON-like text are inside strings, and
    which brackets outside strings are still open. */
module JsonLexer {
  predicate IsOpener(c: char) { c == '{' || c == '[' }

  predicate IsCloser(c: char) { c == '}' || c == ']' }

  function CloserOf(c: char): char { if c == '{' then '}' else ']' }

  /** Inside a string or not, after a backslash or not; the closers owed, the next one last; and
      whether a closer met the wrong bracket. */
  datatype State = State(inString: bool, escaped: bool, stack: string, bad: bool)

  const START := State(false, false, "", false)

  function Read(st: State, c: char): State {
    if st.bad then st
    else if st.inString then
      if st.escaped then st.(escaped := false)
      else if c == '\\' then st.(escaped := true)
      else if c == '\"' then st.(inString := false)
      else st
    else if c == '\"' then st.(inString := true)
    else if IsOpener(c) then st.(stack := st.stack + [CloserOf(c)])
    else if IsCloser(c) then
      if st.stack != "" && st.stack[|st.stack| - 1] == c then st.(stack := st.stack[..|st.stack| - 1])
      else st.(bad := true)
    else st
  }

  /** The state after a whole text. */
  function After(st: State, s: string): State
    decreases |s|
  {
    if s == "" then st else After(Read(st, s[0]), s[1..])
  }

  /** Strings closed, brackets properly nested outside strings. */
  predicate Closed(s: string) {
    var st := After(START, s);
    !st.bad && !st.inString && st.stack == ""
  }

  /** Strings alone: inside or not, after a backslash or not. */
  datatype Quote = Quote(inString: bool, escaped: bool)

  const OUTSIDE := Quote(false, false)

  function ReadQuote(q: Quote, c: char): Quote {
    if q.inString then
      if q.escaped then Quote(true, false)
      else if c == '\\' then Quote(true, true)
      else if c == '\"' then OUTSIDE
      else q
    else if c == '\"' then Quote(true, false)
    else q
  }

  function AfterQuotes(q: Quote, s: string): Quote
    decreases |s|
  {
    if s == "" then q else AfterQuotes(ReadQuote(q, s[0]), s[1..])
  }

  /** The text stops right after the backslash of an escape. */
  predicate EndsInEscape(s: string) { AfterQuotes(OUTSIDE, s).escaped }

  /** Brackets have no say in where strings are. */
  lemma {:induction false} QuotesAreRead(st: State, s: string)
    requires !After(st, s).bad && (st.escaped ==> st.inString)
    ensures AfterQuotes(Quote(st.inString, st.escaped), s) == Quote(After(st, s).inString, After(st, s).escaped)
    decreases |s|
  {
    if s != "" {
      if Read(st, s[0]).bad {
        BadStays(Read(st, s[0]), s[1..]);
      }
      QuotesAreRead(Read(st, s[0]), s[1..]);
    }
  }

  lemma {:induction false} EscapeNeedsBackslash(q: Quote, s: string)
    requires !q.escaped
    ensures AfterQuotes(q, s).escaped ==> AfterQuotes(q, s).inString && s != "" && s[|s| - 1] == '\\'
    decreases |s|
  {
    if s != "" {
      var init, c := s[..|s| - 1], s[|s| - 1];
      EscapeNeedsBackslash(q, init);
      QuotesSnoc(q, init, c);
      assert s == init + [c];
    }
  }

  lemma {:induction false} QuotesSnoc(q: Quote, s: string, c: char)
    ensures AfterQuotes(q, s + [c]) == ReadQuote(AfterQuotes(q, s), c)
    decreases |s|
  {
    if s == "" {
      assert ("" + [c])[1..] == "";
    } else {
      assert (s + [c])[1..] == s[1..] + [c];
      QuotesSnoc(ReadQuote(q, s[0]), s[1..], c);
    }
  }

  lemma {:induction false} AfterAppend(st: State, a: string, b: string)
    ensures After(st, a + b) == After(After(st, a), b)
    decreases |a|
  {
    hide Read;
    if a == "" {
      assert a + b == b;
    } else {
      assert (a + b)[1..] == a[1..] + b;
      AfterAppend(Read(st, a[0]), a[1..], b);
    }
  }

  lemma AfterSnoc(st: State, a: string, c: char)
    ensures After(st, a + [c]) == Read(After(st, a), c)
  {
    hide Read;
    AfterAppend(st, a, [c]);
    assert [c][1..] == "";
  }

  /** An escape is pending only inside a string, right after a backslash. */
  ghost predicate Sane(st: State) { st.escaped ==> st.inString }

  lemma {:induction false} AfterIsSane(st: State, s: string)
    requires Sane(st)
    ensures Sane(After(st, s))
    ensures After(st, s).escaped && !After(st, s).bad ==> (s != "" && s[|s| - 1] == '\\') || (s == "" && st.escaped)
    decreases |s|
  {
    if s != "" {
      AfterIsSane(Read(st, s[0]), s[1..]);
      assert |s| > 1 ==> s[1..][|s[1..]| - 1] == s[|s| - 1];
    }
  }

  lemma {:induction false} BadStays(st: State, s: string)
    requires st.bad
    ensures After(st, s) == st
  {
    if s != "" {
      BadStays(st, s[1..]);
    }
  }

  // ---------------------------------------------------------------- the same texts, as trees

  /** A character of a string: plain, or a backslash and the character after it. */
  datatype Piece = Raw(c: char) | Escaped(c: char)

  datatype Node = Other(c: char) | Quoted(body: seq<Piece>) | Nest(open: char, nodes: seq<Node>)

  ghost predicate Meant(n: Node)
    decreases n
  {
    match n
    case Other(c) => c != '\"' && !IsOpener(c) && !IsCloser(c)
    case Quoted(body) => forall p :: p in body && p.Raw? ==> p.c != '\"' && p.c != '\\'
    case Nest(open, nodes) => IsOpener(open) && AllMeant(nodes)
  }

  ghost predicate AllMeant(nodes: seq<Node>)
    decreases nodes
  {
    forall n :: n in nodes ==> Meant(n)
  }

  function PiecesText(body: seq<Piece>): string {
    if body == [] then ""
    else (match body[0] case Raw(c) => [c] case Escaped(c) => ['\\', c]) + PiecesText(body[1..])
  }

  function NodeText(n: Node): (s: string)
    ensures s != ""
    decreases n
  {
    match n
    case Other(c) => [c]
    case Quoted(body) => "\"" + (PiecesText(body) + "\"")
    case Nest(open, nodes) => [open] + (NodesText(nodes) + [CloserOf(open)])
  }

  function NodesText(nodes: seq<Node>): string
    decreases nodes
  {
    if nodes == [] then "" else NodeText(nodes[0]) + NodesText(nodes[1..])
  }

  lemma PieceRead(st: State, p: Piece)
    requires !st.bad && st.inString && !st.escaped && (p.Raw? ==> p.c != '\"' && p.c != '\\')
    ensures After(st, match p case Raw(c) => [c] case Escaped(c) => ['\\', c]) == st
  {
    match p
    case Raw(c) => assert [c][1..] == "";
    case Escaped(c) =>
      var t := ['\\', c];
      assert t[1..] == [c] && [c][1..] == "";
      assert After(st, t) == After(Read(st, '\\'), [c]);
      assert After(Read(st, '\\'), [c]) == After(Read(Read(st, '\\'), c), "");
  }

  lemma {:induction false} PiecesRead(st: State, body: seq<Piece>)
    requires !st.bad && st.inString && !st.escaped && Meant(Quoted(body))
    ensures After(st, PiecesText(body)) == st
  {
    if body != [] {
      var p := body[0];
      var t := match p case Raw(c) => [c] case Escaped(c) => ['\\', c];
      assert p in body;
      forall q | q in body[1..] && q.Raw? ensures q.c != '\"' && q.c != '\\' {
        assert q in body;
      }
      AfterAppend(st, t, PiecesText(body[1..]));
      PieceRead(st, p);
      PiecesRead(st, body[1..]);
    }
  }

  /** A tree's text leaves the scanner as it found it. */
  lemma {:induction false} NodeRead(st: State, n: Node)
    requires !st.bad && !st.inString && !st.escaped && Meant(n)
    ensures After(st, NodeText(n)) == st
    decreases n
  {
    match n
    case Other(c) => assert [c][1..] == "";
    case Quoted(body) =>
      var open := st.(inString := true);
      assert NodeText(n)[1..] == PiecesText(body) + "\"";
      PiecesRead(open, body);
      AfterSnoc(open, PiecesText(body), '\"');
    case Nest(open, nodes) =>
      var inner := st.(stack := st.stack + [CloserOf(open)]);
      assert NodeText(n)[1..] == NodesText(nodes) + [CloserOf(open)];
      NodesRead(inner, nodes);
      AfterSnoc(inner, NodesText(nodes), CloserOf(open));
  }

  lemma {:induction false} NodesRead(st: State, nodes: seq<Node>)
    requires !st.bad && !st.inString && !st.escaped && AllMeant(nodes)
    ensures After(st, NodesText(nodes)) == st
    decreases nodes
  {
    hide Read, NodeText;
    if nodes != [] {
      NodeRead(st, nodes[0]);
      AfterAppend(st, NodeText(nodes[0]), NodesText(nodes[1..]));
      NodesRead(st, nodes[1..]);
    }
  }

  lemma {:induction false} NodesTextJoin(a: seq<Node>, b: seq<Node>)
    ensures NodesText(a + b) == NodesText(a) + NodesText(b)
  {
    hide NodeText;
    if a == [] {
      assert a + b == b;
    } else {
      assert (a + b)[1..] == a[1..] + b;
      NodesTextJoin(a[1..], b);
    }
  }

  lemma {:induction false} PiecesTextJoin(a: seq<Piece>, b: seq<Piece>)
    ensures PiecesText(a + b) == PiecesText(a) + PiecesText(b)
  {
    if a == [] {
      assert a + b == b;
    } else {
      assert (a + b)[1..] == a[1..] + b;
      PiecesTextJoin(a[1..], b);
    }
  }

  /** What has been read of one bracket level: its opener (none at the top) and its nodes so far. */
  datatype Level = Level(open: string, nodes: seq<Node>)

  ghost function LevelsText(levels: seq<Level>): string {
    if levels == [] then "" else LevelsText(levels[..|levels| - 1]) + levels[|levels| - 1].open + NodesText(levels[|levels| - 1].nodes)
  }

  ghost function Owed(levels: seq<Level>): string {
    if levels == [] then ""
    else Owed(levels[..|levels| - 1]) + if levels[|levels| - 1].open == "" then "" else [CloserOf(levels[|levels| - 1].open[0])]
  }

  /** A text read without a mismatch is the text of these levels, plus the string still open. */
  ghost predicate Reads(s: string, levels: seq<Level>, body: seq<Piece>) {
    var st := After(START, s);
    && levels != [] && levels[0].open == ""
    && (forall l :: l in levels ==> AllMeant(l.nodes))
    && (forall i :: 0 < i < |levels| ==> |levels[i].open| == 1 && IsOpener(levels[i].open[0]))
    && Owed(levels) == st.stack
    && Meant(Quoted(body)) && (!st.inString ==> body == [])
    && s == LevelsText(levels) + (if st.inString then "\"" else "") + PiecesText(body) + (if st.escaped then "\\" else "")
  }

  /** A node added to the innermost level. */
  ghost function Grow(levels: seq<Level>, n: Node): seq<Level>
    requires levels != []
  {
    var k := |levels| - 1;
    levels[..k] + [Level(levels[k].open, levels[k].nodes + [n])]
  }

  lemma GrowText(levels: seq<Level>, n: Node)
    requires levels != []
    ensures LevelsText(Grow(levels, n)) == LevelsText(levels) + NodeText(n)
    ensures Owed(Grow(levels, n)) == Owed(levels)
  {
    hide NodeText;
    var k := |levels| - 1;
    assert Grow(levels, n)[..k] == levels[..k];
    NodesTextJoin(levels[k].nodes, [n]);
    assert NodesText([n]) == NodeText(n) + NodesText([]);
  }

  lemma PushText(levels: seq<Level>, open: char)
    ensures LevelsText(levels + [Level([open], [])]) == LevelsText(levels) + [open]
    ensures Owed(levels + [Level([open], [])]) == Owed(levels) + [CloserOf(open)]
  {
    assert (levels + [Level([open], [])])[..|levels|] == levels;
  }

  /** Closing the innermost level makes it a node of the level around it. */
  lemma PopText(levels: seq<Level>)
    requires |levels| > 1 && |levels[|levels| - 1].open| == 1
    ensures var k := |levels| - 1;
      var open := levels[k].open[0];
      var popped := Grow(levels[..k], Nest(open, levels[k].nodes));
      && LevelsText(popped) == LevelsText(levels) + [CloserOf(open)]
      && Owed(levels) == Owed(popped) + [CloserOf(open)]
  {
    var k := |levels| - 1;
    var open := levels[k].open[0];
    GrowText(levels[..k], Nest(open, levels[k].nodes));
    assert levels[k].open == [open];
    assert LevelsText(levels) == LevelsText(levels[..k]) + [open] + NodesText(levels[k].nodes);
    assert NodeText(Nest(open, levels[k].nodes)) == [open] + NodesText(levels[k].nodes) + [CloserOf(open)];
  }

  /** The levels after one more character. */
  lemma ReadsMore(s: string, c: char, levels: seq<Level>, body: seq<Piece>) returns (levels': seq<Level>, body': seq<Piece>)
    requires Reads(s, levels, body) && Sane(After(START, s))
    requires !After(START, s).bad && !After(START, s + [c]).bad
    ensures Reads(s + [c], levels', body')
  {
    var st := After(START, s);
    AfterSnoc(START, s, c);
    if st.inString {
      levels', body' := ReadsInString(s, c, levels, body, st);
    } else {
      body' := [];
      levels' := ReadsOutside(s, c, levels, st);
    }
  }

  lemma ReadsInString(s: string, c: char, levels: seq<Level>, body: seq<Piece>, st: State) returns (levels': seq<Level>, body': seq<Piece>)
    requires st == After(START, s) && st.inString && !st.bad && Reads(s, levels, body)
    requires After(START, s + [c]) == Read(st, c)
    ensures Reads(s + [c], levels', body')
  {
    hide After, LevelsText, Owed, NodeText;
    levels', body' := levels, body;
    if st.escaped {
      body' := body + [Escaped(c)];
      PiecesTextJoin(body, [Escaped(c)]);
      assert PiecesText([Escaped(c)]) == ['\\', c] + PiecesText([]);
    } else if c == '\"' {
      levels', body' := Grow(levels, Quoted(body)), [];
      GrowText(levels, Quoted(body));
      GrowMeant(levels, Quoted(body));
      QuotedText(body);
    } else if c != '\\' {
      body' := body + [Raw(c)];
      PiecesTextJoin(body, [Raw(c)]);
      assert PiecesText([Raw(c)]) == [c] + PiecesText([]);
    }
  }

  lemma QuotedText(body: seq<Piece>)
    ensures NodeText(Quoted(body)) == "\"" + PiecesText(body) + "\""
  {}

  lemma GrowMeant(levels: seq<Level>, n: Node)
    requires levels != [] && Meant(n) && forall l :: l in levels ==> AllMeant(l.nodes)
    ensures forall l :: l in Grow(levels, n) ==> AllMeant(l.nodes)
    ensures |Grow(levels, n)| == |levels| && forall i :: 0 <= i < |levels| ==> Grow(levels, n)[i].open == levels[i].open
  {
    hide Meant;
    var k := |levels| - 1;
    assert levels[k] in levels;
    forall l | l in Grow(levels, n) ensures AllMeant(l.nodes) {
      if l in levels[..k] {
        assert l in levels;
      }
    }
  }

  lemma ReadsOutside(s: string, c: char, levels: seq<Level>, st: State) returns (levels': seq<Level>)
    requires st == After(START, s) && !st.inString && !st.escaped && !st.bad && Reads(s, levels, [])
    requires After(START, s + [c]) == Read(st, c) && !Read(st, c).bad
    ensures Reads(s + [c], levels', [])
  {
    hide After, LevelsText, Owed, NodeText, Meant;
    EmptyBody();
    levels' := levels;
    if IsOpener(c) {
      levels' := levels + [Level([c], [])];
      PushText(levels, c);
    } else if IsCloser(c) {
      var k := |levels| - 1;
      TopOwesNothing(levels);
      var n := Nest(levels[k].open[0], levels[k].nodes);
      assert levels[k] in levels;
      NestMeant(n);
      levels' := Grow(levels[..k], n);
      PopText(levels);
      GrowMeant(levels[..k], n);
    } else if c != '\"' {
      OtherMeant(c);
      levels' := Grow(levels, Other(c));
      GrowText(levels, Other(c));
      GrowMeant(levels, Other(c));
    }
  }

  lemma EmptyBody()
    ensures Meant(Quoted([])) && PiecesText([]) == ""
  {}

  lemma NestMeant(n: Node)
    requires n.Nest? && IsOpener(n.open) && AllMeant(n.nodes)
    ensures Meant(n)
  {}

  lemma OtherMeant(c: char)
    requires c != '\"' && !IsOpener(c) && !IsCloser(c)
    ensures Meant(Other(c)) && NodeText(Other(c)) == [c]
  {}

  /** The top level owes nothing. */
  lemma TopOwesNothing(levels: seq<Level>)
    requires levels != [] && levels[0].open == ""
    ensures |levels| == 1 ==> Owed(levels) == ""
  {
    assert |levels| == 1 ==> levels[..0] == [];
  }

  lemma {:induction false} LevelsOf(s: string) returns (levels: seq<Level>, body: seq<Piece>)
    requires !After(START, s).bad
    ensures Reads(s, levels, body)
  {
    if s == "" {
      levels, body := [Level("", [])], [];
      assert levels[..0] == [];
    } else {
      var init, c := s[..|s| - 1], s[|s| - 1];
      assert s == init + [c];
      AfterSnoc(START, init, c);
      AfterIsSane(START, init);
      levels, body := LevelsOf(init);
      levels, body := ReadsMore(init, c, levels, body);
    }
  }

  lemma OnlyTop(levels: seq<Level>)
    requires levels != [] && levels[0].open == "" && Owed(levels) == ""
    requires forall i :: 0 < i < |levels| ==> |levels[i].open| == 1
    ensures |levels| == 1 && LevelsText(levels) == NodesText(levels[0].nodes)
  {
    assert |levels| == 1 ==> levels[..0] == [];
  }

  /** A text is closed exactly when it is the text of some tree. */
  lemma ClosedIffTree(s: string)
    ensures Closed(s) <==> exists nodes :: AllMeant(nodes) && NodesText(nodes) == s
  {
    if Closed(s) {
      AfterIsSane(START, s);
      var levels, body := LevelsOf(s);
      OnlyTop(levels);
      assert levels[0] in levels;
      assert AllMeant(levels[0].nodes) && NodesText(levels[0].nodes) == s;
    }
    forall nodes | AllMeant(nodes) && NodesText(nodes) == s ensures Closed(s) {
      NodesRead(START, nodes);
    }
  }
}
