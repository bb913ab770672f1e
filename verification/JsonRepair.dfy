/** The repairs of a model's broken JSON: mismatched closers, a truncated end, raw control characters. */
module JsonRepair {
  import opened JsStrings
  import opened JsonLexer

  function Reverse(s: string): string { if s == "" then "" else Reverse(s[1..]) + [s[0]] }

  // ---------------------------------------------------------------- dangling commas

  /** End of the white space that starts at `i`. */
  function SkipSpaces(s: string, i: nat): (j: nat)
    requires i <= |s|
    ensures i <= j <= |s| && (forall k :: i <= k < j ==> IsSpace(s[k])) && (j < |s| ==> !IsSpace(s[j]))
    decreases |s| - i
  {
    if i < |s| && IsSpace(s[i]) then SkipSpaces(s, i + 1) else i
  }

  /** A comma, white space, and a closer start here. */
  predicate CommaBeforeCloser(s: string) {
    s != "" && s[0] == ',' && var j := SkipSpaces(s, 1); j < |s| && IsCloser(s[j])
  }

  /** `replace(/,\s*([}\]])/g, "$1")`, inside strings too. */
  function DropCommas(s: string): string
    decreases |s|
  {
    if s == "" then ""
    else if CommaBeforeCloser(s) then
      var j := SkipSpaces(s, 1);
      [s[j]] + DropCommas(s[j + 1..])
    else [s[0]] + DropCommas(s[1..])
  }

  /** No comma stands before a closer, anywhere. */
  ghost predicate NoDangling(s: string) { forall i :: 0 <= i < |s| ==> !CommaBeforeCloser(s[i..]) }

  lemma {:induction false} SpacesRead(st: State, s: string)
    requires forall k :: 0 <= k < |s| ==> IsSpace(s[k])
    ensures After(st, s) == if s != "" && st.inString && !st.bad then st.(escaped := false) else st
    decreases |s|
  {
    if s != "" {
      SpacesRead(Read(st, s[0]), s[1..]);
    }
  }

  /** Dropping a comma before a closer does not change what the scanner is left with. */
  lemma {:induction false} DropCommasRead(st: State, s: string)
    requires Sane(st)
    ensures After(st, DropCommas(s)) == After(st, s)
    decreases |s|
  {
    if s != "" {
      if CommaBeforeCloser(s) {
        var j := SkipSpaces(s, 1);
        DropOne(st, s, j);
        DropCommasRead(Read(st, s[j]), s[j + 1..]);
        ReadIsSane(st, s[j]);
        assert ([s[j]] + DropCommas(s[j + 1..]))[1..] == DropCommas(s[j + 1..]);
      } else {
        ReadIsSane(st, s[0]);
        DropCommasRead(Read(st, s[0]), s[1..]);
        assert ([s[0]] + DropCommas(s[1..]))[1..] == DropCommas(s[1..]);
      }
    }
  }

  lemma ReadIsSane(st: State, c: char)
    requires Sane(st)
    ensures Sane(Read(st, c))
  {}

  lemma DropOne(st: State, s: string, j: nat)
    requires Sane(st) && 0 < j < |s| && s[0] == ',' && IsCloser(s[j]) && forall k :: 1 <= k < j ==> IsSpace(s[k])
    ensures After(st, s) == After(Read(st, s[j]), s[j + 1..])
  {
    var gap, tail := s[..j], s[j..];
    assert s == gap + tail && gap[0] == ',' && tail[0] == s[j] && tail[1..] == s[j + 1..];
    assert forall k :: 0 <= k < |gap[1..]| ==> gap[1..][k] == s[k + 1];
    AfterAppend(st, gap, tail);
    SpacesRead(Read(st, ','), gap[1..]);
    assert Read(After(st, gap), s[j]) == Read(st, s[j]);
  }

  ghost function Count(s: string, c: char): nat {
    if s == "" then 0 else (if s[0] == c then 1 else 0) + Count(s[1..], c)
  }

  lemma {:induction false} CountJoin(a: string, b: string, c: char)
    ensures Count(a + b, c) == Count(a, c) + Count(b, c)
  {
    if a == "" {
      assert a + b == b;
    } else {
      assert (a + b)[1..] == a[1..] + b;
      CountJoin(a[1..], b, c);
    }
  }

  lemma CommaCost(s: string, j: nat)
    requires 0 < j < |s| && s[0] == ','
    ensures Count(s, ',') >= 1 + Count([s[j]], ',') + Count(s[j + 1..], ',')
  {
    var gap, closer, tail := s[..j], [s[j]], s[j + 1..];
    assert s == gap + (closer + tail);
    CountJoin(gap, closer + tail, ',');
    CountJoin(closer, tail, ',');
    assert gap[0] == ',';
  }

  lemma CountCons(c: char, s: string)
    ensures Count([c] + s, ',') == Count([c], ',') + Count(s, ',')
  {
    CountJoin([c], s, ',');
  }

  /** Dropping commas never adds one. */
  lemma {:induction false} DropCommasCost(s: string)
    ensures Count(DropCommas(s), ',') <= Count(s, ',')
    decreases |s|
  {
    hide Count, CommaBeforeCloser;
    if s != "" {
      if CommaBeforeCloser(s) {
        var j := CloserAfter(s);
        DropCommasCost(s[j + 1..]);
        CommaCost(s, j);
        CountCons(s[j], DropCommas(s[j + 1..]));
      } else {
        DropCommasCost(s[1..]);
        CountCons(s[0], DropCommas(s[1..]));
        CountCons(s[0], s[1..]);
        assert [s[0]] + s[1..] == s;
      }
    }
  }

  lemma CloserAfter(s: string) returns (j: nat)
    requires CommaBeforeCloser(s)
    ensures s != "" && j == SkipSpaces(s, 1) && 0 < j < |s| && s[0] == ',' && IsCloser(s[j])
  {
    j := SkipSpaces(s, 1);
  }

  lemma DanglingTail(s: string)
    requires s != ""
    ensures NoDangling(s) <==> !CommaBeforeCloser(s) && NoDangling(s[1..])
  {
    hide CommaBeforeCloser;
    assert s[0..] == s;
    var t := s[1..];
    assert forall i :: 0 <= i < |t| ==> t[i..] == s[i + 1..];
    if !CommaBeforeCloser(s) && NoDangling(t) {
      forall i | 0 <= i < |s| ensures !CommaBeforeCloser(s[i..]) {
        if i > 0 {
          assert s[i..] == t[i - 1..];
        }
      }
    }
  }

  /** Dropping commas changes a text exactly when there is one to drop, and it always costs a comma. */
  lemma {:induction false} DropCommasChanges(s: string)
    ensures NoDangling(s) ==> DropCommas(s) == s
    ensures !NoDangling(s) ==> Count(DropCommas(s), ',') < Count(s, ',')
    decreases |s|
  {
    hide Count, CommaBeforeCloser, NoDangling;
    if s == "" {
      NothingDangles();
    } else {
      DanglingTail(s);
      if CommaBeforeCloser(s) {
        var j := CloserAfter(s);
        DropCommasCost(s[j + 1..]);
        CommaCost(s, j);
        CountCons(s[j], DropCommas(s[j + 1..]));
      } else {
        DropCommasChanges(s[1..]);
        CountCons(s[0], DropCommas(s[1..]));
        CountCons(s[0], s[1..]);
        assert [s[0]] + s[1..] == s;
      }
    }
  }

  lemma NothingDangles()
    ensures NoDangling("")
  {}

  // ---------------------------------------------------------------- mismatched closers

  /** The closers popped until one that matches, that one included. */
  function Popped(stack: string, c: char): (p: (string, string))
    requires c in stack
    ensures |p.1| < |stack|
  {
    var top, rest := stack[|stack| - 1], stack[..|stack| - 1];
    if top == c then ([top], rest)
    else
      assert c in rest;
      var (more, left) := Popped(rest, c);
      ([top] + more, left)
  }

  /** The walk: what is owed, where the string stands, and what has been written. */
  datatype Walk = Walk(stack: string, inString: bool, escaped: bool, out: string)

  function WalkOn(w: Walk, c: char): Walk {
    if w.inString then
      var w' := w.(out := w.out + [c]);
      if w.escaped then w'.(escaped := false)
      else if c == '\\' then w'.(escaped := true)
      else if c == '\"' then w'.(inString := false)
      else w'
    else if c == '\"' then w.(inString := true, out := w.out + [c])
    else if IsOpener(c) then w.(stack := w.stack + [CloserOf(c)], out := w.out + [c])
    else if IsCloser(c) then
      if c !in w.stack then w
      else
        var (popped, left) := Popped(w.stack, c);
        w.(stack := left, out := w.out + popped)
    else w.(out := w.out + [c])
  }

  function WalkAll(w: Walk, s: string): Walk
    decreases |s|
  {
    if s == "" then w else WalkAll(WalkOn(w, s[0]), s[1..])
  }

  const BEGIN := Walk("", false, false, "")

  /** What is written once the text is over: the open string closed, then everything owed. */
  function Finished(w: Walk): string { w.out + (if w.inString then "\"" else "") + Reverse(w.stack) }

  function Repaired(src: string): string { DropCommas(Finished(WalkAll(BEGIN, src))) }

  method RepairClosings(src: string) returns (r: string)
    ensures r == Repaired(src)
  {
    var stack, out := "", "";
    var inString, escaped := false, false;
    for i := 0 to |src|
      invariant WalkAll(Walk(stack, inString, escaped, out), src[i..]) == WalkAll(BEGIN, src)
    {
      var ch := src[i];
      assert src[i..][1..] == src[i + 1..];
      if inString {
        out := out + [ch];
        if escaped {
          escaped := false;
        } else if ch == '\\' {
          escaped := true;
        } else if ch == '\"' {
          inString := false;
        }
      } else if ch == '\"' {
        inString, out := true, out + [ch];
      } else if IsOpener(ch) {
        stack, out := stack + [if ch == '{' then '}' else ']'], out + [ch];
      } else if IsCloser(ch) {
        if ch in stack {
          stack, out := PopUntil(stack, out, ch);
        }
      } else {
        out := out + [ch];
      }
    }
    if inString {
      out := out + "\"";
    } else {
      assert out + "" == out;
    }
    r := DropCommas(out + Reverse(stack));
  }

  method PopUntil(stack0: string, out0: string, ch: char) returns (stack: string, out: string)
    requires ch in stack0
    ensures stack == Popped(stack0, ch).1 && out == out0 + Popped(stack0, ch).0
  {
    stack, out := stack0, out0;
    while stack[|stack| - 1] != ch
      invariant ch in stack
      invariant Popped(stack, ch).1 == Popped(stack0, ch).1
      invariant out + Popped(stack, ch).0 == out0 + Popped(stack0, ch).0
      decreases |stack|
    {
      var top := stack[|stack| - 1];
      var more := Popped(stack[..|stack| - 1], ch).0;
      assert out + ([top] + more) == out + [top] + more;
      out := out + [top];
      stack := stack[..|stack| - 1];
    }
    out := out + [ch];
    stack := stack[..|stack| - 1];
  }

  /** The scanner, reading what the walk wrote, owes what the walk owes. */
  ghost predicate Mirrors(w: Walk) {
    After(START, w.out) == State(w.inString, w.escaped, w.stack, false) && (w.escaped ==> w.inString)
  }

  lemma {:induction false} PoppedRead(st: State, c: char)
    requires !st.bad && !st.inString && c in st.stack && forall d :: d in st.stack ==> IsCloser(d)
    ensures After(st, Popped(st.stack, c).0) == st.(stack := Popped(st.stack, c).1)
    ensures Popped(st.stack, c).1 <= st.stack
    decreases |st.stack|
  {
    var top, rest := st.stack[|st.stack| - 1], st.stack[..|st.stack| - 1];
    assert top in st.stack && Read(st, top) == st.(stack := rest);
    if top == c {
      assert [top][1..] == "";
    } else {
      PoppedRead(st.(stack := rest), c);
      assert ([top] + Popped(rest, c).0)[1..] == Popped(rest, c).0;
    }
  }

  ghost predicate OnlyClosers(stack: string) { forall d :: d in stack ==> IsCloser(d) }

  lemma WalkMirrors(w: Walk, c: char)
    requires Mirrors(w) && OnlyClosers(w.stack)
    ensures Mirrors(WalkOn(w, c)) && OnlyClosers(WalkOn(w, c).stack)
  {
    hide After, Popped;
    var st := After(START, w.out);
    AfterSnoc(START, w.out, c);
    if !w.inString && IsCloser(c) && c in w.stack {
      PoppedRead(st, c);
      AfterAppend(START, w.out, Popped(w.stack, c).0);
    }
  }

  lemma {:induction false} WalkAllMirrors(w: Walk, s: string)
    requires Mirrors(w) && OnlyClosers(w.stack)
    ensures Mirrors(WalkAll(w, s)) && OnlyClosers(WalkAll(w, s).stack)
    decreases |s|
  {
    hide Mirrors, WalkOn;
    if s != "" {
      WalkMirrors(w, s[0]);
      WalkAllMirrors(WalkOn(w, s[0]), s[1..]);
    }
  }

  /** Reading everything owed, last first, leaves nothing owed. */
  lemma {:induction false} PaysAll(st: State)
    requires !st.bad && !st.inString && OnlyClosers(st.stack)
    ensures After(st, Reverse(st.stack)) == st.(stack := "")
    decreases |st.stack|
  {
    if st.stack != "" {
      var top, rest := st.stack[|st.stack| - 1], st.stack[..|st.stack| - 1];
      assert top in st.stack && forall d :: d in rest ==> d in st.stack;
      PaysAll(st.(stack := rest));
      ReverseSnoc(rest, top);
      assert st.stack == rest + [top];
      assert ([top] + Reverse(rest))[1..] == Reverse(rest);
    }
  }

  lemma {:induction false} ReverseSnoc(s: string, c: char)
    ensures Reverse(s + [c]) == [c] + Reverse(s)
  {
    if s != "" {
      assert (s + [c])[1..] == s[1..] + [c];
      ReverseSnoc(s[1..], c);
    } else {
      assert ("" + [c])[1..] == "";
    }
  }

  /** Inside a string that never closes, closers are only text. */
  lemma {:induction false} ClosersInString(st: State, s: string)
    requires !st.bad && st.inString && !st.escaped && OnlyClosers(s)
    ensures After(st, s) == st
    decreases |s|
  {
    if s != "" {
      assert s[0] in s && forall d :: d in s[1..] ==> d in s;
      ClosersInString(st, s[1..]);
    }
  }

  /** What is written closes exactly when the text did not stop in the middle of an escape. */
  lemma FinishedIsClosed(w: Walk)
    requires Mirrors(w) && OnlyClosers(w.stack)
    ensures Closed(Finished(w)) <==> !w.escaped
  {
    var quote := if w.inString then "\"" else "";
    var closers := Reverse(w.stack);
    AfterAppend(START, w.out + quote, closers);
    AfterAppend(START, w.out, quote);
    var st := After(START, w.out);
    assert "\""[1..] == "";
    ReverseClosers(w.stack);
    if w.escaped {
      assert After(st, quote) == st.(escaped := false);
      ClosersInString(st.(escaped := false), closers);
    } else {
      assert After(st, quote) == st.(inString := false);
      PaysAll(st.(inString := false));
    }
  }

  lemma {:induction false} ReverseClosers(s: string)
    requires OnlyClosers(s)
    ensures OnlyClosers(Reverse(s)) && (s != "" ==> Reverse(s) != "" && IsCloser(Reverse(s)[|Reverse(s)| - 1]))
  {
    if s != "" {
      assert s[0] in s && forall d :: d in s[1..] ==> d in s;
      ReverseClosers(s[1..]);
    }
  }

  lemma {:induction false} WalkQuotes(w: Walk, s: string)
    requires w.escaped ==> w.inString
    ensures Quote(WalkAll(w, s).inString, WalkAll(w, s).escaped) == AfterQuotes(Quote(w.inString, w.escaped), s)
    decreases |s|
  {
    hide Popped;
    if s != "" {
      WalkQuotes(WalkOn(w, s[0]), s[1..]);
    }
  }

  lemma WholeWalk(src: string) returns (w: Walk)
    ensures w == WalkAll(BEGIN, src) && Mirrors(w) && OnlyClosers(w.stack)
    ensures w.escaped <==> EndsInEscape(src)
  {
    w := WalkAll(BEGIN, src);
    WalkAllMirrors(BEGIN, src);
    WalkQuotes(BEGIN, src);
  }

  /** The repaired text has its strings closed and its brackets properly nested, if and only if the
      text did not stop inside an unfinished escape. */
  lemma RepairedIsClosed(src: string)
    ensures Closed(Repaired(src)) <==> !EndsInEscape(src)
  {
    hide Mirrors, Finished, EndsInEscape;
    var w := WholeWalk(src);
    FinishedIsClosed(w);
    DropCommasRead(START, Finished(w));
  }

  /** Where no closer is wrong, the walk writes what it reads. */
  lemma {:induction false} WalkFaithful(w: Walk, s: string)
    requires Mirrors(w) && OnlyClosers(w.stack)
    requires !After(State(w.inString, w.escaped, w.stack, false), s).bad
    ensures WalkAll(w, s).out == w.out + s
    ensures WalkAll(w, s).stack == After(State(w.inString, w.escaped, w.stack, false), s).stack
    ensures WalkAll(w, s).inString == After(State(w.inString, w.escaped, w.stack, false), s).inString
    decreases |s|
  {
    if s == "" {
      assert w.out + s == w.out;
    } else {
      var st := State(w.inString, w.escaped, w.stack, false);
      var c := s[0];
      WalkMirrors(w, c);
      if Read(st, c).bad {
        BadStays(Read(st, c), s[1..]);
      }
      StepFaithful(w, c);
      hide WalkOn, Mirrors, Read;
      WalkFaithful(WalkOn(w, c), s[1..]);
      assert w.out + [c] + s[1..] == w.out + s;
    }
  }

  lemma StepFaithful(w: Walk, c: char)
    requires !Read(State(w.inString, w.escaped, w.stack, false), c).bad
    ensures var w' := WalkOn(w, c);
      && w'.out == w.out + [c]
      && State(w'.inString, w'.escaped, w'.stack, false) == Read(State(w.inString, w.escaped, w.stack, false), c)
  {}

  /** The walk neither adds nor drops a comma. */
  lemma {:induction false} WalkCommas(w: Walk, s: string)
    requires OnlyClosers(w.stack)
    ensures Count(WalkAll(w, s).out, ',') == Count(w.out, ',') + Count(s, ',')
    decreases |s|
  {
    hide Count;
    NoCommas("");
    if s != "" {
      StepCommas(w, s[0]);
      WalkCommas(WalkOn(w, s[0]), s[1..]);
      CountCons(s[0], s[1..]);
      assert [s[0]] + s[1..] == s;
    }
  }

  lemma StepCommas(w: Walk, c: char)
    requires OnlyClosers(w.stack)
    ensures OnlyClosers(WalkOn(w, c).stack)
    ensures Count(WalkOn(w, c).out, ',') == Count(w.out, ',') + Count([c], ',')
  {
    hide Count, Popped;
    CountJoin(w.out, [c], ',');
    if IsCloser(c) {
      OnlyCloser(c);
      NoCommas([c]);
      if c in w.stack {
        PoppedClosers(w.stack, c);
        NoCommas(Popped(w.stack, c).0);
        CountJoin(w.out, Popped(w.stack, c).0, ',');
      }
    }
  }

  lemma OnlyCloser(c: char)
    requires IsCloser(c)
    ensures OnlyClosers([c])
  {}

  lemma {:induction false} NoCommas(s: string)
    requires OnlyClosers(s)
    ensures Count(s, ',') == 0
  {
    if s != "" {
      assert s[0] in s && forall d :: d in s[1..] ==> d in s;
      NoCommas(s[1..]);
    }
  }

  lemma {:induction false} PoppedClosers(stack: string, c: char)
    requires c in stack && OnlyClosers(stack)
    ensures OnlyClosers(Popped(stack, c).0) && OnlyClosers(Popped(stack, c).1)
    decreases |stack|
  {
    var top, rest := stack[|stack| - 1], stack[..|stack| - 1];
    assert top in stack && forall d :: d in rest ==> d in stack;
    if top != c {
      PoppedClosers(rest, c);
    }
  }

  lemma FinishedCommas(w: Walk)
    requires OnlyClosers(w.stack)
    ensures Count(Finished(w), ',') == Count(w.out, ',')
  {
    hide Count;
    ReverseClosers(w.stack);
    NoCommas(Reverse(w.stack));
    var quote := if w.inString then "\"" else "";
    QuoteHasNoComma();
    CountJoin(w.out + quote, Reverse(w.stack), ',');
    CountJoin(w.out, quote, ',');
  }

  lemma QuoteHasNoComma()
    ensures Count("\"", ',') == 0 && Count("", ',') == 0
  {}

  /** A text is left alone exactly when it is closed and no comma stands before a closer. */
  lemma RepairedUnchanged(src: string)
    ensures Repaired(src) == src <==> Closed(src) && NoDangling(src)
  {
    var w := WholeWalk(src);
    if Closed(src) && NoDangling(src) {
      WalkFaithful(BEGIN, src);
      assert "" + src == src;
      assert Finished(w) == src;
      DropCommasChanges(src);
    }
    if Repaired(src) == src {
      UnchangedIsClosed(src, w);
    }
  }

  lemma UnchangedIsClosed(src: string, w: Walk)
    requires Repaired(src) == src && w == WalkAll(BEGIN, src) && Mirrors(w) && OnlyClosers(w.stack)
    requires w.escaped <==> EndsInEscape(src)
    ensures Closed(src) && NoDangling(src)
  {
    EscapedInside(w);
    hide Count, Mirrors, Closed, Finished, NoDangling, EndsInEscape, Reverse, WalkAll;
    WalkCommas(BEGIN, src);
    EmptyHasNoComma();
    FinishedCommas(w);
    DropCommasChanges(Finished(w));
    assert Finished(w) == src;
    FinishedIsClosed(w);
    EscapedLast(src, w);
  }

  lemma EscapedInside(w: Walk)
    requires Mirrors(w)
    ensures w.escaped ==> w.inString
  {}

  lemma EmptyHasNoComma()
    ensures Count("", ',') == 0
  {}

  /** A text that stops inside an escape never comes out as it was: its last character differs. */
  lemma EscapedLast(src: string, w: Walk)
    requires OnlyClosers(w.stack) && (w.escaped <==> EndsInEscape(src)) && (w.escaped ==> w.inString)
    ensures w.escaped ==> Finished(w) != src
  {
    EscapeNeedsBackslash(OUTSIDE, src);
    ReverseClosers(w.stack);
    var f := Finished(w);
    if w.escaped {
      assert f[|f| - 1] != '\\';
    }
  }

  // ---------------------------------------------------------------- a truncated end

  /** `replace(/,\s*$/, "")`: the comma before the final white space, with that white space. */
  function StripComma(src: string): (t: string)
    ensures t <= src
  {
    var t := TrimEnd(src);
    if t != "" && t[|t| - 1] == ',' then t[..|t| - 1] else src
  }

  /** The openers met, popped by any closer, and where the strings stand. */
  datatype Open = Open(stack: string, quote: Quote)

  function OpenOn(o: Open, c: char): Open {
    if o.quote.inString || c == '\"' then o.(quote := ReadQuote(o.quote, c))
    else if IsOpener(c) then o.(stack := o.stack + [c])
    else if IsCloser(c) then o.(stack := if o.stack == "" then "" else o.stack[..|o.stack| - 1])
    else o
  }

  function OpenAll(o: Open, s: string): Open
    decreases |s|
  {
    if s == "" then o else OpenAll(OpenOn(o, s[0]), s[1..])
  }

  /** The closers of a stack of openers, the last opener's first. */
  function CloseAll(stack: string): string {
    if stack == "" then "" else [CloserOf(stack[|stack| - 1])] + CloseAll(stack[..|stack| - 1])
  }

  function Balanced(src: string): string {
    var o := OpenAll(Open("", OUTSIDE), src);
    StripComma(src) + (if o.quote.inString then "\"" else "") + CloseAll(o.stack)
  }

  method BalanceJson(src: string) returns (out: string)
    ensures out == Balanced(src)
  {
    var stack, inString, escaped := "", false, false;
    for i := 0 to |src|
      invariant escaped ==> inString
      invariant OpenAll(Open(stack, Quote(inString, escaped)), src[i..]) == OpenAll(Open("", OUTSIDE), src)
    {
      var ch := src[i];
      assert src[i..][1..] == src[i + 1..];
      if inString {
        if escaped {
          escaped := false;
        } else if ch == '\\' {
          escaped := true;
        } else if ch == '\"' {
          inString := false;
        }
      } else if ch == '\"' {
        inString := true;
      } else if IsOpener(ch) {
        stack := stack + [ch];
      } else if IsCloser(ch) {
        stack := if stack == "" then "" else stack[..|stack| - 1];
      }
    }
    out := StripComma(src);
    if inString {
      out := out + "\"";
    } else {
      assert out + "" == out;
    }
    ghost var start, all := out, stack;
    while stack != ""
      invariant out + CloseAll(stack) == start + CloseAll(all)
      decreases |stack|
    {
      var top := stack[|stack| - 1];
      assert out + ([CloserOf(top)] + CloseAll(stack[..|stack| - 1])) == out + [CloserOf(top)] + CloseAll(stack[..|stack| - 1]);
      out := out + [if top == '{' then '}' else ']'];
      stack := stack[..|stack| - 1];
    }
    assert out + "" == out;
  }

  /** The closers owed for these openers. */
  ghost function Owes(stack: string): string {
    if stack == "" then "" else Owes(stack[..|stack| - 1]) + [CloserOf(stack[|stack| - 1])]
  }

  lemma {:induction false} OwesClosers(stack: string)
    ensures OnlyClosers(Owes(stack)) && Reverse(Owes(stack)) == CloseAll(stack) && |Owes(stack)| == |stack|
  {
    if stack != "" {
      OwesClosers(stack[..|stack| - 1]);
      ReverseSnoc(Owes(stack[..|stack| - 1]), CloserOf(stack[|stack| - 1]));
    }
  }

  lemma OpenStep(o: Open, c: char)
    requires o.quote.escaped ==> o.quote.inString
    requires !Read(State(o.quote.inString, o.quote.escaped, Owes(o.stack), false), c).bad
    ensures var o' := OpenOn(o, c);
      && Read(State(o.quote.inString, o.quote.escaped, Owes(o.stack), false), c)
         == State(o'.quote.inString, o'.quote.escaped, Owes(o'.stack), false)
      && (o'.quote.escaped ==> o'.quote.inString)
  {
    OwesClosers(o.stack);
    assert (o.stack + [c])[..|o.stack|] == o.stack;
    if o.stack != "" {
      var n := |o.stack| - 1;
      assert Owes(o.stack) == Owes(o.stack[..n]) + [CloserOf(o.stack[n])];
      OwesClosers(o.stack[..n]);
    }
  }

  /** Where no closer is wrong, popping anything is popping the right one. */
  lemma {:induction false} OpenIsRead(o: Open, s: string)
    requires o.quote.escaped ==> o.quote.inString
    requires !After(State(o.quote.inString, o.quote.escaped, Owes(o.stack), false), s).bad
    ensures var o' := OpenAll(o, s);
      After(State(o.quote.inString, o.quote.escaped, Owes(o.stack), false), s)
      == State(o'.quote.inString, o'.quote.escaped, Owes(o'.stack), false)
    decreases |s|
  {
    if s != "" {
      var st := State(o.quote.inString, o.quote.escaped, Owes(o.stack), false);
      if Read(st, s[0]).bad {
        BadStays(Read(st, s[0]), s[1..]);
      }
      OpenStep(o, s[0]);
      hide OpenOn, Owes, Read;
      OpenIsRead(OpenOn(o, s[0]), s[1..]);
    }
  }

  /** The dropped end, a comma and white space or nothing, changes at most a pending escape. */
  lemma StripCommaRead(src: string)
    ensures var t, st := After(START, StripComma(src)), After(START, src);
      && t.bad == st.bad
      && (!st.bad ==> t == State(st.inString, t.escaped, st.stack, false) && (t.escaped ==> t.inString))
      && (!st.bad ==> (t.escaped <==> EndsInEscape(StripComma(src))))
  {
    hide After, StripComma, AfterQuotes;
    var t := StripComma(src);
    var gap := src[|t|..];
    assert src == t + gap;
    AfterAppend(START, t, gap);
    AfterIsSane(START, t);
    GapIsSpace(src);
    GapRead(After(START, t), gap);
    if !After(START, t).bad {
      QuotesAreRead(START, t);
    }
  }

  lemma GapIsSpace(src: string)
    ensures var gap := src[|StripComma(src)|..];
      gap != "" ==> gap[0] == ',' && forall k :: 0 <= k < |gap[1..]| ==> IsSpace(gap[1..][k])
  {
    var t := StripComma(src);
    var gap := src[|t|..];
    if gap != "" {
      forall k | 0 <= k < |gap[1..]| ensures IsSpace(gap[1..][k]) {
        assert gap[1..][k] == src[|t| + 1 + k];
      }
    }
  }

  lemma GapRead(st: State, gap: string)
    requires Sane(st) && (gap != "" ==> gap[0] == ',' && forall k :: 0 <= k < |gap[1..]| ==> IsSpace(gap[1..][k]))
    ensures After(st, gap).bad == st.bad
    ensures !st.bad ==> After(st, gap) == State(st.inString, After(st, gap).escaped, st.stack, false)
    ensures !st.bad && gap != "" ==> !After(st, gap).escaped
    ensures gap == "" ==> After(st, gap) == st
  {
    if gap != "" {
      SpacesRead(Read(st, ','), gap[1..]);
    }
  }

  /** Rebalancing gives a closed text, if and only if no closer was wrong and the text does not stop
      in an escape once its trailing comma is gone (the comma may be what was escaped). */
  lemma BalancedIsClosed(src: string)
    ensures Closed(Balanced(src)) <==> !After(START, src).bad && !EndsInEscape(StripComma(src))
  {
    var o := OpenAll(Open("", OUTSIDE), src);
    var t := StripComma(src);
    var quote, closers := if o.quote.inString then "\"" else "", CloseAll(o.stack);
    StripCommaRead(src);
    AfterAppend(START, t + quote, closers);
    AfterAppend(START, t, quote);
    var st := After(START, t);
    assert "\""[1..] == "";
    if After(START, src).bad {
      BadStays(st, quote);
      BadStays(st, closers);
    } else {
      OpenIsRead(Open("", OUTSIDE), src);
      OwesClosers(o.stack);
      ReverseClosers(st.stack);
      hide EndsInEscape, StripComma;
      if st.escaped {
        assert After(st, quote) == st.(escaped := false);
        ClosersInString(st.(escaped := false), closers);
      } else {
        assert After(st, quote) == st.(inString := false);
        PaysAll(st.(inString := false));
      }
    }
  }

  /** Cutting a closed text short leaves no wrong closer, so only a cut escape can defeat rebalancing. */
  lemma TruncatedIsClosed(whole: string, k: nat)
    requires Closed(whole) && k <= |whole|
    ensures Closed(Balanced(whole[..k])) <==> !EndsInEscape(StripComma(whole[..k]))
  {
    BalancedIsClosed(whole[..k]);
    assert whole == whole[..k] + whole[k..];
    AfterAppend(START, whole[..k], whole[k..]);
    if After(START, whole[..k]).bad {
      BadStays(After(START, whole[..k]), whole[k..]);
    }
  }

  // ---------------------------------------------------------------- texts where it shows

  lemma ReadTwo(st: State, a: char, b: char)
    ensures After(st, [a, b]) == Read(Read(st, a), b)
  {
    AfterSnoc(st, [a], b);
    assert [a] + [b] == [a, b] && [a][1..] == "";
  }

  /** A closed text with a comma before a bracket inside a string does not come out as it was. */
  lemma CommaInString()
    ensures Closed("[\",]\"]") && Repaired("[\",]\"]") != "[\",]\"]"
  {
    hide After, Read, Repaired;
    var src := "[\",]\"]";
    ReadTwo(START, '[', '\"');
    ReadTwo(After(START, "[\""), ',', ']');
    ReadTwo(After(START, "[\",]"), '\"', ']');
    AfterAppend(START, "[\"", ",]");
    AfterAppend(START, "[\",]", "\"]");
    assert "[\"" + ",]" == "[\",]" && "[\",]" + "\"]" == src;
    StringInList();
    assert CommaBeforeCloser(src[2..]);
    RepairedUnchanged(src);
  }

  lemma StringInList()
    ensures Read(Read(Read(Read(Read(Read(START, '['), '\"'), ','), ']'), '\"'), ']') == START
  {}

  /** A text that does not stop inside an escape, until its final comma, the escaped character, is stripped. */
  lemma CommaWasEscaped()
    ensures !After(START, "\"\\,").bad && !EndsInEscape("\"\\,") && !Closed(Balanced("\"\\,"))
  {
    hide After, AfterQuotes, Closed, Balanced;
    var src := "\"\\,";
    ReadTwo(START, '\"', '\\');
    AfterSnoc(START, "\"\\", ',');
    assert "\"\\" + [','] == src;
    QuotesAreRead(START, "\"\\");
    QuotesAreRead(START, src);
    assert StripComma(src) == "\"\\";
    BalancedIsClosed(src);
  }
}
