/** Which repair is made, said by the scanner of JsonLexer alone: what is written for each character, what is
    owed at the end, and which characters are dropped. */
module RepairMeaning {
  import opened JsStrings
  import opened JsonLexer
  import opened JsonRepair

  function Concat(pieces: seq<string>): string {
    if pieces == [] then "" else Concat(pieces[..|pieces| - 1]) + pieces[|pieces| - 1]
  }

  lemma ConcatSnoc(pieces: seq<string>, piece: string)
    ensures Concat(pieces + [piece]) == Concat(pieces) + piece
  {
    assert (pieces + [piece])[..|pieces|] == pieces;
  }

  // ---------------------------------------------------------------- mismatched closers

  /** Where the last closer of this kind is owed. */
  ghost predicate LastOwed(stack: string, c: char, j: int) {
    0 <= j < |stack| && stack[j] == c && forall k :: j < k < |stack| ==> stack[k] != c
  }

  /** What is written for a character after a text that leaves this state. A closer outside strings that is owed
      is written with what must be closed before it, and leaves owed exactly what stood before its last debt; one
      that is not owed is dropped; everything else is kept. */
  ghost predicate WrittenFor(st: State, c: char, piece: string) {
    if st.inString || !IsCloser(c) then piece == [c]
    else if c !in st.stack then piece == ""
    else
      && OnlyClosers(piece)
      && exists j :: LastOwed(st.stack, c, j) && After(st, piece) == st.(stack := st.stack[..j])
  }

  ghost predicate Written(src: string, pieces: seq<string>) {
    |pieces| == |src| && forall k :: 0 <= k < |src| ==> WrittenFor(After(START, Concat(pieces[..k])), src[k], pieces[k])
  }

  /** Everything owed, the last debt first. */
  ghost predicate PaidBack(stack: string, tail: string) {
    |tail| == |stack| && forall i :: 0 <= i < |stack| ==> tail[i] == stack[|stack| - 1 - i]
  }

  /** The repaired text before its commas are looked at. */
  ghost predicate Rebuilt(src: string, text: string) {
    exists pieces :: Written(src, pieces) && EndsAs(Concat(pieces), text)
  }

  /** What is written, a quote if a string is open, and everything owed. */
  ghost predicate EndsAs(written: string, text: string) {
    var st := After(START, written);
    exists tail :: PaidBack(st.stack, tail) && text == written + (if st.inString then "\"" else "") + tail
  }

  lemma {:induction false} ReverseIs(s: string)
    ensures PaidBack(s, Reverse(s))
  {
    if s != "" {
      ReverseIs(s[1..]);
    }
  }

  lemma {:induction false} PoppedIs(stack: string, c: char) returns (j: nat)
    requires c in stack
    ensures LastOwed(stack, c, j) && Popped(stack, c).1 == stack[..j]
    decreases |stack|
  {
    var top, rest := stack[|stack| - 1], stack[..|stack| - 1];
    if top == c {
      j := |stack| - 1;
    } else {
      j := PoppedIs(rest, c);
      assert rest[..j] == stack[..j];
    }
  }

  lemma StepWrites(w: Walk, c: char) returns (piece: string)
    requires Mirrors(w) && OnlyClosers(w.stack)
    ensures WalkOn(w, c).out == w.out + piece && WrittenFor(After(START, w.out), c, piece)
  {
    hide After, Popped;
    piece := [c];
    if !w.inString && IsCloser(c) {
      if c in w.stack {
        piece := Popped(w.stack, c).0;
        var j := PoppedIs(w.stack, c);
        PoppedRead(After(START, w.out), c);
        PoppedClosers(w.stack, c);
      } else {
        piece := "";
      }
    }
  }

  lemma {:induction false} WalkWrites(src: string, n: nat) returns (pieces: seq<string>)
    requires n <= |src|
    ensures Written(src[..n], pieces) && Concat(pieces) == WalkAll(BEGIN, src[..n]).out
    ensures Mirrors(WalkAll(BEGIN, src[..n])) && OnlyClosers(WalkAll(BEGIN, src[..n]).stack)
  {
    hide WrittenFor, WalkOn;
    WalkAllMirrors(BEGIN, src[..n]);
    if n == 0 {
      pieces := [];
    } else {
      pieces := WalkWrites(src, n - 1);
      WalkSnoc(BEGIN, src[..n - 1], src[n - 1]);
      assert src[..n] == src[..n - 1] + [src[n - 1]];
      var piece := StepWrites(WalkAll(BEGIN, src[..n - 1]), src[n - 1]);
      WrittenMore(src[..n - 1], pieces, src[n - 1], piece);
      ConcatSnoc(pieces, piece);
      pieces := pieces + [piece];
    }
  }

  lemma {:induction false} WalkSnoc(w: Walk, s: string, c: char)
    ensures WalkAll(w, s + [c]) == WalkOn(WalkAll(w, s), c)
    decreases |s|
  {
    hide WalkOn;
    if s == "" {
      assert ("" + [c])[1..] == "" && ("" + [c])[0] == c;
    } else {
      assert (s + [c])[1..] == s[1..] + [c];
      WalkSnoc(WalkOn(w, s[0]), s[1..], c);
    }
  }

  lemma WrittenMore(src: string, pieces: seq<string>, c: char, piece: string)
    requires Written(src, pieces) && WrittenFor(After(START, Concat(pieces)), c, piece)
    ensures Written(src + [c], pieces + [piece])
  {
    hide WrittenFor, After, Concat;
    var all := pieces + [piece];
    assert all[..|pieces|] == pieces;
    forall k | 0 <= k < |src| ensures all[..k] == pieces[..k] {}
  }

  /** The repaired text is rebuilt this way, and then freed of the commas before closers. */
  lemma RepairMeans(src: string)
    ensures exists text :: Rebuilt(src, text) && Repaired(src) == DropCommas(text)
  {
    hide Written, PaidBack, WalkAll, Reverse, After;
    var pieces := WalkWrites(src, |src|);
    assert src[..|src|] == src;
    var w := WalkAll(BEGIN, src);
    ReverseIs(w.stack);
    assert EndsAs(Concat(pieces), Finished(w));
    assert Rebuilt(src, Finished(w));
  }

  lemma {:induction false} ClosersPop(st: State, s: string)
    requires !st.bad && !st.inString && OnlyClosers(s) && !After(st, s).bad
    ensures |s| <= |st.stack| && After(st, s) == st.(stack := st.stack[..|st.stack| - |s|])
    ensures forall i :: 0 <= i < |s| ==> s[i] == st.stack[|st.stack| - 1 - i]
    decreases |s|
  {
    if s != "" {
      assert s[0] in s && forall d :: d in s[1..] ==> d in s;
      if Read(st, s[0]).bad {
        BadStays(Read(st, s[0]), s[1..]);
      }
      ClosersPop(Read(st, s[0]), s[1..]);
    }
  }

  lemma WrittenOnce(st: State, c: char, a: string, b: string)
    requires !st.bad && WrittenFor(st, c, a) && WrittenFor(st, c, b)
    ensures a == b
    ensures !After(st, a).bad
  {
    hide After;
    if !st.inString && IsCloser(c) && c in st.stack {
      ClosersPop(st, a);
      ClosersPop(st, b);
    } else {
      OneRead(st, c);
    }
  }

  lemma OneRead(st: State, c: char)
    ensures After(st, [c]) == Read(st, c) && After(st, "") == st
  {
    assert [c][1..] == "";
  }

  lemma WrittenAt(src: string, pieces: seq<string>, k: nat)
    requires Written(src, pieces) && k < |src|
    ensures |pieces| == |src| && WrittenFor(After(START, Concat(pieces[..k])), src[k], pieces[k])
    ensures pieces[..k + 1] == pieces[..k] + [pieces[k]]
    ensures Concat(pieces[..k + 1]) == Concat(pieces[..k]) + pieces[k]
  {
    hide WrittenFor, After, Concat;
    assert pieces[..k + 1] == pieces[..k] + [pieces[k]];
    ConcatSnoc(pieces[..k], pieces[k]);
  }

  lemma NothingWritten(pieces: seq<string>)
    ensures pieces[..0] == [] && After(START, Concat([])) == START && !START.bad
  {}

  /** No text can be rebuilt in two ways. */
  lemma {:induction false} WrittenIsOne(src: string, a: seq<string>, b: seq<string>, n: nat)
    requires Written(src, a) && Written(src, b) && n <= |src|
    ensures n <= |a| && n <= |b| && a[..n] == b[..n] && !After(START, Concat(a[..n])).bad
  {
    hide *;
    NothingWritten(a);
    NothingWritten(b);
    if n > 0 {
      WrittenAt(src, a, n - 1);
      WrittenAt(src, b, n - 1);
      WrittenIsOne(src, a, b, n - 1);
      WrittenOnce(After(START, Concat(a[..n - 1])), src[n - 1], a[n - 1], b[n - 1]);
      AfterAppend(START, Concat(a[..n - 1]), a[n - 1]);
    }
  }

  lemma RebuiltOnce(src: string, a: string, b: string)
    requires Rebuilt(src, a) && Rebuilt(src, b)
    ensures a == b
  {
    hide Written, After, Concat;
    var p :| Written(src, p) && EndsAs(Concat(p), a);
    var q :| Written(src, q) && EndsAs(Concat(q), b);
    WrittenIsWhole(src, p, q);
    EndsOnce(Concat(p), a, b);
  }

  lemma WrittenIsWhole(src: string, p: seq<string>, q: seq<string>)
    requires Written(src, p) && Written(src, q)
    ensures p == q
  {
    WrittenIsOne(src, p, q, |src|);
    assert |p| == |src| == |q|;
    assert p[..|src|] == p && q[..|src|] == q;
  }

  lemma EndsOnce(written: string, a: string, b: string)
    requires EndsAs(written, a) && EndsAs(written, b)
    ensures a == b
  {
    hide After;
    var stack := After(START, written).stack;
    forall x, y | PaidBack(stack, x) && PaidBack(stack, y) ensures x == y {}
  }

  // ---------------------------------------------------------------- what else is kept

  /** A text without its brackets outside strings. */
  ghost function Bare(q: Quote, s: string): string
    decreases |s|
  {
    if s == "" then ""
    else
      (if !q.inString && (IsOpener(s[0]) || IsCloser(s[0])) then "" else [s[0]]) + Bare(ReadQuote(q, s[0]), s[1..])
  }

  lemma {:induction false} BareJoin(q: Quote, a: string, b: string)
    ensures Bare(q, a + b) == Bare(q, a) + Bare(AfterQuotes(q, a), b)
    ensures AfterQuotes(q, a + b) == AfterQuotes(AfterQuotes(q, a), b)
    decreases |a|
  {
    if a == "" {
      assert a + b == b;
    } else {
      assert (a + b)[1..] == a[1..] + b;
      BareJoin(ReadQuote(q, a[0]), a[1..], b);
    }
  }

  lemma {:induction false} ClosersAreBare(q: Quote, s: string)
    requires !q.inString && OnlyClosers(s)
    ensures Bare(q, s) == "" && AfterQuotes(q, s) == q
    decreases |s|
  {
    if s != "" {
      assert s[0] in s && forall d :: d in s[1..] ==> d in s;
      ClosersAreBare(q, s[1..]);
    }
  }

  lemma OneIsBare(q: Quote, c: char)
    ensures Bare(q, [c]) == (if !q.inString && (IsOpener(c) || IsCloser(c)) then "" else [c])
    ensures AfterQuotes(q, [c]) == ReadQuote(q, c) && Bare(q, "") == "" && AfterQuotes(q, "") == q
  {
    assert [c][1..] == "";
  }

  lemma BareStep(st: State, c: char, piece: string)
    requires !st.bad && WrittenFor(st, c, piece)
    ensures var q := Quote(st.inString, st.escaped);
      Sane(st) ==> Bare(q, piece) == Bare(q, [c]) && AfterQuotes(q, piece) == AfterQuotes(q, [c])
  {
    hide After, Bare, AfterQuotes;
    var q := Quote(st.inString, st.escaped);
    OneIsBare(q, c);
    if !st.inString && IsCloser(c) && c in st.stack {
      ClosersAreBare(q, piece);
    }
  }

  lemma {:induction false} WrittenIsBare(src: string, pieces: seq<string>, n: nat)
    requires Written(src, pieces) && n <= |src|
    ensures |pieces| == |src| && Bare(OUTSIDE, Concat(pieces[..n])) == Bare(OUTSIDE, src[..n])
    ensures AfterQuotes(OUTSIDE, Concat(pieces[..n])) == AfterQuotes(OUTSIDE, src[..n])
  {
    hide WrittenFor, Bare, AfterQuotes, After, Concat;
    NothingWritten(pieces);
    EmptyConcat();
    if n > 0 {
      WrittenIsBare(src, pieces, n - 1);
      WrittenAt(src, pieces, n - 1);
      var before := Concat(pieces[..n - 1]);
      WrittenIsOne(src, pieces, pieces, n - 1);
      AfterIsSane(START, before);
      QuotesAreRead(START, before);
      BareStep(After(START, before), src[n - 1], pieces[n - 1]);
      BareJoin(OUTSIDE, before, pieces[n - 1]);
      BareJoin(OUTSIDE, src[..n - 1], [src[n - 1]]);
      assert src[..n] == src[..n - 1] + [src[n - 1]];
    } else {
      assert src[..0] == "";
    }
  }

  lemma EmptyConcat()
    ensures Concat([]) == ""
  {}

  lemma {:induction false} PaidBackClosers(st: State, written: string, tail: string)
    requires st == After(START, written) && !st.bad && PaidBack(st.stack, tail)
    ensures OnlyClosers(tail)
  {
    hide After;
    StackOfClosers(START, written);
    forall d | d in tail ensures IsCloser(d) {
      var i :| 0 <= i < |tail| && tail[i] == d;
      assert st.stack[|st.stack| - 1 - i] in st.stack;
    }
  }

  lemma {:induction false} StackOfClosers(st: State, s: string)
    requires OnlyClosers(st.stack)
    ensures OnlyClosers(After(st, s).stack)
    decreases |s|
  {
    if s != "" {
      forall d | d in Read(st, s[0]).stack ensures IsCloser(d) {}
      StackOfClosers(Read(st, s[0]), s[1..]);
    }
  }

  /** Only brackets outside strings are dropped or added, and the quote of a string left open. */
  lemma BracketsOnly(src: string, text: string)
    requires Rebuilt(src, text) && !EndsInEscape(src)
    ensures Bare(OUTSIDE, text) == Bare(OUTSIDE, src) + if AfterQuotes(OUTSIDE, src).inString then "\"" else ""
  {
    hide Written, Bare, AfterQuotes, After, Concat, PaidBack;
    var pieces :| Written(src, pieces) && EndsAs(Concat(pieces), text);
    var written := Concat(pieces);
    WrittenIsBare(src, pieces, |src|);
    assert pieces[..|src|] == pieces && src[..|src|] == src;
    WrittenIsOne(src, pieces, pieces, |src|);
    QuotesAreRead(START, written);
    var st := After(START, written);
    var tail :| PaidBack(st.stack, tail) && text == written + (if st.inString then "\"" else "") + tail;
    PaidBackClosers(st, written, tail);
    var quote := if st.inString then "\"" else "";
    BareJoin(OUTSIDE, written + quote, tail);
    BareJoin(OUTSIDE, written, quote);
    OneIsBare(Quote(st.inString, st.escaped), '\"');
    EscapeIsInside(OUTSIDE, src);
    ClosersAreBare(AfterQuotes(OUTSIDE, written + quote), tail);
  }

  lemma {:induction false} EscapeIsInside(q: Quote, s: string)
    requires q.escaped ==> q.inString
    ensures AfterQuotes(q, s).escaped ==> AfterQuotes(q, s).inString
    decreases |s|
  {
    if s != "" {
      EscapeIsInside(ReadQuote(q, s[0]), s[1..]);
    }
  }

  // ---------------------------------------------------------------- dangling commas

  /** A comma, blanks up to `e`, and a closer there. */
  ghost predicate Dangles(s: string, j: int, e: int) {
    0 <= j < e < |s| && s[j] == ',' && IsCloser(s[e]) && forall k :: j < k < e ==> IsSpace(s[k])
  }

  ghost predicate Gone(s: string, i: int) { exists j, e :: Dangles(s, j, e) && j <= i < e }

  ghost function Remaining(s: string, i: nat): string
    requires i <= |s|
    decreases |s| - i
  {
    if i == |s| then "" else (if Gone(s, i) then "" else [s[i]]) + Remaining(s, i + 1)
  }

  lemma CommaIsDangling(s: string, i: nat)
    requires i < |s|
    ensures CommaBeforeCloser(s[i..]) <==> exists e :: Dangles(s, i, e)
    ensures CommaBeforeCloser(s[i..]) ==> Dangles(s, i, i + SkipSpaces(s[i..], 1))
  {
    hide IsSpace, SkipSpaces;
    var t := s[i..];
    assert t[0] == s[i];
    var n := SkipSpaces(t, 1);
    assert n < |t| ==> t[n] == s[i + n];
    forall k | i < k < i + n ensures IsSpace(s[k]) {
      assert s[k] == t[k - i];
    }
    assert CommaBeforeCloser(t) ==> Dangles(s, i, i + n);
    if e :| Dangles(s, i, e) {
      DanglingEnd(s, i, e, n);
    }
  }

  lemma DanglingEnd(s: string, i: nat, e: int, n: nat)
    requires Dangles(s, i, e) && 1 <= n <= |s| - i && (forall k :: i < k < i + n ==> IsSpace(s[k]))
    requires i + n < |s| ==> !IsSpace(s[i + n])
    ensures e == i + n
  {
    hide IsSpace;
    NoSpaceCloser(s[e]);
  }

  lemma NotInGap(s: string, e: nat, a: int, b: int)
    requires Dangles(s, a, b) && e < |s| && IsCloser(s[e])
    ensures !(a <= e < b)
  {
    hide IsSpace;
    NoSpaceCloser(s[e]);
  }

  lemma NoSpaceCloser(c: char)
    ensures IsCloser(c) ==> !IsSpace(c) && c != ','
    ensures c == ',' ==> !IsSpace(c)
  {}

  lemma GapIsGone(s: string, j: nat, e: nat)
    requires Dangles(s, j, e)
    ensures Remaining(s, j) == [s[e]] + Remaining(s, e + 1)
    ensures !Gone(s, e)
  {
    hide Remaining;
    forall a, b | Dangles(s, a, b) ensures !(a <= e < b) {
      NotInGap(s, e, a, b);
    }
    GapSkipped(s, j, j, e);
    RemainingStep(s, e);
  }

  lemma RemainingStep(s: string, i: nat)
    requires i < |s|
    ensures Remaining(s, i) == (if Gone(s, i) then "" else [s[i]]) + Remaining(s, i + 1)
  {
    hide Gone;
  }

  lemma {:induction false} GapSkipped(s: string, j: nat, i: nat, e: nat)
    requires Dangles(s, j, e) && j <= i <= e
    ensures Remaining(s, i) == Remaining(s, e)
    decreases e - i
  {
    hide Remaining, Dangles;
    if i < e {
      DanglesFits(s, j, e);
      RemainingStep(s, i);
      assert Gone(s, i);
      GapSkipped(s, j, i + 1, e);
    }
  }

  lemma DanglesFits(s: string, j: int, e: int)
    requires Dangles(s, j, e)
    ensures 0 <= j < e < |s|
  {}

  /** Gaps that open before `i` end there at the latest. */
  ghost predicate NoGapAcross(s: string, i: int) { forall j, e :: Dangles(s, j, e) && j < i ==> e <= i }

  lemma NextAfterGap(s: string, j: nat, e: nat)
    requires Dangles(s, j, e)
    ensures NoGapAcross(s, e + 1)
  {
    hide IsSpace;
    forall a, b | Dangles(s, a, b) && a < e + 1 ensures b <= e + 1 {
      NotInGap(s, e, a, b);
    }
  }

  lemma NothingDropped(s: string)
    ensures DropCommas("") == "" && Remaining(s, |s|) == "" && s[|s|..] == ""
  {}

  lemma RestOf(s: string, i: nat, n: nat)
    requires i + n <= |s|
    ensures s[i..][n..] == s[i + n..]
    ensures i + n < |s| ==> s[i..][n] == s[i + n]
  {}

  lemma {:induction false} DropCommasFrom(s: string, i: nat)
    requires i <= |s| && NoGapAcross(s, i)
    ensures DropCommas(s[i..]) == Remaining(s, i)
    decreases |s| - i
  {
    hide *;
    NothingDropped(s);
    if i < |s| {
      var t := s[i..];
      CommaIsDangling(s, i);
      DropStep(t);
      if CommaBeforeCloser(t) {
        var n := SkipSpaces(t, 1);
        DanglesFits(s, i, i + n);
        NextAfterGap(s, i, i + n);
        DropCommasFrom(s, i + n + 1);
        GapIsGone(s, i, i + n);
        RestOf(s, i, n);
        RestOf(s, i, n + 1);
      } else {
        NotGoneHere(s, i);
        DropCommasFrom(s, i + 1);
        RemainingStep(s, i);
        RestOf(s, i, 0);
        RestOf(s, i, 1);
      }
    }
  }

  lemma DropStep(s: string)
    requires s != ""
    ensures if CommaBeforeCloser(s)
      then SkipSpaces(s, 1) < |s| && DropCommas(s) == [s[SkipSpaces(s, 1)]] + DropCommas(s[SkipSpaces(s, 1) + 1..])
      else DropCommas(s) == [s[0]] + DropCommas(s[1..])
  {
    hide SkipSpaces, IsSpace, CommaBeforeCloser;
    if CommaBeforeCloser(s) {
      var j := CloserAfter(s);
    }
  }

  lemma NotGoneHere(s: string, i: nat)
    requires NoGapAcross(s, i) && forall e :: !Dangles(s, i, e)
    ensures !Gone(s, i) && NoGapAcross(s, i + 1)
  {
    hide Dangles;
  }

  /** What is dropped is each comma before a closer, with the blanks between them, and nothing else. */
  lemma DropCommasMeans(s: string)
    ensures DropCommas(s) == Remaining(s, 0)
  {
    hide IsSpace;
    assert s[0..] == s;
    DropCommasFrom(s, 0);
  }

  // ---------------------------------------------------------------- a truncated end

  /** Every closer outside strings closes what is open last, whatever its kind, and is nothing where nothing is
      open. */
  ghost predicate ClosedFor(st: State, c: char, piece: string) {
    if st.inString || !IsCloser(c) then piece == [c]
    else piece == if st.stack == "" then "" else [st.stack[|st.stack| - 1]]
  }

  ghost predicate Forgiven(src: string, pieces: seq<string>) {
    |pieces| == |src| && forall k :: 0 <= k < |src| ==> ClosedFor(After(START, Concat(pieces[..k])), src[k], pieces[k])
  }

  /** What stands before a trailing comma, or the whole. */
  lemma StripMeans(src: string)
    ensures StripComma(src) == src || exists gap :: Blank(gap) && src == StripComma(src) + "," + gap
    ensures (exists t, gap :: Blank(gap) && src == t + "," + gap) ==> StripComma(src) != src
  {
    hide IsSpace;
    var t := TrimEnd(src);
    if StripComma(src) != src {
      var gap := src[|t|..];
      forall c | c in gap ensures IsSpace(c) {
        var i :| 0 <= i < |gap| && gap[i] == c;
        assert c == src[|t| + i];
      }
      assert src == StripComma(src) + "," + gap;
    }
    if u, gap :| Blank(gap) && src == u + "," + gap {
      CommaIsKept(src, u, gap);
    }
  }

  lemma CommaIsKept(src: string, u: string, gap: string)
    requires Blank(gap) && src == u + "," + gap
    ensures StripComma(src) != src
  {
    hide IsSpace, TrimEnd;
    var t := TrimEnd(src);
    NoSpaceCloser(',');
    assert src[|u|] == ',';
    forall i | |u| < i < |src| ensures IsSpace(src[i]) {
      assert src[i] == gap[i - |u| - 1] && src[i] in gap;
    }
    assert |t| == |u| + 1;
  }

  lemma OwesSnoc(stack: string, c: char)
    ensures Owes(stack + [c]) == Owes(stack) + [CloserOf(c)]
    ensures stack != "" ==> Owes(stack) == Owes(stack[..|stack| - 1]) + [CloserOf(stack[|stack| - 1])]
    ensures Owes("") == ""
  {
    assert (stack + [c])[..|stack|] == stack;
  }

  lemma StepForgives(o: Open, c: char) returns (piece: string)
    requires o.quote.escaped ==> o.quote.inString
    ensures var st := State(o.quote.inString, o.quote.escaped, Owes(o.stack), false);
      var o' := OpenOn(o, c);
      && ClosedFor(st, c, piece)
      && After(st, piece) == State(o'.quote.inString, o'.quote.escaped, Owes(o'.stack), false)
      && (o'.quote.escaped ==> o'.quote.inString)
  {
    hide Owes;
    var st := State(o.quote.inString, o.quote.escaped, Owes(o.stack), false);
    OwesSnoc(o.stack, c);
    OwesClosers(o.stack);
    piece := [c];
    if !st.inString && IsCloser(c) {
      piece := if st.stack == "" then "" else [st.stack[|st.stack| - 1]];
      assert st.stack != "" ==> st.stack[|st.stack| - 1] in st.stack;
      if st.stack != "" {
        OneRead(st, piece[0]);
      } else {
        OneRead(st, c);
      }
    } else {
      OneRead(st, c);
    }
  }

  lemma {:induction false} OpenSnoc(o: Open, s: string, c: char)
    ensures OpenAll(o, s + [c]) == OpenOn(OpenAll(o, s), c)
    decreases |s|
  {
    hide OpenOn;
    if s == "" {
      assert ("" + [c])[1..] == "" && ("" + [c])[0] == c;
    } else {
      assert (s + [c])[1..] == s[1..] + [c];
      OpenSnoc(OpenOn(o, s[0]), s[1..], c);
    }
  }

  lemma {:induction false} OpenForgives(src: string, n: nat) returns (pieces: seq<string>)
    requires n <= |src|
    ensures Forgiven(src[..n], pieces)
    ensures var o := OpenAll(Open("", OUTSIDE), src[..n]);
      && After(START, Concat(pieces)) == State(o.quote.inString, o.quote.escaped, Owes(o.stack), false)
      && (o.quote.escaped ==> o.quote.inString)
  {
    hide ClosedFor, OpenOn, Owes, Concat, After;
    EmptyConcat();
    OwesSnoc("", ' ');
    OneRead(START, ' ');
    if n == 0 {
      pieces := [];
      assert src[..0] == "";
    } else {
      var init, c := src[..n - 1], src[n - 1];
      pieces := OpenForgives(src, n - 1);
      assert src[..n] == init + [c];
      OpenSnoc(Open("", OUTSIDE), init, c);
      var piece := StepForgives(OpenAll(Open("", OUTSIDE), init), c);
      AfterAppend(START, Concat(pieces), piece);
      ConcatSnoc(pieces, piece);
      ForgivenMore(init, pieces, c, piece);
      pieces := pieces + [piece];
    }
  }

  lemma ForgivenMore(src: string, pieces: seq<string>, c: char, piece: string)
    requires Forgiven(src, pieces) && ClosedFor(After(START, Concat(pieces)), c, piece)
    ensures Forgiven(src + [c], pieces + [piece])
  {
    hide ClosedFor, After, Concat;
    var all := pieces + [piece];
    assert all[..|pieces|] == pieces;
    forall k | 0 <= k < |src| ensures all[..k] == pieces[..k] {}
  }

  ghost predicate BalancedAs(src: string, st: State) {
    exists tail :: PaidBack(st.stack, tail) && Balanced(src) == StripComma(src) + (if st.inString then "\"" else "") + tail
  }

  /** The text without a trailing comma, the quote of a string left open, and everything owed, where a wrong
      closer counts for the right one. */
  lemma BalanceMeans(src: string)
    ensures exists pieces :: Forgiven(src, pieces) && BalancedAs(src, After(START, Concat(pieces)))
  {
    hide Forgiven, After, Concat, StripComma, OpenAll, Owes, PaidBack;
    var pieces := OpenForgives(src, |src|);
    assert src[..|src|] == src;
    var o := OpenAll(Open("", OUTSIDE), src);
    OwesClosers(o.stack);
    ReverseIs(Owes(o.stack));
    var tail := CloseAll(o.stack);
    assert PaidBack(After(START, Concat(pieces)).stack, tail);
  }
}
