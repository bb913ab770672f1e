/** What gluing a continuation onto a cut file gives, said of the two texts alone. */
module Gluing {
  import opened Wrappers
  import opened JsStrings
  import opened Documents
  import opened Rejoin

  // ---------------------------------------------------------------- the lines compared

  /** A line of this part of the text starts here. */
  ghost predicate LineAt(text: string, from: nat, to: nat, p: int) {
    from <= p <= to <= |text| && (p == from || text[p - 1] == '\n')
  }

  ghost predicate LineReads(l: Line, text: string, from: nat, to: nat) {
    LineAt(text, from, to, l.pos) && l.text == TrimEnd(FirstLine(text[l.pos..to]))
  }

  /** All lines of this part of the text, in order, each without its trailing blanks. */
  ghost predicate LinesIn(lines: seq<Line>, text: string, from: nat, to: nat) {
    && (forall k :: 0 <= k < |lines| ==> LineReads(lines[k], text, from, to))
    && (forall k :: 0 < k < |lines| ==> lines[k - 1].pos < lines[k].pos)
    && (forall p :: LineAt(text, from, to, p) ==> exists k :: 0 <= k < |lines| && lines[k].pos == p)
  }

  lemma LineInWindow(text: string, from: nat, to: nat, l: Line)
    requires from <= to <= |text| && IsLine(text[from..to], from, l)
    ensures LineReads(l, text, from, to)
  {
    hide TrimEnd, FirstLine;
    var w := text[from..to];
    assert w[l.pos - from..] == text[l.pos..to];
    assert l.pos > from ==> w[l.pos - from - 1] == text[l.pos - 1];
  }

  lemma LineOfWindow(text: string, from: nat, to: nat, p: int)
    requires LineAt(text, from, to, p)
    ensures StartsLine(text[from..to], p - from)
  {
    assert p > from ==> text[from..to][p - from - 1] == text[p - 1];
  }

  lemma WindowLines(text: string, from: nat, to: nat)
    requires from <= to <= |text|
    ensures LinesIn(LinesOf(Split(text[from..to], '\n'), from), text, from, to)
  {
    hide TrimEnd, FirstLine, LinesOf, Split, Join, IsLine, StartsLine, LineAt, LineReads;
    var parts := Split(text[from..to], '\n');
    var lines := LinesOf(parts, from);
    forall k | 0 <= k < |lines| ensures LineReads(lines[k], text, from, to) {
      LinesAreLines(parts, from, k);
      LineInWindow(text, from, to, lines[k]);
    }
    forall k | 0 < k < |lines| ensures lines[k - 1].pos < lines[k].pos {
      LinesAdvance(parts, from, k - 1);
    }
    forall p | LineAt(text, from, to, p) ensures exists k :: 0 <= k < |lines| && lines[k].pos == p {
      LineOfWindow(text, from, to, p);
      WindowBounds(text, from, to, p);
      var k := EveryLineIsThere(parts, from, p - from);
      assert lines[k].pos == p;
    }
  }

  lemma WindowBounds(text: string, from: nat, to: nat, p: int)
    requires LineAt(text, from, to, p)
    ensures from <= p <= to <= |text|
  {}

  /** Only the last 6000 characters of the file and the first 6000 of the continuation are searched, line by
      line. */
  lemma LinesCompared(base: string, continuation: string)
    ensures LinesIn(BaseLines(base), base, if |base| > 6000 then |base| - 6000 else 0, |base|)
    ensures LinesIn(HeadLines(continuation), continuation, 0, if |continuation| > 6000 then 6000 else |continuation|)
  {
    hide LinesIn, LinesOf, Split;
    var from := if |base| > 6000 then |base| - 6000 else 0;
    var to := if |continuation| > 6000 then 6000 else |continuation|;
    WindowLines(base, from, |base|);
    WindowLines(continuation, 0, to);
    assert base[from..|base|] == Tail(base) && |base| - |Tail(base)| == from;
    assert continuation[0..to] == Head(continuation);
  }

  // ---------------------------------------------------------------- the run of common lines used

  /** From these two lines on, exactly `n` lines agree: three or more, of 60 characters or more together, one of
      them of 10 or more, trailing and leading blanks not counted. */
  ghost predicate CommonRun(lb: seq<Line>, ls: seq<Line>, i: nat, j: nat, n: nat) {
    && i < |lb| && j < |ls| && Agree(lb, ls, i, j, n) && !Agree(lb, ls, i, j, n + 1)
    && n >= 3 && TrimmedLength(lb[i..i + n]) >= 60 && exists d :: i <= d < i + n && |Trim(lb[d].text)| >= 10
  }

  /** No such run holds more characters, and none before it in the file, or beside it and before it in the
      continuation, holds as many. */
  ghost predicate BestRun(lb: seq<Line>, ls: seq<Line>, i: nat, j: nat, n: nat) {
    && CommonRun(lb, ls, i, j, n)
    && forall x: nat, y: nat, m: nat :: CommonRun(lb, ls, x, y, m) ==>
         && TrimmedLength(lb[x..x + m]) <= TrimmedLength(lb[i..i + n])
         && (Before(x, y, i, j) ==> TrimmedLength(lb[x..x + m]) < TrimmedLength(lb[i..i + n]))
  }

  lemma AgreeLess(lb: seq<Line>, ls: seq<Line>, i: nat, j: nat, n: nat, m: nat)
    requires Agree(lb, ls, i, j, n) && m <= n
    ensures Agree(lb, ls, i, j, m)
  {}

  lemma CommonRunIs(lb: seq<Line>, ls: seq<Line>, i: nat, j: nat, n: nat)
    ensures CommonRun(lb, ls, i, j, n)
      <==> i < |lb| && j < |ls| && n == RunFrom(lb, ls, i, j).lines && Qualifies(RunFrom(lb, ls, i, j))
    ensures i < |lb| && j < |ls| ==>
      var r := RunFrom(lb, ls, i, j); i + r.lines <= |lb| && r.chars == TrimmedLength(lb[i..i + r.lines])
  {
    hide Agree, RunFrom, Trim, TrimmedLength;
    if i < |lb| && j < |ls| {
      RunMeans(lb, ls, i, j);
      var k := RunFrom(lb, ls, i, j).lines;
      if Agree(lb, ls, i, j, n) && n > k {
        AgreeLess(lb, ls, i, j, n, k + 1);
      }
      if n < k {
        AgreeLess(lb, ls, i, j, k, n + 1);
      }
    }
  }

  lemma LedRunsAreWorse(lb: seq<Line>, ls: seq<Line>, best: Option<Splice>, i: nat, j: nat, x: nat, y: nat, m: nat)
    requires Leads(lb, ls, best, i, j, |lb|, 0) && CommonRun(lb, ls, x, y, m)
    ensures best.Some? && x + m <= |lb|
    ensures TrimmedLength(lb[x..x + m]) <= best.value.chars
    ensures Before(x, y, i, j) ==> TrimmedLength(lb[x..x + m]) < best.value.chars
  {
    hide RunFrom, Qualifies, CommonRun, TrimmedLength;
    CommonRunIs(lb, ls, x, y, m);
  }

  lemma LeaderIs(lb: seq<Line>, ls: seq<Line>, best: Option<Splice>, i: nat, j: nat) returns (n: nat)
    requires Leads(lb, ls, best, i, j, |lb|, 0) && best.Some?
    ensures i < |lb| && j < |ls| && best.value.base == lb[i].pos && best.value.continuation == ls[j].pos
    ensures CommonRun(lb, ls, i, j, n) && i + n <= |lb| && best.value.chars == TrimmedLength(lb[i..i + n])
  {
    hide RunFrom, Qualifies, CommonRun, TrimmedLength;
    n := RunFrom(lb, ls, i, j).lines;
    CommonRunIs(lb, ls, i, j, n);
  }

  lemma LeadsIs(lb: seq<Line>, ls: seq<Line>, best: Option<Splice>, i: nat, j: nat) returns (n: nat)
    requires Leads(lb, ls, best, i, j, |lb|, 0)
    ensures best.None? ==> forall x: nat, y: nat, m: nat :: !CommonRun(lb, ls, x, y, m)
    ensures best.Some? ==> SpliceOf(lb, ls, i, j, n, Cut(best.value.base, best.value.continuation))
  {
    hide RunFrom, Qualifies, CommonRun, TrimmedLength, Leads, Before;
    n := 0;
    if best.Some? {
      n := LeaderIs(lb, ls, best, i, j);
    }
    forall x: nat, y: nat, m: nat | CommonRun(lb, ls, x, y, m)
      ensures best.Some? && x + m <= |lb|
      ensures TrimmedLength(lb[x..x + m]) <= best.value.chars
      ensures Before(x, y, i, j) ==> TrimmedLength(lb[x..x + m]) < best.value.chars
    {
      LedRunsAreWorse(lb, ls, best, i, j, x, y, m);
    }
  }

  ghost predicate SpliceOf(lb: seq<Line>, ls: seq<Line>, i: nat, j: nat, n: nat, cut: Cut) {
    BestRun(lb, ls, i, j, n) && cut.base == lb[i].pos && cut.continuation == ls[j].pos
  }

  /** Where the file and the continuation are cut for the best run of lines they share. */
  ghost predicate SpliceAt(base: string, continuation: string, cut: Cut) {
    exists i: nat, j: nat, n: nat :: SpliceOf(BaseLines(base), HeadLines(continuation), i, j, n, cut)
  }

  lemma OneBestRun(lb: seq<Line>, ls: seq<Line>, i: nat, j: nat, n: nat, a: Cut, x: nat, y: nat, m: nat, b: Cut)
    requires SpliceOf(lb, ls, i, j, n, a) && SpliceOf(lb, ls, x, y, m, b)
    ensures a == b
  {
    hide CommonRun, TrimmedLength;
    assert Before(i, j, x, y) || Before(x, y, i, j) || (i == x && j == y);
  }

  lemma OneSplice(base: string, continuation: string, a: Cut, b: Cut)
    requires SpliceAt(base, continuation, a) && SpliceAt(base, continuation, b)
    ensures a == b
  {
    hide SpliceOf, BaseLines, HeadLines;
    var lb, ls := BaseLines(base), HeadLines(continuation);
    var i: nat, j: nat, n: nat :| SpliceOf(lb, ls, i, j, n, a);
    var x: nat, y: nat, m: nat :| SpliceOf(lb, ls, x, y, m, b);
    OneBestRun(lb, ls, i, j, n, a, x, y, m, b);
  }

  lemma SpliceIs(base: string, continuation: string)
    ensures var best := BestSplice(base, continuation);
      if best.Some? then SpliceAt(base, continuation, Cut(best.value.base, best.value.continuation))
      else forall cut :: !SpliceAt(base, continuation, cut)
  {
    hide BestSplice, BaseLines, HeadLines, SpliceOf, Leads, CommonRun;
    var lb, ls := BaseLines(base), HeadLines(continuation);
    var i, j := BestSpliceIsBest(base, continuation);
    var n := LeadsIs(lb, ls, BestSplice(base, continuation), i, j);
    forall x: nat, y: nat, m: nat, cut | SpliceOf(lb, ls, x, y, m, cut) ensures CommonRun(lb, ls, x, y, m) {
      BestIsCommon(lb, ls, x, y, m, cut);
    }
  }

  lemma BestIsCommon(lb: seq<Line>, ls: seq<Line>, i: nat, j: nat, n: nat, cut: Cut)
    requires SpliceOf(lb, ls, i, j, n, cut)
    ensures CommonRun(lb, ls, i, j, n)
  {}

  // ---------------------------------------------------------------- the cut line repeated

  /** The continuation's first `n` characters, three or more and all on its first line, end the cut line. */
  ghost predicate Repeats(base: string, continuation: string, n: nat) {
    && 3 <= n <= |FirstLine(continuation)| && !Blank(LastLine(base))
    && EndsWith(LastLine(base), continuation[..n])
  }

  ghost predicate LongestRepeat(base: string, continuation: string, n: nat) {
    && (n == 0 || Repeats(base, continuation, n))
    && forall m: nat :: Repeats(base, continuation, m) ==> m <= n
  }

  lemma SkipRepeats(base: string, continuation: string)
    ensures LongestRepeat(base, continuation, JoinSkip(base, continuation))
  {
    hide JoinSkip, FirstLine, LastLine, Blank, EndsWith;
    SkipIsLongest(base, continuation);
  }

  // ---------------------------------------------------------------- the file glued

  /** The whole operation: a rewritten document replaces the file; else the best run of common lines is
      spliced when it starts within 2000 characters of the end; else what repeats the cut line is skipped. */
  ghost predicate Glues(base: string, continuation: string, file: string) {
    if Rewrites(base, continuation) then file == continuation
    else
      || (exists cut :: SpliceAt(base, continuation, cut) && SplicedAs(base, continuation, cut, file))
      || ((forall cut :: SpliceAt(base, continuation, cut) ==> |base| > cut.base + 2000)
          && exists n: nat :: LongestRepeat(base, continuation, n) && JoinedAs(base, continuation, n, file))
  }

  ghost predicate SplicedAs(base: string, continuation: string, cut: Cut, file: string) {
    && cut.base <= |base| <= cut.base + 2000 && cut.continuation <= |continuation|
    && file == base[..cut.base] + continuation[cut.continuation..]
  }

  ghost predicate JoinedAs(base: string, continuation: string, n: nat, file: string) {
    n <= |continuation| && file == base + continuation[n..]
  }

  /** It is what the code computes. */
  lemma RejoinGlues(base: string, continuation: string)
    ensures Glues(base, continuation, RejoinOf(base, continuation))
  {
    hide Replaces, Rewrites, SpliceAt, BestSplice, JoinSkip, LongestRepeat;
    ReplacesIsRewrites(base, continuation);
    if !Rewrites(base, continuation) {
      CutsFit(base, continuation);
      SpliceIs(base, continuation);
      SkipRepeats(base, continuation);
      var best := BestSplice(base, continuation);
      if best.Some? {
        var cut := Cut(best.value.base, best.value.continuation);
        forall other | SpliceAt(base, continuation, other) ensures other == cut {
          OneSplice(base, continuation, other, cut);
        }
      }
      assert base[..|base|] == base;
    }
  }

  /** And nothing else is. */
  lemma GluesOnce(base: string, continuation: string, a: string, b: string)
    requires Glues(base, continuation, a) && Glues(base, continuation, b)
    ensures a == b
  {
    hide Rewrites, SpliceAt, Repeats;
    if !Rewrites(base, continuation) {
      forall x, y | SpliceAt(base, continuation, x) && SpliceAt(base, continuation, y) ensures x == y {
        OneSplice(base, continuation, x, y);
      }
    }
  }

  // ---------------------------------------------------------------- what a file can lose

  /** All but the last 2000 characters of the file, at least. */
  ghost predicate KeepsMost(base: string, file: string) {
    exists n :: 0 <= n <= |base| <= n + 2000 && base[..n] <= file
  }

  /** A file loses more only where the continuation rewrites the document, and is then the bare continuation:
      never for a continuation of less than half its weight. */
  lemma LosesOnlyToRewrites(base: string, continuation: string)
    ensures !KeepsMost(base, RejoinOf(base, continuation)) <==> Rewrites(base, continuation) && !KeepsMost(base, continuation)
    ensures Rewrites(base, continuation) ==> RejoinOf(base, continuation) == continuation
    ensures 2 * |continuation| < |base| ==> KeepsMost(base, RejoinOf(base, continuation))
  {
    hide Replaces, SpliceAt, LongestRepeat, RejoinOf, DocumentAt, ClosingTagAt, BlankBetween;
    RejoinGlues(base, continuation);
    if !Rewrites(base, continuation) {
      var file := RejoinOf(base, continuation);
      if cut :| SpliceAt(base, continuation, cut) && SplicedAs(base, continuation, cut, file) {
        assert base[..cut.base] <= file;
      } else {
        assert base[..|base|] <= file;
      }
    }
  }
}
