/** Gluing the continuation of a cut answer back onto the file it continues. */
module Rejoin {
  import opened Wrappers
  import opened JsStrings
  import opened Documents

  const REJOIN_TAIL: nat := 6000
  const REJOIN_HEAD: nat := 6000
  const REJOIN_MIN_LINES: nat := 3
  const REJOIN_MIN_CHARS: nat := 60
  const REJOIN_MAX_REMOVED: nat := 2000
  const USEFUL_CHARS: nat := 10
  const MIN_OVERLAP: nat := 3

  // ---------------------------------------------------------------- lines

  /** A line without its trailing white space, and where it starts. */
  datatype Line = Line(text: string, pos: nat)

  function LinesOf(parts: seq<string>, startPos: nat): (lines: seq<Line>)
    ensures |lines| == |parts|
  {
    if parts == [] then [] else [Line(TrimEnd(parts[0]), startPos)] + LinesOf(parts[1..], startPos + |parts[0]| + 1)
  }

  method SplitLines(text: string, startPos: nat) returns (lines: seq<Line>)
    ensures lines == LinesOf(Split(text, '\n'), startPos)
  {
    hide TrimEnd;
    lines := [];
    var pos: nat := startPos;
    var parts := Split(text, '\n');
    for i := 0 to |parts|
      invariant lines + LinesOf(parts[i..], pos) == LinesOf(parts, startPos)
    {
      var l := parts[i];
      assert parts[i..][1..] == parts[i + 1..];
      lines := lines + [Line(TrimEnd(l), pos)];
      pos := pos + |l| + 1;
    }
  }

  /** Up to the next line break. */
  function FirstLine(s: string): (t: string)
    ensures t <= s && '\n' !in t
    ensures |t| < |s| ==> s[|t|] == '\n'
  {
    if s == "" || s[0] == '\n' then "" else [s[0]] + FirstLine(s[1..])
  }

  /** From after the last line break. */
  function LastLine(s: string): (t: string)
    ensures |t| <= |s| && t == s[|s| - |t|..] && '\n' !in t
    ensures |t| < |s| ==> s[|s| - |t| - 1] == '\n'
  {
    if s == "" || s[|s| - 1] == '\n' then "" else LastLine(s[..|s| - 1]) + [s[|s| - 1]]
  }

  ghost predicate StartsLine(text: string, p: int) {
    p == 0 || (0 < p <= |text| && text[p - 1] == '\n')
  }

  ghost predicate IsLine(text: string, startPos: nat, l: Line) {
    var p := l.pos - startPos;
    0 <= p <= |text| && StartsLine(text, p) && l.text == TrimEnd(FirstLine(text[p..]))
  }

  lemma {:induction false} JoinFirst(parts: seq<string>)
    requires parts != [] && forall p :: p in parts ==> '\n' !in p
    ensures FirstLine(Join(parts, '\n')) == parts[0]
    ensures |parts| == 1 ==> Join(parts, '\n') == parts[0]
    ensures |parts| > 1 ==> Join(parts, '\n') == parts[0] + ['\n'] + Join(parts[1..], '\n')
  {
    FirstLineIs(parts[0], if |parts| == 1 then "" else ['\n'] + Join(parts[1..], '\n'));
    if |parts| == 1 {
      assert parts[0] + "" == parts[0];
    } else {
      assert parts[0] + ['\n'] + Join(parts[1..], '\n') == parts[0] + (['\n'] + Join(parts[1..], '\n'));
    }
  }

  lemma {:induction false} FirstLineIs(a: string, b: string)
    requires '\n' !in a && (b != "" ==> b[0] == '\n')
    ensures FirstLine(a + b) == a
  {
    if a == "" {
      assert a + b == b;
    } else {
      assert (a + b)[1..] == a[1..] + b;
      FirstLineIs(a[1..], b);
    }
  }

  lemma LineOfRest(text: string, startPos: nat, skip: nat, l: Line)
    requires 0 < skip <= |text| && text[skip - 1] == '\n' && IsLine(text[skip..], startPos + skip, l)
    ensures IsLine(text, startPos, l)
  {
    hide TrimEnd, FirstLine;
    var p := l.pos - startPos - skip;
    assert text[skip..][p..] == text[skip + p..];
    assert p > 0 ==> text[skip..][p - 1] == text[skip + p - 1];
  }

  /** The lines of a text are all its lines, each at its place. */
  lemma {:induction false} LinesAreLines(parts: seq<string>, startPos: nat, k: nat)
    requires k < |parts| && forall p :: p in parts ==> '\n' !in p
    ensures IsLine(Join(parts, '\n'), startPos, LinesOf(parts, startPos)[k])
    ensures k == 0 ==> LinesOf(parts, startPos)[k].pos == startPos
    decreases |parts|
  {
    hide IsLine, TrimEnd, FirstLine, Join;
    var text := Join(parts, '\n');
    JoinFirst(parts);
    if k == 0 {
      FirstIsLine(parts[0], text, startPos);
    } else {
      var skip := |parts[0]| + 1;
      LinesAreLines(parts[1..], startPos + skip, k - 1);
      assert text[skip..] == Join(parts[1..], '\n');
      LineOfRest(text, startPos, skip, LinesOf(parts, startPos)[k]);
    }
  }

  lemma FirstIsLine(part: string, text: string, startPos: nat)
    requires part == FirstLine(text)
    ensures IsLine(text, startPos, Line(TrimEnd(part), startPos))
  {
    hide TrimEnd, FirstLine;
    assert text[0..] == text;
  }

  /** Lines stand one after the other. */
  lemma {:induction false} LinesAdvance(parts: seq<string>, startPos: nat, k: nat)
    requires k + 1 < |parts|
    ensures LinesOf(parts, startPos)[k].pos < LinesOf(parts, startPos)[k + 1].pos
    decreases |parts|
  {
    hide TrimEnd;
    if k == 0 {
      assert LinesOf(parts[1..], startPos + |parts[0]| + 1)[0].pos == startPos + |parts[0]| + 1;
    } else {
      LinesAdvance(parts[1..], startPos + |parts[0]| + 1, k - 1);
    }
  }

  lemma BreakIsAfter(a: string, b: string, p: nat)
    requires '\n' !in a && 0 < p <= |a + b| && (a + b)[p - 1] == '\n'
    ensures p > |a|
  {}

  lemma StartsInRest(text: string, skip: nat, p: nat)
    requires skip <= p <= |text| && StartsLine(text, p)
    ensures StartsLine(text[skip..], p - skip)
  {
    assert p > skip ==> text[skip..][p - skip - 1] == text[p - 1];
  }

  /** Every place where a line starts is the place of one of them. */
  lemma {:induction false} EveryLineIsThere(parts: seq<string>, startPos: nat, p: nat) returns (k: nat)
    requires parts != [] && forall q :: q in parts ==> '\n' !in q
    requires p <= |Join(parts, '\n')| && StartsLine(Join(parts, '\n'), p)
    ensures k < |parts| && LinesOf(parts, startPos)[k].pos == startPos + p
    decreases |parts|
  {
    hide TrimEnd, FirstLine, Join;
    var text := Join(parts, '\n');
    JoinFirst(parts);
    if p == 0 {
      k := 0;
    } else {
      assert parts[0] + text[|parts[0]|..] == text;
      BreakIsAfter(parts[0], text[|parts[0]|..], p);
      var skip := |parts[0]| + 1;
      assert text[skip..] == Join(parts[1..], '\n');
      StartsInRest(text, skip, p);
      k := EveryLineIsThere(parts[1..], startPos + skip, p - skip);
      k := k + 1;
    }
  }

  // ---------------------------------------------------------------- runs of common lines

  /** How many lines in a row agree, how many characters they hold, and how many of them prove something. */
  datatype Run = Run(lines: nat, chars: nat, useful: nat)

  function RunFrom(lb: seq<Line>, ls: seq<Line>, i: nat, j: nat): Run
    decreases if i < |lb| then |lb| - i else 0
  {
    if i < |lb| && j < |ls| && lb[i].text == ls[j].text then
      var n := |Trim(lb[i].text)|;
      var r := RunFrom(lb, ls, i + 1, j + 1);
      Run(r.lines + 1, r.chars + n, r.useful + if n >= USEFUL_CHARS then 1 else 0)
    else Run(0, 0, 0)
  }

  ghost function TrimmedLength(lines: seq<Line>): nat {
    if lines == [] then 0 else |Trim(lines[0].text)| + TrimmedLength(lines[1..])
  }

  /** `n` lines in a row agree. */
  ghost predicate Agree(lb: seq<Line>, ls: seq<Line>, i: nat, j: nat, n: nat) {
    && i + n <= |lb| && j + n <= |ls|
    && forall d :: i <= d < i + n ==> lb[d].text == ls[d - i + j].text
  }

  /** Some line of the run is long enough to prove something. */
  ghost predicate HasUseful(lb: seq<Line>, i: nat, n: nat)
    requires i + n <= |lb|
  {
    exists d :: i <= d < i + n && |Trim(lb[d].text)| >= USEFUL_CHARS
  }

  /** A run takes every line that agrees and stops at the first that does not. */
  lemma {:induction false} RunMeans(lb: seq<Line>, ls: seq<Line>, i: nat, j: nat)
    requires i <= |lb| && j <= |ls|
    ensures Agree(lb, ls, i, j, RunFrom(lb, ls, i, j).lines) && !Agree(lb, ls, i, j, RunFrom(lb, ls, i, j).lines + 1)
    ensures i + RunFrom(lb, ls, i, j).lines <= |lb| && j + RunFrom(lb, ls, i, j).lines <= |ls|
    ensures RunFrom(lb, ls, i, j).chars == TrimmedLength(lb[i..i + RunFrom(lb, ls, i, j).lines])
    ensures RunFrom(lb, ls, i, j).useful > 0 <==> HasUseful(lb, i, RunFrom(lb, ls, i, j).lines)
    decreases |lb| - i
  {
    hide Trim, Agree, HasUseful;
    AgreeNone(lb, ls, i, j);
    if i < |lb| && j < |ls| && lb[i].text == ls[j].text {
      var n := RunFrom(lb, ls, i, j).lines;
      RunMeans(lb, ls, i + 1, j + 1);
      AgreeMore(lb, ls, i, j, n - 1);
      AgreeMore(lb, ls, i, j, n);
      UsefulMore(lb, i, n - 1);
      assert lb[i..i + n][1..] == lb[i + 1..i + n];
    } else {
      assert lb[i..i] == [];
      if Agree(lb, ls, i, j, 1) {
        AgreeFirst(lb, ls, i, j);
      }
    }
  }

  lemma AgreeNone(lb: seq<Line>, ls: seq<Line>, i: nat, j: nat)
    requires i <= |lb| && j <= |ls|
    ensures Agree(lb, ls, i, j, 0) && !HasUseful(lb, i, 0)
  {}

  lemma UsefulMore(lb: seq<Line>, i: nat, n: nat)
    requires i + 1 + n <= |lb|
    ensures HasUseful(lb, i, n + 1) <==> |Trim(lb[i].text)| >= USEFUL_CHARS || HasUseful(lb, i + 1, n)
  {
    hide Trim;
    assert |Trim(lb[i].text)| >= USEFUL_CHARS ==> HasUseful(lb, i, n + 1);
  }

  lemma AgreeFirst(lb: seq<Line>, ls: seq<Line>, i: nat, j: nat)
    requires Agree(lb, ls, i, j, 1)
    ensures i < |lb| && j < |ls| && lb[i].text == ls[j].text
  {
    assert lb[i].text == ls[i - i + j].text;
  }

  lemma AgreeMore(lb: seq<Line>, ls: seq<Line>, i: nat, j: nat, n: nat)
    requires i < |lb| && j < |ls| && lb[i].text == ls[j].text
    ensures Agree(lb, ls, i, j, n + 1) == Agree(lb, ls, i + 1, j + 1, n)
  {
    if Agree(lb, ls, i, j, n + 1) {
      forall d | i + 1 <= d < i + 1 + n ensures lb[d].text == ls[d - (i + 1) + (j + 1)].text {}
    }
    if Agree(lb, ls, i + 1, j + 1, n) {
      forall d | i <= d < i + n + 1 ensures lb[d].text == ls[d - i + j].text {
        assert d > i ==> lb[d].text == ls[d - (i + 1) + (j + 1)].text;
      }
    }
  }

  predicate Qualifies(r: Run) { r.lines >= REJOIN_MIN_LINES && r.useful >= 1 && r.chars >= REJOIN_MIN_CHARS }

  method MeasureRun(lb: seq<Line>, ls: seq<Line>, i: nat, j: nat) returns (r: Run)
    ensures r == RunFrom(lb, ls, i, j)
  {
    hide Trim;
    var k: nat, charCount: nat, useful: nat := 0, 0, 0;
    while i + k < |lb| && j + k < |ls| && lb[i + k].text == ls[j + k].text
      invariant i + k <= |lb| || k == 0
      invariant var rest := RunFrom(lb, ls, i + k, j + k);
        RunFrom(lb, ls, i, j) == Run(k + rest.lines, charCount + rest.chars, useful + rest.useful)
      decreases |lb| - i - k
    {
      var t := Trim(lb[i + k].text);
      charCount := charCount + |t|;
      if |t| >= USEFUL_CHARS {
        useful := useful + 1;
      }
      k := k + 1;
    }
    r := Run(k, charCount, useful);
  }

  // ---------------------------------------------------------------- the best run

  datatype Splice = Splice(base: nat, continuation: nat, chars: nat)

  function Better(lb: seq<Line>, ls: seq<Line>, i: nat, j: nat, best: Option<Splice>): Option<Splice>
    requires i < |lb| && j < |ls|
  {
    var r := RunFrom(lb, ls, i, j);
    if Qualifies(r) && (best.None? || r.chars > best.value.chars) then Some(Splice(lb[i].pos, ls[j].pos, r.chars)) else best
  }

  /** All pairs of lines from (`i`, `j`) on, row by row. */
  function Search(lb: seq<Line>, ls: seq<Line>, i: nat, j: nat, best: Option<Splice>): Option<Splice>
    requires i <= |lb| && j <= |ls|
    decreases |lb| - i, |ls| - j
  {
    if i == |lb| then best
    else if j == |ls| then Search(lb, ls, i + 1, 0, best)
    else Search(lb, ls, i, j + 1, Better(lb, ls, i, j, best))
  }

  /** One pair of line numbers comes before another. */
  ghost predicate Before(i: nat, j: nat, i': nat, j': nat) { i < i' || (i == i' && j < j') }

  /** Among the pairs before (`i`, `j`), nothing qualifies, or `best` is the run at (`bi`, `bj`):
      the first of those with the most characters. */
  ghost predicate Leads(lb: seq<Line>, ls: seq<Line>, best: Option<Splice>, bi: nat, bj: nat, i: nat, j: nat) {
    match best
    case None =>
      forall x: nat, y: nat :: x < |lb| && y < |ls| && Before(x, y, i, j) ==> !Qualifies(RunFrom(lb, ls, x, y))
    case Some(b) =>
      && bi < |lb| && bj < |ls| && Before(bi, bj, i, j)
      && Qualifies(RunFrom(lb, ls, bi, bj)) && b == Splice(lb[bi].pos, ls[bj].pos, RunFrom(lb, ls, bi, bj).chars)
      && (forall x: nat, y: nat :: x < |lb| && y < |ls| && Before(x, y, i, j) && Qualifies(RunFrom(lb, ls, x, y)) ==>
          && RunFrom(lb, ls, x, y).chars <= b.chars
          && (Before(x, y, bi, bj) ==> RunFrom(lb, ls, x, y).chars < b.chars))
  }

  lemma {:induction false} SearchFindsFrom(lb: seq<Line>, ls: seq<Line>, i: nat, j: nat, best: Option<Splice>, bi: nat, bj: nat)
    returns (fi: nat, fj: nat)
    requires i <= |lb| && j <= |ls| && Leads(lb, ls, best, bi, bj, i, j)
    ensures Leads(lb, ls, Search(lb, ls, i, j, best), fi, fj, |lb|, 0)
    decreases |lb| - i, |ls| - j
  {
    hide RunFrom, Qualifies;
    if i == |lb| {
      fi, fj := bi, bj;
    } else if j == |ls| {
      fi, fj := SearchFindsFrom(lb, ls, i + 1, 0, best, bi, bj);
    } else {
      var better := Better(lb, ls, i, j, best);
      var r := RunFrom(lb, ls, i, j);
      if Qualifies(r) && (best.None? || r.chars > best.value.chars) {
        fi, fj := SearchFindsFrom(lb, ls, i, j + 1, better, i, j);
      } else {
        fi, fj := SearchFindsFrom(lb, ls, i, j + 1, better, bi, bj);
      }
    }
  }

  function Tail(base: string): (t: string)
    ensures |t| <= |base| && base[|base| - |t|..] == t
  {
    if |base| <= REJOIN_TAIL then base else base[|base| - REJOIN_TAIL..]
  }

  function Head(continuation: string): string {
    if |continuation| <= REJOIN_HEAD then continuation else continuation[..REJOIN_HEAD]
  }

  function BaseLines(base: string): seq<Line> { LinesOf(Split(Tail(base), '\n'), |base| - |Tail(base)|) }

  function HeadLines(continuation: string): seq<Line> { LinesOf(Split(Head(continuation), '\n'), 0) }

  function BestSplice(base: string, continuation: string): Option<Splice> {
    Search(BaseLines(base), HeadLines(continuation), 0, 0, None)
  }

  lemma BaseLineIs(base: string, i: nat)
    requires i < |BaseLines(base)|
    ensures IsLine(Tail(base), |base| - |Tail(base)|, BaseLines(base)[i])
  {
    hide IsLine, LinesOf, Split, Tail;
    LinesAreLines(Split(Tail(base), '\n'), |base| - |Tail(base)|, i);
  }

  lemma HeadLineIs(continuation: string, j: nat)
    requires j < |HeadLines(continuation)|
    ensures IsLine(Head(continuation), 0, HeadLines(continuation)[j])
  {
    hide IsLine, LinesOf, Split, Head;
    LinesAreLines(Split(Head(continuation), '\n'), 0, j);
  }

  /** The lines searched stand in the tail of the file and in the head of the continuation. */
  lemma SearchedLines(base: string, continuation: string)
    ensures forall i :: 0 <= i < |BaseLines(base)| ==> IsLine(Tail(base), |base| - |Tail(base)|, BaseLines(base)[i])
    ensures forall j :: 0 <= j < |HeadLines(continuation)| ==> IsLine(Head(continuation), 0, HeadLines(continuation)[j])
  {
    hide *;
    forall i | 0 <= i < |BaseLines(base)|
      ensures IsLine(Tail(base), |base| - |Tail(base)|, BaseLines(base)[i])
    {
      BaseLineIs(base, i);
    }
    forall j | 0 <= j < |HeadLines(continuation)|
      ensures IsLine(Head(continuation), 0, HeadLines(continuation)[j])
    {
      HeadLineIs(continuation, j);
    }
  }

  /** The splice chosen is the first among all the qualifying runs with the most characters. */
  lemma BestSpliceIsBest(base: string, continuation: string) returns (i: nat, j: nat)
    ensures var lb, ls := BaseLines(base), HeadLines(continuation);
      Leads(lb, ls, BestSplice(base, continuation), i, j, |lb|, 0)
    ensures BestSplice(base, continuation).Some? ==>
      && BestSplice(base, continuation).value.base <= |base|
      && BestSplice(base, continuation).value.continuation <= |continuation|
  {
    hide RunFrom, Search;
    i, j := SearchFindsFrom(BaseLines(base), HeadLines(continuation), 0, 0, None, 0, 0);
    SearchedLines(base, continuation);
  }

  // ---------------------------------------------------------------- joining inside a line

  predicate EndsWith(s: string, t: string) { |t| <= |s| && s[|s| - |t|..] == t }

  /** The longest start of `head`, at most `k` long, that ends `end`; shorter than three counts as none. */
  function Overlap(end: string, head: string, k: nat): (n: nat)
    requires k <= |head|
    ensures n <= k && (n == 0 || n >= MIN_OVERLAP)
    ensures n > 0 ==> EndsWith(end, head[..n])
    ensures forall m :: MIN_OVERLAP <= m <= k && EndsWith(end, head[..m]) ==> m <= n
  {
    if k < MIN_OVERLAP then 0 else if EndsWith(end, head[..k]) then k else Overlap(end, head, k - 1)
  }

  function JoinSkip(base: string, continuation: string): (n: nat)
    ensures n <= |continuation|
  {
    var end, head := LastLine(base), FirstLine(continuation);
    if Trim(end) == "" then 0
    else Overlap(end, head, if |end| < |head| then |end| else |head|)
  }

  lemma JoinSkipIs(base: string, continuation: string)
    ensures var end, head := LastLine(base), FirstLine(continuation);
      JoinSkip(base, continuation)
        == if Trim(end) == "" then 0 else Overlap(end, head, if |end| < |head| then |end| else |head|)
  {
    hide Trim, LastLine, FirstLine, Overlap;
  }

  method JoinLine(base: string, continuation: string) returns (joined: string)
    ensures joined == base + continuation[JoinSkip(base, continuation)..]
  {
    hide Trim, LastLine, FirstLine, EndsWith, JoinSkip;
    JoinSkipIs(base, continuation);
    var end := LastLine(base);
    assert continuation[0..] == continuation;
    if Trim(end) == "" {
      return base + continuation;
    }
    var head := FirstLine(continuation);
    var k: nat := if |end| < |head| then |end| else |head|;
    var most := k;
    while k >= MIN_OVERLAP
      invariant k <= |head|
      invariant Overlap(end, head, k) == Overlap(end, head, most)
    {
      if EndsWith(end, head[..k]) {
        return base + continuation[k..];
      }
      k := k - 1;
    }
    joined := base + continuation;
  }

  /** What is skipped is the longest repetition of the cut line, of three characters or more, and
      nothing when that line is blank. */
  lemma SkipIsLongest(base: string, continuation: string)
    ensures var n := JoinSkip(base, continuation);
      && n <= |FirstLine(continuation)| && (n == 0 || n >= MIN_OVERLAP)
      && EndsWith(base, continuation[..n]) && EndsWith(LastLine(base), continuation[..n])
      && (!Blank(LastLine(base)) ==>
            forall m :: MIN_OVERLAP <= m <= |FirstLine(continuation)| && EndsWith(LastLine(base), continuation[..m]) ==> m <= n)
      && (Blank(LastLine(base)) ==> n == 0)
  {
    hide Trim, LastLine, FirstLine, Blank, EndsWith, JoinSkip, Overlap;
    var end, head, n := LastLine(base), FirstLine(continuation), JoinSkip(base, continuation);
    TrimBlank(end);
    JoinSkipIs(base, continuation);
    assert forall m :: 0 <= m <= |head| ==> head[..m] == continuation[..m];
    if n == 0 {
      EndsWithNothing(base, continuation);
      EndsWithNothing(end, continuation);
    } else {
      EndsLonger(base, end, head[..n]);
    }
    forall m | MIN_OVERLAP <= m <= |head| && EndsWith(end, continuation[..m]) && !Blank(end) ensures m <= n {
      ShortEnough(end, continuation[..m]);
    }
  }

  lemma EndsWithNothing(s: string, t: string)
    ensures EndsWith(s, t[..0])
  {
    assert s[|s|..] == t[..0];
  }

  lemma EndsLonger(s: string, end: string, t: string)
    requires EndsWith(s, end) && EndsWith(end, t)
    ensures EndsWith(s, t)
  {
    assert s[|s| - |t|..] == end[|end| - |t|..];
  }

  lemma ShortEnough(s: string, t: string)
    requires EndsWith(s, t)
    ensures |t| <= |s|
  {}

  // ---------------------------------------------------------------- the whole operation

  /** Where the file stops being kept, and where the continuation starts being taken. */
  datatype Cut = Cut(base: nat, continuation: nat)

  function CutOf(base: string, continuation: string): Cut {
    var best := BestSplice(base, continuation);
    if best.Some? && |base| - best.value.base <= REJOIN_MAX_REMOVED then Cut(best.value.base, best.value.continuation)
    else Cut(|base|, JoinSkip(base, continuation))
  }

  lemma CutsFit(base: string, continuation: string)
    ensures CutOf(base, continuation).base <= |base| && CutOf(base, continuation).continuation <= |continuation|
  {
    hide BestSplice, JoinSkip;
    var i, j := BestSpliceIsBest(base, continuation);
  }

  function RejoinOf(base: string, continuation: string): string {
    if Replaces(base, continuation) then continuation
    else
      CutsFit(base, continuation);
      var cut := CutOf(base, continuation);
      base[..cut.base] + continuation[cut.continuation..]
  }

  /** The search over every pair of lines. */
  method FindSplice(base: string, continuation: string) returns (best: Option<Splice>)
    ensures best == BestSplice(base, continuation)
  {
    hide RunFrom, LinesOf, Split;
    var queue := Tail(base);
    var lb := SplitLines(queue, |base| - |queue|);
    var ls := SplitLines(Head(continuation), 0);
    best := None;
    for i := 0 to |lb|
      invariant Search(lb, ls, i, 0, best) == BestSplice(base, continuation)
    {
      for j := 0 to |ls|
        invariant Search(lb, ls, i, j, best) == BestSplice(base, continuation)
      {
        var r := MeasureRun(lb, ls, i, j);
        if r.lines >= REJOIN_MIN_LINES && r.useful >= 1 && r.chars >= REJOIN_MIN_CHARS
           && (best.None? || r.chars > best.value.chars) {
          best := Some(Splice(lb[i].pos, ls[j].pos, r.chars));
        }
      }
    }
  }

  method Rejoin(base: string, continuation: string) returns (file: string)
    ensures file == RejoinOf(base, continuation)
  {
    hide Replaces, BestSplice, JoinSkip;
    if Replaces(base, continuation) {
      return continuation;
    }
    var best := FindSplice(base, continuation);
    CutsFit(base, continuation);
    if best.Some? && |base| - best.value.base <= REJOIN_MAX_REMOVED {
      return base[..best.value.base] + continuation[best.value.continuation..];
    }
    file := JoinLine(base, continuation);
    assert base[..|base|] == base;
  }

  /** Lines `i` of the file's tail and `j` of the continuation's head start where the cut is made, and a
      qualifying run that no other beats starts there. */
  ghost predicate SplicedAt(base: string, continuation: string, cut: Cut, i: nat, j: nat) {
    var lb, ls := BaseLines(base), HeadLines(continuation);
    && i < |lb| && j < |ls| && cut == Cut(lb[i].pos, ls[j].pos)
    && Qualifies(RunFrom(lb, ls, i, j))
    && (forall x: nat, y: nat :: x < |lb| && y < |ls| && Qualifies(RunFrom(lb, ls, x, y)) ==>
          RunFrom(lb, ls, x, y).chars <= RunFrom(lb, ls, i, j).chars)
  }

  lemma RunReaches(lb: seq<Line>, ls: seq<Line>, i: nat, j: nat)
    requires i < |lb| && j < |ls| && Qualifies(RunFrom(lb, ls, i, j))
    ensures i + 1 < |lb|
  {
    hide RunFrom;
    RunMeans(lb, ls, i, j);
  }

  lemma LineFits(base: string, i: nat)
    requires i < |BaseLines(base)|
    ensures BaseLines(base)[i].pos <= |base|
    ensures BaseLines(base) == LinesOf(Split(Tail(base), '\n'), |base| - |Tail(base)|)
  {
    hide LinesOf, Split;
    SearchedLines(base, "");
    assert IsLine(Tail(base), |base| - |Tail(base)|, BaseLines(base)[i]);
  }

  /** A line that has another after it starts before the end. */
  lemma EarlierLines(base: string, i: nat)
    requires i + 1 < |BaseLines(base)|
    ensures BaseLines(base)[i].pos < |base|
  {
    hide *;
    LineFits(base, i + 1);
    LinesAdvance(Split(Tail(base), '\n'), |base| - |Tail(base)|, i);
  }

  /** The best qualifying run starts near enough to the end to be used. */
  ghost predicate Splices(base: string, continuation: string) {
    var best := BestSplice(base, continuation);
    best.Some? && |base| - best.value.base <= REJOIN_MAX_REMOVED
  }

  lemma CutIs(base: string, continuation: string)
    ensures Splices(base, continuation) ==>
      var best := BestSplice(base, continuation).value; CutOf(base, continuation) == Cut(best.base, best.continuation)
    ensures !Splices(base, continuation) ==> CutOf(base, continuation) == Cut(|base|, JoinSkip(base, continuation))
    ensures |base| - REJOIN_MAX_REMOVED <= CutOf(base, continuation).base
  {
    hide BestSplice, JoinSkip;
  }

  lemma SplicedAtBest(base: string, continuation: string)
    requires Splices(base, continuation)
    ensures exists i: nat, j: nat :: SplicedAt(base, continuation, CutOf(base, continuation), i, j)
  {
    hide Search, RunFrom, Qualifies, BaseLines, HeadLines, BestSplice, CutOf;
    CutIs(base, continuation);
    var i, j := BestSpliceIsBest(base, continuation);
    assert SplicedAt(base, continuation, CutOf(base, continuation), i, j);
  }

  lemma SplicedIsShort(base: string, continuation: string, i: nat, j: nat)
    requires SplicedAt(base, continuation, CutOf(base, continuation), i, j)
    ensures CutOf(base, continuation).base < |base|
  {
    hide RunFrom, Qualifies, BaseLines, HeadLines, CutOf;
    RunReaches(BaseLines(base), HeadLines(continuation), i, j);
    EarlierLines(base, i);
  }

  /** Characters of the file are lost exactly when it is spliced, and then at the best of all qualifying
      runs of common lines. */
  lemma LossIsSplice(base: string, continuation: string)
    ensures CutOf(base, continuation).base < |base| <==> Splices(base, continuation)
    ensures Splices(base, continuation)
      <==> exists i: nat, j: nat :: SplicedAt(base, continuation, CutOf(base, continuation), i, j)
  {
    hide Splices, SplicedAt, CutOf, BestSplice, JoinSkip;
    CutIs(base, continuation);
    if Splices(base, continuation) {
      SplicedAtBest(base, continuation);
    }
    if i: nat, j: nat :| SplicedAt(base, continuation, CutOf(base, continuation), i, j) {
      SplicedIsShort(base, continuation, i, j);
    }
  }

  /** What is not spliced keeps the whole file and skips only what repeats its end. */
  lemma JoinedMeans(base: string, continuation: string)
    requires CutOf(base, continuation).base == |base|
    ensures CutOf(base, continuation).continuation <= |continuation|
    ensures EndsWith(base, continuation[..CutOf(base, continuation).continuation])
  {
    hide Splices, SplicedAt, CutOf, BestSplice, JoinSkip, EndsWith;
    LossIsSplice(base, continuation);
    CutIs(base, continuation);
    SkipIsLongest(base, continuation);
  }

  /** Unless the continuation replaces the whole document, the result is the file without at most 2000
      of its last characters, followed by the continuation without its start. Characters of the file are
      lost exactly when it is spliced, and a splice is made at the best of all qualifying runs of common
      lines; otherwise the characters skipped repeat the end of the file. */
  lemma RejoinMeans(base: string, continuation: string)
    requires !Rewrites(base, continuation)
    ensures var cut := CutOf(base, continuation);
      && |base| - REJOIN_MAX_REMOVED <= cut.base <= |base| && cut.continuation <= |continuation|
      && RejoinOf(base, continuation) == base[..cut.base] + continuation[cut.continuation..]
      && (cut.base < |base| <==> Splices(base, continuation))
      && (cut.base < |base| <==> exists i: nat, j: nat :: SplicedAt(base, continuation, cut, i, j))
      && (cut.base == |base| ==> EndsWith(base, continuation[..cut.continuation]))
  {
    hide Splices, SplicedAt, CutOf, BestSplice, JoinSkip, EndsWith, Replaces, Rewrites;
    ReplacesIsRewrites(base, continuation);
    CutsFit(base, continuation);
    CutIs(base, continuation);
    LossIsSplice(base, continuation);
    if CutOf(base, continuation).base == |base| {
      JoinedMeans(base, continuation);
    }
  }
}
