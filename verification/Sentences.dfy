/** Cutting a spoken answer into sentences while it is still growing. */
module Sentences {
  import opened Wrappers
  import opened JsStrings

  datatype Sentence = Sentence(text: string, start: nat, end: nat)

  const MIN_CHARS := 14

  predicate IsStop(c: char) { c == '.' || c == '!' || c == '?' || c == '\U{2026}' }

  predicate IsClosing(c: char) {
    c == '\"' || c == '\U{BB}' || c == '\U{201D}' || c == '\'' || c == ')' || c == ']'
  }

  // ---------------------------------------------------------------- the boundary pattern

  function StopRun(text: string, i: nat): (d: nat)
    requires i <= |text|
    ensures i <= d <= |text| && (forall k :: i <= k < d ==> IsStop(text[k]))
    ensures d < |text| ==> !IsStop(text[d])
    decreases |text| - i
  {
    if i < |text| && IsStop(text[i]) then StopRun(text, i + 1) else i
  }

  function ClosingRun(text: string, i: nat): (d: nat)
    requires i <= |text|
    ensures i <= d <= |text| && (forall k :: i <= k < d ==> IsClosing(text[k]))
    ensures d < |text| ==> !IsClosing(text[d])
    decreases |text| - i
  {
    if i < |text| && IsClosing(text[i]) then ClosingRun(text, i + 1) else i
  }

  /** White space, or the end of the text, comes next. */
  predicate AtGap(text: string, p: nat) { p >= |text| || IsSpace(text[p]) }

  /** End of the boundary that starts at `i`: stops, closing marks, then a gap; or a line break. */
  function MatchAt(text: string, i: nat): (r: Option<nat>)
    requires i < |text|
    ensures r.Some? ==> i < r.value <= |text|
  {
    if text[i] == '\n' then Some(i + 1)
    else if !IsStop(text[i]) then None
    else
      var p := ClosingRun(text, StopRun(text, i));
      if AtGap(text, p) then Some(p) else None
  }

  /** Giving back characters never makes the pattern match: what `MatchAt` finds is the only match. */
  lemma OnlyMatch(text: string, i: nat, d: nat, p: nat)
    requires i < d <= p <= |text|
    requires forall k :: i <= k < d ==> IsStop(text[k])
    requires forall k :: d <= k < p ==> IsClosing(text[k])
    requires AtGap(text, p)
    ensures MatchAt(text, i) == Some(p)
  {
    assert d < |text| ==> !IsStop(text[d]);
    assert p < |text| ==> !IsClosing(text[p]);
    assert StopRun(text, i) == d;
  }

  /** End of the next boundary at or after `i`. */
  function NextMatch(text: string, i: nat): (r: Option<nat>)
    requires i <= |text|
    ensures r.Some? ==> i < r.value <= |text|
    decreases |text| - i
  {
    if i == |text| then None
    else if MatchAt(text, i).Some? then MatchAt(text, i)
    else NextMatch(text, i + 1)
  }

  // ---------------------------------------------------------------- the loop

  /** The sentences from `start` on, looking for boundaries from `i` on, and where the next call
      starts. */
  function Collect(text: string, i: nat, start: nat, final: bool): (r: (seq<Sentence>, nat))
    requires start <= i <= |text|
    ensures start <= r.1 <= |text|
    decreases |text| - i
  {
    match NextMatch(text, i)
    case None => Finish(text, start, final)
    case Some(stop) =>
      if !final && stop >= |text| then Finish(text, start, final)
      else
        var piece := Trim(text[start..stop]);
        if |piece| < MIN_CHARS && !final then Collect(text, stop, start, final)
        else
          var (more, end) := Collect(text, stop, stop, final);
          (if piece != "" then [Sentence(piece, start, stop)] + more else more, end)
  }

  function Finish(text: string, start: nat, final: bool): (r: (seq<Sentence>, nat))
    requires start <= |text|
    ensures start <= r.1 <= |text|
  {
    var tail := Trim(text[start..]);
    if final && tail != "" then ([Sentence(tail, start, |text|)], |text|) else ([], start)
  }

  /** The same walk, adding to the sentences already found. */
  ghost function CollectOnto(text: string, i: nat, start: nat, final: bool, acc: seq<Sentence>): (seq<Sentence>, nat)
    requires start <= i <= |text|
    decreases |text| - i
  {
    match NextMatch(text, i)
    case None => FinishOnto(text, start, final, acc)
    case Some(stop) =>
      if !final && stop >= |text| then FinishOnto(text, start, final, acc)
      else
        var piece := Trim(text[start..stop]);
        if |piece| < MIN_CHARS && !final then CollectOnto(text, stop, start, final, acc)
        else CollectOnto(text, stop, stop, final, if piece != "" then acc + [Sentence(piece, start, stop)] else acc)
  }

  ghost function FinishOnto(text: string, start: nat, final: bool, acc: seq<Sentence>): (seq<Sentence>, nat)
    requires start <= |text|
  {
    var (last, end) := Finish(text, start, final);
    (acc + last, end)
  }

  lemma {:induction false} OntoIsAppend(text: string, i: nat, start: nat, final: bool, acc: seq<Sentence>)
    requires start <= i <= |text|
    ensures var c := Collect(text, i, start, final); CollectOnto(text, i, start, final, acc) == (acc + c.0, c.1)
    decreases |text| - i
  {
    hide Trim, NextMatch;
    assert acc + [] == acc;
    match NextMatch(text, i)
    case None =>
    case Some(stop) =>
      if final || stop < |text| {
        var piece := Trim(text[start..stop]);
        if |piece| < MIN_CHARS && !final {
          OntoIsAppend(text, stop, start, final, acc);
        } else if piece != "" {
          var s := Sentence(piece, start, stop);
          OntoIsAppend(text, stop, stop, final, acc + [s]);
          assert acc + ([s] + Collect(text, stop, stop, final).0) == acc + [s] + Collect(text, stop, stop, final).0;
        } else {
          OntoIsAppend(text, stop, stop, final, acc);
        }
      }
  }

  method NextSentences(text: string, from: nat, final: bool) returns (sentences: seq<Sentence>, end: nat)
    requires from <= |text|
    ensures (sentences, end) == Collect(text, from, from, final)
  {
    hide Trim, NextMatch, Collect;
    sentences := [];
    var start, lastIndex := from, from;
    OntoIsAppend(text, from, from, final, []);
    assert [] + Collect(text, from, from, final).0 == Collect(text, from, from, final).0;
    while true
      invariant from <= start <= lastIndex <= |text|
      invariant CollectOnto(text, lastIndex, start, final, sentences) == Collect(text, from, from, final)
      decreases |text| - lastIndex
    {
      var m := NextMatch(text, lastIndex);
      if m.None? {
        break;
      }
      var stop := m.value;
      if !final && stop >= |text| {
        break;
      }
      lastIndex := stop;
      var piece := Trim(text[start..stop]);
      if |piece| < MIN_CHARS && !final {
        continue;
      }
      if piece != "" {
        sentences := sentences + [Sentence(piece, start, stop)];
      }
      start := stop;
    }
    assert FinishOnto(text, start, final, sentences) == Collect(text, from, from, final);
    assert sentences + [] == sentences;
    var tail := Trim(text[start..]);
    if final && tail != "" {
      sentences := sentences + [Sentence(tail, start, |text|)];
      start := |text|;
    }
    end := start;
  }

  // ---------------------------------------------------------------- what the sentences are

  /** The sentences follow one another from `from` to `end`; only blanks are left out between them,
      and while the answer grows nothing at all. */
  ghost predicate Tiles(text: string, from: nat, end: nat, sentences: seq<Sentence>, final: bool)
    requires from <= |text| && end <= |text|
    decreases |sentences|
  {
    if sentences == [] then from <= end && (if final then Blank(text[from..end]) else from == end)
    else
      var s := sentences[0];
      && from <= s.start < s.end <= |text|
      && (if final then Blank(text[from..s.start]) else from == s.start && |s.text| >= MIN_CHARS)
      && s.text == Trim(text[s.start..s.end]) && s.text != ""
      && Tiles(text, s.end, end, sentences[1..], final)
  }

  lemma TilesAfterBlank(text: string, from: nat, mid: nat, end: nat, sentences: seq<Sentence>)
    requires from <= mid <= |text| && end <= |text| && Blank(text[from..mid])
    requires Tiles(text, mid, end, sentences, true)
    ensures Tiles(text, from, end, sentences, true)
  {
    hide Blank;
    BlankJoin(text, from, mid, if sentences == [] then end else sentences[0].start);
  }

  lemma BlankJoin(text: string, from: nat, mid: nat, to: nat)
    requires from <= mid <= to <= |text| && Blank(text[from..mid]) && Blank(text[mid..to])
    ensures Blank(text[from..to])
  {
    assert text[from..to] == text[from..mid] + text[mid..to];
  }

  lemma {:induction false} CollectTiles(text: string, i: nat, start: nat, final: bool)
    requires start <= i <= |text|
    ensures var (sentences, end) := Collect(text, i, start, final);
      && Tiles(text, start, end, sentences, final)
      && (final ==> Blank(text[end..]))
    decreases |text| - i
  {
    hide Trim, NextMatch, Blank;
    NothingBlank(text, start);
    TrimBlank(text[start..]);
    match NextMatch(text, i)
    case None =>
      assert text[start..|text|] == text[start..];
      NothingBlank(text, |text|);
    case Some(stop) =>
      if !final && stop >= |text| {
      } else {
        var piece := Trim(text[start..stop]);
        TrimBlank(text[start..stop]);
        if |piece| < MIN_CHARS && !final {
          CollectTiles(text, stop, start, final);
        } else {
          CollectTiles(text, stop, stop, final);
          var (more, end) := Collect(text, stop, stop, final);
          if piece != "" {
            assert ([Sentence(piece, start, stop)] + more)[1..] == more;
          } else {
            TilesAfterBlank(text, start, stop, end, more);
          }
        }
      }
  }

  lemma NothingBlank(text: string, i: nat)
    requires i <= |text|
    ensures Blank(text[i..i]) && (i == |text| ==> Blank(text[i..]))
  {}

  // ---------------------------------------------------------------- growing texts

  /** A boundary of a text that ends before its last character is a boundary of every longer text. */
  lemma {:induction false} NextMatchGrows(text: string, n: nat, i: nat)
    requires i <= n <= |text|
    requires NextMatch(text[..n], i).Some? && NextMatch(text[..n], i).value < n
    ensures NextMatch(text, i) == NextMatch(text[..n], i)
    decreases n - i
  {
    var p := text[..n];
    if MatchAt(p, i).Some? {
      MatchAtGrows(text, n, i);
    } else {
      NextMatchGrows(text, n, i + 1);
      MatchAtShrinks(text, n, i);
    }
  }

  lemma {:induction false} RunsGrow(text: string, n: nat, i: nat)
    requires i <= n <= |text|
    ensures StopRun(text[..n], i) < n ==> StopRun(text, i) == StopRun(text[..n], i)
    ensures StopRun(text[..n], i) == n ==> StopRun(text, i) >= n
    ensures ClosingRun(text[..n], i) < n ==> ClosingRun(text, i) == ClosingRun(text[..n], i)
    ensures ClosingRun(text[..n], i) == n ==> ClosingRun(text, i) >= n
    decreases n - i
  {
    if i < n {
      RunsGrow(text, n, i + 1);
    }
  }

  lemma MatchAtGrows(text: string, n: nat, i: nat)
    requires i < n <= |text| && MatchAt(text[..n], i).Some? && MatchAt(text[..n], i).value < n
    ensures MatchAt(text, i) == MatchAt(text[..n], i)
  {
    RunsGrow(text, n, i);
    RunsGrow(text, n, StopRun(text[..n], i));
  }

  /** Where a prefix with a boundary further on has none, the whole text has none either: a run that
      reaches the end of the prefix leaves no room for a boundary before it. */
  lemma MatchAtShrinks(text: string, n: nat, i: nat)
    requires i < n <= |text| && MatchAt(text[..n], i).None?
    requires NextMatch(text[..n], i + 1).Some? && NextMatch(text[..n], i + 1).value < n
    ensures MatchAt(text, i).None?
  {
    var p := text[..n];
    if IsStop(p[i]) {
      RunsGrow(text, n, i);
      var d := StopRun(p, i);
      RunsGrow(text, n, d);
      assert ClosingRun(p, d) < n;
    }
  }

  /** What the walk over a prefix releases, the walk over the whole text releases first, and then it
      goes on as a new walk from where the first one stopped. */
  lemma {:induction false} WalkGrows(text: string, n: nat, i: nat, start: nat)
    requires start <= i <= n <= |text|
    ensures var (released, end) := Collect(text[..n], i, start, false);
      && end <= n
      && (if end == start then released == []
          else
            var (rest, last) := Collect(text, end, end, false);
            Collect(text, i, start, false) == (released + rest, last))
    decreases n - i
  {
    hide Trim, NextMatch;
    match NextMatch(text[..n], i)
    case None =>
    case Some(stop) =>
      if stop < n {
        NextMatchGrows(text, n, i);
        assert text[..n][start..stop] == text[start..stop];
        var piece := Trim(text[start..stop]);
        if |piece| < MIN_CHARS {
          WalkGrows(text, n, stop, start);
        } else {
          WalkGrows(text, n, stop, stop);
          var s := Sentence(piece, start, stop);
          var (more, end) := Collect(text[..n], stop, stop, false);
          var (rest, _) := Collect(text, end, end, false);
          assert [s] + (more + rest) == [s] + more + rest;
          assert end == stop ==> [s] + rest == [s] + more + rest;
        }
      }
  }

  /** The sentences released by calls on growing prefixes, each resuming where the last one ended. */
  ghost function Streamed(text: string, lengths: seq<nat>, from: nat): (r: (seq<Sentence>, nat))
    requires from <= |text|
    requires Growing(text, lengths, from)
    ensures r.1 <= |text|
    decreases |lengths|
  {
    if lengths == [] then ([], from)
    else
      var (released, end) := Collect(text[..lengths[0]], from, from, false);
      var (more, last) := Streamed(text, lengths[1..], end);
      (released + more, last)
  }

  ghost predicate Growing(text: string, lengths: seq<nat>, from: nat) {
    && (forall i :: 0 <= i < |lengths| ==> from <= lengths[i] <= |text|)
    && forall i, j :: 0 <= i <= j < |lengths| ==> lengths[i] <= lengths[j]
  }

  /** However the answer grows, the sentences and their positions are those of one call on the whole. */
  lemma {:induction false} StreamingChangesNothing(text: string, lengths: seq<nat>, from: nat)
    requires from <= |text| && Growing(text, lengths, from)
    ensures var (released, end) := Streamed(text, lengths, from);
      var (rest, last) := Collect(text, end, end, false);
      && end <= |text|
      && (released + rest, last) == Collect(text, from, from, false)
    ensures lengths != [] && lengths[|lengths| - 1] == |text| ==>
      Streamed(text, lengths, from) == Collect(text, from, from, false)
    decreases |lengths|
  {
    hide Collect;
    if lengths == [] {
      assert [] + Collect(text, from, from, false).0 == Collect(text, from, from, false).0;
    } else {
      var n := lengths[0];
      var (released, end) := Collect(text[..n], from, from, false);
      WalkGrows(text, n, from, from);
      StreamingChangesNothing(text, lengths[1..], end);
      var (more, last) := Streamed(text, lengths[1..], end);
      var rest := Collect(text, last, last, false).0;
      assert released + (more + rest) == released + more + rest;
      assert end == from ==> [] + (more + rest) == more + rest && [] + more == more;
      if |lengths| == 1 {
        assert more == [] && released + more == released;
        assert n == |text| ==> text[..n] == text;
      }
    }
  }

  // ---------------------------------------------------------------- the end of the answer

  lemma {:induction false} TilesRelaxed(text: string, from: nat, end: nat, sentences: seq<Sentence>)
    requires from <= |text| && end <= |text| && Tiles(text, from, end, sentences, false)
    ensures Tiles(text, from, end, sentences, true)
    decreases |sentences|
  {
    hide Trim, Blank;
    NothingBlank(text, from);
    if sentences != [] {
      TilesRelaxed(text, sentences[0].end, end, sentences[1..]);
    }
  }

  lemma {:induction false} TilesInLonger(text: string, n: nat, from: nat, end: nat, sentences: seq<Sentence>)
    requires n <= |text| && from <= n && end <= n && Tiles(text[..n], from, end, sentences, false)
    ensures Tiles(text, from, end, sentences, false)
    decreases |sentences|
  {
    hide Trim, Blank;
    if sentences != [] {
      var s := sentences[0];
      assert text[..n][s.start..s.end] == text[s.start..s.end];
      TilesInLonger(text, n, s.end, end, sentences[1..]);
    }
  }

  lemma {:induction false} TilesJoin(text: string, from: nat, mid: nat, end: nat, a: seq<Sentence>, b: seq<Sentence>)
    requires from <= |text| && mid <= |text| && end <= |text|
    requires Tiles(text, from, mid, a, true) && Tiles(text, mid, end, b, true)
    ensures Tiles(text, from, end, a + b, true)
    decreases |a|
  {
    hide Trim, Blank;
    if a == [] {
      TilesAfterBlank(text, from, mid, end, b);
      assert a + b == b;
    } else {
      TilesJoin(text, a[0].end, mid, end, a[1..], b);
      assert (a + b)[1..] == a[1..] + b;
    }
  }

  lemma StreamedStep(text: string, lengths: seq<nat>, from: nat)
    requires from <= |text| && Growing(text, lengths, from) && lengths != []
    ensures from <= lengths[0] <= |text|
    ensures var (released, end) := Collect(text[..lengths[0]], from, from, false);
      && from <= end <= lengths[0] && Growing(text, lengths[1..], end)
      && var (more, last) := Streamed(text, lengths[1..], end);
      Streamed(text, lengths, from) == (released + more, last)
  {
    hide Collect;
  }

  lemma {:induction false} StreamedTiles(text: string, lengths: seq<nat>, from: nat)
    requires from <= |text| && Growing(text, lengths, from)
    ensures var (released, end) := Streamed(text, lengths, from); Tiles(text, from, end, released, true)
    decreases |lengths|
  {
    hide Collect, Tiles, Growing, Blank, Trim;
    if lengths == [] {
      NothingTiled(text, from);
    } else {
      StreamedStep(text, lengths, from);
      var n := lengths[0];
      var (released, end) := Collect(text[..n], from, from, false);
      CollectTiles(text[..n], from, from, false);
      TilesInLonger(text, n, from, end, released);
      TilesRelaxed(text, from, end, released);
      StreamedTiles(text, lengths[1..], end);
      var (more, last) := Streamed(text, lengths[1..], end);
      TilesJoin(text, from, end, last, released, more);
    }
  }

  lemma NothingTiled(text: string, from: nat)
    requires from <= |text|
    ensures Tiles(text, from, from, [], true)
  {
    NothingBlank(text, from);
  }

  /** An answer streamed in any way and ended by a final call is spoken whole: the sentences follow one
      another over the text, and only blanks are left out, between them and at the end. */
  lemma FinalCallCompletes(text: string, lengths: seq<nat>, from: nat)
    requires from <= |text| && Growing(text, lengths, from)
    ensures var (released, end) := Streamed(text, lengths, from);
      var (last, stop) := Collect(text, end, end, true);
      Tiles(text, from, stop, released + last, true) && Blank(text[stop..])
  {
    hide Collect, Tiles;
    var (released, end) := Streamed(text, lengths, from);
    var (last, stop) := Collect(text, end, end, true);
    StreamedTiles(text, lengths, from);
    CollectTiles(text, end, end, true);
    TilesJoin(text, from, end, stop, released, last);
  }

  /** A sentence covers this position. */
  ghost predicate Covered(sentences: seq<Sentence>, p: nat) {
    exists k :: 0 <= k < |sentences| && sentences[k].start <= p < sentences[k].end
  }

  lemma GapIsBlank(text: string, from: nat, to: nat, p: nat)
    requires from <= p < to <= |text| && Blank(text[from..to])
    ensures IsSpace(text[p])
  {
    assert text[from..to][p - from] in text[from..to];
  }

  lemma CoveredLater(sentences: seq<Sentence>, p: nat)
    requires sentences != [] && Covered(sentences[1..], p)
    ensures Covered(sentences, p)
  {
    var k :| 0 <= k < |sentences[1..]| && sentences[1..][k].start <= p < sentences[1..][k].end;
    assert sentences[k + 1].start <= p < sentences[k + 1].end;
  }

  /** What the sentences leave out is blank. */
  lemma {:induction false} TilesCover(text: string, from: nat, end: nat, sentences: seq<Sentence>, p: nat)
    requires from <= p < end <= |text| && Tiles(text, from, end, sentences, true)
    ensures IsSpace(text[p]) || Covered(sentences, p)
    decreases |sentences|
  {
    hide Trim, IsSpace, Blank;
    if sentences == [] {
      GapIsBlank(text, from, end, p);
    } else if p < sentences[0].start {
      GapIsBlank(text, from, sentences[0].start, p);
    } else if p < sentences[0].end {
      assert sentences[0].start <= p < sentences[0].end;
    } else {
      TilesCover(text, sentences[0].end, end, sentences[1..], p);
      if Covered(sentences[1..], p) {
        CoveredLater(sentences, p);
      }
    }
  }

  // ---------------------------------------------------------------- streaming against one final call

  /** Stops and closing marks up to the end of the text: no boundary ends before it. */
  lemma {:induction false} RunToEnd(text: string, i: nat, d: nat, j: nat)
    requires i <= d <= |text| && i <= j <= |text|
    requires forall k :: i <= k < d ==> IsStop(text[k])
    requires forall k :: d <= k < |text| ==> IsClosing(text[k])
    ensures NextMatch(text, j).None? || NextMatch(text, j) == Some(|text|)
    decreases |text| - j
  {
    if j < |text| {
      RunToEnd(text, i, d, j + 1);
      if j < d {
        OnlyMatch(text, j, d, |text|);
      }
    }
  }

  lemma MatchAtIsEarly(text: string, n: nat, i: nat)
    requires i < n <= |text| && MatchAt(text, i).Some? && MatchAt(text, i).value < n
    ensures MatchAt(text[..n], i) == MatchAt(text, i)
  {
    RunsGrow(text, n, i);
    RunsGrow(text, n, StopRun(text[..n], i));
  }

  /** A boundary of a text is one of every prefix that goes on after it. */
  lemma {:induction false} NextMatchShrinks(text: string, n: nat, i: nat)
    requires i <= n <= |text|
    requires NextMatch(text, i).Some? && NextMatch(text, i).value < n
    ensures NextMatch(text[..n], i) == NextMatch(text, i)
    decreases n - i
  {
    hide MatchAt;
    if MatchAt(text, i).Some? {
      MatchAtIsEarly(text, n, i);
    } else {
      NextMatchShrinks(text, n, i + 1);
      if MatchAt(text[..n], i).Some? {
        NoMatchAt(text, n, i);
      }
    }
  }

  lemma NoMatchAt(text: string, n: nat, i: nat)
    requires i < n <= |text| && MatchAt(text, i).None? && MatchAt(text[..n], i).Some?
    ensures NextMatch(text[..n], i + 1).None? || NextMatch(text[..n], i + 1) == Some(n)
  {
    hide NextMatch;
    if MatchAt(text[..n], i).value < n {
      MatchAtGrows(text, n, i);
    } else {
      RunToEnd(text[..n], i, StopRun(text[..n], i), i + 1);
    }
  }

  /** The next boundary, if it ends before `n`. */
  ghost function MatchBefore(text: string, n: nat, i: nat): (r: Option<nat>)
    requires i <= n <= |text|
    ensures r.Some? ==> i < r.value < n
  {
    var m := NextMatch(text, i);
    if m.Some? && m.value < n then m else None
  }

  lemma MatchesOfPrefix(text: string, n: nat, i: nat)
    requires i <= n <= |text|
    ensures var m := NextMatch(text[..n], i);
      MatchBefore(text, n, i) == if m.Some? && m.value < n then m else None
  {
    hide NextMatch;
    if NextMatch(text[..n], i).Some? && NextMatch(text[..n], i).value < n {
      NextMatchGrows(text, n, i);
    }
    if NextMatch(text, i).Some? && NextMatch(text, i).value < n {
      NextMatchShrinks(text, n, i);
    }
  }

  /** Some boundary before `n` makes the piece from `start` long enough. */
  ghost predicate Reached(text: string, n: nat, i: nat, start: nat)
    requires start <= i <= n <= |text|
    decreases n - i
  {
    match MatchBefore(text, n, i)
    case None => false
    case Some(stop) => |Trim(text[start..stop])| >= MIN_CHARS || Reached(text, n, stop, start)
  }

  /** No piece shorter than MIN_CHARS is followed, before `n`, by a boundary that makes it long enough. */
  ghost predicate NothingJoined(text: string, n: nat, start: nat)
    requires start <= n <= |text|
    decreases n - start
  {
    match MatchBefore(text, n, start)
    case None => true
    case Some(stop) =>
      if |Trim(text[start..stop])| >= MIN_CHARS then NothingJoined(text, n, stop) else !Reached(text, n, stop, start)
  }

  ghost predicate First(sentences: seq<Sentence>, start: nat, past: nat) {
    sentences != [] && sentences[0].start == start && sentences[0].end > past
  }

  /** A call on the first `n` characters, one boundary further. */
  lemma PrefixStep(text: string, n: nat, i: nat, start: nat)
    requires start <= i <= n <= |text|
    ensures Collect(text[..n], i, start, false) ==
      match MatchBefore(text, n, i)
      case None => ([], start)
      case Some(stop) =>
        var piece := Trim(text[start..stop]);
        if |piece| < MIN_CHARS then Collect(text[..n], stop, start, false)
        else
          var (more, end) := Collect(text[..n], stop, stop, false);
          ([Sentence(piece, start, stop)] + more, end)
  {
    hide Trim, NextMatch;
    MatchesOfPrefix(text, n, i);
    if MatchBefore(text, n, i).Some? {
      assert text[..n][start..MatchBefore(text, n, i).value] == text[start..MatchBefore(text, n, i).value];
    }
  }

  lemma {:induction false} ReachedReleases(text: string, n: nat, i: nat, start: nat)
    requires start <= i <= n <= |text|
    ensures if Reached(text, n, i, start) then First(Collect(text[..n], i, start, false).0, start, i)
      else Collect(text[..n], i, start, false) == ([], start)
    decreases n - i
  {
    hide Trim, MatchBefore, Collect;
    PrefixStep(text, n, i, start);
    match MatchBefore(text, n, i)
    case None =>
    case Some(stop) =>
      if |Trim(text[start..stop])| < MIN_CHARS {
        ReachedReleases(text, n, stop, start);
      }
  }

  /** A final call never starts with a sentence that goes on past the first boundary. */
  lemma FinalStopsThere(text: string, start: nat, stop: nat)
    requires start <= |text| && NextMatch(text, start) == Some(stop)
    ensures !First(Collect(text, start, start, true).0, start, stop)
  {
    hide Trim, NextMatch, Blank;
    CollectTiles(text, stop, stop, true);
  }

  lemma SameFirst(s: Sentence, a: seq<Sentence>, b: seq<Sentence>, c: seq<Sentence>)
    ensures [s] + a + b == [s] + c <==> a + b == c
  {
    assert [s] + a + b == [s] + (a + b);
    assert ([s] + (a + b))[1..] == a + b && ([s] + c)[1..] == c;
  }

  /** A call on the first `n` characters and then a final call give what one final call gives exactly
      when nothing was joined. */
  lemma {:induction false} FinalAfterPrefix(text: string, n: nat, start: nat)
    requires start <= n <= |text|
    ensures var (released, end) := Collect(text[..n], start, start, false);
      end <= n
      && var (last, stop) := Collect(text, end, end, true);
      ((released + last, stop) == Collect(text, start, start, true) <==> NothingJoined(text, n, start))
    decreases n - start
  {
    hide Trim, NextMatch, Collect, Reached;
    PrefixStep(text, n, start, start);
    match MatchBefore(text, n, start)
    case None =>
      assert [] + Collect(text, start, start, true).0 == Collect(text, start, start, true).0;
    case Some(stop) =>
      var piece := Trim(text[start..stop]);
      if |piece| >= MIN_CHARS {
        FinalAfterPrefix(text, n, stop);
        FinalStep(text, start, stop);
        var (more, end) := Collect(text[..n], stop, stop, false);
        SameFirst(Sentence(piece, start, stop), more, Collect(text, end, end, true).0, Collect(text, stop, stop, true).0);
      } else {
        ReachedReleases(text, n, stop, start);
        FinalStopsThere(text, start, stop);
        assert [] + Collect(text, start, start, true).0 == Collect(text, start, start, true).0;
      }
  }

  lemma FinalStep(text: string, start: nat, stop: nat)
    requires start <= |text| && NextMatch(text, start) == Some(stop) && Trim(text[start..stop]) != ""
    ensures var (more, end) := Collect(text, stop, stop, true);
      Collect(text, start, start, true) == ([Sentence(Trim(text[start..stop]), start, stop)] + more, end)
  {
    hide Trim, NextMatch;
  }

  /** How much of the text the last of these calls saw. */
  ghost function Seen(lengths: seq<nat>, from: nat): nat {
    if lengths == [] then from else lengths[|lengths| - 1]
  }

  lemma {:induction false} StreamedOfPrefix(text: string, lengths: seq<nat>, from: nat, n: nat)
    requires from <= n <= |text| && Growing(text, lengths, from) && forall k :: 0 <= k < |lengths| ==> lengths[k] <= n
    ensures Growing(text[..n], lengths, from) && Streamed(text[..n], lengths, from) == Streamed(text, lengths, from)
    decreases |lengths|
  {
    hide Collect;
    if lengths != [] {
      StreamedStep(text, lengths, from);
      StreamedStep(text[..n], lengths, from);
      assert text[..n][..lengths[0]] == text[..lengths[0]];
      StreamedOfPrefix(text, lengths[1..], Collect(text[..lengths[0]], from, from, false).1, n);
    }
  }

  /** However the answer grows, what is released is what one call on the part seen last releases. */
  lemma StreamedIsOneCall(text: string, lengths: seq<nat>, from: nat)
    requires from <= |text| && Growing(text, lengths, from)
    ensures from <= Seen(lengths, from) <= |text|
    ensures Streamed(text, lengths, from) == Collect(text[..Seen(lengths, from)], from, from, false)
  {
    var n := Seen(lengths, from);
    StreamedOfPrefix(text, lengths, from, n);
    StreamingChangesNothing(text[..n], lengths, from);
  }

  /** An answer streamed in any way and then ended by a final call gives the sentences of one final call on
      the whole exactly when no short piece was joined to what follows it. */
  lemma StreamedThenFinal(text: string, lengths: seq<nat>, from: nat)
    requires from <= |text| && Growing(text, lengths, from)
    ensures from <= Seen(lengths, from) <= |text|
    ensures var (released, end) := Streamed(text, lengths, from);
      var (last, stop) := Collect(text, end, end, true);
      ((released + last, stop) == Collect(text, from, from, true) <==> NothingJoined(text, Seen(lengths, from), from))
  {
    hide Collect, NothingJoined;
    StreamedIsOneCall(text, lengths, from);
    FinalAfterPrefix(text, Seen(lengths, from), from);
  }

  lemma {:induction false} NoMatchBetween(text: string, i: nat, j: nat)
    requires i <= j <= |text| && forall k :: i <= k < j ==> !IsStop(text[k]) && text[k] != '\n'
    ensures NextMatch(text, i) == NextMatch(text, j)
    decreases j - i
  {
    if i < j {
      NoMatchBetween(text, i + 1, j);
    }
  }

  /** Letters, a stop, letters again and a stop, with a blank after each stop. */
  lemma TwoStops(text: string, a: nat, b: nat)
    requires 0 < a && a + 1 < b < |text| && text[a - 1] == text[b - 1] == '.' && IsSpace(text[a]) && IsSpace(text[b])
    requires forall k :: 0 <= k < b && k != a - 1 && k != b - 1 ==> !IsStop(text[k]) && text[k] != '\n'
    ensures NextMatch(text, 0) == Some(a) && NextMatch(text, a) == Some(b)
  {
    hide IsSpace, NextMatch;
    OneStop(text, 0, a);
    OneStop(text, a, b);
  }

  lemma OneStop(text: string, i: nat, a: nat)
    requires i < a < |text| && text[a - 1] == '.' && IsSpace(text[a])
    requires forall k :: i <= k < a - 1 ==> !IsStop(text[k]) && text[k] != '\n'
    ensures NextMatch(text, i) == Some(a)
  {
    hide IsSpace;
    NoMatchBetween(text, i, a - 1);
    OnlyMatch(text, a - 1, a, a);
  }

  lemma PlainTrim(s: string)
    requires s != "" && !IsSpace(s[0]) && !IsSpace(s[|s| - 1])
    ensures Trim(s) == s
  {}

  /** A text where it happens: a short first sentence is joined to the next while the answer grows, and
      stands alone in one final call. */
  lemma ShortFirst() returns (text: string)
    ensures Growing(text, [|text|], 0)
    ensures var (released, end) := Streamed(text, [|text|], 0);
      && released == [Sentence("Oui. Bien entendu.", 0, 18)]
      && var (last, stop) := Collect(text, end, end, true);
      && (released + last, stop) != Collect(text, 0, 0, true)
      && Sentence("Oui.", 0, 4) in Collect(text, 0, 0, true).0
  {
    hide Collect, NextMatch, Trim;
    text := "Oui. Bien entendu. Non";
    TwoStops(text, 4, 18);
    assert text[0..4] == "Oui." && text[0..18] == "Oui. Bien entendu.";
    PlainTrim(text[0..4]);
    PlainTrim(text[0..18]);
    FinalStep(text, 0, 4);
    assert Reached(text, |text|, 4, 0);
    StreamedThenFinal(text, [|text|], 0);
    StreamedIsOneCall(text, [|text|], 0);
    PrefixStep(text, |text|, 0, 0);
    PrefixStep(text, |text|, 4, 0);
    NoMatchBetween(text, 18, |text|);
    AtEnd(text);
    PrefixStep(text, |text|, 18, 18);
  }

  lemma AtEnd(text: string)
    ensures NextMatch(text, |text|) == None
  {}
}
