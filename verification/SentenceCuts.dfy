/** Where an answer is cut, said of its characters alone. */
module SentenceCuts {
  import opened Wrappers
  import opened JsStrings
  import opened Sentences

  // ---------------------------------------------------------------- boundaries

  const STOPS := ".!?\U{2026}"

  const MARKS := "\"\U{BB}\U{201D}')]"

  lemma StopsAndMarksAre(c: char)
    ensures c in STOPS <==> IsStop(c)
    ensures c in MARKS <==> IsClosing(c)
  {}

  /** A boundary met from `i` on ends at `p`: after a line break; or after stops and then closing marks, when
      white space or the end of the text comes next. */
  ghost predicate Ends(text: string, i: nat, p: nat) {
    && i < p <= |text|
    && (text[p - 1] == '\n' || exists k: nat, d: nat :: i <= k && StopsAndMarks(text, k, d, p))
  }

  ghost predicate StopsAndMarks(text: string, k: nat, d: nat, p: nat) {
    && k < d <= p <= |text| && (p == |text| || IsSpace(text[p]))
    && (forall j :: k <= j < d ==> text[j] in STOPS) && (forall j :: d <= j < p ==> text[j] in MARKS)
  }

  ghost predicate FirstEnd(text: string, i: nat, p: nat) {
    Ends(text, i, p) && forall q :: i < q < p ==> !Ends(text, i, q)
  }

  lemma NoSpaceThere(c: char)
    ensures c in STOPS || c in MARKS ==> !IsSpace(c) && c != '\n'
  {}

  /** Inside stops and marks no boundary ends. */
  lemma NoEndInside(text: string, k: nat, d: nat, p: nat, i: nat, q: nat)
    requires StopsAndMarks(text, k, d, p) && k < q < p
    ensures !Ends(text, i, q)
  {
    hide IsSpace, IsStop, IsClosing, STOPS, MARKS;
    NoSpaceThere(text[q - 1]);
    NoSpaceThere(text[q]);
  }

  lemma MatchEnds(text: string, i: nat)
    requires i < |text| && MatchAt(text, i).Some?
    ensures FirstEnd(text, i, MatchAt(text, i).value)
  {
    hide IsSpace, IsStop, IsClosing, STOPS, MARKS;
    if text[i] != '\n' {
      var d := StopRun(text, i);
      var p := ClosingRun(text, d);
      forall j | 0 <= j < |text| ensures (text[j] in STOPS <==> IsStop(text[j])) && (text[j] in MARKS <==> IsClosing(text[j])) {
        StopsAndMarksAre(text[j]);
      }
      assert StopsAndMarks(text, i, d, p);
      forall q | i < q < p ensures !Ends(text, i, q) {
        NoEndInside(text, i, d, p, i, q);
      }
    }
  }

  lemma NoMatchHere(text: string, i: nat, p: nat)
    requires i < |text| && MatchAt(text, i).None?
    ensures Ends(text, i, p) <==> Ends(text, i + 1, p)
  {
    hide IsSpace, IsStop, IsClosing, STOPS, MARKS;
    if Ends(text, i, p) && text[p - 1] != '\n' {
      var k: nat, d: nat :| i <= k && StopsAndMarks(text, k, d, p);
      if k == i {
        forall j | 0 <= j < |text| ensures (text[j] in STOPS <==> IsStop(text[j])) && (text[j] in MARKS <==> IsClosing(text[j])) {
          StopsAndMarksAre(text[j]);
        }
        OnlyMatch(text, i, d, p);
      }
      assert k > i && k < d <= p;
    }
  }

  /** The boundary found is the first there is. */
  lemma {:induction false} BoundaryIs(text: string, i: nat)
    requires i <= |text|
    ensures if NextMatch(text, i).Some? then FirstEnd(text, i, NextMatch(text, i).value)
      else forall p: nat :: !Ends(text, i, p)
    decreases |text| - i
  {
    hide MatchAt, Ends;
    if i == |text| {
      NothingEnds(text);
    } else if MatchAt(text, i).Some? {
      MatchEnds(text, i);
    } else {
      BoundaryIs(text, i + 1);
      forall p: nat ensures Ends(text, i, p) <==> Ends(text, i + 1, p) {
        NoMatchHere(text, i, p);
      }
      EndIsLater(text, i);
      EndIsLater(text, i + 1);
    }
  }

  lemma EndIsLater(text: string, i: nat)
    ensures forall p: nat :: Ends(text, i, p) ==> i < p <= |text|
  {}

  lemma NothingEnds(text: string)
    ensures forall p: nat :: !Ends(text, |text|, p)
  {}

  /** From a boundary on, the boundaries are those met from before it. */
  lemma EndsAfter(text: string, i: nat, mid: nat, p: nat)
    requires Ends(text, i, mid) && mid < p
    ensures Ends(text, i, p) <==> Ends(text, mid, p)
  {
    hide IsSpace, IsStop, IsClosing, STOPS, MARKS;
    if Ends(text, i, p) && text[p - 1] != '\n' {
      var k: nat, d: nat :| i <= k && StopsAndMarks(text, k, d, p);
      if k < mid {
        NoEndInside(text, k, d, p, i, mid);
      }
      assert mid <= k;
    }
  }

  // ---------------------------------------------------------------- while the answer grows

  /** A boundary before the end of the text makes the piece from `start` long enough. */
  ghost predicate LongAt(text: string, start: nat, p: nat) {
    Ends(text, start, p) && p < |text| && |Trim(text[start..p])| >= 14
  }

  /** Each sentence goes from the end of the one before to the first boundary that makes it 14 characters long,
      blanks at its ends aside; and the last one is followed by no such boundary. */
  ghost predicate Cuts(text: string, start: nat, sentences: seq<Sentence>, end: nat)
    requires start <= |text|
    decreases |sentences|
  {
    if sentences == [] then end == start && forall p: nat :: !LongAt(text, start, p)
    else
      var s := sentences[0];
      && s.start == start && LongAt(text, start, s.end) && (forall q: nat :: q < s.end ==> !LongAt(text, start, q))
      && s.text == Trim(text[start..s.end])
      && Cuts(text, s.end, sentences[1..], end)
  }

  lemma {:induction false} CollectCuts(text: string, i: nat, start: nat)
    requires start <= i <= |text| && (i == start || Ends(text, start, i))
    requires forall q: nat :: q <= i ==> !LongAt(text, start, q)
    ensures var (sentences, end) := Collect(text, i, start, false); Cuts(text, start, sentences, end)
    decreases |text| - i
  {
    hide Trim, Ends, NextMatch;
    BoundaryIs(text, i);
    NextIsFirst(text, start, i);
    match NextMatch(text, i)
    case None =>
    case Some(stop) =>
      if stop < |text| {
        var piece := Trim(text[start..stop]);
        if |piece| < MIN_CHARS {
          CollectCuts(text, stop, start);
        } else {
          NotLongAtStart(text, stop);
          CollectCuts(text, stop, stop);
          var more := Collect(text, stop, stop, false).0;
          assert ([Sentence(piece, start, stop)] + more)[1..] == more;
        }
      }
  }

  lemma NotLongAtStart(text: string, start: nat)
    ensures forall q: nat :: q <= start ==> !LongAt(text, start, q)
  {}

  /** What is met from `i` on, seen from `start`. */
  lemma NextIsFirst(text: string, start: nat, i: nat)
    requires start <= i <= |text| && (i == start || Ends(text, start, i))
    ensures forall p: nat :: i < p ==> (Ends(text, start, p) <==> Ends(text, i, p))
    ensures forall p: nat :: Ends(text, start, p) ==> p <= |text|
  {
    forall p: nat | i < p ensures Ends(text, start, p) <==> Ends(text, i, p) {
      if i > start {
        EndsAfter(text, start, i, p);
      }
    }
  }

  /** While the answer grows, exactly these sentences are released. */
  lemma GrowingCuts(text: string, from: nat)
    requires from <= |text|
    ensures var (sentences, end) := Collect(text, from, from, false); Cuts(text, from, sentences, end)
  {
    NotLongAtStart(text, from);
    CollectCuts(text, from, from);
  }

  // ---------------------------------------------------------------- when it has ended

  /** The text is cut at every boundary, and what is left after the last one is a sentence too; blank pieces are
      none. */
  ghost predicate FinalCuts(text: string, start: nat, sentences: seq<Sentence>, end: nat)
    requires start <= |text|
    decreases |text| - start
  {
    if exists p: nat :: FirstEnd(text, start, p) then
      var p: nat :| FirstEnd(text, start, p);
      var piece := Trim(text[start..p]);
      if piece == "" then FinalCuts(text, p, sentences, end)
      else sentences != [] && sentences[0] == Sentence(piece, start, p) && FinalCuts(text, p, sentences[1..], end)
    else
      var piece := Trim(text[start..]);
      if piece == "" then sentences == [] && end == start
      else sentences == [Sentence(piece, start, |text|)] && end == |text|
  }

  lemma OneFirst(text: string, i: nat, p: nat, q: nat)
    requires FirstEnd(text, i, p) && FirstEnd(text, i, q)
    ensures p == q
  {}

  lemma {:induction false} CollectFinalCuts(text: string, start: nat)
    requires start <= |text|
    ensures var (sentences, end) := Collect(text, start, start, true); FinalCuts(text, start, sentences, end)
    decreases |text| - start
  {
    hide Trim, Ends, NextMatch;
    BoundaryIs(text, start);
    match NextMatch(text, start)
    case None =>
    case Some(stop) =>
      forall p: nat | FirstEnd(text, start, p) ensures p == stop {
        OneFirst(text, start, p, stop);
      }
      CollectFinalCuts(text, stop);
      var piece, more := Trim(text[start..stop]), Collect(text, stop, stop, true).0;
      assert ([Sentence(piece, start, stop)] + more)[1..] == more;
  }
}
