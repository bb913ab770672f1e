/** Telling that a continuation rewrites a whole page: the three patterns of the test, and what they match. */
module Documents {
  import opened JsStrings

  /** Case folding of a pattern of plain letters. */
  function Lower(c: char): char { if 'A' <= c <= 'Z' then (c as int + 32) as char else c }

  predicate MatchesFold(s: string, i: nat, pattern: string)
    decreases |pattern|
  {
    pattern == "" || (i < |s| && Lower(s[i]) == pattern[0] && MatchesFold(s, i + 1, pattern[1..]))
  }

  predicate OpensDocument(s: string, i: nat) {
    || MatchesFold(s, i, "<!doctype")
    || (MatchesFold(s, i, "<html") && i + 5 < |s| && (IsSpace(s[i + 5]) || s[i + 5] == '>'))
  }

  predicate ClosesDocument(s: string, i: nat) {
    && MatchesFold(s, i, "</html") && i + 6 <= |s|
    && TrimStart(s[i + 6..]) != "" && TrimStart(s[i + 6..])[0] == '>'
  }

  /** Does a document open somewhere from `i` on? */
  predicate OpensFrom(s: string, i: nat)
    decreases |s| - i
  {
    i < |s| && (OpensDocument(s, i) || OpensFrom(s, i + 1))
  }

  predicate ClosesFrom(s: string, i: nat)
    decreases |s| - i
  {
    i < |s| && (ClosesDocument(s, i) || ClosesFrom(s, i + 1))
  }

  /** A continuation that rewrites the whole document, and weighs at least half of it. */
  predicate Replaces(base: string, continuation: string) {
    && OpensDocument(TrimStart(continuation), 0) && OpensFrom(base, 0) && ClosesFrom(continuation, 0)
    && 2 * |continuation| >= |base|
  }

  // ---------------------------------------------------------------- what the test means

  /** A letter of a pattern, in either case; any other character as it is. */
  ghost predicate SameFolded(c: char, w: char) { c == w || ('a' <= w <= 'z' && c as int + 32 == w as int) }

  ghost predicate ReadsAs(s: string, i: nat, pattern: string) {
    i + |pattern| <= |s| && forall k :: 0 <= k < |pattern| ==> SameFolded(s[i + k], pattern[k])
  }

  ghost predicate DocumentAt(s: string, i: nat) {
    || ReadsAs(s, i, "<!doctype")
    || (ReadsAs(s, i, "<html") && i + 5 < |s| && (s[i + 5] == '>' || IsSpace(s[i + 5])))
  }

  ghost predicate BlankBetween(s: string, i: nat, j: nat) { i <= j <= |s| && forall k :: i <= k < j ==> IsSpace(s[k]) }

  ghost predicate ClosingTagAt(s: string, i: nat) {
    ReadsAs(s, i, "</html") && exists e: nat :: BlankBetween(s, i + 6, e) && e < |s| && s[e] == '>'
  }

  ghost predicate StartsDocument(s: string) { exists k: nat :: BlankBetween(s, 0, k) && DocumentAt(s, k) }

  ghost predicate HoldsDocument(s: string) { exists i: nat :: i < |s| && DocumentAt(s, i) }

  ghost predicate HoldsClosingTag(s: string) { exists i: nat :: i < |s| && ClosingTagAt(s, i) }

  /** The continuation starts a document, blanks aside, and closes one, where the file holds one, and it weighs
      at least half of the file. */
  ghost predicate Rewrites(base: string, continuation: string) {
    && StartsDocument(continuation) && HoldsClosingTag(continuation) && HoldsDocument(base)
    && 2 * |continuation| >= |base|
  }

  lemma {:induction false} FoldIs(s: string, i: nat, pattern: string)
    requires i <= |s| && forall c :: c in pattern ==> !('A' <= c <= 'Z')
    ensures MatchesFold(s, i, pattern) <==> ReadsAs(s, i, pattern)
    decreases |pattern|
  {
    if pattern != "" && i < |s| {
      var rest := pattern[1..];
      assert pattern[0] in pattern && forall c :: c in rest ==> c in pattern;
      FoldIs(s, i + 1, rest);
      ReadsStep(s, i, pattern);
    }
  }

  lemma ReadsStep(s: string, i: nat, pattern: string)
    requires pattern != "" && i < |s|
    ensures ReadsAs(s, i, pattern) <==> SameFolded(s[i], pattern[0]) && ReadsAs(s, i + 1, pattern[1..])
  {
    var rest := pattern[1..];
    if ReadsAs(s, i, pattern) {
      assert SameFolded(s[i + 0], pattern[0]);
      forall k | 0 <= k < |rest| ensures SameFolded(s[i + 1 + k], rest[k]) {
        assert SameFolded(s[i + (k + 1)], pattern[k + 1]);
      }
    }
    if SameFolded(s[i], pattern[0]) && ReadsAs(s, i + 1, rest) {
      forall k | 0 <= k < |pattern| ensures SameFolded(s[i + k], pattern[k]) {
        assert k > 0 ==> SameFolded(s[i + 1 + (k - 1)], rest[k - 1]);
      }
    }
  }

  lemma OpensIs(s: string, i: nat)
    requires i <= |s|
    ensures OpensDocument(s, i) <==> DocumentAt(s, i)
  {
    hide MatchesFold, ReadsAs, IsSpace;
    FoldIs(s, i, "<!doctype");
    FoldIs(s, i, "<html");
  }

  lemma ClosesIs(s: string, i: nat)
    requires i <= |s|
    ensures ClosesDocument(s, i) <==> ClosingTagAt(s, i)
  {
    hide MatchesFold, ReadsAs, IsSpace, BlankBetween, TrimStart;
    NotBlank();
    FoldIs(s, i, "</html");
    if ReadsAs(s, i, "</html") {
      ReadsLength(s, i, "</html");
      AfterBlanks(s, i + 6, '>');
    }
  }

  lemma NotBlank()
    ensures !IsSpace('>') && !IsSpace('<')
  {}

  lemma ReadsLength(s: string, i: nat, pattern: string)
    requires ReadsAs(s, i, pattern)
    ensures i + |pattern| <= |s|
    ensures pattern != "" ==> SameFolded(s[i], pattern[0])
  {
    assert pattern != "" ==> SameFolded(s[i + 0], pattern[0]);
  }

  lemma BlanksEnd(s: string, i: nat, e: nat, f: nat)
    requires BlankBetween(s, i, e) && BlankBetween(s, i, f)
    requires e < |s| ==> !IsSpace(s[e])
    requires f < |s| ==> !IsSpace(s[f])
    ensures e == f
  {
    hide IsSpace;
  }

  lemma FirstOfRest<T>(s: seq<T>, i: nat)
    requires i <= |s|
    ensures i < |s| ==> s[i..][0] == s[i]
  {}

  lemma RestOfRest<T>(s: seq<T>, i: nat, n: nat)
    requires i + n <= |s|
    ensures s[i..][n..] == s[i + n..]
  {}

  /** Where the blanks end. */
  lemma TrimStartAt(s: string, i: nat) returns (e: nat)
    requires i <= |s|
    ensures e <= |s| && BlankBetween(s, i, e) && TrimStart(s[i..]) == s[e..] && (e < |s| ==> !IsSpace(s[e]))
  {
    hide IsSpace, TrimStart;
    var r := s[i..];
    var t := TrimStart(r);
    e := |s| - |t|;
    forall k | i <= k < e ensures IsSpace(s[k]) {
      assert s[k] == r[k - i];
    }
    FirstOfRest(s, e);
    RestOfRest(s, i, |r| - |t|);
  }

  /** What follows the blanks. */
  lemma AfterBlanks(s: string, i: nat, c: char)
    requires i <= |s| && !IsSpace(c)
    ensures (TrimStart(s[i..]) != "" && TrimStart(s[i..])[0] == c)
      <==> exists e: nat :: BlankBetween(s, i, e) && e < |s| && s[e] == c
  {
    hide IsSpace, BlankBetween, TrimStart;
    var e := TrimStartAt(s, i);
    assert e < |s| ==> s[e..][0] == s[e];
    if f: nat :| BlankBetween(s, i, f) && f < |s| && s[f] == c {
      BlanksEnd(s, i, e, f);
    }
  }

  lemma {:induction false} OpensFromIs(s: string, i: nat)
    ensures OpensFrom(s, i) <==> exists k: nat :: i <= k < |s| && DocumentAt(s, k)
    decreases |s| - i
  {
    hide OpensDocument, DocumentAt;
    if i < |s| {
      OpensIs(s, i);
      OpensFromIs(s, i + 1);
    }
  }

  lemma {:induction false} ClosesFromIs(s: string, i: nat)
    ensures ClosesFrom(s, i) <==> exists k: nat :: i <= k < |s| && ClosingTagAt(s, k)
    decreases |s| - i
  {
    hide ClosesDocument, ClosingTagAt;
    if i < |s| {
      ClosesIs(s, i);
      ClosesFromIs(s, i + 1);
    }
  }

  lemma StartIs(s: string)
    ensures OpensDocument(TrimStart(s), 0) <==> StartsDocument(s)
  {
    hide OpensDocument, DocumentAt, IsSpace, BlankBetween, TrimStart;
    assert s[0..] == s;
    var e := TrimStartAt(s, 0);
    OpensIs(s[e..], 0);
    DocumentShift(s, e);
    if k: nat :| BlankBetween(s, 0, k) && DocumentAt(s, k) {
      DocumentStart(s, k);
      BlanksEnd(s, 0, e, k);
    }
  }

  lemma DocumentShift(s: string, e: nat)
    requires e <= |s|
    ensures DocumentAt(s[e..], 0) <==> DocumentAt(s, e)
  {
    hide IsSpace, ReadsAs;
    ReadsShift(s, e, "<!doctype");
    ReadsShift(s, e, "<html");
  }

  lemma ReadsShift(s: string, e: nat, pattern: string)
    requires e <= |s|
    ensures ReadsAs(s[e..], 0, pattern) <==> ReadsAs(s, e, pattern)
  {
    var t := s[e..];
    if ReadsAs(t, 0, pattern) {
      forall k | 0 <= k < |pattern| ensures SameFolded(s[e + k], pattern[k]) {
        assert SameFolded(t[0 + k], pattern[k]);
      }
    }
    if ReadsAs(s, e, pattern) {
      forall k | 0 <= k < |pattern| ensures SameFolded(t[0 + k], pattern[k]) {
        assert SameFolded(s[e + k], pattern[k]);
      }
    }
  }

  lemma DocumentStart(s: string, k: nat)
    requires DocumentAt(s, k)
    ensures k < |s| && !IsSpace(s[k])
  {
    hide IsSpace, ReadsAs;
    NotBlank();
    if ReadsAs(s, k, "<html") {
      ReadsLength(s, k, "<html");
    } else {
      ReadsLength(s, k, "<!doctype");
    }
  }

  /** The test holds exactly when the continuation rewrites the document. */
  lemma ReplacesIsRewrites(base: string, continuation: string)
    ensures Replaces(base, continuation) <==> Rewrites(base, continuation)
  {
    hide OpensDocument, OpensFrom, ClosesFrom, DocumentAt, ClosingTagAt, StartsDocument;
    StartIs(continuation);
    OpensFromIs(base, 0);
    ClosesFromIs(continuation, 0);
  }
}
