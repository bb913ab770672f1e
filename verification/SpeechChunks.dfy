/** Cutting a long text into bounded pieces for the voice model: at sentence ends, then at spaces,
    and through a word only when it is longer than the bound. */
module SpeechChunks {
  import opened Wrappers

  const CHUNK_TARGET := 250
  const CHUNK_HARD_MAX := 400

  // ---------------------------------------------------------------- white space

  /** What `str.strip` removes and `\s` matches. */
  predicate IsSpace(c: char) {
    c == ' ' || '\t' <= c <= '\r' || '\U{1C}' <= c <= '\U{1F}' || c == '\U{85}' || c == '\U{A0}' || c == '\U{1680}'
    || '\U{2000}' <= c <= '\U{200A}' || c == '\U{2028}' || c == '\U{2029}' || c == '\U{202F}' || c == '\U{205F}'
    || c == '\U{3000}'
  }

  function LeftStrip(s: string): (t: string)
    ensures |t| <= |s| && (t != "" ==> !IsSpace(t[0]))
  {
    if s != "" && IsSpace(s[0]) then LeftStrip(s[1..]) else s
  }

  function RightStrip(s: string): (t: string)
    ensures t <= s && (t != "" ==> !IsSpace(t[|t| - 1]))
  {
    if s != "" && IsSpace(s[|s| - 1]) then RightStrip(s[..|s| - 1]) else s
  }

  function Strip(s: string): string { RightStrip(LeftStrip(s)) }

  /** Neither end is white space. */
  ghost predicate Stripped(s: string) { s != "" ==> !IsSpace(s[0]) && !IsSpace(s[|s| - 1]) }

  lemma StripIsStripped(s: string)
    ensures Stripped(Strip(s)) && |Strip(s)| <= |s|
  {
    var t := LeftStrip(s);
    assert Strip(s) != "" ==> Strip(s)[0] == t[0];
  }

  /** The characters that are not white space, in order. */
  ghost function Solid(s: string): string {
    if s == "" then "" else (if IsSpace(s[0]) then "" else [s[0]]) + Solid(s[1..])
  }

  ghost function SolidAll(parts: seq<string>): string {
    if parts == [] then "" else SolidAll(parts[..|parts| - 1]) + Solid(parts[|parts| - 1])
  }

  lemma {:induction false} SolidJoin(a: string, b: string)
    ensures Solid(a + b) == Solid(a) + Solid(b)
  {
    hide IsSpace;
    if a == "" {
      assert a + b == b;
    } else {
      assert (a + b)[1..] == a[1..] + b;
      SolidJoin(a[1..], b);
    }
  }

  lemma {:induction false} SolidRight(s: string)
    ensures Solid(RightStrip(s)) == Solid(s)
  {
    hide IsSpace;
    if s != "" && IsSpace(s[|s| - 1]) {
      SolidRight(s[..|s| - 1]);
      assert s == s[..|s| - 1] + [s[|s| - 1]];
      SolidJoin(s[..|s| - 1], [s[|s| - 1]]);
    }
  }

  lemma {:induction false} SolidLeft(s: string)
    ensures Solid(LeftStrip(s)) == Solid(s)
  {
    hide IsSpace;
    if s != "" && IsSpace(s[0]) {
      SolidLeft(s[1..]);
    }
  }

  lemma SolidStrip(s: string)
    ensures Solid(Strip(s)) == Solid(s)
  {
    SolidLeft(s);
    SolidRight(LeftStrip(s));
  }

  lemma {:induction false} SolidEmpty(s: string)
    ensures Solid(s) == "" <==> forall c :: c in s ==> IsSpace(c)
  {
    hide IsSpace;
    if s != "" {
      SolidEmpty(s[1..]);
      assert s[0] in s;
      assert forall c :: c in s <==> c == s[0] || c in s[1..];
    }
  }

  lemma SolidSnoc(parts: seq<string>, part: string)
    ensures SolidAll(parts + [part]) == SolidAll(parts) + Solid(part)
  {
    assert (parts + [part])[..|parts|] == parts;
  }

  // ---------------------------------------------------------------- sentence ends

  predicate EndsSentence(c: char) { c == '.' || c == '!' || c == '?' || c == '\U{2026}' || c == ':' || c == ';' }

  function SpaceRun(text: string, i: nat): (j: nat)
    requires i <= |text|
    ensures i <= j <= |text| && forall k :: i <= k < j ==> IsSpace(text[k])
    ensures j < |text| ==> !IsSpace(text[j])
    ensures i < |text| && IsSpace(text[i]) ==> i < j
    decreases |text| - i
  {
    if i < |text| && IsSpace(text[i]) then SpaceRun(text, i + 1) else i
  }

  function LineRun(text: string, i: nat): (j: nat)
    requires i <= |text|
    ensures i <= j <= |text| && forall k :: i <= k < j ==> text[k] == '\n'
    ensures j < |text| ==> text[j] != '\n'
    ensures i < |text| && text[i] == '\n' ==> i < j
    decreases |text| - i
  {
    if i < |text| && text[i] == '\n' then LineRun(text, i + 1) else i
  }

  /** End of the separator that starts at `i`: white space after a sentence end, or line breaks. */
  function SeparatorAt(text: string, i: nat): (r: Option<nat>)
    requires i < |text|
    ensures r.Some? ==> i < r.value <= |text| && forall k :: i <= k < r.value ==> IsSpace(text[k])
  {
    if i > 0 && EndsSentence(text[i - 1]) && IsSpace(text[i]) then Some(SpaceRun(text, i))
    else if text[i] == '\n' then Some(LineRun(text, i))
    else None
  }

  /** The pieces between separators: the current one began at `start`, and `i` is scanned next. */
  function Pieces(text: string, start: nat, i: nat): seq<string>
    requires start <= i <= |text|
    decreases |text| - i
  {
    if i == |text| then [text[start..]]
    else
      match SeparatorAt(text, i)
      case None => Pieces(text, start, i + 1)
      case Some(j) => [text[start..i]] + Pieces(text, j, j)
  }

  /** The longest run of white space here, right after a sentence end; or else the longest run of line breaks. */
  ghost predicate SeparatorIs(text: string, i: nat, j: nat) {
    && i < j <= |text|
    && if i > 0 && text[i - 1] in ".!?\U{2026}:;" && IsSpace(text[i])
       then (forall k :: i <= k < j ==> IsSpace(text[k])) && (j < |text| ==> !IsSpace(text[j]))
       else (forall k :: i <= k < j ==> text[k] == '\n') && (j < |text| ==> text[j] != '\n')
  }

  /** The text from `start` on is cut at the first separator, and then at the next, until there is none. */
  ghost predicate CutAtSeparators(text: string, start: nat, parts: seq<string>)
    requires start <= |text|
    decreases |parts|
  {
    if |parts| <= 1 then parts == [text[start..]] && forall i: nat, j: nat :: start <= i ==> !SeparatorIs(text, i, j)
    else exists i: nat, j: nat :: FirstSeparator(text, start, i, j) && parts[0] == text[start..i] && CutAtSeparators(text, j, parts[1..])
  }

  ghost predicate FirstSeparator(text: string, start: nat, i: nat, j: nat) {
    start <= i < j <= |text| && SeparatorIs(text, i, j) && forall k: nat, l: nat :: start <= k < i ==> !SeparatorIs(text, k, l)
  }

  lemma SeparatorMeans(text: string, i: nat)
    requires i < |text|
    ensures SeparatorAt(text, i).Some? ==> SeparatorIs(text, i, SeparatorAt(text, i).value)
    ensures SeparatorAt(text, i).None? ==> forall j: nat :: !SeparatorIs(text, i, j)
  {
    hide IsSpace;
  }

  lemma NoSeparatorPast(text: string)
    ensures forall i: nat, j: nat :: |text| <= i ==> !SeparatorIs(text, i, j)
  {}

  lemma {:induction false} PiecesMean(text: string, start: nat, i: nat)
    requires start <= i <= |text|
    requires forall k: nat, l: nat :: start <= k < i ==> !SeparatorIs(text, k, l)
    ensures CutAtSeparators(text, start, Pieces(text, start, i)) && Pieces(text, start, i) != []
    decreases |text| - i
  {
    hide SeparatorIs, SeparatorAt;
    if i == |text| {
      NoSeparatorPast(text);
    } else {
      SeparatorMeans(text, i);
      match SeparatorAt(text, i)
      case None => PiecesMean(text, start, i + 1);
      case Some(j) =>
        PiecesMean(text, j, j);
        var parts := [text[start..i]] + Pieces(text, j, j);
        assert FirstSeparator(text, start, i, j);
        assert parts[1..] == Pieces(text, j, j);
    }
  }

  ghost function SolidOf(parts: seq<string>): string {
    if parts == [] then "" else Solid(parts[0]) + SolidOf(parts[1..])
  }

  lemma {:induction false} SpacesAreNotSolid(s: string)
    requires forall k :: 0 <= k < |s| ==> IsSpace(s[k])
    ensures Solid(s) == ""
  {
    SolidEmpty(s);
  }

  /** Splitting drops white space only. */
  lemma {:induction false} PiecesKeepSolid(text: string, start: nat, i: nat)
    requires start <= i <= |text|
    ensures SolidOf(Pieces(text, start, i)) == Solid(text[start..])
    decreases |text| - i
  {
    hide Solid, SeparatorAt, IsSpace;
    if i == |text| {
      assert SolidOf([text[start..]]) == Solid(text[start..]) + SolidOf([]);
    } else {
      match SeparatorAt(text, i)
      case None => PiecesKeepSolid(text, start, i + 1);
      case Some(j) =>
        PiecesKeepSolid(text, j, j);
        SpacesAreNotSolid(text[i..j]);
        assert text[start..] == text[start..i] + (text[i..j] + text[j..]);
        SolidJoin(text[start..i], text[i..j] + text[j..]);
        SolidJoin(text[i..j], text[j..]);
        assert ([text[start..i]] + Pieces(text, j, j))[1..] == Pieces(text, j, j);
    }
  }

  // ---------------------------------------------------------------- the hard bound

  /** `rfind(" ", 0, end)`. */
  function LastSpace(s: string, end: nat): (k: int)
    requires end <= |s|
    ensures -1 <= k < end && (k >= 0 ==> s[k] == ' ') && forall j :: k < j < end ==> s[j] != ' '
  {
    if end == 0 then -1 else if s[end - 1] == ' ' then end - 1 else LastSpace(s, end - 1)
  }

  /** A piece the model can be given: bounded, not empty, nothing to strip. */
  ghost predicate Good(c: string) { c != "" && |c| <= CHUNK_HARD_MAX && Stripped(c) }

  ghost predicate AllGood(chunks: seq<string>) { forall c :: c in chunks ==> Good(c) }

  /** The last blank before position 400, or 400 itself when there is none. */
  ghost predicate CutPlace(part: string, cut: nat) {
    && 0 < cut <= 400 < |part|
    && (cut < 400 ==> part[cut] == ' ') && forall j :: cut < j < 400 || (cut == 400 && 0 < j < 400) ==> part[j] != ' '
  }

  /** A part too long is cut there, again and again. */
  ghost predicate HardCut(part: string, out: seq<string>)
    decreases |out|
  {
    if |part| <= 400 then out == [part]
    else out != [] && exists cut: nat :: CutPlace(part, cut) && out[0] == Strip(part[..cut]) && HardCut(Strip(part[cut..]), out[1..])
  }

  /** Cutting `part` goes on from what was cut off `whole` so far. */
  ghost predicate Continues(whole: string, out: seq<string>, part: string) {
    forall tail :: HardCut(part, tail) ==> HardCut(whole, out + tail)
  }

  lemma NothingCut(whole: string)
    ensures Continues(whole, [], whole)
  {
    assert forall tail: seq<string> :: [] + tail == tail;
  }

  lemma HardCutStep(whole: string, out: seq<string>, part: string, cut: nat)
    requires CutPlace(part, cut) && Continues(whole, out, part)
    ensures Continues(whole, out + [Strip(part[..cut])], Strip(part[cut..]))
  {
    hide Strip;
    var a := Strip(part[..cut]);
    forall tail | HardCut(Strip(part[cut..]), tail) ensures HardCut(whole, out + [a] + tail) {
      assert ([a] + tail)[1..] == tail;
      assert HardCut(part, [a] + tail);
      assert out + ([a] + tail) == out + [a] + tail;
    }
  }

  lemma LastCut(whole: string, out: seq<string>, part: string)
    requires |part| <= 400 && Continues(whole, out, part)
    ensures HardCut(whole, out + [part])
  {
    assert HardCut(part, [part]);
  }

  method HardSplit(whole: string) returns (out: seq<string>)
    requires whole != "" && Stripped(whole)
    ensures out != [] && AllGood(out) && SolidAll(out) == Solid(whole)
    ensures HardCut(whole, out)
  {
    hide IsSpace, Solid, Strip, Continues, HardCut;
    NothingCut(whole);
    out := [];
    var part := whole;
    NoSolid();
    while |part| > CHUNK_HARD_MAX
      invariant part != "" && Stripped(part) && AllGood(out)
      invariant SolidAll(out) + Solid(part) == Solid(whole)
      invariant Continues(whole, out, part)
      decreases |part|
    {
      var cut := LastSpace(part, CHUNK_HARD_MAX);
      if cut <= 0 {
        cut := CHUNK_HARD_MAX;
      }
      CutParts(part, cut);
      HardCutStep(whole, out, part, cut);
      SolidSnoc(out, Strip(part[..cut]));
      out := out + [Strip(part[..cut])];
      part := Strip(part[cut..]);
    }
    SolidSnoc(out, part);
    LastCut(whole, out, part);
    out := out + [part];
  }

  lemma NoSolid()
    ensures SolidAll([]) == "" && Solid("") == ""
  {}

  /** Both sides of a cut have something to say, and lose nothing. */
  lemma CutParts(part: string, cut: nat)
    requires 0 < cut <= CHUNK_HARD_MAX < |part| && Stripped(part)
    ensures var a, b := Strip(part[..cut]), Strip(part[cut..]);
      && Good(a) && b != "" && Stripped(b) && |b| < |part|
      && Solid(part) == Solid(a) + Solid(b)
  {
    hide Strip, Solid, IsSpace;
    var p, q := part[..cut], part[cut..];
    assert part == p + q && p[0] == part[0] && q[|q| - 1] == part[|part| - 1];
    StripIsStripped(p);
    StripIsStripped(q);
    SolidStrip(p);
    SolidStrip(q);
    SolidJoin(p, q);
    NoSolid();
    SolidEmpty(p);
    SolidEmpty(q);
    assert p[0] in p && q[|q| - 1] in q;
  }

  // ---------------------------------------------------------------- gathering

  /** What the parts of a text are cut into; blank parts into nothing. */
  ghost predicate AllCut(parts: seq<string>, subs: seq<string>)
    decreases |parts|
  {
    if parts == [] then subs == []
    else exists n: nat :: n <= |subs| && OneCut(parts[0], subs[..n]) && AllCut(parts[1..], subs[n..])
  }

  ghost predicate OneCut(part: string, subs: seq<string>) {
    if Strip(part) == "" then subs == [] else HardCut(Strip(part), subs)
  }

  /** The pieces with a blank between any two. */
  ghost function Spaced(subs: seq<string>): string {
    if subs == [] then "" else if |subs| == 1 then subs[0] else Spaced(subs[..|subs| - 1]) + " " + subs[|subs| - 1]
  }

  /** A chunk joins the pieces of one stretch: several only within 250 characters, and one more would not fit. */
  ghost predicate ChunkIs(subs: seq<string>, from: nat, to: nat, chunk: string) {
    && from < to <= |subs| && chunk == Spaced(subs[from..to])
    && (to - from > 1 ==> |chunk| <= 250)
    && (to < |subs| ==> |chunk| + 1 + |subs[to]| > 250)
  }

  /** The chunks take the pieces in order, each as many as it can. */
  ghost predicate Greedy(subs: seq<string>, ends: seq<nat>, chunks: seq<string>) {
    && |ends| == |chunks| + 1 && ends[0] == 0 && ends[|chunks|] == |subs|
    && forall k :: 0 <= k < |chunks| ==> ChunkIs(subs, ends[k], ends[k + 1], chunks[k])
  }

  /** What a text becomes. */
  ghost predicate Chunked(text: string, result: seq<string>) {
    exists parts, subs :: CutAtSeparators(text, 0, parts) && AllCut(parts, subs)
      && if subs == [] then result == [text] else exists ends :: Greedy(subs, ends, result)
  }

  ghost predicate ClosedChunk(subs: seq<string>, from: nat, to: nat, chunk: string) {
    to < |subs| && ChunkIs(subs, from, to, chunk)
  }

  /** The same with the last chunk, the current one, still open. */
  ghost predicate Gathering(subs: seq<string>, ends: seq<nat>, chunks: seq<string>, cur: string) {
    && |ends| == |chunks| + 1 && ends[0] == 0 && ends[|chunks|] <= |subs|
    && (forall k :: 0 <= k < |chunks| ==> ClosedChunk(subs, ends[k], ends[k + 1], chunks[k]))
    && var from := ends[|chunks|];
    && cur == Spaced(subs[from..]) && (subs == [] ==> cur == "" && chunks == []) && (subs != [] ==> from < |subs|)
    && (|subs| - from > 1 ==> |cur| <= 250)
  }

  lemma ChunkStays(subs: seq<string>, sub: string, from: nat, to: nat, chunk: string)
    requires ClosedChunk(subs, from, to, chunk)
    ensures ClosedChunk(subs + [sub], from, to, chunk)
  {
    assert (subs + [sub])[from..to] == subs[from..to];
  }

  lemma SpacedSnoc(subs: seq<string>, from: nat, sub: string)
    requires from <= |subs|
    ensures Spaced((subs + [sub])[from..])
         == if from == |subs| then sub else Spaced(subs[from..]) + " " + sub
  {
    assert (subs + [sub])[from..] == subs[from..] + [sub];
    assert (subs[from..] + [sub])[..|subs| - from] == subs[from..];
  }

  /** One more piece starts a chunk of its own. */
  lemma CloseChunk(subs: seq<string>, ends: seq<nat>, chunks: seq<string>, cur: string, sub: string)
    requires Gathering(subs, ends, chunks, cur) && subs != [] && |cur| + 1 + |sub| > 250
    ensures Gathering(subs + [sub], ends + [|subs|], chunks + [cur], sub)
  {
    hide Spaced;
    var more := subs + [sub];
    SpacedSnoc(subs, |subs|, sub);
    assert more[ends[|chunks|]..|subs|] == subs[ends[|chunks|]..];
    forall k | 0 <= k < |chunks| ensures ClosedChunk(more, ends[k], ends[k + 1], chunks[k]) {
      ChunkStays(subs, sub, ends[k], ends[k + 1], chunks[k]);
    }
  }

  /** One more piece joins the current chunk. */
  lemma GrowChunk(subs: seq<string>, ends: seq<nat>, chunks: seq<string>, cur: string, sub: string)
    requires Gathering(subs, ends, chunks, cur) && (subs == [] || |cur| + 1 + |sub| <= 250)
    ensures Gathering(subs + [sub], ends, chunks, if subs == [] then sub else cur + " " + sub)
  {
    hide Spaced;
    SpacedSnoc(subs, ends[|chunks|], sub);
    forall k | 0 <= k < |chunks| ensures ClosedChunk(subs + [sub], ends[k], ends[k + 1], chunks[k]) {
      ChunkStays(subs, sub, ends[k], ends[k + 1], chunks[k]);
    }
  }

  lemma LastChunk(subs: seq<string>, ends: seq<nat>, chunks: seq<string>, cur: string)
    requires Gathering(subs, ends, chunks, cur) && subs != []
    ensures Greedy(subs, ends + [|subs|], chunks + [cur])
  {
    hide Spaced;
    assert subs[ends[|chunks|]..|subs|] == subs[ends[|chunks|]..];
  }

  lemma NothingGathered()
    ensures Gathering([], [0], [], "") && AllCut([], [])
  {}

  /** Cutting the parts goes on from what the first of them were cut into. */
  ghost predicate CutSoFar(parts: seq<string>, subs: seq<string>, rest: seq<string>) {
    forall tail :: AllCut(rest, tail) ==> AllCut(parts, subs + tail)
  }

  lemma NoneCut(parts: seq<string>)
    ensures CutSoFar(parts, [], parts)
  {
    assert forall tail: seq<string> :: [] + tail == tail;
  }

  lemma CutOneMore(parts: seq<string>, subs: seq<string>, rest: seq<string>, more: seq<string>)
    requires CutSoFar(parts, subs, rest) && rest != [] && OneCut(rest[0], more)
    ensures CutSoFar(parts, subs + more, rest[1..])
  {
    hide OneCut;
    forall tail | AllCut(rest[1..], tail) ensures AllCut(parts, subs + more + tail) {
      assert (more + tail)[..|more|] == more && (more + tail)[|more|..] == tail;
      assert AllCut(rest, more + tail);
      assert subs + (more + tail) == subs + more + tail;
    }
  }

  lemma AllAreCut(parts: seq<string>, subs: seq<string>)
    requires CutSoFar(parts, subs, [])
    ensures AllCut(parts, subs)
  {
    NothingGathered();
    assert subs + [] == subs;
  }

  lemma ChunkedIs(text: string, subs: seq<string>, ends: seq<nat>, result: seq<string>)
    requires AllCut(Pieces(text, 0, 0), subs)
    requires if subs == [] then result == [text] else Greedy(subs, ends, result)
    ensures Chunked(text, result)
  {
    hide CutAtSeparators, AllCut, Greedy;
    PiecesMean(text, 0, 0);
  }

  method ChunkText(text: string) returns (result: seq<string>)
    ensures Chunked(text, result)
    ensures Solid(text) != "" ==> AllGood(result) && result != []
    ensures SolidAll(result) == Solid(text)
    ensures Solid(text) == "" ==> result == [text]
  {
    hide IsSpace, Solid, SolidAll, Strip, Stripped, Pieces, Gathering, CutSoFar, HardCut, AllCut, Greedy, Chunked;
    var parts := Pieces(text, 0, 0);
    PiecesKeepSolid(text, 0, 0);
    assert text[0..] == text;
    var chunks, cur := [], "";
    ghost var all: seq<string>, ends: seq<nat> := [], [0];
    NothingGathered();
    NoneCut(parts);
    NoSolid();
    assert parts[0..] == parts && [] + [text] == [text];
    SolidSnoc([], text);
    for p := 0 to |parts|
      invariant AllGood(chunks) && (cur != "" ==> Good(cur))
      invariant SolidAll(chunks) + Solid(cur) + SolidOf(parts[p..]) == Solid(text)
      invariant cur == "" ==> chunks == []
      invariant Gathering(all, ends, chunks, cur) && (cur == "" <==> all == [])
      invariant CutSoFar(parts, all, parts[p..])
    {
      assert parts[p..][1..] == parts[p + 1..];
      SolidStrip(parts[p]);
      StripIsStripped(parts[p]);
      var part := Strip(parts[p]);
      if part != "" {
        var subs := HardSplit(part);
        CutOneMore(parts, all, parts[p..], subs);
        Regroup(SolidAll(chunks) + Solid(cur), Solid(part), SolidOf(parts[p + 1..]));
        chunks, cur, ends := Gather(chunks, cur, subs, all, ends);
        all := all + subs;
      } else {
        CutOneMore(parts, all, parts[p..], []);
        assert all + [] == all;
        Regroup(SolidAll(chunks) + Solid(cur), "", SolidOf(parts[p + 1..]));
      }
    }
    assert parts[|parts|..] == [];
    AllAreCut(parts, all);
    if cur != "" {
      SolidSnoc(chunks, cur);
      LastChunk(all, ends, chunks, cur);
      chunks, ends := chunks + [cur], ends + [|all|];
    }
    if chunks == [] {
      ChunkedIs(text, all, ends, [text]);
      return [text];
    }
    SolidNotEmpty(chunks);
    ChunkedIs(text, all, ends, chunks);
    result := chunks;
  }

  lemma Regroup(a: string, b: string, c: string)
    ensures a + (b + c) == a + b + c
    ensures a + "" == a && "" + c == c
  {}

  /** Joins each piece to the current chunk while it stays short, else starts a new one. */
  method Gather(chunks0: seq<string>, cur0: string, subs: seq<string>, ghost all: seq<string>, ghost ends0: seq<nat>)
    returns (chunks: seq<string>, cur: string, ghost ends: seq<nat>)
    requires AllGood(chunks0) && AllGood(subs) && (cur0 != "" ==> Good(cur0)) && (cur0 == "" ==> chunks0 == [])
    requires subs != [] && Gathering(all, ends0, chunks0, cur0) && (cur0 == "" <==> all == [])
    ensures AllGood(chunks) && cur != "" && Good(cur)
    ensures SolidAll(chunks) + Solid(cur) == SolidAll(chunks0) + Solid(cur0) + SolidAll(subs)
    ensures Gathering(all + subs, ends, chunks, cur)
  {
    hide IsSpace, Solid, Strip, Gathering;
    chunks, cur, ends := chunks0, cur0, ends0;
    NoSolid();
    assert all + subs[..0] == all;
    for k := 0 to |subs|
      invariant AllGood(chunks) && (cur != "" ==> Good(cur)) && (cur == "" ==> chunks == [] && k == 0)
      invariant SolidAll(chunks) + Solid(cur) == SolidAll(chunks0) + Solid(cur0) + SolidAll(subs[..k])
      invariant Gathering(all + subs[..k], ends, chunks, cur) && (cur == "" <==> all + subs[..k] == [])
    {
      var sub := subs[k];
      assert sub in subs;
      SolidOneMore(chunks0, cur0, chunks, cur, subs, k);
      assert all + subs[..k + 1] == all + subs[..k] + [sub];
      if cur != "" && |cur| + 1 + |sub| > CHUNK_TARGET {
        SolidSnoc(chunks, cur);
        CloseChunk(all + subs[..k], ends, chunks, cur, sub);
        chunks, ends := chunks + [cur], ends + [|all| + k];
        cur := sub;
      } else {
        JoinChunk(cur, sub);
        GrowChunk(all + subs[..k], ends, chunks, cur, sub);
        cur := Strip(cur + " " + sub);
      }
    }
    assert subs[..|subs|] == subs;
  }

  lemma SolidOneMore(chunks0: seq<string>, cur0: string, chunks: seq<string>, cur: string, subs: seq<string>, k: nat)
    requires k < |subs|
    requires SolidAll(chunks) + Solid(cur) == SolidAll(chunks0) + Solid(cur0) + SolidAll(subs[..k])
    ensures SolidAll(chunks) + (Solid(cur) + Solid(subs[k])) == SolidAll(chunks0) + Solid(cur0) + SolidAll(subs[..k + 1])
    ensures SolidAll(chunks) + Solid(cur) + Solid(subs[k]) == SolidAll(chunks) + (Solid(cur) + Solid(subs[k]))
  {
    hide Solid, SolidAll;
    assert subs[..k + 1] == subs[..k] + [subs[k]];
    SolidSnoc(subs[..k], subs[k]);
    Regroup(SolidAll(chunks), Solid(cur), Solid(subs[k]));
    Regroup(SolidAll(chunks0) + Solid(cur0), SolidAll(subs[..k]), Solid(subs[k]));
  }

  lemma StripNothing(s: string)
    requires Stripped(s)
    ensures Strip(s) == s && Strip(" " + s) == s
  {
    hide IsSpace;
    assert (" " + s)[1..] == s;
    assert IsSpace(' ') by { SpaceIsSpace(); }
    assert LeftStrip(" " + s) == LeftStrip(s) == s;
  }

  lemma SpaceIsSpace()
    ensures IsSpace(' ')
  {}

  lemma JoinedIs(cur: string, sub: string)
    requires Stripped(cur) && sub != "" && Stripped(sub)
    ensures Strip(cur + " " + sub) == if cur == "" then sub else cur + " " + sub
  {
    hide IsSpace, Strip;
    if cur == "" {
      assert cur + " " == " ";
      StripNothing(sub);
    } else {
      EndsOfJoin(cur, sub);
      StripNothing(cur + " " + sub);
    }
  }

  lemma EndsOfJoin<T>(a: seq<T>, b: seq<T>)
    requires a != [] && b != []
    ensures forall m: seq<T> :: (a + m + b)[0] == a[0] && (a + m + b)[|a + m + b| - 1] == b[|b| - 1]
  {}

  lemma JoinChunk(cur: string, sub: string)
    requires (cur != "" ==> Good(cur)) && Good(sub)
    requires cur == "" || |cur| + 1 + |sub| <= CHUNK_TARGET
    ensures var c := Strip(cur + " " + sub); Good(c) && Solid(c) == Solid(cur) + Solid(sub)
    ensures Strip(cur + " " + sub) == if cur == "" then sub else cur + " " + sub
  {
    hide IsSpace, Solid, Strip, Stripped;
    SolidStrip(cur + " " + sub);
    SolidJoined(cur, sub);
    EmptyIsStripped();
    JoinedIs(cur, sub);
    StripIsStripped(cur + " " + sub);
  }

  lemma EmptyIsStripped()
    ensures Stripped("")
  {}

  lemma SolidJoined(cur: string, sub: string)
    ensures Solid(cur + " " + sub) == Solid(cur) + Solid(sub)
  {
    hide IsSpace, Solid;
    SolidJoin(cur + " ", sub);
    SolidJoin(cur, " ");
    SpaceIsSpace();
    SolidEmpty(" ");
    Regroup(Solid(cur), Solid(" "), Solid(sub));
  }

  lemma SolidNotEmpty(chunks: seq<string>)
    requires chunks != [] && AllGood(chunks)
    ensures SolidAll(chunks) != ""
  {
    hide IsSpace, Solid;
    var last := chunks[|chunks| - 1];
    assert last in chunks;
    assert last[0] in last;
    SolidEmpty(last);
  }
}
