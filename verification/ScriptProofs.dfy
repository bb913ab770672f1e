/** The scanner agrees with the trees: on whole texts and on every cut of them. */
module ScriptProofs {
  import opened Wrappers
  import opened JsStrings
  import opened ScriptDepth
  import opened ScriptNesting

  // ---------------------------------------------------------------- strings and comments

  lemma {:induction false} SkipsString(code: string, i: nat, body: seq<Piece>, quote: char)
    requires PiecesMeant(body, quote) && quote != '\\'
    requires Follows(code, i, PiecesText(body) + [quote])
    ensures var end := i + |PiecesText(body)| + 1;
      if end <= |code| then SkipString(code, i, quote) == end else SkipString(code, i, quote) >= |code|
    decreases |body|
  {
    if i < |code| {
      if body == [] {
        FollowsFirst(code, i, PiecesText(body) + [quote]);
      } else {
        var p := body[0];
        assert PiecesText(body) + [quote] == PieceText(p) + (PiecesText(body[1..]) + [quote]);
        FollowsSplit(code, i, PieceText(p), PiecesText(body[1..]) + [quote]);
        FollowsFirst(code, i, PieceText(p));
        assert p in body;
        SkipsString(code, i + |PieceText(p)|, body[1..], quote);
      }
    }
  }

  lemma {:induction false} SkipsLine(code: string, i: nat, note: string)
    requires '\n' !in note && Follows(code, i, note + "\n")
    ensures if i + |note| < |code| then SkipLine(code, i) == i + |note| else SkipLine(code, i) >= |code| || i >= |code|
    decreases |note|
  {
    if i < |code| {
      FollowsFirst(code, i, note + "\n");
      if note != "" {
        assert note + "\n" == [note[0]] + (note[1..] + "\n");
        FollowsSplit(code, i, [note[0]], note[1..] + "\n");
        SkipsLine(code, i + 1, note[1..]);
      }
    }
  }

  lemma NoBlockEndTail(note: string)
    requires NoBlockEnd(note) && note != ""
    ensures NoBlockEnd(note[1..])
    ensures |note| > 1 ==> !(note[0] == '*' && note[1] == '/')
  {
    var t := note[1..];
    forall k | 0 <= k < |t| - 1 ensures !(t[k] == '*' && t[k + 1] == '/') {
      assert t[k] == note[k + 1] && t[k + 1] == note[k + 1 + 1];
    }
    assert |note| > 1 ==> note[0 + 1] == note[1];
  }

  lemma {:induction false} SkipsBlock(code: string, i: nat, note: string)
    requires NoBlockEnd(note) && Follows(code, i, note + "*/")
    ensures var end := i + |note| + 2;
      if end <= |code| then SkipBlock(code, i) == end else SkipBlock(code, i) >= |code|
    decreases |note|
  {
    var r := note + "*/";
    if i < |code| {
      FollowsFirst(code, i, r);
      if i + 1 < |code| {
        FollowsSecond(code, i, r);
        if note != "" {
          assert r == [note[0]] + (note[1..] + "*/");
          FollowsSplit(code, i, [note[0]], note[1..] + "*/");
          assert |note| > 1 ==> r[1] == note[1];
          NoBlockEndTail(note);
          SkipsBlock(code, i + 1, note[1..]);
        }
      }
    }
  }

  // ---------------------------------------------------------------- regular expression literals

  lemma SkipsPiece(code: string, i: nat, p: Piece)
    requires i < |code| && Follows(code, i, PieceText(p)) && (p.Raw? ==> p.c != ']' && p.c != '\\' && p.c != '\n')
    ensures var end := i + |PieceText(p)|;
      if end <= |code| then SkipRegex(code, i, true) == SkipRegex(code, end, true) else SkipRegex(code, i, true) >= |code|
  {
    FollowsFirst(code, i, PieceText(p));
  }

  lemma {:induction false} SkipsClass(code: string, i: nat, body: seq<Piece>)
    requires AtomMeant(Class(body)) && Follows(code, i, PiecesText(body) + "]")
    ensures var end := i + |PiecesText(body)| + 1;
      if end <= |code| then SkipRegex(code, i, true) == SkipRegex(code, end, false) else SkipRegex(code, i, true) >= |code|
    decreases |body|
  {
    if body == [] {
      assert PiecesText(body) + "]" == "]";
      ClassCloses(code, i, true);
    } else if i < |code| {
      hide SkipRegex, Follows;
      var p := body[0];
      assert PiecesText(body) + "]" == PieceText(p) + (PiecesText(body[1..]) + "]");
      FollowsSplit(code, i, PieceText(p), PiecesText(body[1..]) + "]");
      assert p in body;
      SkipsPiece(code, i, p);
      SkipsClass(code, i + |PieceText(p)|, body[1..]);
    } else {
      RegexCut(code, i, true);
    }
  }

  lemma ClassCloses(code: string, i: nat, inClass: bool)
    requires Follows(code, i, "]")
    ensures SkipRegex(code, i, inClass) == if i < |code| then SkipRegex(code, i + 1, false) else i
  {
    if i < |code| {
      FollowsFirst(code, i, "]");
    }
  }

  lemma RegexCut(code: string, i: nat, inClass: bool)
    requires i >= |code|
    ensures SkipRegex(code, i, inClass) == i
  {}

  lemma SkipsAtom(code: string, i: nat, a: Atom)
    requires i < |code| && Follows(code, i, AtomText(a)) && AtomMeant(a)
    ensures var end := i + |AtomText(a)|;
      if end <= |code| then SkipRegex(code, i, false) == SkipRegex(code, end, false) else SkipRegex(code, i, false) >= |code|
  {
    FollowsFirst(code, i, AtomText(a));
    if a.Class? {
      FollowsSplit(code, i, "[", PiecesText(a.body) + "]");
      SkipsClass(code, i + 1, a.body);
    }
  }

  lemma AtomsStep(atoms: seq<Atom>)
    requires AtomsMeant(atoms) && atoms != []
    ensures AtomMeant(atoms[0]) && AtomsMeant(atoms[1..])
    ensures AtomsText(atoms) == AtomText(atoms[0]) + AtomsText(atoms[1..])
  {
    hide AtomMeant, AtomText;
    assert atoms[0] in atoms;
  }

  lemma LiteralEnds(code: string, i: nat, last: char)
    requires Follows(code, i, AtomsText([]) + [last]) && (last == '/' || last == '\n')
    ensures SkipRegex(code, i, false) == if i < |code| && last == '/' then i + 1 else i
  {
    assert AtomsText([]) + [last] == [last];
    if i < |code| {
      FollowsFirst(code, i, [last]);
    }
  }

  /** A literal is skipped with its slash; where the line ends before it, the line break is left. */
  lemma {:induction false} SkipsAtoms(code: string, i: nat, atoms: seq<Atom>, last: char)
    requires AtomsMeant(atoms) && Follows(code, i, AtomsText(atoms) + [last]) && (last == '/' || last == '\n')
    ensures var end := i + |AtomsText(atoms)| + 1;
      if end <= |code| then SkipRegex(code, i, false) == (if last == '/' then end else end - 1) else SkipRegex(code, i, false) >= |code|
    decreases |atoms|
  {
    hide SkipRegex, Follows, AtomMeant, AtomText, AtomsMeant, AtomsText;
    if i >= |code| {
      RegexCut(code, i, false);
    } else if atoms == [] {
      LiteralEnds(code, i, last);
      NoAtoms();
    } else {
      var a, rest := atoms[0], AtomsText(atoms[1..]);
      AtomsStep(atoms);
      assert AtomText(a) + rest + [last] == AtomText(a) + (rest + [last]);
      FollowsSplit(code, i, AtomText(a), rest + [last]);
      SkipsAtom(code, i, a);
      SkipsAtoms(code, i + |AtomText(a)|, atoms[1..], last);
    }
  }

  lemma NoAtoms()
    ensures AtomsText([]) == ""
  {}

  lemma KeywordsAreWords(w: string)
    ensures IsKeyword(w) <==> w in WORDS_BEFORE_REGEX
    ensures IsKeyword(w) ==> 2 <= |w| <= 10
  {}

  lemma SignsAreBefore(c: char)
    ensures AwaitsOperand(c) <==> c in BEFORE_REGEX
  {}

  /** Twelve characters are enough to see the word before a slash. */
  lemma WordInTail(before: string, w: string)
    requires |w| <= 10
    ensures var t := before[if |before| > 12 then |before| - 12 else 0..];
      EndsWithWord(t, w) <==>
        |w| <= |before| && before[|before| - |w|..] == w && (|before| == |w| || !IsNameChar(before[|before| - |w| - 1]))
  {
    var t := before[if |before| > 12 then |before| - 12 else 0..];
    if |w| <= |before| {
      assert t[|t| - |w|..] == before[|before| - |w|..];
    }
  }

  /** The scanner takes a slash for the start of a literal exactly where one is due. */
  lemma SlashMeans(code: string, i: nat, sign: Option<char>)
    requires i <= |code|
    ensures RegexMayStart(code, i, sign) <==> LiteralDue(code[..i], sign)
  {
    hide IsKeyword, EndsWithWord, AwaitsOperand;
    var before := code[..i];
    var t := code[if i > 12 then i - 12 else 0..i];
    assert t == before[if |before| > 12 then |before| - 12 else 0..];
    if sign.Some? {
      SignsAreBefore(sign.value);
    }
    if w :| w in WORDS_BEFORE_REGEX && EndsWithWord(t, w) {
      KeywordsAreWords(w);
      WordInTail(before, w);
      assert IsKeyword(before[|before| - |w|..]);
    }
    if k :| 0 <= k <= |before| && IsKeyword(before[k..]) && (k == 0 || !IsNameChar(before[k - 1])) {
      var w := before[k..];
      KeywordsAreWords(w);
      WordInTail(before, w);
    }
  }

  // ---------------------------------------------------------------- items and templates

  ghost predicate Below(templates: seq<int>, depth: int) { templates == [] || templates[|templates| - 1] < depth }

  /** What a run of text of length `n` at `i` does to the scanner: it leaves depth and templates as
      they were, or the code stops inside it and the answer is `open`. */
  ghost predicate Passes(code: string, i: nat, n: nat, depth: int, templates: seq<int>, previous: Option<char>,
                         after: Option<char>, open: int)
  {
    Scan(code, i, depth, templates, previous) ==
      if i + n <= |code| then Scan(code, i + n, depth, templates, after) else open
  }

  lemma PlainScan(code: string, i: nat, c: char, depth: int, templates: seq<int>, previous: Option<char>)
    requires i < |code| && Follows(code, i, [c]) && Meant(Plain(c), code[..i], previous)
    ensures Passes(code, i, 1, depth, templates, previous, if IsSpace(c) then previous else Some(c), depth)
  {
    FollowsFirst(code, i, [c]);
  }

  lemma RegexScan(code: string, i: nat, body: seq<Atom>, depth: int, templates: seq<int>, previous: Option<char>)
    requires i < |code| && Follows(code, i, ItemText(Regex(body))) && Meant(Regex(body), code[..i], previous)
    ensures Passes(code, i, |ItemText(Regex(body))|, depth, templates, previous, Some('x'), depth)
  {
    hide SkipRegex, AtomsText, Follows;
    assert "/" + (AtomsText(body) + "/") == "/" + (AtomsText(body) + ['/']);
    LiteralScan(code, i, body, '/', depth, templates, previous);
    var end := SkipRegex(code, i + 1, false);
    if end >= |code| {
      NothingLeft(code, end, depth, templates, Some('x'));
    }
  }

  lemma BrokenScan(code: string, i: nat, body: seq<Atom>, depth: int, templates: seq<int>, previous: Option<char>)
    requires i < |code| && Follows(code, i, ItemText(Broken(body))) && Meant(Broken(body), code[..i], previous)
    ensures Passes(code, i, |ItemText(Broken(body))|, depth, templates, previous, Some('x'), depth)
  {
    hide SkipRegex, AtomsText, Follows;
    assert "/" + (AtomsText(body) + "\n") == "/" + (AtomsText(body) + ['\n']);
    LiteralScan(code, i, body, '\n', depth, templates, previous);
    var end := SkipRegex(code, i + 1, false);
    if end >= |code| {
      NothingLeft(code, end, depth, templates, Some('x'));
    } else {
      BreakFollows(code, i + 1, AtomsText(body));
      PlainScan(code, end, '\n', depth, templates, Some('x'));
    }
  }

  lemma BreakFollows(code: string, i: nat, t: string)
    requires Follows(code, i, t + ['\n']) && i + |t| < |code|
    ensures Follows(code, i + |t|, ['\n'])
  {
    FollowsSplit(code, i, t, ['\n']);
  }

  /** A slash where a literal is due, and the atoms after it, up to a slash or the end of the line. */
  lemma LiteralScan(code: string, i: nat, body: seq<Atom>, last: char, depth: int, templates: seq<int>, previous: Option<char>)
    requires i < |code| && Follows(code, i, "/" + (AtomsText(body) + [last])) && RegexMeant(body)
    requires LiteralDue(code[..i], previous) && (last == '/' || last == '\n')
    ensures Follows(code, i + 1, AtomsText(body) + [last])
    ensures Scan(code, i, depth, templates, previous) == Scan(code, SkipRegex(code, i + 1, false), depth, templates, Some('x'))
    ensures var end := i + |AtomsText(body)| + 2;
      if end <= |code| then SkipRegex(code, i + 1, false) == (if last == '/' then end else end - 1)
      else SkipRegex(code, i + 1, false) >= |code|
  {
    hide RegexMayStart, LiteralDue, SkipRegex, AtomMeant, AtomsText, Follows;
    var rest := AtomsText(body) + [last];
    SlashMeans(code, i, previous);
    FollowsSplit(code, i, "/", rest);
    FollowsFirst(code, i, "/");
    SkipsAtoms(code, i + 1, body, last);
    if i + 1 < |code| {
      FollowsFirst(code, i + 1, rest);
      LiteralStart(body, last);
    }
    SlashScan(code, i, depth, templates, previous);
  }

  lemma LiteralStart(body: seq<Atom>, last: char)
    requires RegexMeant(body)
    ensures var rest := AtomsText(body) + [last]; rest[0] != '/' && rest[0] != '*'
  {
    assert body[0] in body;
  }

  /** A slash that opens a literal. */
  lemma SlashScan(code: string, i: nat, depth: int, templates: seq<int>, previous: Option<char>)
    requires i < |code| && code[i] == '/' && (i + 1 < |code| ==> code[i + 1] != '/' && code[i + 1] != '*')
    requires RegexMayStart(code, i, previous)
    ensures Scan(code, i, depth, templates, previous) == Scan(code, SkipRegex(code, i + 1, false), depth, templates, Some('x'))
  {
    hide SkipRegex, RegexMayStart;
  }

  lemma DivideScan(code: string, i: nat, depth: int, templates: seq<int>, previous: Option<char>)
    requires i < |code| && Follows(code, i, "/") && Meant(Divide, code[..i], previous)
    requires i + 1 < |code| ==> code[i + 1] != '/' && code[i + 1] != '*'
    ensures Passes(code, i, 1, depth, templates, previous, Some('/'), depth)
  {
    hide RegexMayStart, LiteralDue;
    SlashMeans(code, i, previous);
    FollowsFirst(code, i, "/");
  }

  lemma QuotedScan(code: string, i: nat, q: char, body: seq<Piece>, depth: int, templates: seq<int>, previous: Option<char>)
    requires i < |code| && Follows(code, i, ItemText(Quoted(q, body))) && Meant(Quoted(q, body), code[..i], previous)
    ensures Passes(code, i, |ItemText(Quoted(q, body))|, depth, templates, previous, Some('x'), depth)
  {
    var rest := PiecesText(body) + [q];
    FollowsSplit(code, i, [q], rest);
    FollowsFirst(code, i, [q]);
    SkipsString(code, i + 1, body, q);
  }

  lemma LineNoteScan(code: string, i: nat, note: string, depth: int, templates: seq<int>, previous: Option<char>)
    requires i < |code| && Follows(code, i, ItemText(LineNote(note))) && Meant(LineNote(note), code[..i], previous)
    ensures Passes(code, i, |ItemText(LineNote(note))|, depth, templates, previous, previous, depth)
  {
    var r := "//" + (note + "\n");
    FollowsFirst(code, i, r);
    if i + 1 < |code| {
      FollowsSecond(code, i, r);
      assert r == ("//" + note) + "\n";
      SkipsLine(code, i, "//" + note);
      if i + |r| <= |code| {
        FollowsSplit(code, i, "//" + note, "\n");
        FollowsFirst(code, i + |note| + 2, "\n");
      }
    }
  }

  lemma BlockNoteScan(code: string, i: nat, note: string, depth: int, templates: seq<int>, previous: Option<char>)
    requires i < |code| && Follows(code, i, ItemText(BlockNote(note))) && Meant(BlockNote(note), code[..i], previous)
    ensures Passes(code, i, |ItemText(BlockNote(note))|, depth, templates, previous, previous, depth)
  {
    var r := "/*" + (note + "*/");
    FollowsFirst(code, i, r);
    if i + 1 < |code| {
      FollowsSecond(code, i, r);
      FollowsSplit(code, i, "/*", note + "*/");
      SkipsBlock(code, i + 2, note);
    }
  }

  lemma {:induction false} ItemsScan(code: string, i: nat, items: seq<Item>, depth: int, templates: seq<int>, previous: Option<char>)
    requires i <= |code| && Follows(code, i, ItemsText(items)) && AllMeant(items, code[..i], previous) && Below(templates, depth)
    ensures Passes(code, i, |ItemsText(items)|, depth, templates, previous, SignsAfter(items, previous),
                   if |code| - i <= |ItemsText(items)| then OpenAt(items, |code| - i, depth) else depth)
    decreases items
  {
    hide Scan, Follows, Meant, ItemText, OpenInside, SignAfter;
    if items != [] && i < |code| {
      var first, rest := items[0], items[1..];
      FollowsSplit(code, i, ItemText(first), ItemsText(rest));
      if first.Divide? {
        DivideAhead(code, i, items);
      }
      ItemScan(code, i, first, depth, templates, previous);
      var next := i + |ItemText(first)|;
      if next <= |code| {
        FollowsTaken(code, i, ItemText(first));
        ItemsScan(code, next, rest, depth, templates, SignAfter(first, previous));
      }
    } else if i == |code| {
      NothingLeft(code, i, depth, templates, previous);
    }
  }

  lemma FollowsTaken(code: string, i: nat, r: string)
    requires Follows(code, i, r) && i + |r| <= |code|
    ensures code[..i + |r|] == code[..i] + r
  {
    assert forall j :: 0 <= j < |r| ==> code[i + j] == r[j];
  }

  /** What comes after a division makes no comment of it. */
  lemma DivideAhead(code: string, i: nat, items: seq<Item>)
    requires |items| > 1 && items[0].Divide? && Follows(code, i, ItemsText(items))
    requires ItemText(items[1])[0] != '/' && ItemText(items[1])[0] != '*'
    ensures i + 1 < |code| ==> code[i + 1] != '/' && code[i + 1] != '*'
  {
    hide ItemText;
    var rest := ItemsText(items[1..]);
    FollowsSplit(code, i, ItemText(Divide), rest);
    DivideText();
    assert rest == ItemText(items[1]) + ItemsText(items[1..][1..]);
    if i + 1 < |code| {
      FollowsFirst(code, i + 1, rest);
    }
  }

  lemma DivideText()
    ensures ItemText(Divide) == "/"
  {}

  /** A cut at the end of the items leaves nothing of them open. */
  lemma {:induction false} OpenAtEnd(items: seq<Item>, depth: int)
    ensures OpenAt(items, |ItemsText(items)|, depth) == depth
  {
    hide ItemText, OpenInside;
    if items != [] {
      OpenAtEnd(items[1..], depth);
    }
  }

  lemma NothingLeft(code: string, i: nat, depth: int, templates: seq<int>, previous: Option<char>)
    requires i >= |code|
    ensures Scan(code, i, depth, templates, previous) == depth
  {}

  lemma {:induction false} ItemScan(code: string, i: nat, item: Item, depth: int, templates: seq<int>, previous: Option<char>)
    requires i < |code| && Follows(code, i, ItemText(item)) && Meant(item, code[..i], previous) && Below(templates, depth)
    requires item.Divide? && i + 1 < |code| ==> code[i + 1] != '/' && code[i + 1] != '*'
    ensures Passes(code, i, |ItemText(item)|, depth, templates, previous, SignAfter(item, previous),
                   if |code| - i < |ItemText(item)| then OpenInside(item, |code| - i, depth) else depth)
    decreases item
  {
    hide Scan, Follows;
    match item
    case Plain(c) => PlainScan(code, i, c, depth, templates, previous);
    case Quoted(q, body) => QuotedScan(code, i, q, body, depth, templates, previous);
    case LineNote(note) => LineNoteScan(code, i, note, depth, templates, previous);
    case BlockNote(note) => BlockNoteScan(code, i, note, depth, templates, previous);
    case Regex(body) => RegexScan(code, i, body, depth, templates, previous);
    case Broken(body) => BrokenScan(code, i, body, depth, templates, previous);
    case Divide => DivideScan(code, i, depth, templates, previous);
    case Group(kind, items) =>
      FollowsSplit(code, i, [Open(kind)], ItemsText(items) + [Close(kind)]);
      FollowsSplit(code, i + 1, ItemsText(items), [Close(kind)]);
      FollowsTaken(code, i, [Open(kind)]);
      OpenScan(code, i, kind, depth, templates, previous);
      ItemsScan(code, i + 1, items, depth + 1, templates, Some(Open(kind)));
      var inside := SignsAfter(items, Some(Open(kind)));
      var end := i + 1 + |ItemsText(items)|;
      if end < |code| {
        CloseScan(code, end, kind, depth, templates, inside);
      } else if end == |code| {
        NothingLeft(code, end, depth + 1, templates, inside);
        OpenAtEnd(items, depth + 1);
      }
    case Template(parts) =>
      FollowsSplit(code, i, "`", PartsText(parts) + "`");
      FollowsTaken(code, i, "`");
      BacktickScan(code, i, depth, templates, previous);
      PartsScan(code, i + 1, parts, depth, templates);
  }

  lemma OpenScan(code: string, i: nat, kind: Kind, depth: int, templates: seq<int>, previous: Option<char>)
    requires i < |code| && Follows(code, i, [Open(kind)])
    ensures Scan(code, i, depth, templates, previous) == Scan(code, i + 1, depth + 1, templates, Some(Open(kind)))
  {
    FollowsFirst(code, i, [Open(kind)]);
  }

  lemma CloseScan(code: string, i: nat, kind: Kind, depth: int, templates: seq<int>, previous: Option<char>)
    requires i < |code| && Follows(code, i, [Close(kind)]) && Below(templates, depth)
    ensures Scan(code, i, depth + 1, templates, previous) == Scan(code, i + 1, depth, templates, Some(Close(kind)))
  {
    FollowsFirst(code, i, [Close(kind)]);
  }

  lemma BacktickScan(code: string, i: nat, depth: int, templates: seq<int>, previous: Option<char>)
    requires i < |code| && Follows(code, i, "`")
    ensures Scan(code, i, depth, templates, previous) == ScanTemplate(code, i + 1, depth, templates)
  {
    FollowsFirst(code, i, "`");
  }

  lemma {:induction false} PartsScan(code: string, i: nat, parts: seq<Part>, depth: int, templates: seq<int>)
    requires i <= |code| && PartsMeant(parts, code[..i]) && Follows(code, i, PartsText(parts) + "`")
    ensures var n := |PartsText(parts)| + 1;
      ScanTemplate(code, i, depth, templates) ==
        if i + n <= |code| then Scan(code, i + n, depth, templates, Some('x')) else OpenInTemplate(parts, |code| - i, depth)
    decreases parts, 1
  {
    hide Scan, Follows;
    if i == |code| {
      TemplateCut(code, i, depth, templates);
    } else if parts == [] {
      assert PartsText(parts) + "`" == "`";
      FollowsFirst(code, i, "`");
    } else {
      var more := PartsText(parts[1..]) + "`";
      assert PartsText(parts) + "`" == PartText(parts[0]) + more;
      FollowsSplit(code, i, PartText(parts[0]), more);
      match parts[0] {
        case Words(p) =>
          WordsScan(code, i, parts);
          if i + |PieceText(p)| <= |code| {
            FollowsTaken(code, i, PartText(parts[0]));
            PartsScan(code, i + |PieceText(p)|, parts[1..], depth, templates);
          }
        case Hole(items) =>
          HolePart(code, i, parts, depth, templates);
          if i + |PartText(parts[0])| <= |code| {
            FollowsTaken(code, i, PartText(parts[0]));
            PartsScan(code, i + |PartText(parts[0])|, parts[1..], depth, templates);
          }
      }
    }
  }

  /** A `${…}` in a template: back to the text after its brace, or cut inside it. */
  lemma {:induction false} HolePart(code: string, i: nat, parts: seq<Part>, depth: int, templates: seq<int>)
    requires i < |code| && parts != [] && parts[0].Hole? && PartMeant(parts, code[..i]) && Follows(code, i, PartText(parts[0]))
    ensures var n := |PartText(parts[0])|;
      ScanTemplate(code, i, depth, templates) ==
        if i + n <= |code| then ScanTemplate(code, i + n, depth, templates) else OpenInTemplate(parts, |code| - i, depth)
    decreases parts, 0
  {
    hide Scan, ScanTemplate, Follows;
    var items := parts[0].items;
    if i + 1 < |code| {
      HoleOpens(code, i, items, depth, templates);
      HoleScan(code, i + 2, parts[0], depth + 1, templates + [depth]);
      var inside := SignsAfter(items, Some('x'));
      var end := i + 2 + |ItemsText(items)|;
      if end < |code| {
        HoleCloses(code, i, items, depth, templates, inside);
      } else if end == |code| {
        NothingLeft(code, end, depth + 1, templates + [depth], inside);
        OpenAtEnd(items, depth + 1);
      }
    } else {
      HoleCut(code, i, items, depth, templates);
    }
  }

  lemma TemplateCut(code: string, i: nat, depth: int, templates: seq<int>)
    requires i >= |code|
    ensures ScanTemplate(code, i, depth, templates) == 1
  {}

  /** Template text is passed over one piece at a time. */
  lemma WordsScan(code: string, i: nat, parts: seq<Part>)
    requires i < |code| && parts != [] && parts[0].Words? && PartMeant(parts, code[..i])
    requires Follows(code, i, PartsText(parts) + "`")
    ensures var n := |PieceText(parts[0].p)|;
      if i + n <= |code| then SkipTemplate(code, i) == SkipTemplate(code, i + n) else SkipTemplate(code, i) == Unclosed
  {
    var r, p := PartsText(parts) + "`", parts[0].p;
    var rest := PartsText(parts[1..]) + "`";
    assert PartsText(parts) == PieceText(p) + PartsText(parts[1..]);
    assert r == PieceText(p) + rest;
    FollowsFirst(code, i, r);
    if i + 1 < |code| && p.Raw? {
      FollowsSecond(code, i, r);
      assert r[1] == rest[0];
      if |parts| > 1 {
        PartStart(parts[1]);
        assert rest[0] == PartText(parts[1])[0];
      } else {
        assert rest == "`";
      }
    }
  }

  /** A part starts with a brace only if it is the text of one. */
  lemma PartStart(part: Part)
    ensures PartText(part)[0] == '{' ==> part == Words(Raw('{'))
  {}

  lemma HoleOpens(code: string, i: nat, items: seq<Item>, depth: int, templates: seq<int>)
    requires i + 1 < |code| && Follows(code, i, PartText(Hole(items)))
    ensures ScanTemplate(code, i, depth, templates) == Scan(code, i + 2, depth + 1, templates + [depth], Some('x'))
    ensures Follows(code, i + 2, ItemsText(items)) && Follows(code, i + 2 + |ItemsText(items)|, "}")
    ensures code[..i + 2] == code[..i] + "${"
  {
    hide ItemsText, Scan;
    var r := "${" + (ItemsText(items) + "}");
    FollowsFirst(code, i, r);
    FollowsSecond(code, i, r);
    FollowsSplit(code, i, "${", ItemsText(items) + "}");
    FollowsSplit(code, i + 2, ItemsText(items), "}");
  }

  lemma HoleCut(code: string, i: nat, items: seq<Item>, depth: int, templates: seq<int>)
    requires i + 1 == |code| && Follows(code, i, PartText(Hole(items)))
    ensures ScanTemplate(code, i, depth, templates) == 1
  {
    hide ItemsText;
    var r := "${" + (ItemsText(items) + "}");
    FollowsFirst(code, i, r);
    assert code[i] == '$' && !IsAt(code, i + 1, '{');
    assert SkipTemplate(code, i + 1) == Unclosed;
  }

  lemma {:induction false} HoleScan(code: string, i: nat, part: Part, depth: int, templates: seq<int>)
    requires part.Hole? && i <= |code| && Follows(code, i, ItemsText(part.items))
    requires AllMeant(part.items, code[..i], Some('x')) && Below(templates, depth)
    ensures Passes(code, i, |ItemsText(part.items)|, depth, templates, Some('x'), SignsAfter(part.items, Some('x')),
                   if |code| - i <= |ItemsText(part.items)| then OpenAt(part.items, |code| - i, depth) else depth)
    decreases part
  {
    ItemsScan(code, i, part.items, depth, templates, Some('x'));
  }

  lemma HoleCloses(code: string, i: nat, items: seq<Item>, depth: int, templates: seq<int>, inside: Option<char>)
    requires var end := i + 2 + |ItemsText(items)|; end < |code| && Follows(code, end, "}")
    ensures var end := i + 2 + |ItemsText(items)|;
      Scan(code, end, depth + 1, templates + [depth], inside) == ScanTemplate(code, end + 1, depth, templates)
  {
    var end := i + 2 + |ItemsText(items)|;
    FollowsFirst(code, end, "}");
    assert (templates + [depth])[..|templates|] == templates;
  }

  // ---------------------------------------------------------------- the two claims

  /** On every cut of a well-nested text, the scanner answers what the tree says is open there. */
  lemma CutIsOpenAt(items: seq<Item>, k: nat)
    requires AllMeant(items, "", None) && k <= |ItemsText(items)|
    ensures Scan(ItemsText(items)[..k], 0, 0, [], None) == OpenAt(items, k, 0)
  {
    hide Scan, OpenAt, ItemsText;
    var code := ItemsText(items)[..k];
    ItemsScan(code, 0, items, 0, [], None);
    if k == |ItemsText(items)| {
      NothingLeft(code, k, 0, [], SignsAfter(items, None));
      OpenAtEnd(items, 0);
    }
  }

  lemma {:induction false} OpenStaysPositive(items: seq<Item>, k: nat, depth: int)
    requires k <= |ItemsText(items)| && depth > 0
    ensures OpenAt(items, k, depth) > 0
    decreases items
  {
    hide ItemText;
    if items != [] && k > 0 {
      var n := |ItemText(items[0])|;
      if k >= n {
        OpenStaysPositive(items[1..], k - n, depth);
      } else {
        OpenInsidePositive(items[0], k, depth);
      }
    }
  }

  lemma {:induction false} OpenInsidePositive(item: Item, k: nat, depth: int)
    requires 0 < k < |ItemText(item)| && depth >= 0
    requires depth > 0 || item.Group? || item.Template?
    ensures OpenInside(item, k, depth) > 0
    decreases item
  {
    match item
    case Group(_, items) => OpenStaysPositive(items, k - 1, depth + 1);
    case Template(parts) => OpenInTemplatePositive(parts, k - 1, depth);
    case _ =>
  }

  lemma {:induction false} OpenInTemplatePositive(parts: seq<Part>, k: nat, depth: int)
    requires k <= |PartsText(parts)| && depth >= 0
    ensures OpenInTemplate(parts, k, depth) > 0
    decreases parts
  {
    if parts != [] && k > 0 {
      var n := |PartText(parts[0])|;
      if k >= n {
        OpenInTemplatePositive(parts[1..], k - n, depth);
      } else if parts[0].Hole? && k > 1 {
        OpenInHolePositive(parts[0], k - 2, depth + 1);
      }
    }
  }

  lemma {:induction false} OpenInHolePositive(part: Part, k: nat, depth: int)
    requires part.Hole? && k <= |ItemsText(part.items)| && depth > 0
    ensures OpenInHole(part, k, depth) > 0
    decreases part
  {
    OpenStaysPositive(part.items, k, depth);
  }

  lemma {:induction false} OpenIffInside(items: seq<Item>, k: nat)
    requires k <= |ItemsText(items)|
    ensures if CutInside(items, k) then OpenAt(items, k, 0) > 0 else OpenAt(items, k, 0) == 0
  {
    hide ItemText;
    if items != [] && k > 0 {
      var n := |ItemText(items[0])|;
      if k >= n {
        OpenIffInside(items[1..], k - n);
      } else if items[0].Group? || items[0].Template? {
        OpenInsidePositive(items[0], k, 0);
      }
    }
  }

  /** The whole text of a well-nested script leaves nothing open. */
  lemma WholeTextIsClosed(items: seq<Item>)
    requires AllMeant(items, "", None)
    ensures Scan(ItemsText(items), 0, 0, [], None) == 0
  {
    hide Scan, ItemsText;
    CutIsOpenAt(items, |ItemsText(items)|);
    OpenAtEnd(items, 0);
    assert ItemsText(items)[..|ItemsText(items)|] == ItemsText(items);
  }

  /** A cut text is reported as open exactly when the cut is inside a bracket pair or a template;
      elsewhere, even inside a string or a comment, the answer is zero. */
  lemma CutIsReported(items: seq<Item>, k: nat)
    requires AllMeant(items, "", None) && k <= |ItemsText(items)|
    ensures Scan(ItemsText(items)[..k], 0, 0, [], None) > 0 <==> CutInside(items, k)
    ensures !CutInside(items, k) ==> Scan(ItemsText(items)[..k], 0, 0, [], None) == 0
  {
    hide Scan, OpenAt, ItemsText;
    CutIsOpenAt(items, k);
    OpenIffInside(items, k);
  }

  // ---------------------------------------------------------------- missing brackets, and misread literals

  lemma StrayScan(code: string, i: nat, c: char, depth: int, previous: Option<char>)
    requires i < |code| && Follows(code, i, [c]) && (IsOpener(c) || IsCloser(c))
    ensures Scan(code, i, depth, [], previous) == Scan(code, i + 1, depth + if IsOpener(c) then 1 else -1, [], Some(c))
  {
    FollowsFirst(code, i, [c]);
  }

  lemma {:induction false} ChunksScan(code: string, i: nat, chunks: seq<Chunk>, depth: int, previous: Option<char>)
    requires i <= |code| && code[i..] == ChunksText(chunks) && ChunksMeant(chunks, code[..i], previous)
    ensures Scan(code, i, depth, [], previous) == depth + Balance(chunks)
    decreases |chunks|
  {
    hide Scan, Follows, AllMeant, ItemsText, IsOpener, IsCloser, ChunksMeant, ChunksText, SignsAfter;
    NoChunks();
    if chunks == [] {
      NothingLeft(code, i, depth, [], previous);
    } else {
      var t, rest := ChunkText(chunks[0]), ChunksText(chunks[1..]);
      ChunksStep(chunks, code[..i], previous);
      TextFollows(code, i, t, rest);
      match chunks[0]
      case Nested(items) =>
        ItemsScan(code, i, items, depth, [], previous);
        ChunksScan(code, i + |t|, chunks[1..], depth, SignsAfter(items, previous));
      case Stray(c) =>
        StrayScan(code, i, c, depth, previous);
        ChunksScan(code, i + 1, chunks[1..], depth + if IsOpener(c) then 1 else -1, Some(c));
    }
  }

  lemma NoChunks()
    ensures ChunksText([]) == "" && Balance([]) == 0
  {}

  lemma ChunksStep(chunks: seq<Chunk>, before: string, sign: Option<char>)
    requires chunks != [] && ChunksMeant(chunks, before, sign)
    ensures ChunksMeant(chunks[1..], before + ChunkText(chunks[0]), ChunkSign(chunks[0], sign))
    ensures ChunksText(chunks) == ChunkText(chunks[0]) + ChunksText(chunks[1..])
    ensures ChunkMeant(chunks[0], before, sign)
  {
    hide AllMeant, ItemsText, SignsAfter;
  }

  lemma TextFollows(code: string, i: nat, t: string, rest: string)
    requires i <= |code| && code[i..] == t + rest
    ensures i + |t| <= |code| && Follows(code, i, t) && code[i + |t|..] == rest && code[..i + |t|] == code[..i] + t
  {
    assert forall j :: 0 <= j < |t| ==> code[i + j] == code[i..][j];
    assert code[i + |t|..] == code[i..][|t|..];
  }

  /** A script with brackets missing anywhere: the answer counts those never closed, less those never opened. */
  lemma MissingAreCounted(chunks: seq<Chunk>)
    requires ChunksMeant(chunks, "", None)
    ensures Scan(ChunksText(chunks), 0, 0, [], None) == Balance(chunks)
  {
    hide Scan, ChunksMeant, Balance, ChunksText;
    var code := ChunksText(chunks);
    assert code[0..] == code;
    ChunksScan(code, 0, chunks, 0, None);
  }

  lemma KeywordEnd(w: string)
    ensures IsKeyword(w) ==> w != "" && IsNameChar(w[|w| - 1])
  {}

  lemma NoKeywordAtEnd(before: string)
    requires before != "" && !IsNameChar(before[|before| - 1])
    ensures !EndsInKeyword(before)
  {
    hide IsKeyword, IsNameChar;
    forall k | 0 <= k <= |before| ensures !IsKeyword(before[k..]) {
      KeywordEnd(before[k..]);
      assert k < |before| ==> before[|before| - 1] == before[k..][|before[k..]| - 1];
    }
  }

  /** After a name, only a keyword right before the slash makes it open a literal: one blank between them and
      it divides. */
  lemma BlankAfterWord(code: string, i: nat, sign: char)
    requires i <= |code| && !AwaitsOperand(sign)
    ensures RegexMayStart(code, i, Some(sign)) <==> EndsInKeyword(code[..i])
    ensures i > 0 && !IsNameChar(code[i - 1]) ==> !RegexMayStart(code, i, Some(sign))
  {
    hide RegexMayStart, EndsInKeyword;
    SlashMeans(code, i, Some(sign));
    if i > 0 && !IsNameChar(code[i - 1]) {
      NoKeywordAtEnd(code[..i]);
    }
  }

  lemma {:induction false} WordScan(code: string, i: nat, j: nat, previous: Option<char>)
    requires i < j <= |code| && forall k :: i <= k < j ==> IsNameChar(code[k])
    ensures Scan(code, i, 0, [], previous) == Scan(code, j, 0, [], Some(code[j - 1]))
    decreases j - i
  {
    hide Scan;
    PlainScan(code, i, code[i], 0, [], previous);
    if i + 1 < j {
      WordScan(code, i + 1, j, Some(code[i]));
    }
  }

  lemma SlashDivides(code: string, i: nat, depth: int, previous: Option<char>)
    requires i < |code| && code[i] == '/' && (i + 1 < |code| ==> code[i + 1] != '/' && code[i + 1] != '*')
    requires !RegexMayStart(code, i, previous)
    ensures Scan(code, i, depth, [], previous) == Scan(code, i + 1, depth, [], Some('/'))
  {
    hide RegexMayStart;
  }

  /** A finished script taken for a cut one: the keyword and its literal have a blank between them, so the
      brackets of the literal are counted. */
  lemma LiteralMisread()
    ensures Scan("return /[(]/", 0, 0, [], None) == 1
  {
    hide Scan, RegexMayStart, EndsInKeyword;
    var code := "return /[(]/";
    WordScan(code, 0, 6, None);
    PlainScan(code, 6, ' ', 0, [], Some('n'));
    BlankAfterWord(code, 7, 'n');
    SlashDivides(code, 7, 0, Some('n'));
    StrayScan(code, 8, '[', 0, Some('/'));
    StrayScan(code, 9, '(', 1, Some('['));
    StrayScan(code, 10, ']', 2, Some('('));
    BlankAfterWord(code, 11, ']');
    SlashDivides(code, 11, 1, Some(']'));
    NothingLeft(code, 12, 1, [], Some('/'));
  }
}
