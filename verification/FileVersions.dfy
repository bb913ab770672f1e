/** Every version of every file of a conversation. */
module FileVersions {
  import opened Wrappers
  import opened JsStrings
  import opened FileHistory
  import opened FileLanguages

  datatype Version = Version(index: nat, content: string, lang: string)

  /** One more observation of a file: a new version only when the content changed. */
  function Push(list: seq<Version>, index: nat, f: File): seq<Version> {
    if list != [] && list[|list| - 1].content == f.content then list else list + [Version(index, f.content, f.lang)]
  }

  /** The versions of one file among the first `n` messages. */
  function VersionsOf(p: Readers, messages: seq<Message>, name: string, n: nat): seq<Version>
    requires n <= |messages|
  {
    if n == 0 then []
    else
      var list := VersionsOf(p, messages, name, n - 1);
      var files := WalkTo(p, messages, n).files;
      if name in files.values then Push(list, n - 1, files.values[name]) else list
  }

  /** Each file has its versions. */
  ghost predicate Lists(out: Table<seq<Version>>, p: Readers, messages: seq<Message>, n: nat)
    requires n <= |messages|
  {
    && out.names == WalkTo(p, messages, n).files.names
    && forall name :: name in out.values ==> out.values[name] == VersionsOf(p, messages, name, n)
  }

  lemma {:induction false} UnknownHasNoVersion(p: Readers, messages: seq<Message>, name: string, n: nat)
    requires n <= |messages| && name !in WalkTo(p, messages, n).files.values
    ensures VersionsOf(p, messages, name, n) == []
  {
    hide WalkTo;
    if n > 0 {
      FilesAreKept(p, messages, n - 1, n);
      UnknownHasNoVersion(p, messages, name, n - 1);
    }
  }

  lemma NothingYet(p: Readers, messages: seq<Message>)
    ensures Lists(Ordered([], map[]), p, messages, 0)
  {}

  lemma OneMore(p: Readers, messages: seq<Message>, name: string, n: nat)
    requires n < |messages| && name in WalkTo(p, messages, n + 1).files.values
    ensures VersionsOf(p, messages, name, n + 1)
         == Push(VersionsOf(p, messages, name, n), n, WalkTo(p, messages, n + 1).files.values[name])
  {
    hide WalkTo, Push;
  }

  /** What one observation adds, for the first `t` files. */
  ghost predicate Listing(out: Table<seq<Version>>, p: Readers, messages: seq<Message>, n: nat, t: nat)
    requires n < |messages| && t <= |WalkTo(p, messages, n + 1).files.names|
  {
    var old_, names := WalkTo(p, messages, n).files.names, WalkTo(p, messages, n + 1).files.names;
    && out.names == (if t <= |old_| then old_ else names[..t])
    && Filled(out.values, names, p, messages, n, t) && Unfilled(out.values, names, p, messages, n, t)
  }

  ghost predicate Filled(values: map<string, seq<Version>>, names: seq<string>, p: Readers, messages: seq<Message>, n: nat, t: nat)
    requires n < |messages| && t <= |names|
  {
    forall i :: 0 <= i < t ==> names[i] in values && values[names[i]] == VersionsOf(p, messages, names[i], n + 1)
  }

  ghost predicate Unfilled(values: map<string, seq<Version>>, names: seq<string>, p: Readers, messages: seq<Message>, n: nat, t: nat)
    requires n < |messages| && t <= |names|
  {
    forall i :: t <= i < |names| && names[i] in values ==> values[names[i]] == VersionsOf(p, messages, names[i], n)
  }

  lemma FillOne(values: map<string, seq<Version>>, names: seq<string>, p: Readers, messages: seq<Message>, n: nat, t: nat)
    requires n < |messages| && t < |names| && forall i, j :: 0 <= i < j < |names| ==> names[i] != names[j]
    requires Filled(values, names, p, messages, n, t) && Unfilled(values, names, p, messages, n, t)
    ensures var next := values[names[t] := VersionsOf(p, messages, names[t], n + 1)];
      Filled(next, names, p, messages, n, t + 1) && Unfilled(next, names, p, messages, n, t + 1)
  {
    hide VersionsOf;
  }

  lemma ListingStarts(out: Table<seq<Version>>, p: Readers, messages: seq<Message>, n: nat)
    requires n < |messages| && Lists(out, p, messages, n)
    ensures Listing(out, p, messages, n, 0)
  {
    hide WalkTo, VersionsOf;
  }

  lemma ListingEnds(out: Table<seq<Version>>, p: Readers, messages: seq<Message>, n: nat)
    requires n < |messages| && Listing(out, p, messages, n, |WalkTo(p, messages, n + 1).files.names|)
    ensures Lists(out, p, messages, n + 1)
  {
    hide WalkTo, VersionsOf;
    FilesAreKept(p, messages, n, n + 1);
    var names := WalkTo(p, messages, n + 1).files.names;
    assert out.names == names;
    forall name | name in out.values ensures out.values[name] == VersionsOf(p, messages, name, n + 1) {
      var i :| 0 <= i < |names| && names[i] == name;
    }
  }

  /** The table after one file was observed. */
  ghost function Noted(out: Table<seq<Version>>, index: nat, name: string, f: File): Table<seq<Version>> {
    Put(out, name, Push(if name in out.values then out.values[name] else [], index, f))
  }

  method Note(before: Table<seq<Version>>, index: nat, name: string, f: File) returns (out: Table<seq<Version>>)
    ensures out == Noted(before, index, name, f)
  {
    out := before;
    var list := if name in out.values then out.values[name] else [];
    if |list| > 0 && list[|list| - 1].content == f.content {
      assert out.values[name := out.values[name]] == out.values;
      return;
    }
    list := list + [Version(index, f.content, f.lang)];
    out := Put(out, name, list);
  }

  method Observe(before: Table<seq<Version>>, s: Snapshot, ghost p: Readers, ghost messages: seq<Message>)
    returns (out: Table<seq<Version>>)
    requires s.index < |messages| && s.files == WalkTo(p, messages, s.index + 1).files
    requires Lists(before, p, messages, s.index)
    ensures Lists(out, p, messages, s.index + 1)
  {
    hide WalkTo, VersionsOf, Lists, Listing, Noted;
    out := before;
    ListingStarts(out, p, messages, s.index);
    for t := 0 to |s.files.names|
      invariant Listing(out, p, messages, s.index, t)
    {
      var name := s.files.names[t];
      PushLists(out, p, messages, s.index, t);
      out := Note(out, s.index, name, s.files.values[name]);
    }
    ListingEnds(out, p, messages, s.index);
  }

  lemma PushLists(out: Table<seq<Version>>, p: Readers, messages: seq<Message>, n: nat, t: nat)
    requires n < |messages| && t < |WalkTo(p, messages, n + 1).files.names|
    requires Listing(out, p, messages, n, t)
    ensures var name := WalkTo(p, messages, n + 1).files.names[t];
      Listing(Noted(out, n, name, WalkTo(p, messages, n + 1).files.values[name]), p, messages, n, t + 1)
  {
    hide WalkTo, VersionsOf, Push, Put, Filled, Unfilled;
    var names := WalkTo(p, messages, n + 1).files.names;
    var name := names[t];
    var list := if name in out.values then out.values[name] else [];
    FilesAreKept(p, messages, n, n + 1);
    OneMore(p, messages, name, n);
    NewNameIsNext(out, p, messages, n, t);
    if name !in out.values {
      UnknownHasNoVersion(p, messages, name, n);
    }
    if name in out.values {
      UnfilledAt(out.values, names, p, messages, n, t);
    }
    FillOne(out.values, names, p, messages, n, t);
  }

  lemma UnfilledAt(values: map<string, seq<Version>>, names: seq<string>, p: Readers, messages: seq<Message>, n: nat, t: nat)
    requires n < |messages| && t < |names| && Unfilled(values, names, p, messages, n, t) && names[t] in values
    ensures values[names[t]] == VersionsOf(p, messages, names[t], n)
  {
    hide VersionsOf;
  }

  /** A name not listed yet comes right after those listed. */
  lemma NewNameIsNext(out: Table<seq<Version>>, p: Readers, messages: seq<Message>, n: nat, t: nat)
    requires n < |messages| && t < |WalkTo(p, messages, n + 1).files.names|
    requires Listing(out, p, messages, n, t)
    ensures var was, names := WalkTo(p, messages, n).files.names, WalkTo(p, messages, n + 1).files.names;
      && (names[t] in out.values <==> t < |was|)
      && (if t < |was| then out.names else out.names + [names[t]]) == (if t + 1 <= |was| then was else names[..t + 1])
  {
    hide WalkTo, VersionsOf, Filled, Unfilled;
    FilesAreKept(p, messages, n, n + 1);
    var was, names := WalkTo(p, messages, n).files.names, WalkTo(p, messages, n + 1).files.names;
    if t < |was| {
      assert names[t] == was[t];
    } else {
      assert names[..t] + [names[t]] == names[..t + 1];
      assert out.names == names[..t];
    }
  }

  method AllVersions(p: Readers, messages: seq<Message>) returns (out: Table<seq<Version>>)
    ensures Lists(out, p, messages, |messages|)
  {
    hide WalkTo, VersionsOf;
    var files, observed := FilesUntil(p, messages, |messages| - 1);
    out := Ordered([], map[]);
    NothingYet(p, messages);
    for k := 0 to |observed|
      invariant Lists(out, p, messages, k)
    {
      out := Observe(out, observed[k], p, messages);
    }
  }

  // ---------------------------------------------------------------- what the versions are

  /** The version shown for a message: the last one at or before it. */
  function Shown(list: seq<Version>, k: int): Option<Version> {
    if list == [] then None
    else if list[|list| - 1].index <= k then Some(list[|list| - 1])
    else Shown(list[..|list| - 1], k)
  }

  /** The state of a file after message `k`. */
  function StateAt(p: Readers, messages: seq<Message>, name: string, k: nat): Option<File>
    requires k < |messages|
  {
    Get(WalkTo(p, messages, k + 1).files, name)
  }

  ghost predicate History(p: Readers, messages: seq<Message>, name: string, list: seq<Version>, n: nat)
    requires n <= |messages|
  {
    && (forall i :: 0 <= i < |list| ==> IsState(p, messages, name, list[i], n))
    && (forall i, j :: 0 <= i < j == i + 1 < |list| ==> list[i].index < list[j].index && list[i].content != list[j].content)
  }

  ghost predicate IsState(p: Readers, messages: seq<Message>, name: string, v: Version, n: nat)
    requires n <= |messages|
  {
    v.index < n && StateAt(p, messages, name, v.index) == Some(File(v.content, v.lang))
  }

  lemma HistoryGrows(p: Readers, messages: seq<Message>, name: string, list: seq<Version>, n: nat)
    requires n < |messages| && History(p, messages, name, list, n)
    requires StateAt(p, messages, name, n).Some?
    ensures History(p, messages, name, Push(list, n, StateAt(p, messages, name, n).value), n + 1)
  {
    hide StateAt;
    HistoryLater(p, messages, name, list, n);
    var f := StateAt(p, messages, name, n).value;
    var v := Version(n, f.content, f.lang);
    assert IsState(p, messages, name, v, n + 1);
    if list != [] {
      assert IsState(p, messages, name, list[|list| - 1], n);
    }
  }

  lemma HistoryLater(p: Readers, messages: seq<Message>, name: string, list: seq<Version>, n: nat)
    requires n < |messages| && History(p, messages, name, list, n)
    ensures History(p, messages, name, list, n + 1)
  {
    hide StateAt;
    forall i | 0 <= i < |list| ensures IsState(p, messages, name, list[i], n + 1) {
      assert IsState(p, messages, name, list[i], n);
    }
  }

  lemma ShownMore(list: seq<Version>, v: Version, k: int)
    ensures Shown(list + [v], k) == if v.index <= k then Some(v) else Shown(list, k)
  {
    assert (list + [v])[..|list|] == list;
  }

  lemma NoHistory(p: Readers, messages: seq<Message>, name: string)
    ensures History(p, messages, name, [], 0)
  {}

  /** Versions are states of the file, oldest first, each with other content than the one before. */
  lemma {:induction false} VersionsAreHistory(p: Readers, messages: seq<Message>, name: string, n: nat)
    requires n <= |messages|
    ensures History(p, messages, name, VersionsOf(p, messages, name, n), n)
  {
    hide WalkTo, Push, History;
    if n == 0 {
      NoHistory(p, messages, name);
    } else {
      VersionsAreHistory(p, messages, name, n - 1);
      if StateAt(p, messages, name, n - 1).Some? {
        HistoryGrows(p, messages, name, VersionsOf(p, messages, name, n - 1), n - 1);
      } else {
        HistoryLater(p, messages, name, VersionsOf(p, messages, name, n - 1), n - 1);
      }
    }
  }

  lemma LastIsPast(p: Readers, messages: seq<Message>, name: string, list: seq<Version>, n: nat)
    requires n <= |messages| && History(p, messages, name, list, n) && list != []
    ensures IsState(p, messages, name, list[|list| - 1], n)
  {
    hide StateAt;
  }

  /** After every message, the file is known exactly when a version is shown, and holds that version's content. */
  lemma {:induction false} VersionsAreComplete(p: Readers, messages: seq<Message>, name: string, n: nat, k: nat)
    requires k < n <= |messages|
    ensures match StateAt(p, messages, name, k)
      case None => Shown(VersionsOf(p, messages, name, n), k) == None
      case Some(f) => Shown(VersionsOf(p, messages, name, n), k).Some? && Shown(VersionsOf(p, messages, name, n), k).value.content == f.content
  {
    hide WalkTo, History;
    var before, list := VersionsOf(p, messages, name, n - 1), VersionsOf(p, messages, name, n);
    if k < n - 1 {
      VersionsAreComplete(p, messages, name, n - 1, k);
      if list != before {
        ShownMore(before, list[|list| - 1], k);
      }
    } else if StateAt(p, messages, name, k).None? {
      UnknownHasNoVersion(p, messages, name, n);
    } else {
      VersionsAreHistory(p, messages, name, n);
      LastIsPast(p, messages, name, list, n);
    }
  }

  /** The last version holds what the file holds in the end, and its language is the one the file had when
      that content came. */
  lemma LastVersionIsFinal(p: Readers, messages: seq<Message>, name: string)
    requires name in WalkTo(p, messages, |messages|).files.values
    ensures var list := VersionsOf(p, messages, name, |messages|);
      && list != [] && var last := list[|list| - 1];
      && last.content == WalkTo(p, messages, |messages|).files.values[name].content
      && last.index < |messages| && StateAt(p, messages, name, last.index) == Some(File(last.content, last.lang))
      && (forall k :: last.index <= k < |messages| ==>
            StateAt(p, messages, name, k).Some? && StateAt(p, messages, name, k).value.content == last.content)
  {
    hide WalkTo, History, StateAt, VersionsOf;
    var n := |messages|;
    var list := VersionsOf(p, messages, name, n);
    assert n > 0 by { NothingAtFirst(p, messages); }
    VersionsAreHistory(p, messages, name, n);
    VersionsAreComplete(p, messages, name, n, n - 1);
    LastState(p, messages, name);
    LastIsPast(p, messages, name, list, n);
    forall k | list[|list| - 1].index <= k < n
      ensures StateAt(p, messages, name, k).Some? && StateAt(p, messages, name, k).value.content == list[|list| - 1].content
    {
      VersionsAreComplete(p, messages, name, n, k);
    }
  }

  lemma LastState(p: Readers, messages: seq<Message>, name: string)
    requires |messages| > 0
    ensures StateAt(p, messages, name, |messages| - 1) == Get(WalkTo(p, messages, |messages|).files, name)
  {}

  lemma NothingAtFirst(p: Readers, messages: seq<Message>)
    ensures WalkTo(p, messages, 0).files.values == map[]
  {}

  /** The last version is the final file, language included, exactly when the last block taken for the file
      after that version's message, if there is one, is in the version's language. */
  lemma LastVersionIsFinalState(p: Readers, messages: seq<Message>, name: string)
    requires name in WalkTo(p, messages, |messages|).files.values
    ensures var list := VersionsOf(p, messages, name, |messages|);
      && list != [] && var last := list[|list| - 1];
      && last.index < |messages|
      && var given := LangSince(p, messages, name, last.index + 1, |messages|);
      var final := WalkTo(p, messages, |messages|).files.values[name];
      (File(last.content, last.lang) == final <==> given == None || given == Some(last.lang))
  {
    hide WalkTo, VersionsOf, LangSince;
    LastVersionIsFinal(p, messages, name);
    var list := VersionsOf(p, messages, name, |messages|);
    var last := list[|list| - 1];
    LangComesFromBlocks(p, messages, name, last.index + 1, |messages|);
  }

  // ---------------------------------------------------------------- a conversation where it shows

  /** The one named code block a text consists of, if it does. */
  function BlockIn(content: string): seq<Artifact> {
    var lines := Split(content, '\n');
    if |lines| == 3 && "```" <= lines[0] && lines[2] == "```" then
      var words := Split(lines[0][3..], ' ');
      if |words| == 2 && "title=" <= words[1] then [Artifact(true, words[1][6..], words[0], lines[1])] else []
    else []
  }

  function BlockReaders(): Readers {
    Readers((content, previous, files) => BlockIn(content),
            content => [], content => false, content => content, content => false)
  }

  function InLang(lang: string): Message {
    Message(Assistant, false, Join(["```" + lang + " title=a", "x", "```"], '\n'), false, [])
  }

  ghost predicate PlainLang(lang: string) { forall c :: c in lang ==> c != ' ' && c != '\n' && c != '`' }

  lemma BlockIsRead(lang: string)
    requires PlainLang(lang)
    ensures BlockIn(InLang(lang).content) == [Artifact(true, "a", lang, "x")]
  {
    hide Split, Join;
    var lines, words := ["```" + lang + " title=a", "x", "```"], [lang, "title=a"];
    SplitJoin(lines, '\n');
    SplitJoin(words, ' ');
    TwoWords(lang, "title=a");
    assert lines[0][3..] == lang + " title=a";
    assert "title=a"[6..] == "a";
  }

  lemma TwoWords(a: string, b: string)
    ensures Join([a, b], ' ') == a + [' '] + b
    ensures [' '] + "title=a" == " title=a" && (b == "title=a" ==> a + [' '] + b == a + " title=a")
  {
    assert [a, b][1..] == [b];
    assert b == "title=a" ==> a + [' '] + b == a + ([' '] + b);
  }

  lemma {:induction false} NoFences(plain: string, rest: string)
    requires forall c :: c in plain ==> c != '`'
    ensures Fences(plain + rest) == Fences(rest)
  {
    if plain == "" {
      assert plain + rest == rest;
    } else {
      assert (plain + rest)[0] == plain[0] && plain[0] in plain;
      assert (plain + rest)[1..] == plain[1..] + rest;
      assert forall c :: c in plain[1..] ==> c in plain;
      NoFences(plain[1..], rest);
      assert |plain + rest| >= 3 ==> (plain + rest)[..3][0] == plain[0];
    }
  }

  lemma FenceFirst(rest: string)
    ensures Fences("```" + rest) == 1 + Fences(rest)
  {
    assert ("```" + rest)[..3] == "```" && ("```" + rest)[3..] == rest;
  }

  lemma TwoFences(lang: string)
    requires PlainLang(lang)
    ensures ClosedContent(InLang(lang).content) == InLang(lang).content && Fences(InLang(lang).content) == 2
  {
    hide Fences;
    var plain := lang + " title=a\nx\n";
    ThreeLines("```" + lang + " title=a", "x", "```");
    assert InLang(lang).content == "```" + (plain + "```");
    FenceFirst(plain + "```");
    assert forall c :: c in " title=a\nx\n" ==> c != '`';
    assert plain == lang + " title=a\nx\n";
    forall c | c in plain ensures c != '`' {
      assert c in lang || c in " title=a\nx\n";
    }
    NoFences(plain, "```");
    FenceFirst("");
    assert "```" + "" == "```";
    assert Fences("") == 0 by { NoText(); }
  }

  lemma NoText()
    ensures Fences("") == 0
  {}

  lemma ThreeLines(a: string, b: string, c: string)
    ensures Join([a, b, c], '\n') == a + ['\n'] + (b + ['\n'] + c)
  {
    assert [a, b, c][1..] == [b, c] && [b, c][1..] == [c];
    assert Join([b, c], '\n') == b + ['\n'] + c;
  }

  lemma AnswerSetsFile(lang: string, previous: string, files: Files)
    requires PlainLang(lang)
    requires "a" in files.values ==> files.values["a"].content == "x"
    ensures AfterAnswer(BlockReaders(), InLang(lang), previous, files) == Walk(Put(files, "a", File("x", lang)), None)
  {
    hide Put, Get, Fences, ClosedContent, BlockIn, InLang;
    var m, a := InLang(lang), Artifact(true, "a", lang, "x");
    IsAnswer(lang);
    BlockIsRead(lang);
    TwoFences(lang);
    var arts := BlockReaders().artifacts(ClosedContent(m.content), previous, files);
    assert arts == [a];
    assert TakeArtifacts(files, arts, None, 0) == files;
    SmallIsKept(files);
    assert BlockReaders().edits(m.content) == [];
  }

  lemma IsAnswer(lang: string)
    ensures InLang(lang).role == Assistant && InLang(lang).fileEdits == []
  {}

  lemma SmallIsKept(files: Files)
    requires "a" in files.values ==> files.values["a"].content == "x"
    ensures !IsFragment(Get(files, "a"), "x")
  {}

  /** Two answers that give the same file in two languages: the only version is in the first, the file is in
      the second. */
  lemma LanguageCanBeStale()
    ensures var messages := [InLang("python"), InLang("text")];
      && Get(WalkTo(BlockReaders(), messages, 2).files, "a") == Some(File("x", "text"))
      && VersionsOf(BlockReaders(), messages, "a", 2) == [Version(0, "x", "python")]
  {
    hide AfterAnswer, Put, BlockReaders, InLang, HandledAsResume;
    var p, messages := BlockReaders(), [InLang("python"), InLang("text")];
    IsAnswer("python");
    IsAnswer("text");
    NoResume(p, messages);
    var w0 := WalkTo(p, messages, 0);
    AnswerSetsFile("python", "", w0.files);
    var w1 := WalkTo(p, messages, 1);
    assert w1 == Walk(Put(w0.files, "a", File("x", "python")), None);
    AnswerSetsFile("text", messages[0].content, w1.files);
    assert WalkTo(p, messages, 2) == Walk(Put(w1.files, "a", File("x", "text")), None);
    OneMore(p, messages, "a", 0);
    OneMore(p, messages, "a", 1);
  }

  lemma NoResume(p: Readers, messages: seq<Message>)
    requires |messages| == 2 && messages[0].role == Assistant
    ensures !HandledAsResume(p, messages, 0) && !HandledAsResume(p, messages, 1)
  {
    hide RESUME_PROMPT;
  }
}
