/** The files of a conversation, derived from its messages: their state and their versions. */
module FileHistory {
  import opened Wrappers
  import opened JsStrings
  import Rejoin
  import Gluing
  import Documents

  // ---------------------------------------------------------------- maps that keep their order

  datatype Ordered<V> = Ordered(names: seq<string>, values: map<string, V>) {
    ghost predicate Valid() {
      && (forall n :: n in names <==> n in values)
      && (forall i, j :: 0 <= i < j < |names| ==> names[i] != names[j])
    }
  }

  /** Names in the order they first came, each with its value. */
  type Table<V> = t: Ordered<V> | t.Valid() witness Ordered([], map[])

  function Put<V>(t: Table<V>, name: string, v: V): (r: Table<V>)
    ensures r.values == t.values[name := v]
    ensures r.names == if name in t.values then t.names else t.names + [name]
  {
    if name in t.values then Ordered(t.names, t.values[name := v]) else Ordered(t.names + [name], t.values[name := v])
  }

  // ---------------------------------------------------------------- messages and files

  datatype Role = User | Assistant | System

  datatype FileEdit = FileEdit(name: string, content: string)

  datatype Message = Message(role: Role, hidden: bool, content: string, truncated: bool, fileEdits: seq<FileEdit>)

  datatype File = File(content: string, lang: string)

  type Files = Table<File>

  datatype Artifact = Artifact(isCode: bool, title: string, lang: string, content: string)

  datatype Edit = Edit(file: string, find: string, replace: string)

  /** What the text of one message says; the proofs hold for any such readers. `artifacts` sees the
      message with its fences closed, the message before it, and the files known so far. */
  datatype Readers = Readers(
    artifacts: (string, string, Files) -> seq<Artifact>,
    edits: string -> seq<Edit>,
    isProtocol: string -> bool,
    continuation: string -> string,
    isIncomplete: string -> bool)

  const RESUME_PROMPT := "Continue exactement l\U{E0} o\U{F9} tu t'es arr\U{EA}t\U{E9}"

  predicate IsResume(m: Message) { m.role == User && m.hidden && RESUME_PROMPT <= m.content }

  /** Is message `i` an answer to a resume prompt? */
  predicate Resumes(messages: seq<Message>, i: nat) {
    0 < i < |messages| && messages[i].role == Assistant && IsResume(messages[i - 1])
  }

  /** A resume answer is glued onto the unfinished file, unless it carries a protocol block. */
  predicate HandledAsResume(p: Readers, messages: seq<Message>, i: nat)
    requires i < |messages|
  {
    Resumes(messages, i) && !p.isProtocol(messages[i].content)
  }

  /** Occurrences of three backquotes, taken from the left. */
  function Fences(s: string): nat {
    if |s| < 3 then 0 else if s[..3] == "```" then 1 + Fences(s[3..]) else Fences(s[1..])
  }

  function ClosedContent(content: string): string {
    if Fences(content) % 2 == 1 then content + "\n```" else content
  }

  /** A block much shorter than a substantial known file. */
  predicate IsFragment(legacy: Option<File>, current: string) {
    legacy.Some? && |legacy.value.content| > 800 && 100 * |current| < 66 * |legacy.value.content|
  }

  function Get(files: Files, name: string): Option<File> {
    if name in files.values then Some(files.values[name]) else None
  }

  const EXT_LANG := map[
    "py" := "python", "js" := "javascript", "ts" := "typescript", "tsx" := "tsx", "jsx" := "jsx", "html" := "html",
    "css" := "css", "json" := "json", "md" := "markdown", "sh" := "bash", "yml" := "yaml", "yaml" := "yaml",
    "go" := "go", "rs" := "rust", "java" := "java", "c" := "c", "cpp" := "cpp", "rb" := "ruby", "php" := "php", "sql" := "sql"]

  function LowerText(s: string): string {
    if s == "" then "" else [Documents.Lower(s[0])] + LowerText(s[1..])
  }

  function LangFromName(name: string): string {
    var parts := Split(name, '.');
    var ext := LowerText(parts[|parts| - 1]);
    if ext in EXT_LANG then EXT_LANG[ext] else "text"
  }

  lemma {:induction false} JoinSnoc(parts: seq<string>, last: string, sep: char)
    requires parts != []
    ensures Join(parts + [last], sep) == Join(parts, sep) + [sep] + last
  {
    var all := parts + [last];
    if |parts| == 1 {
      assert all[1..] == [last];
    } else {
      assert all[1..] == parts[1..] + [last];
      JoinSnoc(parts[1..], last, sep);
      assert parts[0] + [sep] + (Join(parts[1..], sep) + [sep] + last) == parts[0] + [sep] + Join(parts[1..], sep) + [sep] + last;
    }
  }

  /** Only what follows the last dot tells the language, and its case does not matter. */
  lemma LangFromExtension(base: string, ext: string)
    requires '.' !in ext
    ensures LangFromName(base + "." + ext) == LangFromName(ext)
    ensures LangFromName(ext) == if LowerText(ext) in EXT_LANG then EXT_LANG[LowerText(ext)] else "text"
  {
    hide EXT_LANG, Split, Join, LowerText;
    var parts := Split(base, '.') + [ext];
    JoinSnoc(Split(base, '.'), ext, '.');
    SplitJoin(parts, '.');
    OneJoined(ext);
    SplitJoin([ext], '.');
  }

  lemma OneJoined(s: string)
    ensures Join([s], '.') == s
  {}

  // ---------------------------------------------------------------- what one message does

  function TakeArtifact(files: Files, a: Artifact, isOpen: bool): Files {
    var previous := Get(files, a.title);
    if !a.isCode then files
    else if isOpen && (previous.None? || 4 * |a.content| >= |previous.value.content|) then
      Put(files, a.title, File(a.content, a.lang))
    else if IsFragment(previous, a.content) then files
    else Put(files, a.title, File(a.content, a.lang))
  }

  /** The title of the last block, when a cut left it open. */
  function LeftOpen(content: string, arts: seq<Artifact>): Option<string> {
    if Fences(content) % 2 == 1 && arts != [] && arts[|arts| - 1].isCode then Some(arts[|arts| - 1].title) else None
  }

  predicate IsOpenBlock(arts: seq<Artifact>, rank: nat, unfinished: Option<string>)
    requires rank < |arts|
  {
    rank == |arts| - 1 && unfinished == Some(arts[rank].title)
  }

  function TakeArtifacts(files: Files, arts: seq<Artifact>, unfinished: Option<string>, n: nat): Files
    requires n <= |arts|
  {
    if n == 0 then files
    else TakeArtifact(TakeArtifacts(files, arts, unfinished, n - 1), arts[n - 1], IsOpenBlock(arts, n - 1, unfinished))
  }

  predicate FoundAt(s: string, find: string, i: nat) { i + |find| <= |s| && s[i..i + |find|] == find }

  /** Where a text first occurs. */
  function FirstIndex(s: string, find: string): (r: Option<nat>)
    ensures r.Some? ==> FoundAt(s, find, r.value)
  {
    if |find| > |s| then None
    else if s[..|find|] == find then Some(0)
    else
      var r := FirstIndex(s[1..], find);
      if r.None? then None
      else
        assert s[1..][r.value..r.value + |find|] == s[r.value + 1..r.value + 1 + |find|];
        Some(r.value + 1)
  }

  /** The replacement text of `replace`, where a dollar sign can name a part of the text. */
  function Expand(r: string, before: string, found: string, after: string): string {
    if r == "" then ""
    else if |r| == 1 || r[0] != '$' then [r[0]] + Expand(r[1..], before, found, after)
    else match r[1]
      case '$' => "$" + Expand(r[2..], before, found, after)
      case '&' => found + Expand(r[2..], before, found, after)
      case '`' => before + Expand(r[2..], before, found, after)
      case '\'' => after + Expand(r[2..], before, found, after)
      case _ => "$" + Expand(r[1..], before, found, after)
  }

  function Replaced(s: string, at: nat, find: string, replace: string): string
    requires at + |find| <= |s|
  {
    var before, after := s[..at], s[at + |find|..];
    before + Expand(replace, before, find, after) + after
  }

  predicate NamesFile(k: string, file: string) {
    k == file || Rejoin.EndsWith(k, "/" + file) || Rejoin.EndsWith(file, "/" + k)
  }

  function FindKey(names: seq<string>, file: string): (r: Option<string>)
    ensures r.Some? ==> r.value in names && NamesFile(r.value, file)
    ensures r.None? ==> forall k :: k in names ==> !NamesFile(k, file)
  {
    if names == [] then None
    else if NamesFile(names[0], file) then Some(names[0])
    else FindKey(names[1..], file)
  }

  /** The known file an edit is about; the empty name never is one. */
  function KeyOf(files: Files, file: string): (r: Option<string>)
    ensures r.Some? ==> r.value in files.values && r.value != "" && NamesFile(r.value, file)
  {
    if file in files.values && file != "" then Some(file)
    else
      var k := FindKey(files.names, file);
      if k == Some("") then None else k
  }

  function TakeEdit(files: Files, e: Edit): Files {
    match KeyOf(files, e.file)
    case None => files
    case Some(key) =>
      var target := files.values[key];
      match FirstIndex(target.content, e.find)
      case None => files
      case Some(at) => Put(files, key, target.(content := Replaced(target.content, at, e.find, e.replace)))
  }

  function TakeEdits(files: Files, edits: seq<Edit>, n: nat): Files
    requires n <= |edits|
  {
    if n == 0 then files else TakeEdit(TakeEdits(files, edits, n - 1), edits[n - 1])
  }

  function TakeFileEdit(files: Files, f: FileEdit): Files {
    Put(files, f.name, File(f.content, if f.name in files.values then files.values[f.name].lang else LangFromName(f.name)))
  }

  function TakeFileEdits(files: Files, edits: seq<FileEdit>, n: nat): Files
    requires n <= |edits|
  {
    if n == 0 then files else TakeFileEdit(TakeFileEdits(files, edits, n - 1), edits[n - 1])
  }

  // ---------------------------------------------------------------- the walk

  /** The files, and the one the last message left unfinished. */
  datatype Walk = Walk(files: Files, unfinished: Option<string>)

  function Target(w: Walk): Option<File> {
    if w.unfinished.Some? && w.unfinished.value != "" then Get(w.files, w.unfinished.value) else None
  }

  function AfterResume(p: Readers, m: Message, w: Walk): Walk {
    var target := Target(w);
    if target.None? then w.(unfinished := None)
    else
      var fusion := Rejoin.RejoinOf(target.value.content, p.continuation(m.content));
      Walk(Put(w.files, w.unfinished.value, target.value.(content := fusion)),
           if m.truncated || p.isIncomplete(fusion) then w.unfinished else None)
  }

  function AfterAnswer(p: Readers, m: Message, previous: string, files: Files): Walk {
    var arts := p.artifacts(ClosedContent(m.content), previous, files);
    var unfinished := LeftOpen(m.content, arts);
    var taken := TakeArtifacts(files, arts, unfinished, |arts|);
    var edits := p.edits(m.content);
    var edited := TakeEdits(taken, edits, |edits|);
    Walk(TakeFileEdits(edited, m.fileEdits, |m.fileEdits|), unfinished)
  }

  function AfterMessage(p: Readers, messages: seq<Message>, i: nat, w: Walk): Walk
    requires i < |messages|
  {
    var m := messages[i];
    if m.role != Assistant then w
    else if HandledAsResume(p, messages, i) then AfterResume(p, m, w)
    else AfterAnswer(p, m, if i > 0 then messages[i - 1].content else "", w.files)
  }

  /** The state after the first `n` messages. */
  function WalkTo(p: Readers, messages: seq<Message>, n: nat): Walk
    requires n <= |messages|
  {
    if n == 0 then Walk(Ordered([], map[]), None) else AfterMessage(p, messages, n - 1, WalkTo(p, messages, n - 1))
  }

  /** How many messages there are up to and including `index`. */
  function UpTo(messages: seq<Message>, index: int): nat {
    if index < 0 then 0 else if index < |messages| then index + 1 else |messages|
  }

  method ApplyArtifacts(before: Files, arts: seq<Artifact>, unfinished: Option<string>) returns (files: Files)
    ensures files == TakeArtifacts(before, arts, unfinished, |arts|)
  {
    files := before;
    for rank := 0 to |arts|
      invariant files == TakeArtifacts(before, arts, unfinished, rank)
    {
      var a := arts[rank];
      if !a.isCode {
        continue;
      }
      var previous := Get(files, a.title);
      if rank == |arts| - 1 && unfinished == Some(a.title)
         && (previous.None? || 4 * |a.content| >= |previous.value.content|) {
        files := Put(files, a.title, File(a.content, a.lang));
        continue;
      }
      if IsFragment(Get(files, a.title), a.content) {
        continue;
      }
      files := Put(files, a.title, File(a.content, a.lang));
    }
  }

  method ApplyEdits(before: Files, edits: seq<Edit>) returns (files: Files)
    ensures files == TakeEdits(before, edits, |edits|)
  {
    files := before;
    for i := 0 to |edits|
      invariant files == TakeEdits(before, edits, i)
    {
      var e := edits[i];
      var key := KeyOf(files, e.file);
      if key.None? {
        continue;
      }
      var target := files.values[key.value];
      var at := FirstIndex(target.content, e.find);
      if at.None? {
        continue;
      }
      files := Put(files, key.value, target.(content := Replaced(target.content, at.value, e.find, e.replace)));
    }
  }

  method ApplyFileEdits(before: Files, edits: seq<FileEdit>) returns (files: Files)
    ensures files == TakeFileEdits(before, edits, |edits|)
  {
    files := before;
    for i := 0 to |edits|
      invariant files == TakeFileEdits(before, edits, i)
    {
      var f := edits[i];
      var lang := if f.name in files.values then files.values[f.name].lang else LangFromName(f.name);
      files := Put(files, f.name, File(f.content, lang));
    }
  }

  method ApplyAnswer(p: Readers, m: Message, previous: string, before: Files) returns (files: Files, unfinished: Option<string>)
    ensures Walk(files, unfinished) == AfterAnswer(p, m, previous, before)
  {
    hide TakeArtifacts, TakeEdits, TakeFileEdits, LeftOpen, ClosedContent;
    var arts := p.artifacts(ClosedContent(m.content), previous, before);
    unfinished := LeftOpen(m.content, arts);
    files := ApplyArtifacts(before, arts, unfinished);
    var edits := p.edits(m.content);
    files := ApplyEdits(files, edits);
    files := ApplyFileEdits(files, m.fileEdits);
  }

  /** The body of the walk. */
  method ApplyMessage(p: Readers, messages: seq<Message>, i: nat, before: Files, left: Option<string>)
    returns (files: Files, unfinished: Option<string>)
    requires i < |messages|
    ensures Walk(files, unfinished) == AfterMessage(p, messages, i, Walk(before, left))
  {
    hide IsResume, AfterAnswer, Put, Rejoin.RejoinOf;
    files, unfinished := before, left;
    var m := messages[i];
    if m.role != Assistant {
      return;
    }
    var target := if left.Some? && left.value != "" then Get(files, left.value) else None;
    var protocol := p.isProtocol(m.content);
    var resumed := i > 0 && IsResume(messages[i - 1]);
    if resumed && !protocol && target.None? {
      unfinished := None;
      return;
    }
    if target.Some? && !protocol && resumed {
      var fusion := Rejoin.Rejoin(target.value.content, p.continuation(m.content));
      files := Put(files, left.value, target.value.(content := fusion));
      unfinished := if m.truncated || p.isIncomplete(fusion) then left else None;
      return;
    }
    files, unfinished := ApplyAnswer(p, m, if i > 0 then messages[i - 1].content else "", files);
  }

  datatype Snapshot = Snapshot(index: nat, files: Files)

  /** The state after message `index`, and what the observer was shown on the way: the state after each
      message, once each, in order. */
  method FilesUntil(p: Readers, messages: seq<Message>, index: int) returns (files: Files, observed: seq<Snapshot>)
    ensures files == WalkTo(p, messages, UpTo(messages, index)).files
    ensures |observed| == UpTo(messages, index)
    ensures forall k :: 0 <= k < |observed| ==> observed[k] == Snapshot(k, WalkTo(p, messages, k + 1).files)
  {
    hide AfterMessage;
    files, observed := Ordered([], map[]), [];
    var unfinished: Option<string> := None;
    var i: nat := 0;
    while i <= index && i < |messages|
      invariant i <= UpTo(messages, index)
      invariant Walk(files, unfinished) == WalkTo(p, messages, i)
      invariant |observed| == if i > 0 then i - 1 else 0
      invariant forall k :: 0 <= k < |observed| ==> observed[k] == Snapshot(k, WalkTo(p, messages, k + 1).files)
      decreases |messages| - i
    {
      if i > 0 {
        observed := observed + [Snapshot(i - 1, files)];
      }
      files, unfinished := ApplyMessage(p, messages, i, files, unfinished);
      i := i + 1;
    }
    if i > 0 {
      observed := observed + [Snapshot(i - 1, files)];
    }
  }

  // ---------------------------------------------------------------- what every message keeps

  lemma {:induction false} ArtifactsKeepFiles(files: Files, arts: seq<Artifact>, unfinished: Option<string>, n: nat)
    requires n <= |arts|
    ensures files.names <= TakeArtifacts(files, arts, unfinished, n).names
  {
    if n > 0 { ArtifactsKeepFiles(files, arts, unfinished, n - 1); }
  }

  /** One name ends in a slash and the other, or they are the same. */
  ghost predicate SameFile(k: string, file: string) {
    k == file || (exists dir :: k == dir + "/" + file) || (exists dir :: file == dir + "/" + k)
  }

  lemma EndsInPath(s: string, t: string)
    ensures Rejoin.EndsWith(s, "/" + t) <==> exists dir :: s == dir + "/" + t
  {
    if Rejoin.EndsWith(s, "/" + t) {
      assert s == s[..|s| - |t| - 1] + "/" + t;
    }
    if dir :| s == dir + "/" + t {
      assert s == dir + ("/" + t);
    }
  }

  lemma NamesFileIs(k: string, file: string)
    ensures NamesFile(k, file) <==> SameFile(k, file)
  {
    EndsInPath(k, file);
    EndsInPath(file, k);
  }

  /** The first known name, in order, that is the same but for a directory. */
  ghost predicate FirstAlikeAt(files: Files, file: string, key: string, i: nat) {
    && i < |files.names| && files.names[i] == key && SameFile(key, file)
    && forall j :: 0 <= j < i ==> !SameFile(files.names[j], file)
  }

  ghost predicate FirstAlike(files: Files, file: string, key: string) { exists i: nat :: FirstAlikeAt(files, file, key, i) }

  /** The file an edit names: the one of that very name if it is known, else the first one alike. The empty name
      names none. */
  ghost predicate Chosen(files: Files, file: string, key: string) {
    key in files.values && key != "" && (key == file || ((file !in files.values || file == "") && FirstAlike(files, file, key)))
  }

  lemma {:induction false} FindKeyIsFirst(names: seq<string>, file: string) returns (i: nat)
    requires FindKey(names, file).Some?
    ensures i < |names| && names[i] == FindKey(names, file).value && forall j :: 0 <= j < i ==> !NamesFile(names[j], file)
  {
    hide NamesFile;
    i := 0;
    if !NamesFile(names[0], file) {
      i := FindKeyIsFirst(names[1..], file);
      i := i + 1;
    }
  }

  lemma FindKeyAlike(files: Files, file: string)
    ensures FindKey(files.names, file).Some? ==> FirstAlike(files, file, FindKey(files.names, file).value)
    ensures FindKey(files.names, file).None? ==> forall k :: k in files.names ==> !SameFile(k, file)
  {
    hide NamesFile, SameFile;
    forall k ensures NamesFile(k, file) <==> SameFile(k, file) {
      NamesFileIs(k, file);
    }
    if FindKey(files.names, file).Some? {
      var i := FindKeyIsFirst(files.names, file);
      assert FirstAlikeAt(files, file, FindKey(files.names, file).value, i);
    }
  }

  lemma OneAlike(files: Files, file: string, a: string, b: string)
    requires FirstAlike(files, file, a) && FirstAlike(files, file, b)
    ensures a == b
  {
    hide SameFile;
    var i: nat :| FirstAlikeAt(files, file, a, i);
    var j: nat :| FirstAlikeAt(files, file, b, j);
    assert i == j;
  }

  lemma KeyIsChosen(files: Files, file: string, key: string)
    ensures Chosen(files, file, key) <==> KeyOf(files, file) == Some(key)
  {
    hide FirstAlike, FindKey, SameFile, NamesFile;
    FindKeyAlike(files, file);
    if FindKey(files.names, file).Some? && FirstAlike(files, file, key) {
      OneAlike(files, file, key, FindKey(files.names, file).value);
    }
    AlikeIsKnown(files, file, key);
  }

  lemma AlikeIsKnown(files: Files, file: string, key: string)
    ensures FirstAlike(files, file, key) ==> key in files.names && SameFile(key, file)
  {}

  /** An edit changes the file it names, at the first place where its anchor stands, and no other; it changes
      nothing if and only if it names none or its anchor stands nowhere in it. */
  ghost predicate EditStep(before: Files, e: Edit, after: Files) {
    && after.names == before.names
    && ((exists key, at: nat :: EditedAt(before, e, key, at, after))
        || (after == before
            && forall key, at: nat :: Chosen(before, e.file, key) ==> !FoundAt(before.values[key].content, e.find, at)))
  }

  lemma EditChangesOne(files: Files, e: Edit)
    ensures EditStep(files, e, TakeEdit(files, e))
  {
    hide KeyOf, FirstIndex, Expand, FoundAt, NamesFile, Put, Chosen;
    var key := KeyOf(files, e.file);
    forall other ensures Chosen(files, e.file, other) <==> key == Some(other) {
      KeyIsChosen(files, e.file, other);
    }
    if key.Some? {
      var at := FirstIndex(files.values[key.value].content, e.find);
      FirstIndexIsFirst(files.values[key.value].content, e.find);
      if at.Some? {
        FoundFits(files.values[key.value].content, e.find, at.value);
        assert EditedAt(files, e, key.value, at.value, TakeEdit(files, e));
      }
    }
  }

  lemma FoundFits(s: string, find: string, at: nat)
    requires FoundAt(s, find, at)
    ensures at + |find| <= |s|
  {}

  lemma EditKeepsNames(files: Files, e: Edit)
    ensures TakeEdit(files, e).names == files.names
  {
    hide KeyOf, FirstIndex, Replaced;
  }

  ghost predicate EditedAt(files: Files, e: Edit, key: string, at: nat, after: Files) {
    && Chosen(files, e.file, key)
    && var was := files.values[key];
    && FoundAt(was.content, e.find, at) && (forall i: nat :: i < at ==> !FoundAt(was.content, e.find, i))
    && var head, tail := was.content[..at], was.content[at + |e.find|..];
    after.values == files.values[key := File(head + Expand(e.replace, head, e.find, tail) + tail, was.lang)]
  }

  /** The index found is the first, and nothing is found only when there is nothing. */
  lemma {:induction false} FirstIndexIsFirst(s: string, find: string)
    ensures forall i: nat :: (FirstIndex(s, find).None? || i < FirstIndex(s, find).value) ==> !FoundAt(s, find, i)
    decreases |s|
  {
    if |find| <= |s| && s[..|find|] != find {
      FirstIndexIsFirst(s[1..], find);
      forall i: nat | FirstIndex(s, find).None? || i < FirstIndex(s, find).value
        ensures !FoundAt(s, find, i)
      {
        if i > 0 {
          assert i + |find| <= |s| ==> s[1..][i - 1..i - 1 + |find|] == s[i..i + |find|];
          assert !FoundAt(s[1..], find, i - 1);
        }
      }
    }
  }

  /** What a dollar sign can be followed by to name something. */
  predicate IsSign(c: char) { c == '$' || c == '&' || c == '`' || c == '\'' }

  ghost predicate NoSign(r: string) { forall i :: 0 <= i < |r| - 1 && r[i] == '$' ==> !IsSign(r[i + 1]) }

  lemma NoSignTail(r: string)
    requires r != "" && (|r| == 1 || r[0] != '$' || !IsSign(r[1]))
    ensures NoSign(r) <==> NoSign(r[1..])
  {
    var t := r[1..];
    if NoSign(t) {
      forall i | 0 <= i < |r| - 1 && r[i] == '$' ensures !IsSign(r[i + 1]) {
        assert i > 0 ==> t[i - 1] == '$' && !IsSign(t[i - 1 + 1]);
      }
    }
  }

  lemma {:induction false} NoSignIsLiteral(r: string, before: string, found: string, after: string)
    requires NoSign(r)
    ensures Expand(r, before, found, after) == r
  {
    if r != "" {
      assert |r| > 1 && r[0] == '$' ==> !IsSign(r[0 + 1]);
      NoSignTail(r);
      NoSignIsLiteral(r[1..], before, found, after);
    }
  }

  /** A sign that names nothing still costs a character. */
  lemma {:induction false} SignsShorten(r: string)
    ensures |Expand(r, "", "", "")| <= |r| && (!NoSign(r) ==> |Expand(r, "", "", "")| < |r|)
    decreases |r|
  {
    if r != "" {
      if |r| > 1 && r[0] == '$' && IsSign(r[1]) {
        SignsShorten(r[2..]);
      } else {
        NoSignTail(r);
        SignsShorten(r[1..]);
      }
    }
  }

  /** A replacement is inserted as it is, whatever it replaces and wherever, exactly when it holds no sign. */
  lemma LiteralReplacement(r: string)
    ensures NoSign(r) <==> forall before, found, after :: Expand(r, before, found, after) == r
  {
    if NoSign(r) {
      forall before, found, after ensures Expand(r, before, found, after) == r {
        NoSignIsLiteral(r, before, found, after);
      }
    } else {
      SignsShorten(r);
      assert Expand(r, "", "", "") != r;
    }
  }

  /** What a sign stands for. */
  ghost function Named(sign: char, before: string, found: string, after: string): string
    requires IsSign(sign)
  {
    if sign == '$' then "$" else if sign == '&' then found else if sign == '`' then before else after
  }

  lemma ExpandStep(r: string, before: string, found: string, after: string)
    requires r != ""
    ensures if |r| == 1 || r[0] != '$' || !IsSign(r[1])
      then Expand(r, before, found, after) == [r[0]] + Expand(r[1..], before, found, after)
      else Expand(r, before, found, after) == Named(r[1], before, found, after) + Expand(r[2..], before, found, after)
  {}

  lemma ShiftedCut<T>(r: seq<T>, i: nat, rest: seq<T>)
    requires 0 < i < |r|
    ensures r[1..][..i] == r[..i + 1][1..] && r[1..][..i - 1] == r[..i][1..]
    ensures [r[0]] + (r[1..][..i - 1] + rest) == r[..i] + rest
    ensures i + 1 < |r| ==> r[1..][i + 1..] == r[i + 2..]
  {}

  /** Everything up to the first sign is literal, and the sign is replaced by what it stands for. */
  lemma {:induction false} SignMeans(r: string, i: nat, before: string, found: string, after: string)
    requires i + 1 < |r| && r[i] == '$' && IsSign(r[i + 1]) && NoSign(r[..i + 1])
    ensures Expand(r, before, found, after)
         == r[..i] + (Named(r[i + 1], before, found, after) + Expand(r[i + 2..], before, found, after))
  {
    hide Expand, Named, IsSign;
    ExpandStep(r, before, found, after);
    if i == 0 {
      assert r[..0] + Expand(r, before, found, after) == Expand(r, before, found, after);
    } else {
      assert r[0] == '$' ==> !IsSign(r[..i + 1][0 + 1]);
      NoSignTail(r[..i + 1]);
      ShiftedCut(r, i, Named(r[i + 1], before, found, after) + Expand(r[i + 2..], before, found, after));
      SignMeans(r[1..], i - 1, before, found, after);
    }
  }

  /** An edit that writes something else than its replacement. */
  lemma SignIsReplaced(lang: string)
    ensures TakeEdit(Ordered(["a"], map["a" := File("x", lang)]), Edit("a", "x", "$&!"))
         == Ordered(["a"], map["a" := File("x!", lang)])
  {
    var files: Files := Ordered(["a"], map["a" := File("x", lang)]);
    assert KeyOf(files, "a") == Some("a");
    assert FirstIndex("x", "x") == Some(0);
    assert "$&!"[2..] == "!" && "!"[1..] == "";
    assert Expand("$&!", "", "x", "") == "x" + Expand("!", "", "x", "");
    assert Replaced("x", 0, "x", "$&!") == "x!";
    assert files.values["a" := File("x!", lang)] == map["a" := File("x!", lang)];
  }

  lemma {:induction false} EditsKeepFiles(files: Files, edits: seq<Edit>, n: nat)
    requires n <= |edits|
    ensures TakeEdits(files, edits, n).names == files.names
  {
    if n > 0 {
      EditsKeepFiles(files, edits, n - 1);
      EditKeepsNames(TakeEdits(files, edits, n - 1), edits[n - 1]);
    }
  }

  lemma {:induction false} FileEditsKeepFiles(files: Files, edits: seq<FileEdit>, n: nat)
    requires n <= |edits|
    ensures files.names <= TakeFileEdits(files, edits, n).names
  {
    hide TakeFileEdit;
    if n > 0 {
      FileEditsKeepFiles(files, edits, n - 1);
      var before := TakeFileEdits(files, edits, n - 1);
      FileEditAdds(before, edits[n - 1]);
      Longer(files.names, before.names, TakeFileEdit(before, edits[n - 1]).names);
    }
  }

  lemma FileEditAdds(files: Files, f: FileEdit)
    ensures files.names <= TakeFileEdit(files, f).names
  {
    hide LangFromName;
  }

  lemma Longer<T>(a: seq<T>, b: seq<T>, c: seq<T>)
    requires a <= b <= c
    ensures a <= c
  {}

  lemma FileEditStep(files: Files, edits: seq<FileEdit>, n: nat)
    requires 0 < n <= |edits|
    ensures TakeFileEdits(files, edits, n).values.Keys
         == TakeFileEdits(files, edits, n - 1).values.Keys + {edits[n - 1].name}
    ensures TakeFileEdits(files, edits, n).values[edits[n - 1].name].content == edits[n - 1].content
    ensures forall name :: name in TakeFileEdits(files, edits, n - 1).values && name != edits[n - 1].name ==>
      TakeFileEdits(files, edits, n).values[name] == TakeFileEdits(files, edits, n - 1).values[name]
  {
    hide LangFromName, Put;
  }

  /** Among several server versions of a file the last one stands. */
  lemma {:induction false} FileEditsWin(files: Files, edits: seq<FileEdit>, n: nat, k: nat)
    requires k < n <= |edits| && forall j :: k < j < n ==> edits[j].name != edits[k].name
    ensures edits[k].name in TakeFileEdits(files, edits, n).values
    ensures TakeFileEdits(files, edits, n).values[edits[k].name].content == edits[k].content
  {
    hide LangFromName, Put, TakeFileEdits;
    FileEditStep(files, edits, n);
    if k < n - 1 { FileEditsWin(files, edits, n - 1, k); }
  }

  /** Code blocks of one title among the first `n`. */
  ghost function BlocksOf(arts: seq<Artifact>, name: string, n: nat): nat
    requires n <= |arts|
  {
    if n == 0 then 0 else BlocksOf(arts, name, n - 1) + if arts[n - 1].isCode && arts[n - 1].title == name then 1 else 0
  }

  /** The least a file of this size can be left with by so many closed blocks, each of which finds it substantial. */
  ghost function Shrunk(size: nat, blocks: nat): nat {
    if blocks == 0 then size else (66 * Shrunk(size, blocks - 1) + 99) / 100
  }

  lemma OneBlock(files: Files, a: Artifact, isOpen: bool, least: nat)
    requires a.title in files.values && |files.values[a.title].content| >= least && |files.values[a.title].content| > 800
    ensures a.title in TakeArtifact(files, a, isOpen).values
    ensures var after := |TakeArtifact(files, a, isOpen).values[a.title].content|;
      4 * after >= least && (!isOpen ==> after >= (66 * least + 99) / 100)
  {}

  lemma OtherBlock(files: Files, a: Artifact, isOpen: bool, name: string)
    requires name in files.values && (!a.isCode || a.title != name)
    ensures name in TakeArtifact(files, a, isOpen).values
    ensures TakeArtifact(files, a, isOpen).values[name] == files.values[name]
  {}

  ghost predicate IsBlockOf(a: Artifact, name: string) { a.isCode && a.title == name }

  /** If this block is of this title, it finds the file with more than 800 characters. */
  ghost predicate FindsSubstantial(files: Files, arts: seq<Artifact>, unfinished: Option<string>, name: string, j: nat)
    requires j < |arts|
  {
    IsBlockOf(arts[j], name) ==>
      var found := Get(TakeArtifacts(files, arts, unfinished, j), name); found.Some? && |found.value.content| > 800
  }

  ghost predicate FoundSubstantial(files: Files, arts: seq<Artifact>, unfinished: Option<string>, name: string, n: nat)
    requires n <= |arts|
  {
    forall j :: 0 <= j < n ==> FindsSubstantial(files, arts, unfinished, name, j)
  }

  /** What one block leaves of a file that so many blocks before it may have shrunk. */
  lemma BlockKeeps(files: Files, a: Artifact, isOpen: bool, name: string, size: nat, k: nat)
    requires name in files.values && |files.values[name].content| >= Shrunk(size, k)
    requires IsBlockOf(a, name) ==> |files.values[name].content| > 800
    ensures var after := Get(TakeArtifact(files, a, isOpen), name);
      && after.Some?
      && if IsBlockOf(a, name)
         then 4 * |after.value.content| >= Shrunk(size, k) && (!isOpen ==> |after.value.content| >= Shrunk(size, k + 1))
         else |after.value.content| >= Shrunk(size, k)
  {
    hide TakeArtifact, Shrunk;
    if IsBlockOf(a, name) {
      OneBlock(files, a, isOpen, Shrunk(size, k));
      ShrunkStep(size, k);
    } else {
      OtherBlock(files, a, isOpen, name);
    }
  }

  lemma BlockStep(files: Files, arts: seq<Artifact>, unfinished: Option<string>, name: string, n: nat)
    requires 0 < n <= |arts|
    ensures TakeArtifacts(files, arts, unfinished, n)
         == TakeArtifact(TakeArtifacts(files, arts, unfinished, n - 1), arts[n - 1], IsOpenBlock(arts, n - 1, unfinished))
    ensures BlocksOf(arts, name, n) == BlocksOf(arts, name, n - 1) + if IsBlockOf(arts[n - 1], name) then 1 else 0
  {
    hide TakeArtifact;
  }

  lemma NoBlocks(files: Files, arts: seq<Artifact>, unfinished: Option<string>, name: string, size: nat)
    ensures TakeArtifacts(files, arts, unfinished, 0) == files && BlocksOf(arts, name, 0) == 0 && Shrunk(size, 0) == size
  {}

  /** Before the last block, the only one that can be open. */
  lemma {:induction false} ClosedBlocksShrink(files: Files, arts: seq<Artifact>, unfinished: Option<string>, n: nat, name: string)
    requires n <= |arts| && (n < |arts| || unfinished != Some(name)) && name in files.values
    requires FoundSubstantial(files, arts, unfinished, name, n)
    ensures var left := Get(TakeArtifacts(files, arts, unfinished, n), name);
      left.Some? && |left.value.content| >= Shrunk(|files.values[name].content|, BlocksOf(arts, name, n))
  {
    hide TakeArtifact, TakeArtifacts, BlocksOf, Shrunk;
    var size := |files.values[name].content|;
    NoBlocks(files, arts, unfinished, name, size);
    if n > 0 {
      ClosedBlocksShrink(files, arts, unfinished, n - 1, name);
      BlockStep(files, arts, unfinished, name, n);
      var before, a := TakeArtifacts(files, arts, unfinished, n - 1), arts[n - 1];
      assert FindsSubstantial(files, arts, unfinished, name, n - 1);
      BlockKeeps(before, a, IsOpenBlock(arts, n - 1, unfinished), name, size, BlocksOf(arts, name, n - 1));
    }
  }

  ghost predicate LastIsOpen(arts: seq<Artifact>, unfinished: Option<string>, name: string) {
    arts != [] && IsBlockOf(arts[|arts| - 1], name) && unfinished == Some(name)
  }

  /** The file keeps 66 hundredths of its characters for each closed block of its title, and a quarter of
      what was left at one still open. */
  ghost predicate KeepsFloor(files: Files, arts: seq<Artifact>, unfinished: Option<string>, name: string)
    requires name in files.values
  {
    var k, size := BlocksOf(arts, name, |arts|), |files.values[name].content|;
    var after := Get(TakeArtifacts(files, arts, unfinished, |arts|), name);
    && after.Some?
    && if LastIsOpen(arts, unfinished, name)
       then k > 0 && 4 * |after.value.content| >= Shrunk(size, k - 1)
       else |after.value.content| >= Shrunk(size, k)
  }

  /** However many blocks of its title a message holds, a file keeps its floor as long as every one of them
      finds it with more than 800 characters. */
  lemma StubsNeverReplace(files: Files, arts: seq<Artifact>, unfinished: Option<string>, name: string)
    requires name in files.values && FoundSubstantial(files, arts, unfinished, name, |arts|)
    ensures KeepsFloor(files, arts, unfinished, name)
  {
    hide TakeArtifact, TakeArtifacts, BlocksOf, Shrunk;
    var n, size := |arts|, |files.values[name].content|;
    NoBlocks(files, arts, unfinished, name, size);
    if n > 0 {
      ClosedBlocksShrink(files, arts, unfinished, n - 1, name);
      BlockStep(files, arts, unfinished, name, n);
      var before, a := TakeArtifacts(files, arts, unfinished, n - 1), arts[n - 1];
      assert FindsSubstantial(files, arts, unfinished, name, n - 1);
      BlockKeeps(before, a, IsOpenBlock(arts, n - 1, unfinished), name, size, BlocksOf(arts, name, n - 1));
    }
  }

  lemma ShrunkStep(size: nat, blocks: nat)
    ensures Shrunk(size, 0) == size && Shrunk(size, blocks + 1) == (66 * Shrunk(size, blocks) + 99) / 100
  {}

  lemma {:induction false} ShrunkOrder(size: nat, i: nat, j: nat)
    requires i <= j
    ensures Shrunk(size, j) <= Shrunk(size, i)
    ensures Shrunk(size, j) == 0 <==> size == 0
    decreases j
  {
    if i < j {
      ShrunkOrder(size, i, j - 1);
    } else if j > 0 {
      ShrunkOrder(size, i - 1, j - 1);
    }
  }

  /** The sizes alone: when the least a file can be left with stays above 800, every block finds it so. */
  lemma {:induction false} SizesSuffice(files: Files, arts: seq<Artifact>, unfinished: Option<string>, name: string, n: nat)
    requires n <= |arts| && name in files.values
    requires var k := BlocksOf(arts, name, n); k == 0 || Shrunk(|files.values[name].content|, k - 1) > 800
    ensures FoundSubstantial(files, arts, unfinished, name, n)
  {
    hide TakeArtifacts, BlocksOf, Shrunk, FindsSubstantial;
    NothingFound(files, arts, unfinished, name);
    if n > 0 {
      var k, size := BlocksOf(arts, name, n - 1), |files.values[name].content|;
      BlockStep(files, arts, unfinished, name, n);
      if k > 0 {
        ShrunkOrder(size, k - 1, k);
      }
      SizesSuffice(files, arts, unfinished, name, n - 1);
      LastSuffices(files, arts, unfinished, name, n - 1);
    }
  }

  lemma NothingFound(files: Files, arts: seq<Artifact>, unfinished: Option<string>, name: string)
    ensures FoundSubstantial(files, arts, unfinished, name, 0)
  {}

  lemma LastSuffices(files: Files, arts: seq<Artifact>, unfinished: Option<string>, name: string, n: nat)
    requires n < |arts| && name in files.values && FoundSubstantial(files, arts, unfinished, name, n)
    requires IsBlockOf(arts[n], name) ==> Shrunk(|files.values[name].content|, BlocksOf(arts, name, n)) > 800
    ensures FindsSubstantial(files, arts, unfinished, name, n)
  {
    hide TakeArtifacts, BlocksOf, Shrunk, FoundSubstantial;
    ClosedBlocksShrink(files, arts, unfinished, n, name);
  }

  /** So many blocks of one title, each as short as it may be to be taken, and the last one empty. */
  ghost function Stubs(name: string, size: nat, k: nat): (arts: seq<Artifact>)
    ensures |arts| == k && forall i :: 0 <= i < k ==> IsBlockOf(arts[i], name)
    ensures forall i :: 0 <= i < k ==> |arts[i].content| == if i < k - 1 then Shrunk(size, i + 1) else 0
  {
    seq(k, i requires 0 <= i < k => Artifact(true, name, "text", if i < k - 1 then seq(Shrunk(size, i + 1), _ => 'x') else ""))
  }

  lemma {:induction false} AllBlocks(arts: seq<Artifact>, name: string, n: nat)
    requires n <= |arts| && forall i :: 0 <= i < n ==> IsBlockOf(arts[i], name)
    ensures BlocksOf(arts, name, n) == n
  {
    if n > 0 {
      AllBlocks(arts, name, n - 1);
    }
  }

  lemma BlockIsTaken(files: Files, a: Artifact, isOpen: bool)
    requires a.isCode && a.title in files.values
    requires var size := |files.values[a.title].content|; size <= 800 || 100 * |a.content| >= 66 * size
    ensures Get(TakeArtifact(files, a, isOpen), a.title) == Some(File(a.content, a.lang))
  {}

  lemma {:induction false} StubsShrink(files: Files, name: string, unfinished: Option<string>, k: nat, n: nat)
    requires name in files.values && n < k
    ensures var size := |files.values[name].content|;
      var left := Get(TakeArtifacts(files, Stubs(name, size, k), unfinished, n), name);
      left.Some? && |left.value.content| == Shrunk(size, n)
  {
    hide TakeArtifact, TakeArtifacts, Shrunk;
    var size := |files.values[name].content|;
    var arts := Stubs(name, size, k);
    NoBlocks(files, arts, unfinished, name, size);
    if n > 0 {
      StubsShrink(files, name, unfinished, k, n - 1);
      ShrunkStep(size, n - 1);
      BlockStep(files, arts, unfinished, name, n);
      BlockIsTaken(TakeArtifacts(files, arts, unfinished, n - 1), arts[n - 1], IsOpenBlock(arts, n - 1, unfinished));
    }
  }

  /** Any file that so many blocks can bring down to 800 characters or fewer, one more can empty. */
  lemma StubsCanEmpty(files: Files, name: string, unfinished: Option<string>, k: nat)
    requires name in files.values && k > 0 && Shrunk(|files.values[name].content|, k - 1) <= 800
    ensures var arts := Stubs(name, |files.values[name].content|, k);
      && BlocksOf(arts, name, |arts|) == k
      && var left := Get(TakeArtifacts(files, arts, unfinished, k), name);
      left.Some? && left.value.content == ""
  {
    hide TakeArtifact, TakeArtifacts, BlocksOf, Shrunk;
    var arts := Stubs(name, |files.values[name].content|, k);
    AllBlocks(arts, name, k);
    StubsShrink(files, name, unfinished, k, k - 1);
    BlockStep(files, arts, unfinished, name, k);
    BlockIsTaken(TakeArtifacts(files, arts, unfinished, k - 1), arts[k - 1], IsOpenBlock(arts, k - 1, unfinished));
  }

  /** A file keeps its floor in every message with `k` blocks of its title, the last one open or not, if and
      only if it is empty, or there is no such block, or all but one of them leave it more than 800. */
  lemma FloorHolds(files: Files, name: string, unfinished: Option<string>, k: nat)
    requires name in files.values
    ensures var size := |files.values[name].content|;
      ((forall arts: seq<Artifact> :: BlocksOf(arts, name, |arts|) == k ==> KeepsFloor(files, arts, unfinished, name))
       <==> size == 0 || k == 0 || Shrunk(size, k - 1) > 800)
  {
    hide TakeArtifacts, Shrunk, BlocksOf, KeepsFloor, FoundSubstantial;
    var size := |files.values[name].content|;
    if size == 0 || k == 0 || Shrunk(size, k - 1) > 800 {
      forall arts: seq<Artifact> | BlocksOf(arts, name, |arts|) == k ensures KeepsFloor(files, arts, unfinished, name) {
        if size > 0 || k == 0 {
          SizesSuffice(files, arts, unfinished, name, |arts|);
          StubsNeverReplace(files, arts, unfinished, name);
        } else {
          EmptyKeepsFloor(files, arts, unfinished, name);
        }
      }
    } else {
      StubsCanEmpty(files, name, unfinished, k);
      EmptiedBelowFloor(files, Stubs(name, size, k), unfinished, name);
    }
  }

  lemma {:induction false} KeptInFiles(files: Files, arts: seq<Artifact>, unfinished: Option<string>, n: nat, name: string)
    requires n <= |arts| && name in files.values
    ensures name in TakeArtifacts(files, arts, unfinished, n).values
  {
    if n > 0 {
      KeptInFiles(files, arts, unfinished, n - 1, name);
    }
  }

  lemma EmptyKeepsFloor(files: Files, arts: seq<Artifact>, unfinished: Option<string>, name: string)
    requires name in files.values && files.values[name].content == ""
    ensures KeepsFloor(files, arts, unfinished, name)
  {
    hide TakeArtifacts, Shrunk;
    var k := BlocksOf(arts, name, |arts|);
    KeptInFiles(files, arts, unfinished, |arts|, name);
    ShrunkOrder(0, 0, k);
    if k > 0 {
      ShrunkOrder(0, 0, k - 1);
    }
  }

  lemma EmptiedBelowFloor(files: Files, arts: seq<Artifact>, unfinished: Option<string>, name: string)
    requires name in files.values && files.values[name].content != ""
    requires var left := Get(TakeArtifacts(files, arts, unfinished, |arts|), name); left.Some? && left.value.content == ""
    ensures !KeepsFloor(files, arts, unfinished, name)
  {
    hide TakeArtifacts, Shrunk;
    var k := BlocksOf(arts, name, |arts|);
    ShrunkOrder(|files.values[name].content|, 0, k);
    if k > 0 {
      ShrunkOrder(|files.values[name].content|, 0, k - 1);
    }
  }

  /** Once a first block has brought it down to 800 characters or fewer, a second can empty a file. */
  lemma TwoBlocksCanEmpty(lang: string, whole: string, part: string)
    requires |whole| == 1000 && |part| == 700
    ensures var files: Files := Ordered(["a"], map["a" := File(whole, lang)]);
      var arts := [Artifact(true, "a", lang, part), Artifact(true, "a", lang, "")];
      TakeArtifacts(files, arts, None, 2).values["a"].content == ""
  {
    hide Put;
    var files: Files := Ordered(["a"], map["a" := File(whole, lang)]);
    var arts := [Artifact(true, "a", lang, part), Artifact(true, "a", lang, "")];
    assert TakeArtifacts(files, arts, None, 0) == files;
    assert TakeArtifacts(files, arts, None, 1) == Put(files, "a", File(part, lang));
  }

  /** The file left unfinished is a known file. */
  lemma UnfinishedIsKnown(p: Readers, messages: seq<Message>, n: nat)
    requires n <= |messages|
    ensures WalkTo(p, messages, n).unfinished.Some? ==>
      WalkTo(p, messages, n).unfinished.value in WalkTo(p, messages, n).files.values
  {
    hide AfterMessage;
    if n > 0 {
      UnfinishedIsKnown(p, messages, n - 1);
      MessageKeepsFiles(p, messages, n - 1, WalkTo(p, messages, n - 1));
    }
  }

  lemma OpenBlockIsTaken(files: Files, arts: seq<Artifact>, content: string)
    requires LeftOpen(content, arts).Some?
    ensures LeftOpen(content, arts).value in TakeArtifacts(files, arts, LeftOpen(content, arts), |arts|).values
  {
    hide Fences;
  }

  /** One message only adds files, and the file it leaves unfinished is one of them. */
  lemma MessageKeepsFiles(p: Readers, messages: seq<Message>, i: nat, w: Walk)
    requires i < |messages|
    requires w.unfinished.Some? ==> w.unfinished.value in w.files.values
    ensures var after := AfterMessage(p, messages, i, w);
      w.files.names <= after.files.names && (after.unfinished.Some? ==> after.unfinished.value in after.files.values)
  {
    hide Fences, TakeArtifacts, TakeEdits, TakeFileEdits, LeftOpen, Rejoin.RejoinOf;
    var m := messages[i];
    if m.role == Assistant && !HandledAsResume(p, messages, i) {
      AnswerKeepsFiles(p, m, if i > 0 then messages[i - 1].content else "", w.files);
    }
  }

  lemma AnswerKeepsFiles(p: Readers, m: Message, previous: string, files: Files)
    ensures var after := AfterAnswer(p, m, previous, files);
      files.names <= after.files.names && (after.unfinished.Some? ==> after.unfinished.value in after.files.values)
  {
    hide Fences, TakeArtifacts, TakeEdits, TakeFileEdits, LeftOpen, ClosedContent;
    var arts := p.artifacts(ClosedContent(m.content), previous, files);
    var unfinished := LeftOpen(m.content, arts);
    var taken := TakeArtifacts(files, arts, unfinished, |arts|);
    ArtifactsKeepFiles(files, arts, unfinished, |arts|);
    if unfinished.Some? {
      OpenBlockIsTaken(files, arts, m.content);
    }
    var edits := p.edits(m.content);
    EditsKeepFiles(taken, edits, |edits|);
    FileEditsKeepFiles(TakeEdits(taken, edits, |edits|), m.fileEdits, |m.fileEdits|);
  }

  /** No file is ever lost, and files keep their order. */
  lemma {:induction false} FilesAreKept(p: Readers, messages: seq<Message>, n: nat, n': nat)
    requires n <= n' <= |messages|
    ensures WalkTo(p, messages, n).files.names <= WalkTo(p, messages, n').files.names
    decreases n'
  {
    hide AfterMessage;
    if n < n' {
      FilesAreKept(p, messages, n, n' - 1);
      UnfinishedIsKnown(p, messages, n' - 1);
      MessageKeepsFiles(p, messages, n' - 1, WalkTo(p, messages, n' - 1));
    }
  }

  /** An answer to a resume prompt, unless it carries a protocol block, adds no file name and leaves every
      file as it was except the unfinished one. Onto that one it glues its continuation, as the gluing of two
      texts is defined; the file keeps its language, and all but at most 2000 of its characters unless the
      continuation rewrites the document, and it stays the unfinished one exactly when it was cut again. */
  lemma ResumeGlues(p: Readers, messages: seq<Message>, i: nat)
    requires i < |messages| && HandledAsResume(p, messages, i)
    ensures var m, before, after := messages[i], WalkTo(p, messages, i), WalkTo(p, messages, i + 1);
      && after.files.names == before.files.names
      && (forall name :: name in before.files.values && before.unfinished != Some(name) ==>
            name in after.files.values && after.files.values[name] == before.files.values[name])
      && if before.unfinished.None? || before.unfinished == Some("")
         then after == Walk(before.files, None)
         else var name := before.unfinished.value;
           && name in before.files.values && name in after.files.values
           && GluedOnto(before.files.values[name], p.continuation(m.content), after.files.values[name])
           && after.unfinished
              == if m.truncated || p.isIncomplete(after.files.values[name].content) then Some(name) else None
  {
    hide Rejoin.RejoinOf, IsResume, GluedOnto, Put;
    var m, before := messages[i], WalkTo(p, messages, i);
    UnfinishedIsKnown(p, messages, i);
    ResumeIs(p, messages, i, before);
    if before.unfinished.Some? && before.unfinished.value != "" {
      GluedIs(before.files.values[before.unfinished.value], p.continuation(m.content));
    }
  }

  lemma ResumeIs(p: Readers, messages: seq<Message>, i: nat, w: Walk)
    requires i < |messages| && HandledAsResume(p, messages, i)
    ensures AfterMessage(p, messages, i, w) == AfterResume(p, messages[i], w)
  {
    hide AfterAnswer, AfterResume, IsResume;
  }

  ghost predicate GluedOnto(was: File, continuation: string, now: File) {
    && now.lang == was.lang
    && Gluing.Glues(was.content, continuation, now.content)
    && (Gluing.KeepsMost(was.content, now.content) || (Documents.Rewrites(was.content, continuation) && now.content == continuation))
  }

  lemma GluedIs(was: File, continuation: string)
    ensures GluedOnto(was, continuation, was.(content := Rejoin.RejoinOf(was.content, continuation)))
  {
    hide Rejoin.RejoinOf, Documents.Rewrites, Gluing.KeepsMost, Gluing.Glues;
    Gluing.RejoinGlues(was.content, continuation);
    Gluing.LosesOnlyToRewrites(was.content, continuation);
  }

  ghost predicate HoldsVersion(files: Files, f: FileEdit) {
    f.name in files.values && files.values[f.name].content == f.content
  }

  /** What the server's tools wrote with a resume plays no part. */
  lemma ResumeIgnoresServer(p: Readers, messages: seq<Message>, i: nat, w: Walk, edits: seq<FileEdit>)
    requires i < |messages| && HandledAsResume(p, messages, i)
    ensures var other := messages[i := messages[i].(fileEdits := edits)];
      HandledAsResume(p, other, i) && AfterMessage(p, other, i, w) == AfterMessage(p, messages, i, w)
  {
    hide IsResume, Put, Rejoin.RejoinOf;
  }

  lemma AnswerTakesServer(p: Readers, m: Message, previous: string, files: Files, k: nat)
    requires k < |m.fileEdits| && forall j :: k < j < |m.fileEdits| ==> m.fileEdits[j].name != m.fileEdits[k].name
    ensures HoldsVersion(AfterAnswer(p, m, previous, files).files, m.fileEdits[k])
  {
    hide TakeArtifacts, TakeEdits, TakeFileEdits, LeftOpen, ClosedContent;
    var arts := p.artifacts(ClosedContent(m.content), previous, files);
    var taken := TakeArtifacts(files, arts, LeftOpen(m.content, arts), |arts|);
    var edits := p.edits(m.content);
    FileEditsWin(TakeEdits(taken, edits, |edits|), m.fileEdits, |m.fileEdits|, k);
  }

  /** The last version of a file that the server's tools wrote with a message: a message not handled as a
      resume makes it what the file holds; after a resume, a new file is still unknown, and any file but the
      unfinished one holds that version only if it did before. */
  lemma ServerVersionsWin(p: Readers, messages: seq<Message>, i: nat, k: nat)
    requires i < |messages| && messages[i].role == Assistant && k < |messages[i].fileEdits|
    requires forall j :: k < j < |messages[i].fileEdits| ==> messages[i].fileEdits[j].name != messages[i].fileEdits[k].name
    ensures var f, before, after := messages[i].fileEdits[k], WalkTo(p, messages, i), WalkTo(p, messages, i + 1);
      && (!HandledAsResume(p, messages, i) ==> HoldsVersion(after.files, f))
      && (f.name !in before.files.values ==> (HoldsVersion(after.files, f) <==> !HandledAsResume(p, messages, i)))
      && (before.unfinished != Some(f.name) ==>
            (HoldsVersion(after.files, f) <==> !HandledAsResume(p, messages, i) || HoldsVersion(before.files, f)))
      && (HandledAsResume(p, messages, i) ==>
            forall edits :: AfterMessage(p, messages[i := messages[i].(fileEdits := edits)], i, before) == after)
  {
    hide HandledAsResume, AfterAnswer;
    var m, w := messages[i], WalkTo(p, messages, i);
    if HandledAsResume(p, messages, i) {
      forall edits ensures AfterMessage(p, messages[i := m.(fileEdits := edits)], i, w) == AfterMessage(p, messages, i, w) {
        ResumeIgnoresServer(p, messages, i, w, edits);
      }
      ResumeGlues(p, messages, i);
      UnfinishedIsKnown(p, messages, i);
    } else {
      AnswerTakesServer(p, m, if i > 0 then messages[i - 1].content else "", w.files, k);
    }
  }

  /** A run in which the server wrote a file and the conversation does not know it. */
  lemma ServerVersionLost(p: Readers, file: FileEdit)
    requires !p.isProtocol("Done.")
    ensures var messages := [Message(User, true, RESUME_PROMPT, false, []), Message(Assistant, false, "Done.", false, [file])];
      WalkTo(p, messages, 2).files.values == map[]
  {
    hide RESUME_PROMPT;
    var messages := [Message(User, true, RESUME_PROMPT, false, []), Message(Assistant, false, "Done.", false, [file])];
    assert IsResume(messages[0]);
    assert WalkTo(p, messages, 0) == Walk(Ordered([], map[]), None);
    assert WalkTo(p, messages, 1) == WalkTo(p, messages, 0);
  }
}
