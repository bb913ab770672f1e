/** What one answer makes of the conversation's files, which file it leaves unfinished, and what a series of
    resumes makes of that one. */
module FileAnswers {
  import opened Wrappers
  import opened FileHistory
  import opened FileLanguages
  import Documents
  import Gluing

  // ---------------------------------------------------------------- blocks, edits, server versions

  /** The file of this name is what the last of its blocks taken among the first `n` says, or what it was. */
  lemma {:induction false} BlocksGiveFile(files: Files, arts: seq<Artifact>, unfinished: Option<string>, n: nat, name: string)
    requires n <= |arts|
    ensures Get(TakeArtifacts(files, arts, unfinished, n), name)
         == var given := BlockFile(files, arts, unfinished, n, name); if given.Some? then given else Get(files, name)
  {
    hide TakeArtifact, Taken, Put;
    if n > 0 {
      BlocksGiveFile(files, arts, unfinished, n - 1, name);
      TakenOrNot(TakeArtifacts(files, arts, unfinished, n - 1), arts[n - 1], IsOpenBlock(arts, n - 1, unfinished));
    }
  }

  /** The states the edits go through, one after the other. */
  ghost predicate EditRun(states: seq<Files>, edits: seq<Edit>) {
    |states| == |edits| + 1 && forall i :: 0 <= i < |edits| ==> EditStep(states[i], edits[i], states[i + 1])
  }

  lemma {:induction false} EditsRun(files: Files, edits: seq<Edit>, n: nat) returns (states: seq<Files>)
    requires n <= |edits|
    ensures EditRun(states, edits[..n]) && states[0] == files && states[n] == TakeEdits(files, edits, n)
  {
    hide EditStep, TakeEdit;
    if n == 0 {
      states := [files];
    } else {
      states := EditsRun(files, edits, n - 1);
      EditChangesOne(states[n - 1], edits[n - 1]);
      states := states + [TakeEdits(files, edits, n)];
      assert forall i :: 0 <= i < n - 1 ==> edits[..n][i] == edits[..n - 1][i];
    }
  }

  /** Which of the first `n` versions is the last of this name. */
  ghost function LastVersion(edits: seq<FileEdit>, n: nat, name: string): (k: Option<nat>)
    requires n <= |edits|
    ensures k.Some? ==> k.value < n && edits[k.value].name == name && forall j :: k.value < j < n ==> edits[j].name != name
    ensures k.None? ==> forall j :: 0 <= j < n ==> edits[j].name != name
  {
    if n == 0 then None else if edits[n - 1].name == name then Some(n - 1) else LastVersion(edits, n - 1, name)
  }

  /** A file holds the server's last version of it, in the language it had or, if new, in that of its
      extension; without one it is what it was. */
  ghost function ServerGives(before: Files, edits: seq<FileEdit>, n: nat, name: string): Option<File>
    requires n <= |edits|
  {
    var k := LastVersion(edits, n, name);
    if k.None? then Get(before, name)
    else Some(File(edits[k.value].content, if name in before.values then before.values[name].lang else LangFromName(name)))
  }

  lemma {:induction false} VersionsGiveFile(files: Files, edits: seq<FileEdit>, n: nat, name: string)
    requires n <= |edits|
    ensures Get(TakeFileEdits(files, edits, n), name) == ServerGives(files, edits, n, name)
  {
    hide LangFromName, TakeFileEdit;
    if n > 0 {
      VersionsGiveFile(files, edits, n - 1, name);
      VersionGivesFile(TakeFileEdits(files, edits, n - 1), edits[n - 1], name);
    }
  }

  lemma VersionGivesFile(files: Files, f: FileEdit, name: string)
    ensures Get(TakeFileEdit(files, f), name)
         == if name != f.name then Get(files, name)
            else Some(File(f.content, if name in files.values then files.values[name].lang else LangFromName(name)))
  {
    hide LangFromName, Put;
  }

  /** An answer works on the files in this order: its blocks, of which the last one taken gives each file; its
      edits, one after the other; and the server's versions, the last of each name. */
  lemma AnswerMeans(p: Readers, m: Message, previous: string, files: Files) returns (states: seq<Files>)
    ensures var arts := p.artifacts(ClosedContent(m.content), previous, files);
      var after := AfterAnswer(p, m, previous, files).files;
      && EditRun(states, p.edits(m.content))
      && (forall name :: Get(states[0], name) ==
            var given := BlockFile(files, arts, LeftOpen(m.content, arts), |arts|, name);
            if given.Some? then given else Get(files, name))
      && (forall name :: Get(after, name) == ServerGives(states[|states| - 1], m.fileEdits, |m.fileEdits|, name))
  {
    hide ClosedContent, LeftOpen, TakeArtifacts, TakeEdits, TakeFileEdits, BlockFile, EditStep, ServerGives;
    var arts := p.artifacts(ClosedContent(m.content), previous, files);
    var unfinished := LeftOpen(m.content, arts);
    var taken := TakeArtifacts(files, arts, unfinished, |arts|);
    var edits := p.edits(m.content);
    states := EditsRun(taken, edits, |edits|);
    assert edits[..|edits|] == edits;
    forall name ensures Get(taken, name) ==
      var given := BlockFile(files, arts, unfinished, |arts|, name); if given.Some? then given else Get(files, name)
    {
      BlocksGiveFile(files, arts, unfinished, |arts|, name);
    }
    var edited := states[|states| - 1];
    forall name ensures Get(TakeFileEdits(edited, m.fileEdits, |m.fileEdits|), name)
                     == ServerGives(edited, m.fileEdits, |m.fileEdits|, name)
    {
      VersionsGiveFile(edited, m.fileEdits, |m.fileEdits|, name);
    }
  }

  // ---------------------------------------------------------------- fences

  ghost predicate FenceAt(s: string, i: int) { 0 <= i <= |s| - 3 && s[i] == s[i + 1] == s[i + 2] == '`' }

  /** The pieces between the fences of a text, each fence the first there is after the one before. */
  ghost predicate CutAtFences(s: string, pieces: seq<string>)
    decreases |pieces|
  {
    pieces != []
    && if |pieces| == 1 then s == pieces[0] && forall i :: !FenceAt(s, i)
       else
         && pieces[0] + "```" <= s
         && (forall i :: 0 <= i < |pieces[0]| ==> !FenceAt(s, i))
         && CutAtFences(s[|pieces[0]| + 3..], pieces[1..])
  }

  /** The fences counted are those a reader meets from left to right. */
  lemma {:induction false} FencesMean(s: string) returns (pieces: seq<string>)
    ensures CutAtFences(s, pieces) && Fences(s) == |pieces| - 1
    decreases |s|
  {
    if |s| < 3 {
      pieces := [s];
    } else if s[..3] == "```" {
      pieces := FencesMean(s[3..]);
      pieces := [""] + pieces;
      assert pieces[1..] == pieces[1..] && "" + "```" == s[..3];
    } else {
      var rest := FencesMean(s[1..]);
      NoFenceHere(s);
      pieces := [[s[0]] + rest[0]] + rest[1..];
      LaterFences(s, rest, pieces);
    }
  }

  lemma NoFenceHere(s: string)
    requires |s| >= 3 && s[..3] != "```"
    ensures !FenceAt(s, 0)
  {
    assert s[..3] == [s[0], s[1], s[2]];
  }

  lemma LaterFences(s: string, rest: seq<string>, pieces: seq<string>)
    requires s != "" && !FenceAt(s, 0) && CutAtFences(s[1..], rest) && pieces == [[s[0]] + rest[0]] + rest[1..]
    ensures CutAtFences(s, pieces)
  {
    var t := s[1..];
    assert forall i :: i > 0 ==> (FenceAt(s, i) <==> FenceAt(t, i - 1));
    assert s == [s[0]] + t && pieces[1..] == rest[1..];
    if |rest| > 1 {
      assert [s[0]] + (rest[0] + "```") == pieces[0] + "```";
      assert t[|rest[0]| + 3..] == s[|pieces[0]| + 3..];
    }
  }

  lemma {:induction false} FenceAdded(s: string)
    ensures Fences(s + "\n```") == Fences(s) + 1
    decreases |s|
  {
    var t := s + "\n```";
    if |s| >= 3 {
      assert t[..3] == s[..3];
      if s[..3] == "```" {
        assert t[3..] == s[3..] + "\n```";
        FenceAdded(s[3..]);
      } else {
        assert t[1..] == s[1..] + "\n```";
        FenceAdded(s[1..]);
      }
    } else {
      ShortFence(s);
    }
  }

  lemma ShortFence(s: string)
    requires |s| < 3
    ensures Fences(s + "\n```") == 1
  {
    var t := s + "\n```";
    assert t[|s|] == '\n';
    if s == "" {
      assert t[..3][0] == '\n' && t[1..] == "```" && "```"[..3] == "```" && "```"[3..] == "";
    } else {
      assert t[..3][|s|] == '\n';
      assert t[1..] == s[1..] + "\n```";
      ShortFence(s[1..]);
    }
  }

  /** A text with an open fence is closed, and any other is left as it is. */
  lemma ClosedContentMeans(content: string)
    ensures Fences(ClosedContent(content)) % 2 == 0
    ensures ClosedContent(content) == if Fences(content) % 2 == 0 then content else content + "\n```"
  {
    hide Fences;
    FenceAdded(content);
  }

  // ---------------------------------------------------------------- resumes

  /** An answer is glued only if the message before it is a hidden one of the user that starts with the resume
      prompt, and the answer itself carries no protocol block. */
  lemma ResumeMeans(p: Readers, messages: seq<Message>, i: nat)
    requires i < |messages|
    ensures HandledAsResume(p, messages, i) <==>
      && i > 0 && messages[i].role == Assistant && !p.isProtocol(messages[i].content)
      && messages[i - 1].role == User && messages[i - 1].hidden
      && exists rest :: messages[i - 1].content == RESUME_PROMPT + rest
  {
    hide RESUME_PROMPT;
    if HandledAsResume(p, messages, i) {
      var content := messages[i - 1].content;
      assert content == RESUME_PROMPT + content[|RESUME_PROMPT|..];
    }
  }

  // ---------------------------------------------------------------- the unfinished file

  /** An answer leaves a title unfinished exactly when a fence of it is left open and its last block is code of
      that title; other messages than answers leave what was. */
  lemma AnswerLeavesOpen(p: Readers, messages: seq<Message>, i: nat, name: string)
    requires i < |messages| && !HandledAsResume(p, messages, i)
    ensures var m, before, after := messages[i], WalkTo(p, messages, i), WalkTo(p, messages, i + 1);
      if m.role != Assistant then after == before
      else
        var arts := p.artifacts(ClosedContent(m.content), if i > 0 then messages[i - 1].content else "", before.files);
        (after.unfinished == Some(name)
         <==> Fences(m.content) % 2 == 1 && arts != [] && arts[|arts| - 1].isCode && arts[|arts| - 1].title == name)
  {
    hide Fences, ClosedContent, TakeArtifacts, TakeEdits, TakeFileEdits, HandledAsResume;
  }

  /** Nothing of the continuation is dropped or spliced: it rewrites nothing, shares no run of lines with the
      end of the file, and does not start with what the cut line ends with. */
  ghost predicate NothingRepeated(base: string, continuation: string) {
    && !Documents.Rewrites(base, continuation)
    && (forall cut :: !Gluing.SpliceAt(base, continuation, cut))
    && (forall n: nat :: !Gluing.Repeats(base, continuation, n))
  }

  lemma GluedWhole(base: string, continuation: string, file: string)
    requires NothingRepeated(base, continuation) && Gluing.Glues(base, continuation, file)
    ensures file == base + continuation
  {
    hide Documents.Rewrites, Gluing.SpliceAt, Gluing.Repeats;
    var n: nat :| Gluing.LongestRepeat(base, continuation, n) && Gluing.JoinedAs(base, continuation, n, file);
    assert continuation[0..] == continuation;
  }

  /** What the first `k` resumes after message `i` continue with. */
  ghost function Continued(p: Readers, messages: seq<Message>, i: nat, k: nat): string
    requires i + 2 * k <= |messages|
  {
    if k == 0 then "" else Continued(p, messages, i, k - 1) + p.continuation(messages[i + 2 * k - 1].content)
  }

  /** From message `i` on, `k` resume prompts, each with its answer; all but the last were cut again, and none
      repeats anything of the file so far. */
  ghost predicate Resumed(p: Readers, messages: seq<Message>, i: nat, k: nat, base: string)
    requires i + 2 * k <= |messages|
  {
    forall j :: 0 <= j < k ==> ResumedAt(p, messages, i, k, base, j)
  }

  ghost predicate ResumedAt(p: Readers, messages: seq<Message>, i: nat, k: nat, base: string, j: nat)
    requires j < k && i + 2 * k <= |messages|
  {
    var answer := messages[i + 2 * j + 1];
    && IsResume(messages[i + 2 * j]) && answer.role == Assistant && !p.isProtocol(answer.content)
    && (j + 1 < k ==> answer.truncated)
    && NothingRepeated(base + Continued(p, messages, i, j), p.continuation(answer.content))
  }

  /** However often it was cut, the unfinished file ends up holding everything that followed, in order, and no
      other file has changed. */
  lemma {:induction false} ResumesConcatenate(p: Readers, messages: seq<Message>, i: nat, k: nat, name: string)
    requires i + 2 * k <= |messages| && WalkTo(p, messages, i).unfinished == Some(name) && name != ""
    requires name in WalkTo(p, messages, i).files.values
    requires Resumed(p, messages, i, k, WalkTo(p, messages, i).files.values[name].content)
    ensures var before, after := WalkTo(p, messages, i), WalkTo(p, messages, i + 2 * k);
      && after.files.names == before.files.names && name in after.files.values
      && after.files.values[name].content == before.files.values[name].content + Continued(p, messages, i, k)
      && after.files.values[name].lang == before.files.values[name].lang
      && (forall other :: other in before.files.values && other != name ==>
            other in after.files.values && after.files.values[other] == before.files.values[other])
      && (k == 0 || messages[i + 2 * k - 1].truncated ==> after.unfinished == Some(name))
    decreases k
  {
    hide WalkTo, NothingRepeated, IsResume;
    var before := WalkTo(p, messages, i);
    var base := before.files.values[name].content;
    if k == 0 {
      assert base + "" == base;
    } else {
      var n := i + 2 * k - 2;
      ResumedPrefix(p, messages, i, k, base);
      ResumesConcatenate(p, messages, i, k - 1, name);
      PromptChangesNothing(p, messages, n);
      OneResume(p, messages, n + 1, name, base + Continued(p, messages, i, k - 1));
      assert base + (Continued(p, messages, i, k - 1) + p.continuation(messages[n + 1].content))
          == base + Continued(p, messages, i, k - 1) + p.continuation(messages[n + 1].content);
    }
  }

  lemma ResumedPrefix(p: Readers, messages: seq<Message>, i: nat, k: nat, base: string)
    requires k > 0 && i + 2 * k <= |messages| && Resumed(p, messages, i, k, base)
    ensures Resumed(p, messages, i, k - 1, base)
    ensures ResumedAt(p, messages, i, k, base, k - 1)
    ensures k > 1 ==> messages[i + 2 * (k - 1) - 1].truncated
  {
    hide NothingRepeated, IsResume, Continued;
    var less: nat := k - 1;
    forall j: nat | j < less ensures ResumedAt(p, messages, i, less, base, j) {
      assert ResumedAt(p, messages, i, k, base, j);
    }
    if k > 1 {
      assert ResumedAt(p, messages, i, k, base, k - 2);
    }
  }

  lemma PromptChangesNothing(p: Readers, messages: seq<Message>, i: nat)
    requires i < |messages| && IsResume(messages[i])
    ensures WalkTo(p, messages, i + 1) == WalkTo(p, messages, i)
  {}

  lemma OneResume(p: Readers, messages: seq<Message>, i: nat, name: string, base: string)
    requires 0 < i < |messages| && IsResume(messages[i - 1]) && messages[i].role == Assistant
    requires !p.isProtocol(messages[i].content)
    requires var w := WalkTo(p, messages, i);
      w.unfinished == Some(name) && name != "" && name in w.files.values && w.files.values[name].content == base
    requires NothingRepeated(base, p.continuation(messages[i].content))
    ensures var before, after := WalkTo(p, messages, i), WalkTo(p, messages, i + 1);
      && after.files.names == before.files.names && name in after.files.values
      && after.files.values[name] == File(base + p.continuation(messages[i].content), before.files.values[name].lang)
      && (forall other :: other in before.files.values && other != name ==>
            other in after.files.values && after.files.values[other] == before.files.values[other])
      && (messages[i].truncated ==> after.unfinished == Some(name))
  {
    hide WalkTo, NothingRepeated, IsResume, Gluing.Glues, Gluing.KeepsMost, Documents.Rewrites;
    ResumeGlues(p, messages, i);
    GluedWhole(base, p.continuation(messages[i].content), WalkTo(p, messages, i + 1).files.values[name].content);
  }

  /** A block cut anywhere, and then any number of resumes: an answer whose last block was left open, and taken,
      and that nothing else of it touches, is completed to the whole. */
  lemma CutBlockIsCompleted(p: Readers, messages: seq<Message>, i: nat, k: nat, a: Artifact)
    requires i + 1 + 2 * k <= |messages| && messages[i].role == Assistant && !HandledAsResume(p, messages, i)
    requires Fences(messages[i].content) % 2 == 1 && a.isCode && a.title != ""
    requires p.edits(messages[i].content) == [] && messages[i].fileEdits == []
    requires var files := WalkTo(p, messages, i).files;
      var arts := p.artifacts(ClosedContent(messages[i].content), if i > 0 then messages[i - 1].content else "", files);
      && arts != [] && arts[|arts| - 1] == a
      && Taken(TakeArtifacts(files, arts, Some(a.title), |arts| - 1), a, true)
    requires Resumed(p, messages, i + 1, k, a.content)
    ensures var after := WalkTo(p, messages, i + 1 + 2 * k);
      && a.title in after.files.values
      && after.files.values[a.title] == File(a.content + Continued(p, messages, i + 1, k), a.lang)
  {
    hide Fences, ClosedContent, Resumed, HandledAsResume, Taken, TakeEdits, TakeFileEdits, WalkTo, Continued;
    AnswerLeavesOpen(p, messages, i, a.title);
    OpenBlockStands(p, messages, i, a);
    ResumesConcatenate(p, messages, i + 1, k, a.title);
  }

  lemma OpenBlockStands(p: Readers, messages: seq<Message>, i: nat, a: Artifact)
    requires i < |messages| && messages[i].role == Assistant && !HandledAsResume(p, messages, i)
    requires Fences(messages[i].content) % 2 == 1 && a.isCode
    requires p.edits(messages[i].content) == [] && messages[i].fileEdits == []
    requires var files := WalkTo(p, messages, i).files;
      var arts := p.artifacts(ClosedContent(messages[i].content), if i > 0 then messages[i - 1].content else "", files);
      && arts != [] && arts[|arts| - 1] == a
      && Taken(TakeArtifacts(files, arts, Some(a.title), |arts| - 1), a, true)
    ensures Get(WalkTo(p, messages, i + 1).files, a.title) == Some(File(a.content, a.lang))
  {
    hide Fences, ClosedContent, HandledAsResume, Taken, TakeArtifact, Put;
    var files := WalkTo(p, messages, i).files;
    var arts := p.artifacts(ClosedContent(messages[i].content), if i > 0 then messages[i - 1].content else "", files);
    BlocksGiveFile(files, arts, Some(a.title), |arts|, a.title);
  }
}
