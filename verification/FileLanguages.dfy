/** Which code blocks are taken, and that a file's language comes from them alone. */
module FileLanguages {
  import opened Wrappers
  import opened FileHistory
  import Rejoin

  /** The block becomes the file of its title: a new file; or one of at most 800 characters; or one not much
      longer, two thirds of it being enough, and a quarter for a block left open. */
  ghost predicate Taken(files: Files, a: Artifact, isOpen: bool) {
    a.isCode &&
    (|| a.title !in files.values
     || var size := |files.values[a.title].content|;
        size <= 800 || 100 * |a.content| >= 66 * size || (isOpen && 4 * |a.content| >= size))
  }

  lemma TakenOrNot(files: Files, a: Artifact, isOpen: bool)
    ensures TakeArtifact(files, a, isOpen)
         == if Taken(files, a, isOpen) then Put(files, a.title, File(a.content, a.lang)) else files
  {
    hide Put;
  }

  /** What the last block of this title taken among the first `n` says. */
  ghost function BlockFile(files: Files, arts: seq<Artifact>, unfinished: Option<string>, n: nat, name: string): Option<File>
    requires n <= |arts|
  {
    if n == 0 then None
    else
      var a := arts[n - 1];
      if a.title == name && Taken(TakeArtifacts(files, arts, unfinished, n - 1), a, IsOpenBlock(arts, n - 1, unfinished))
      then Some(File(a.content, a.lang))
      else BlockFile(files, arts, unfinished, n - 1, name)
  }

  ghost function BlockLang(files: Files, arts: seq<Artifact>, unfinished: Option<string>, n: nat, name: string): Option<string>
    requires n <= |arts|
  {
    var given := BlockFile(files, arts, unfinished, n, name);
    if given.Some? then Some(given.value.lang) else None
  }

  /** The language of the last block of this title that message `i` had taken, if any. */
  ghost function MessageLang(p: Readers, messages: seq<Message>, i: nat, name: string): Option<string>
    requires i < |messages|
  {
    var m, files := messages[i], WalkTo(p, messages, i).files;
    if m.role != Assistant || HandledAsResume(p, messages, i) then None
    else
      var arts := p.artifacts(ClosedContent(m.content), if i > 0 then messages[i - 1].content else "", files);
      BlockLang(files, arts, LeftOpen(m.content, arts), |arts|, name)
  }

  /** The language of the last block of this title taken from message `from` on. */
  ghost function LangSince(p: Readers, messages: seq<Message>, name: string, from: nat, n: nat): Option<string>
    requires from <= n <= |messages|
  {
    if n == from then None
    else
      var last := MessageLang(p, messages, n - 1, name);
      if last.Some? then last else LangSince(p, messages, name, from, n - 1)
  }

  /** The file is still known, and its language is the given one, or the one it had. */
  ghost predicate LangGiven(before: Files, after: Files, name: string, given: Option<string>) {
    name in before.values ==>
      name in after.values && after.values[name].lang == if given.Some? then given.value else before.values[name].lang
  }

  lemma {:induction false} ArtifactsGiveLang(files: Files, arts: seq<Artifact>, unfinished: Option<string>, n: nat, name: string)
    requires n <= |arts|
    ensures LangGiven(files, TakeArtifacts(files, arts, unfinished, n), name, BlockLang(files, arts, unfinished, n, name))
  {
    hide TakeArtifact, Taken, Put;
    if n > 0 {
      ArtifactsGiveLang(files, arts, unfinished, n - 1, name);
      TakenOrNot(TakeArtifacts(files, arts, unfinished, n - 1), arts[n - 1], IsOpenBlock(arts, n - 1, unfinished));
    }
  }

  lemma EditKeepsLang(files: Files, e: Edit, name: string)
    ensures LangGiven(files, TakeEdit(files, e), name, None)
  {
    hide KeyOf, FirstIndex, Replaced, Put;
  }

  lemma {:induction false} EditsKeepLang(files: Files, edits: seq<Edit>, n: nat, name: string)
    requires n <= |edits|
    ensures LangGiven(files, TakeEdits(files, edits, n), name, None)
  {
    hide TakeEdit;
    if n > 0 {
      EditsKeepLang(files, edits, n - 1, name);
      EditKeepsLang(TakeEdits(files, edits, n - 1), edits[n - 1], name);
    }
  }

  lemma {:induction false} FileEditsKeepLang(files: Files, edits: seq<FileEdit>, n: nat, name: string)
    requires n <= |edits|
    ensures LangGiven(files, TakeFileEdits(files, edits, n), name, None)
  {
    hide LangFromName, TakeFileEdit;
    if n > 0 {
      FileEditsKeepLang(files, edits, n - 1, name);
      FileEditKeepsLang(TakeFileEdits(files, edits, n - 1), edits[n - 1], name);
    }
  }

  lemma FileEditKeepsLang(files: Files, f: FileEdit, name: string)
    ensures LangGiven(files, TakeFileEdit(files, f), name, None)
  {
    hide LangFromName, Put;
  }

  lemma ResumeKeepsLang(p: Readers, m: Message, w: Walk, name: string)
    ensures LangGiven(w.files, AfterResume(p, m, w).files, name, None)
  {
    hide Put, Rejoin.RejoinOf;
  }

  lemma AnswerGivesLang(p: Readers, m: Message, previous: string, files: Files, name: string)
    ensures var arts := p.artifacts(ClosedContent(m.content), previous, files);
      LangGiven(files, AfterAnswer(p, m, previous, files).files, name,
                BlockLang(files, arts, LeftOpen(m.content, arts), |arts|, name))
  {
    hide ClosedContent, LeftOpen, TakeArtifacts, TakeEdits, TakeFileEdits, BlockLang;
    var arts := p.artifacts(ClosedContent(m.content), previous, files);
    var unfinished := LeftOpen(m.content, arts);
    var taken := TakeArtifacts(files, arts, unfinished, |arts|);
    var edits := p.edits(m.content);
    ArtifactsGiveLang(files, arts, unfinished, |arts|, name);
    EditsKeepLang(taken, edits, |edits|, name);
    FileEditsKeepLang(TakeEdits(taken, edits, |edits|), m.fileEdits, |m.fileEdits|, name);
  }

  /** One message gives a known file the language of the last of its blocks that was taken; edits, the
      server's versions and resumes keep the one it had. */
  lemma MessageGivesLang(p: Readers, messages: seq<Message>, i: nat, name: string)
    requires i < |messages|
    ensures LangGiven(WalkTo(p, messages, i).files, WalkTo(p, messages, i + 1).files, name, MessageLang(p, messages, i, name))
  {
    hide HandledAsResume, AfterAnswer, AfterResume, BlockLang, LangGiven, ClosedContent, LeftOpen;
    var m, w := messages[i], WalkTo(p, messages, i);
    if m.role != Assistant {
      SameLang(w.files, name);
    } else if HandledAsResume(p, messages, i) {
      ResumeKeepsLang(p, m, w, name);
    } else {
      AnswerGivesLang(p, m, if i > 0 then messages[i - 1].content else "", w.files, name);
    }
  }

  lemma SameLang(files: Files, name: string)
    ensures LangGiven(files, files, name, None)
  {}

  /** Over any stretch of the conversation, a file's language is that of the last block taken for it, or the
      one it had before. */
  lemma {:induction false} LangComesFromBlocks(p: Readers, messages: seq<Message>, name: string, from: nat, n: nat)
    requires from <= n <= |messages|
    ensures LangGiven(WalkTo(p, messages, from).files, WalkTo(p, messages, n).files, name, LangSince(p, messages, name, from, n))
    decreases n
  {
    hide WalkTo, MessageLang;
    if from < n {
      LangComesFromBlocks(p, messages, name, from, n - 1);
      MessageGivesLang(p, messages, n - 1, name);
    }
  }
}
