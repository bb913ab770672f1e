/** The bracket counter of a page's scripts: skips comments, strings, templates and regular
    expression literals, and keeps a stack of the templates whose `${…}` it is inside. */
module ScriptDepth {
  import opened Wrappers
  import opened JsStrings

  predicate IsAt(code: string, i: nat, c: char) { i < |code| && code[i] == c }

  predicate IsOpener(c: char) { c == '{' || c == '(' || c == '[' }

  predicate IsCloser(c: char) { c == '}' || c == ')' || c == ']' }

  const BEFORE_REGEX := "(,=:[!&|?{};+-*%~^<>"

  const WORDS_BEFORE_REGEX := ["return", "typeof", "instanceof", "in", "of", "new", "delete", "void", "do", "else",
                               "case", "yield", "await"]

  predicate IsWordChar(c: char) { 'a' <= c <= 'z' || 'A' <= c <= 'Z' || '0' <= c <= '9' || c == '_' || c == '$' }

  predicate EndsWithWord(t: string, w: string) {
    |w| <= |t| && t[|t| - |w|..] == w && (|t| == |w| || !IsWordChar(t[|t| - |w| - 1]))
  }

  /** May a slash at `i` open a regular expression literal? */
  predicate RegexMayStart(code: string, i: nat, previous: Option<char>)
    requires i <= |code|
  {
    || previous.None?
    || previous.value in BEFORE_REGEX
    || exists w | w in WORDS_BEFORE_REGEX :: EndsWithWord(code[if i > 12 then i - 12 else 0..i], w)
  }

  // ---------------------------------------------------------------- the skips

  function Left(code: string, i: nat): nat { if i < |code| then |code| - i else 0 }

  function SkipLine(code: string, i: nat): (j: nat)
    ensures i <= j
    ensures i < |code| && code[i] != '\n' ==> i < j
    decreases Left(code, i)
  {
    if i < |code| && code[i] != '\n' then SkipLine(code, i + 1) else i
  }

  function SkipBlock(code: string, i: nat): (j: nat)
    ensures i + 2 <= j
    decreases Left(code, i)
  {
    if i < |code| && !(IsAt(code, i, '*') && IsAt(code, i + 1, '/')) then SkipBlock(code, i + 1) else i + 2
  }

  function SkipString(code: string, i: nat, quote: char): (j: nat)
    ensures i < j
    decreases Left(code, i)
  {
    if i < |code| && code[i] != quote then SkipString(code, if code[i] == '\\' then i + 2 else i + 1, quote) else i + 1
  }

  function SkipRegex(code: string, i: nat, inClass: bool): (j: nat)
    ensures i <= j
    decreases Left(code, i)
  {
    if i >= |code| then i
    else if code[i] == '\\' then SkipRegex(code, i + 2, inClass)
    else if code[i] == '[' then SkipRegex(code, i + 1, true)
    else if code[i] == ']' then SkipRegex(code, i + 1, false)
    else if code[i] == '/' && !inClass then i + 1
    else if code[i] == '\n' then i
    else SkipRegex(code, i + 1, inClass)
  }

  /** Where template text stops: at the end of the code, after its backtick, or inside a `${`. */
  datatype TemplateStop = Unclosed | Closed(next: nat) | Opened(next: nat)

  function SkipTemplate(code: string, i: nat): (t: TemplateStop)
    ensures !t.Unclosed? ==> i < t.next
    decreases Left(code, i)
  {
    if i >= |code| then Unclosed
    else if code[i] == '\\' then SkipTemplate(code, i + 2)
    else if code[i] == '`' then Closed(i + 1)
    else if code[i] == '$' && IsAt(code, i + 1, '{') then Opened(i + 2)
    else SkipTemplate(code, i + 1)
  }

  // ---------------------------------------------------------------- the scanner

  /** The result of scanning from `i` on. */
  function Scan(code: string, i: nat, depth: int, templates: seq<int>, previous: Option<char>): int
    decreases Left(code, i), 0
  {
    if i >= |code| then depth
    else
      var c := code[i];
      if c == '/' && IsAt(code, i + 1, '/') then Scan(code, SkipLine(code, i), depth, templates, previous)
      else if c == '/' && IsAt(code, i + 1, '*') then Scan(code, SkipBlock(code, i + 2), depth, templates, previous)
      else if c == '\'' || c == '\"' then Scan(code, SkipString(code, i + 1, c), depth, templates, Some('x'))
      else if c == '`' then ScanTemplate(code, i + 1, depth, templates)
      else if c == '/' && RegexMayStart(code, i, previous) then
        Scan(code, SkipRegex(code, i + 1, false), depth, templates, Some('x'))
      else
        var next := if IsSpace(c) then previous else Some(c);
        if IsOpener(c) then Scan(code, i + 1, depth + 1, templates, next)
        else if IsCloser(c) then
          if templates != [] && depth - 1 == templates[|templates| - 1] then
            ScanTemplate(code, i + 1, depth - 1, templates[..|templates| - 1])
          else Scan(code, i + 1, depth - 1, templates, next)
        else Scan(code, i + 1, depth, templates, next)
  }

  /** The result of scanning from `i` on, in the text of a template opened at this depth. */
  function ScanTemplate(code: string, i: nat, depth: int, templates: seq<int>): int
    decreases Left(code, i), 1
  {
    match SkipTemplate(code, i)
    case Unclosed => 1
    case Closed(next) => Scan(code, next, depth, templates, Some('x'))
    case Opened(next) => Scan(code, next, depth + 1, templates + [depth], Some('x'))
  }

  method FinalDepth(code: string) returns (r: int)
    ensures r == Scan(code, 0, 0, [], None)
  {
    var i: nat, depth, n := 0, 0, |code|;
    var templates: seq<int> := [];
    var previous: Option<char> := None;
    while i < n
      invariant Scan(code, i, depth, templates, previous) == Scan(code, 0, 0, [], None)
      decreases Left(code, i)
    {
      var c := code[i];
      if c == '/' && IsAt(code, i + 1, '/') {
        i := LineLoop(code, i);
      } else if c == '/' && IsAt(code, i + 1, '*') {
        i := BlockLoop(code, i + 2);
      } else if c == '\'' || c == '\"' {
        i := StringLoop(code, i + 1, c);
        previous := Some('x');
      } else if c == '`' {
        var t := TemplateLoop(code, i + 1);
        if t.Unclosed? {
          return 1;
        }
        if t.Opened? {
          templates, depth := templates + [depth], depth + 1;
        }
        i, previous := t.next, Some('x');
      } else if c == '/' && RegexMayStart(code, i, previous) {
        i := RegexLoop(code, i + 1);
        previous := Some('x');
      } else if IsCloser(c) && templates != [] && depth - 1 == templates[|templates| - 1] {
        depth := depth - 1;
        templates := templates[..|templates| - 1];
        var t := TemplateLoop(code, i + 1);
        if t.Unclosed? {
          return 1;
        }
        if t.Opened? {
          templates, depth := templates + [depth], depth + 1;
        }
        i, previous := t.next, Some('x');
      } else {
        if IsOpener(c) {
          depth := depth + 1;
        } else if IsCloser(c) {
          depth := depth - 1;
        }
        if !IsSpace(c) {
          previous := Some(c);
        }
        i := i + 1;
      }
    }
    r := depth;
  }

  method LineLoop(code: string, start: nat) returns (i: nat)
    ensures i == SkipLine(code, start)
  {
    i := start;
    while i < |code| && code[i] != '\n'
      invariant SkipLine(code, i) == SkipLine(code, start)
      decreases Left(code, i)
    {
      i := i + 1;
    }
  }

  method BlockLoop(code: string, start: nat) returns (i: nat)
    ensures i == SkipBlock(code, start)
  {
    i := start;
    while i < |code| && !(IsAt(code, i, '*') && IsAt(code, i + 1, '/'))
      invariant SkipBlock(code, i) == SkipBlock(code, start)
      decreases Left(code, i)
    {
      i := i + 1;
    }
    i := i + 2;
  }

  method StringLoop(code: string, start: nat, quote: char) returns (i: nat)
    ensures i == SkipString(code, start, quote)
  {
    i := start;
    while i < |code| && code[i] != quote
      invariant SkipString(code, i, quote) == SkipString(code, start, quote)
      decreases Left(code, i)
    {
      if code[i] == '\\' {
        i := i + 1;
      }
      i := i + 1;
    }
    i := i + 1;
  }

  method TemplateLoop(code: string, start: nat) returns (t: TemplateStop)
    ensures t == SkipTemplate(code, start)
  {
    var i: nat := start;
    while true
      invariant SkipTemplate(code, i) == SkipTemplate(code, start)
      decreases Left(code, i)
    {
      if i >= |code| {
        return Unclosed;
      }
      if code[i] == '\\' {
        i := i + 2;
      } else if code[i] == '`' {
        return Closed(i + 1);
      } else if code[i] == '$' && IsAt(code, i + 1, '{') {
        return Opened(i + 2);
      } else {
        i := i + 1;
      }
    }
  }

  method RegexLoop(code: string, start: nat) returns (i: nat)
    ensures i == SkipRegex(code, start, false)
  {
    i := start;
    var inClass := false;
    while i < |code|
      invariant SkipRegex(code, i, inClass) == SkipRegex(code, start, false)
      decreases Left(code, i)
    {
      if code[i] == '\\' {
        i := i + 2;
      } else if code[i] == '[' {
        i, inClass := i + 1, true;
      } else if code[i] == ']' {
        i, inClass := i + 1, false;
      } else if code[i] == '/' && !inClass {
        return i + 1;
      } else if code[i] == '\n' {
        return i;
      } else {
        i := i + 1;
      }
    }
  }
}
