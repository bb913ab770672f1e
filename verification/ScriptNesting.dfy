/** Well-nested scripts as trees, and what the scanner answers on them: zero on a whole text, and
    on any cut of it the number of brackets and `${` left open, or one inside template text. */
module ScriptNesting {
  import opened Wrappers
  import opened JsStrings
  import opened ScriptDepth

  /** A character of a string or of template text, or a backslash and the character after it. */
  datatype Piece = Raw(c: char) | Escaped(c: char)

  /** What a regular expression is made of: a character, an escape, or a class in square brackets. */
  datatype Atom = Lit(c: char) | Esc(c: char) | Class(body: seq<Piece>)

  datatype Kind = Brace | Paren | Bracket

  datatype Item =
    | Plain(c: char)
    | Group(kind: Kind, items: seq<Item>)
    | Quoted(quote: char, body: seq<Piece>)
    | LineNote(note: string)
    | BlockNote(note: string)
    | Template(parts: seq<Part>)
    | Regex(atoms: seq<Atom>)
    | Broken(atoms: seq<Atom>)
    | Divide

  /** Template text, or `${` items `}`. */
  datatype Part = Words(p: Piece) | Hole(items: seq<Item>)

  // ---------------------------------------------------------------- the text of a tree

  function Open(k: Kind): char { match k case Brace => '{' case Paren => '(' case Bracket => '[' }

  function Close(k: Kind): char { match k case Brace => '}' case Paren => ')' case Bracket => ']' }

  function PieceText(p: Piece): string { match p case Raw(c) => [c] case Escaped(c) => ['\\', c] }

  function PiecesText(body: seq<Piece>): string {
    if body == [] then "" else PieceText(body[0]) + PiecesText(body[1..])
  }

  function AtomText(a: Atom): (s: string)
    ensures s != ""
  {
    match a case Lit(c) => [c] case Esc(c) => ['\\', c] case Class(body) => "[" + (PiecesText(body) + "]")
  }

  function AtomsText(body: seq<Atom>): string {
    if body == [] then "" else AtomText(body[0]) + AtomsText(body[1..])
  }

  function ItemText(item: Item): (s: string)
    ensures s != ""
    decreases item
  {
    match item
    case Plain(c) => [c]
    case Group(kind, items) => [Open(kind)] + (ItemsText(items) + [Close(kind)])
    case Quoted(q, body) => [q] + (PiecesText(body) + [q])
    case LineNote(note) => "//" + (note + "\n")
    case BlockNote(note) => "/*" + (note + "*/")
    case Template(parts) => "`" + (PartsText(parts) + "`")
    case Regex(body) => "/" + (AtomsText(body) + "/")
    case Broken(body) => "/" + (AtomsText(body) + "\n")
    case Divide => "/"
  }

  function ItemsText(items: seq<Item>): string
    decreases items
  {
    if items == [] then "" else ItemText(items[0]) + ItemsText(items[1..])
  }

  function PartText(part: Part): (s: string)
    ensures s != ""
    decreases part
  {
    match part
    case Words(p) => PieceText(p)
    case Hole(items) => "${" + (ItemsText(items) + "}")
  }

  function PartsText(parts: seq<Part>): string
    decreases parts
  {
    if parts == [] then "" else PartText(parts[0]) + PartsText(parts[1..])
  }

  // ---------------------------------------------------------------- which trees are meant

  ghost predicate PiecesMeant(body: seq<Piece>, quote: char) {
    forall p :: p in body && p.Raw? ==> p.c != quote && p.c != '\\'
  }

  ghost predicate NoBlockEnd(note: string) {
    forall k :: 0 <= k < |note| - 1 ==> !(note[k] == '*' && note[k + 1] == '/')
  }

  /** A literal's body: not empty, not the start of a comment, classes closed, and the slashes, brackets and
      backslashes of the expression only in classes or escapes. */
  ghost predicate RegexMeant(body: seq<Atom>) {
    && body != [] && body[0] != Lit('*')
    && AtomsMeant(body)
  }

  ghost predicate AtomsMeant(atoms: seq<Atom>) { forall a :: a in atoms ==> AtomMeant(a) }

  ghost predicate AtomMeant(a: Atom) {
    match a
    case Lit(c) => c != '\\' && c != '[' && c != '/' && c != '\n'
    case Esc(_) => true
    case Class(body) => forall p :: p in body && p.Raw? ==> p.c != ']' && p.c != '\\' && p.c != '\n'
  }

  // ---------------------------------------------------------------- a literal or a division

  /** The last sign before a slash, white space and comments aside; strings, templates, and literals are
      operands, like a letter. */
  function SignAfter(item: Item, sign: Option<char>): Option<char> {
    match item
    case Plain(c) => if IsSpace(c) then sign else Some(c)
    case Group(kind, _) => Some(Close(kind))
    case Quoted(_, _) => Some('x')
    case LineNote(_) => sign
    case BlockNote(_) => sign
    case Template(_) => Some('x')
    case Regex(_) => Some('x')
    case Broken(_) => Some('x')
    case Divide => Some('/')
  }

  function SignsAfter(items: seq<Item>, sign: Option<char>): Option<char>
    decreases |items|
  {
    if items == [] then sign else SignsAfter(items[1..], SignAfter(items[0], sign))
  }

  /** A sign after which an operand is due: an open bracket, a brace, or an operator other than a slash. */
  predicate AwaitsOperand(c: char) {
    || c == '(' || c == '[' || c == '{' || c == '}' || c == ',' || c == ';' || c == ':' || c == '?'
    || c == '=' || c == '!' || c == '&' || c == '|' || c == '+' || c == '-' || c == '*' || c == '%'
    || c == '~' || c == '^' || c == '<' || c == '>'
  }

  /** The words after which an operand is due. */
  predicate IsKeyword(w: string) {
    || w == "return" || w == "typeof" || w == "instanceof" || w == "in" || w == "of" || w == "new" || w == "delete"
    || w == "void" || w == "do" || w == "else" || w == "case" || w == "yield" || w == "await"
  }

  ghost predicate IsNameChar(c: char) { 'a' <= c <= 'z' || 'A' <= c <= 'Z' || '0' <= c <= '9' || c == '_' || c == '$' }

  /** The text ends in one of these words, standing alone, with not even a blank after it. */
  ghost predicate EndsInKeyword(before: string) {
    exists k :: 0 <= k <= |before| && IsKeyword(before[k..]) && (k == 0 || !IsNameChar(before[k - 1]))
  }

  /** A slash after this text opens a regular expression literal; elsewhere it divides. */
  ghost predicate LiteralDue(before: string, sign: Option<char>) {
    sign.None? || AwaitsOperand(sign.value) || EndsInKeyword(before)
  }

  // ---------------------------------------------------------------- the trees meant

  /** No brackets, quotes, backticks or slashes outside the constructs that own them; no construct holds
      its own terminator; a `$` of template text is not followed by a brace of text; literals, or slashes
      that their line's end shows to be none, stand where one is due, and divisions where none is, before
      something that makes no comment of them. */
  ghost predicate Meant(item: Item, before: string, sign: Option<char>)
    decreases item, 0
  {
    match item
    case Plain(c) => !IsOpener(c) && !IsCloser(c) && c != '\'' && c != '\"' && c != '`' && c != '/'
    case Group(kind, items) => AllMeant(items, before + [Open(kind)], Some(Open(kind)))
    case Quoted(q, body) => (q == '\'' || q == '\"') && PiecesMeant(body, q)
    case LineNote(note) => '\n' !in note
    case BlockNote(note) => NoBlockEnd(note)
    case Template(parts) => PartsMeant(parts, before + "`")
    case Regex(body) => RegexMeant(body) && LiteralDue(before, sign)
    case Broken(body) => RegexMeant(body) && LiteralDue(before, sign)
    case Divide => !LiteralDue(before, sign)
  }

  ghost predicate AllMeant(items: seq<Item>, before: string, sign: Option<char>)
    decreases items, 1
  {
    items == [] ||
    (&& Meant(items[0], before, sign)
     && (items[0].Divide? ==> |items| > 1 && ItemText(items[1])[0] != '/' && ItemText(items[1])[0] != '*')
     && AllMeant(items[1..], before + ItemText(items[0]), SignAfter(items[0], sign)))
  }

  ghost predicate PartsMeant(parts: seq<Part>, before: string)
    decreases parts, 1
  {
    if parts == [] then true else PartMeant(parts, before) && PartsMeant(parts[1..], before + PartText(parts[0]))
  }

  /** After `${` no literal is due: what precedes the slash is taken for an operand. */
  ghost predicate PartMeant(parts: seq<Part>, before: string)
    requires parts != []
    decreases parts, 0
  {
    match parts[0]
    case Words(Raw(c)) => c != '`' && c != '\\' && (c == '$' && |parts| > 1 ==> parts[1] != Words(Raw('{')))
    case Words(Escaped(_)) => true
    case Hole(items) => AllMeant(items, before + "${", Some('x'))
  }

  // ---------------------------------------------------------------- scripts with brackets missing or left over

  /** A well-nested stretch, or a bracket that nothing matches. */
  datatype Chunk = Nested(items: seq<Item>) | Stray(c: char)

  function ChunkText(x: Chunk): string { match x case Nested(items) => ItemsText(items) case Stray(c) => [c] }

  function ChunksText(chunks: seq<Chunk>): string {
    if chunks == [] then "" else ChunkText(chunks[0]) + ChunksText(chunks[1..])
  }

  function ChunkSign(x: Chunk, sign: Option<char>): Option<char> {
    match x case Nested(items) => SignsAfter(items, sign) case Stray(c) => Some(c)
  }

  ghost predicate ChunkMeant(x: Chunk, before: string, sign: Option<char>) {
    match x case Nested(items) => AllMeant(items, before, sign) case Stray(c) => IsOpener(c) || IsCloser(c)
  }

  ghost predicate ChunksMeant(chunks: seq<Chunk>, before: string, sign: Option<char>)
    decreases |chunks|
  {
    chunks == [] ||
    (&& ChunkMeant(chunks[0], before, sign)
     && ChunksMeant(chunks[1..], before + ChunkText(chunks[0]), ChunkSign(chunks[0], sign)))
  }

  /** Brackets never closed, less brackets never opened. */
  ghost function Balance(chunks: seq<Chunk>): int {
    if chunks == [] then 0
    else Balance(chunks[1..]) + (match chunks[0] case Nested(_) => 0 case Stray(c) => if IsOpener(c) then 1 else -1)
  }

  // ---------------------------------------------------------------- what a cut leaves open

  /** The scanner's answer when the code stops `k` characters into these items, entered at `depth`. */
  ghost function OpenAt(items: seq<Item>, k: nat, depth: int): int
    requires k <= |ItemsText(items)|
    decreases items
  {
    if items == [] || k == 0 then depth
    else
      var n := |ItemText(items[0])|;
      if k >= n then OpenAt(items[1..], k - n, depth) else OpenInside(items[0], k, depth)
  }

  ghost function OpenInside(item: Item, k: nat, depth: int): int
    requires 0 < k < |ItemText(item)|
    decreases item
  {
    match item
    case Group(_, items) => OpenAt(items, k - 1, depth + 1)
    case Template(parts) => OpenInTemplate(parts, k - 1, depth)
    case _ => depth
  }

  /** One in the text of a template, whatever is open around it. */
  ghost function OpenInTemplate(parts: seq<Part>, k: nat, depth: int): int
    requires k <= |PartsText(parts)|
    decreases parts
  {
    if parts == [] || k == 0 then 1
    else
      var n := |PartText(parts[0])|;
      if k >= n then OpenInTemplate(parts[1..], k - n, depth)
      else if parts[0].Words? || k == 1 then 1
      else OpenInHole(parts[0], k - 2, depth + 1)
  }

  ghost function OpenInHole(part: Part, k: nat, depth: int): int
    requires part.Hole? && k <= |ItemsText(part.items)|
    decreases part
  {
    OpenAt(part.items, k, depth)
  }

  /** The cut is strictly inside a bracket pair or a template. */
  ghost predicate CutInside(items: seq<Item>, k: nat)
    requires k <= |ItemsText(items)|
  {
    if items == [] || k == 0 then false
    else
      var n := |ItemText(items[0])|;
      if k >= n then CutInside(items[1..], k - n) else items[0].Group? || items[0].Template?
  }
}
