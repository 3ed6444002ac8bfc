/**
 The languages of the source highlighter, and an automaton that reads one character at a
 time: in code, in a string, in a comment.

 The highlighter looks for whole marks at an index instead.  The lemmas here say that
 both see the same marks.  The Unicode character classes are parameters.
 */
module Syntax {
  import opened Base
  import opened Strings

  datatype Kind = PlainText | Comment | Str | Number | Keyword | TypeName

  datatype Token = Token(kind: Kind, text: string)

  datatype Lang = Rust | CLike | Python | Shell | Data | Markup | Plain

  datatype Classes = Classes(alphanumeric: char -> bool, uppercase: char -> bool, lowercase: char -> bool)

  // ------------------------------------------------------------------- the languages

  function LineComment(lang: Lang): Option<string> {
    match lang
    case Rust => Some("//")
    case CLike => Some("//")
    case Markup => None
    case Plain => None
    case _ => Some("#")
  }

  predicate HasBlock(lang: Lang) { lang.Rust? || lang.CLike? || lang.Markup? }

  function Open(lang: Lang): (s: string)
    requires HasBlock(lang)
    ensures s != ""
  {
    if lang.Markup? then "<!--" else "/*"
  }

  function Close(lang: Lang): (s: string)
    requires HasBlock(lang)
    ensures s != ""
  {
    if lang.Markup? then "-->" else "*/"
  }

  predicate IsDelimiter(lang: Lang, c: char) {
    match lang
    case Markup => false
    case Plain => false
    case Rust => c == '"'
    case _ => c == '"' || c == '\''
  }

  function Keywords(lang: Lang): seq<string> {
    match lang
    case Rust =>
      ["as", "async", "await", "break", "const", "continue", "crate", "dyn", "else", "enum", "extern", "false", "fn",
       "for", "if", "impl", "in", "let", "loop", "match", "mod", "move", "mut", "pub", "ref", "return", "self", "Self",
       "static", "struct", "super", "trait", "true", "type", "unsafe", "use", "where", "while"]
    case CLike =>
      ["abstract", "break", "case", "catch", "class", "const", "continue", "default", "defer", "delete", "do", "else",
       "enum", "export", "extends", "false", "final", "finally", "for", "func", "function", "go", "if", "implements",
       "import", "in", "instanceof", "interface", "let", "new", "null", "package", "private", "protected", "public",
       "return", "static", "struct", "super", "switch", "this", "throw", "true", "try", "type", "typeof", "var", "void",
       "while", "yield"]
    case Python =>
      ["and", "as", "assert", "async", "await", "break", "class", "continue", "def", "del", "elif", "else", "end",
       "except", "False", "finally", "for", "from", "global", "if", "import", "in", "is", "lambda", "nil", "None",
       "nonlocal", "not", "or", "pass", "raise", "require", "return", "self", "True", "try", "unless", "while", "with",
       "yield"]
    case Shell =>
      ["case", "do", "done", "elif", "else", "esac", "export", "fi", "for", "function", "if", "in", "local", "read",
       "return", "then", "until", "while"]
    case _ => []
  }

  predicate IsDigit(c: char) { '0' <= c <= '9' }

  predicate InNumber(c: char) {
    IsDigit(c) || 'a' <= c <= 'f' || 'A' <= c <= 'F' || c == '.' || c == '_' || c == 'x'
  }

  predicate InWord(u: Classes, c: char) { u.alphanumeric(c) || c == '_' }

  // -------------------------------------------------------------------- the automaton

  /** One character at a time: how much of an opening mark has been read, or of a closing
      one, or which quote is open and whether a backslash came last. */
  datatype Mode = Code(seen: nat) | Quoted(quote: char) | Escaped(quote: char) | ToEnd | Block(seen: nat)

  function Step(lang: Lang, m: Mode, c: char): Mode {
    match m
    case ToEnd => ToEnd
    case Escaped(q) => Quoted(q)
    case Quoted(q) => if c == '\\' then Escaped(q) else if c == q then Code(0) else Quoted(q)
    case Block(k) =>
      if lang.Markup? then
        if k == 2 && c == '>' then Code(0) else if c == '-' then (if k == 0 then Block(1) else Block(2)) else Block(0)
      else if k == 1 && c == '/' then Code(0)
      else if c == '*' then Block(1)
      else Block(0)
    case Code(k) =>
      if lang.Markup? then
        if c == '<' then Code(1)
        else if k == 1 && c == '!' then Code(2)
        else if k == 2 && c == '-' then Code(3)
        else if k == 3 && c == '-' then Block(0)
        else Code(0)
      else if lang.Rust? || lang.CLike? then
        if k == 1 && c == '*' then Block(0)
        else if k == 1 && c == '/' then ToEnd
        else if c == '/' then Code(1)
        else if IsDelimiter(lang, c) then Quoted(c)
        else Code(0)
      else if lang.Plain? then Code(0)
      else if c == '#' then ToEnd
      else if IsDelimiter(lang, c) then Quoted(c)
      else Code(0)
  }

  /** Before the first character: a block comment carried in from the line above, or code. */
  function Start(lang: Lang, inBlock: bool): Mode { if inBlock && HasBlock(lang) then Block(0) else Code(0) }

  /** What the automaton is reading before the character at `p`. */
  function ModeAt(lang: Lang, inBlock: bool, line: string, p: nat): Mode
    requires p <= |line|
  {
    if p == 0 then Start(lang, inBlock) else Step(lang, ModeAt(lang, inBlock, line, p - 1), line[p - 1])
  }

  /** Whether a line that starts in a block comment, or not, leaves one open. */
  function BlockAfter(lang: Lang, inBlock: bool, line: string): bool {
    if HasBlock(lang) then ModeAt(lang, inBlock, line, |line|).Block? else inBlock
  }

  function BlockAfterAll(lang: Lang, inBlock: bool, lines: seq<string>): bool {
    if lines == [] then inBlock
    else BlockAfter(lang, BlockAfterAll(lang, inBlock, lines[..|lines| - 1]), lines[|lines| - 1])
  }

  predicate Commenting(m: Mode) { m.Block? || m.ToEnd? }

  predicate Quoting(m: Mode) { m.Quoted? || m.Escaped? }

  /** The mark that opens a comment of either kind. */
  function Mark(lang: Lang, m: Mode): string {
    if m.Block? && HasBlock(lang) then Open(lang)
    else if m.ToEnd? && LineComment(lang).Some? then LineComment(lang).value
    else ""
  }

  /** The character before `e` completes the mark of a comment. */
  predicate Opens(lang: Lang, inBlock: bool, line: string, e: nat) {
    0 < e <= |line| && ModeAt(lang, inBlock, line, e - 1).Code? && Commenting(ModeAt(lang, inBlock, line, e))
  }

  /** Where the mark of the comment that opens before `e` begins. */
  function MarkStart(lang: Lang, inBlock: bool, line: string, e: nat): int
    requires e <= |line|
  {
    e - |Mark(lang, ModeAt(lang, inBlock, line, e))|
  }

  /** The character before `e` completes the mark that ends a block comment. */
  predicate Closes(lang: Lang, inBlock: bool, line: string, e: nat) {
    0 < e <= |line| && ModeAt(lang, inBlock, line, e - 1).Block? && ModeAt(lang, inBlock, line, e).Code?
  }

  /** The character at `p` is in a comment: the automaton is reading one, or the character
      belongs to the mark that opens one. */
  ghost predicate InComment(lang: Lang, inBlock: bool, line: string, p: nat)
    requires p < |line|
  {
    || Commenting(ModeAt(lang, inBlock, line, p))
    || exists e: nat :: Opens(lang, inBlock, line, e) && MarkStart(lang, inBlock, line, e) <= p < e
  }

  /** The character at `p` is in a string, its quotes included. */
  predicate InString(lang: Lang, inBlock: bool, line: string, p: nat)
    requires p < |line|
  {
    var m := ModeAt(lang, inBlock, line, p);
    Quoting(m) || (m.Code? && Quoting(ModeAt(lang, inBlock, line, p + 1)))
  }

  // ----------------------------------------------------------- marks as the automaton reads them

  lemma ModeStep(lang: Lang, inBlock: bool, line: string, p: nat)
    requires p < |line|
    ensures ModeAt(lang, inBlock, line, p + 1) == Step(lang, ModeAt(lang, inBlock, line, p), line[p])
  {
  }

  /** The character that takes the automaton to a mode, and the mode it was in. */
  lemma CameFrom(lang: Lang, inBlock: bool, line: string, p: nat)
    requires 0 < p <= |line|
    ensures var was, m, c := ModeAt(lang, inBlock, line, p - 1), ModeAt(lang, inBlock, line, p), line[p - 1];
            && (m.Code? && m.seen > 0 ==> was.Code?)
            && (lang.Markup? && m == Code(1) ==> c == '<')
            && (lang.Markup? && m == Code(2) ==> c == '!' && was == Code(1))
            && (lang.Markup? && m == Code(3) ==> c == '-' && was == Code(2))
            && (!lang.Markup? && m.Code? && m.seen > 0 ==> c == '/' && m.seen == 1 && (lang.Rust? || lang.CLike?))
            && (m.Block? && m.seen > 0 ==> was.Block? && c == if lang.Markup? then '-' else '*')
            && (lang.Markup? && m == Block(2) ==> was.seen > 0)
            && (m.Block? ==> m.seen <= 2)
  {
  }

  lemma NothingSeenAtStart(lang: Lang, inBlock: bool, line: string)
    ensures var m := ModeAt(lang, inBlock, line, 0); m == Code(0) || m == Block(0)
  {
  }

  /** A mark read in code, one character after another. */
  ghost predicate ReadInCode(lang: Lang, inBlock: bool, line: string, a: int, e: nat) {
    && 0 <= a < e <= |line|
    && forall q :: a <= q < e ==>
         ModeAt(lang, inBlock, line, q).Code? && (a < q ==> ModeAt(lang, inBlock, line, q) == Code(q - a))
  }

  /** Where a comment is opened its mark stands, and the automaton has read it in code. */
  lemma MarkRead(lang: Lang, inBlock: bool, line: string, e: nat)
    requires Opens(lang, inBlock, line, e)
    ensures var a := MarkStart(lang, inBlock, line, e);
            ReadInCode(lang, inBlock, line, a, e) && line[a..e] == Mark(lang, ModeAt(lang, inBlock, line, e))
  {
    hide ModeAt, Mark, Step, ReadInCode;
    match lang
    case Markup =>
      MarkupMarkRead(lang, inBlock, line, e);
      FourInCode(lang, inBlock, line, e);
    case Rust =>
      SlashMarkRead(lang, inBlock, line, e);
      TwoInCode(lang, inBlock, line, e);
    case CLike =>
      SlashMarkRead(lang, inBlock, line, e);
      TwoInCode(lang, inBlock, line, e);
    case _ =>
      NoBlock(lang);
      HashMarkRead(lang, inBlock, line, e);
      OneInCode(lang, inBlock, line, e);
  }

  lemma OneInCode(lang: Lang, inBlock: bool, line: string, e: nat)
    requires 1 <= e <= |line| && ModeAt(lang, inBlock, line, e - 1).Code?
    ensures ReadInCode(lang, inBlock, line, e - 1, e)
  {
    hide ModeAt;
  }

  lemma TwoInCode(lang: Lang, inBlock: bool, line: string, e: nat)
    requires 2 <= e <= |line| && ModeAt(lang, inBlock, line, e - 2).Code?
               && ModeAt(lang, inBlock, line, e - 1) == Code(1)
    ensures ReadInCode(lang, inBlock, line, e - 2, e)
  {
    hide ModeAt;
  }

  lemma FourInCode(lang: Lang, inBlock: bool, line: string, e: nat)
    requires 4 <= e <= |line| && ModeAt(lang, inBlock, line, e - 4).Code?
               && ModeAt(lang, inBlock, line, e - 3) == Code(1)
    requires ModeAt(lang, inBlock, line, e - 2) == Code(2) && ModeAt(lang, inBlock, line, e - 1) == Code(3)
    ensures ReadInCode(lang, inBlock, line, e - 4, e)
  {
    hide ModeAt;
  }

  lemma NoBlock(lang: Lang)
    ensures HasBlock(lang) <==> lang.Rust? || lang.CLike? || lang.Markup?
  {
  }

  lemma HashMarkRead(lang: Lang, inBlock: bool, line: string, e: nat)
    requires !HasBlock(lang) && Opens(lang, inBlock, line, e)
    ensures |Mark(lang, ModeAt(lang, inBlock, line, e))| == 1
    ensures line[e - 1..e] == Mark(lang, ModeAt(lang, inBlock, line, e))
  {
    hide ModeAt;
    ModeStep(lang, inBlock, line, e - 1);
    assert line[e - 1..e] == [line[e - 1]];
  }

  lemma SlashMarkRead(lang: Lang, inBlock: bool, line: string, e: nat)
    requires (lang.Rust? || lang.CLike?) && Opens(lang, inBlock, line, e)
    ensures e >= 2 && |Mark(lang, ModeAt(lang, inBlock, line, e))| == 2
    ensures line[e - 2..e] == Mark(lang, ModeAt(lang, inBlock, line, e))
    ensures ModeAt(lang, inBlock, line, e - 2).Code? && ModeAt(lang, inBlock, line, e - 1) == Code(1)
  {
    hide ModeAt;
    ModeStep(lang, inBlock, line, e - 1);
    assert ModeAt(lang, inBlock, line, e - 1) == Code(1);
    NothingSeenAtStart(lang, inBlock, line);
    CameFrom(lang, inBlock, line, e - 1);
    assert line[e - 2..e] == [line[e - 2], line[e - 1]];
  }

  lemma MarkupMarkRead(lang: Lang, inBlock: bool, line: string, e: nat)
    requires lang.Markup? && Opens(lang, inBlock, line, e)
    ensures e >= 4 && |Mark(lang, ModeAt(lang, inBlock, line, e))| == 4
    ensures line[e - 4..e] == Mark(lang, ModeAt(lang, inBlock, line, e))
    ensures ModeAt(lang, inBlock, line, e - 4).Code? && ModeAt(lang, inBlock, line, e - 3) == Code(1)
    ensures ModeAt(lang, inBlock, line, e - 2) == Code(2) && ModeAt(lang, inBlock, line, e - 1) == Code(3)
  {
    hide ModeAt;
    ModeStep(lang, inBlock, line, e - 1);
    assert ModeAt(lang, inBlock, line, e - 1) == Code(3);
    hide Step;
    NothingSeenAtStart(lang, inBlock, line);
    CameFrom(lang, inBlock, line, e - 1);
    CameFrom(lang, inBlock, line, e - 2);
    CameFrom(lang, inBlock, line, e - 3);
    assert line[e - 4..e] == [line[e - 4], line[e - 3], line[e - 2], line[e - 1]];
  }

  /** A closing mark read in a block comment, all but its first character counted. */
  ghost predicate ReadInBlock(lang: Lang, inBlock: bool, line: string, a: int, e: nat) {
    && 0 <= a < e <= |line|
    && forall q :: a < q < e ==> ModeAt(lang, inBlock, line, q).Block? && ModeAt(lang, inBlock, line, q).seen > 0
  }

  lemma CloseRead(lang: Lang, inBlock: bool, line: string, e: nat)
    requires HasBlock(lang) && Closes(lang, inBlock, line, e)
    ensures var a := e - |Close(lang)|; ReadInBlock(lang, inBlock, line, a, e) && line[a..e] == Close(lang)
  {
    hide ModeAt, Step, ReadInBlock;
    if lang.Markup? {
      MarkupCloseRead(lang, inBlock, line, e);
    } else {
      SlashCloseRead(lang, inBlock, line, e);
    }
  }

  lemma SlashCloseRead(lang: Lang, inBlock: bool, line: string, e: nat)
    requires HasBlock(lang) && !lang.Markup? && Closes(lang, inBlock, line, e)
    ensures ReadInBlock(lang, inBlock, line, e - 2, e) && line[e - 2..e] == "*/"
  {
    hide ModeAt;
    ModeStep(lang, inBlock, line, e - 1);
    NothingSeenAtStart(lang, inBlock, line);
    assert ModeAt(lang, inBlock, line, e - 1) == Block(1);
    CameFrom(lang, inBlock, line, e - 1);
    assert line[e - 2..e] == [line[e - 2], line[e - 1]];
  }

  lemma MarkupCloseRead(lang: Lang, inBlock: bool, line: string, e: nat)
    requires lang.Markup? && Closes(lang, inBlock, line, e)
    ensures ReadInBlock(lang, inBlock, line, e - 3, e) && line[e - 3..e] == "-->"
  {
    hide ModeAt;
    ModeStep(lang, inBlock, line, e - 1);
    NothingSeenAtStart(lang, inBlock, line);
    assert ModeAt(lang, inBlock, line, e - 1) == Block(2) && line[e - 1] == '>';
    hide Step;
    CameFrom(lang, inBlock, line, e - 1);
    CameFrom(lang, inBlock, line, e - 2);
    assert line[e - 3..e] == [line[e - 3], line[e - 2], line[e - 1]];
  }

  // --------------------------------------------------------- looking for marks at an index

  predicate HasMark(line: string, p: nat, w: string) { p <= |line| && StartsWith(line[p..], w) }

  lemma MarkIsThere(line: string, p: nat, w: string)
    ensures HasMark(line, p, w) <==> p + |w| <= |line| && line[p..p + |w|] == w
  {
    if p + |w| <= |line| { assert line[p..][..|w|] == line[p..p + |w|]; }
  }

  /** The automaton is in code at `p` and no mark that opens a comment straddles it, so
      what stands from there on can be read afresh. */
  ghost predicate Idle(lang: Lang, inBlock: bool, line: string, p: nat) {
    && p <= |line| && ModeAt(lang, inBlock, line, p).Code?
    && forall e: nat :: p < e && Opens(lang, inBlock, line, e) ==> p <= MarkStart(lang, inBlock, line, e)
  }

  lemma FreshIsIdle(lang: Lang, inBlock: bool, line: string, p: nat)
    requires p <= |line| && ModeAt(lang, inBlock, line, p) == Code(0)
    ensures Idle(lang, inBlock, line, p)
  {
    hide ModeAt, Mark;
    forall e: nat | p < e && Opens(lang, inBlock, line, e)
      ensures p <= MarkStart(lang, inBlock, line, e)
    {
      MarkRead(lang, inBlock, line, e);
    }
  }

  /** No comment opens at `p`. */
  predicate NoMarkAt(lang: Lang, line: string, p: nat) {
    && (HasBlock(lang) ==> !HasMark(line, p, Open(lang)))
    && (LineComment(lang).Some? ==> !HasMark(line, p, LineComment(lang).value))
  }

  lemma NoMarkNoComment(lang: Lang, inBlock: bool, line: string, p: nat)
    requires p < |line| && Idle(lang, inBlock, line, p) && NoMarkAt(lang, line, p)
    ensures !InComment(lang, inBlock, line, p)
    ensures forall e: nat :: p < e && Opens(lang, inBlock, line, e) ==> p < MarkStart(lang, inBlock, line, e)
  {
    hide ModeAt, HasMark;
    forall e: nat | p < e && Opens(lang, inBlock, line, e)
      ensures p < MarkStart(lang, inBlock, line, e)
    {
      MarkRead(lang, inBlock, line, e);
      MarkIsThere(line, p, Mark(lang, ModeAt(lang, inBlock, line, e)));
    }
  }

  /** A character that begins no comment and no string is code, and the next is read afresh. */
  lemma StaysInCode(lang: Lang, inBlock: bool, line: string, p: nat)
    requires p < |line| && Idle(lang, inBlock, line, p) && NoMarkAt(lang, line, p) && !IsDelimiter(lang, line[p])
    ensures !InComment(lang, inBlock, line, p) && !InString(lang, inBlock, line, p)
    ensures Idle(lang, inBlock, line, p + 1)
  {
    NoMarkNoComment(lang, inBlock, line, p);
    ModeStep(lang, inBlock, line, p);
    var m := ModeAt(lang, inBlock, line, p + 1);
    assert !Quoting(m);
    assert Opens(lang, inBlock, line, p + 1) == Commenting(m);
    hide ModeAt, Mark, Step;
    assert m.Code?;
  }

  /** A quote that begins no comment opens a string. */
  lemma QuoteOpens(lang: Lang, inBlock: bool, line: string, p: nat)
    requires p < |line| && Idle(lang, inBlock, line, p) && NoMarkAt(lang, line, p) && IsDelimiter(lang, line[p])
    ensures !InComment(lang, inBlock, line, p) && InString(lang, inBlock, line, p)
    ensures ModeAt(lang, inBlock, line, p + 1) == Quoted(line[p])
  {
    NoMarkNoComment(lang, inBlock, line, p);
    ModeStep(lang, inBlock, line, p);
  }

  lemma QuotingIsNoComment(lang: Lang, inBlock: bool, line: string, p: nat)
    requires p < |line| && Quoting(ModeAt(lang, inBlock, line, p))
    ensures !InComment(lang, inBlock, line, p) && InString(lang, inBlock, line, p)
  {
    hide ModeAt, Mark;
    forall e: nat | Opens(lang, inBlock, line, e) && p < e
      ensures p < MarkStart(lang, inBlock, line, e)
    {
      MarkRead(lang, inBlock, line, e);
    }
  }

  /** A mark that opens a block comment is read as one. */
  lemma BlockOpens(lang: Lang, inBlock: bool, line: string, p: nat)
    requires HasBlock(lang) && Idle(lang, inBlock, line, p) && HasMark(line, p, Open(lang))
    ensures var e := p + |Open(lang)|;
            && e <= |line| && ModeAt(lang, inBlock, line, e) == Block(0)
            && Opens(lang, inBlock, line, e) && MarkStart(lang, inBlock, line, e) == p
            && forall q :: p <= q < e ==> InComment(lang, inBlock, line, q)
  {
    MarkIsThere(line, p, Open(lang));
    var e := p + |Open(lang)|;
    assert line[p..e][0] == line[p] && line[p..e][1] == line[p + 1];
    FirstOfMark(lang, inBlock, line, p);
    if lang.Markup? {
      assert line[p..e][2] == line[p + 2] && line[p..e][3] == line[p + 3];
      ModeStep(lang, inBlock, line, p + 1);
      ModeStep(lang, inBlock, line, p + 2);
      ModeStep(lang, inBlock, line, p + 3);
    } else {
      ModeStep(lang, inBlock, line, p + 1);
    }
    hide ModeAt, HasMark, Idle;
    assert Opens(lang, inBlock, line, e) && MarkStart(lang, inBlock, line, e) == p;
  }

  /** The first character of a mark of several is counted as the first. */
  lemma FirstOfMark(lang: Lang, inBlock: bool, line: string, p: nat)
    requires p < |line| && HasBlock(lang) && Idle(lang, inBlock, line, p) && line[p] == Open(lang)[0]
    ensures ModeAt(lang, inBlock, line, p + 1) == Code(1)
  {
    ModeStep(lang, inBlock, line, p);
    hide ModeAt;
    assert Opens(lang, inBlock, line, p + 1) == Commenting(ModeAt(lang, inBlock, line, p + 1));
  }

  /** The mark of a line comment is read as one, and nothing ends it. */
  lemma LineOpens(lang: Lang, inBlock: bool, line: string, p: nat)
    requires LineComment(lang).Some? && Idle(lang, inBlock, line, p) && HasMark(line, p, LineComment(lang).value)
    ensures var e := p + |LineComment(lang).value|;
            && p < e <= |line| && Opens(lang, inBlock, line, e) && MarkStart(lang, inBlock, line, e) == p
            && forall q :: e <= q <= |line| ==> ModeAt(lang, inBlock, line, q) == ToEnd
    ensures forall q :: p <= q < |line| ==> InComment(lang, inBlock, line, q)
  {
    LineMarkRead(lang, inBlock, line, p);
    hide ModeAt, HasMark, Idle;
    var e := p + |LineComment(lang).value|;
    assert MarkStart(lang, inBlock, line, e) == p;
    forall q | e <= q <= |line| ensures ModeAt(lang, inBlock, line, q) == ToEnd {
      ToEndStays(lang, inBlock, line, e, q);
    }
  }

  lemma LineMarkRead(lang: Lang, inBlock: bool, line: string, p: nat)
    requires LineComment(lang).Some? && Idle(lang, inBlock, line, p) && HasMark(line, p, LineComment(lang).value)
    ensures var e := p + |LineComment(lang).value|;
            p < e <= |line| && Opens(lang, inBlock, line, e) && ModeAt(lang, inBlock, line, e) == ToEnd
  {
    var e := p + |LineComment(lang).value|;
    MarkIsThere(line, p, LineComment(lang).value);
    assert line[p..e][0] == line[p];
    if HasBlock(lang) {
      assert line[p..e][1] == line[p + 1];
      FirstOfMark(lang, inBlock, line, p);
      ModeStep(lang, inBlock, line, p + 1);
    } else {
      ModeStep(lang, inBlock, line, p);
    }
    hide ModeAt, HasMark;
  }

  lemma {:induction false} ToEndStays(lang: Lang, inBlock: bool, line: string, p: nat, q: nat)
    requires p <= q <= |line| && ModeAt(lang, inBlock, line, p) == ToEnd
    ensures ModeAt(lang, inBlock, line, q) == ToEnd
  {
    if p < q { ToEndStays(lang, inBlock, line, p, q - 1); }
  }

  /** The automaton is in a block comment at `p` and no mark that ends one straddles it. */
  ghost predicate Deep(lang: Lang, inBlock: bool, line: string, p: nat)
    requires HasBlock(lang)
  {
    && p <= |line| && ModeAt(lang, inBlock, line, p).Block?
    && forall e: nat :: p < e && Closes(lang, inBlock, line, e) ==> p <= e - |Close(lang)|
  }

  lemma FreshIsDeep(lang: Lang, inBlock: bool, line: string, p: nat)
    requires HasBlock(lang) && p <= |line| && ModeAt(lang, inBlock, line, p) == Block(0)
    ensures Deep(lang, inBlock, line, p)
  {
    hide ModeAt, Close;
    forall e: nat | p < e && Closes(lang, inBlock, line, e) ensures p <= e - |Close(lang)| {
      CloseRead(lang, inBlock, line, e);
    }
  }

  /** A character that begins no closing mark stays in the comment. */
  lemma StaysInBlock(lang: Lang, inBlock: bool, line: string, p: nat)
    requires HasBlock(lang) && p < |line| && Deep(lang, inBlock, line, p) && !HasMark(line, p, Close(lang))
    ensures Deep(lang, inBlock, line, p + 1)
  {
    ModeStep(lang, inBlock, line, p);
    assert Closes(lang, inBlock, line, p + 1) == ModeAt(lang, inBlock, line, p + 1).Code?;
    hide ModeAt, HasMark;
    forall e: nat | p + 1 < e && Closes(lang, inBlock, line, e) ensures p + 1 <= e - |Close(lang)| {
      CloseRead(lang, inBlock, line, e);
      MarkIsThere(line, p, Close(lang));
    }
  }

  /** A closing mark ends the comment, and is the last of it. */
  lemma BlockCloses(lang: Lang, inBlock: bool, line: string, p: nat)
    requires HasBlock(lang) && Deep(lang, inBlock, line, p) && HasMark(line, p, Close(lang))
    ensures var e := p + |Close(lang)|;
            && e <= |line| && ModeAt(lang, inBlock, line, e) == Code(0)
            && forall q :: p <= q < e ==> ModeAt(lang, inBlock, line, q).Block?
  {
    var w := Close(lang);
    MarkIsThere(line, p, w);
    var e := p + |w|;
    assert forall d :: 0 <= d < |w| ==> line[p..e][d] == line[p + d];
    ModeStep(lang, inBlock, line, p);
    ModeStep(lang, inBlock, line, p + 1);
    if lang.Markup? { ModeStep(lang, inBlock, line, p + 2); }
    hide ModeAt;
  }

  /** A character of a number is code, and nothing is pending behind it. */
  lemma NumberIsCode(lang: Lang, inBlock: bool, line: string, p: nat)
    requires p < |line| && ModeAt(lang, inBlock, line, p).Code? && InNumber(line[p])
    ensures !InComment(lang, inBlock, line, p) && !InString(lang, inBlock, line, p)
    ensures ModeAt(lang, inBlock, line, p + 1) == Code(0)
  {
    ModeStep(lang, inBlock, line, p);
    hide ModeAt;
    forall e: nat | Opens(lang, inBlock, line, e) && p < e
      ensures p < MarkStart(lang, inBlock, line, e)
    {
      MarkRead(lang, inBlock, line, e);
      MarkIsNoNumber(lang, ModeAt(lang, inBlock, line, e));
      InPiece(line, MarkStart(lang, inBlock, line, e), e, p);
    }
  }

  lemma InPiece(line: string, a: nat, e: nat, p: nat)
    requires a <= e <= |line|
    ensures a <= p < e ==> line[a..e][p - a] == line[p]
  {
  }

  lemma MarkIsNoNumber(lang: Lang, m: Mode)
    ensures forall d :: 0 <= d < |Mark(lang, m)| ==> !InNumber(Mark(lang, m)[d])
  {
  }
}
