/**
 What the tokens of a highlighted line look like, said of their texts alone: nothing here
 knows how a line is read.
 */
module TokenLaws {
  import opened Base
  import opened Strings
  import opened Syntax

  // ------------------------------------------------------------------------- words

  /** From `a` up to `b` there is a word, and it goes on on neither side. */
  predicate WordAt(u: Classes, s: string, a: nat, b: nat) {
    && a < b <= |s| && (forall k :: a <= k < b ==> InWord(u, s[k]))
    && (a > 0 ==> !InWord(u, s[a - 1])) && (b < |s| ==> !InWord(u, s[b]))
  }

  /** Not a keyword, and not capitalized with a lower-case letter in it. */
  predicate Unremarkable(u: Classes, lang: Lang, w: string) {
    && w !in Keywords(lang)
    && !(w != "" && u.uppercase(w[0]) && exists i :: 0 <= i < |w| && u.lowercase(w[i]))
  }

  ghost predicate PlainWords(u: Classes, lang: Lang, s: string) {
    forall a: nat, b: nat :: WordAt(u, s, a, b) ==> Unremarkable(u, lang, s[a..b])
  }

  /** No quote, no mark of a comment, and no digit that a word does not run into, the first
      character aside. */
  predicate PlainCharacters(u: Classes, lang: Lang, s: string) {
    forall k :: 0 <= k < |s| ==>
      !IsDelimiter(lang, s[k]) && NoMarkAt(lang, s, k) && (k > 0 && IsDigit(s[k]) ==> InWord(u, s[k - 1]))
  }

  // ----------------------------------------------------------------------- strings

  /** How many backslashes in a row stand right before `k`. */
  function Slashes(s: string, k: nat): nat
    requires k <= |s|
  {
    if k > 1 && s[k - 1] == '\\' then 1 + Slashes(s, k - 1) else 0
  }

  /** The quote that opened is here again, and not escaped. */
  predicate Ends(s: string, k: nat) {
    0 < k < |s| && s[k] == s[0] && Slashes(s, k) % 2 == 0
  }

  /** A string's text: the quote comes again, unescaped, at its end only; and there, unless it
      is the last of its line. */
  predicate StringText(s: string, last: bool) {
    && s != "" && (forall k: nat :: k + 1 < |s| ==> !Ends(s, k))
    && (last || Ends(s, |s| - 1))
  }

  // ---------------------------------------------------------------------- comments

  /** The block comment's text from `from` on is ended by its mark. */
  predicate Closed(lang: Lang, s: string, from: nat)
    requires HasBlock(lang)
  {
    from + |Close(lang)| <= |s| && HasMark(s, |s| - |Close(lang)|, Close(lang))
  }

  /** From `from` on the closing mark comes at the end only. */
  predicate BlockText(lang: Lang, s: string, from: nat)
    requires HasBlock(lang)
  {
    from <= |s| && forall k :: from <= k && k + |Close(lang)| < |s| ==> !HasMark(s, k, Close(lang))
  }

  /** Where what a block comment says begins: behind its mark, or at once when it was carried
      in from the line above. */
  function Body(lang: Lang, carried: bool): nat
    requires HasBlock(lang)
  {
    if carried then 0 else |Open(lang)|
  }

  predicate IsBlock(lang: Lang, s: string, carried: bool) {
    HasBlock(lang) && (carried || HasMark(s, 0, Open(lang)))
  }

  predicate CommentText(lang: Lang, s: string, carried: bool, last: bool) {
    if IsBlock(lang, s, carried) then
      BlockText(lang, s, Body(lang, carried)) && (last || Closed(lang, s, Body(lang, carried)))
    else LineComment(lang).Some? && HasMark(s, 0, LineComment(lang).value) && last
  }

  /** A block comment that its line does not end. */
  predicate Unclosed(lang: Lang, s: string, carried: bool) {
    IsBlock(lang, s, carried) && !Closed(lang, s, Body(lang, carried))
  }

  // ------------------------------------------------------------------------- lines

  predicate Textual(k: Kind) { k.PlainText? || k.Keyword? || k.TypeName? }

  /** A piece of text, on its own. */
  ghost predicate TextLaw(u: Classes, lang: Lang, t: Token) {
    && t.text != "" && PlainCharacters(u, lang, t.text)
    && if t.kind.PlainText? then PlainWords(u, lang, t.text) else !IsDigit(t.text[0])
  }

  /** One token, on its own; `carried` says that it goes on with a block comment of the line
      above, `last` that the line ends with it. */
  ghost predicate TokenLaw(u: Classes, lang: Lang, t: Token, carried: bool, last: bool) {
    match t.kind
    case Number => true
    case Str => StringText(t.text, last)
    case Comment => CommentText(lang, t.text, carried, last)
    case _ => TextLaw(u, lang, t)
  }

  /** Two tokens in a row: no word goes on from one into the other and plain text is not cut
      in two; plain text begins with a digit only behind a word, a number begins behind no
      word, and goes as far as it can. */
  predicate Next(u: Classes, s: Token, t: Token)
    requires t.text != ""
  {
    && s.text != ""
    && (Textual(s.kind) && (Textual(t.kind) || t.kind.Number?) ==>
          !(InWord(u, s.text[|s.text| - 1]) && InWord(u, t.text[0])))
    && (s.kind.PlainText? ==> !t.kind.PlainText?)
    && (t.kind.PlainText? && IsDigit(t.text[0]) ==> s.kind.Keyword? || s.kind.TypeName?)
    && (t.kind.Number? && Textual(s.kind) ==> !InWord(u, s.text[|s.text| - 1]))
    && (s.kind.Number? ==> !InNumber(t.text[0]))
  }

  predicate Follows(u: Classes, ts: seq<Token>, t: Token) {
    t.text != "" && if ts == [] then t.kind.PlainText? ==> !IsDigit(t.text[0]) else Next(u, ts[|ts| - 1], t)
  }

  /** The tokens of a line; `open` says that the line ends with the last. */
  ghost predicate Lawful(u: Classes, lang: Lang, carried: bool, ts: seq<Token>, open: bool) {
    && (forall i :: 0 <= i < |ts| ==> TokenLaw(u, lang, ts[i], carried && i == 0, open && i == |ts| - 1))
    && (forall i :: 0 <= i < |ts| ==> Follows(u, ts[..i], ts[i]))
  }

  /** Whether a line leaves a block comment open. */
  predicate LeavesOpen(lang: Lang, carried: bool, ts: seq<Token>) {
    if ts == [] then carried
    else
      ts[|ts| - 1].kind.Comment? && Unclosed(lang, ts[|ts| - 1].text, carried && |ts| == 1)
  }

  /** Whether the lines so far leave one open. */
  predicate Carried(lang: Lang, above: seq<seq<Token>>) {
    above != [] && LeavesOpen(lang, Carried(lang, above[..|above| - 1]), above[|above| - 1])
  }

  lemma LawfulGrows(u: Classes, lang: Lang, carried: bool, ts: seq<Token>, t: Token, open: bool)
    requires Lawful(u, lang, carried, ts, false)
    requires TokenLaw(u, lang, t, carried && ts == [], open) && Follows(u, ts, t)
    ensures Lawful(u, lang, carried, ts + [t], open)
  {
    hide TokenLaw, Follows;
    var us := ts + [t];
    forall i | 0 <= i < |us|
      ensures TokenLaw(u, lang, us[i], carried && i == 0, open && i == |us| - 1) && Follows(u, us[..i], us[i])
    {
      if i < |ts| { assert us[i] == ts[i] && us[..i] == ts[..i]; } else { assert us[..i] == ts; }
    }
  }

  lemma LawfulAtTheEnd(u: Classes, lang: Lang, carried: bool, ts: seq<Token>)
    requires Lawful(u, lang, carried, ts, false)
    ensures Lawful(u, lang, carried, ts, true)
  {
    hide Follows, TextLaw, BlockText, Closed, Ends;
    forall i | 0 <= i < |ts| ensures TokenLaw(u, lang, ts[i], carried && i == 0, i == |ts| - 1) {
      assert TokenLaw(u, lang, ts[i], carried && i == 0, false);
    }
  }

  // ------------------------------------------------------------------- flushing text

  /** From the token at `n` on there is nothing but text. */
  ghost predicate TextFrom(u: Classes, lang: Lang, ts: seq<Token>, n: nat) {
    && n <= |ts|
    && forall i :: n <= i < |ts| ==> Textual(ts[i].kind) && TextLaw(u, lang, ts[i]) && Follows(u, ts[..i], ts[i])
  }

  lemma TextGrows(u: Classes, lang: Lang, ts: seq<Token>, n: nat, t: Token)
    requires TextFrom(u, lang, ts, n) && Textual(t.kind) && TextLaw(u, lang, t) && Follows(u, ts, t)
    ensures TextFrom(u, lang, ts + [t], n)
  {
    hide TextLaw, Follows;
    var us := ts + [t];
    forall i | n <= i < |us| ensures Textual(us[i].kind) && TextLaw(u, lang, us[i]) && Follows(u, us[..i], us[i]) {
      if i < |ts| { assert us[i] == ts[i] && us[..i] == ts[..i]; } else { assert us[..i] == ts; }
    }
  }

  lemma TextIsLawful(u: Classes, lang: Lang, carried: bool, ts: seq<Token>, n: nat)
    requires TextFrom(u, lang, ts, n) && Lawful(u, lang, carried, ts[..n], false)
    ensures Lawful(u, lang, carried, ts, false)
  {
    hide TextLaw, Follows, StringText, CommentText;
    forall i | 0 <= i < |ts| ensures TokenLaw(u, lang, ts[i], carried && i == 0, false) && Follows(u, ts[..i], ts[i]) {
      if i < n { assert ts[..n][i] == ts[i] && ts[..n][..i] == ts[..i]; }
    }
  }

  /** Text to be flushed behind `ts`: nothing in it but words and what lies between them. */
  predicate Flushable(u: Classes, lang: Lang, ts: seq<Token>, run: string) {
    && PlainCharacters(u, lang, run)
    && (run != "" ==> !IsDigit(run[0]))
    && (run != "" && ts != [] ==>
          var s := ts[|ts| - 1]; s.text != "" && !Textual(s.kind) && (s.kind.Number? ==> !InNumber(run[0])))
  }

  /** Flushing has come to `run[a..]`: `plain`, from `x` on, is yet to be flushed. */
  ghost predicate Flushed(u: Classes, lang: Lang, before: seq<Token>, ts: seq<Token>, run: string, x: nat, a: nat) {
    && x <= a <= |run| && PlainWords(u, lang, run[x..a]) && TextFrom(u, lang, ts, |before|)
    && if x == 0 then ts == before
       else
         && ts != [] && ts[|ts| - 1].text != "" && (ts[|ts| - 1].kind.Keyword? || ts[|ts| - 1].kind.TypeName?)
         && (x < |run| ==> !InWord(u, run[x]))
  }

  lemma PieceIsPlain(u: Classes, lang: Lang, run: string, x: nat, a: nat)
    requires PlainCharacters(u, lang, run) && x <= a <= |run|
    ensures PlainCharacters(u, lang, run[x..a])
  {
    hide NoMarkAt, InWord, IsDelimiter;
    var s := run[x..a];
    forall k | 0 <= k < |s|
      ensures !IsDelimiter(lang, s[k]) && NoMarkAt(lang, s, k) && (k > 0 && IsDigit(s[k]) ==> InWord(u, s[k - 1]))
    {
      assert s[k] == run[x + k] && (k > 0 ==> s[k - 1] == run[x + k - 1]) && NoMarkAt(lang, run, x + k);
      NoMarkInPiece(lang, run, x, a, k);
    }
  }

  lemma NoMarkInPiece(lang: Lang, s: string, x: nat, a: nat, k: nat)
    requires x <= a <= |s| && NoMarkAt(lang, s, x + k)
    ensures NoMarkAt(lang, s[x..a], k)
  {
    hide HasMark;
    if HasBlock(lang) { MarkInPiece(s, x, a, k, Open(lang)); }
    if LineComment(lang).Some? { MarkInPiece(s, x, a, k, LineComment(lang).value); }
  }

  lemma SlashesBefore(s: string, n: nat, k: nat)
    requires k <= n <= |s|
    ensures Slashes(s[..n], k) == Slashes(s, k)
  {
  }

  /** A string's text, read off the line it starts. */
  lemma StringTextIs(s: string, n: nat, last: bool)
    requires 0 < n <= |s| && (forall k: nat :: k + 1 < n ==> !Ends(s, k)) && (last || Ends(s, n - 1))
    ensures StringText(s[..n], last)
  {
    forall k: nat | k < n ensures Ends(s[..n], k) <==> Ends(s, k) { SlashesBefore(s, n, k); }
  }

  /** A block comment's text, read off its line: it says its first from `from` on. */
  lemma BlockTextIs(lang: Lang, line: string, i: nat, from: nat, j: nat, closed: bool)
    requires HasBlock(lang) && i <= from <= j <= |line|
    requires forall k :: from <= k && k + |Close(lang)| < j ==> !HasMark(line, k, Close(lang))
    requires if closed then from + |Close(lang)| <= j && HasMark(line, j - |Close(lang)|, Close(lang))
             else forall k :: from <= k ==> !HasMark(line, k, Close(lang))
    ensures BlockText(lang, line[i..j], from - i) && (Closed(lang, line[i..j], from - i) <==> closed)
  {
    hide HasMark;
    var w, s := Close(lang), line[i..j];
    forall k | from - i <= k && k + |w| < |s| ensures !HasMark(s, k, w) {
      MarkInPiece(line, i, j, k, w);
      assert !HasMark(line, i + k, w);
    }
    if closed {
      MarkIsThere(s, |s| - |w|, w);
      MarkIsThere(line, j - |w|, w);
      assert s[|s| - |w|..] == line[j - |w|..j];
    } else if from - i + |w| <= |s| {
      MarkInPiece(line, i, j, |s| - |w|, w);
      assert !HasMark(line, i + (|s| - |w|), w);
    }
  }

  lemma MarkInPiece(s: string, x: nat, a: nat, k: nat, w: string)
    requires x <= a <= |s|
    ensures HasMark(s[x..a], k, w) ==> HasMark(s, x + k, w)
  {
    MarkIsThere(s[x..a], k, w);
    MarkIsThere(s, x + k, w);
    if k + |w| <= a - x {
      var p, q := s[x..a][k..k + |w|], s[x + k..x + k + |w|];
      assert forall d :: 0 <= d < |w| ==> p[d] == q[d];
    }
  }

  /** What is yet to be flushed makes a token. */
  lemma FlushPlain(u: Classes, lang: Lang, before: seq<Token>, ts: seq<Token>, run: string, x: nat, a: nat)
    requires Flushable(u, lang, before, run) && Flushed(u, lang, before, ts, run, x, a) && x < a
    ensures TextFrom(u, lang, ts + [Token(PlainText, run[x..a])], |before|)
  {
    hide PlainWords, InNumber, NoMarkAt, IsDelimiter;
    PieceIsPlain(u, lang, run, x, a);
    var t := Token(PlainText, run[x..a]);
    assert t.text[0] == run[x];
    assert Follows(u, ts, t);
    TextGrows(u, lang, ts, |before|, t);
  }

  /** A word that is a token of its own, behind the text before it. */
  lemma FlushWordToken(
    u: Classes, lang: Lang, before: seq<Token>, ts: seq<Token>, run: string, x: nat, a: nat, i: nat, kind: Kind)
    requires Flushable(u, lang, before, run) && Flushed(u, lang, before, ts, run, x, a)
    requires kind.Keyword? || kind.TypeName?
    requires WordAt(u, run, a, i)
    ensures var us := if x == a then ts else ts + [Token(PlainText, run[x..a])];
            Flushed(u, lang, before, us + [Token(kind, run[a..i])], run, i, i)
  {
    hide PlainWords, InNumber, NoMarkAt, IsDelimiter, InWord, TextFrom;
    var us := if x == a then ts else ts + [Token(PlainText, run[x..a])];
    if x < a { FlushPlain(u, lang, before, ts, run, x, a); }
    PieceIsPlain(u, lang, run, a, i);
    var t := Token(kind, run[a..i]);
    assert t.text[0] == run[a];
    assert !IsDigit(run[a]) by { if a > 0 { assert !InWord(u, run[a - 1]); } }
    assert x < a ==> run[x..a][a - x - 1] == run[a - 1];
    assert Follows(u, us, t);
    hide PlainCharacters, Follows;
    TextGrows(u, lang, us, |before|, t);
    NoWords(u, lang, run[i..i]);
  }

  lemma NoWords(u: Classes, lang: Lang, s: string)
    requires s == ""
    ensures PlainWords(u, lang, s)
  {
  }

  /** A word that is plain goes to the text before it. */
  lemma WordStaysPlain(u: Classes, lang: Lang, run: string, x: nat, a: nat, i: nat)
    requires x <= a && WordAt(u, run, a, i) && PlainWords(u, lang, run[x..a]) && Unremarkable(u, lang, run[a..i])
    ensures PlainWords(u, lang, run[x..i])
  {
    hide Unremarkable, InWord;
    var p, s := run[x..a], run[x..i];
    forall c: nat, d: nat | WordAt(u, s, c, d) ensures Unremarkable(u, lang, s[c..d]) {
      if d <= a - x {
        assert forall k :: 0 <= k < |p| ==> p[k] == s[k];
        assert WordAt(u, p, c, d) && p[c..d] == s[c..d];
      } else {
        assert s[a - x] == run[a] && InWord(u, s[d - 1]);
        assert a > x ==> s[a - x - 1] == run[a - 1];
        assert c == a - x;
        assert d == i - x;
        assert s[c..d] == run[a..i];
      }
    }
  }

  /** So does what lies between words. */
  lemma BetweenIsPlain(u: Classes, lang: Lang, run: string, x: nat, i: nat)
    requires x <= i < |run| && !InWord(u, run[i]) && PlainWords(u, lang, run[x..i])
    ensures PlainWords(u, lang, run[x..i + 1])
  {
    hide Unremarkable, InWord;
    var p, s := run[x..i], run[x..i + 1];
    forall c: nat, d: nat | WordAt(u, s, c, d) ensures Unremarkable(u, lang, s[c..d]) {
      assert s[i - x] == run[i] && InWord(u, s[d - 1]);
      assert forall k :: 0 <= k < |p| ==> p[k] == s[k];
      assert WordAt(u, p, c, d) && p[c..d] == s[c..d];
    }
  }
}
