/**
 What colour each character of a line should have and where tokens should begin, one
 character at a time: comments and strings from the automaton, then numbers, then the
 words of what is left.

 Nothing here walks the line by lexemes; that the highlighter does is what its methods
 are proved against this.
 */
module Colouring {
  import opened Base
  import opened Syntax

  // ------------------------------------------------------------------------ the words

  function HasLower(u: Classes, s: string): bool {
    s != "" && (u.lowercase(s[0]) || HasLower(u, s[1..]))
  }

  lemma {:induction false} HasLowerAt(u: Classes, s: string)
    requires HasLower(u, s)
    ensures exists i :: 0 <= i < |s| && u.lowercase(s[i])
  {
    if u.lowercase(s[0]) {
    } else {
      HasLowerAt(u, s[1..]);
      var i :| 0 <= i < |s[1..]| && u.lowercase(s[1..][i]);
      assert u.lowercase(s[i + 1]);
    }
  }

  lemma {:induction false} LowerIsSeen(u: Classes, s: string, i: nat)
    requires i < |s| && u.lowercase(s[i])
    ensures HasLower(u, s)
  {
    if i > 0 { LowerIsSeen(u, s[1..], i - 1); }
  }

  function WordKind(u: Classes, lang: Lang, word: string): (k: Kind)
    ensures k.Keyword? || k.TypeName? || k.PlainText?
  {
    if word in Keywords(lang) then Keyword
    else if word != "" && u.uppercase(word[0]) && HasLower(u, word) then TypeName
    else PlainText
  }

  /** Where the word around a position starts and ends. */
  function WordStart(u: Classes, run: string, p: nat): (a: nat)
    requires p <= |run|
    ensures a <= p && (forall k :: a <= k < p ==> InWord(u, run[k])) && (a > 0 ==> !InWord(u, run[a - 1]))
  {
    if p > 0 && InWord(u, run[p - 1]) then WordStart(u, run, p - 1) else p
  }

  function WordEnd(u: Classes, run: string, p: nat): (b: nat)
    requires p <= |run|
    ensures p <= b <= |run| && (forall k :: p <= k < b ==> InWord(u, run[k])) && (b < |run| ==> !InWord(u, run[b]))
    decreases |run| - p
  {
    if p < |run| && InWord(u, run[p]) then WordEnd(u, run, p + 1) else p
  }

  /** A character of plain text takes the kind of the whole word it is in. */
  function KindAt(u: Classes, lang: Lang, run: string, p: nat): Kind
    requires p < |run|
  {
    if InWord(u, run[p]) then WordKind(u, lang, run[WordStart(u, run, p)..WordEnd(u, run, p)]) else PlainText
  }

  /** A character as the highlighter should leave it: its colour, and whether a token begins
      with it. */
  datatype Shade = Shade(kind: Kind, first: bool)

  /** In a stretch of text a token begins where the colour changes. */
  function ShadeIn(u: Classes, lang: Lang, run: string, p: nat): Shade
    requires p < |run|
  {
    Shade(KindAt(u, lang, run, p), p == 0 || KindAt(u, lang, run, p - 1) != KindAt(u, lang, run, p))
  }

  function RunShades(u: Classes, lang: Lang, run: string, n: nat): (ks: seq<Shade>)
    requires n <= |run|
    ensures |ks| == n
  {
    if n == 0 then [] else RunShades(u, lang, run, n - 1) + [ShadeIn(u, lang, run, n - 1)]
  }

  // ------------------------------------------------------------------------ the colours

  /** Neither comment nor string. */
  ghost predicate Coded(lang: Lang, inBlock: bool, line: string, p: nat)
    requires p < |line|
  {
    !InComment(lang, inBlock, line, p) && !InString(lang, inBlock, line, p)
  }

  /** In a number: a digit that no word runs into, or a number's character behind another. */
  ghost predicate InNumeral(u: Classes, lang: Lang, inBlock: bool, line: string, p: nat)
    requires p < |line|
  {
    && Coded(lang, inBlock, line, p) && InNumber(line[p])
    && (|| (p > 0 && InNumeral(u, lang, inBlock, line, p - 1))
        || (IsDigit(line[p]) && !(p > 0 && Coded(lang, inBlock, line, p - 1) && InWord(u, line[p - 1]))))
  }

  ghost predicate InText(u: Classes, lang: Lang, inBlock: bool, line: string, p: nat)
    requires p < |line|
  {
    Coded(lang, inBlock, line, p) && !InNumeral(u, lang, inBlock, line, p)
  }

  /** Where the stretch of text around a position starts and ends. */
  ghost function TextStart(u: Classes, lang: Lang, inBlock: bool, line: string, p: nat): (a: nat)
    requires p <= |line|
    ensures a <= p
  {
    if p > 0 && InText(u, lang, inBlock, line, p - 1) then TextStart(u, lang, inBlock, line, p - 1) else p
  }

  ghost function TextEnd(u: Classes, lang: Lang, inBlock: bool, line: string, p: nat): (b: nat)
    requires p <= |line|
    ensures p <= b <= |line|
    ensures p < |line| && InText(u, lang, inBlock, line, p) ==> p < b
    decreases |line| - p
  {
    if p < |line| && InText(u, lang, inBlock, line, p) then TextEnd(u, lang, inBlock, line, p + 1) else p
  }

  /** The colour of one character. */
  ghost function Colour(u: Classes, lang: Lang, inBlock: bool, line: string, p: nat): Kind
    requires p < |line|
  {
    if lang.Plain? then PlainText
    else if InComment(lang, inBlock, line, p) then Comment
    else if InString(lang, inBlock, line, p) then Str
    else if InNumeral(u, lang, inBlock, line, p) then Number
    else
      var a := TextStart(u, lang, inBlock, line, p);
      KindAt(u, lang, line[a..TextEnd(u, lang, inBlock, line, p)], p - a)
  }

  /** A comment or a string begins at `p`. */
  ghost predicate LexemeStarts(lang: Lang, inBlock: bool, line: string, p: nat)
    requires p < |line|
  {
    || (exists e: nat :: Opens(lang, inBlock, line, e) && MarkStart(lang, inBlock, line, e) == p)
    || (ModeAt(lang, inBlock, line, p).Code? && Quoting(ModeAt(lang, inBlock, line, p + 1)))
  }

  /** A token begins where the line does, where the colour changes, and where a comment or a
      string follows another. */
  ghost predicate Begins(u: Classes, lang: Lang, inBlock: bool, line: string, p: nat)
    requires p < |line|
  {
    || p == 0 || Colour(u, lang, inBlock, line, p - 1) != Colour(u, lang, inBlock, line, p)
    || (!lang.Plain? && LexemeStarts(lang, inBlock, line, p))
  }

  ghost function Shades(u: Classes, lang: Lang, inBlock: bool, line: string, n: nat): (ks: seq<Shade>)
    requires n <= |line|
    ensures |ks| == n
  {
    if n == 0 then []
    else
      Shades(u, lang, inBlock, line, n - 1)
      + [Shade(Colour(u, lang, inBlock, line, n - 1), Begins(u, lang, inBlock, line, n - 1))]
  }

  lemma CodeStartsNothing(lang: Lang, inBlock: bool, line: string, p: nat)
    requires p < |line| && Coded(lang, inBlock, line, p)
    ensures !LexemeStarts(lang, inBlock, line, p)
  {
    hide ModeAt, Mark;
    forall e: nat | Opens(lang, inBlock, line, e) ensures MarkStart(lang, inBlock, line, e) != p {
      MarkRead(lang, inBlock, line, e);
    }
  }

  /** No comment and no string starts within the mark of a comment. */
  lemma MarkStartsOnce(lang: Lang, inBlock: bool, line: string, e: nat, q: nat)
    requires Opens(lang, inBlock, line, e) && MarkStart(lang, inBlock, line, e) < q < e
    ensures !LexemeStarts(lang, inBlock, line, q)
  {
    hide ModeAt, Mark, MarkStart;
    MarkRead(lang, inBlock, line, e);
    forall f: nat | Opens(lang, inBlock, line, f) ensures MarkStart(lang, inBlock, line, f) != q {
      MarkRead(lang, inBlock, line, f);
    }
    assert q + 1 < e ==> ModeAt(lang, inBlock, line, q + 1).Code?;
  }

  /** A comment or a string starts at `i` and none within the rest up to `j`. */
  ghost predicate StartsOnce(lang: Lang, inBlock: bool, line: string, i: nat, j: nat) {
    && i < j <= |line| && LexemeStarts(lang, inBlock, line, i)
    && forall q :: i < q < j ==> !LexemeStarts(lang, inBlock, line, q)
  }

  lemma CommentStartsOnce(lang: Lang, inBlock: bool, line: string, e: nat, j: nat)
    requires Opens(lang, inBlock, line, e) && e <= j <= |line|
    requires forall q :: e <= q < j ==> Commenting(ModeAt(lang, inBlock, line, q))
    ensures var i := MarkStart(lang, inBlock, line, e); 0 <= i < e && StartsOnce(lang, inBlock, line, i, j)
  {
    hide ModeAt, Mark, MarkStart;
    MarkRead(lang, inBlock, line, e);
    var i := MarkStart(lang, inBlock, line, e);
    assert LexemeStarts(lang, inBlock, line, i);
    hide LexemeStarts;
    forall q | i < q < j ensures !LexemeStarts(lang, inBlock, line, q) {
      if q < e { MarkStartsOnce(lang, inBlock, line, e, q); } else { NoCodeNoStart(lang, inBlock, line, q); }
    }
  }

  lemma NoCodeNoStart(lang: Lang, inBlock: bool, line: string, p: nat)
    requires p < |line| && !ModeAt(lang, inBlock, line, p).Code?
    ensures !LexemeStarts(lang, inBlock, line, p)
  {
    hide ModeAt, Mark, MarkStart;
    forall e: nat | Opens(lang, inBlock, line, e) ensures MarkStart(lang, inBlock, line, e) != p {
      MarkRead(lang, inBlock, line, e);
    }
  }

  lemma StringStartsOnce(lang: Lang, inBlock: bool, line: string, i: nat, j: nat)
    requires i < j <= |line| && ModeAt(lang, inBlock, line, i).Code? && Quoting(ModeAt(lang, inBlock, line, i + 1))
    requires forall q :: i < q < j ==> Quoting(ModeAt(lang, inBlock, line, q))
    ensures StartsOnce(lang, inBlock, line, i, j)
  {
    hide ModeAt;
    assert LexemeStarts(lang, inBlock, line, i);
    hide LexemeStarts;
    forall q | i < q < j ensures !LexemeStarts(lang, inBlock, line, q) { NoCodeNoStart(lang, inBlock, line, q); }
  }

  /** A stretch of one colour with no start within: a token begins nowhere but in front. */
  lemma BeginsOnce(u: Classes, lang: Lang, inBlock: bool, line: string, i: nat, j: nat, k: Kind)
    requires i < j <= |line| && forall q :: i <= q < j ==> Colour(u, lang, inBlock, line, q) == k
    requires lang.Plain? || forall q :: i < q < j ==> !LexemeStarts(lang, inBlock, line, q)
    requires i == 0 || Colour(u, lang, inBlock, line, i - 1) != k
               || (!lang.Plain? && LexemeStarts(lang, inBlock, line, i))
    ensures forall q :: i <= q < j ==> (Begins(u, lang, inBlock, line, q) <==> q == i)
  {
    hide Colour, LexemeStarts;
  }

  // ------------------------------------------------------------ shading stretch by stretch

  /** A piece of one colour, which begins a token or goes on with one. */
  function Repeat(k: Kind, n: nat, first: bool): seq<Shade> { seq(n, i => Shade(k, first && i == 0)) }

  lemma RepeatOneMore(k: Kind, n: nat, first: bool)
    ensures n > 0 ==> Repeat(k, n, first) == Repeat(k, n - 1, first) + [Shade(k, first && n == 1)]
  {
  }

  lemma RepeatJoins(k: Kind, m: nat, n: nat, first: bool)
    ensures Repeat(k, m + n, first) == Repeat(k, m, first) + Repeat(k, n, first && m == 0)
  {
  }

  /** A stretch of one colour in which a token begins at the front and nowhere else. */
  lemma {:induction false} OneToken(u: Classes, lang: Lang, inBlock: bool, line: string, i: nat, j: nat, k: Kind)
    requires i <= j <= |line| && forall q :: i <= q < j ==> Colour(u, lang, inBlock, line, q) == k
    requires forall q :: i <= q < j ==> (Begins(u, lang, inBlock, line, q) <==> q == i)
    ensures Shades(u, lang, inBlock, line, j) == Shades(u, lang, inBlock, line, i) + Repeat(k, j - i, true)
  {
    hide Colour, Begins;
    if i < j {
      OneToken(u, lang, inBlock, line, i, j - 1, k);
      RepeatOneMore(k, j - i, true);
      Assoc(Shades(u, lang, inBlock, line, i), Repeat(k, j - 1 - i, true), [Shade(k, j - i == 1)]);
    } else {
      assert Shades(u, lang, inBlock, line, i) + Repeat(k, 0, true) == Shades(u, lang, inBlock, line, i);
    }
  }

  /** From `a` up to `b` there is text, and neither before nor behind. */
  ghost predicate WholeText(u: Classes, lang: Lang, inBlock: bool, line: string, a: nat, b: nat) {
    && a <= b <= |line| && (forall q :: a <= q < b ==> InText(u, lang, inBlock, line, q))
    && (a > 0 ==> !InText(u, lang, inBlock, line, a - 1)) && (b < |line| ==> !InText(u, lang, inBlock, line, b))
  }

  lemma {:induction false} TextStartIs(u: Classes, lang: Lang, inBlock: bool, line: string, a: nat, p: nat)
    requires a <= p <= |line| && (forall q :: a <= q < p ==> InText(u, lang, inBlock, line, q))
    requires a > 0 ==> !InText(u, lang, inBlock, line, a - 1)
    ensures TextStart(u, lang, inBlock, line, p) == a
  {
    hide InText;
    if a < p { TextStartIs(u, lang, inBlock, line, a, p - 1); }
  }

  lemma {:induction false} TextEndIs(u: Classes, lang: Lang, inBlock: bool, line: string, p: nat, b: nat)
    requires p <= b <= |line| && (forall q :: p <= q < b ==> InText(u, lang, inBlock, line, q))
    requires b < |line| ==> !InText(u, lang, inBlock, line, b)
    ensures TextEnd(u, lang, inBlock, line, p) == b
    decreases b - p
  {
    hide InText;
    if p < b { TextEndIs(u, lang, inBlock, line, p + 1, b); }
  }

  /** A stretch of text is shaded by its own words. */
  lemma {:induction false} TextShades(u: Classes, lang: Lang, inBlock: bool, line: string, a: nat, b: nat, n: nat)
    requires !lang.Plain? && WholeText(u, lang, inBlock, line, a, b) && a <= n <= b
    ensures Shades(u, lang, inBlock, line, n)
              == Shades(u, lang, inBlock, line, a) + RunShades(u, lang, line[a..b], n - a)
  {
    hide ShadeIn, InText, Colour, Begins;
    if a < n {
      TextShades(u, lang, inBlock, line, a, b, n - 1);
      TextShade(u, lang, inBlock, line, a, b, n - 1);
      var run := line[a..b];
      Assoc(Shades(u, lang, inBlock, line, a), RunShades(u, lang, run, n - 1 - a), [ShadeIn(u, lang, run, n - 1 - a)]);
    } else {
      assert Shades(u, lang, inBlock, line, a) + [] == Shades(u, lang, inBlock, line, a);
    }
  }

  lemma TextShade(u: Classes, lang: Lang, inBlock: bool, line: string, a: nat, b: nat, p: nat)
    requires !lang.Plain? && WholeText(u, lang, inBlock, line, a, b) && a <= p < b
    ensures Shade(Colour(u, lang, inBlock, line, p), Begins(u, lang, inBlock, line, p))
              == ShadeIn(u, lang, line[a..b], p - a)
  {
    assert b <= |line|;
    hide *;
    TextColour(u, lang, inBlock, line, a, b, p);
    TextBegins(u, lang, inBlock, line, a, b, line[a..b], p);
    ShadeOf(u, lang, line[a..b], p - a);
  }

  lemma ShadeOf(u: Classes, lang: Lang, run: string, p: nat)
    requires p < |run|
    ensures ShadeIn(u, lang, run, p)
            == Shade(KindAt(u, lang, run, p), p == 0 || KindAt(u, lang, run, p - 1) != KindAt(u, lang, run, p))
  {
  }

  /** Within a stretch of text a token begins where the kind of the words changes. */
  lemma TextBegins(u: Classes, lang: Lang, inBlock: bool, line: string, a: nat, b: nat, run: string, p: nat)
    requires !lang.Plain? && WholeText(u, lang, inBlock, line, a, b) && a <= p < b && run == line[a..b]
    ensures Begins(u, lang, inBlock, line, p)
            <==> p == a || KindAt(u, lang, run, p - 1 - a) != KindAt(u, lang, run, p - a)
  {
    hide Colour, KindAt, InText, Begins;
    TextBeginsOnChange(u, lang, inBlock, line, p);
    TextColour(u, lang, inBlock, line, a, b, p);
    if a < p {
      TextColour(u, lang, inBlock, line, a, b, p - 1);
    } else if a > 0 {
      NotText(u, lang, inBlock, line, a - 1);
      TextKind(u, lang, run, 0);
    }
  }

  lemma TextBeginsOnChange(u: Classes, lang: Lang, inBlock: bool, line: string, p: nat)
    requires !lang.Plain? && p < |line| && InText(u, lang, inBlock, line, p)
    ensures Begins(u, lang, inBlock, line, p)
            <==> p == 0 || Colour(u, lang, inBlock, line, p - 1) != Colour(u, lang, inBlock, line, p)
  {
    hide Colour, LexemeStarts, Coded, InNumeral;
    CodeStartsNothing(lang, inBlock, line, p);
  }

  lemma TextKind(u: Classes, lang: Lang, run: string, p: nat)
    requires p < |run|
    ensures var k := KindAt(u, lang, run, p); k.Keyword? || k.TypeName? || k.PlainText?
  {
    hide WordKind;
  }

  lemma NotText(u: Classes, lang: Lang, inBlock: bool, line: string, p: nat)
    requires !lang.Plain? && p < |line| && !InText(u, lang, inBlock, line, p)
    ensures var k := Colour(u, lang, inBlock, line, p); k.Comment? || k.Str? || k.Number?
  {
    hide InComment, InString, InNumeral;
  }

  lemma TextColour(u: Classes, lang: Lang, inBlock: bool, line: string, a: nat, b: nat, p: nat)
    requires !lang.Plain? && WholeText(u, lang, inBlock, line, a, b) && a <= p < b
    ensures Colour(u, lang, inBlock, line, p) == KindAt(u, lang, line[a..b], p - a)
  {
    hide KindAt, InComment, InString, InNumeral, TextStart, TextEnd;
    TextStartIs(u, lang, inBlock, line, a, p);
    TextEndIs(u, lang, inBlock, line, p, b);
    assert InText(u, lang, inBlock, line, p);
  }

  /** The characters of one whole word all get its kind; a token begins with a word unless
      it is plain and goes on from what stands before it. */
  lemma {:induction false} WholeWord(u: Classes, lang: Lang, run: string, a: nat, b: nat, n: nat)
    requires a <= n <= b <= |run| && forall k :: a <= k < b ==> InWord(u, run[k])
    requires (a > 0 ==> !InWord(u, run[a - 1])) && (b < |run| ==> !InWord(u, run[b]))
    ensures var k := WordKind(u, lang, run[a..b]);
            RunShades(u, lang, run, n) == RunShades(u, lang, run, a) + Repeat(k, n - a, a == 0 || !k.PlainText?)
    decreases n
  {
    hide WordKind, ShadeIn, Keywords;
    var k := WordKind(u, lang, run[a..b]);
    var first := a == 0 || !k.PlainText?;
    if n > a {
      WholeWord(u, lang, run, a, b, n - 1);
      InWholeWord(u, lang, run, a, b, n - 1);
      RepeatOneMore(k, n - a, first);
      Assoc(RunShades(u, lang, run, a), Repeat(k, n - 1 - a, first), [ShadeIn(u, lang, run, n - 1)]);
    } else {
      assert RunShades(u, lang, run, a) + Repeat(k, 0, first) == RunShades(u, lang, run, a);
    }
  }

  lemma InWholeWord(u: Classes, lang: Lang, run: string, a: nat, b: nat, p: nat)
    requires a <= p < b <= |run| && forall k :: a <= k < b ==> InWord(u, run[k])
    requires (a > 0 ==> !InWord(u, run[a - 1])) && (b < |run| ==> !InWord(u, run[b]))
    ensures var k := WordKind(u, lang, run[a..b]);
            ShadeIn(u, lang, run, p) == Shade(k, p == a && (a == 0 || !k.PlainText?))
  {
    hide WordKind, Keywords, InWord, WordStart, WordEnd;
    assert WordStart(u, run, p) == a && WordEnd(u, run, p) == b;
    assert p > a ==> WordStart(u, run, p - 1) == a && WordEnd(u, run, p - 1) == b;
  }
}
