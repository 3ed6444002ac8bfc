/**
 The highlighter itself: an index walking a line, runs of plain text flushed as
 words, and one flag carried from line to line.
 */
module Highlighter {
  import opened Base
  import opened Colouring
  import opened Syntax
  import opened TokenLaws

  function Joined(ts: seq<Token>): string {
    if ts == [] then "" else Joined(ts[..|ts| - 1]) + ts[|ts| - 1].text
  }

  /** What a token of each kind looks like. */
  predicate Plausible(u: Classes, lang: Lang, t: Token) {
    t.text != "" &&
    match t.kind
    case Keyword => t.text in Keywords(lang)
    case TypeName =>
      t.text !in Keywords(lang) && u.uppercase(t.text[0])
      && (exists i :: 0 <= i < |t.text| && u.lowercase(t.text[i]))
      && forall i :: 0 <= i < |t.text| ==> InWord(u, t.text[i])
    case Number => IsDigit(t.text[0]) && forall i :: 0 <= i < |t.text| ==> InNumber(t.text[i])
    case Str => IsDelimiter(lang, t.text[0])
    case _ => true
  }

  predicate AllPlausible(u: Classes, lang: Lang, ts: seq<Token>) {
    forall i :: 0 <= i < |ts| ==> Plausible(u, lang, ts[i])
  }

  lemma JoinedAppend(ts: seq<Token>, t: Token)
    ensures Joined(ts + [t]) == Joined(ts) + t.text
  {
    assert (ts + [t])[..|ts|] == ts;
  }

  // ------------------------------------------------------------- what the tokens colour

  /** How each character of the tokens is left. */
  function Shaded(ts: seq<Token>): seq<Shade> {
    if ts == [] then [] else Shaded(ts[..|ts| - 1]) + Repeat(ts[|ts| - 1].kind, |ts[|ts| - 1].text|, true)
  }

  lemma NoShades(u: Classes, lang: Lang, run: string, ks: seq<Shade>)
    ensures ks + Repeat(PlainText, 0, true) == ks + RunShades(u, lang, run, 0)
  {
  }

  // --------------------------------------------------------------------- the loops

  lemma ShadedAppend(ts: seq<Token>, t: Token)
    ensures Shaded(ts + [t]) == Shaded(ts) + Repeat(t.kind, |t.text|, true)
  {
    assert (ts + [t])[..|ts|] == ts;
  }

  lemma {:induction false} ShadedLength(ts: seq<Token>)
    ensures |Shaded(ts)| == |Joined(ts)|
  {
    if ts != [] { ShadedLength(ts[..|ts| - 1]); }
  }

  lemma SpellsNothing(ts: seq<Token>)
    requires forall i :: 0 <= i < |ts| ==> ts[i].text != ""
    ensures Joined(ts) == "" <==> ts == []
  {
  }

  /** What the tokens spell and how their characters are left leave one choice of tokens. */
  lemma {:induction false} TokensAreDetermined(a: seq<Token>, b: seq<Token>)
    requires forall i :: 0 <= i < |a| ==> a[i].text != ""
    requires forall i :: 0 <= i < |b| ==> b[i].text != ""
    requires Joined(a) == Joined(b) && Shaded(a) == Shaded(b)
    ensures a == b
  {
    hide Joined, Shaded;
    SpellsNothing(a);
    SpellsNothing(b);
    if a != [] && b != [] {
      var a', x, b', y := a[..|a| - 1], a[|a| - 1], b[..|b| - 1], b[|b| - 1];
      assert a == a' + [x] && b == b' + [y];
      LastIsDetermined(a', x, b', y);
      TokensAreDetermined(a', b');
    }
  }

  lemma LastIsDetermined(a: seq<Token>, x: Token, b: seq<Token>, y: Token)
    requires x.text != "" && y.text != ""
    requires Joined(a + [x]) == Joined(b + [y]) && Shaded(a + [x]) == Shaded(b + [y])
    ensures x == y && Joined(a) == Joined(b) && Shaded(a) == Shaded(b)
  {
    LastBegins(a, x);
    LastBegins(b, y);
    JoinedAppend(a, x);
    JoinedAppend(b, y);
    hide *;
    var m, n := |Joined(a)|, |Joined(b)|;
    assert Shaded(a + [x])[m].first && Shaded(b + [y])[n].first;
    assert m == n;
    assert (Joined(a) + x.text)[..m] == Joined(a) && (Joined(b) + y.text)[..m] == Joined(b);
    assert (Joined(a) + x.text)[m..] == x.text && (Joined(b) + y.text)[m..] == y.text;
  }

  /** The last token begins at its first character and at none behind that. */
  lemma LastBegins(ts: seq<Token>, t: Token)
    requires t.text != ""
    ensures |Shaded(ts)| == |Joined(ts)| && |Shaded(ts + [t])| == |Joined(ts)| + |t.text|
    ensures Shaded(ts + [t])[|Joined(ts)|] == Shade(t.kind, true)
    ensures forall i :: |Joined(ts)| < i < |Shaded(ts + [t])| ==> !Shaded(ts + [t])[i].first
    ensures Shaded(ts + [t])[..|Joined(ts)|] == Shaded(ts)
  {
    ShadedLength(ts);
    ShadedAppend(ts, t);
  }

  method Push(out: seq<Token>, kind: Kind, text: string) returns (r: seq<Token>)
    ensures r == if text == "" then out else out + [Token(kind, text)]
    ensures Joined(r) == Joined(out) + text
    ensures Shaded(r) == Shaded(out) + Repeat(kind, |text|, true)
  {
    JoinedAppend(out, Token(kind, text));
    ShadedAppend(out, Token(kind, text));
    r := if text == "" then out else out + [Token(kind, text)];
  }

  /** A finished word goes to the plain text, or is a token of its own behind it. */
  function Flush(u: Classes, lang: Lang, out: seq<Token>, plain: string, word: string): (seq<Token>, string) {
    var kind := WordKind(u, lang, word);
    if word == "" || kind.PlainText? then (out, plain + word)
    else ((if plain == "" then out else out + [Token(PlainText, plain)]) + [Token(kind, word)], "")
  }

  method FlushWord(u: Classes, lang: Lang, out: seq<Token>, plain: string, word: string)
    returns (out': seq<Token>, plain': string)
    requires AllPlausible(u, lang, out)
    requires forall i :: 0 <= i < |word| ==> InWord(u, word[i])
    ensures AllPlausible(u, lang, out') && out <= out'
    ensures Joined(out') + plain' == Joined(out) + plain + word
    ensures var k := WordKind(u, lang, word);
            Shaded(out') + Repeat(PlainText, |plain'|, true)
            == Shaded(out) + Repeat(PlainText, |plain|, true) + Repeat(k, |word|, plain == "" || !k.PlainText?)
    ensures plain' == "" <==> (if word == "" then plain == "" else !WordKind(u, lang, word).PlainText?)
    ensures (out', plain') == Flush(u, lang, out, plain, word)
  {
    hide Keywords, Joined, Shaded, WordKind, Repeat;
    out', plain' := out, plain;
    var kind := WordKind(u, lang, word);
    if word == "" {
      NoRepeat(kind, plain == "" || !kind.PlainText?);
      assert Shaded(out) + Repeat(PlainText, |plain|, true) + [] == Shaded(out) + Repeat(PlainText, |plain|, true);
      assert plain + word == plain;
      return;
    }
    if kind.PlainText? {
      plain' := plain + word;
      RepeatJoins(PlainText, |plain|, |word|, true);
      Assoc(Shaded(out), Repeat(PlainText, |plain|, true), Repeat(kind, |word|, plain == ""));
    } else {
      out' := Push(out, PlainText, plain);
      PushedPlausible(u, lang, out, Token(PlainText, plain));
      ghost var flushed := out';
      plain' := "";
      WordIsPlausible(u, lang, word);
      out' := Push(out', kind, word);
      PushedPlausible(u, lang, flushed, Token(kind, word));
      NoRepeat(PlainText, true);
      assert Shaded(out') + [] == Shaded(out');
    }
  }

  lemma NoRepeat(k: Kind, first: bool)
    ensures Repeat(k, 0, first) == []
  {
  }

  lemma WordIsPlausible(u: Classes, lang: Lang, word: string)
    requires word != "" && forall i :: 0 <= i < |word| ==> InWord(u, word[i])
    ensures Plausible(u, lang, Token(WordKind(u, lang, word), word))
  {
    hide Keywords;
    if WordKind(u, lang, word).TypeName? { HasLowerAt(u, word); }
  }

  /** A character between words is plain, and goes on from plain text. */
  lemma Between(u: Classes, lang: Lang, run: string, i: nat, before: seq<Shade>, after: seq<Shade>, n: nat)
    requires i < |run| && !InWord(u, run[i])
    requires n == 0 <==> i == 0 || !KindAt(u, lang, run, i - 1).PlainText?
    requires after + Repeat(PlainText, n, true) == before + RunShades(u, lang, run, i)
    ensures after + Repeat(PlainText, n + 1, true) == before + RunShades(u, lang, run, i + 1)
  {
    hide WordKind;
    RepeatOneMore(PlainText, n + 1, true);
    Assoc(after, Repeat(PlainText, n, true), [Shade(PlainText, n == 0)]);
    Assoc(before, RunShades(u, lang, run, i), [Shade(PlainText, n == 0)]);
  }

  /** The kind of the last character of a word, or of one between words. */
  lemma LastKind(u: Classes, lang: Lang, run: string, a: nat, i: nat)
    requires a <= i <= |run| && 0 < i && (i < |run| ==> !InWord(u, run[i])) && (a > 0 ==> !InWord(u, run[a - 1]))
    requires forall k :: a <= k < i ==> InWord(u, run[k])
    ensures KindAt(u, lang, run, i - 1) == if a < i then WordKind(u, lang, run[a..i]) else PlainText
  {
    hide WordKind;
    if a < i { InWholeWord(u, lang, run, a, i, i - 1); }
  }

  /** Split accumulated text into words and what lies between them.  The tokens are the
      text, and each character is coloured by the whole word it is part of. */
  method FlushRun(u: Classes, lang: Lang, out: seq<Token>, run: string) returns (r: seq<Token>)
    requires AllPlausible(u, lang, out)
    ensures AllPlausible(u, lang, r) && out <= r
    ensures Joined(r) == Joined(out) + run && (run == "" ==> r == out)
    ensures Shaded(r) == Shaded(out) + RunShades(u, lang, run, |run|)
    ensures Flushable(u, lang, out, run) ==> TextFrom(u, lang, r, |out|)
  {
    hide Keywords, Joined, AllPlausible, Shaded, WordKind, Repeat, RunShades, KindAt, Flushable, Flushed, TextFrom,
      InWord, Plausible;
    r := out;
    var word, plain := "", "";
    ghost var a: nat, x: nat := 0, 0;
    NoShades(u, lang, run, Shaded(out));
    NothingFlushed(u, lang, out, run);
    for i := 0 to |run|
      invariant AllPlausible(u, lang, r) && out <= r
      invariant Joined(r) + plain + word == Joined(out) + run[..i]
      invariant 0 <= a <= i && word == run[a..i] && (forall k :: a <= k < i ==> InWord(u, run[k]))
      invariant a > 0 ==> !InWord(u, run[a - 1])
      invariant plain == "" <==> a == 0
      invariant Shaded(r) + Repeat(PlainText, |plain|, true) == Shaded(out) + RunShades(u, lang, run, a)
      invariant x <= a && plain == run[x..a] && (i == 0 ==> r == out)
      invariant Flushable(u, lang, out, run) ==> Flushed(u, lang, out, r, run, x, a)
    {
      assert run[..i + 1] == run[..i] + [run[i]];
      if InWord(u, run[i]) {
        Assoc(Joined(r) + plain, word, [run[i]]);
        word := word + [run[i]];
      } else {
        r, plain, x := FinishWord(u, lang, out, r, plain, word, run, x, a, i);
        if i > 0 { LastKind(u, lang, run, a, i); }
        BetweenWords(u, lang, out, r, run, plain, x, i);
        word, plain, a := "", plain + [run[i]], i + 1;
      }
    }
    assert run[..|run|] == run;
    r, plain, x := FinishWord(u, lang, out, r, plain, word, run, x, a, |run|);
    ghost var flushed := r;
    AllFlushed(u, lang, out, r, run, x);
    r := Push(r, PlainText, plain);
    if plain != "" { PlainIsPlausible(u, lang, flushed, plain); }
  }

  lemma PlainIsPlausible(u: Classes, lang: Lang, ts: seq<Token>, plain: string)
    requires AllPlausible(u, lang, ts) && plain != ""
    ensures AllPlausible(u, lang, ts + [Token(PlainText, plain)])
  {
    hide Keywords;
  }

  /** Flush a gathered word, which is `run[a..i]`. */
  method FinishWord(
    u: Classes, lang: Lang, ghost before: seq<Token>, out: seq<Token>, plain: string, word: string,
    ghost run: string, ghost x: nat, ghost a: nat, ghost i: nat)
    returns (out': seq<Token>, plain': string, ghost x': nat)
    requires x <= a <= i <= |run| && plain == run[x..a] && word == run[a..i]
    requires AllPlausible(u, lang, out) && (plain == "" <==> a == 0)
    requires forall k :: a <= k < i ==> InWord(u, run[k])
    requires (a > 0 ==> !InWord(u, run[a - 1])) && (i < |run| ==> !InWord(u, run[i]))
    requires Shaded(out) + Repeat(PlainText, |plain|, true) == Shaded(before) + RunShades(u, lang, run, a)
    ensures AllPlausible(u, lang, out') && out <= out'
    ensures Joined(out') + plain' == Joined(out) + plain + word
    ensures Shaded(out') + Repeat(PlainText, |plain'|, true) == Shaded(before) + RunShades(u, lang, run, i)
    ensures plain' == "" <==> (if a == i then a == 0 else !WordKind(u, lang, word).PlainText?)
    ensures x' <= i && plain' == run[x'..i] && (i == 0 ==> out' == out)
    ensures Flushable(u, lang, before, run) && Flushed(u, lang, before, out, run, x, a) ==>
              Flushed(u, lang, before, out', run, x', i)
  {
    hide Keywords, Joined, AllPlausible, Shaded, WordKind, Repeat, RunShades, Flushable, Flushed, InWord;
    ghost var k := WordKind(u, lang, word);
    WholeWord(u, lang, run, a, i, i);
    Assoc(Shaded(before), RunShades(u, lang, run, a), Repeat(k, |word|, a == 0 || !k.PlainText?));
    out', plain' := FlushWord(u, lang, out, plain, word);
    x' := if a == i || k.PlainText? then x else i;
    assert run[x..i] == plain + word;
    if Flushable(u, lang, before, run) && Flushed(u, lang, before, out, run, x, a) {
      FlushIsLawful(u, lang, before, out, run, x, a, i);
    }
  }

  /** Flushing a word keeps the laws of text. */
  lemma FlushIsLawful(
    u: Classes, lang: Lang, before: seq<Token>, ts: seq<Token>, run: string, x: nat, a: nat, i: nat)
    requires Flushable(u, lang, before, run) && Flushed(u, lang, before, ts, run, x, a) && a <= i <= |run|
    requires forall k :: a <= k < i ==> InWord(u, run[k])
    requires (a > 0 ==> !InWord(u, run[a - 1])) && (i < |run| ==> !InWord(u, run[i]))
    ensures x <= a
    ensures Flushed(u, lang, before, Flush(u, lang, ts, run[x..a], run[a..i]).0, run,
                    if a == i || WordKind(u, lang, run[a..i]).PlainText? then x else i, i)
  {
    hide Flushable, TextFrom, PlainWords, Keywords, InWord;
    var word := run[a..i];
    var k := WordKind(u, lang, word);
    if a < i {
      if k.PlainText? {
        PlainIsUnremarkable(u, lang, word);
        hide Unremarkable;
        WordStaysPlain(u, lang, run, x, a, i);
      } else {
        hide WordKind;
        FlushWordToken(u, lang, before, ts, run, x, a, i, k);
      }
    }
  }

  /** A character between words goes to the text yet to be flushed. */
  lemma BetweenWords(
    u: Classes, lang: Lang, before: seq<Token>, ts: seq<Token>, run: string, plain: string, x: nat, i: nat)
    requires x <= i < |run| && !InWord(u, run[i]) && plain == run[x..i]
    requires plain == "" <==> i == 0 || !KindAt(u, lang, run, i - 1).PlainText?
    requires Joined(ts) + plain == Joined(before) + run[..i]
    requires Shaded(ts) + Repeat(PlainText, |plain|, true) == Shaded(before) + RunShades(u, lang, run, i)
    ensures plain + [run[i]] == run[x..i + 1] && Joined(ts) + (plain + [run[i]]) == Joined(before) + run[..i + 1]
    ensures Shaded(ts) + Repeat(PlainText, |plain| + 1, true) == Shaded(before) + RunShades(u, lang, run, i + 1)
    ensures Flushed(u, lang, before, ts, run, x, i) ==> Flushed(u, lang, before, ts, run, x, i + 1)
  {
    hide *;
    Between(u, lang, run, i, Shaded(before), Shaded(ts), |plain|);
    FlushedFurther(u, lang, before, ts, run, x, i);
    Assoc(Joined(ts), plain, [run[i]]);
    Assoc(Joined(before), run[..i], [run[i]]);
    assert run[..i + 1] == run[..i] + [run[i]];
  }

  lemma PlainIsUnremarkable(u: Classes, lang: Lang, word: string)
    requires WordKind(u, lang, word).PlainText?
    ensures Unremarkable(u, lang, word)
  {
    hide Keywords;
    if i :| 0 <= i < |word| && u.lowercase(word[i]) { LowerIsSeen(u, word, i); }
  }

  lemma NothingFlushed(u: Classes, lang: Lang, out: seq<Token>, run: string)
    ensures Flushed(u, lang, out, out, run, 0, 0) && run[0..0] == ""
  {
    NoWords(u, lang, run[0..0]);
  }

  lemma FlushedFurther(u: Classes, lang: Lang, before: seq<Token>, ts: seq<Token>, run: string, x: nat, i: nat)
    requires i < |run| && !InWord(u, run[i])
    ensures Flushed(u, lang, before, ts, run, x, i) ==> Flushed(u, lang, before, ts, run, x, i + 1)
  {
    hide TextFrom, PlainWords, InWord;
    if Flushed(u, lang, before, ts, run, x, i) { BetweenIsPlain(u, lang, run, x, i); }
  }

  /** What is left goes out as plain text. */
  lemma AllFlushed(u: Classes, lang: Lang, before: seq<Token>, ts: seq<Token>, run: string, x: nat)
    requires Flushable(u, lang, before, run) ==> Flushed(u, lang, before, ts, run, x, |run|)
    requires x <= |run|
    ensures var plain := run[x..|run|];
            Flushable(u, lang, before, run) ==>
              TextFrom(u, lang, if plain == "" then ts else ts + [Token(PlainText, plain)], |before|)
  {
    hide Flushable, TextFrom, PlainWords, InWord;
    if Flushable(u, lang, before, run) && x < |run| { FlushPlain(u, lang, before, ts, run, x, |run|); }
  }

  lemma PushedPlausible(u: Classes, lang: Lang, ts: seq<Token>, t: Token)
    requires AllPlausible(u, lang, ts)
    ensures Plausible(u, lang, t) ==> AllPlausible(u, lang, ts + [t])
  {
  }

  /** From inside a block comment to behind its close, or to the end of the line. */
  method ScanBlock(lang: Lang, ghost inBlock: bool, line: string, from: nat) returns (j: nat, closed: bool)
    requires HasBlock(lang) && Deep(lang, inBlock, line, from)
    ensures from <= j <= |line| && (closed ==> j > from) && (!closed ==> j == |line|)
    ensures forall q :: from <= q < j ==>
              InComment(lang, inBlock, line, q) && Commenting(ModeAt(lang, inBlock, line, q))
    ensures if closed then ModeAt(lang, inBlock, line, j) == Code(0) else ModeAt(lang, inBlock, line, j).Block?
    ensures forall k :: from <= k && k + |Close(lang)| < j ==> !HasMark(line, k, Close(lang))
    ensures if closed then from + |Close(lang)| <= j && HasMark(line, j - |Close(lang)|, Close(lang))
            else forall k :: from <= k ==> !HasMark(line, k, Close(lang))
  {
    hide ModeAt, HasMark;
    j := from;
    while j < |line|
      invariant from <= j <= |line| && Deep(lang, inBlock, line, j)
      invariant forall k :: from <= k < j ==> !HasMark(line, k, Close(lang))
      invariant forall q :: from <= q < j ==> ModeAt(lang, inBlock, line, q).Block?
    {
      if HasMark(line, j, Close(lang)) {
        BlockCloses(lang, inBlock, line, j);
        j := j + |Close(lang)|;
        return j, true;
      }
      StaysInBlock(lang, inBlock, line, j);
      j := j + 1;
    }
    closed := false;
    forall k | |line| <= k ensures !HasMark(line, k, Close(lang)) { MarkIsThere(line, k, Close(lang)); }
  }

  /** From an opening quote to behind its close, or to the end of the line. */
  method ScanString(lang: Lang, ghost inBlock: bool, line: string, from: nat) returns (j: nat)
    requires from < |line| && ModeAt(lang, inBlock, line, from + 1) == Quoted(line[from])
    requires IsDelimiter(lang, line[from])
    ensures from < j <= |line| && StringText(line[from..j], j == |line|)
    ensures forall q :: from < q < j ==> Quoting(ModeAt(lang, inBlock, line, q))
    ensures j < |line| ==> ModeAt(lang, inBlock, line, j) == Code(0)
    ensures !Commenting(ModeAt(lang, inBlock, line, j))
  {
    hide ModeAt, Step, StringText, IsDelimiter, Ends, Slashes;
    QuoteIsNoBackslash(lang, line[from]);
    var q := line[from];
    j := from + 1;
    ghost var s := line[from..];
    SlashesStep(s, 0);
    while j < |line|
      invariant from < j <= |line| + 1
      invariant forall k: nat :: k < j - from && k < |s| ==> !Ends(s, k)
      invariant j <= |line| ==> Slashes(s, j - from) % 2 == 0
      invariant forall k :: from < k < j && k <= |line| ==> Quoting(ModeAt(lang, inBlock, line, k))
      invariant j <= |line| ==> ModeAt(lang, inBlock, line, j) == Quoted(q)
      decreases |line| - j
    {
      QuotedStep(lang, inBlock, line, j);
      SlashesStep(s, j - from);
      if line[j] == '\\' {
        if j + 1 < |line| {
          QuotedStep(lang, inBlock, line, j + 1);
          SlashesStep(s, j + 1 - from);
        }
        j := j + 2;
        continue;
      }
      if line[j] == q {
        j := j + 1;
        StringIs(line, from, j);
        return;
      }
      j := j + 1;
    }
    j := |line|;
    StringIs(line, from, j);
  }

  lemma QuoteIsNoBackslash(lang: Lang, c: char)
    ensures IsDelimiter(lang, c) ==> c != '\\'
  {
  }

  lemma QuotedStep(lang: Lang, inBlock: bool, line: string, p: nat)
    requires p < |line| && Quoting(ModeAt(lang, inBlock, line, p))
    ensures var m, c := ModeAt(lang, inBlock, line, p), line[p];
            ModeAt(lang, inBlock, line, p + 1)
              == if m.Quoted? && c == '\\' then Escaped(m.quote) else if m.Quoted? && c == m.quote then Code(0)
                 else Quoted(m.quote)
  {
    ModeStep(lang, inBlock, line, p);
  }

  lemma SlashesStep(s: string, k: nat)
    requires k < |s|
    ensures Slashes(s, k + 1) == if k > 0 && s[k] == '\\' then Slashes(s, k) + 1 else 0
    ensures Ends(s, k) <==> k > 0 && s[k] == s[0] && Slashes(s, k) % 2 == 0
  {
  }

  lemma StringIs(line: string, from: nat, j: nat)
    requires from < j <= |line| && var s := line[from..];
             (forall k: nat :: k < j - from - 1 ==> !Ends(s, k)) && (j == |line| || Ends(s, j - from - 1))
    ensures StringText(line[from..j], j == |line|)
  {
    StringTextIs(line[from..], j - from, j == |line|);
    assert line[from..][..j - from] == line[from..j];
  }

  /** From a digit to behind the last character a number can hold. */
  method ScanNumber(lang: Lang, ghost inBlock: bool, line: string, from: nat) returns (j: nat)
    requires from < |line| && IsDigit(line[from]) && ModeAt(lang, inBlock, line, from).Code?
    ensures from < j <= |line| && (j < |line| ==> !InNumber(line[j]))
    ensures forall q :: from <= q < j ==> InNumber(line[q]) && Coded(lang, inBlock, line, q)
    ensures ModeAt(lang, inBlock, line, j) == Code(0)
  {
    hide ModeAt, InComment, InString;
    j := from;
    while j < |line| && InNumber(line[j])
      invariant from <= j <= |line| && ModeAt(lang, inBlock, line, j).Code?
      invariant j > from ==> ModeAt(lang, inBlock, line, j) == Code(0)
      invariant forall q :: from <= q < j ==> InNumber(line[q]) && Coded(lang, inBlock, line, q)
    {
      NumberIsCode(lang, inBlock, line, j);
      j := j + 1;
    }
  }

  /** How far one lexeme other than plain text reaches, if one starts here. */
  datatype Lexeme = NoLexeme | Lexeme(kind: Kind, end: nat, opens: bool)

  /** The lexeme is what the automaton reads there, to its end. */
  ghost predicate Reads(lang: Lang, inBlock: bool, line: string, i: nat, inWord: bool, x: Lexeme)
    requires i < |line|
  {
    match x
    case NoLexeme =>
      Coded(lang, inBlock, line, i) && Idle(lang, inBlock, line, i + 1) && (IsDigit(line[i]) ==> inWord)
    case Lexeme(kind, end, opens) =>
      && i < end <= |line| && (end < |line| ==> Idle(lang, inBlock, line, end))
      && (opens ==> end == |line| && HasBlock(lang)) && (ModeAt(lang, inBlock, line, end).Block? <==> opens)
      && match kind
         case Comment =>
           StartsOnce(lang, inBlock, line, i, end) && forall q :: i <= q < end ==> InComment(lang, inBlock, line, q)
         case Str =>
           && IsDelimiter(lang, line[i]) && StartsOnce(lang, inBlock, line, i, end)
           && forall q :: i <= q < end ==> !InComment(lang, inBlock, line, q) && InString(lang, inBlock, line, q)
         case Number =>
           && IsDigit(line[i]) && !inWord && (end < |line| ==> !InNumber(line[end]))
           && forall q :: i <= q < end ==> InNumber(line[q]) && Coded(lang, inBlock, line, q)
         case _ => false
  }

  /** What the lexeme looks like, or the character that begins none. */
  predicate Spells(lang: Lang, line: string, i: nat, inWord: bool, x: Lexeme)
    requires i < |line|
  {
    match x
    case NoLexeme => !IsDelimiter(lang, line[i]) && NoMarkAt(lang, line, i) && (IsDigit(line[i]) ==> inWord)
    case Lexeme(kind, end, opens) =>
      && i < end <= |line|
      && (kind.Str? ==> StringText(line[i..end], end == |line|))
      && (kind.Comment? ==> CommentText(lang, line[i..end], false, end == |line|))
      && (opens <==> kind.Comment? && Unclosed(lang, line[i..end], false))
  }

  /** The lexeme at an index: a comment, a string or a number; `inWord` says the text
      before it is the middle of a word. */
  method Lex(lang: Lang, ghost inBlock: bool, line: string, i: nat, inWord: bool) returns (r: Lexeme)
    requires !lang.Plain? && i < |line| && Idle(lang, inBlock, line, i)
    ensures Reads(lang, inBlock, line, i, inWord, r) && Spells(lang, line, i, inWord, r)
  {
    hide ModeAt, InComment, InString, HasMark, StartsOnce, MarkStart, Opens, Deep, Idle, StringText, CommentText,
      Unclosed, IsDelimiter, InNumber;
    IdleIsCode(lang, inBlock, line, i);
    if HasBlock(lang) && HasMark(line, i, Open(lang)) {
      BlockOpens(lang, inBlock, line, i);
      FreshIsDeep(lang, inBlock, line, i + |Open(lang)|);
      var j, closed := ScanBlock(lang, inBlock, line, i + |Open(lang)|);
      if closed { FreshIsIdle(lang, inBlock, line, j); }
      CommentStartsOnce(lang, inBlock, line, i + |Open(lang)|, j);
      BlockSpells(lang, line, i, j, closed, inWord);
      return Lexeme(Comment, j, !closed);
    }
    if LineComment(lang).Some? && HasMark(line, i, LineComment(lang).value) {
      LineOpens(lang, inBlock, line, i);
      CommentStartsOnce(lang, inBlock, line, i + |LineComment(lang).value|, |line|);
      LineSpells(lang, line, i, inWord);
      return Lexeme(Comment, |line|, false);
    }
    if IsDelimiter(lang, line[i]) {
      QuoteOpens(lang, inBlock, line, i);
      var j := ScanString(lang, inBlock, line, i);
      forall q | i <= q < j ensures !InComment(lang, inBlock, line, q) && InString(lang, inBlock, line, q) {
        if q > i { QuotingIsNoComment(lang, inBlock, line, q); }
      }
      if j < |line| { FreshIsIdle(lang, inBlock, line, j); }
      StringStartsOnce(lang, inBlock, line, i, j);
      return Lexeme(Str, j, false);
    }
    if IsDigit(line[i]) && !inWord {
      var j := ScanNumber(lang, inBlock, line, i);
      FreshIsIdle(lang, inBlock, line, j);
      return Lexeme(Number, j, false);
    }
    StaysInCode(lang, inBlock, line, i);
    r := NoLexeme;
  }

  lemma IdleIsCode(lang: Lang, inBlock: bool, line: string, i: nat)
    requires Idle(lang, inBlock, line, i)
    ensures i <= |line| && ModeAt(lang, inBlock, line, i).Code?
  {
  }

  lemma MarkInFront(line: string, i: nat, j: nat, w: string)
    requires i + |w| <= j <= |line| && HasMark(line, i, w)
    ensures HasMark(line[i..j], 0, w)
  {
    MarkIsThere(line, i, w);
    MarkIsThere(line[i..j], 0, w);
    assert line[i..j][0..|w|] == line[i..i + |w|];
  }

  lemma BlockSpells(lang: Lang, line: string, i: nat, j: nat, closed: bool, inWord: bool)
    requires HasBlock(lang) && i < |line| && HasMark(line, i, Open(lang)) && i + |Open(lang)| <= j <= |line|
    requires var w := Close(lang); forall k :: i + |Open(lang)| <= k && k + |w| < j ==> !HasMark(line, k, w)
    requires var w, from := Close(lang), i + |Open(lang)|;
             if closed then from + |w| <= j && HasMark(line, j - |w|, w)
             else j == |line| && forall k :: from <= k ==> !HasMark(line, k, w)
    ensures Spells(lang, line, i, inWord, Lexeme(Comment, j, !closed))
  {
    hide BlockText, Closed, HasMark;
    BlockTextIs(lang, line, i, i + |Open(lang)|, j, closed);
    MarkInFront(line, i, j, Open(lang));
  }

  lemma LineSpells(lang: Lang, line: string, i: nat, inWord: bool)
    requires LineComment(lang).Some? && i < |line| && HasMark(line, i, LineComment(lang).value)
    requires HasBlock(lang) ==> !HasMark(line, i, Open(lang))
    ensures Spells(lang, line, i, inWord, Lexeme(Comment, |line|, false))
  {
    hide BlockText, Closed, HasMark;
    MarkIsThere(line, i, LineComment(lang).value);
    MarkInFront(line, i, |line|, LineComment(lang).value);
    if HasBlock(lang) { MarkInPiece(line, i, |line|, 0, Open(lang)); }
  }

  lemma LexemeIsPlausible(u: Classes, lang: Lang, inBlock: bool, line: string, i: nat, inWord: bool, x: Lexeme)
    requires i < |line| && x.Lexeme? && Reads(lang, inBlock, line, i, inWord, x)
    ensures Plausible(u, lang, Token(x.kind, line[i..x.end]))
  {
    hide InComment, InString, Idle;
  }

  // ------------------------------------------------------------------ text and lexemes

  /** The loop is between lexemes at `i`: what it has gathered since `a` is text. */
  ghost predicate Gathered(u: Classes, lang: Lang, inBlock: bool, line: string, a: nat, i: nat) {
    && a <= i <= |line| && (forall q :: a <= q < i ==> InText(u, lang, inBlock, line, q))
    && (a > 0 ==> !InText(u, lang, inBlock, line, a - 1))
    && (a == i && 0 < i < |line| ==>
          Coded(lang, inBlock, line, i - 1) ==> InNumeral(u, lang, inBlock, line, i - 1) && !InNumber(line[i]))
  }

  /** The gathered text ends in the middle of a word. */
  predicate MidWord(u: Classes, line: string, a: nat, i: nat)
    requires a <= i <= |line|
  {
    a < i && InWord(u, line[i - 1])
  }

  lemma MidWordIs(u: Classes, line: string, a: nat, i: nat)
    requires a <= i <= |line|
    ensures MidWord(u, line, a, i) <==> line[a..i] != "" && InWord(u, line[a..i][i - a - 1])
  {
  }

  lemma TextGoesOn(u: Classes, lang: Lang, inBlock: bool, line: string, a: nat, i: nat)
    requires i < |line| && Gathered(u, lang, inBlock, line, a, i)
    requires Reads(lang, inBlock, line, i, MidWord(u, line, a, i), NoLexeme)
    ensures Gathered(u, lang, inBlock, line, a, i + 1) && Idle(lang, inBlock, line, i + 1)
    ensures ModeAt(lang, inBlock, line, i + 1).Code?
  {
    assert Idle(lang, inBlock, line, i + 1);
    hide InComment, InString, ModeAt;
    assert ModeAt(lang, inBlock, line, i + 1).Code?;
    hide Idle;
    assert a < i ==> InText(u, lang, inBlock, line, i - 1);
    assert IsDigit(line[i]) ==> MidWord(u, line, a, i);
    if i > 0 {
      if InNumeral(u, lang, inBlock, line, i - 1) { assert a == i && !InNumber(line[i]); }
    }
    assert InText(u, lang, inBlock, line, i);
  }

  /** A lexeme ends the text before it, and begins none behind it. */
  lemma LexemeGoesBy(u: Classes, lang: Lang, inBlock: bool, line: string, a: nat, i: nat, x: Lexeme)
    requires !lang.Plain? && i < |line| && Gathered(u, lang, inBlock, line, a, i)
    requires x.Lexeme? && Reads(lang, inBlock, line, i, MidWord(u, line, a, i), x)
    ensures WholeText(u, lang, inBlock, line, a, i)
    ensures Gathered(u, lang, inBlock, line, x.end, x.end)
    ensures i < x.end <= |line|
    ensures x.end < |line| ==> Idle(lang, inBlock, line, x.end) && !ModeAt(lang, inBlock, line, x.end).Block?
    ensures (x.opens ==> x.end == |line| && HasBlock(lang)) && (ModeAt(lang, inBlock, line, x.end).Block? <==> x.opens)
    ensures forall q :: i <= q < x.end ==> Colour(u, lang, inBlock, line, q) == x.kind
    ensures forall q :: i <= q < x.end ==> (Begins(u, lang, inBlock, line, q) <==> q == i)
  {
    hide InComment, InString, Idle, ModeAt, LexemeStarts, Begins, Colour;
    LexemeColour(u, lang, inBlock, line, a, i, x);
    if x.kind.Number? {
      hide InNumeral, InText, Gathered;
      forall q | i <= q < x.end ensures !LexemeStarts(lang, inBlock, line, q) {
        CodeStartsNothing(lang, inBlock, line, q);
      }
      if i > 0 { NumeralIsNew(u, lang, inBlock, line, a, i); }
      BeginsOnce(u, lang, inBlock, line, i, x.end, x.kind);
    } else {
      hide InNumeral, InText, Gathered;
      BeginsOnce(u, lang, inBlock, line, i, x.end, x.kind);
    }
  }

  lemma LexemeColour(u: Classes, lang: Lang, inBlock: bool, line: string, a: nat, i: nat, x: Lexeme)
    requires !lang.Plain? && i < |line| && Gathered(u, lang, inBlock, line, a, i)
    requires x.Lexeme? && Reads(lang, inBlock, line, i, MidWord(u, line, a, i), x)
    ensures i < x.end <= |line|
    ensures forall q :: i <= q < x.end ==> Colour(u, lang, inBlock, line, q) == x.kind
    ensures forall q :: i <= q < x.end ==> !InText(u, lang, inBlock, line, q)
    ensures x.kind.Number? ==> InNumeral(u, lang, inBlock, line, x.end - 1)
  {
    hide InComment, InString, Idle, ModeAt, StartsOnce;
    if x.kind.Number? {
      assert a < i ==> InText(u, lang, inBlock, line, i - 1);
      assert InNumeral(u, lang, inBlock, line, i);
      forall q | i <= q < x.end ensures InNumeral(u, lang, inBlock, line, q) {
        NumeralGoesOn(u, lang, inBlock, line, i, x.end, q);
      }
    }
    hide Colour;
    forall q | i <= q < x.end ensures Colour(u, lang, inBlock, line, q) == x.kind {
      ColourOf(u, lang, inBlock, line, q);
    }
  }

  /** Behind what is gathered a digit that begins a number does not go on with one. */
  lemma NumeralIsNew(u: Classes, lang: Lang, inBlock: bool, line: string, a: nat, i: nat)
    requires !lang.Plain? && 0 < i < |line| && Gathered(u, lang, inBlock, line, a, i) && IsDigit(line[i])
    ensures Colour(u, lang, inBlock, line, i - 1) != Number
  {
    hide InComment, InString, TextStart, TextEnd, KindAt;
    assert a < i ==> InText(u, lang, inBlock, line, i - 1);
    if a < i { TextKind(u, lang, line[TextStart(u, lang, inBlock, line, i - 1)..TextEnd(u, lang, inBlock, line, i - 1)],
                        i - 1 - TextStart(u, lang, inBlock, line, i - 1)); }
  }

  /** The colours other than those of text. */
  lemma ColourOf(u: Classes, lang: Lang, inBlock: bool, line: string, q: nat)
    requires !lang.Plain? && q < |line|
    ensures InComment(lang, inBlock, line, q) ==> Colour(u, lang, inBlock, line, q) == Comment
    ensures !InComment(lang, inBlock, line, q) && InString(lang, inBlock, line, q) ==>
              Colour(u, lang, inBlock, line, q) == Str
    ensures InNumeral(u, lang, inBlock, line, q) ==> Colour(u, lang, inBlock, line, q) == Number
  {
    hide InComment, InString, TextStart, TextEnd, KindAt;
  }

  lemma {:induction false} NumeralGoesOn(u: Classes, lang: Lang, inBlock: bool, line: string, i: nat, j: nat, q: nat)
    requires i <= q < j <= |line| && InNumeral(u, lang, inBlock, line, i)
    requires forall k :: i <= k < j ==> InNumber(line[k]) && Coded(lang, inBlock, line, k)
    ensures InNumeral(u, lang, inBlock, line, q)
  {
    hide InComment, InString, Coded;
    if i < q { NumeralGoesOn(u, lang, inBlock, line, i, j, q - 1); }
  }

  // ------------------------------------------------------- the tokens' laws, line by line

  /** The last token, if any, is no text; a number ends where its characters do. */
  predicate Cut(ts: seq<Token>, line: string, a: nat) {
    ts != [] ==>
      var s := ts[|ts| - 1];
      s.text != "" && !Textual(s.kind) && (s.kind.Number? && a < |line| ==> !InNumber(line[a]))
  }

  /** The character at `q` is text like what stands before it from `a` on. */
  predicate UnmarkedAt(u: Classes, lang: Lang, line: string, a: nat, q: nat)
    requires q < |line|
  {
    !IsDelimiter(lang, line[q]) && NoMarkAt(lang, line, q) && (IsDigit(line[q]) ==> a < q && InWord(u, line[q - 1]))
  }

  /** Nothing but text stands from `a` up to `i`. */
  predicate Unmarked(u: Classes, lang: Lang, line: string, a: nat, i: nat) {
    a <= i <= |line| && forall q :: a <= q < i ==> UnmarkedAt(u, lang, line, a, q)
  }

  /** The loop is at `i`, its tokens reach up to `a`. */
  ghost predicate Going(u: Classes, lang: Lang, carried: bool, line: string, ts: seq<Token>, a: nat, i: nat) {
    && Unmarked(u, lang, line, a, i) && Cut(ts, line, a) && Lawful(u, lang, carried, ts, a == |line|)
    && (carried ==> ts != [])
  }

  lemma UnmarkedFurther(u: Classes, lang: Lang, line: string, a: nat, i: nat)
    requires i < |line| && Unmarked(u, lang, line, a, i) && Spells(lang, line, i, MidWord(u, line, a, i), NoLexeme)
    ensures Unmarked(u, lang, line, a, i + 1)
  {
    hide IsDelimiter, NoMarkAt, InWord;
  }

  lemma UnmarkedIsFlushable(u: Classes, lang: Lang, ts: seq<Token>, line: string, a: nat, i: nat)
    requires Unmarked(u, lang, line, a, i) && Cut(ts, line, a)
    ensures Flushable(u, lang, ts, line[a..i])
  {
    hide IsDelimiter, NoMarkAt, InWord, InNumber;
    var s := line[a..i];
    forall k | 0 <= k < |s|
      ensures !IsDelimiter(lang, s[k]) && NoMarkAt(lang, s, k) && (IsDigit(s[k]) ==> k > 0 && InWord(u, s[k - 1]))
    {
      assert s[k] == line[a + k] && (k > 0 ==> s[k - 1] == line[a + k - 1]);
      assert UnmarkedAt(u, lang, line, a, a + k);
      NoMarkInPiece(lang, line, a, i, k);
    }
    if a < i { assert s[0] == line[a] && UnmarkedAt(u, lang, line, a, a); }
  }

  /** Flushing what stands before `i` keeps the laws. */
  lemma FlushedGoes(u: Classes, lang: Lang, carried: bool, line: string, ts: seq<Token>, a: nat, i: nat, us: seq<Token>)
    requires Going(u, lang, carried, line, ts, a, i) && a < |line|
    requires ts <= us && (Flushable(u, lang, ts, line[a..i]) ==> TextFrom(u, lang, us, |ts|)) && (a == i ==> us == ts)
    requires Joined(ts) == line[..a] && Joined(us) == line[..i]
    ensures Lawful(u, lang, carried, us, false) && (carried ==> us != [])
    ensures a < i ==> us != [] && Textual(us[|us| - 1].kind) && EndsLike(us, line, i)
  {
    hide TokenLaw, Follows, TextLaw, Textual, Joined;
    assert us[..|ts|] == ts;
    UnmarkedIsFlushable(u, lang, ts, line, a, i);
    TextIsLawful(u, lang, carried, us, |ts|);
    if a < i {
      assert |line[..a]| == a && |line[..i]| == i;
      assert us != ts;
      LastCharacter(u, lang, us, line, i);
    }
  }

  lemma GoesOn(u: Classes, lang: Lang, carried: bool, line: string, ts: seq<Token>, a: nat, i: nat)
    requires i < |line| && Going(u, lang, carried, line, ts, a, i)
    requires Spells(lang, line, i, MidWord(u, line, a, i), NoLexeme)
    ensures Going(u, lang, carried, line, ts, a, i + 1)
  {
    UnmarkedFurther(u, lang, line, a, i);
  }

  /** What is left goes out as text, and the line is done. */
  lemma EndsLawful(u: Classes, lang: Lang, carried: bool, line: string, ts: seq<Token>, a: nat, us: seq<Token>)
    requires Going(u, lang, carried, line, ts, a, |line|)
    requires ts <= us && (Flushable(u, lang, ts, line[a..|line|]) ==> TextFrom(u, lang, us, |ts|))
    requires (a == |line| ==> us == ts) && Joined(ts) == line[..a] && Joined(us) == line
    ensures Lawful(u, lang, carried, us, true)
    ensures if a == |line| then us == ts else !LeavesOpen(lang, carried, us)
  {
    if a < |line| {
      UnmarkedIsFlushable(u, lang, ts, line, a, |line|);
      assert line[..|line|] == line;
      FlushedGoes(u, lang, carried, line, ts, a, |line|, us);
      LawfulAtTheEnd(u, lang, carried, us);
    }
  }

  predicate EndsLike(ts: seq<Token>, line: string, i: nat) {
    && ts != [] && 0 < i <= |line| && var s := ts[|ts| - 1].text;
    s != "" && s[|s| - 1] == line[i - 1]
  }

  lemma LastCharacter(u: Classes, lang: Lang, ts: seq<Token>, line: string, i: nat)
    requires ts != [] && TextLaw(u, lang, ts[|ts| - 1]) && 0 < i <= |line| && Joined(ts) == line[..i]
    ensures EndsLike(ts, line, i)
  {
    var b, s := Joined(ts[..|ts| - 1]), ts[|ts| - 1].text;
    assert (b + s)[|b| + |s| - 1] == line[..i][i - 1];
  }

  /** A lexeme behind what is flushed keeps the laws. */
  lemma LexemeFollows(
    u: Classes, lang: Lang, inBlock: bool, carried: bool, line: string, ts: seq<Token>, a: nat, i: nat, us: seq<Token>,
    x: Lexeme)
    requires i < |line| && x.Lexeme? && a <= i
    requires var inWord := MidWord(u, line, a, i);
             Reads(lang, inBlock, line, i, inWord, x) && Spells(lang, line, i, inWord, x)
    requires Going(u, lang, carried, line, ts, a, i) && Lawful(u, lang, carried, us, false)
    requires (carried ==> us != []) && (a == i ==> us == ts)
    requires a < i ==> us != [] && Textual(us[|us| - 1].kind) && EndsLike(us, line, i)
    ensures var t := Token(x.kind, line[i..x.end]);
            Going(u, lang, carried, line, us + [t], x.end, x.end)
            && (HasBlock(lang) ==> (LeavesOpen(lang, carried, us + [t]) <==> x.opens))
  {
    hide InComment, InString, StartsOnce, Idle, Coded, StringText, CommentText, Unclosed, InNumber, IsDelimiter, Lawful,
      InWord, ModeAt;
    var t := Token(x.kind, line[i..x.end]);
    assert t.text[0] == line[i];
    assert TokenLaw(u, lang, t, false, x.end == |line|);
    assert Follows(u, us, t);
    LawfulGrows(u, lang, carried, us, t, x.end == |line|);
  }

  // ---------------------------------------------------------------------- the class

  class Highlighter {
    const lang: Lang
    const u: Classes
    var inBlock: bool

    constructor (lang: Lang, u: Classes)
      ensures this.lang == lang && this.u == u && !inBlock
    {
      this.lang, this.u, inBlock := lang, u, false;
    }

    /** Highlight one line: the tokens are the line, each character has the colour it should
        have, tokens begin just where they should, and the flag carried on is what the
        automaton says. */
    method Line(line: string) returns (out: seq<Token>)
      modifies this
      ensures Joined(out) == line && AllPlausible(u, lang, out)
      ensures Shaded(out) == Shades(u, lang, old(inBlock), line, |line|)
      ensures inBlock == BlockAfter(lang, old(inBlock), line)
      ensures lang.Plain? ==> out == if line == "" then [] else [Token(PlainText, line)]
      ensures !lang.Plain? ==> Lawful(u, lang, old(inBlock) && HasBlock(lang), out, true)
      ensures HasBlock(lang) ==> (inBlock <==> LeavesOpen(lang, old(inBlock), out))
    {
      hide Lawful, LeavesOpen, Going, Unclosed;
      hide Keywords, ModeAt, InComment, InString, InNumeral, Joined, Shaded, Shades, Repeat;
      out := [];
      NothingYet();
      assert Shades(u, lang, inBlock, line, 0) == [];
      if lang.Plain? {
        if line != "" { BeginsOnce(u, lang, inBlock, line, 0, |line|, PlainText); }
        OneToken(u, lang, inBlock, line, 0, |line|, PlainText);
        out := Push(out, PlainText, line);
        PushedPlausible(u, lang, [], Token(PlainText, line));
        return;
      }
      var i := 0;
      ghost var was := inBlock;
      StartsAs(lang, was, line);
      if inBlock && HasBlock(lang) {
        FreshIsDeep(lang, was, line, 0);
        var j, closed := ScanBlock(lang, was, line, 0);
        inBlock := !closed;
        forall q | 0 <= q < j ensures !LexemeStarts(lang, was, line, q) { NoCodeNoStart(lang, was, line, q); }
        if j > 0 { BeginsOnce(u, lang, was, line, 0, j, Comment); }
        OneToken(u, lang, was, line, 0, j, Comment);
        out := Push(out, Comment, line[..j]);
        PushedPlausible(u, lang, [], Token(Comment, line[..j]));
        CarriedComment(u, lang, line, j, closed);
        assert out == if j == 0 then [] else [Token(Comment, line[..j])];
        i := j;
        if inBlock {
          assert line[..j] == line;
          return;
        }
      }
      else {
        NoTokens(u, lang, line);
      }
      FreshIsIdle(lang, was, line, i);
      out := Rest(was, line, i, out);
    }

    /** The rest of a line from an index outside any comment or string. */
    method Rest(ghost was: bool, line: string, from: nat, before: seq<Token>) returns (out: seq<Token>)
      requires !lang.Plain? && Idle(lang, was, line, from) && (if HasBlock(lang) then !inBlock else inBlock == was)
      requires from > 0 ==> InComment(lang, was, line, from - 1)
      requires Joined(before) == line[..from] && AllPlausible(u, lang, before)
      requires Shaded(before) == Shades(u, lang, was, line, from)
      requires Going(u, lang, was && HasBlock(lang), line, before, from, from)
      requires !LeavesOpen(lang, was && HasBlock(lang), before)
      modifies this
      ensures Joined(out) == line && AllPlausible(u, lang, out) && before <= out
      ensures Shaded(out) == Shades(u, lang, was, line, |line|)
      ensures inBlock == BlockAfter(lang, was, line)
      ensures Lawful(u, lang, was && HasBlock(lang), out, true)
      ensures HasBlock(lang) ==> (inBlock <==> LeavesOpen(lang, was && HasBlock(lang), out))
    {
      ghost var carried := was && HasBlock(lang);
      hide Going, Spells, Lawful, LeavesOpen, TextFrom, Flushable, EndsLike, Unmarked, Cut, TextLaw;
      hide Keywords, ModeAt, InComment, InString, InNumeral, Plausible, Joined, Shaded, Shades, RunShades,
        Repeat, Colour, Begins, AllPlausible, WholeText, Gathered, Idle, Reads, MidWord, InWord;
      var i: nat, run := from, "";
      ghost var a: nat := from;
      out := before;
      Afresh(u, lang, was, line, from);
      assert line[a..i] == "";
      while i < |line|
        invariant a <= i <= |line| && run == line[a..i] && Gathered(u, lang, was, line, a, i)
        invariant i < |line| ==> Idle(lang, was, line, i) && !ModeAt(lang, was, line, i).Block?
        invariant inBlock == if HasBlock(lang) then ModeAt(lang, was, line, i).Block? else was
        invariant Joined(out) == line[..a] && AllPlausible(u, lang, out) && before <= out
        invariant Shaded(out) == Shades(u, lang, was, line, a)
        invariant Going(u, lang, carried, line, out, a, i) && (a < i && HasBlock(lang) ==> !inBlock)
        invariant HasBlock(lang) ==> (inBlock <==> LeavesOpen(lang, carried, out))
      {
        var inWord := run != "" && InWord(u, run[|run| - 1]);
        MidWordIs(u, line, a, i);
        var lexeme := Lex(lang, was, line, i, inWord);
        if lexeme.NoLexeme? {
          TextGoesOn(u, lang, was, line, a, i);
          GoesOn(u, lang, carried, line, out, a, i);
          OneFurther(line, a, i);
          run := run + [line[i]];
          i := i + 1;
        } else {
          LexemeGoesBy(u, lang, was, line, a, i, lexeme);
          LexemeIsPlausible(u, lang, was, line, i, inWord, lexeme);
          ghost var cut := out;
          out := FlushText(was, line, a, i, out, run);
          FlushedGoes(u, lang, carried, line, cut, a, i, out);
          LexemeFollows(u, lang, was, carried, line, cut, a, i, out, lexeme);
          out := PushLexeme(was, line, i, lexeme, out);
          run, i, a := "", lexeme.end, lexeme.end;
          if lexeme.opens {
            inBlock := true;
          }
        }
      }
      assert line[..|line|] == line;
      EndsWhole(u, lang, was, line, a);
      ghost var cut := out;
      out := FlushText(was, line, a, |line|, out, run);
      EndsLawful(u, lang, carried, line, cut, a, out);
    }

    /** Push a lexeme behind what is flushed. */
    method PushLexeme(ghost was: bool, line: string, i: nat, x: Lexeme, before: seq<Token>) returns (out: seq<Token>)
      requires x.Lexeme? && i < x.end <= |line| && Plausible(u, lang, Token(x.kind, line[i..x.end]))
      requires forall q :: i <= q < x.end ==> Colour(u, lang, was, line, q) == x.kind
      requires forall q :: i <= q < x.end ==> (Begins(u, lang, was, line, q) <==> q == i)
      requires Joined(before) == line[..i] && AllPlausible(u, lang, before)
      requires Shaded(before) == Shades(u, lang, was, line, i)
      ensures Joined(out) == line[..x.end] && AllPlausible(u, lang, out) && before <= out
      ensures Shaded(out) == Shades(u, lang, was, line, x.end)
      ensures out == before + [Token(x.kind, line[i..x.end])]
    {
      hide Plausible, Joined, Shaded, Shades, Colour, Begins, Repeat;
      assert line[..x.end] == line[..i] + line[i..x.end];
      OneToken(u, lang, was, line, i, x.end, x.kind);
      PushedPlausible(u, lang, before, Token(x.kind, line[i..x.end]));
      out := Push(before, x.kind, line[i..x.end]);
    }

    /** Flush the text gathered from `a` up to `i`. */
    method FlushText(ghost was: bool, line: string, ghost a: nat, ghost i: nat, before: seq<Token>, run: string)
      returns (out: seq<Token>)
      requires !lang.Plain? && WholeText(u, lang, was, line, a, i) && run == line[a..i]
      requires Joined(before) == line[..a] && AllPlausible(u, lang, before)
      requires Shaded(before) == Shades(u, lang, was, line, a)
      ensures Joined(out) == line[..i] && AllPlausible(u, lang, out) && before <= out
      ensures Shaded(out) == Shades(u, lang, was, line, i)
      ensures (run == "" ==> out == before) && (Flushable(u, lang, before, run) ==> TextFrom(u, lang, out, |before|))
    {
      hide InText, Joined, Shaded, Shades, RunShades, AllPlausible;
      TextShades(u, lang, was, line, a, i, i);
      assert line[..i] == line[..a] + line[a..i];
      out := FlushRun(u, lang, before, run);
    }
  }

  lemma NoTokens(u: Classes, lang: Lang, line: string)
    ensures Going(u, lang, false, line, [], 0, 0) && !LeavesOpen(lang, false, [])
  {
  }

  /** A comment carried in from the line above. */
  lemma CarriedComment(u: Classes, lang: Lang, line: string, j: nat, closed: bool)
    requires HasBlock(lang) && j <= |line| && (if closed then j > 0 else j == |line|)
    requires forall k: nat :: k + |Close(lang)| < j ==> !HasMark(line, k, Close(lang))
    requires if closed then |Close(lang)| <= j && HasMark(line, j - |Close(lang)|, Close(lang))
             else forall k: nat :: !HasMark(line, k, Close(lang))
    ensures var ts := if j == 0 then [] else [Token(Comment, line[..j])];
            && Lawful(u, lang, true, ts, j == |line|) && (LeavesOpen(lang, true, ts) <==> !closed)
            && (closed ==> Going(u, lang, true, line, ts, j, j))
  {
    hide HasMark, BlockText, Closed;
    assert line[0..j] == line[..j];
    BlockTextIs(lang, line, 0, 0, j, closed);
  }

  lemma OneFurther(line: string, a: nat, i: nat)
    requires a <= i < |line|
    ensures line[a..i + 1] == line[a..i] + [line[i]]
  {
  }

  lemma NothingYet()
    ensures Joined([]) == "" && Shaded([]) == []
  {
  }

  lemma StartsAs(lang: Lang, inBlock: bool, line: string)
    ensures ModeAt(lang, inBlock, line, 0) == Start(lang, inBlock)
  {
  }

  /** Nothing is gathered yet. */
  lemma Afresh(u: Classes, lang: Lang, inBlock: bool, line: string, i: nat)
    requires Idle(lang, inBlock, line, i) && (i > 0 ==> InComment(lang, inBlock, line, i - 1))
    ensures Gathered(u, lang, inBlock, line, i, i) && i <= |line| && ModeAt(lang, inBlock, line, i).Code?
  {
    hide InComment, InString, ModeAt;
  }

  /** What is gathered up to the end of the line is whole. */
  lemma EndsWhole(u: Classes, lang: Lang, inBlock: bool, line: string, a: nat)
    requires Gathered(u, lang, inBlock, line, a, |line|)
    ensures WholeText(u, lang, inBlock, line, a, |line|)
  {
    hide InText;
  }

  /** The tokens are line `k`, each plausible, and after the lines above each character has the
      colour it should have and tokens begin just where they should. */
  ghost predicate Highlighted(u: Classes, lang: Lang, lines: seq<string>, k: nat, tokens: seq<Token>)
    requires k < |lines|
  {
    && Joined(tokens) == lines[k] && AllPlausible(u, lang, tokens)
    && Shaded(tokens) == Shades(u, lang, BlockAfterAll(lang, false, lines[..k]), lines[k], |lines[k]|)
  }

  /** There is one way to highlight a line. */
  lemma HighlightingIsUnique(u: Classes, lang: Lang, lines: seq<string>, k: nat, a: seq<Token>, b: seq<Token>)
    requires k < |lines| && Highlighted(u, lang, lines, k, a) && Highlighted(u, lang, lines, k, b)
    ensures a == b
  {
    hide Shaded, Shades, Joined;
    TokensAreDetermined(a, b);
  }

  /** Highlight a buffer.  In a language the tokens of each line keep the laws, a block comment
      going on where the tokens above leave one open. */
  method Lines(lang: Lang, u: Classes, lines: seq<string>) returns (out: seq<seq<Token>>)
    ensures |out| == |lines| && forall k :: 0 <= k < |lines| ==> Highlighted(u, lang, lines, k, out[k])
    ensures !lang.Plain? ==> forall k :: 0 <= k < |lines| ==> Lawful(u, lang, Carried(lang, out[..k]), out[k], true)
  {
    hide BlockAfter, AllPlausible, Joined, Shaded, Shades, Lawful, LeavesOpen, Carried;
    var hl := new Highlighter(lang, u);
    out := [];
    assert lines[..0] == [];
    NothingCarried(lang);
    for i := 0 to |lines|
      invariant |out| == i && hl.lang == lang && hl.u == u
      invariant hl.inBlock == BlockAfterAll(lang, false, lines[..i])
      invariant (hl.inBlock && HasBlock(lang)) == Carried(lang, out)
      invariant forall k :: 0 <= k < i ==> Highlighted(u, lang, lines, k, out[k])
      invariant !lang.Plain? ==> forall k :: 0 <= k < i ==> Lawful(u, lang, Carried(lang, out[..k]), out[k], true)
    {
      var tokens := hl.Line(lines[i]);
      assert Highlighted(u, lang, lines, i, tokens);
      BlockStep(lang, lines, i);
      CarriedStep(lang, out, tokens);
      hide Highlighted;
      ghost var above := out;
      out := out + [tokens];
      assert forall k :: 0 <= k < i ==> out[..k] == above[..k];
      assert out[..i] == above;
    }
  }

  lemma NothingCarried(lang: Lang)
    ensures !Carried(lang, [])
  {
  }

  lemma CarriedStep(lang: Lang, above: seq<seq<Token>>, tokens: seq<Token>)
    ensures Carried(lang, above + [tokens]) <==> LeavesOpen(lang, Carried(lang, above), tokens)
    ensures !HasBlock(lang) && LeavesOpen(lang, Carried(lang, above), tokens) ==> Carried(lang, above)
  {
    assert (above + [tokens])[..|above|] == above;
  }

  lemma BlockStep(lang: Lang, lines: seq<string>, i: nat)
    requires i < |lines|
    ensures BlockAfterAll(lang, false, lines[..i + 1])
              == BlockAfter(lang, BlockAfterAll(lang, false, lines[..i]), lines[i])
  {
    assert lines[..i + 1][..i] == lines[..i];
  }
}
