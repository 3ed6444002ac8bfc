/**
 The URLs on one line of text, one character a column.

 What may be inside a URL is the unreserved and reserved sets of sections 2.2 and 2.3
 of RFC 3986 and the percent sign.
 */
module Links {
  import opened Strings

  const SCHEMES: seq<string> :=
    ["https://", "http://", "file://", "ftps://", "ftp://", "ssh://", "git://", "wss://", "ws://", "mailto:"]

  const BARE_HOST: string := "www."
  const BARE_SCHEME: string := "https://"
  const MAX_URL: nat := 2048

  /** One run: where it starts, one past where it ends, and what to open. */
  datatype Span = Span(start: nat, end: nat, url: string)

  predicate IsAlphanumeric(c: char) { '0' <= c <= '9' || 'a' <= c <= 'z' || 'A' <= c <= 'Z' }

  function Lower(c: char): char {
    if 'A' <= c <= 'Z' then (c as int + 32) as char else c
  }

  predicate UrlChar(c: char) { IsAlphanumeric(c) || c in "-._~:/?#[]@!$&'()*+,;=%" }

  /** What may stand before the start of a link. */
  predicate LeftBoundary(c: char) { !(IsAlphanumeric(c) || c in "-._~%+@:/") }

  /** Case-insensitive in ASCII. */
  predicate MatchesAt(line: string, i: nat, word: string) {
    i + |word| <= |line| && forall k :: 0 <= k < |word| ==> Lower(line[i + k]) == Lower(word[k])
  }

  /** The length of the first of the words that matches, or zero. */
  function FirstMatch(line: string, i: nat, words: seq<string>): (n: nat)
    ensures n > 0 ==> i + n <= |line|
  {
    if words == [] then 0
    else if MatchesAt(line, i, words[0]) then |words[0]|
    else FirstMatch(line, i, words[1..])
  }

  /** How long the scheme or `www.` of a link at `i` is; zero where no link can start. */
  function StartsHere(line: string, i: nat): (n: nat)
    ensures n > 0 ==> i + n <= |line|
  {
    if 0 < i <= |line| && !LeftBoundary(line[i - 1]) then 0
    else FirstMatch(line, i, SCHEMES + [BARE_HOST])
  }

  function RunEnd(line: string, i: nat): (j: nat)
    requires i <= |line|
    ensures i <= j <= |line| && forall k :: i <= k < j ==> UrlChar(line[k])
    ensures j < |line| ==> !UrlChar(line[j])
    decreases |line| - i
  {
    if i < |line| && UrlChar(line[i]) then RunEnd(line, i + 1) else i
  }

  function Count(s: string, c: char): nat {
    if s == "" then 0 else Count(s[..|s| - 1], c) + if s[|s| - 1] == c then 1 else 0
  }

  /** Sentence punctuation goes, and a closing bracket that nothing opened. */
  predicate Trims(url: string) {
    url != "" &&
    var last := url[|url| - 1];
    || last in ".,:;!?'*("
    || (last == ')' && Count(url, '(') < Count(url, ')'))
    || (last == ']' && Count(url, '[') < Count(url, ']'))
  }

  function TrimTail(url: string): (t: string)
    ensures t <= url && !Trims(t)
  {
    if Trims(url) then TrimTail(url[..|url| - 1]) else url
  }

  lemma {:induction false} CountIs(s: string, c: char)
    ensures Count(s, c) == multiset(s)[c]
  {
    if s != "" {
      CountIs(s[..|s| - 1], c);
      assert s == s[..|s| - 1] + [s[|s| - 1]];
    }
  }

  /** More of one bracket than of the other. */
  predicate Unopened(s: string, open: char, close: char) { multiset(s)[open] < multiset(s)[close] }

  /** What cannot end a link, by its brackets' numbers. */
  predicate EndsBadly(s: string) {
    s != "" &&
    var last := s[|s| - 1];
    last in ".,:;!?'*(" || (last == ')' && Unopened(s, '(', ')')) || (last == ']' && Unopened(s, '[', ']'))
  }

  /** Trimming leaves nothing that ends badly, and takes no more than it has to. */
  lemma {:induction false} TrimsJustEnough(url: string)
    ensures var t := TrimTail(url);
            t <= url && !EndsBadly(t) && forall n: nat :: |t| < n <= |url| ==> EndsBadly(url[..n])
  {
    CountIs(url, '(');
    CountIs(url, ')');
    CountIs(url, '[');
    CountIs(url, ']');
    if Trims(url) {
      var init := url[..|url| - 1];
      TrimsJustEnough(init);
      hide EndsBadly, TrimTail, Trims;
      assert url[..|url|] == url;
      forall n: nat | |TrimTail(init)| < n < |url| ensures EndsBadly(url[..n]) { assert url[..n] == init[..n]; }
      assert EndsBadly(url);
    }
  }

  /** Worth offering: something behind the scheme, a dot of its own behind `www.`. */
  predicate Usable(url: string, schemeLen: nat) {
    && schemeLen < |url| <= MAX_URL
    && (exists k :: schemeLen <= k < |url| && IsAlphanumeric(url[k]))
    && (StartsWith(url, BARE_HOST) ==> '.' in url[schemeLen..])
  }

  function Opened(url: string): string { if StartsWith(url, BARE_HOST) then BARE_SCHEME + url else url }

  /** The candidate that starts at `i`, trimmed. */
  function Candidate(line: string, i: nat): (t: string)
    requires i <= |line| && StartsHere(line, i) > 0
    ensures i + |t| <= |line| && t == line[i..i + |t|]
  {
    var end := RunEnd(line, i + StartsHere(line, i));
    var t := TrimTail(line[i..end]);
    assert t == line[i..end][..|t|];
    t
  }

  predicate IsLink(line: string, i: nat) {
    i < |line| && StartsHere(line, i) > 0 && Usable(Candidate(line, i), StartsHere(line, i))
  }

  /** Past the candidate either way. */
  function NextIndex(line: string, i: nat): (j: nat)
    requires i < |line|
    ensures i < j <= |line|
  {
    if StartsHere(line, i) == 0 || |Candidate(line, i)| == 0 then i + 1 else i + |Candidate(line, i)|
  }

  /** What a link may begin with, in the order it is looked for. */
  const WORDS: seq<string> := SCHEMES + [BARE_HOST]

  predicate FirstWord(line: string, i: nat, k: nat) {
    k < |WORDS| && MatchesAt(line, i, WORDS[k]) && forall j :: 0 <= j < k ==> !MatchesAt(line, i, WORDS[j])
  }

  predicate UrlChars(line: string, a: nat, b: nat) {
    b <= |line| && forall q :: a <= q < b ==> UrlChar(line[q])
  }

  /** `n` characters at `i` are a link: they stand at a boundary and begin with a known word;
      behind it are the characters of a URL, as many as there are but for an end that a
      sentence would have; not too many, and something to visit among them. */
  ghost predicate LooksLikeLink(line: string, i: nat, k: nat, n: nat) {
    && FirstWord(line, i, k) && i + n <= |line| && (i > 0 ==> LeftBoundary(line[i - 1]))
    && var h := i + |WORDS[k]|;
    && h < i + n && n <= MAX_URL && UrlChars(line, h, i + n)
    && !EndsBadly(line[i..i + n])
    && (forall e: nat :: e > i + n && UrlChars(line, h, e) ==> EndsBadly(line[i..e]))
    && (exists q :: h <= q < i + n && IsAlphanumeric(line[q]))
    && (i + 4 <= i + n && line[i..i + 4] == BARE_HOST ==> '.' in line[h..i + n])
  }

  lemma {:induction false} FirstMatchIs(line: string, i: nat, words: seq<string>, k: nat)
    requires k < |words| && MatchesAt(line, i, words[k]) && forall j :: 0 <= j < k ==> !MatchesAt(line, i, words[j])
    ensures FirstMatch(line, i, words) == |words[k]|
  {
    hide MatchesAt;
    if k > 0 { FirstMatchIs(line, i, words[1..], k - 1); }
  }

  lemma {:induction false} SomeWord(line: string, i: nat, words: seq<string>) returns (k: nat)
    requires FirstMatch(line, i, words) > 0
    ensures k < |words| && MatchesAt(line, i, words[k]) && forall j :: 0 <= j < k ==> !MatchesAt(line, i, words[j])
  {
    hide MatchesAt;
    if MatchesAt(line, i, words[0]) {
      k := 0;
    } else {
      var m := SomeWord(line, i, words[1..]);
      k := m + 1;
      forall j | 0 <= j < k ensures !MatchesAt(line, i, words[j]) { if j > 0 { assert words[j] == words[1..][j - 1]; } }
    }
  }

  lemma {:induction false} SomeMatch(line: string, i: nat, words: seq<string>, k: nat)
    requires k < |words| && MatchesAt(line, i, words[k]) && forall j :: 0 <= j < |words| ==> words[j] != ""
    ensures FirstMatch(line, i, words) > 0
  {
    hide MatchesAt;
    if k > 0 { SomeMatch(line, i, words[1..], k - 1); }
  }

  lemma WordsAreNot(k: nat)
    requires k < |WORDS|
    ensures WORDS[k] != ""
  {
  }

  /** The run of a URL's characters goes on as far as it can. */
  lemma RunEndIs(line: string, h: nat, b: nat)
    requires h <= b
    ensures h <= |line| ==> (UrlChars(line, h, b) <==> b <= RunEnd(line, h))
  {
  }

  /** What a link is, without looking for it from left to right. */
  lemma LinkLooks(line: string, i: nat, k: nat)
    requires FirstWord(line, i, k) && (i > 0 ==> i <= |line| && LeftBoundary(line[i - 1]))
    ensures i < |line| && StartsHere(line, i) == |WORDS[k]| > 0
    ensures var n := |Candidate(line, i)|; i < |line| && (IsLink(line, i) <==> LooksLikeLink(line, i, k, n))
    ensures forall n: nat :: LooksLikeLink(line, i, k, n) ==> n == |Candidate(line, i)|
  {
    hide MatchesAt, FirstMatch, LeftBoundary, EndsBadly, TrimTail, IsAlphanumeric, UrlChar, RunEnd, UrlChars;
    WordsAreNot(k);
    MatchFits(line, i, WORDS[k]);
    FirstMatchIs(line, i, WORDS, k);
    CandidateIs(line, i, k);
    var n := |Candidate(line, i)|;
    var h := i + |WORDS[k]|;
    assert line[i..i + n] == Candidate(line, i);
    if h < i + n {
      assert Candidate(line, i)[|WORDS[k]|..] == line[h..i + n];
      assert forall q :: h <= q < i + n ==> Candidate(line, i)[q - i] == line[q];
      assert forall q :: |WORDS[k]| <= q < n ==> Candidate(line, i)[q] == line[q + i];
      if n >= 4 { assert Candidate(line, i)[..4] == line[i..i + 4]; }
    }
  }

  /** The links of a line are what looks like one. */
  lemma LinksLook(line: string, i: nat)
    ensures IsLink(line, i) <==> exists k, n: nat :: LooksLikeLink(line, i, k, n)
  {
    hide MatchesAt, Candidate, Usable, EndsBadly, UrlChars, LeftBoundary, IsAlphanumeric;
    if IsLink(line, i) {
      var k := SomeWord(line, i, WORDS);
      LinkLooks(line, i, k);
    }
    if k, n: nat :| LooksLikeLink(line, i, k, n) { LinkLooks(line, i, k); }
  }

  lemma MatchFits(line: string, i: nat, w: string)
    requires MatchesAt(line, i, w)
    ensures i + |w| <= |line|
  {
  }

  /** The candidate ends well, and every longer stretch of a URL's characters does not. */
  lemma CandidateIs(line: string, i: nat, k: nat)
    requires k < |WORDS| && i <= |line| && StartsHere(line, i) == |WORDS[k]| > 0
    ensures var n, h := |Candidate(line, i)|, i + |WORDS[k]|;
            && i + n <= |line| && (h <= i + n ==> UrlChars(line, h, i + n)) && !EndsBadly(line[i..i + n])
            && forall e: nat :: e > i + n && h <= e && UrlChars(line, h, e) ==> e <= |line| && EndsBadly(line[i..e])
  {
    hide StartsHere, EndsBadly, TrimTail, UrlChars;
    var h := i + |WORDS[k]|;
    var run := line[i..RunEnd(line, h)];
    var n := |Candidate(line, i)|;
    TrimsJustEnough(run);
    assert line[i..i + n] == Candidate(line, i);
    if h <= i + n { RunEndIs(line, h, i + n); }
    forall e: nat | e > i + n && h <= e && UrlChars(line, h, e) ensures e <= |line| && EndsBadly(line[i..e]) {
      RunEndIs(line, h, e);
      assert run[..e - i] == line[i..e];
    }
  }

  function SpanAt(line: string, i: nat): Span
    requires IsLink(line, i)
  {
    Span(i, i + |Candidate(line, i)|, Opened(Candidate(line, i)))
  }

  /** Every URL from index `i` on. */
  function Spans(line: string, i: nat): seq<Span>
    requires i <= |line|
    decreases |line| - i
  {
    if i == |line| then []
    else (if IsLink(line, i) then [SpanAt(line, i)] else []) + Spans(line, NextIndex(line, i))
  }

  // --------------------------------------------------------------------- the loops

  method Trim(full: string) returns (url: string)
    ensures url == TrimTail(full)
  {
    url := full;
    while url != ""
      invariant TrimTail(url) == TrimTail(full)
      decreases |url|
    {
      if !Trims(url) {
        return;
      }
      url := url[..|url| - 1];
    }
  }

  lemma OneStep(line: string, i: nat, out: seq<Span>)
    requires i < |line|
    ensures out + Spans(line, i)
              == (if IsLink(line, i) then out + [SpanAt(line, i)] else out) + Spans(line, NextIndex(line, i))
  {
    hide StartsHere, Candidate, Usable, Opened, IsLink, NextIndex, SpanAt;
    var rest := Spans(line, NextIndex(line, i));
    if IsLink(line, i) {
      assert out + ([SpanAt(line, i)] + rest) == out + [SpanAt(line, i)] + rest;
    } else {
      assert [] + rest == rest;
    }
  }

  /** The run behind a scheme, trimmed. */
  method ScanCandidate(line: string, i: nat, schemeLen: nat) returns (trimmed: string)
    requires i < |line| && schemeLen == StartsHere(line, i) > 0
    ensures trimmed == Candidate(line, i)
  {
    hide StartsHere, TrimTail, Trims;
    var end := i + schemeLen;
    while end < |line| && UrlChar(line[end])
      invariant i + schemeLen <= end <= |line|
      invariant RunEnd(line, end) == RunEnd(line, i + schemeLen)
    {
      end := end + 1;
    }
    trimmed := Trim(line[i..end]);
  }

  method Scan(line: string) returns (out: seq<Span>)
    ensures out == Spans(line, 0)
  {
    hide StartsHere, Candidate, Usable, Opened, Spans;
    out := [];
    var i := 0;
    while i < |line|
      invariant i <= |line|
      invariant out + Spans(line, i) == Spans(line, 0)
    {
      OneStep(line, i, out);
      var schemeLen := StartsHere(line, i);
      if schemeLen == 0 {
        i := i + 1;
        continue;
      }
      var trimmed := ScanCandidate(line, i, schemeLen);
      if Usable(trimmed, schemeLen) {
        out := out + [Span(i, i + |trimmed|, Opened(trimmed))];
      }
      var end := i + |trimmed|;
      i := if end > i then end else i + 1;
    }
    NoMore(line, out);
  }

  lemma NoMore(line: string, out: seq<Span>)
    ensures out + Spans(line, |line|) == out
  {
  }

  // ------------------------------------------------------------------- well-formed

  ghost predicate Ordered(spans: seq<Span>, from: nat, to: nat) {
    && (forall k :: 0 <= k < |spans| ==> from <= spans[k].start < spans[k].end <= to)
    && (forall k :: 0 <= k < |spans| - 1 ==> spans[k].end <= spans[k + 1].start)
  }

  /** Spans are not empty, run left to right, and do not overlap. */
  lemma {:induction false} SpansAreOrdered(line: string, i: nat)
    requires i <= |line|
    ensures Ordered(Spans(line, i), i, |line|)
    decreases |line| - i
  {
    hide StartsHere, Candidate, Usable, Opened, IsLink, SpanAt, NextIndex;
    if i < |line| {
      SpansAreOrdered(line, NextIndex(line, i));
      if IsLink(line, i) { SpanReachesNext(line, i); }
    }
  }

  lemma SpanReachesNext(line: string, i: nat)
    requires IsLink(line, i)
    ensures SpanAt(line, i).start == i < SpanAt(line, i).end == NextIndex(line, i)
  {
    hide StartsHere, Candidate, Opened;
  }

  /** A scan visits exactly the indices it does not step over; those it visits and where a
      usable link starts are the spans. */
  lemma {:induction false} SpansAreTheLinks(line: string, i: nat, k: nat)
    requires i <= |line| && k < |Spans(line, i)|
    ensures var s := Spans(line, i)[k]; IsLink(line, s.start) && s == SpanAt(line, s.start)
    decreases |line| - i
  {
    if i < |line| {
      var here := if IsLink(line, i) then 1 else 0;
      if k >= here { SpansAreTheLinks(line, NextIndex(line, i), k - here); }
    }
  }

  /** No link is missed: one that starts anywhere is offered, unless it starts inside a
      candidate that was met before it. */
  lemma {:induction false} NoLinkIsMissed(line: string, i: nat, p: nat) returns (c: nat)
    requires i <= p && IsLink(line, p)
    ensures i <= c <= p
    ensures c == p ==> SpanAt(line, p) in Spans(line, i)
    ensures c < p ==> StartsHere(line, c) > 0 && p < c + |Candidate(line, c)|
    decreases |line| - i
  {
    c := i;
    if i < p && NextIndex(line, i) <= p {
      c := NoLinkIsMissed(line, NextIndex(line, i), p);
    }
  }

  // --------------------------------------------------------------------- rescanning

  /** On a piece of the line the same words match, as far as the piece reaches. */
  lemma {:induction false} FirstMatchInPiece(line: string, i: nat, t: string, words: seq<string>)
    requires i + |t| <= |line| && t == line[i..i + |t|]
    requires FirstMatch(line, i, words) <= |t|
    requires forall k :: 0 <= k < |words| ==> words[k] != ""
    ensures FirstMatch(t, 0, words) == FirstMatch(line, i, words)
  {
    if words != [] {
      assert MatchesAt(t, 0, words[0]) <==> MatchesAt(line, i, words[0]) && |words[0]| <= |t| by {
        assert forall k :: 0 <= k < |t| ==> t[k] == line[i + k];
      }
      if !MatchesAt(line, i, words[0]) { FirstMatchInPiece(line, i, t, words[1..]); }
    }
  }

  /** The text of a link, on its own, is that link and nothing else. */
  lemma LinkRescansToItself(line: string, i: nat)
    requires IsLink(line, i)
    ensures var s := SpanAt(line, i);
            Spans(line[s.start..s.end], 0) == [Span(0, s.end - s.start, s.url)]
  {
    hide Spans, Opened, UrlChar, RunEnd, TrimTail, Trims, StartsHere, MatchesAt;
    var t := Candidate(line, i);
    CandidateChars(line, i);
    assert StartsHere(line, i) < |t|;
    PieceStartsAlike(line, i, t);
    hide Candidate, Usable;
    PieceIsItsCandidate(t, StartsHere(t, 0));
    WholeLink(t);
  }

  lemma CandidateChars(line: string, i: nat)
    requires i <= |line| && StartsHere(line, i) > 0
    ensures var t := Candidate(line, i);
            !Trims(t) && forall k :: StartsHere(line, i) <= k < |t| ==> UrlChar(t[k])
  {
    hide StartsHere, TrimTail, Trims, UrlChar;
    var n, t := StartsHere(line, i), Candidate(line, i);
    assert t <= line[i..RunEnd(line, i + n)];
    forall k | n <= k < |t| ensures UrlChar(t[k]) {
      assert t[k] == line[i + k];
    }
  }

  lemma WholeLink(t: string)
    requires IsLink(t, 0) && Candidate(t, 0) == t
    ensures Spans(t, 0) == [Span(0, |t|, Opened(t))]
  {
    hide StartsHere, Candidate, Opened, Usable;
    assert Spans(t, |t|) == [];
  }

  lemma PieceStartsAlike(line: string, i: nat, t: string)
    requires i + |t| <= |line| && t == line[i..i + |t|]
    requires 0 < StartsHere(line, i) <= |t|
    ensures StartsHere(t, 0) == StartsHere(line, i)
  {
    FirstMatchInPiece(line, i, t, SCHEMES + [BARE_HOST]);
  }

  lemma PieceIsItsCandidate(t: string, n: nat)
    requires n == StartsHere(t, 0) > 0 && !Trims(t)
    requires forall k :: n <= k < |t| ==> UrlChar(t[k])
    ensures Candidate(t, 0) == t
  {
    hide StartsHere, Trims;
    assert RunEnd(t, n) == |t|;
    assert t[0..|t|] == t;
  }

  /** Every span of a scan rescans to exactly itself. */
  lemma SpansRescan(line: string, k: nat)
    requires k < |Spans(line, 0)|
    ensures var s := Spans(line, 0)[k];
            s.start < s.end <= |line| && Spans(line[s.start..s.end], 0) == [Span(0, s.end - s.start, s.url)]
  {
    hide Candidate, StartsHere, Usable, Spans, Opened;
    SpansAreOrdered(line, 0);
    SpansAreTheLinks(line, 0, k);
    LinkRescansToItself(line, Spans(line, 0)[k].start);
  }

  // ---------------------------------------------------------------- what is opened

  predicate HasScheme(url: string) { exists k :: 0 <= k < |SCHEMES| && MatchesAt(url, 0, SCHEMES[k]) }

  /** The link at `i` starts with `www.` in capitals, some or all: it is taken for a link in
      any case, and given a scheme only in lower case. */
  predicate CapitalHost(line: string, i: nat) {
    MatchesAt(line, i, BARE_HOST) && line[i..i + |BARE_HOST|] != BARE_HOST
  }

  /** What is offered begins with a scheme, except for a bare host in capitals. */
  lemma OpenedHasScheme(line: string, i: nat)
    requires IsLink(line, i)
    ensures HasScheme(SpanAt(line, i).url) <==> !CapitalHost(line, i)
  {
    var t := Candidate(line, i);
    LinkIsLonger(line, i);
    hide Candidate, Usable, MatchesAt, IsLink;
    var k := FirstMatched(line, i, SCHEMES + [BARE_HOST]);
    if k < |SCHEMES| {
      assert (SCHEMES + [BARE_HOST])[k] == SCHEMES[k];
      MatchesInPiece(line, i, t, SCHEMES[k]);
      NoBareHost(line, i, SCHEMES[k]);
      MatchesInPiece(line, i, t, BARE_HOST);
      OwnText(t);
    } else {
      MatchesInPiece(line, i, t, BARE_HOST);
      forall j | 0 <= j < |SCHEMES| ensures !MatchesAt(t, 0, SCHEMES[j]) {
        assert (SCHEMES + [BARE_HOST])[j] == SCHEMES[j];
        MatchesInPiece(line, i, t, SCHEMES[j]);
      }
      assert line[i..i + |BARE_HOST|] == t[..|BARE_HOST|];
      GivenScheme(t);
    }
  }

  /** Such a link exists, and is offered without a scheme. */
  lemma CapitalHostIsOffered()
    ensures var line := "WWW.example.com"; IsLink(line, 0) && SpanAt(line, 0).url == line && !HasScheme(line)
  {
    var line := "WWW.example.com";
    CapitalCandidate(line);
    hide FirstMatch, HasScheme, Candidate, StartsHere;
    assert line[4] == 'e' && |line| <= MAX_URL;
    assert !StartsWith(line, BARE_HOST) by { assert line[..4][0] == 'W'; }
    assert IsLink(line, 0);
    OpenedHasScheme(line, 0);
    assert line[0..4] == "WWW.";
  }

  lemma CapitalCandidate(line: string)
    requires line == "WWW.example.com"
    ensures StartsHere(line, 0) == 4 && MatchesAt(line, 0, BARE_HOST) && Candidate(line, 0) == line
  {
    assert MatchesAt(line, 0, BARE_HOST);
    CapitalStarts(line);
    RunsOn(line, 4);
    assert line[0..15] == line && line[14] == 'm';
    hide FirstMatch, MatchesAt, RunEnd;
  }

  lemma CapitalStarts(line: string)
    requires MatchesAt(line, 0, BARE_HOST)
    ensures StartsHere(line, 0) == 4
  {
    var words := SCHEMES + [BARE_HOST];
    forall j | 0 <= j < |SCHEMES| ensures !MatchesAt(line, 0, words[j]) {
      assert words[j] == SCHEMES[j];
      NoBareHost(line, 0, SCHEMES[j]);
    }
    FirstMatchIs(line, 0, words, |SCHEMES|);
  }

  lemma {:induction false} RunsOn(line: string, i: nat)
    requires i <= |line| && forall k :: i <= k < |line| ==> UrlChar(line[k])
    ensures RunEnd(line, i) == |line|
    decreases |line| - i
  {
    hide UrlChar;
    if i < |line| { RunsOn(line, i + 1); }
  }

  lemma LinkIsLonger(line: string, i: nat)
    requires IsLink(line, i)
    ensures 0 < StartsHere(line, i) < |Candidate(line, i)|
    ensures StartsHere(line, i) == FirstMatch(line, i, SCHEMES + [BARE_HOST])
  {
    hide Candidate, FirstMatch;
  }

  /** Which word matched first. */
  lemma {:induction false} FirstMatched(line: string, i: nat, words: seq<string>) returns (k: nat)
    requires FirstMatch(line, i, words) > 0
    ensures k < |words| && MatchesAt(line, i, words[k]) && |words[k]| == FirstMatch(line, i, words)
    ensures forall j :: 0 <= j < k ==> !MatchesAt(line, i, words[j])
  {
    hide MatchesAt;
    k := 0;
    if !MatchesAt(line, i, words[0]) {
      k := FirstMatched(line, i, words[1..]);
      k := k + 1;
      assert forall j :: 0 < j < |words| ==> words[j] == words[1..][j - 1];
    }
  }

  lemma MatchesInPiece(line: string, i: nat, t: string, w: string)
    requires i + |t| <= |line| && t == line[i..i + |t|]
    ensures MatchesAt(t, 0, w) <==> MatchesAt(line, i, w) && |w| <= |t|
  {
    assert forall k :: 0 <= k < |t| ==> t[k] == line[i + k];
  }

  /** What matches a scheme does not match `www.`. */
  lemma NoBareHost(line: string, i: nat, w: string)
    requires w in SCHEMES
    ensures !(MatchesAt(line, i, w) && MatchesAt(line, i, BARE_HOST))
  {
    SecondLetters(w);
    assert BARE_HOST[0] == BARE_HOST[1] == 'w';
  }

  lemma SecondLetters(w: string)
    requires w in SCHEMES
    ensures |w| >= 2 && (w[0] != 'w' || w[1] != 'w') && Lower(w[0]) == w[0] && Lower(w[1]) == w[1]
  {
  }

  /** A text that does not match `www.` is opened as it stands. */
  lemma OwnText(t: string)
    requires !MatchesAt(t, 0, BARE_HOST)
    ensures Opened(t) == t
  {
    assert |t| >= |BARE_HOST| ==> forall k :: 0 <= k < |BARE_HOST| ==> t[k] == t[..|BARE_HOST|][k];
  }

  /** A text with no scheme of its own has one when opened exactly if it starts in `www.`. */
  lemma GivenScheme(t: string)
    requires |t| >= |BARE_HOST| && forall j :: 0 <= j < |SCHEMES| ==> !MatchesAt(t, 0, SCHEMES[j])
    ensures HasScheme(Opened(t)) <==> t[..|BARE_HOST|] == BARE_HOST
  {
    var o := BARE_SCHEME + t;
    assert SCHEMES[0] == BARE_SCHEME;
    assert forall k :: 0 <= k < |BARE_SCHEME| ==> o[k] == BARE_SCHEME[k];
    assert MatchesAt(o, 0, SCHEMES[0]);
  }
}
