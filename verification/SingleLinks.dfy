/**
 Lines that hold one link at their start and blanks behind it, and how short a link can be.
 */
module SingleLinks {
  import opened Strings
  import opened Links

  /** Every link is at least this long: `www.` in capitals needs no dot behind it. */
  const SHORTEST: nat := 5

  predicate Blank(line: string, i: nat) { forall k :: i <= k < |line| ==> line[k] == ' ' }

  /** The text is one link from end to end, opened as it stands. */
  predicate OneLink(t: string) { IsLink(t, 0) && Candidate(t, 0) == t && Opened(t) == t }

  // ------------------------------------------------------------------------ blanks

  lemma {:induction false} NoneMatches(line: string, i: nat, words: seq<string>)
    requires forall k :: 0 <= k < |words| ==> !MatchesAt(line, i, words[k])
    ensures FirstMatch(line, i, words) == 0
  {
    hide MatchesAt;
    if words != [] { NoneMatches(line, i, words[1..]); }
  }

  lemma NothingMatches(line: string, i: nat, words: seq<string>)
    requires i < |line| && line[i] == ' '
    requires forall k :: 0 <= k < |words| ==> words[k] != "" && ' ' !in words[k]
    ensures FirstMatch(line, i, words) == 0
  {
    forall k | 0 <= k < |words| ensures !MatchesAt(line, i, words[k]) { NoBlank(words[k], 0); }
    NoneMatches(line, i, words);
  }

  lemma NoBlank(word: string, k: nat)
    requires k < |word| && ' ' !in word
    ensures Lower(word[k]) != Lower(' ')
  {
    assert word[k] in word;
  }

  lemma {:induction false} BlankHasNoLink(line: string, i: nat)
    requires i <= |line| && Blank(line, i)
    ensures Spans(line, i) == []
    decreases |line| - i
  {
    if i < |line| {
      hide FirstMatch;
      NothingMatches(line, i, SCHEMES + [BARE_HOST]);
      assert StartsHere(line, i) == 0;
      hide StartsHere, Candidate;
      BlankHasNoLink(line, i + 1);
    }
  }

  // --------------------------------------------------------------- a link and blanks

  lemma WordAlike(line: string, t: string, word: string)
    requires t <= line && Blank(line, |t|) && ' ' !in word
    ensures MatchesAt(line, 0, word) <==> MatchesAt(t, 0, word)
  {
    if |t| < |word| { NoBlank(word, |t|); }
  }

  /** No word runs on into the blanks. */
  lemma {:induction false} MatchesAlike(line: string, t: string, words: seq<string>)
    requires t <= line && Blank(line, |t|) && forall k :: 0 <= k < |words| ==> ' ' !in words[k]
    ensures FirstMatch(line, 0, words) == FirstMatch(t, 0, words)
  {
    if words != [] {
      WordAlike(line, t, words[0]);
      hide MatchesAt;
      MatchesAlike(line, t, words[1..]);
    }
  }

  /** The run behind a scheme stops where the blanks begin. */
  lemma {:induction false} RunsAlike(line: string, t: string, i: nat)
    requires t <= line && Blank(line, |t|) && i <= |t| && RunEnd(t, i) == |t|
    ensures RunEnd(line, i) == |t|
    decreases |t| - i
  {
    if i < |t| { RunsAlike(line, t, i + 1); }
  }

  lemma CandidateAlike(line: string, t: string)
    requires OneLink(t) && t <= line && Blank(line, |t|)
    ensures StartsHere(line, 0) == StartsHere(t, 0) && Candidate(line, 0) == t
  {
    var n := StartsHere(t, 0);
    MatchesAlike(line, t, SCHEMES + [BARE_HOST]);
    hide FirstMatch, Usable, Opened, RunEnd;
    var end := RunEnd(t, n);
    assert t[0..end] == t[..end];
    assert end == |t|;
    RunsAlike(line, t, n);
    assert line[0..|t|] == t;
  }

  /** A line that holds a link and then blanks holds just that link. */
  lemma LinkAndBlanks(line: string, t: string)
    requires OneLink(t) && t <= line && Blank(line, |t|)
    ensures Spans(line, 0) == [Span(0, |t|, t)]
  {
    CandidateAlike(line, t);
    hide StartsHere, Candidate, Opened, Usable;
    assert IsLink(line, 0) && SpanAt(line, 0) == Span(0, |t|, t) && NextIndex(line, 0) == |t|;
    BlankHasNoLink(line, |t|);
  }

  // ---------------------------------------------------------------- the shortest links

  lemma {:induction false} MatchIsLong(line: string, i: nat, words: seq<string>)
    requires FirstMatch(line, i, words) > 0 && forall k :: 0 <= k < |words| ==> |words[k]| >= 4
    ensures FirstMatch(line, i, words) >= 4
  {
    hide MatchesAt;
    if !MatchesAt(line, i, words[0]) { MatchIsLong(line, i, words[1..]); }
  }

  /** No link is shorter. */
  lemma LinkIsLong(line: string, i: nat)
    requires IsLink(line, i)
    ensures |Candidate(line, i)| >= SHORTEST
  {
    LinkIsLonger(line, i);
    MatchIsLong(line, i, SCHEMES + [BARE_HOST]);
  }

  /** No link starts with fewer. */
  lemma ShortLineStartsNone(line: string)
    requires |line| < SHORTEST && (|line| == 4 ==> Lower(line[0]) != 'w')
    ensures StartsHere(line, 0) == 0
  {
    var words := SCHEMES + [BARE_HOST];
    forall k | 0 <= k < |words| ensures !MatchesAt(line, 0, words[k]) {
      if k < |SCHEMES| {
        assert words[k] == SCHEMES[k] && |SCHEMES[k]| >= SHORTEST;
      } else {
        assert words[k] == BARE_HOST;
        assert |line| == 4 ==> Lower(line[0 + 0]) != Lower(BARE_HOST[0]);
      }
    }
    NoneMatches(line, 0, words);
  }

  lemma WholeIsOneLink(t: string)
    requires 0 < StartsHere(t, 0) < |t| <= MAX_URL && !StartsWith(t, BARE_HOST)
    requires forall k :: StartsHere(t, 0) <= k < |t| ==> IsAlphanumeric(t[k])
    ensures OneLink(t)
  {
    hide StartsHere;
    assert IsAlphanumeric(t[|t| - 1]);
    RunsOn(t, StartsHere(t, 0));
    assert t[0..|t|] == t;
    hide RunEnd;
  }

  /** One character behind `www.` in capitals is a link, and there is none shorter. */
  lemma HostInCapitals(t: string)
    requires |t| == SHORTEST && t[..4] == "WWW." && IsAlphanumeric(t[4])
    ensures OneLink(t)
  {
    assert forall k :: 0 <= k < 4 ==> t[k] == t[..4][k];
    assert MatchesAt(t, 0, BARE_HOST);
    CapitalStarts(t);
    hide StartsHere;
    WholeIsOneLink(t);
  }

  /** So is one behind the shortest scheme. */
  lemma ShortestScheme(t: string)
    requires |t| == 6 && t[..5] == "ws://" && IsAlphanumeric(t[5])
    ensures OneLink(t)
  {
    ShortestStarts(t);
    hide StartsHere;
    assert !StartsWith(t, BARE_HOST) by { assert t[..4][1] == t[..5][1] == 's'; }
    WholeIsOneLink(t);
  }

  lemma ShortestStarts(line: string)
    requires |line| >= 5 && line[..5] == "ws://"
    ensures StartsHere(line, 0) == 5
  {
    assert forall k :: 0 <= k < 5 ==> line[k] == line[..5][k];
    assert MatchesAt(line, 0, "ws://");
    var words := SCHEMES + [BARE_HOST];
    assert words[8] == "ws://";
    forall j | 0 <= j < 8 ensures !MatchesAt(line, 0, words[j]) {
      assert words[j] == SCHEMES[j];
      if j == 7 {
        assert Lower(line[0 + 2]) != Lower("wss://"[2]);
      } else {
        assert Lower(line[0 + 0]) != Lower(SCHEMES[j][0]);
      }
    }
    FirstMatchIs(line, 0, words, 8);
  }
}
