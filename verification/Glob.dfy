/**
 The two-cursor wildcard matcher behind an `Include` line: `*` any run, `?` one
 character, anything else itself.

 The loop remembers only the last star it met.  It is sound on every input and
 complete on every pair of which one side holds no star; the character test runs
 before the star test, so a star in the name can be taken for the star in the
 pattern, and both halves of that condition are shown to be needed.
 */
module Glob {
  import opened Base

  // ------------------------------------------------------------- the relation

  /** What a pattern means, independently of how it is searched for. */
  ghost predicate Matches(p: string, n: string)
    decreases |p|
  {
    if p == "" then n == ""
    else if p[0] == '*' then exists i :: 0 <= i <= |n| && Matches(p[1..], n[i..])
    else n != "" && (p[0] == '?' || p[0] == n[0]) && Matches(p[1..], n[1..])
  }

  predicate AllStars(p: string) { forall i :: 0 <= i < |p| ==> p[i] == '*' }

  // ------------------------------------------------------------- the search

  /** The cursor positions the loop can be in. */
  predicate Cursors(p: string, n: string, pi: nat, ni: nat, star: Option<nat>, rewind: nat) {
    && pi <= |p| && rewind <= ni <= |n|
    && (star.Some? ==> star.value < pi && p[star.value] == '*')
  }

  /** The loop's answer from a given position. */
  predicate Search(p: string, n: string, pi: nat, ni: nat, star: Option<nat>, rewind: nat)
    requires Cursors(p, n, pi, ni, star, rewind)
    decreases |n| - rewind, |n| - ni + |p| - pi
  {
    if ni == |n| then AllStars(p[pi..])
    else if pi < |p| && (p[pi] == '?' || p[pi] == n[ni]) then Search(p, n, pi + 1, ni + 1, star, rewind)
    else if pi < |p| && p[pi] == '*' then Search(p, n, pi + 1, ni, Some(pi), ni)
    else if star.Some? then Search(p, n, star.value + 1, rewind + 1, star, rewind + 1)
    else false
  }

  predicate Found(p: string, n: string) { Search(p, n, 0, 0, None, 0) }

  /** The loop itself.  Each backtrack strictly advances `rewind`. */
  method GlobMatch(p: string, n: string) returns (b: bool)
    ensures b == Found(p, n)
    ensures b ==> Matches(p, n)
    ensures '*' !in p || '*' !in n ==> (b <==> Matches(p, n))
  {
    var pi: nat, ni: nat, star: Option<nat>, rewind: nat := 0, 0, None, 0;
    FoundIsMatch(p, n);
    while ni < |n|
      invariant Cursors(p, n, pi, ni, star, rewind)
      invariant Search(p, n, pi, ni, star, rewind) == Found(p, n)
      decreases |n| - rewind, |n| - ni + |p| - pi
    {
      if pi < |p| && (p[pi] == '?' || p[pi] == n[ni]) {
        pi, ni := pi + 1, ni + 1;
      } else if pi < |p| && p[pi] == '*' {
        star, rewind, pi := Some(pi), ni, pi + 1;
      } else if star.Some? {
        pi := star.value + 1;
        rewind := rewind + 1;
        ni := rewind;
      } else {
        return false;
      }
    }
    b := AllStars(p[pi..]);
  }

  // ------------------------------------------------------- facts of the relation

  lemma {:induction false} StarsMatchNothing(p: string)
    ensures AllStars(p) <==> Matches(p, "")
  {
    if p != "" {
      StarsMatchNothing(p[1..]);
      assert p == [p[0]] + p[1..];
      if p[0] == '*' {
        assert ""[0..] == "";
        assert forall i :: 1 <= i < |p| ==> p[i] == p[1..][i - 1];
      }
    }
  }

  /** A star may swallow more. */
  lemma StarSwallows(p: string, n: string, i: nat)
    requires p != "" && p[0] == '*' && i <= |n| && Matches(p, n[i..])
    ensures Matches(p, n)
  {
    var j :| 0 <= j <= |n[i..]| && Matches(p[1..], n[i..][j..]);
    assert n[i..][j..] == n[i + j..];
  }

  /** A prefix without stars consumes exactly its own length. */
  lemma {:induction false} FixedPrefix(p: string, k: nat, n: string)
    requires k <= |p| && '*' !in p[..k] && Matches(p, n)
    ensures k <= |n| && Matches(p[k..], n[k..])
  {
    if k == 0 {
      assert p[0..] == p && n[0..] == n;
    } else {
      assert p[0] in p[..k];
      assert p[1..][..k - 1] == p[..k][1..];
      FixedPrefix(p[1..], k - 1, n[1..]);
      assert p[1..][k - 1..] == p[k..] && n[1..][k - 1..] == n[k..];
    }
  }

  lemma {:induction false} MatchesConcat(p: string, n: string, q: string, m: string)
    requires Matches(p, n) && Matches(q, m)
    ensures Matches(p + q, n + m)
  {
    if p == "" {
      assert p + q == q && n + m == m;
    } else {
      assert (p + q)[1..] == p[1..] + q;
      if p[0] == '*' {
        var i :| 0 <= i <= |n| && Matches(p[1..], n[i..]);
        MatchesConcat(p[1..], n[i..], q, m);
        assert (n + m)[i..] == n[i..] + m;
      } else {
        MatchesConcat(p[1..], n[1..], q, m);
        assert (n + m)[1..] == n[1..] + m;
      }
    }
  }

  /** Every pattern matches its own text. */
  lemma {:induction false} MatchesItself(p: string)
    ensures Matches(p, p)
  {
    if p != "" { MatchesItself(p[1..]); }
  }

  // ------------------------------------------------------------ soundness

  /** A successful search has matched from its cursors, or from its last star. */
  lemma {:induction false} SearchSound(p: string, n: string, pi: nat, ni: nat, star: Option<nat>, rewind: nat)
    requires Cursors(p, n, pi, ni, star, rewind)
    requires Search(p, n, pi, ni, star, rewind)
    ensures Matches(p[pi..], n[ni..]) || (star.Some? && Matches(p[star.value..], n[rewind..]))
    decreases |n| - rewind, |n| - ni + |p| - pi
  {
    if ni == |n| {
      StarsMatchNothing(p[pi..]);
      assert n[ni..] == "";
    } else if pi < |p| && (p[pi] == '?' || p[pi] == n[ni]) {
      SearchSound(p, n, pi + 1, ni + 1, star, rewind);
      assert p[pi..][1..] == p[pi + 1..] && n[ni..][1..] == n[ni + 1..];
    } else if pi < |p| && p[pi] == '*' {
      SearchSound(p, n, pi + 1, ni, Some(pi), ni);
      assert p[pi..][1..] == p[pi + 1..] && n[ni..][0..] == n[ni..];
    } else {
      var s := star.value;
      SearchSound(p, n, s + 1, rewind + 1, star, rewind + 1);
      assert p[s..][1..] == p[s + 1..] && n[rewind..][1..] == n[rewind + 1..];
      if Matches(p[s..], n[rewind + 1..]) { StarSwallows(p[s..], n[rewind..], 1); }
    }
  }

  // ------------------------------------------------------------ completeness

  /** The text since the last star was matched character by character. */
  predicate InStep(p: string, pi: nat, ni: nat, star: Option<nat>, rewind: nat)
    requires pi <= |p|
  {
    star.Some? ==> star.value < pi && ni == rewind + (pi - star.value - 1) && '*' !in p[star.value + 1..pi]
  }

  /** A star matches from where it stands only if some later start matches behind it. */
  lemma NothingToSwallow(p: string, n: string, pi: nat, ni: nat)
    requires pi < |p| && p[pi] == '*' && ni <= |n|
    requires forall i :: ni <= i <= |n| ==> !Matches(p[pi + 1..], n[i..])
    ensures !Matches(p[pi..], n[ni..])
  {
    assert p[pi..][1..] == p[pi + 1..];
    forall i | 0 <= i <= |n[ni..]| ensures !Matches(p[pi + 1..], n[ni..][i..]) {
      assert n[ni..][i..] == n[ni + i..];
    }
  }

  /** Away from a star, a character is matched by one pattern character or not at all. */
  lemma OneCharacter(p: string, n: string, pi: nat, ni: nat)
    requires pi <= |p| && ni < |n| && (pi < |p| ==> p[pi] != '*')
    ensures Matches(p[pi..], n[ni..]) <==>
              pi < |p| && (p[pi] == '?' || p[pi] == n[ni]) && Matches(p[pi + 1..], n[ni + 1..])
  {
    if pi < |p| { assert p[pi..][1..] == p[pi + 1..] && n[ni..][1..] == n[ni + 1..]; }
  }

  /** A failed search rules out its cursors and every later start after its last star:
      earlier stars need no second visit, since the last one can swallow whatever they
      would have. */
  lemma {:induction false} SearchComplete(p: string, n: string, pi: nat, ni: nat, star: Option<nat>, rewind: nat)
    requires '*' !in p || '*' !in n
    requires Cursors(p, n, pi, ni, star, rewind) && InStep(p, pi, ni, star, rewind)
    requires !Search(p, n, pi, ni, star, rewind)
    ensures !Matches(p[pi..], n[ni..])
    ensures star.Some? ==> forall i :: rewind < i <= |n| ==> !Matches(p[star.value + 1..], n[i..])
    decreases |n| - rewind, |n| - ni + |p| - pi
  {
    hide Matches;
    if ni == |n| {
      StarsMatchNothing(p[pi..]);
      assert n[ni..] == "";
      if star.Some? { OnlyEarlier(p, n, pi, ni, star.value, rewind); }
    } else if pi < |p| && (p[pi] == '?' || p[pi] == n[ni]) {
      assert p[pi] != '*';
      if star.Some? { assert p[star.value + 1..pi + 1] == p[star.value + 1..pi] + [p[pi]]; }
      SearchComplete(p, n, pi + 1, ni + 1, star, rewind);
      OneCharacter(p, n, pi, ni);
    } else if pi < |p| && p[pi] == '*' {
      SearchComplete(p, n, pi + 1, ni, Some(pi), ni);
      NothingToSwallow(p, n, pi, ni);
      if star.Some? { OnlyEarlier(p, n, pi, ni, star.value, rewind); }
    } else {
      OneCharacter(p, n, pi, ni);
      if star.Some? { SearchComplete(p, n, star.value + 1, rewind + 1, star, rewind + 1); }
    }
  }

  /** If nothing from the cursors on matches, and the pattern there can swallow a run or
      the name is used up, then no later start after the last star matches either. */
  lemma OnlyEarlier(p: string, n: string, pi: nat, ni: nat, s: nat, rewind: nat)
    requires Cursors(p, n, pi, ni, Some(s), rewind) && InStep(p, pi, ni, Some(s), rewind)
    requires ni == |n| || (pi < |p| && p[pi] == '*')
    requires !Matches(p[pi..], n[ni..])
    ensures forall i :: rewind < i <= |n| ==> !Matches(p[s + 1..], n[i..])
  {
    forall i | rewind < i <= |n| ensures !Matches(p[s + 1..], n[i..]) {
      NotLater(p, n, pi, ni, s, rewind, i);
    }
  }

  lemma NotLater(p: string, n: string, pi: nat, ni: nat, s: nat, rewind: nat, i: nat)
    requires Cursors(p, n, pi, ni, Some(s), rewind) && InStep(p, pi, ni, Some(s), rewind)
    requires ni == |n| || (pi < |p| && p[pi] == '*')
    requires !Matches(p[pi..], n[ni..]) && rewind < i <= |n|
    ensures !Matches(p[s + 1..], n[i..])
  {
    hide Matches;
    var k := pi - s - 1;
    if Matches(p[s + 1..], n[i..]) {
      assert p[s + 1..][..k] == p[s + 1..pi];
      FixedPrefix(p[s + 1..], k, n[i..]);
      if ni < |n| {
        assert p[s + 1..][k..] == p[pi..] && n[i..][k..] == n[i + k..];
        assert n[ni..][i - rewind..] == n[i + k..];
        StarSwallows(p[pi..], n[ni..], i - rewind);
      }
    }
  }

  /** The search is always sound, and complete when either side holds no star. */
  lemma FoundIsMatch(p: string, n: string)
    ensures Found(p, n) ==> Matches(p, n)
    ensures '*' !in p || '*' !in n ==> (Found(p, n) <==> Matches(p, n))
  {
    assert p[0..] == p && n[0..] == n;
    if Found(p, n) {
      SearchSound(p, n, 0, 0, None, 0);
    } else if '*' !in p || '*' !in n {
      SearchComplete(p, n, 0, 0, None, 0);
    }
  }

  // ------------------------------------------------- exactly when it is complete

  /** While the name repeats the pattern the search runs along both, stars included. */
  lemma {:induction false} RunsAlong(p: string, n: string, k: nat)
    requires k <= |p| && k <= |n| && p[..k] == n[..k]
    ensures Found(p, n) == Search(p, n, k, k, None, 0)
  {
    if k > 0 {
      assert p[..k - 1] == p[..k][..k - 1] && n[..k - 1] == n[..k][..k - 1];
      RunsAlong(p, n, k - 1);
      assert p[k - 1] == p[..k][k - 1] && n[k - 1] == n[..k][k - 1];
    }
  }

  /** Without a star ahead or behind, a longer name cannot be found. */
  lemma {:induction false} TooLong(p: string, n: string, pi: nat, ni: nat)
    requires pi <= |p| && ni <= |n| && '*' !in p[pi..] && |n| - ni > |p| - pi
    ensures !Search(p, n, pi, ni, None, 0)
    decreases |p| - pi
  {
    if pi < |p| {
      assert p[pi] in p[pi..];
      assert forall c :: c in p[pi + 1..] ==> c in p[pi..];
      if p[pi] == '?' || p[pi] == n[ni] { TooLong(p, n, pi + 1, ni + 1); }
    }
  }

  /** A star at either end of its own run of a string. */
  lemma LastStar(p: string) returns (head: string, tail: string)
    requires '*' in p
    ensures p == head + "*" + tail && '*' !in tail
  {
    var l := |p| - 1;
    if p[l] == '*' {
      head, tail := p[..l], "";
    } else {
      assert p == p[..l] + [p[l]];
      head, tail := LastStar(p[..l]);
      tail := tail + [p[l]];
    }
  }

  lemma FirstStar(n: string) returns (head: string, tail: string)
    requires '*' in n
    ensures n == head + "*" + tail && '*' !in head
  {
    if n[0] == '*' {
      head, tail := "", n[1..];
    } else {
      head, tail := FirstStar(n[1..]);
      head := [n[0]] + head;
    }
  }

  /** A name that repeats the pattern up to its last star and then has one character more
      matches, and is not found. */
  lemma MissedName(head: string, tail: string)
    requires '*' !in tail
    ensures Matches(head + "*" + tail, head + "*x" + tail)
    ensures !Found(head + "*" + tail, head + "*x" + tail)
  {
    var p, n := head + "*" + tail, head + "*x" + tail;
    MatchesItself(head);
    MatchesItself(tail);
    assert "*"[1..] == "" && "*x"[2..] == "";
    assert Matches("*", "*x");
    hide Matches, Search;
    MatchesConcat("*", "*x", tail, tail);
    MatchesConcat(head, head, "*" + tail, "*x" + tail);
    assert p == head + ("*" + tail) && n == head + ("*x" + tail);
    var k := |head| + 1;
    assert p[..k] == n[..k] && p[k..] == tail;
    RunsAlong(p, n, k);
    TooLong(p, n, k, k);
  }

  /** A name that goes on after its first star matches the pattern that ends in a star
      there, and is not found by it. */
  lemma MissedPattern(head: string, tail: string)
    requires tail != ""
    ensures Matches(head + "*", head + "*" + tail)
    ensures !Found(head + "*", head + "*" + tail)
  {
    var p, n := head + "*", head + "*" + tail;
    MatchesItself(head);
    assert ("*" + tail)[|tail| + 1..] == "" && "*"[1..] == "";
    MatchesConcat(head, head, "*", "*" + tail);
    assert n == head + ("*" + tail);
    var k := |head| + 1;
    assert p[..k] == n[..k] && p[k..] == "";
    RunsAlong(p, n, k);
    TooLong(p, n, k, k);
  }

  /** A name that ends at a star matches the pattern `*?` there, and is not found by it. */
  lemma MissedTail(head: string)
    ensures Matches(head + "*?", head + "*")
    ensures !Found(head + "*?", head + "*")
  {
    var p, n := head + "*?", head + "*";
    MatchesItself(head);
    assert Matches("?", "*");
    assert "*?"[1..] == "?" && "*"[0..] == "*";
    MatchesConcat(head, head, "*?", "*");
    var k := |head| + 1;
    assert p[..k] == n[..k] && p[k..] == "?";
    RunsAlong(p, n, k);
  }

  /** A pattern is answered correctly for every name exactly when it holds no star, and a
      name for every pattern exactly when it holds none. */
  lemma ExactlyWhenComplete(s: string)
    ensures (forall n :: Found(s, n) <==> Matches(s, n)) <==> '*' !in s
    ensures (forall p :: Found(p, s) <==> Matches(p, s)) <==> '*' !in s
  {
    if '*' in s {
      var head, tail := LastStar(s);
      MissedName(head, tail);
      head, tail := FirstStar(s);
      if tail != "" {
        MissedPattern(head, tail);
      } else {
        MissedTail(head);
        assert head + "*" + tail == head + "*";
      }
    } else {
      forall t ensures (Found(s, t) <==> Matches(s, t)) && (Found(t, s) <==> Matches(t, s)) {
        FoundIsMatch(s, t);
        FoundIsMatch(t, s);
      }
    }
  }
}
