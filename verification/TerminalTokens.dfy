/**
 The character stream of the terminal emulator, cut into tokens.

 Control sequences are those of section 5.4 of ECMA-48: CSI, parameter bytes,
 intermediate bytes, a final byte.  An escape that does not complete is held until
 enough characters behind it show that it will not, and is then skipped.
 */
module TerminalTokens {
  import opened Base

  const ESC: char := '\U{1B}'
  const BEL: char := '\U{07}'

  /** An escape is held while fewer characters than this follow from it. */
  const HOLD: nat := 32

  datatype Token =
    | Text(ch: char)
    | Csi(args: string, plain: bool, cmd: char, length: nat)
    | Osc(length: nat)
    | Lone

  function Length(t: Token): nat {
    match t case Csi(_, _, _, n) => n case Osc(n) => n case _ => 1
  }

  predicate IsParameter(c: char) { '0' <= c <= '9' || c == ';' || c == '?' }

  predicate IsIntermediate(c: char) { ' ' <= c <= '/' }

  predicate IsFinal(c: char) { '@' <= c <= '~' }

  predicate InOsc(c: char) { c != BEL && c != ESC }

  /** Where the run of parameter bytes from `i` ends. */
  function Parameters(s: string, i: nat): (j: nat)
    requires i <= |s|
    ensures i <= j <= |s|
    ensures forall k :: i <= k < j ==> IsParameter(s[k])
    ensures j < |s| ==> !IsParameter(s[j])
    decreases |s| - i
  {
    if i < |s| && IsParameter(s[i]) then Parameters(s, i + 1) else i
  }

  function Intermediates(s: string, i: nat): (j: nat)
    requires i <= |s|
    ensures i <= j <= |s|
    ensures forall k :: i <= k < j ==> IsIntermediate(s[k])
    ensures j < |s| ==> !IsIntermediate(s[j])
    decreases |s| - i
  {
    if i < |s| && IsIntermediate(s[i]) then Intermediates(s, i + 1) else i
  }

  function OscText(s: string, i: nat): (j: nat)
    requires i <= |s|
    ensures i <= j <= |s|
    ensures forall k :: i <= k < j ==> InOsc(s[k])
    ensures j < |s| ==> !InOsc(s[j])
    decreases |s| - i
  {
    if i < |s| && InOsc(s[i]) then OscText(s, i + 1) else i
  }

  /** The control sequence a string starts with. */
  function MatchCsi(s: string): Option<Token> {
    if |s| < 2 || s[0] != ESC || s[1] != '[' then None
    else
      var j := Parameters(s, 2);
      var k := Intermediates(s, j);
      if k < |s| && IsFinal(s[k]) then Some(Csi(s[2..j], j == k, s[k], k + 1)) else None
  }

  /** The operating system command a string starts with, ended by BEL or by ESC \. */
  function MatchOsc(s: string): Option<Token> {
    if |s| < 2 || s[0] != ESC || s[1] != ']' then None
    else
      var j := OscText(s, 2);
      if j < |s| && s[j] == BEL then Some(Osc(j + 1))
      else if j + 1 < |s| && s[j + 1] == '\\' then Some(Osc(j + 2))
      else None
  }

  function Match(s: string): Option<Token> {
    if MatchCsi(s).Some? then MatchCsi(s) else MatchOsc(s)
  }

  /** The first token of a string, or nothing while an escape is held. */
  function Next(s: string): (t: Option<Token>)
    requires s != ""
    ensures t.Some? ==> 0 < Length(t.value) <= |s|
  {
    if s[0] != ESC then Some(Text(s[0]))
    else if Match(s).Some? then Match(s)
    else if |s| < HOLD then None
    else Some(Lone)
  }

  function Tokens(s: string): seq<Token>
    decreases |s|
  {
    if s == "" || Next(s).None? then [] else [Next(s).value] + Tokens(s[Length(Next(s).value)..])
  }

  /** What is held back. */
  function Pending(s: string): string
    decreases |s|
  {
    if s == "" || Next(s).None? then s else Pending(s[Length(Next(s).value)..])
  }

  // --------------------------------------------------------------- matching is local

  /** A run that ends inside a prefix ends there in the whole. */
  lemma {:induction false} ParametersStay(a: string, b: string, i: nat)
    requires i <= |a|
    ensures Parameters(a, i) < |a| ==> Parameters(a + b, i) == Parameters(a, i)
    ensures Parameters(a + b, i) >= Parameters(a, i)
    decreases |a| - i
  {
    if i < |a| { ParametersStay(a, b, i + 1); }
  }

  lemma {:induction false} IntermediatesStay(a: string, b: string, i: nat)
    requires i <= |a|
    ensures Intermediates(a, i) < |a| ==> Intermediates(a + b, i) == Intermediates(a, i)
    ensures Intermediates(a + b, i) >= Intermediates(a, i)
    decreases |a| - i
  {
    if i < |a| { IntermediatesStay(a, b, i + 1); }
  }

  lemma {:induction false} OscTextStays(a: string, b: string, i: nat)
    requires i <= |a|
    ensures OscText(a, i) < |a| ==> OscText(a + b, i) == OscText(a, i)
    ensures OscText(a + b, i) >= OscText(a, i)
    decreases |a| - i
  {
    if i < |a| { OscTextStays(a, b, i + 1); }
  }

  /** A sequence matched in a prefix is matched in the whole, and a sequence of the whole
      that fits the prefix is matched there. */
  lemma CsiIsLocal(a: string, b: string)
    ensures MatchCsi(a).Some? ==> MatchCsi(a + b) == MatchCsi(a)
    ensures MatchCsi(a + b).Some? && Length(MatchCsi(a + b).value) <= |a| ==> MatchCsi(a) == MatchCsi(a + b)
  {
    if |a| >= 2 && a[0] == ESC && a[1] == '[' {
      var j := Parameters(a, 2);
      var k := Intermediates(a, j);
      ParametersStay(a, b, 2);
      IntermediatesStay(a, b, j);
      assert (a + b)[2..j] == a[2..j];
      if j == |a| { assert k == |a|; }
    }
  }

  lemma OscIsLocal(a: string, b: string)
    ensures MatchOsc(a).Some? ==> MatchOsc(a + b) == MatchOsc(a)
    ensures MatchOsc(a + b).Some? && Length(MatchOsc(a + b).value) <= |a| ==> MatchOsc(a) == MatchOsc(a + b)
  {
    if |a| >= 2 && a[0] == ESC && a[1] == ']' {
      OscTextStays(a, b, 2);
    }
  }

  lemma MatchIsLocal(a: string, b: string)
    ensures Match(a).Some? ==> Match(a + b) == Match(a)
    ensures Match(a + b).Some? && Length(Match(a + b).value) <= |a| ==> Match(a) == Match(a + b)
  {
    CsiIsLocal(a, b);
    OscIsLocal(a, b);
    if Match(a + b).Some? && MatchCsi(a + b).Some? && MatchOsc(a).Some? { assert a[1] == (a + b)[1]; }
  }

  // -------------------------------------------------------------- chunk independence

  predicate Short(ts: seq<Token>) { forall i :: 0 <= i < |ts| ==> Length(ts[i]) <= HOLD }

  lemma ShortRest(x: seq<Token>, y: seq<Token>)
    requires Short(x + y)
    ensures Short(y)
  {
    assert forall i :: 0 <= i < |y| ==> y[i] == (x + y)[|x| + i];
  }

  lemma NothingYet(s: string)
    requires s == "" || Next(s).None?
    ensures Tokens(s) == [] && Pending(s) == s
  {
  }

  /** The first token of a prefix is the first of the whole when that one is short. */
  lemma NextStays(a: string, b: string, t: Token)
    requires a != "" && Next(a) == Some(t) && Short(Tokens(a + b))
    ensures Next(a + b) == Some(t)
  {
    hide Match, Tokens, Pending;
    MatchIsLocal(a, b);
    assert (a + b)[0] == a[0];
    var u := Next(a + b).value;
    FirstToken(a + b, u);
    assert Tokens(a + b)[0] == u;
  }

  /** With no long sequence in the stream, stopping anywhere changes nothing. */
  lemma {:induction false} StoppingChangesNothing(a: string, b: string)
    requires Short(Tokens(a + b))
    ensures Tokens(a + b) == Tokens(a) + Tokens(Pending(a) + b)
    ensures Pending(a + b) == Pending(Pending(a) + b)
    decreases |a|
  {
    hide Next, Tokens, Pending, Match, Length;
    if a == "" || Next(a).None? {
      NothingYet(a);
      assert a + b == b || a != "";
      assert [] + Tokens(a + b) == Tokens(a + b);
    } else {
      var t := Next(a).value;
      var n := Length(t);
      NextStays(a, b, t);
      FirstToken(a, t);
      FirstToken(a + b, t);
      assert (a + b)[n..] == a[n..] + b;
      ShortRest([t], Tokens(a[n..] + b));
      StoppingChangesNothing(a[n..], b);
      assert [t] + (Tokens(a[n..]) + Tokens(Pending(a) + b)) == [t] + Tokens(a[n..]) + Tokens(Pending(a) + b);
    }
  }

  /** A string with any token has a first one. */
  lemma SomeToken(s: string) returns (t: Token)
    requires Tokens(s) != []
    ensures s != "" && Next(s) == Some(t) && 0 < Length(t) <= |s|
  {
    t := Next(s).value;
  }

  lemma LongBehind(t: Token, rest: seq<Token>)
    requires Length(t) <= HOLD && !Short([t] + rest)
    ensures !Short(rest)
  {
    var i :| 0 <= i < |[t] + rest| && Length(([t] + rest)[i]) > HOLD;
    assert rest[i - 1] == ([t] + rest)[i];
  }

  /** Stopped a hold into a long sequence, its escape is skipped alone. */
  lemma LongTokenIsSkipped(a: string, b: string, t: Token)
    requires |a| == HOLD < Length(t) && Next(a + b) == Some(t)
    ensures Tokens(a) + Tokens(Pending(a) + b) != Tokens(a + b)
  {
    MatchIsLocal(a, b);
    assert a[0] == (a + b)[0];
    assert Next(a) == Some(Lone);
    FirstToken(a, Lone);
    FirstToken(a + b, t);
    hide Next, Tokens, Pending, Match;
    assert (Tokens(a) + Tokens(Pending(a) + b))[0] == Lone;
  }

  /** After a long sequence, a stop one hold into it is visible: the escape is skipped. */
  lemma {:induction false} LongSequenceShows(s: string) returns (a: string, b: string)
    requires !Short(Tokens(s))
    ensures s == a + b && |a| >= HOLD
    ensures Tokens(a) + Tokens(Pending(a) + b) != Tokens(s)
    decreases |s|
  {
    hide Next, Tokens, Pending, Length;
    var t := SomeToken(s);
    var n := Length(t);
    FirstToken(s, t);
    if n > HOLD {
      a, b := s[..HOLD], s[HOLD..];
      assert s == a + b;
      LongTokenIsSkipped(a, b, t);
    } else {
      LongBehind(t, Tokens(s[n..]));
      a, b := LongSequenceShows(s[n..]);
      assert s[..n] + a + b == s;
      TokenAhead(s[..n], t, a, b);
      a := s[..n] + a;
    }
  }

  /** A short token is recognized as soon as a hold's worth of characters is there. */
  lemma ShortTokenIsSeen(a: string, b: string, t: Token)
    requires |a| >= HOLD && Next(a + b) == Some(t) && Length(t) <= HOLD
    ensures Next(a) == Some(t)
  {
    MatchIsLocal(a, b);
    assert a[0] == (a + b)[0];
  }

  /** A short token ahead of a visible stop leaves it visible. */
  lemma TokenAhead(u: string, t: Token, a: string, b: string)
    requires u != "" && |u| == Length(t) <= HOLD <= |a| && Next(u + a + b) == Some(t)
    requires Tokens(a) + Tokens(Pending(a) + b) != Tokens(a + b)
    ensures Tokens(u + a) + Tokens(Pending(u + a) + b) != Tokens(u + a + b)
  {
    hide Tokens, Pending, Next;
    ShortTokenIsSeen(u + a, b, t);
    Behind(u, a, b);
    FirstToken(u + a + b, t);
    FirstToken(u + a, t);
    Prepended(t, Tokens(a) + Tokens(Pending(a) + b), Tokens(a + b));
    assert [t] + Tokens(a) + Tokens(Pending(a) + b) == [t] + (Tokens(a) + Tokens(Pending(a) + b));
  }

  lemma Behind(u: string, a: string, b: string)
    ensures (u + a + b)[|u|..] == a + b && (u + a)[|u|..] == a
  {
  }

  lemma Prepended(t: Token, x: seq<Token>, y: seq<Token>)
    requires x != y
    ensures [t] + x != [t] + y
  {
    assert ([t] + x)[1..] == x && ([t] + y)[1..] == y;
  }

  lemma FirstToken(s: string, t: Token)
    requires s != "" && Next(s) == Some(t)
    ensures Tokens(s) == [t] + Tokens(s[Length(t)..]) && Pending(s) == Pending(s[Length(t)..])
  {
  }

  /** The tokens of a stream do not depend on where a read stopped exactly when no sequence
      in it is longer than the hold. */
  lemma ExactlyWhenStopsAreInvisible(s: string)
    ensures Short(Tokens(s)) <==>
              forall a, b :: s == a + b ==> Tokens(a) + Tokens(Pending(a) + b) == Tokens(s)
  {
    if Short(Tokens(s)) {
      forall a, b | s == a + b ensures Tokens(a) + Tokens(Pending(a) + b) == Tokens(s) {
        StoppingChangesNothing(a, b);
      }
    } else {
      var a, b := LongSequenceShows(s);
    }
  }
}
