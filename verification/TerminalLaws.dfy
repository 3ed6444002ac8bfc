/**
 What the terminal does with the text it is fed: where absolute moves lead, what is
 typed where and with which pen, what erasures blank, and what is passed over.

 The laws are about the characters of a read; nothing here follows the code that
 takes them apart.
 */
module TerminalLaws {
  import opened Base
  import opened Strings
  import opened Terminal
  import opened TerminalTokens

  /** Fed `text`, the screen goes from one state to another; no escape in it is held back or
      skipped. */
  ghost predicate Feeds(s: State, text: string, widths: Widths, t: State) {
    Valid(s) && ApplyAll(s, Tokens(text), widths) == Some(t) && Pending(text) == "" && Whole(Tokens(text))
  }

  predicate Whole(ts: seq<Token>) { forall i :: 0 <= i < |ts| ==> !ts[i].Lone? }

  /** A control sequence with these parameters. */
  function Sequence(args: string, cmd: char): string { [ESC, '['] + args + [cmd] }

  /** Numbers as parameters. */
  function Spelled(ps: seq<nat>): string {
    if ps == [] then "" else if |ps| == 1 then Decimal(ps[0]) else Decimal(ps[0]) + ";" + Spelled(ps[1..])
  }

  // ------------------------------------------------------------------ reading the text

  /** Text that is complete is read first, whatever follows. */
  lemma {:induction false} ReadsFirst(a: string, b: string)
    requires Whole(Tokens(a)) && Pending(a) == ""
    ensures Tokens(a + b) == Tokens(a) + Tokens(b) && Pending(a + b) == Pending(b)
    decreases |a|
  {
    hide Match, Length;
    if a == "" {
      assert a + b == b;
    } else {
      var t := Next(a).value;
      var n := Length(t);
      assert Tokens(a)[0] == t;
      MatchIsLocal(a, b);
      assert (a + b)[0] == a[0];
      assert Next(a + b) == Some(t);
      assert (a + b)[n..] == a[n..] + b;
      assert forall i :: 0 <= i < |Tokens(a[n..])| ==> Tokens(a[n..])[i] == Tokens(a)[i + 1];
      ReadsFirst(a[n..], b);
    }
  }

  /** Feeding one text and then another is feeding both. */
  lemma FeedsOn(s: State, a: string, widths: Widths, t: State, b: string, u: State)
    requires Feeds(s, a, widths, t) && Feeds(t, b, widths, u)
    ensures Feeds(s, a + b, widths, u)
  {
    hide Valid, ApplyAll, Tokens, Pending, Whole;
    WholeBoth(Tokens(a), Tokens(b));
    ReadsFirst(a, b);
    ApplyConcat(s, Tokens(a), Tokens(b), widths);
  }

  lemma WholeBoth(ts: seq<Token>, us: seq<Token>)
    requires Whole(ts) && Whole(us)
    ensures Whole(ts + us)
  {
  }

  predicate AllParameters(args: string) { forall i :: 0 <= i < |args| ==> IsParameter(args[i]) }

  lemma {:induction false} ParametersRun(s: string, i: nat, j: nat)
    requires i <= j < |s| && (forall k :: i <= k < j ==> IsParameter(s[k])) && !IsParameter(s[j])
    ensures Parameters(s, i) == j
    decreases j - i
  {
    if i < j { ParametersRun(s, i + 1, j); }
  }

  lemma {:induction false} IntermediatesRun(s: string, i: nat, j: nat)
    requires i <= j < |s| && (forall k :: i <= k < j ==> IsIntermediate(s[k])) && !IsIntermediate(s[j])
    ensures Intermediates(s, i) == j
    decreases j - i
  {
    if i < j { IntermediatesRun(s, i + 1, j); }
  }

  /** Digits, semicolons and question marks; what lies between them and the final character. */
  predicate Numeric(args: string) {
    forall i :: 0 <= i < |args| ==> '0' <= args[i] <= '9' || args[i] == ';' || args[i] == '?'
  }

  predicate Middle(mids: string) { forall i :: 0 <= i < |mids| ==> ' ' <= mids[i] <= '/' }

  /** A control sequence of any length is one token, and those are all there are. */
  lemma ControlSequences(args: string, mids: string, cmd: char)
    requires Numeric(args) && Middle(mids) && '@' <= cmd <= '~'
    ensures var s := [ESC, '['] + args + mids + [cmd];
            Tokens(s) == [Csi(args, mids == "", cmd, |s|)] && Pending(s) == ""
  {
    var s, m, n := [ESC, '['] + args + mids + [cmd], |args| + 2, |args| + |mids| + 2;
    assert forall k :: 2 <= k < m ==> s[k] == args[k - 2];
    assert forall k :: m <= k < n ==> s[k] == mids[k - m];
    ParametersRun(s, 2, m);
    IntermediatesRun(s, m, n);
    assert s[2..m] == args && s[n] == cmd && s[n + 1..] == "";
    assert Next(s) == Some(Csi(args, mids == "", cmd, n + 1));
    FirstToken(s, Csi(args, mids == "", cmd, n + 1));
    NothingYet("");
  }

  lemma OnlyControlSequences(s: string, t: TerminalTokens.Token)
    requires s != "" && Next(s) == Some(t) && t.Csi?
    ensures Numeric(t.args) && '@' <= t.cmd <= '~' && t.length <= |s|
    ensures exists mids :: Middle(mids) && (t.plain <==> mids == "")
                           && s[..t.length] == [ESC, '['] + t.args + mids + [t.cmd]
  {
    var j := Parameters(s, 2);
    var k := Intermediates(s, j);
    assert s[..t.length] == [ESC, '['] + t.args + s[j..k] + [t.cmd];
    assert Middle(s[j..k]);
  }

  /** An escape that starts nothing known is held until as many characters are there as it is
      held for, and then passed over alone. */
  lemma OtherEscapes(s: string)
    requires s != "" && s[0] == ESC && (|s| > 1 ==> s[1] != '[' && s[1] != ']')
    ensures |s| < HOLD ==> Tokens(s) == [] && Pending(s) == s
    ensures |s| >= HOLD ==> Tokens(s) == [Lone] + Tokens(s[1..]) && Pending(s) == Pending(s[1..])
  {
    if |s| < HOLD { NothingYet(s); } else { FirstToken(s, Lone); }
  }

  /** A control sequence without intermediates is one token. */
  lemma SequenceIsOneToken(args: string, cmd: char)
    requires AllParameters(args) && IsFinal(cmd)
    ensures Tokens(Sequence(args, cmd)) == [Csi(args, true, cmd, |args| + 3)] && Pending(Sequence(args, cmd)) == ""
  {
    ControlSequences(args, "", cmd);
    assert Sequence(args, cmd) == [ESC, '['] + args + "" + [cmd];
  }

  lemma {:induction false} SpelledAreParameters(ps: seq<nat>)
    ensures AllParameters(Spelled(ps))
  {
    if |ps| > 1 { SpelledAreParameters(ps[1..]); }
  }

  /** The numbers come back as they were spelled. */
  lemma {:induction false} SpelledNumbers(ps: seq<nat>)
    requires ps != []
    ensures Numbers(Split(Spelled(ps), ';')) == ps
  {
    hide Split;
    var first := Decimal(ps[0]);
    ValueOfDecimal(ps[0]);
    assert ';' !in first && Digits(first);
    if |ps| == 1 {
      SplitNone(first, ';');
      assert Numbers([]) == [] && [first][1..] == [];
    } else {
      SplitFirst(first, ';', Spelled(ps[1..]));
      SpelledNumbers(ps[1..]);
      assert ([first] + Split(Spelled(ps[1..]), ';'))[1..] == Split(Spelled(ps[1..]), ';');
    }
  }

  /** Read as parameters, spelled numbers are those numbers; spelling none leaves none. */
  lemma SpelledRead(ps: seq<nat>)
    ensures AllParameters(Spelled(ps)) && Numbers(Split(Spelled(ps), ';')) == ps
  {
    SpelledAreParameters(ps);
    if ps == [] {
      SplitNone("", ';');
      assert [""][1..] == [];
    } else {
      SpelledNumbers(ps);
    }
  }

  /** What one control sequence does. */
  lemma SequenceFeeds(s: State, args: string, cmd: char, widths: Widths)
    requires Valid(s) && AllParameters(args) && IsFinal(cmd) && Control(s, args, cmd).Some?
    ensures Feeds(s, Sequence(args, cmd), widths, Control(s, args, cmd).value)
  {
    var t := Csi(args, true, cmd, |args| + 3);
    SequenceIsOneToken(args, cmd);
    hide Tokens, Control, Valid, Numbers, Split;
    ApplyFirst(s, t, [], widths);
    assert [t] + [] == [t];
    ApplyNone(Control(s, args, cmd).value, widths);
  }

  // -------------------------------------------------------------------- absolute moves

  /** Row or column `n` of `extent`, counted from one: beyond the edge it is the edge. */
  predicate Reaches(at: int, n: nat, extent: nat) {
    && (1 <= n <= extent ==> at == n - 1)
    && (n > extent ==> at == extent - 1)
    && (n == 0 ==> at == 0)
  }

  /** Row and column, in this order; a missing one counts as one, and more are passed over. */
  lemma MoveLands(s: State, ps: seq<nat>, cmd: char, widths: Widths) returns (t: State)
    requires Valid(s) && (cmd == 'H' || cmd == 'f')
    ensures Feeds(s, Sequence(Spelled(ps), cmd), widths, t)
    ensures t.grid == s.grid && t.pen == s.pen
    ensures Reaches(t.y, if |ps| > 0 then ps[0] else 1, s.grid.rows)
    ensures Reaches(t.x, if |ps| > 1 then ps[1] else 1, s.grid.cols)
  {
    hide Numbers, Split, Spelled, Tokens, Feeds, Whole, AllParameters, Rendition, EraseRow, EraseBelow, Cleared;
    SpelledRead(ps);
    SequenceFeeds(s, Spelled(ps), cmd, widths);
    t := Control(s, Spelled(ps), cmd).value;
  }

  lemma ColumnLands(s: State, ps: seq<nat>, widths: Widths) returns (t: State)
    requires Valid(s)
    ensures Feeds(s, Sequence(Spelled(ps), 'G'), widths, t)
    ensures t.grid == s.grid && t.pen == s.pen && t.y == s.y
    ensures Reaches(t.x, if |ps| > 0 then ps[0] else 1, s.grid.cols)
  {
    hide Numbers, Split, Spelled, Tokens, Feeds, Whole, AllParameters, Rendition, EraseRow, EraseBelow, Cleared;
    SpelledRead(ps);
    SequenceFeeds(s, Spelled(ps), 'G', widths);
    t := Control(s, Spelled(ps), 'G').value;
  }

  // ------------------------------------------------------------------------ typed text

  /** Characters of one column each; a combining one is given a column like any other. */
  predicate Narrow(text: string, widths: Widths) {
    forall i :: 0 <= i < |text| ==> text[i] >= ' ' && widths(text[i]) <= 1
  }

  lemma TypedIsRead(ch: char, rest: string)
    requires ch != ESC
    ensures Tokens([ch] + rest) == [Text(ch)] + Tokens(rest) && Pending([ch] + rest) == Pending(rest)
    ensures Whole(Tokens(rest)) ==> Whole(Tokens([ch] + rest))
  {
    var s := [ch] + rest;
    assert Next(s) == Some(Text(ch)) && s[1..] == rest;
    FirstToken(s, Text(ch));
    assert forall i :: 0 < i < |Tokens(s)| ==> Tokens(s)[i] == Tokens(rest)[i - 1];
  }

  /** The grid holds a text from a cell of row `y` on, as far as the row reaches, and is as
      it was elsewhere. */
  ghost predicate Written(g: Grid, h: Grid, x: int, y: int, text: string, pen: Pen) {
    && Sized(g) && Sized(h) && h.rows == g.rows && h.cols == g.cols
    && forall cx, cy :: At(h, cx, cy) ==
         if cy == y && x <= cx < x + |text| && At(g, cx, cy).Some? then Some(Cell([text[cx - x]], pen, false))
         else At(g, cx, cy)
  }

  /** A text lands where the cursor is, one character a column, with the pen; the cursor is
      right behind it, and nothing is wrapped. */
  lemma {:induction false} TextLands(s: State, text: string, widths: Widths) returns (t: State)
    requires Valid(s) && Narrow(text, widths)
    ensures Feeds(s, text, widths, t) && Valid(t)
    ensures t.x == s.x + |text| && t.y == s.y && t.pen == s.pen && Written(s.grid, t.grid, s.x, s.y, text, s.pen)
    decreases |text|
  {
    hide Tokens, Pending;
    if text == "" {
      NothingYet("");
      ApplyNone(s, widths);
      t := s;
    } else {
      var ch, rest := text[0], text[1..];
      var typed := TypeChar(s, ch, widths);
      CharLands(s, ch, widths);
      t := TextLands(typed, rest, widths);
      assert [ch] + rest == text;
      TypedIsRead(ch, rest);
      ApplyFirst(s, Text(ch), Tokens(rest), widths);
      WrittenOn(s.grid, typed.grid, t.grid, s.x, s.y, ch, rest, s.pen);
    }
  }

  lemma CharLands(s: State, ch: char, widths: Widths)
    requires Valid(s) && ch >= ' ' && widths(ch) <= 1
    ensures var t := TypeChar(s, ch, widths);
            t.x == s.x + 1 && t.y == s.y && t.pen == s.pen && Written(s.grid, t.grid, s.x, s.y, [ch], s.pen)
  {
    forall cx, cy
      ensures At(TypeChar(s, ch, widths).grid, cx, cy) ==
                if cy == s.y && s.x <= cx < s.x + 1 && At(s.grid, cx, cy).Some? then Some(Cell([ch], s.pen, false))
                else At(s.grid, cx, cy)
    {
      TypingTouchesTheCursorCells(s, ch, widths, cx, cy);
    }
  }

  lemma WrittenOn(g: Grid, h: Grid, k: Grid, x: int, y: int, ch: char, rest: string, pen: Pen)
    requires Written(g, h, x, y, [ch], pen) && Written(h, k, x + 1, y, rest, pen)
    ensures Written(g, k, x, y, [ch] + rest, pen)
  {
    hide At;
  }

  /** A character of two columns takes the cursor's cell and leaves the other half of it empty
      in the next. */
  lemma WideCharLands(s: State, ch: char, widths: Widths) returns (t: State)
    requires Valid(s) && ch >= ' ' && widths(ch) == 2
    ensures Feeds(s, [ch], widths, t)
    ensures t.x == s.x + 2 && t.y == s.y && t.pen == s.pen && Sized(t.grid)
    ensures forall cx, cy :: At(t.grid, cx, cy) ==
              if At(s.grid, cx, cy).None? || cy != s.y || !(s.x <= cx <= s.x + 1) then At(s.grid, cx, cy)
              else if cx == s.x then Some(Cell([ch], s.pen, false))
              else Some(Cell("", s.pen, true))
  {
    t := TypeChar(s, ch, widths);
    forall cx, cy ensures At(t.grid, cx, cy) ==
              if At(s.grid, cx, cy).None? || cy != s.y || !(s.x <= cx <= s.x + 1) then At(s.grid, cx, cy)
              else if cx == s.x then Some(Cell([ch], s.pen, false))
              else Some(Cell("", s.pen, true))
    {
      TypingTouchesTheCursorCells(s, ch, widths, cx, cy);
    }
    hide TypeChar;
    OneCharFeeds(s, ch, widths);
  }

  lemma OneCharFeeds(s: State, ch: char, widths: Widths)
    requires Valid(s) && ch != ESC
    ensures Feeds(s, [ch], widths, TypeChar(s, ch, widths))
  {
    hide TypeChar, Valid, Tokens, Pending;
    NothingYet("");
    assert [ch] + "" == [ch] && [Text(ch)] + [] == [Text(ch)];
    TypedIsRead(ch, "");
    ApplyFirst(s, Text(ch), [], widths);
    ApplyNone(TypeChar(s, ch, widths), widths);
  }

  /** The line controls: back to the first column; the next row, or the last, from its first
      column; one column back; and nothing, for the bell and any other. */
  lemma ControlsMove(s: State, ch: char, widths: Widths) returns (t: State)
    requires Valid(s) && ch < ' ' && ch != ESC
    ensures Feeds(s, [ch], widths, t)
    ensures t.grid == s.grid && t.pen == s.pen
    ensures ch == '\n' ==> t.x == 0 && t.y == if s.y + 1 < s.grid.rows then s.y + 1 else s.y
    ensures ch != '\n' ==> t.y == s.y
    ensures ch == '\r' ==> t.x == 0
    ensures ch == '\U{08}' ==> t.x == if s.x > 0 then s.x - 1 else 0
    ensures ch != '\n' && ch != '\r' && ch != '\U{08}' ==> t.x == s.x
  {
    t := TypeChar(s, ch, widths);
    OneCharFeeds(s, ch, widths);
  }

  /** What a program paints: after a move to row `r` and column `c`, counted from one, a text
      stands there with the pen, nothing else has changed, and the cursor is behind it. */
  lemma PaintLands(s: State, r: nat, c: nat, text: string, widths: Widths) returns (t: State)
    requires Valid(s) && 1 <= r <= s.grid.rows && 1 <= c <= s.grid.cols && Narrow(text, widths)
    ensures Feeds(s, Sequence(Decimal(r) + ";" + Decimal(c), 'H') + text, widths, t)
    ensures t.y == r - 1 && t.x == c - 1 + |text| && t.pen == s.pen
    ensures Written(s.grid, t.grid, c - 1, r - 1, text, s.pen)
  {
    hide Tokens, Pending, Written, Valid, Decimal, Feeds, Narrow;
    assert Spelled([r, c]) == Decimal(r) + ";" + Decimal(c) by {
      assert [r, c][1..] == [c];
    }
    var moved := MoveLands(s, [r, c], 'H', widths);
    FeedsLeavesValid(s, Sequence(Spelled([r, c]), 'H'), widths, moved);
    t := TextLands(moved, text, widths);
    FeedsOn(s, Sequence(Spelled([r, c]), 'H'), widths, moved, text, t);
  }

  lemma FeedsLeavesValid(s: State, text: string, widths: Widths, t: State)
    requires Feeds(s, text, widths, t)
    ensures Valid(t) && t.grid.rows == s.grid.rows && t.grid.cols == s.grid.cols
  {
    hide Tokens, Pending, Valid;
  }

  // -------------------------------------------------------------------- relative moves

  /** Up, down, right and left by a count, one if none is given, as far as the edge. */
  lemma StepsMove(s: State, ps: seq<nat>, cmd: char, widths: Widths) returns (t: State)
    requires Valid(s) && cmd in "ABCD"
    ensures Feeds(s, Sequence(Spelled(ps), cmd), widths, t) && t.grid == s.grid && t.pen == s.pen
    ensures var n := if |ps| > 0 then ps[0] else 1;
            && (cmd == 'A' ==> t.x == s.x && t.y == if n <= s.y then s.y - n else 0)
            && (cmd == 'B' ==> t.x == s.x && t.y == if s.y + n < s.grid.rows then s.y + n else s.grid.rows - 1)
            && (cmd == 'C' ==> t.y == s.y && t.x == if s.x + n < s.grid.cols then s.x + n else s.grid.cols - 1)
            && (cmd == 'D' ==> t.y == s.y && t.x == if n <= s.x then s.x - n else 0)
  {
    hide Numbers, Split, Spelled, Tokens, Feeds, Whole, AllParameters, Rendition, EraseRow, EraseBelow, Cleared;
    SpelledRead(ps);
    SequenceFeeds(s, Spelled(ps), cmd, widths);
    t := Control(s, Spelled(ps), cmd).value;
  }

  // ------------------------------------------------------------------------- erasures

  /** `K` blanks the cursor's row, from the cursor on unless another number than zero asks for
      all of it; `J` blanks from the cursor to the end of the screen, or all of it for two and
      three.  Nothing moves, and no other cell changes. */
  lemma ErasureBlanks(s: State, ps: seq<nat>, cmd: char, widths: Widths) returns (t: State)
    requires Valid(s) && (cmd == 'J' || cmd == 'K')
    ensures Feeds(s, Sequence(Spelled(ps), cmd), widths, t)
    ensures t.x == s.x && t.y == s.y && t.pen == s.pen && Sized(t.grid)
    ensures var n := if |ps| > 0 then ps[0] else 0;
            forall cx, cy :: At(t.grid, cx, cy) ==
              if At(s.grid, cx, cy).None? then None
              else if cmd == 'K' && cy == s.y && (n != 0 || cx >= s.x) then Some(BLANK)
              else if cmd == 'J' && (n == 2 || n == 3 || cy > s.y || (cy == s.y && cx >= s.x)) then Some(BLANK)
              else At(s.grid, cx, cy)
  {
    hide Numbers, Split, Spelled, Tokens, Feeds, Whole, AllParameters, Control, At;
    SpelledRead(ps);
    ErasingTouchesItsRegion(s, Spelled(ps), cmd, 0, 0);
    SequenceFeeds(s, Spelled(ps), cmd, widths);
    t := Control(s, Spelled(ps), cmd).value;
    forall cx, cy ensures At(t.grid, cx, cy) ==
      if At(s.grid, cx, cy).Some? && Erased(s, cmd, if |ps| > 0 then ps[0] else 0, cx, cy) then Some(BLANK)
      else At(s.grid, cx, cy)
    {
      ErasingTouchesItsRegion(s, Spelled(ps), cmd, cx, cy);
    }
  }

  // ------------------------------------------------------------------- what is passed over

  /** Any other final byte changes nothing, whatever the parameters: no mode, no alternate
      screen, no scrolling. */
  lemma OthersAreIgnored(s: State, args: string, cmd: char, widths: Widths)
    requires Valid(s) && AllParameters(args) && IsFinal(cmd) && cmd !in "mHfABCDGJK"
    ensures Feeds(s, Sequence(args, cmd), widths, s)
  {
    hide Numbers, Split, Tokens, Feeds, Whole, AllParameters, Rendition, EraseRow, EraseBelow, Cleared;
    SequenceFeeds(s, args, cmd, widths);
  }

  lemma {:induction false} OscRun(s: string, i: nat, j: nat)
    requires i <= j < |s| && (forall k :: i <= k < j ==> InOsc(s[k])) && !InOsc(s[j])
    ensures OscText(s, i) == j
    decreases j - i
  {
    if i < j { OscRun(s, i + 1, j); }
  }

  /** An operating system command changes nothing, ended either way. */
  lemma CommandsAreIgnored(s: State, text: string, ending: string, widths: Widths)
    requires Valid(s) && (forall i :: 0 <= i < |text| ==> InOsc(text[i])) && (ending == [BEL] || ending == [ESC, '\\'])
    ensures Feeds(s, [ESC, ']'] + text + ending, widths, s)
  {
    hide Valid, Tokens, Pending;
    var whole := [ESC, ']'] + text + ending;
    var n := |whole|;
    assert forall k :: 2 <= k < 2 + |text| ==> whole[k] == text[k - 2];
    assert whole[2 + |text|] == ending[0] && whole[n - 1] == ending[|ending| - 1];
    OscRun(whole, 2, 2 + |text|);
    assert MatchCsi(whole).None? && Next(whole) == Some(Osc(n)) && whole[n..] == "";
    FirstToken(whole, Osc(n));
    NothingYet("");
    ApplyFirst(s, Osc(n), [], widths);
    assert [Osc(n)] + [] == [Osc(n)];
    ApplyNone(s, widths);
  }

  // ------------------------------------------------------------------------ renditions

  /** One rendition sequence leaves everything but the pen. */
  lemma RenditionFeeds(s: State, ps: seq<nat>, widths: Widths, pen: Pen)
    requires Valid(s) && Rendition(s.pen, if ps == [] then [0] else ps, 0) == Some(pen)
    ensures Feeds(s, Sequence(Spelled(ps), 'm'), widths, s.(pen := pen))
  {
    hide Numbers, Split, Tokens, Feeds, Whole, AllParameters, Rendition, EraseRow, EraseBelow, Cleared, Valid;
    SpelledRead(ps);
    SpelledRead([0]);
    assert Spelled([0]) == "0";
    assert ps != [] ==> Spelled(ps) != "";
    hide Spelled;
    assert Control(s, Spelled(ps), 'm') == Some(s.(pen := pen));
    SequenceFeeds(s, Spelled(ps), 'm', widths);
  }

  /** Zero, or nothing, gives the plain pen. */
  lemma ResetIsPlain(s: State, widths: Widths)
    requires Valid(s)
    ensures Feeds(s, Sequence("", 'm'), widths, s.(pen := PLAIN))
    ensures Feeds(s, Sequence("0", 'm'), widths, s.(pen := PLAIN))
  {
    hide Tokens, Feeds, Valid;
    RenditionFeeds(s, [], widths, PLAIN);
    RenditionFeeds(s, [0], widths, PLAIN);
    assert Spelled([0]) == "0";
  }

  /** Each attribute is put on by its own number and nothing else changes. */
  lemma PutsOn(s: State, p: nat, m: Mod, widths: Widths)
    requires Valid(s) && (p, m) in {(1, Bold), (2, Dim), (3, Italic), (4, Underline), (7, Reverse)}
    ensures Feeds(s, Sequence(Decimal(p), 'm'), widths, s.(pen := s.pen.(mods := s.pen.mods + {m})))
  {
    hide Tokens, Feeds, Valid, Decimal;
    RenditionFeeds(s, [p], widths, s.pen.(mods := s.pen.mods + {m}));
    assert Spelled([p]) == Decimal(p);
  }

  /** Each attribute is taken off by its own, bold and dim by one together. */
  lemma TakesOff(s: State, p: nat, ms: set<Mod>, widths: Widths)
    requires Valid(s) && (p, ms) in {(22, {Bold, Dim}), (23, {Italic}), (24, {Underline}), (27, {Reverse})}
    ensures Feeds(s, Sequence(Decimal(p), 'm'), widths, s.(pen := s.pen.(mods := s.pen.mods - ms)))
  {
    hide Tokens, Feeds, Valid, Decimal;
    RenditionFeeds(s, [p], widths, s.pen.(mods := s.pen.mods - ms));
    assert Spelled([p]) == Decimal(p);
  }

  /** The state with this colour for the characters, or for what is behind them. */
  function Tinted(s: State, foreground: bool, c: Color): State {
    s.(pen := if foreground then s.pen.(fg := c) else s.pen.(bg := c))
  }

  /** 38 and 48 with a triple set exactly the colour of the characters, or of what is behind
      them, to it; 39 and 49 set it back. */
  lemma TrueColour(s: State, foreground: bool, r: nat, g: nat, b: nat, widths: Widths)
    requires Valid(s)
    ensures Feeds(s, Sequence(Spelled([if foreground then 38 else 48, 2, r, g, b]), 'm'), widths,
                  Tinted(s, foreground, Rgb(r, g, b)))
    ensures Feeds(s, Sequence(if foreground then "39" else "49", 'm'), widths, Tinted(s, foreground, Default))
  {
    hide Tokens, Feeds, Valid;
    var ps := [if foreground then 38 else 48, 2, r, g, b];
    assert Rendition(Tinted(s, foreground, Rgb(r, g, b)).pen, ps, 5) == Some(Tinted(s, foreground, Rgb(r, g, b)).pen);
    RenditionFeeds(s, ps, widths, Tinted(s, foreground, Rgb(r, g, b)).pen);
    RenditionFeeds(s, [if foreground then 39 else 49], widths, Tinted(s, foreground, Default).pen);
    assert Decimal(3) == "3" && Decimal(4) == "4" && Decimal(39) == "39" && Decimal(49) == "49";
    assert Spelled([if foreground then 39 else 49]) == if foreground then "39" else "49";
  }

  lemma Indexed(s: State, foreground: bool, i: nat, widths: Widths)
    requires Valid(s)
    ensures Feeds(s, Sequence(Spelled([if foreground then 38 else 48, 5, i]), 'm'), widths,
                  Tinted(s, foreground, Ansi256(i)))
  {
    hide Tokens, Feeds, Valid, Ansi256;
    var ps := [if foreground then 38 else 48, 5, i];
    assert Rendition(Tinted(s, foreground, Ansi256(i)).pen, ps, 3) == Some(Tinted(s, foreground, Ansi256(i)).pen);
    RenditionFeeds(s, ps, widths, Tinted(s, foreground, Ansi256(i)).pen);
  }

  /** Asked for by its index, and by a number of its own, it is this colour. */
  ghost predicate ShowsIn(s: State, foreground: bool, i: nat, widths: Widths, c: Color) {
    var first := if foreground then 30 else 40;
    && Feeds(s, Sequence(Spelled([first + 8, 5, i]), 'm'), widths, Tinted(s, foreground, c))
    && Feeds(s, Sequence(Spelled([first + if i < 8 then i else i + 52]), 'm'), widths, Tinted(s, foreground, c))
  }

  /** The first sixteen indexed colours are the eight of 30 and 40 on and the eight of 90 and
      100 on, for the characters and for what is behind them alike. */
  lemma SixteenAlike(s: State, i: nat, widths: Widths) returns (c: Color)
    requires Valid(s) && i < 16
    ensures forall foreground :: ShowsIn(s, foreground, i, widths, c)
  {
    hide Tokens, Feeds, Valid, Spelled, Ansi16;
    c := Ansi16(i);
    forall foreground: bool ensures ShowsIn(s, foreground, i, widths, c) {
      Indexed(s, foreground, i, widths);
      RenditionFeeds(s, [(if foreground then 30 else 40) + (if i < 8 then i else i + 52)], widths,
                     Tinted(s, foreground, c).pen);
    }
  }

  /** None, and then by forty from ninety-five. */
  function Level(n: nat): nat { if n == 0 then 0 else 55 + 40 * n }

  lemma CubeIs(r: nat, g: nat, b: nat)
    requires r < 6 && g < 6 && b < 6
    ensures Ansi256(16 + 36 * r + 6 * g + b) == Rgb(Level(r), Level(g), Level(b))
  {
    var c := 36 * r + 6 * g + b;
    CubeIndex(r, g, b);
    assert forall n: nat :: n < 6 ==> Cube(n) == Level(n);
    hide Cube, Level;
  }

  lemma CubeIndex(r: nat, g: nat, b: nat)
    requires r < 6 && g < 6 && b < 6
    ensures var c := 36 * r + 6 * g + b; c / 36 == r && (c / 6) % 6 == g && c % 6 == b
  {
  }

  /** The colour cube, six levels of each; and the greys behind it, by ten from eight. */
  lemma CubeAndGreys(s: State, foreground: bool, r: nat, g: nat, b: nat, k: nat, widths: Widths)
    requires Valid(s) && r < 6 && g < 6 && b < 6 && k < 24
    ensures Feeds(s, Sequence(Spelled([if foreground then 38 else 48, 5, 16 + 36 * r + 6 * g + b]), 'm'), widths,
                  Tinted(s, foreground, Rgb(Level(r), Level(g), Level(b))))
    ensures Feeds(s, Sequence(Spelled([if foreground then 38 else 48, 5, 232 + k]), 'm'), widths,
                  Tinted(s, foreground, Rgb(8 + 10 * k, 8 + 10 * k, 8 + 10 * k)))
  {
    assert Ansi256(232 + k) == Rgb(8 + 10 * k, 8 + 10 * k, 8 + 10 * k);
    hide *;
    CubeIs(r, g, b);
    Indexed(s, foreground, 16 + 36 * r + 6 * g + b, widths);
    Indexed(s, foreground, 232 + k, widths);
  }

  /** An indexed colour with no index raises. */
  lemma IndexIsNeeded(s: State, foreground: bool, widths: Widths)
    requires Valid(s)
    ensures ApplyAll(s, Tokens(Sequence(Spelled([if foreground then 38 else 48, 5]), 'm')), widths).None?
  {
    hide Numbers, Split, Tokens;
    var ps := [if foreground then 38 else 48, 5];
    SpelledRead(ps);
    assert Spelled(ps) != "";
    hide Spelled;
    assert Rendition(s.pen, ps, 0).None?;
    SequenceIsOneToken(Spelled(ps), 'm');
    ApplyFirst(s, Csi(Spelled(ps), true, 'm', |Spelled(ps)| + 3), [], widths);
  }

  /** Parameters that are complete on their own: a number that takes none behind it, or a
      colour. */
  predicate Complete(ps: seq<nat>) {
    || (|ps| == 1 && ps[0] != 38 && ps[0] != 48)
    || (|ps| == 5 && (ps[0] == 38 || ps[0] == 48) && ps[1] == 2)
    || (|ps| == 3 && (ps[0] == 38 || ps[0] == 48) && ps[1] == 5)
  }

  lemma {:induction false} RenditionBehind(pen: Pen, ps: seq<nat>, qs: seq<nat>, i: nat)
    ensures Rendition(pen, ps + qs, |ps| + i) == Rendition(pen, qs, i)
    decreases |qs| - i
  {
    if i < |qs| {
      var p := qs[i];
      assert forall k :: 0 <= k < |qs| ==> (ps + qs)[|ps| + k] == qs[k];
      if p == 38 || p == 48 {
        if i + 1 < |qs| && qs[i + 1] == 2 {
          var c := if i + 4 < |qs| then Rgb(qs[i + 2], qs[i + 3], qs[i + 4]) else Default;
          RenditionBehind(Paint(pen, p == 38, c), ps, qs, i + 5);
        } else if i + 1 < |qs| && qs[i + 1] == 5 {
          if i + 2 < |qs| { RenditionBehind(Paint(pen, p == 38, Ansi256(qs[i + 2])), ps, qs, i + 3); }
        } else {
          RenditionBehind(pen, ps, qs, i + 1);
        }
      } else {
        RenditionBehind(Attribute(pen, p), ps, qs, i + 1);
      }
    }
  }

  /** Several renditions in one sequence do what they do in one sequence each. */
  lemma RenditionsInTurn(s: State, ps: seq<nat>, qs: seq<nat>, widths: Widths, t: State, u: State)
    requires Complete(ps) && qs != []
    requires Feeds(s, Sequence(Spelled(ps), 'm'), widths, t) && Feeds(t, Sequence(Spelled(qs), 'm'), widths, u)
    ensures Feeds(s, Sequence(Spelled(ps + qs), 'm'), widths, u)
  {
    hide Tokens, Valid, Spelled, Ansi256;
    var p := RenditionFed(s, ps, widths, t);
    var q := RenditionFed(t, qs, widths, u);
    RenditionBehind(p, ps, qs, 0);
    assert forall k :: 0 <= k < |ps| ==> (ps + qs)[k] == ps[k];
    assert Rendition(s.pen, ps + qs, 0) == Rendition(p, ps + qs, |ps|);
    RenditionFeeds(s, ps + qs, widths, q);
  }

  /** Read backwards: what a rendition sequence was fed for is what its parameters say. */
  lemma RenditionFed(s: State, ps: seq<nat>, widths: Widths, t: State) returns (pen: Pen)
    requires ps != [] && Feeds(s, Sequence(Spelled(ps), 'm'), widths, t)
    ensures Rendition(s.pen, ps, 0) == Some(pen) && t == s.(pen := pen)
  {
    hide Numbers, Split, Tokens, Rendition, Valid;
    SpelledRead(ps);
    assert Spelled(ps) != "";
    hide Spelled;
    SequenceIsOneToken(Spelled(ps), 'm');
    var token := Csi(Spelled(ps), true, 'm', |Spelled(ps)| + 3);
    ApplyFirst(s, token, [], widths);
    assert [token] + [] == [token];
    pen := t.pen;
    if Rendition(s.pen, ps, 0).Some? {
      ApplyNone(s.(pen := Rendition(s.pen, ps, 0).value), widths);
    }
  }

  /** What is typed after a sequence that changed the pen carries that pen. */
  lemma TypedWithPen(s: State, text: string, pen: Pen, typed: string, widths: Widths) returns (t: State)
    requires Feeds(s, text, widths, s.(pen := pen)) && Narrow(typed, widths)
    ensures Feeds(s, text + typed, widths, t) && t.pen == pen
    ensures t.x == s.x + |typed| && t.y == s.y && Written(s.grid, t.grid, s.x, s.y, typed, pen)
  {
    hide Tokens, Pending, Written, Narrow, Feeds;
    FeedsLeavesValid(s, text, widths, s.(pen := pen));
    t := TextLands(s.(pen := pen), typed, widths);
    FeedsOn(s, text, widths, s.(pen := pen), typed, t);
  }
}
