/**
 The terminal emulator: a grid of styled cells, a cursor, a pen, and the escape that
 has not completed yet.

 `Screen.Feed` is the loop of the source over one read.  Characters have already been
 decoded; how many columns one takes is a parameter.
 */
module Terminal {
  import opened Base
  import opened Strings
  import opened TerminalTokens
  import Streams

  datatype Color = Default | Rgb(r: nat, g: nat, b: nat)

  datatype Mod = Bold | Italic | Underline | Dim | Reverse

  datatype Pen = Pen(fg: Color, bg: Color, mods: set<Mod>)

  const PLAIN := Pen(Default, Default, {})

  /** A cell; the trailing column of a wide glyph is `cont` and holds no character. */
  datatype Cell = Cell(ch: string, pen: Pen, cont: bool)

  const BLANK := Cell(" ", PLAIN, false)

  datatype Grid = Grid(rows: nat, cols: nat, cells: seq<seq<Cell>>)

  datatype State = State(grid: Grid, x: int, y: int, pen: Pen)

  type Widths = char -> nat

  // ---------------------------------------------------------------------- the colours

  function Ansi16(i: nat): Color
    requires i < 16
  {
    [ Rgb(0x0E, 0x11, 0x16), Rgb(0xF8, 0x51, 0x49), Rgb(0x3F, 0xB9, 0x50), Rgb(0xD2, 0x99, 0x22),
      Rgb(0x58, 0xA6, 0xFF), Rgb(0xBC, 0x8C, 0xFF), Rgb(0x39, 0xC5, 0xCF), Rgb(0xB1, 0xBA, 0xC4),
      Rgb(0x6E, 0x76, 0x81), Rgb(0xFF, 0x7B, 0x72), Rgb(0x56, 0xD3, 0x64), Rgb(0xE3, 0xB3, 0x41),
      Rgb(0x79, 0xC0, 0xFF), Rgb(0xD2, 0xA8, 0xFF), Rgb(0x56, 0xD4, 0xDD), Rgb(0xF0, 0xF6, 0xFC)
    ][i]
  }

  function Cube(i: nat): nat
    requires i < 6
  {
    [0, 95, 135, 175, 215, 255][i]
  }

  function Ansi256(i: nat): Color {
    if i < 16 then Ansi16(i)
    else if i < 232 then
      var c := i - 16;
      Rgb(Cube(c / 36), Cube((c / 6) % 6), Cube(c % 6))
    else
      var v := 8 + (i - 232) * 10;
      Rgb(v, v, v)
  }

  // ----------------------------------------------------------------------- parameters

  /** The parameters that are numbers; empty and private ones are dropped. */
  function Numbers(parts: seq<string>): seq<nat> {
    if parts == [] then []
    else (if Digits(parts[0]) then [Value(parts[0])] else []) + Numbers(parts[1..])
  }

  // ----------------------------------------------------------------- graphic rendition

  /** One pass over the rendition parameters from index `i`; an indexed colour with no
      index raises. */
  function Rendition(pen: Pen, ps: seq<nat>, i: nat): Option<Pen>
    decreases |ps| - i
  {
    if i >= |ps| then Some(pen)
    else
      var p := ps[i];
      if p == 38 || p == 48 then
        if i + 1 < |ps| && ps[i + 1] == 2 then
          var c := if i + 4 < |ps| then Rgb(ps[i + 2], ps[i + 3], ps[i + 4]) else Default;
          Rendition(Paint(pen, p == 38, c), ps, i + 5)
        else if i + 1 < |ps| && ps[i + 1] == 5 then
          if i + 2 >= |ps| then None else Rendition(Paint(pen, p == 38, Ansi256(ps[i + 2])), ps, i + 3)
        else Rendition(pen, ps, i + 1)
      else Rendition(Attribute(pen, p), ps, i + 1)
  }

  function Paint(pen: Pen, foreground: bool, c: Color): Pen {
    if foreground then pen.(fg := c) else pen.(bg := c)
  }

  function Attribute(pen: Pen, p: nat): Pen {
    if p == 0 then PLAIN
    else if p == 1 then pen.(mods := pen.mods + {Bold})
    else if p == 2 then pen.(mods := pen.mods + {Dim})
    else if p == 3 then pen.(mods := pen.mods + {Italic})
    else if p == 4 then pen.(mods := pen.mods + {Underline})
    else if p == 7 then pen.(mods := pen.mods + {Reverse})
    else if p == 22 then pen.(mods := pen.mods - {Bold, Dim})
    else if p == 23 then pen.(mods := pen.mods - {Italic})
    else if p == 24 then pen.(mods := pen.mods - {Underline})
    else if p == 27 then pen.(mods := pen.mods - {Reverse})
    else if p == 39 then pen.(fg := Default)
    else if p == 49 then pen.(bg := Default)
    else if 30 <= p <= 37 then pen.(fg := Ansi16(p - 30))
    else if 90 <= p <= 97 then pen.(fg := Ansi16(p - 90 + 8))
    else if 40 <= p <= 47 then pen.(bg := Ansi16(p - 40))
    else if 100 <= p <= 107 then pen.(bg := Ansi16(p - 100 + 8))
    else pen
  }

  // ------------------------------------------------------------------------- the grid

  function Blanks(n: nat): (row: seq<Cell>)
    ensures |row| == n
  {
    seq(n, _ => BLANK)
  }

  function Cleared(rows: nat, cols: nat): Grid {
    Grid(rows, cols, seq(rows, _ => Blanks(cols)))
  }

  ghost predicate Sized(g: Grid) {
    |g.cells| == g.rows && forall y :: 0 <= y < g.rows ==> |g.cells[y]| == g.cols
  }

  /** The cell at a position of the grid, or nothing outside it. */
  function At(g: Grid, x: int, y: int): Option<Cell>
    requires Sized(g)
  {
    if 0 <= x < g.cols && 0 <= y < g.rows then Some(g.cells[y][x]) else None
  }

  /** Grids of one size with the same cell at every position are the same. */
  lemma GridsAlike(g: Grid, h: Grid)
    requires Sized(g) && Sized(h) && g.rows == h.rows && g.cols == h.cols
    requires forall x, y :: At(g, x, y) == At(h, x, y)
    ensures g == h
  {
    forall y | 0 <= y < g.rows ensures g.cells[y] == h.cells[y] {
      assert forall x :: 0 <= x < g.cols ==> At(g, x, y) == Some(g.cells[y][x]) && At(h, x, y) == Some(h.cells[y][x]);
    }
  }

  function Put(g: Grid, x: nat, y: nat, c: Cell): (r: Grid)
    requires Sized(g) && x < g.cols && y < g.rows
    ensures Sized(r) && r.rows == g.rows && r.cols == g.cols
  {
    g.(cells := g.cells[y := g.cells[y][x := c]])
  }

  /** Blank a row from a column on. */
  function EraseRow(g: Grid, y: nat, from: int): (r: Grid)
    requires Sized(g) && y < g.rows && 0 <= from
    ensures Sized(r) && r.rows == g.rows && r.cols == g.cols
  {
    if from >= g.cols then g
    else g.(cells := g.cells[y := g.cells[y][..from] + Blanks(g.cols - from)])
  }

  function EraseBelow(g: Grid, y: nat): (r: Grid)
    requires Sized(g) && y < g.rows
    ensures Sized(r) && r.rows == g.rows && r.cols == g.cols
  {
    g.(cells := g.cells[..y + 1] + Cleared(g.rows - y - 1, g.cols).cells)
  }

  // ------------------------------------------------------------------ one token's effect

  ghost predicate Valid(s: State) {
    Sized(s.grid) && s.grid.rows > 0 && s.grid.cols > 0 && 0 <= s.y < s.grid.rows && 0 <= s.x
  }

  function TypeChar(s: State, ch: char, widths: Widths): (r: State)
    requires Valid(s)
    ensures Valid(r) && r.grid.rows == s.grid.rows && r.grid.cols == s.grid.cols
  {
    if ch == '\r' then s.(x := 0)
    else if ch == '\n' then s.(x := 0, y := Least(s.grid.rows - 1, s.y + 1))
    else if ch == '\U{08}' then s.(x := Most(0, s.x - 1))
    else if ch >= ' ' then
      var w := widths(ch);
      var glyph := if s.x < s.grid.cols then Put(s.grid, s.x, s.y, Cell([ch], s.pen, false)) else s.grid;
      var both := if w == 2 && s.x + 1 < s.grid.cols then Put(glyph, s.x + 1, s.y, Cell("", s.pen, true)) else glyph;
      s.(grid := both, x := s.x + Most(1, w))
    else s
  }

  function Control(s: State, args: string, cmd: char): (r: Option<State>)
    requires Valid(s)
    ensures r.Some? ==> Valid(r.value) && r.value.grid.rows == s.grid.rows && r.value.grid.cols == s.grid.cols
  {
    var rows, cols := s.grid.rows, s.grid.cols;
    if cmd == 'm' then
      var given := Numbers(Split(if args == "" then "0" else args, ';'));
      var pen := Rendition(s.pen, if given == [] then [0] else given, 0);
      if pen.None? then None else Some(s.(pen := pen.value))
    else
      var nums := Numbers(Split(args, ';'));
      var n0: int := if |nums| > 0 then nums[0] else 1;
      var n1: int := if |nums| > 1 then nums[1] else 1;
      var mode := if |nums| > 0 then nums[0] else 0;
      Some(
        if cmd == 'H' || cmd == 'f' then
          s.(y := Most(0, Least(rows - 1, n0 - 1)), x := Most(0, Least(cols - 1, n1 - 1)))
        else if cmd == 'A' then s.(y := Most(0, s.y - n0))
        else if cmd == 'B' then s.(y := Least(rows - 1, s.y + n0))
        else if cmd == 'C' then s.(x := Least(cols - 1, s.x + n0))
        else if cmd == 'D' then s.(x := Most(0, s.x - n0))
        else if cmd == 'G' then s.(x := Most(0, Least(cols - 1, n0 - 1)))
        else if cmd == 'J' then
          if mode == 2 || mode == 3 then s.(grid := Cleared(rows, cols))
          else s.(grid := EraseBelow(EraseRow(s.grid, s.y, s.x), s.y))
        else if cmd == 'K' then s.(grid := EraseRow(s.grid, s.y, if mode == 0 then s.x else 0))
        else s)
  }

  /** A printed character lands in the cursor's cell and, when it is wide, its other half in
      the next; nothing is wrapped, and no other cell changes. */
  lemma TypingTouchesTheCursorCells(s: State, ch: char, widths: Widths, cx: int, cy: int)
    requires Valid(s)
    ensures At(TypeChar(s, ch, widths).grid, cx, cy) ==
              if ch < ' ' || cy != s.y || At(s.grid, cx, cy).None? then At(s.grid, cx, cy)
              else if cx == s.x then Some(Cell([ch], s.pen, false))
              else if cx == s.x + 1 && widths(ch) == 2 then Some(Cell("", s.pen, true))
              else At(s.grid, cx, cy)
  {
  }

  /** The cells an erasure blanks: from the cursor to the end of the screen or the row, or
      all of either. */
  predicate Erased(s: State, cmd: char, mode: nat, cx: int, cy: int) {
    if cmd == 'J' then mode == 2 || mode == 3 || cy > s.y || (cy == s.y && cx >= s.x)
    else cy == s.y && (mode != 0 || cx >= s.x)
  }

  lemma ErasingTouchesItsRegion(s: State, args: string, cmd: char, cx: int, cy: int)
    requires Valid(s) && (cmd == 'J' || cmd == 'K')
    ensures Control(s, args, cmd).Some?
    ensures var r, nums := Control(s, args, cmd).value, Numbers(Split(args, ';'));
            && r.x == s.x && r.y == s.y && r.pen == s.pen
            && At(r.grid, cx, cy) ==
                 if At(s.grid, cx, cy).Some? && Erased(s, cmd, if |nums| > 0 then nums[0] else 0, cx, cy) then
                   Some(BLANK)
                 else At(s.grid, cx, cy)
  {
    hide Numbers, Split;
  }

  /** Every other sequence keeps the grid; only a rendition changes the pen, and it moves
      nothing. */
  lemma OthersKeepTheGrid(s: State, args: string, cmd: char)
    requires Valid(s) && Control(s, args, cmd).Some?
    ensures var r := Control(s, args, cmd).value;
            && (cmd != 'J' && cmd != 'K' ==> r.grid == s.grid)
            && (if cmd == 'm' then r.x == s.x && r.y == s.y else r.pen == s.pen)
  {
    hide Numbers, Split, Rendition;
  }

  /** Moving one way and back by the same count, whichever way, comes back to where it began
      exactly when the edge was not in the way, or the cursor was at the far one already. */
  lemma MovingBackReturns(s: State, args: string)
    requires Valid(s)
    ensures var nums := Numbers(Split(args, ';'));
            var n := if |nums| > 0 then nums[0] else 1;
            && Control(s, args, 'A').Some? && Control(s, args, 'B').Some?
            && Control(s, args, 'C').Some? && Control(s, args, 'D').Some?
            && (Control(Control(s, args, 'A').value, args, 'B') == Some(s) <==> n <= s.y || s.y == s.grid.rows - 1)
            && (Control(Control(s, args, 'D').value, args, 'C') == Some(s) <==>
                  s.x < s.grid.cols && (n <= s.x || s.x == s.grid.cols - 1))
            && (Control(Control(s, args, 'B').value, args, 'A') == Some(s) <==> s.y + n < s.grid.rows || s.y == 0)
            && (Control(Control(s, args, 'C').value, args, 'D') == Some(s) <==> s.x + n < s.grid.cols || s.x == 0)
  {
    hide Numbers, Split, Rendition;
  }

  /** Sequences with an intermediate byte, and operating system commands, are passed over. */
  function Apply(s: State, t: Token, widths: Widths): (r: Option<State>)
    requires Valid(s)
    ensures r.Some? ==> Valid(r.value) && r.value.grid.rows == s.grid.rows && r.value.grid.cols == s.grid.cols
  {
    match t
    case Text(ch) => Some(TypeChar(s, ch, widths))
    case Csi(args, plain, cmd, _) => if plain then Control(s, args, cmd) else Some(s)
    case _ => Some(s)
  }

  /** A run of tokens; the first that raises ends it. */
  function ApplyAll(s: State, ts: seq<Token>, widths: Widths): (r: Option<State>)
    requires Valid(s)
    decreases |ts|
    ensures r.Some? ==> Valid(r.value) && r.value.grid.rows == s.grid.rows && r.value.grid.cols == s.grid.cols
  {
    if ts == [] then Some(s)
    else
      var first := Apply(s, ts[0], widths);
      if first.None? then None else ApplyAll(first.value, ts[1..], widths)
  }

  lemma ApplyNone(s: State, widths: Widths)
    requires Valid(s)
    ensures ApplyAll(s, [], widths) == Some(s)
  {
  }

  lemma ApplyFirst(s: State, t: Token, ts: seq<Token>, widths: Widths)
    requires Valid(s)
    ensures var r := Apply(s, t, widths);
            ApplyAll(s, [t] + ts, widths) == if r.None? then None else ApplyAll(r.value, ts, widths)
  {
    hide Valid, Apply;
    assert ([t] + ts)[1..] == ts;
  }

  // ------------------------------------------------------------------------- the class

  class Screen {
    const widths: Widths
    var grid: Grid
    var x: int
    var y: int
    var pen: Pen
    var pending: string

    ghost function Now(): State
      reads this
    {
      State(grid, x, y, pen)
    }

    constructor (cols: nat, rows: nat, widths: Widths)
      requires cols > 0 && rows > 0
      ensures this.widths == widths && pending == "" && Now() == State(Cleared(rows, cols), 0, 0, PLAIN)
    {
      this.widths := widths;
      grid, x, y, pen, pending := Cleared(rows, cols), 0, 0, PLAIN, "";
    }

    /** One read's characters.  `raised` says that a control sequence raised, after which
        the screen is no longer fed. */
    method Feed(data: string) returns (raised: bool)
      requires Valid(Now())
      modifies this
      ensures var r := ApplyAll(old(Now()), Tokens(old(pending) + data), widths);
              if r.None? then raised
              else !raised && Now() == r.value && pending == Pending(old(pending) + data)
    {
      hide Tokens, Pending, Next, Apply, ApplyAll, Valid, Length;
      var raw := pending + data;
      pending := "";
      var i := 0;
      assert raw[0..] == raw;
      while i < |raw|
        invariant 0 <= i <= |raw| && Valid(Now()) && pending == ""
        invariant ApplyAll(Now(), Tokens(raw[i..]), widths) == ApplyAll(old(Now()), Tokens(raw), widths)
        invariant Pending(raw[i..]) == Pending(raw)
        decreases |raw| - i
      {
        var rest := raw[i..];
        var t := Next(rest);
        if t.None? {
          NothingYet(rest);
          ApplyNone(Now(), widths);
          pending := rest;
          return false;
        }
        assert rest[Length(t.value)..] == raw[i + Length(t.value)..];
        FirstToken(rest, t.value);
        ApplyFirst(Now(), t.value, Tokens(raw[i + Length(t.value)..]), widths);
        var r := Apply(State(grid, x, y, pen), t.value, widths);
        if r.None? {
          return true;
        }
        grid, x, y, pen := r.value.grid, r.value.x, r.value.y, r.value.pen;
        i := i + Length(t.value);
      }
      NothingYet(raw[i..]);
      ApplyNone(Now(), widths);
      raised := false;
    }
  }

  // ---------------------------------------------------------------- chunk independence

  /** Feeding the chunks in turn, from a held escape; `None` once one raised. */
  ghost function FeedAll(s: State, held: string, chunks: seq<string>, widths: Widths): Option<(State, string)>
    requires Valid(s)
    decreases |chunks|
  {
    if chunks == [] then Some((s, held))
    else
      var r := ApplyAll(s, Tokens(held + chunks[0]), widths);
      if r.None? then None else FeedAll(r.value, Pending(held + chunks[0]), chunks[1..], widths)
  }

  lemma {:induction false} ApplyConcat(s: State, a: seq<Token>, b: seq<Token>, widths: Widths)
    requires Valid(s)
    ensures var r := ApplyAll(s, a, widths);
            ApplyAll(s, a + b, widths) == if r.None? then None else ApplyAll(r.value, b, widths)
    decreases |a|
  {
    hide Valid, Apply;
    if a == [] {
      assert a + b == b;
    } else {
      assert (a + b)[1..] == a[1..] + b;
      var first := Apply(s, a[0], widths);
      if first.Some? { ApplyConcat(first.value, a[1..], b, widths); }
    }
  }

  lemma FeedOne(s: State, held: string, chunk: string, widths: Widths)
    requires Valid(s)
    ensures var r := ApplyAll(s, Tokens(held + chunk), widths);
            FeedAll(s, held, [chunk], widths) == if r.None? then None else Some((r.value, Pending(held + chunk)))
  {
    hide Valid, ApplyAll, Tokens, Pending;
  }

  /** An escape that is held is held on its own. */
  lemma {:induction false} HeldStays(s: string)
    ensures Tokens(Pending(s)) == [] && Pending(Pending(s)) == Pending(s)
    decreases |s|
  {
    if s != "" && Next(s).Some? { HeldStays(s[Length(Next(s).value)..]); }
  }

  /** When no sequence in the characters is longer than the hold, feeding them in any chunks
      gives the grid, cursor, pen and held tail of feeding them whole, or raises as it does;
      and the grid keeps its size and the cursor its row. */
  lemma {:induction false} FeedIsChunkIndependent(s: State, held: string, chunks: seq<string>, widths: Widths)
    requires Valid(s) && Tokens(held) == [] && Pending(held) == held
    requires Short(Tokens(held + Streams.Concat(chunks)))
    ensures FeedAll(s, held, chunks, widths) == FeedAll(s, held, [Streams.Concat(chunks)], widths)
    ensures var r := FeedAll(s, held, chunks, widths);
            r.Some? ==> Valid(r.value.0) && r.value.0.grid.rows == s.grid.rows && r.value.0.grid.cols == s.grid.cols
    decreases |chunks|
  {
    hide Valid, ApplyAll, Tokens, Pending, Short;
    var whole := held + Streams.Concat(chunks);
    FeedOne(s, held, Streams.Concat(chunks), widths);
    Streams.ConcatHead(chunks);
    if chunks == [] {
      assert whole == held;
      ApplyNone(s, widths);
    } else {
      var a, b := held + chunks[0], Streams.Concat(chunks[1..]);
      assert whole == a + b;
      StoppingChangesNothing(a, b);
      ApplyConcat(s, Tokens(a), Tokens(Pending(a) + b), widths);
      var r := ApplyAll(s, Tokens(a), widths);
      if r.Some? {
        HeldStays(a);
        ShortRest(Tokens(a), Tokens(Pending(a) + b));
        FeedOne(r.value, Pending(a), b, widths);
        FeedIsChunkIndependent(r.value, Pending(a), chunks[1..], widths);
      }
    }
  }
}
