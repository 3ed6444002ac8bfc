/**
 A text selection: the cells between two points in reading order, inside a region.
 */
module Selection {
  import opened Base
  import opened Layout
  import Strings

  datatype Pos = Pos(x: nat, y: nat)

  /** Reading order: by row, then by column. */
  predicate Before(a: Pos, b: Pos) { a.y < b.y || (a.y == b.y && a.x <= b.x) }

  function Minus(a: nat, b: nat): nat { if a > b then a - b else 0 }

  function Intersection(a: Rect, b: Rect): Rect {
    var x, y := Most(a.x, b.x), Most(a.y, b.y);
    Rect(x, y, Minus(Least(a.Right(), b.Right()), x), Minus(Least(a.Bottom(), b.Bottom()), y))
  }

  /** The drag's region inside the screen, or the whole screen. */
  function AreaOf(screen: Rect, clip: Option<Rect>): Rect {
    match clip case Some(c) => Intersection(c, screen) case None => screen
  }

  predicate Empty(area: Rect) { area.width == 0 || area.height == 0 }

  /** The cells both rectangles hold, and no others. */
  lemma IntersectionIs(a: Rect, b: Rect, x: nat, y: nat)
    ensures Intersection(a, b).Contains(x, y) <==> a.Contains(x, y) && b.Contains(x, y)
  {
  }

  /** What can be selected is on the screen and, for a clipped drag, in its region. */
  lemma AreaIs(screen: Rect, clip: Option<Rect>, x: nat, y: nat)
    ensures AreaOf(screen, clip).Contains(x, y)
            <==> screen.Contains(x, y) && (clip.Some? ==> clip.value.Contains(x, y))
  {
    if clip.Some? { IntersectionIs(clip.value, screen, x, y); }
  }

  function Distance(a: nat, b: nat): nat { if a < b then b - a else a - b }

  /** `r` is the cell of the area nearest to `p`: on neither axis is another closer. */
  ghost predicate Nearest(area: Rect, p: Pos, r: Pos) {
    && area.Contains(r.x, r.y)
    && forall x: nat, y: nat :: area.Contains(x, y) ==>
         Distance(r.x, p.x) <= Distance(x, p.x) && Distance(r.y, p.y) <= Distance(y, p.y)
  }

  /** Each end of a selection is drawn to the nearest cell; one inside the area stays. */
  function Clamp(p: Pos, area: Rect): (r: Pos)
    requires !Empty(area)
    ensures area.Contains(r.x, r.y) && Nearest(area, p, r)
    ensures area.Contains(p.x, p.y) ==> r == p
  {
    Pos(Most(area.x, Least(p.x, area.Right() - 1)), Most(area.y, Least(p.y, area.Bottom() - 1)))
  }

  /** There is one nearest cell. */
  lemma NearestIsOne(area: Rect, p: Pos, r: Pos, s: Pos)
    requires Nearest(area, p, r) && Nearest(area, p, s)
    ensures r == s
  {
    assert r.x < p.x < s.x || s.x < p.x < r.x ==> area.Contains(p.x, s.y);
    assert r.y < p.y < s.y || s.y < p.y < r.y ==> area.Contains(s.x, p.y);
  }

  /** The columns of row `y`, both ends included. */
  function Span(area: Rect, start: Pos, end: Pos, y: nat): (nat, nat) {
    var last := Minus(area.Right(), 1);
    if start.y == end.y then (Least(start.x, end.x), Most(start.x, end.x))
    else if y == start.y then (start.x, last)
    else if y == end.y then (area.x, end.x)
    else (area.x, last)
  }

  /** The cells of the area between two points of it, whichever comes first. */
  predicate Selected(area: Rect, a: Pos, b: Pos, p: Pos) {
    area.Contains(p.x, p.y) && ((Before(a, p) && Before(p, b)) || (Before(b, p) && Before(p, a)))
  }

  /** What the two loops visit is the interval in reading order. */
  lemma SpanIsTheInterval(area: Rect, start: Pos, end: Pos, p: Pos)
    requires area.Contains(start.x, start.y) && area.Contains(end.x, end.y) && Before(start, end)
    ensures Selected(area, start, end, p) <==>
              start.y <= p.y <= end.y && Span(area, start, end, p.y).0 <= p.x <= Span(area, start, end, p.y).1
  {
  }

  /** Swapping the ends selects the same cells. */
  lemma EndsMayBeSwapped(area: Rect, a: Pos, b: Pos, p: Pos)
    ensures Selected(area, a, b, p) == Selected(area, b, a, p)
  {
  }

  // ------------------------------------------------------------------------- the text

  type Symbols = Pos -> string

  /** One cell's text; the second half of a wide glyph is a blank. */
  function CellText(symbols: Symbols, p: Pos): string { if symbols(p) == "" then " " else symbols(p) }

  /** The selected cells of a row, from column `x` up to the region's edge, in order. */
  function RowText(symbols: Symbols, area: Rect, a: Pos, b: Pos, y: nat, x: nat): string
    decreases Minus(area.Right(), x)
  {
    if x >= area.Right() then ""
    else
      (if Selected(area, a, b, Pos(x, y)) then CellText(symbols, Pos(x, y)) else "")
      + RowText(symbols, area, a, b, y, x + 1)
  }

  function TrimRight(s: string): (t: string)
    ensures t <= s && (t != "" ==> t[|t| - 1] != ' ') && forall i :: |t| <= i < |s| ==> s[i] == ' '
  {
    if s != "" && s[|s| - 1] == ' ' then TrimRight(s[..|s| - 1]) else s
  }

  /** The rows of a selection from row `y` to the last selected, each without its trailing
      blanks, joined by line feeds. */
  function Text(symbols: Symbols, area: Rect, a: Pos, b: Pos, y: nat): string
    decreases Minus(Most(a.y, b.y) + 1, y)
  {
    var line := TrimRight(RowText(symbols, area, a, b, y, area.x));
    if y >= Most(a.y, b.y) then line else line + "\n" + Text(symbols, area, a, b, y + 1)
  }

  /** The lines of the text are the rows of the selection, from the first to the last. */
  lemma {:induction false} TextLines(symbols: Symbols, area: Rect, a: Pos, b: Pos, y: nat)
    requires y <= Most(a.y, b.y) && forall p :: '\n' !in symbols(p)
    ensures var lines := Strings.Split(Text(symbols, area, a, b, y), '\n');
            && |lines| == Most(a.y, b.y) - y + 1
            && forall k :: 0 <= k < |lines| ==> lines[k] == TrimRight(RowText(symbols, area, a, b, y + k, area.x))
    decreases Most(a.y, b.y) - y
  {
    hide RowText, TrimRight, Strings.Split;
    var line := TrimRight(RowText(symbols, area, a, b, y, area.x));
    NoLineFeed(symbols, area, a, b, y, area.x);
    assert '\n' !in line by { assert forall c :: c in line ==> c in RowText(symbols, area, a, b, y, area.x); }
    if y < Most(a.y, b.y) {
      Strings.SplitFirst(line, '\n', Text(symbols, area, a, b, y + 1));
      TextLines(symbols, area, a, b, y + 1);
    } else {
      Strings.SplitNone(line, '\n');
    }
  }

  lemma {:induction false} NoLineFeed(symbols: Symbols, area: Rect, a: Pos, b: Pos, y: nat, x: nat)
    requires forall p :: '\n' !in symbols(p)
    ensures '\n' !in RowText(symbols, area, a, b, y, x)
    decreases Minus(area.Right(), x)
  {
    if x < area.Right() { NoLineFeed(symbols, area, a, b, y, x + 1); }
  }

  /** Where every cell holds one character, a row's text is the characters between the ends. */
  lemma {:induction false} RowOfCharacters(symbols: Symbols, area: Rect, start: Pos, end: Pos, y: nat, x: nat)
    requires area.Contains(start.x, start.y) && area.Contains(end.x, end.y) && Before(start, end)
    requires start.y <= y <= end.y && forall p :: |symbols(p)| == 1
    requires Span(area, start, end, y).0 <= x <= Span(area, start, end, y).1 + 1
    ensures var row := RowText(symbols, area, start, end, y, x);
            && |row| == Span(area, start, end, y).1 + 1 - x
            && forall k :: 0 <= k < |row| ==> row[k] == symbols(Pos(x + k, y))[0]
    decreases area.Right() - x
  {
    var x1 := Span(area, start, end, y).1;
    SpanHoldsTheRow(symbols, area, start, end, y);
    if x <= x1 {
      SpanIsTheInterval(area, start, end, Pos(x, y));
      RowOfCharacters(symbols, area, start, end, y, x + 1);
    }
  }

  lemma {:induction false} NothingAfter(symbols: Symbols, area: Rect, a: Pos, b: Pos, y: nat, x: nat)
    requires forall k :: x <= k < area.Right() ==> !Selected(area, a, b, Pos(k, y))
    ensures RowText(symbols, area, a, b, y, x) == ""
    decreases Minus(area.Right(), x)
  {
    if x < area.Right() {
      assert !Selected(area, a, b, Pos(x, y));
      NothingAfter(symbols, area, a, b, y, x + 1);
    }
  }

  lemma {:induction false} NothingBefore(symbols: Symbols, area: Rect, a: Pos, b: Pos, y: nat, x: nat, x0: nat)
    requires x <= x0 <= area.Right() && forall k :: x <= k < x0 ==> !Selected(area, a, b, Pos(k, y))
    ensures RowText(symbols, area, a, b, y, x) == RowText(symbols, area, a, b, y, x0)
    decreases x0 - x
  {
    if x < x0 {
      assert !Selected(area, a, b, Pos(x, y));
      NothingBefore(symbols, area, a, b, y, x + 1, x0);
    }
  }

  /** The loop's columns hold the whole row. */
  lemma SpanHoldsTheRow(symbols: Symbols, area: Rect, start: Pos, end: Pos, y: nat)
    requires area.Contains(start.x, start.y) && area.Contains(end.x, end.y) && Before(start, end)
    requires start.y <= y <= end.y
    ensures var (x0, x1) := Span(area, start, end, y);
            && x0 <= x1 < area.Right()
            && RowText(symbols, area, start, end, y, area.x) == RowText(symbols, area, start, end, y, x0)
            && RowText(symbols, area, start, end, y, x1 + 1) == ""
  {
    var (x0, x1) := Span(area, start, end, y);
    forall k: nat ensures Selected(area, start, end, Pos(k, y)) <==> x0 <= k <= x1 {
      SpanIsTheInterval(area, start, end, Pos(k, y));
    }
    NothingBefore(symbols, area, start, end, y, area.x, x0);
    NothingAfter(symbols, area, start, end, y, x1 + 1);
  }

  /** One more selected cell is one more piece of the row. */
  lemma NextCell(symbols: Symbols, area: Rect, start: Pos, end: Pos, y: nat, x: nat, line: string)
    requires area.Contains(start.x, start.y) && area.Contains(end.x, end.y) && Before(start, end)
    requires start.y <= y <= end.y && Span(area, start, end, y).0 <= x <= Span(area, start, end, y).1 < area.Right()
    ensures line + RowText(symbols, area, start, end, y, x)
         == line + CellText(symbols, Pos(x, y)) + RowText(symbols, area, start, end, y, x + 1)
  {
    SpanIsTheInterval(area, start, end, Pos(x, y));
    hide Selected, CellText, Span;
    var rest := RowText(symbols, area, start, end, y, x + 1);
    assert line + (CellText(symbols, Pos(x, y)) + rest) == line + CellText(symbols, Pos(x, y)) + rest;
  }

  method TrimLine(full: string) returns (line: string)
    ensures line == TrimRight(full)
  {
    line := full;
    while line != "" && line[|line| - 1] == ' '
      invariant TrimRight(line) == TrimRight(full)
      decreases |line|
    {
      line := line[..|line| - 1];
    }
  }

  method ExtractRow(symbols: Symbols, area: Rect, start: Pos, end: Pos, y: nat) returns (line: string)
    requires area.Contains(start.x, start.y) && area.Contains(end.x, end.y) && Before(start, end)
    requires start.y <= y <= end.y
    ensures line == TrimRight(RowText(symbols, area, start, end, y, area.x))
  {
    hide *;
    var (x0, x1) := Span(area, start, end, y);
    SpanHoldsTheRow(symbols, area, start, end, y);
    line := "";
    ghost var whole := RowText(symbols, area, start, end, y, area.x);
    assert line + whole == whole;
    for x := x0 to x1 + 1
      invariant line + RowText(symbols, area, start, end, y, x) == whole
    {
      NextCell(symbols, area, start, end, y, x, line);
      line := line + CellText(symbols, Pos(x, y));
    }
    assert line + "" == line;
    line := TrimLine(line);
  }

  /** The selected text: what lies between the cells nearest to the two ends, and between the
      ends themselves when they are in the area. */
  method Extract(screen: Rect, symbols: Symbols, a: Pos, b: Pos, clip: Option<Rect>) returns (text: string)
    ensures Empty(AreaOf(screen, clip)) ==> text == ""
    ensures var area := AreaOf(screen, clip);
            forall p, q :: Nearest(area, a, p) && Nearest(area, b, q) ==>
              text == Text(symbols, area, p, q, Least(p.y, q.y))
    ensures var area := AreaOf(screen, clip);
            area.Contains(a.x, a.y) && area.Contains(b.x, b.y) ==> text == Text(symbols, area, a, b, Least(a.y, b.y))
  {
    var area := AreaOf(screen, clip);
    if Empty(area) {
      return "";
    }
    var p, q := Clamp(a, area), Clamp(b, area);
    var start, end := if Before(p, q) then p else q, if Before(p, q) then q else p;
    text := ExtractLines(symbols, area, start, end);
    TextSymmetric(symbols, area, p, q, start.y);
    forall r, s | Nearest(area, a, r) && Nearest(area, b, s) ensures r == p && s == q {
      NearestIsOne(area, a, r, p);
      NearestIsOne(area, b, s, q);
    }
  }

  /** One more row is one more line, and a line feed unless it is the last. */
  lemma NextLine(symbols: Symbols, area: Rect, start: Pos, end: Pos, y: nat, text: string)
    requires start.y <= y <= end.y
    ensures var line := TrimRight(RowText(symbols, area, start, end, y, area.x));
            text + Text(symbols, area, start, end, y) ==
            if y < end.y then text + line + "\n" + Text(symbols, area, start, end, y + 1) else text + line + ""
  {
    hide RowText, TrimRight;
    var line := TrimRight(RowText(symbols, area, start, end, y, area.x));
    if y < end.y {
      var rest := Text(symbols, area, start, end, y + 1);
      assert text + (line + "\n" + rest) == text + line + "\n" + rest;
    } else {
      assert text + line + "" == text + line;
    }
  }

  method ExtractLines(symbols: Symbols, area: Rect, start: Pos, end: Pos) returns (text: string)
    requires area.Contains(start.x, start.y) && area.Contains(end.x, end.y) && Before(start, end)
    ensures text == Text(symbols, area, start, end, start.y)
  {
    hide RowText, TrimRight, Text;
    text := "";
    ghost var whole := Text(symbols, area, start, end, start.y);
    assert text + whole == whole;
    for y := start.y to end.y + 1
      invariant y <= end.y ==> text + Text(symbols, area, start, end, y) == whole
      invariant y == end.y + 1 ==> text == whole
    {
      var line := ExtractRow(symbols, area, start, end, y);
      NextLine(symbols, area, start, end, y, text);
      text := text + line + if y < end.y then "\n" else "";
    }
  }

  lemma {:induction false} RowTextSymmetric(symbols: Symbols, area: Rect, a: Pos, b: Pos, y: nat, x: nat)
    ensures RowText(symbols, area, a, b, y, x) == RowText(symbols, area, b, a, y, x)
    decreases Minus(area.Right(), x)
  {
    if x < area.Right() {
      EndsMayBeSwapped(area, a, b, Pos(x, y));
      RowTextSymmetric(symbols, area, a, b, y, x + 1);
    }
  }

  lemma {:induction false} TextSymmetric(symbols: Symbols, area: Rect, a: Pos, b: Pos, y: nat)
    ensures Text(symbols, area, a, b, y) == Text(symbols, area, b, a, y)
    decreases Minus(Most(a.y, b.y) + 1, y)
  {
    RowTextSymmetric(symbols, area, a, b, y, area.x);
    if y < Most(a.y, b.y) { TextSymmetric(symbols, area, a, b, y + 1); }
  }

  // ---------------------------------------------------------------------- the marks

  /** The cells drawn in reverse. */
  class Marks {
    var reversed: set<Pos>

    constructor ()
      ensures reversed == {}
    {
      reversed := {};
    }

    /** Reverse exactly the selected cells, the ones the text is taken from. */
    method Highlight(screen: Rect, a: Pos, b: Pos, clip: Option<Rect>)
      modifies this
      ensures Empty(AreaOf(screen, clip)) ==> reversed == old(reversed)
      ensures var area := AreaOf(screen, clip);
              forall p, q :: Nearest(area, a, p) && Nearest(area, b, q) ==>
                forall c :: c in reversed <==> c in old(reversed) || Selected(area, p, q, c)
      ensures var area := AreaOf(screen, clip);
              area.Contains(a.x, a.y) && area.Contains(b.x, b.y) ==>
                forall c :: c in reversed <==> c in old(reversed) || Selected(area, a, b, c)
    {
      hide Selected, Clamp;
      var area := AreaOf(screen, clip);
      if Empty(area) {
        return;
      }
      var p, q := Clamp(a, area), Clamp(b, area);
      HighlightBetween(area, p, q);
      forall r, s | Nearest(area, a, r) && Nearest(area, b, s) ensures r == p && s == q {
        NearestIsOne(area, a, r, p);
        NearestIsOne(area, b, s, q);
      }
    }

    method HighlightBetween(area: Rect, p: Pos, q: Pos)
      requires area.Contains(p.x, p.y) && area.Contains(q.x, q.y)
      modifies this
      ensures forall c :: c in reversed <==> c in old(reversed) || Selected(area, p, q, c)
    {
      var start, end := if Before(p, q) then p else q, if Before(p, q) then q else p;
      for y := start.y to end.y + 1
        invariant forall c :: c in reversed <==> c in old(reversed) || (Selected(area, start, end, c) && c.y < y)
      {
        HighlightRow(area, start, end, y);
      }
    }

    method HighlightRow(area: Rect, start: Pos, end: Pos, y: nat)
      requires area.Contains(start.x, start.y) && area.Contains(end.x, end.y) && Before(start, end)
      requires start.y <= y <= end.y
      modifies this
      ensures forall c :: c in reversed <==> c in old(reversed) || (Selected(area, start, end, c) && c.y == y)
    {
      var span := Span(area, start, end, y);
      for x := span.0 to span.1 + 1
        invariant forall c :: c in reversed <==> c in old(reversed) || (c.y == y && span.0 <= c.x < x)
      {
        reversed := reversed + {Pos(x, y)};
      }
      forall c: Pos | c.y == y ensures Selected(area, start, end, c) <==> span.0 <= c.x <= span.1 {
        SpanIsTheInterval(area, start, end, c);
      }
    }
  }
}
