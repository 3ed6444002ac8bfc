/**
 The frame encoder: a grid of cells as rows of runs, each a text and an interned
 style, with the blank tail of a row left off.
 */
module Frames {
  import opened Base
  import opened Terminal

  /** Colours and attributes with the defaults filled in and `reverse` spent. */
  datatype Style = Style(fg: Color, bg: Color, mods: set<Mod>)

  const GROUND := Rgb(0x15, 0x1A, 0x23)
  const INK := Rgb(0xDD, 0xE4, 0xEF)

  function Resolved(pen: Pen): Style {
    var fg, bg := if pen.fg.Default? then INK else pen.fg, if pen.bg.Default? then GROUND else pen.bg;
    if Reverse in pen.mods then Style(bg, fg, pen.mods - {Reverse}) else Style(fg, bg, pen.mods)
  }

  /** A pen's own colours, or the defaults; a reversed pen looks like the same pen without
      `Reverse`, its two colours in each other's place. */
  lemma Reversal(pen: Pen)
    ensures var plain := Resolved(pen.(mods := pen.mods - {Reverse}));
            && (pen.fg.Default? ==> plain.fg == INK) && (pen.bg.Default? ==> plain.bg == GROUND)
            && (!pen.fg.Default? ==> plain.fg == pen.fg) && (!pen.bg.Default? ==> plain.bg == pen.bg)
            && (forall m :: m in plain.mods <==> m in pen.mods && m != Reverse)
            && if Reverse in pen.mods then Resolved(pen) == Style(plain.bg, plain.fg, plain.mods)
               else Resolved(pen) == plain
  {
    if Reverse !in pen.mods { assert pen.mods - {Reverse} == pen.mods; }
  }

  datatype Run = Run(text: string, style: nat)

  /** What a column shows: its character and how it looks. */
  datatype Shown = Shown(ch: char, style: Style)

  type Spaces = char -> bool

  // ------------------------------------------------------------------------ palette

  /** Interns styles; an id, once given, keeps meaning the same style. */
  class Palette {
    var index: map<Style, nat>
    var list: seq<Style>

    ghost predicate Valid()
      reads this
    {
      && (forall s :: s in index ==> index[s] < |list| && list[index[s]] == s)
      && (forall i :: 0 <= i < |list| ==> list[i] in index && index[list[i]] == i)
    }

    constructor ()
      ensures Valid() && list == []
    {
      index, list := map[], [];
    }

    method Id(s: Style) returns (id: nat)
      requires Valid()
      modifies this
      ensures Valid() && old(list) <= list && id < |list| && list[id] == s
      ensures s in old(list) ==> list == old(list)
    {
      if s !in index {
        index := index[s := |list|];
        list := list + [s];
      }
      id := index[s];
    }
  }

  // --------------------------------------------------------------- what runs mean

  ghost predicate Interned(runs: seq<Run>, list: seq<Style>) {
    forall i :: 0 <= i < |runs| ==> runs[i].style < |list|
  }

  function Paint(text: string, style: Style): (s: seq<Shown>)
    ensures |s| == |text| && forall i :: 0 <= i < |text| ==> s[i] == Shown(text[i], style)
  {
    seq(|text|, i requires 0 <= i < |text| => Shown(text[i], style))
  }

  /** The columns a row of runs paints. */
  ghost function Expand(runs: seq<Run>, list: seq<Style>): seq<Shown>
    requires Interned(runs, list)
  {
    if runs == [] then []
    else
      var last := runs[|runs| - 1];
      Expand(runs[..|runs| - 1], list) + Paint(last.text, list[last.style])
  }

  /** The columns a row of cells shows, leaving out the second halves of wide glyphs. */
  function Columns(row: seq<Cell>): seq<Shown> {
    if row == [] then []
    else
      var c := row[|row| - 1];
      Columns(row[..|row| - 1]) + if c.cont then [] else [Shown(Glyph(c), Resolved(c.pen))]
  }

  function Glyph(c: Cell): char { if c.ch == "" then ' ' else c.ch[0] }

  /** Column `k` is that of cell `i`, the columns of the cells before it being before it. */
  predicate ColumnOf(row: seq<Cell>, i: nat, k: nat) {
    && i < |row| && !row[i].cont && k == |Columns(row[..i])| && k < |Columns(row)|
    && Columns(row)[k] == Shown(Glyph(row[i]), Resolved(row[i].pen))
  }

  ghost predicate HasCell(row: seq<Cell>, k: nat) { exists i :: ColumnOf(row, i, k) }

  lemma OneMoreCell(row: seq<Cell>, c: Cell)
    ensures Columns(row + [c]) == Columns(row) + if c.cont then [] else [Shown(Glyph(c), Resolved(c.pen))]
  {
    assert (row + [c])[..|row|] == row;
  }

  lemma ColumnStays(row: seq<Cell>, c: Cell, i: nat, k: nat)
    requires ColumnOf(row, i, k)
    ensures ColumnOf(row + [c], i, k)
  {
    hide Columns;
    OneMoreCell(row, c);
    assert (row + [c])[..i] == row[..i];
  }

  /** Each cell but the second half of a wide glyph has one column, in order, and there are
      no others. */
  lemma {:induction false} ColumnsAreCells(row: seq<Cell>)
    ensures forall i: nat :: i < |row| && !row[i].cont ==> ColumnOf(row, i, |Columns(row[..i])|)
    ensures forall k: nat :: k < |Columns(row)| ==> HasCell(row, k)
  {
    if row == [] {
    } else {
      hide Columns, ColumnOf;
      var n := |row| - 1;
      var init, c := row[..n], row[n];
      assert row == init + [c];
      ColumnsAreCells(init);
      OneMoreCell(init, c);
      if !c.cont { LastColumn(init, c); }
      forall i: nat | i < n && !row[i].cont ensures ColumnOf(row, i, |Columns(row[..i])|) {
        assert row[..i] == init[..i];
        ColumnStays(init, c, i, |Columns(init[..i])|);
      }
      forall k: nat | k < |Columns(row)| ensures HasCell(row, k) {
        if k < |Columns(init)| {
          assert HasCell(init, k);
          var i :| ColumnOf(init, i, k);
          ColumnStays(init, c, i, k);
        }
      }
    }
  }

  lemma LastColumn(row: seq<Cell>, c: Cell)
    requires !c.cont
    ensures ColumnOf(row + [c], |row|, |Columns(row)|) && (row + [c])[..|row|] == row
  {
    OneMoreCell(row, c);
    assert (row + [c])[..|row|] == row;
  }

  predicate Blank(s: Shown, space: Spaces) { space(s.ch) && s.style.bg == GROUND }

  predicate BlankText(text: string, space: Spaces) { forall i :: 0 <= i < |text| ==> space(text[i]) }

  ghost predicate Merged(runs: seq<Run>) {
    && (forall i :: 0 <= i < |runs| ==> runs[i].text != "")
    && (forall i :: 0 <= i < |runs| - 1 ==> runs[i].style != runs[i + 1].style)
  }

  /** The runs paint the row up to a tail of blanks on the ground colour, neighbours differ
      in style, and the last run is not itself such a tail. */
  ghost predicate Encodes(row: seq<Cell>, runs: seq<Run>, list: seq<Style>, space: Spaces) {
    && Interned(runs, list) && Merged(runs)
    && var painted, shown := Expand(runs, list), Columns(row);
       && painted <= shown
       && (forall i :: |painted| <= i < |shown| ==> Blank(shown[i], space))
       && (runs != [] ==>
             var last := runs[|runs| - 1];
             !BlankText(last.text, space) || list[last.style].bg != GROUND)
  }

  // -------------------------------------------------------------------- the methods

  lemma {:induction false} ExpandStays(runs: seq<Run>, list: seq<Style>, more: seq<Style>)
    requires Interned(runs, list) && list <= more
    ensures Interned(runs, more) && Expand(runs, more) == Expand(runs, list)
  {
    if runs != [] { ExpandStays(runs[..|runs| - 1], list, more); }
  }

  lemma EncodesStays(row: seq<Cell>, runs: seq<Run>, list: seq<Style>, more: seq<Style>, space: Spaces)
    requires Encodes(row, runs, list, space) && list <= more
    ensures Encodes(row, runs, more, space)
  {
    ExpandStays(runs, list, more);
  }

  /** One more column, on the last run or on a run of its own. */
  function Appended(runs: seq<Run>, ch: char, style: nat): seq<Run> {
    if runs != [] && runs[|runs| - 1].style == style
    then runs[..|runs| - 1] + [Run(runs[|runs| - 1].text + [ch], style)]
    else runs + [Run([ch], style)]
  }

  lemma AppendedPaints(runs: seq<Run>, ch: char, style: nat, list: seq<Style>)
    requires Interned(runs, list) && Merged(runs) && style < |list|
    ensures var r := Appended(runs, ch, style);
            Interned(r, list) && Merged(r) && Expand(r, list) == Expand(runs, list) + [Shown(ch, list[style])]
  {
    var r := Appended(runs, ch, style);
    if runs != [] && runs[|runs| - 1].style == style {
      var last := runs[|runs| - 1];
      assert r[..|r| - 1] == runs[..|runs| - 1];
      assert Paint(last.text + [ch], list[style]) == Paint(last.text, list[style]) + [Shown(ch, list[style])];
    } else {
      assert r[..|r| - 1] == runs;
      assert Paint([ch], list[style]) == [Shown(ch, list[style])];
    }
  }

  /** The runs of one row, before its tail is dropped. */
  method MergeRow(row: seq<Cell>, pal: Palette) returns (runs: seq<Run>)
    requires pal.Valid()
    modifies pal
    ensures pal.Valid() && old(pal.list) <= pal.list
    ensures Interned(runs, pal.list) && Merged(runs) && Expand(runs, pal.list) == Columns(row)
  {
    runs := [];
    for i := 0 to |row|
      invariant pal.Valid() && old(pal.list) <= pal.list
      invariant Interned(runs, pal.list) && Merged(runs) && Expand(runs, pal.list) == Columns(row[..i])
    {
      assert row[..i + 1][..i] == row[..i];
      var cell := row[i];
      if !cell.cont {
        ghost var before := pal.list;
        var sid := pal.Id(Resolved(cell.pen));
        ExpandStays(runs, before, pal.list);
        AppendedPaints(runs, Glyph(cell), sid, pal.list);
        runs := Appended(runs, Glyph(cell), sid);
      }
    }
    assert row[..|row|] == row;
  }

  /** Drop the blank tail. */
  method DropTail(full: seq<Run>, pal: Palette, ghost row: seq<Cell>, space: Spaces) returns (runs: seq<Run>)
    requires Interned(full, pal.list) && Merged(full) && Expand(full, pal.list) == Columns(row)
    ensures Encodes(row, runs, pal.list, space)
  {
    runs := full;
    while runs != [] && BlankText(runs[|runs| - 1].text, space) && pal.list[runs[|runs| - 1].style].bg == GROUND
      invariant Interned(runs, pal.list) && Merged(runs) && Expand(runs, pal.list) <= Columns(row)
      invariant forall i :: |Expand(runs, pal.list)| <= i < |Columns(row)| ==> Blank(Columns(row)[i], space)
      decreases |runs|
    {
      ghost var painted := Expand(runs, pal.list);
      assert forall i :: 0 <= i < |painted| ==> Columns(row)[i] == painted[i];
      runs := runs[..|runs| - 1];
    }
  }

  /** The grid as rows of runs.  Ids already in the palette keep their meaning. */
  method Encode(cells: seq<seq<Cell>>, pal: Palette, space: Spaces) returns (rows: seq<seq<Run>>)
    requires pal.Valid()
    modifies pal
    ensures pal.Valid() && Distinct(pal.list) && old(pal.list) <= pal.list
    ensures |rows| == |cells|
    ensures forall y :: 0 <= y < |cells| ==> Encodes(cells[y], rows[y], pal.list, space)
  {
    rows := [];
    for y := 0 to |cells|
      invariant pal.Valid() && old(pal.list) <= pal.list && |rows| == y
      invariant forall k :: 0 <= k < y ==> Encodes(cells[k], rows[k], pal.list, space)
    {
      ghost var before := pal.list;
      var runs := MergeRow(cells[y], pal);
      forall k | 0 <= k < y ensures Encodes(cells[k], rows[k], pal.list, space) {
        EncodesStays(cells[k], rows[k], before, pal.list, space);
      }
      runs := DropTail(runs, pal, cells[y], space);
      rows := rows + [runs];
    }
  }

  // --------------------------------------------------------------------- no loss

  /** Nothing but a blank tail is lost: two rows with the same runs under one palette show
      the same columns, except that one may go on with blanks on the ground colour. */
  lemma OnlyBlankTailsAreLost(a: seq<Cell>, b: seq<Cell>, runs: seq<Run>, list: seq<Style>, space: Spaces)
    requires Encodes(a, runs, list, space) && Encodes(b, runs, list, space)
    requires |Columns(a)| <= |Columns(b)|
    ensures forall i :: 0 <= i < |Columns(a)| ==>
              Columns(a)[i] == Columns(b)[i] || (Blank(Columns(a)[i], space) && Blank(Columns(b)[i], space))
    ensures forall i :: |Columns(a)| <= i < |Columns(b)| ==> Blank(Columns(b)[i], space)
  {
  }

  lemma {:induction false} ExpandAt(runs: seq<Run>, list: seq<Style>, k: nat)
    requires Interned(runs, list) && k <= |runs|
    ensures Expand(runs[..k], list) <= Expand(runs, list)
    decreases |runs| - k
  {
    if k < |runs| {
      ExpandAt(runs, list, k + 1);
      assert runs[..k + 1][..k] == runs[..k];
    } else {
      assert runs[..k] == runs;
    }
  }

  /** The last run paints the end of the row, and the column before it looks different. */
  lemma LastRun(runs: seq<Run>, list: seq<Style>)
    requires Interned(runs, list) && Merged(runs) && Distinct(list) && runs != []
    ensures var last, s := runs[|runs| - 1], Expand(runs, list);
            EndsWith(s, Expand(runs[..|runs| - 1], list), last.text, list[last.style])
  {
    if |runs| > 1 {
      var front := runs[..|runs| - 1];
      var before := front[|front| - 1];
      assert Expand(front, list) == Expand(front[..|front| - 1], list) + Paint(before.text, list[before.style]);
      assert before == runs[|runs| - 2];
    }
  }

  /** Row `s` is `x` and then `t` in a style that `x` does not end with. */
  ghost predicate EndsWith(s: seq<Shown>, x: seq<Shown>, t: string, st: Style) {
    && t != "" && |s| == |x| + |t| && s[..|x|] == x
    && (forall i :: |x| <= i < |s| ==> s[i] == Shown(t[i - |x|], st))
    && (|x| > 0 ==> s[|x| - 1].style != st)
  }

  lemma SameEnd(s: seq<Shown>, x: seq<Shown>, y: seq<Shown>, t: string, u: string, st: Style, su: Style)
    requires EndsWith(s, x, t, st) && EndsWith(s, y, u, su)
    ensures st == su && t == u && x == y
  {
    var last := s[|s| - 1];
    assert |x| == |y|;
    forall i | 0 <= i < |t| ensures t[i] == u[i] {
      assert s[|x| + i] == Shown(t[i], st);
    }
  }

  /** A row has one encoding: runs that paint the same row under one injective palette are
      the same runs. */
  lemma {:induction false} MergedRunsAreUnique(a: seq<Run>, b: seq<Run>, list: seq<Style>)
    requires Interned(a, list) && Interned(b, list) && Merged(a) && Merged(b) && Distinct(list)
    requires Expand(a, list) == Expand(b, list)
    ensures a == b
  {
    hide Expand, EndsWith;
    PaintsSomething(a, list);
    PaintsSomething(b, list);
    if a != [] && b != [] {
      LastRun(a, list);
      LastRun(b, list);
      var p, q, a', b' := a[|a| - 1], b[|b| - 1], a[..|a| - 1], b[..|b| - 1];
      SameEnd(Expand(a, list), Expand(a', list), Expand(b', list), p.text, q.text, list[p.style], list[q.style]);
      MergedRunsAreUnique(a', b', list);
      assert p == q;
      assert a == a' + [p] && b == b' + [q];
    }
  }

  lemma PaintsSomething(runs: seq<Run>, list: seq<Style>)
    requires Interned(runs, list) && Merged(runs)
    ensures Expand(runs, list) == [] <==> runs == []
  {
  }
}
