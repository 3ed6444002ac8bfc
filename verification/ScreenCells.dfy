/**
 How a screen is read for links: which cells make one line of text.

 A rectangle of the stage is read with its rows joined wherever a row is filled to its
 last column and the next does not begin a link of its own; everything else is read
 row by row.
 */
module ScreenCells {
  import opened Base
  import opened Layout
  import opened Selection
  import Links

  /** One character a cell. */
  type Cells = Pos -> char

  /** Enough cells to recognise any scheme. */
  const SCHEME_CELLS: nat := 8

  function RowCells(rect: Rect, y: nat): (r: seq<Pos>)
    ensures |r| == rect.width && forall i :: 0 <= i < |r| ==> r[i] == Pos(rect.x + i, y)
  {
    seq(rect.width, i requires i >= 0 => Pos(rect.x + i, y))
  }

  /** The cells of rows `y` up to `z`, in reading order. */
  function RowsOf(rect: Rect, y: nat, z: nat): seq<Pos>
    requires y <= z
    decreases z - y
  {
    if y == z then [] else RowsOf(rect, y, z - 1) + RowCells(rect, z - 1)
  }

  function Chars(cells: Cells, line: seq<Pos>): (s: string)
    ensures |s| == |line|
  {
    seq(|line|, i requires 0 <= i < |line| => cells(line[i]))
  }

  predicate Full(cells: Cells, rect: Rect, y: nat) {
    rect.width > 0 && cells(Pos(rect.Right() - 1, y)) != ' '
  }

  predicate StartsALink(cells: Cells, rect: Rect, y: nat) {
    Links.StartsHere(Chars(cells, RowCells(rect.(width := Least(rect.width, SCHEME_CELLS)), y)), 0) > 0
  }

  predicate Continues(cells: Cells, rect: Rect, join: bool, y: nat) {
    join && Full(cells, rect, y) && y + 1 < rect.Bottom() && !StartsALink(cells, rect, y + 1)
  }

  /** The last row of the line that starts on row `y`. */
  function LineEnd(cells: Cells, rect: Rect, join: bool, y: nat): (e: nat)
    requires y < rect.Bottom()
    ensures y <= e < rect.Bottom()
    decreases rect.Bottom() - y
  {
    if Continues(cells, rect, join, y) then LineEnd(cells, rect, join, y + 1) else y
  }

  /** The lines of a rectangle from row `y` on. */
  function BlockLines(cells: Cells, rect: Rect, join: bool, y: nat): seq<seq<Pos>>
    decreases rect.Bottom() - y
  {
    if y >= rect.Bottom() then []
    else
      var e := LineEnd(cells, rect, join, y);
      [RowsOf(rect, y, e + 1)] + BlockLines(cells, rect, join, e + 1)
  }

  /** A rectangle and whether its rows are joined. */
  datatype Part = Part(rect: Rect, join: bool)

  predicate HasStage(stage: Option<Rect>, area: Rect) {
    stage.Some? && !Empty(Intersection(stage.value, area))
  }

  /** What is read of row `y` beside the stage. */
  function RowParts(area: Rect, stage: Option<Rect>, y: nat): seq<Part> {
    if HasStage(stage, area) && Intersection(stage.value, area).y <= y < Intersection(stage.value, area).Bottom() then
      var s := Intersection(stage.value, area);
      Worth(Rect(area.x, y, Minus(s.x, area.x), 1)) + Worth(Rect(s.Right(), y, Minus(area.Right(), s.Right()), 1))
    else [Part(Rect(area.x, y, area.width, 1), false)]
  }

  function Worth(r: Rect): seq<Part> { if r.width > 0 then [Part(r, false)] else [] }

  function PartsTo(area: Rect, stage: Option<Rect>, y: nat): seq<Part>
    requires area.y <= y
    decreases y
  {
    if y == area.y then (if HasStage(stage, area) then [Part(Intersection(stage.value, area), true)] else [])
    else PartsTo(area, stage, y - 1) + RowParts(area, stage, y - 1)
  }

  /** The whole screen: the stage first, then what lies beside it row by row. */
  function Parts(area: Rect, stage: Option<Rect>): seq<Part> { PartsTo(area, stage, area.Bottom()) }

  // ------------------------------------------------------------- which rows are joined

  predicate Together(lines: seq<seq<Pos>>, p: Pos, q: Pos) {
    exists n :: 0 <= n < |lines| && p in lines[n] && q in lines[n]
  }

  /** The row begins with this word, capitals or not, all of it among its first cells. */
  predicate RowBegins(cells: Cells, rect: Rect, y: nat, word: string) {
    && |word| <= rect.width && |word| <= SCHEME_CELLS
    && forall j :: 0 <= j < |word| ==> Links.Lower(cells(Pos(rect.x + j, y))) == Links.Lower(word[j])
  }

  lemma LinkStarts(cells: Cells, rect: Rect, y: nat)
    ensures StartsALink(cells, rect, y) <==>
              exists k :: 0 <= k < |Links.WORDS| && RowBegins(cells, rect, y, Links.WORDS[k])
  {
    hide Links.FirstMatch;
    var text := Chars(cells, RowCells(rect.(width := Least(rect.width, SCHEME_CELLS)), y));
    forall k | 0 <= k < |Links.WORDS|
      ensures RowBegins(cells, rect, y, Links.WORDS[k]) <==> Links.MatchesAt(text, 0, Links.WORDS[k])
    {
      RowMatches(cells, rect, y, Links.WORDS[k]);
    }
    hide Links.MatchesAt, RowBegins;
    if StartsALink(cells, rect, y) {
      var k := Links.SomeWord(text, 0, Links.WORDS);
    } else if k :| 0 <= k < |Links.WORDS| && Links.MatchesAt(text, 0, Links.WORDS[k]) {
      Links.SomeMatch(text, 0, Links.WORDS, k);
    }
  }

  lemma RowMatches(cells: Cells, rect: Rect, y: nat, w: string)
    ensures var text := Chars(cells, RowCells(rect.(width := Least(rect.width, SCHEME_CELLS)), y));
            RowBegins(cells, rect, y, w) <==> Links.MatchesAt(text, 0, w)
  {
    hide Links.Lower;
    var row := RowCells(rect.(width := Least(rect.width, SCHEME_CELLS)), y);
    var text := Chars(cells, row);
    assert forall j :: 0 <= j < |text| ==> text[j] == cells(Pos(rect.x + j, y));
  }

  lemma {:induction false} LineEndIs(cells: Cells, rect: Rect, join: bool, y: nat, z: nat)
    requires y <= z < rect.Bottom()
    ensures var e := LineEnd(cells, rect, join, y);
            (z < e ==> Continues(cells, rect, join, z)) && (z == e ==> !Continues(cells, rect, join, z))
    decreases z - y
  {
    hide Continues;
    if y < z && Continues(cells, rect, join, y) { LineEndIs(cells, rect, join, y + 1, z); }
  }

  lemma {:induction false} LinesLieBelow(cells: Cells, rect: Rect, join: bool, y: nat)
    ensures forall n, p :: 0 <= n < |BlockLines(cells, rect, join, y)| && p in BlockLines(cells, rect, join, y)[n] ==>
              p.y >= y
    decreases rect.Bottom() - y
  {
    if y < rect.Bottom() {
      var e := LineEnd(cells, rect, join, y);
      LinesLieBelow(cells, rect, join, e + 1);
      hide LineEnd, RowsOf;
      forall p | p in RowsOf(rect, y, e + 1) ensures p.y >= y { RowsHold(rect, y, e + 1, p); }
    }
  }

  lemma {:induction false} JoinedWhere(cells: Cells, rect: Rect, join: bool, y: nat, z: nat)
    requires rect.width > 0 && y <= z && z + 1 < rect.Bottom()
    ensures Together(BlockLines(cells, rect, join, y), Pos(rect.x, z), Pos(rect.x, z + 1))
            <==> Continues(cells, rect, join, z)
    decreases z - y
  {
    hide LineEnd, RowsOf, Continues;
    var p, q := Pos(rect.x, z), Pos(rect.x, z + 1);
    var e := LineEnd(cells, rect, join, y);
    var line, rest := RowsOf(rect, y, e + 1), BlockLines(cells, rect, join, e + 1);
    LineEndIs(cells, rect, join, y, z);
    RowsHold(rect, y, e + 1, p);
    RowsHold(rect, y, e + 1, q);
    LinesLieBelow(cells, rect, join, e + 1);
    assert BlockLines(cells, rect, join, y) == [line] + rest;
    hide BlockLines;
    FirstOrLater(line, rest, p, q);
    if z > e { JoinedWhere(cells, rect, join, e + 1, z); }
  }

  lemma FirstOrLater(line: seq<Pos>, rest: seq<seq<Pos>>, p: Pos, q: Pos)
    ensures Together([line] + rest, p, q) <==> (p in line && q in line) || Together(rest, p, q)
  {
    var all := [line] + rest;
    if p in line && q in line { assert p in all[0] && q in all[0]; }
    if n :| 0 <= n < |rest| && p in rest[n] && q in rest[n] { assert p in all[n + 1] && q in all[n + 1]; }
  }

  /** Two rows of a rectangle are read as one line exactly when its rows are to be joined, the
      upper is filled to its last cell, and the lower begins with nothing a link begins with. */
  lemma RowsAreJoinedWhere(cells: Cells, rect: Rect, join: bool, z: nat)
    requires rect.width > 0 && rect.y <= z && z + 1 < rect.Bottom()
    ensures Together(BlockLines(cells, rect, join, rect.y), Pos(rect.x, z), Pos(rect.x, z + 1)) <==>
              && join && cells(Pos(rect.x + rect.width - 1, z)) != ' '
              && !exists k :: 0 <= k < |Links.WORDS| && RowBegins(cells, rect, z + 1, Links.WORDS[k])
  {
    hide Together, BlockLines, StartsALink, RowBegins;
    JoinedWhere(cells, rect, join, rect.y, z);
    LinkStarts(cells, rect, z + 1);
  }

  /** Only the stage is joined, it comes first, and every other part is of one row. */
  lemma {:induction false} StageAloneIsJoined(area: Rect, stage: Option<Rect>, y: nat)
    requires area.y <= y
    ensures var ps := PartsTo(area, stage, y);
            && (HasStage(stage, area) ==> ps != [] && ps[0] == Part(Intersection(stage.value, area), true))
            && forall k :: 0 <= k < |ps| && !(k == 0 && HasStage(stage, area)) ==> !ps[k].join && ps[k].rect.height == 1
    decreases y
  {
    hide HasStage, Intersection;
    if y > area.y { StageAloneIsJoined(area, stage, y - 1); }
  }

  // ------------------------------------------------------------- every cell, once

  /** Neighbours in one row are neighbours in the line. */
  ghost predicate Consecutive(line: seq<Pos>) {
    forall i, j :: 0 <= i && j == i + 1 && j < |line| && line[j].y == line[i].y ==> line[j].x == line[i].x + 1
  }

  lemma {:induction false} RowsHold(rect: Rect, y: nat, z: nat, p: Pos)
    requires y <= z
    ensures p in RowsOf(rect, y, z) <==> rect.x <= p.x < rect.Right() && y <= p.y < z
    decreases z - y
  {
    if y < z {
      RowsHold(rect, y, z - 1, p);
      if p.y == z - 1 && rect.x <= p.x < rect.Right() { assert RowCells(rect, z - 1)[p.x - rect.x] == p; }
    }
  }

  lemma {:induction false} RowsAreLines(rect: Rect, y: nat, z: nat)
    requires y <= z
    ensures Distinct(RowsOf(rect, y, z)) && Consecutive(RowsOf(rect, y, z))
    decreases z - y
  {
    if y < z {
      RowsAreLines(rect, y, z - 1);
      var front, row := RowsOf(rect, y, z - 1), RowCells(rect, z - 1);
      forall i | 0 <= i < |front| ensures front[i].y < z - 1 {
        assert front[i] in front;
        RowsHold(rect, y, z - 1, front[i]);
      }
    }
  }

  ghost predicate Disjoint(a: Rect, b: Rect) {
    forall x: nat, y: nat :: !(a.Contains(x, y) && b.Contains(x, y))
  }

  /** The parts read before row `y`: in the area, apart from one another, and holding
      exactly the stage and the rows above. */
  ghost predicate Reads(area: Rect, stage: Option<Rect>, parts: seq<Part>, y: nat) {
    && (forall k :: 0 <= k < |parts| ==> parts[k].rect.Within(area))
    && (forall j, k :: 0 <= j < k < |parts| ==> Disjoint(parts[j].rect, parts[k].rect))
    && (forall p: Pos :: InParts(parts, p) <==>
          area.Contains(p.x, p.y)
          && (p.y < y || (HasStage(stage, area) && Intersection(stage.value, area).Contains(p.x, p.y))))
  }

  ghost predicate InParts(parts: seq<Part>, p: Pos) {
    exists k :: 0 <= k < |parts| && parts[k].rect.Contains(p.x, p.y)
  }

  lemma InPartsConcat(a: seq<Part>, b: seq<Part>, p: Pos)
    ensures InParts(a + b, p) <==> InParts(a, p) || InParts(b, p)
  {
    if k :| 0 <= k < |a| && a[k].rect.Contains(p.x, p.y) { assert (a + b)[k] == a[k]; }
    if k :| 0 <= k < |b| && b[k].rect.Contains(p.x, p.y) { assert (a + b)[|a| + k] == b[k]; }
    if k :| 0 <= k < |a + b| && (a + b)[k].rect.Contains(p.x, p.y) {
      assert (a + b)[k] == if k < |a| then a[k] else b[k - |a|];
    }
  }

  /** What one row adds. */
  lemma RowPartsRead(area: Rect, stage: Option<Rect>, y: nat)
    requires area.y <= y < area.Bottom()
    ensures var ps := RowParts(area, stage, y);
            && (forall k :: 0 <= k < |ps| ==> ps[k].rect.Within(area))
            && (forall j, k :: 0 <= j < k < |ps| ==> Disjoint(ps[j].rect, ps[k].rect))
            && (forall p: Pos :: InParts(ps, p) <==>
                  area.Contains(p.x, p.y) && p.y == y
                  && !(HasStage(stage, area) && Intersection(stage.value, area).Contains(p.x, p.y)))
  {
    var ps := RowParts(area, stage, y);
    forall p: Pos
      ensures InParts(ps, p) <==>
                area.Contains(p.x, p.y) && p.y == y
                && !(HasStage(stage, area) && Intersection(stage.value, area).Contains(p.x, p.y))
    {
      if HasStage(stage, area) && Intersection(stage.value, area).y <= y < Intersection(stage.value, area).Bottom() {
        var s := Intersection(stage.value, area);
        var l, r := Rect(area.x, y, Minus(s.x, area.x), 1), Rect(s.Right(), y, Minus(area.Right(), s.Right()), 1);
        InPartsConcat(Worth(l), Worth(r), p);
        assert InParts(Worth(l), p) <==> l.Contains(p.x, p.y) by { if l.width > 0 { assert Worth(l)[0].rect == l; } }
        assert InParts(Worth(r), p) <==> r.Contains(p.x, p.y) by { if r.width > 0 { assert Worth(r)[0].rect == r; } }
      } else {
        assert ps[0].rect == Rect(area.x, y, area.width, 1);
      }
    }
  }

  /** Parts that read disjoint sets of cells are disjoint. */
  lemma PartsApart(a: seq<Part>, b: seq<Part>)
    requires forall p: Pos :: !(InParts(a, p) && InParts(b, p))
    ensures forall j, k :: 0 <= j < |a| && 0 <= k < |b| ==> Disjoint(a[j].rect, b[k].rect)
  {
    forall j, k, x: nat, y: nat | 0 <= j < |a| && 0 <= k < |b|
      ensures !(a[j].rect.Contains(x, y) && b[k].rect.Contains(x, y))
    {
      assert !(InParts(a, Pos(x, y)) && InParts(b, Pos(x, y)));
    }
  }

  /** Before the first row only the stage is read. */
  lemma StagePartReads(area: Rect, stage: Option<Rect>)
    ensures Reads(area, stage, PartsTo(area, stage, area.y), area.y)
  {
    if HasStage(stage, area) { assert PartsTo(area, stage, area.y)[0].rect == Intersection(stage.value, area); }
  }

  /** What is read above a row, and what the row adds. */
  lemma RowJoins(area: Rect, stage: Option<Rect>, a: seq<Part>, b: seq<Part>, y: nat)
    requires Reads(area, stage, a, y)
    requires forall k :: 0 <= k < |b| ==> b[k].rect.Within(area)
    requires forall j, k :: 0 <= j < k < |b| ==> Disjoint(b[j].rect, b[k].rect)
    requires forall p: Pos :: InParts(b, p) <==>
               area.Contains(p.x, p.y) && p.y == y
               && !(HasStage(stage, area) && Intersection(stage.value, area).Contains(p.x, p.y))
    ensures Reads(area, stage, a + b, y + 1)
  {
    hide InParts, Disjoint, HasStage, Intersection;
    forall p: Pos ensures InParts(a + b, p) <==> InParts(a, p) || InParts(b, p) { InPartsConcat(a, b, p); }
    PartsApart(a, b);
  }

  lemma {:induction false} PartsRead(area: Rect, stage: Option<Rect>, y: nat)
    requires area.y <= y <= area.Bottom()
    ensures Reads(area, stage, PartsTo(area, stage, y), y)
    decreases y
  {
    if y == area.y {
      StagePartReads(area, stage);
    } else {
      hide RowParts, Reads, HasStage, InParts, Disjoint;
      PartsRead(area, stage, y - 1);
      RowPartsRead(area, stage, y - 1);
      RowJoins(area, stage, PartsTo(area, stage, y - 1), RowParts(area, stage, y - 1), y - 1);
    }
  }

  /** Every cell of the screen is in exactly one part. */
  lemma EveryCellIsReadOnce(area: Rect, stage: Option<Rect>, p: Pos)
    ensures var ps := Parts(area, stage);
            && (area.Contains(p.x, p.y) <==> InParts(ps, p))
            && forall j, k :: 0 <= j < k < |ps| ==> !(ps[j].rect.Contains(p.x, p.y) && ps[k].rect.Contains(p.x, p.y))
  {
    PartsRead(area, stage, area.Bottom());
  }

  // ------------------------------------------------------------- the order of reading

  /** Part by part the screen is read in reading order. */
  ghost predicate ReadInOrder(parts: seq<Part>) {
    forall j, k :: 0 <= j < k < |parts| ==> RectPrecedes(parts[j].rect, parts[k].rect)
  }

  ghost predicate RectPrecedes(a: Rect, b: Rect) {
    forall p: Pos, q: Pos :: a.Contains(p.x, p.y) && b.Contains(q.x, q.y) ==> Before(p, q)
  }

  /** How many rows `n` cells take that fill rows of `width`. */
  function Rows(n: nat, width: nat): (rows: nat)
    requires width > 0
    ensures n <= rows * width && (n > 0 ==> (rows - 1) * width < n)
  {
    (n + width - 1) / width
  }

  /** The rows of a rectangle that have `n` cells from their first on. */
  function StartRows(rect: Rect, n: nat): Rect {
    rect.(height := if rect.width == 0 then 0 else Minus(rect.height + 1, Rows(n, rect.width)))
  }

  /** Nothing as wide as `n` columns comes before a cell of the stage from which on there is
      room for as many. */
  predicate LeadsBy(area: Rect, stage: Option<Rect>, n: nat) {
    HasStage(stage, area) ==>
      var s := Intersection(stage.value, area);
      || s.height < Rows(n, s.width)
      || (&& (s.y == area.y || area.width < n)
          && s.x < area.x + n
          && (s.height == Rows(n, s.width) || area.Right() < s.Right() + n))
  }

  /** There is no stage, or it starts in the first cell and spans the width or is one row high. */
  predicate StageLeads(area: Rect, stage: Option<Rect>) {
    HasStage(stage, area) ==>
      var s := Intersection(stage.value, area);
      s.y == area.y && s.x == area.x && (s.width == area.width || s.height == 1)
  }

  lemma LeadsByOne(area: Rect, stage: Option<Rect>)
    ensures LeadsBy(area, stage, 1) <==> StageLeads(area, stage)
    ensures HasStage(stage, area) ==> StartRows(Intersection(stage.value, area), 1) == Intersection(stage.value, area)
  {
    if HasStage(stage, area) { assert Rows(1, Intersection(stage.value, area).width) == 1; }
  }

  /** The screen is read in reading order exactly when there is no stage or it leads. */
  lemma ReadInOrderExactly(area: Rect, stage: Option<Rect>)
    ensures ReadInOrder(Parts(area, stage)) <==> StageLeads(area, stage)
  {
    LeadsByOne(area, stage);
    hide Intersection, HasStage, LeadsBy, StageLeads, StartRows;
    var ps := Parts(area, stage);
    if LeadsBy(area, stage, 1) {
      forall j, k | 0 <= j < k < |ps| ensures RectPrecedes(ps[j].rect, ps[k].rect) {
        if Beside(area, stage, j) {
          BesideInOrder(area, stage, area.Bottom(), j, k);
        } else if ps[k].rect.width > 0 {
          StageIsFirst(area, stage, area.Bottom());
          StagePrecedes(area, stage, 1, k);
        }
      }
    } else {
      StageIsThere(area, stage);
      var k, p, q := PartAhead(area, stage, 1);
      assert !RectPrecedes(ps[0].rect, ps[k].rect);
    }
  }

  lemma StageIsThere(area: Rect, stage: Option<Rect>)
    requires !StageLeads(area, stage)
    ensures HasStage(stage, area)
  {
  }

  lemma RowInOrder(area: Rect, stage: Option<Rect>, y: nat)
    ensures ReadInOrder(RowParts(area, stage, y))
  {
    hide Intersection;
  }

  /** The stage is the first part. */
  lemma {:induction false} StageIsFirst(area: Rect, stage: Option<Rect>, y: nat)
    requires area.y <= y && HasStage(stage, area)
    ensures |PartsTo(area, stage, y)| > 0 && PartsTo(area, stage, y)[0] == Part(Intersection(stage.value, area), true)
    decreases y
  {
    hide RowParts, HasStage, Intersection;
    if y > area.y { StageIsFirst(area, stage, y - 1); }
  }

  lemma PartsAreApart(area: Rect, stage: Option<Rect>)
    ensures var ps := Parts(area, stage);
            && (forall k :: 0 <= k < |ps| ==> ps[k].rect.Within(area))
            && forall j, k :: 0 <= j < k < |ps| ==> Disjoint(ps[j].rect, ps[k].rect)
  {
    PartsRead(area, stage, area.Bottom());
  }

  /** What is read behind the stage: a row beside it, before those further down. */
  predicate Beside(area: Rect, stage: Option<Rect>, k: nat) { k > 0 || !HasStage(stage, area) }

  lemma {:induction false} BesideIsARow(area: Rect, stage: Option<Rect>, y: nat, k: nat)
    requires area.y <= y && k < |PartsTo(area, stage, y)| && Beside(area, stage, k)
    ensures var part := PartsTo(area, stage, y)[k];
            && part.rect.height == 1 && area.y <= part.rect.y < y && part in RowParts(area, stage, part.rect.y)
    decreases y
  {
    hide HasStage, Intersection;
    if y > area.y {
      if k < |PartsTo(area, stage, y - 1)| {
        BesideIsARow(area, stage, y - 1, k);
      } else {
        RowPartsAreRows(area, stage, y - 1, k - |PartsTo(area, stage, y - 1)|);
      }
    }
  }

  lemma RowPartsAreRows(area: Rect, stage: Option<Rect>, y: nat, k: nat)
    requires k < |RowParts(area, stage, y)|
    ensures var part := RowParts(area, stage, y)[k]; part.rect.height == 1 && part.rect.y == y && !part.join
  {
    hide Intersection, HasStage;
  }

  lemma RowsPrecede(a: Rect, b: Rect)
    requires a.Bottom() <= b.y
    ensures RectPrecedes(a, b)
  {
  }

  /** Beside the stage the screen is read in reading order. */
  lemma {:induction false} BesideInOrder(area: Rect, stage: Option<Rect>, y: nat, j: nat, k: nat)
    requires area.y <= y && j < k < |PartsTo(area, stage, y)| && Beside(area, stage, j)
    ensures RectPrecedes(PartsTo(area, stage, y)[j].rect, PartsTo(area, stage, y)[k].rect)
    decreases y
  {
    hide HasStage, Intersection, RowParts, RectPrecedes;
    if y > area.y {
      var front, row := PartsTo(area, stage, y - 1), RowParts(area, stage, y - 1);
      var n := |front|;
      assert PartsTo(area, stage, y) == front + row;
      if k < n {
        BesideInOrder(area, stage, y - 1, j, k);
      } else if j < n {
        BesideIsARow(area, stage, y - 1, j);
        RowPartsAreRows(area, stage, y - 1, k - n);
        RowsPrecede(front[j].rect, row[k - n].rect);
      } else {
        RowInOrder(area, stage, y - 1);
        assert RectPrecedes(row[j - n].rect, row[k - n].rect);
      }
    }
  }

  /** The part that holds a cell beside the stage. */
  lemma PartBeside(area: Rect, stage: Option<Rect>, q: Pos) returns (k: nat)
    requires HasStage(stage, area) && area.Contains(q.x, q.y) && !Intersection(stage.value, area).Contains(q.x, q.y)
    ensures var ps := Parts(area, stage);
            && 0 < k < |ps| && ps[0] == Part(Intersection(stage.value, area), true) && ps[k].rect.Contains(q.x, q.y)
            && ps[k].rect.y == q.y && ps[k] in RowParts(area, stage, q.y)
  {
    hide Intersection, HasStage;
    StageIsFirst(area, stage, area.Bottom());
    EveryCellIsReadOnce(area, stage, q);
    k :| 0 <= k < |Parts(area, stage)| && Parts(area, stage)[k].rect.Contains(q.x, q.y);
    BesideIsARow(area, stage, area.Bottom(), k);
  }

  /** A stage that leads is read ahead of every part as wide as `n`, in reading order. */
  lemma StagePrecedes(area: Rect, stage: Option<Rect>, n: nat, k: nat)
    requires LeadsBy(area, stage, n) && HasStage(stage, area) && 0 < k < |Parts(area, stage)|
    requires Parts(area, stage)[k].rect.width >= n > 0
    ensures RectPrecedes(StartRows(Parts(area, stage)[0].rect, n), Parts(area, stage)[k].rect)
  {
    StageIsFirst(area, stage, area.Bottom());
    BesideIsARow(area, stage, area.Bottom(), k);
    PartsAreApart(area, stage);
    hide Parts, Intersection, Rows;
  }

  /** A stage that does not lead is read ahead of a part as wide as `n` that begins before the
      last row of the stage with as many cells from its first on. */
  lemma PartAhead(area: Rect, stage: Option<Rect>, n: nat) returns (k: nat, p: Pos, q: Pos)
    requires HasStage(stage, area) && !LeadsBy(area, stage, n) && n > 0
    ensures var ps := Parts(area, stage);
            && 0 < k < |ps| && ps[0] == Part(Intersection(stage.value, area), true)
            && var s := ps[0].rect;
               && s.width > 0 && p.x == s.x && s.y <= p.y && p.y + Rows(n, s.width) == s.Bottom()
               && p.y < s.Bottom() && ps[k].rect.x == q.x && ps[k].rect.Contains(q.x, q.y)
               && ps[k].rect.width >= n && ps[k].rect.height == 1 && !Before(p, q)
  {
    var s := Intersection(stage.value, area);
    assert s.Right() <= area.Right() && s.Bottom() <= area.Bottom() && area.x <= s.x && area.y <= s.y;
    var rows := Rows(n, s.width);
    assert rows > 0;
    p := Pos(s.x, s.Bottom() - rows);
    q := if s.y > area.y && area.width >= n then Pos(area.x, area.y)
         else if s.x >= area.x + n then Pos(area.x, s.y)
         else Pos(s.Right(), s.y);
    k := PartBeside(area, stage, q);
    BesideIsARow(area, stage, area.Bottom(), k);
    hide Parts, Intersection, Rows;
  }

  ghost predicate InLines(lines: seq<seq<Pos>>, p: Pos) {
    exists n :: 0 <= n < |lines| && p in lines[n]
  }

  /** Within a part, every cell from row `y` on is in exactly one place of exactly one line. */
  lemma {:induction false} EveryCellIsInOneLine(cells: Cells, rect: Rect, join: bool, y: nat)
    requires rect.y <= y
    ensures var lines := BlockLines(cells, rect, join, y);
            && (forall p: Pos :: InLines(lines, p) <==> rect.Contains(p.x, p.y) && y <= p.y)
            && (forall m, n, p :: 0 <= m < n < |lines| ==> !(p in lines[m] && p in lines[n]))
            && (forall n :: 0 <= n < |lines| ==> Distinct(lines[n]) && Consecutive(lines[n]))
    decreases rect.Bottom() - y
  {
    if y < rect.Bottom() {
      var e := LineEnd(cells, rect, join, y);
      var line, rest := RowsOf(rect, y, e + 1), BlockLines(cells, rect, join, e + 1);
      var lines := BlockLines(cells, rect, join, y);
      assert lines == [line] + rest;
      RowsAreLines(rect, y, e + 1);
      EveryCellIsInOneLine(cells, rect, join, e + 1);
      forall p: Pos
        ensures p in line <==> rect.Contains(p.x, p.y) && y <= p.y <= e
        ensures InLines(lines, p) <==> p in line || InLines(rest, p)
      {
        RowsHold(rect, y, e + 1, p);
        InLinesCons(line, rest, p);
      }
      hide RowsOf, BlockLines, Distinct, Consecutive, InLines;
      forall m, n, p | 0 <= m < n < |lines| ensures !(p in lines[m] && p in lines[n]) {
        InOneOf(rest, n - 1, p);
        if m > 0 { assert lines[m] == rest[m - 1]; }
      }
    }
  }

  lemma InLinesCons(line: seq<Pos>, rest: seq<seq<Pos>>, p: Pos)
    ensures InLines([line] + rest, p) <==> p in line || InLines(rest, p)
  {
    var lines := [line] + rest;
    if n :| 0 <= n < |lines| && p in lines[n] { assert n > 0 ==> lines[n] == rest[n - 1]; }
    if n :| 0 <= n < |rest| && p in rest[n] { assert lines[n + 1] == rest[n]; }
    if p in line { assert lines[0] == line; }
  }

  lemma InOneOf(lines: seq<seq<Pos>>, n: nat, p: Pos)
    requires n < |lines|
    ensures p in lines[n] ==> InLines(lines, p)
  {
  }
}
