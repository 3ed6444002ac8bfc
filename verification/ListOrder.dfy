/**
 When the list of the URLs on a screen is in reading order: for all contents exactly
 where too little of the screen to hold a link comes before the stage.

 The contents that show it for every other place of the stage hold two links, one on
 the stage and one before it.
 */
module ListOrder {
  import opened Base
  import opened Layout
  import opened Selection
  import opened ScreenCells
  import opened LinkList
  import Links
  import opened SingleLinks

  /** What a cell holds of a text that starts at `p`, the first cell of a row, and is wrapped at
      a width. */
  function CellOf(text: string, p: Pos, width: nat, c: Pos): char {
    if p.y <= c.y && 0 <= Index(c, p, width) < |text| then text[Index(c, p, width)] else ' '
  }

  /** How many cells from `p` on a cell is, in rows of `width`. */
  function Index(c: Pos, p: Pos, width: nat): int { (c.y - p.y) * width + (c.x - p.x) }

  /** A screen with the link `a` in one rectangle, `b` in another, and nothing else. */
  function TwoLinks(one: Rect, p: Pos, a: string, two: Rect, q: Pos, b: string): Cells {
    (c: Pos) =>
      if one.Contains(c.x, c.y) then CellOf(a, p, one.width, c)
      else if two.Contains(c.x, c.y) then CellOf(b, q, two.width, c)
      else ' '
  }

  // -------------------------------------------------------- rectangles with one link or none

  ghost predicate BlankIn(cells: Cells, rect: Rect) {
    forall c: Pos :: rect.Contains(c.x, c.y) ==> cells(c) == ' '
  }

  /** A link of which no later row begins another when it is wrapped at a width. */
  predicate Wraps(url: string, width: nat) {
    && ' ' !in url
    && (width < |url| ==> |url| == 5 && Links.Lower(url[4]) != 'w')
  }

  /** The link fits the rectangle from `p` to its end, as it is wrapped. */
  predicate Placed(rect: Rect, p: Pos, url: string) {
    && OneLink(url) && Wraps(url, rect.width) && url != ""
    && rect.width > 0 && rect.x == p.x && rect.y <= p.y < rect.Bottom()
    && p.y + Rows(|url|, rect.width) == rect.Bottom()
  }

  /** On the rectangle there is one link, on the last rows, as many as it takes. */
  ghost predicate OneLinkIn(cells: Cells, rect: Rect, p: Pos, url: string) {
    && Placed(rect, p, url)
    && forall c: Pos :: rect.Contains(c.x, c.y) ==> cells(c) == CellOf(url, p, rect.width, c)
  }

  lemma {:induction false} BlankLines(cells: Cells, lines: seq<seq<Pos>>)
    requires forall n, i :: 0 <= n < |lines| && 0 <= i < |lines[n]| ==> cells(lines[n][i]) == ' '
    ensures LinesLinks(cells, lines) == []
  {
    hide LineLinks;
    if lines != [] {
      var n := |lines| - 1;
      assert forall m :: 0 <= m < n ==> lines[..n][m] == lines[m];
      BlankLines(cells, lines[..n]);
      NoLinkOnBlanks(cells, lines[n]);
    }
  }

  lemma NoLinkOnBlanks(cells: Cells, line: seq<Pos>)
    requires forall i :: 0 <= i < |line| ==> cells(line[i]) == ' '
    ensures LineLinks(cells, line) == []
  {
    BlankHasNoLink(Chars(cells, line), 0);
  }

  /** The lines of a rectangle from a row on hold no link where the rows are blank. */
  lemma BlankRows(cells: Cells, rect: Rect, join: bool, y: nat)
    requires rect.y <= y && forall c: Pos :: rect.Contains(c.x, c.y) && y <= c.y ==> cells(c) == ' '
    ensures LinesLinks(cells, BlockLines(cells, rect, join, y)) == []
  {
    hide BlockLines, Distinct, Consecutive;
    var lines := BlockLines(cells, rect, join, y);
    EveryCellIsInOneLine(cells, rect, join, y);
    forall n, i | 0 <= n < |lines| && 0 <= i < |lines[n]| ensures cells(lines[n][i]) == ' ' {
      InOneOf(lines, n, lines[n][i]);
    }
    BlankLines(cells, lines);
  }

  /** The text of the line that starts with the link's row: the link, and blanks. */
  lemma LinkText(cells: Cells, rect: Rect, p: Pos, url: string)
    requires OneLinkIn(cells, rect, p, url)
    ensures var line := RowsOf(rect, p.y, rect.Bottom());
            |line| > 0 && line[0] == p && url <= Chars(cells, line) && Blank(Chars(cells, line), |url|)
  {
    hide OneLink, Wraps, RowsOf, CellOf;
    var line, w := RowsOf(rect, p.y, rect.Bottom()), rect.width;
    RowsAt(rect, p.y, rect.Bottom(), 0);
    assert |url| <= |line|;
    forall k | 0 <= k < |line| ensures line[k] == Pos(p.x + k % w, p.y + k / w) && rect.Contains(line[k].x, line[k].y) {
      RowsAt(rect, p.y, rect.Bottom(), k);
      assert line[k] in line;
      RowsHold(rect, p.y, rect.Bottom(), line[k]);
    }
    forall k | 0 <= k < |line| ensures cells(line[k]) == if k < |url| then url[k] else ' ' {
      assert cells(line[k]) == CellOf(url, p, w, line[k]);
      IndexIs(url, p, w, k, line[k]);
    }
  }

  lemma IndexIs(url: string, p: Pos, width: nat, k: nat, c: Pos)
    requires width > 0 && c == Pos(p.x + k % width, p.y + k / width)
    ensures CellOf(url, p, width, c) == if k < |url| then url[k] else ' '
  {
    assert (c.y - p.y) * width + (c.x - p.x) == k / width * width + k % width == k;
  }

  /** The line that starts with the link's row runs on to the last. */
  lemma {:induction false} LinkRunsOn(cells: Cells, rect: Rect, join: bool, p: Pos, url: string, y: nat)
    requires OneLinkIn(cells, rect, p, url) && p.y <= y < rect.Bottom() && (join || rect.height == 1)
    ensures LineEnd(cells, rect, join, y) == rect.Bottom() - 1
    decreases rect.Bottom() - y
  {
    hide OneLinkIn, StartsALink, Full, CellOf, Placed;
    PlacedWithin(cells, rect, p, url);
    if y + 1 < rect.Bottom() {
      RowIsFull(cells, rect, p, url, y);
      NoLinkBelow(cells, rect, p, url, y + 1);
      LinkRunsOn(cells, rect, join, p, url, y + 1);
    }
  }

  lemma RowIsFull(cells: Cells, rect: Rect, p: Pos, url: string, y: nat)
    requires OneLinkIn(cells, rect, p, url) && p.y <= y && y + 1 < rect.Bottom()
    ensures Full(cells, rect, y)
  {
    hide OneLink, Rows;
    var c := Pos(rect.Right() - 1, y);
    LastOfRow(url, rect.width, y - p.y);
    assert Index(c, p, rect.width) == (y - p.y) * rect.width + rect.width - 1;
    assert url[Index(c, p, rect.width)] in url;
  }

  lemma LastOfRow(url: string, width: nat, m: nat)
    requires width > 0 && url != "" && m + 1 < Rows(|url|, width)
    ensures 0 <= m * width + width - 1 < |url|
  {
    var rows := Rows(|url|, width);
    assert (rows - 1) * width < |url|;
    hide Rows;
    AtMost(m + 1, rows - 1, width);
    OneRowMore(m, width);
  }

  /** A row on which the link goes on begins no link. */
  lemma NoLinkBelow(cells: Cells, rect: Rect, p: Pos, url: string, y: nat)
    requires OneLinkIn(cells, rect, p, url) && p.y < y < rect.Bottom()
    ensures !StartsALink(cells, rect, y)
  {
    var w := rect.width;
    NarrowIsWrapped(rect, p, url);
    hide OneLink, Rows;
    var head := Chars(cells, RowCells(rect.(width := Least(w, SCHEME_CELLS)), y));
    assert |head| == w && head[0] == cells(Pos(rect.x, y));
    ShortLineStartsNone(head);
  }

  /** A link that takes several rows does so below its own length, and ends on the second of
      rows of four. */
  lemma NarrowIsWrapped(rect: Rect, p: Pos, url: string)
    requires Placed(rect, p, url) && p.y + 1 < rect.Bottom()
    ensures rect.width < |url| == 5 && (rect.width == 4 ==> p.y + 2 == rect.Bottom())
  {
    hide OneLink;
    if rect.width >= |url| { assert Rows(|url|, rect.width) == 1 by { OneRowIsEnough(|url|, rect.width); } }
  }

  lemma OneRowIsEnough(n: nat, width: nat)
    requires 0 < n <= width
    ensures Rows(n, width) == 1
  {
    InRow(1, width, n + width - 1);
  }

  /** Above the link's row the rectangle is blank. */
  lemma OffTheLink(cells: Cells, rect: Rect, p: Pos, url: string)
    requires OneLinkIn(cells, rect, p, url)
    ensures forall c: Pos :: rect.Contains(c.x, c.y) && c.y < p.y ==> cells(c) == ' '
  {
    hide OneLink, Wraps;
  }

  /** The lines of a rectangle, from a row above the link or from its own. */
  lemma {:induction false} OneLinkIsFound(cells: Cells, rect: Rect, join: bool, y: nat, p: Pos, url: string)
    requires OneLinkIn(cells, rect, p, url) && rect.y <= y <= p.y && (join || rect.height == 1)
    ensures LinesLinks(cells, BlockLines(cells, rect, join, y)) == [Link(url, p)]
    decreases p.y - y
  {
    hide RowsOf, LineLinks, LinesLinks, OneLinkIn, LineEnd, StartsALink, BlockLines, CellOf, Placed;
    PlacedWithin(cells, rect, p, url);
    OffTheLink(cells, rect, p, url);
    FirstLineOf(cells, rect, join, y);
    if y < p.y {
      BlankRowEnds(cells, rect, join, y);
      OneLinkIsFound(cells, rect, join, y + 1, p, url);
      BlankLine(cells, rect, y);
    } else {
      LinkRunsOn(cells, rect, join, p, url, y);
      NothingBelow(cells, rect, join);
      LinkLine(cells, rect, p, url);
    }
  }

  lemma FirstLineOf(cells: Cells, rect: Rect, join: bool, y: nat)
    requires y < rect.Bottom()
    ensures var e := LineEnd(cells, rect, join, y) + 1;
            LinesLinks(cells, BlockLines(cells, rect, join, y))
            == LineLinks(cells, RowsOf(rect, y, e)) + LinesLinks(cells, BlockLines(cells, rect, join, e))
  {
    hide RowsOf, LineEnd, LinesLinks, LineLinks;
    var e := LineEnd(cells, rect, join, y) + 1;
    LinesLinksCons(cells, RowsOf(rect, y, e), BlockLines(cells, rect, join, e));
  }

  lemma NothingBelow(cells: Cells, rect: Rect, join: bool)
    ensures LinesLinks(cells, BlockLines(cells, rect, join, rect.Bottom())) == []
  {
  }

  lemma LinkLine(cells: Cells, rect: Rect, p: Pos, url: string)
    requires OneLinkIn(cells, rect, p, url)
    ensures LineLinks(cells, RowsOf(rect, p.y, rect.Bottom())) == [Link(url, p)]
  {
    assert OneLink(url);
    LinkText(cells, rect, p, url);
    hide RowsOf, OneLink, OneLinkIn;
    LinkAndBlanks(Chars(cells, RowsOf(rect, p.y, rect.Bottom())), url);
  }

  lemma BlankRowEnds(cells: Cells, rect: Rect, join: bool, y: nat)
    requires y < rect.Bottom() && rect.width > 0 && cells(Pos(rect.Right() - 1, y)) == ' '
    ensures LineEnd(cells, rect, join, y) == y
  {
  }

  lemma BlankLine(cells: Cells, rect: Rect, y: nat)
    requires forall x: nat :: rect.x <= x < rect.Right() ==> cells(Pos(x, y)) == ' '
    ensures LineLinks(cells, RowsOf(rect, y, y + 1)) == []
  {
    var line := RowsOf(rect, y, y + 1);
    forall i | 0 <= i < |line| ensures cells(line[i]) == ' ' {
      assert line[i] in line;
      RowsHold(rect, y, y + 1, line[i]);
    }
    NoLinkOnBlanks(cells, line);
  }

  // ------------------------------------------------------------------ a link in two parts

  lemma {:induction false} TwoPartLinks(
    cells: Cells, parts: seq<Part>, k: nat, p: Pos, q: Pos, a: string, b: string, n: nat)
    requires 0 < k < |parts| && 0 < n <= |parts|
    requires OneLinkIn(cells, parts[0].rect, p, a) && (parts[0].join || parts[0].rect.height == 1)
    requires OneLinkIn(cells, parts[k].rect, q, b) && (parts[k].join || parts[k].rect.height == 1)
    requires forall j :: 0 < j < |parts| && j != k ==> BlankIn(cells, parts[j].rect)
    ensures PartsLinks(cells, parts[..n]) == [Link(a, p)] + if k < n then [Link(b, q)] else []
  {
    hide OneLinkIn, BlankIn, BlockLines, LinesLinks;
    var last := parts[n - 1];
    assert parts[..n][..n - 1] == parts[..n - 1];
    if n == 1 {
      OneLinkIsFound(cells, last.rect, last.join, last.rect.y, p, a) by { PlacedWithin(cells, last.rect, p, a); }
    } else {
      TwoPartLinks(cells, parts, k, p, q, a, b, n - 1);
      if n - 1 == k {
        OneLinkIsFound(cells, last.rect, last.join, last.rect.y, q, b) by { PlacedWithin(cells, last.rect, q, b); }
      } else {
        BlankRows(cells, last.rect, last.join, last.rect.y) by { BlankWithin(cells, last.rect); }
      }
    }
  }

  lemma PlacedWithin(cells: Cells, rect: Rect, p: Pos, url: string)
    requires OneLinkIn(cells, rect, p, url)
    ensures rect.width > 0 && rect.y <= p.y < rect.Bottom()
  {
    hide OneLink;
  }

  lemma BlankWithin(cells: Cells, rect: Rect)
    requires BlankIn(cells, rect)
    ensures forall c: Pos :: rect.Contains(c.x, c.y) ==> cells(c) == ' '
  {
  }

  lemma TwoInOrder(p: Pos, q: Pos, a: string, b: string)
    requires a != b
    ensures OrderedBy([Link(a, p), Link(b, q)], [a, b]) <==> Before(p, q) && p != q
  {
    var links := [Link(a, p), Link(b, q)];
    assert forall l :: l in links <==> l == links[0] || l == links[1];
    assert StartsFirst(links, a, p) && StartsFirst(links, b, q);
    assert forall r :: (StartsFirst(links, a, r) ==> r == p) && (StartsFirst(links, b, r) ==> r == q);
    hide StartsFirst;
    var us := [a, b];
    assert us[0] == a && us[1] == b && Occurs(links, a) && Occurs(links, b);
  }

  lemma TwoListed(a: string, b: string)
    requires a != b
    ensures Interned([], [a, b]) == [a, b]
  {
    assert [a, b][..1] == [a] && [a][..0] == [];
    assert Interned([], [a]) == Added([], a) == [a];
  }

  lemma BothPlaced(one: Rect, p: Pos, a: string, two: Rect, q: Pos, b: string)
    requires Placed(one, p, a) && Placed(two, q, b) && Disjoint(one, two)
    ensures OneLinkIn(TwoLinks(one, p, a, two, q, b), one, p, a) && OneLinkIn(TwoLinks(one, p, a, two, q, b), two, q, b)
  {
    hide Placed, CellOf;
    forall c: Pos | two.Contains(c.x, c.y) ensures !one.Contains(c.x, c.y) {
      assert !(one.Contains(c.x, c.y) && two.Contains(c.x, c.y));
    }
  }

  /** With one link on the stage and one in a part beside it, the list is in reading order
      exactly if the cells they start in are. */
  lemma TwoLinksListed(area: Rect, stage: Option<Rect>, k: nat, p: Pos, a: string, q: Pos, b: string)
    requires a != b && 0 < k < |Parts(area, stage)|
    requires var ps := Parts(area, stage);
             && Placed(ps[0].rect, p, a) && (ps[0].join || ps[0].rect.height == 1)
             && Placed(ps[k].rect, q, b) && (ps[k].join || ps[k].rect.height == 1)
    ensures var ps := Parts(area, stage);
            var cells := TwoLinks(ps[0].rect, p, a, ps[k].rect, q, b);
            && Interned([], PartsUrls(cells, ps)) == [a, b]
            && (ListedInOrder(cells, area, stage) <==> Before(p, q) && p != q)
  {
    hide Parts, Interned, PartsUrls, PartsLinks, Before, Placed;
    var ps := Parts(area, stage);
    var cells := TwoLinks(ps[0].rect, p, a, ps[k].rect, q, b);
    PartsAreApart(area, stage);
    BothPlaced(ps[0].rect, p, a, ps[k].rect, q, b);
    forall j | 0 < j < |ps| && j != k ensures BlankIn(cells, ps[j].rect) {
      assert Disjoint(ps[0].rect, ps[j].rect) && (k < j ==> Disjoint(ps[k].rect, ps[j].rect))
        && (j < k ==> Disjoint(ps[j].rect, ps[k].rect));
    }
    TwoPartLinks(cells, ps, k, p, q, a, b, |ps|);
    assert ps[..|ps|] == ps;
    assert [Link(a, p)] + [Link(b, q)] == [Link(a, p), Link(b, q)];
    PartsLinksOpen(cells, ps);
    assert UrlsOf(PartsLinks(cells, ps)) == [a, b];
    TwoListed(a, b);
    TwoInOrder(p, q, a, b);
  }

  /** Whatever is on the screen, the list of its URLs is in reading order, exactly when too
      little comes before the stage to hold a link. */
  lemma ListedInOrderExactly(area: Rect, stage: Option<Rect>)
    ensures (forall cells: Cells :: ListedInOrder(cells, area, stage)) <==> LeadsBy(area, stage, SHORTEST)
  {
    hide Parts, ListedInOrder, HasStage, Intersection, Before, OneLink, Rows, TwoLinks;
    if LeadsBy(area, stage, SHORTEST) {
      forall cells: Cells ensures ListedInOrder(cells, area, stage) { UrlsAreInReadingOrder(cells, area, stage); }
    } else {
      var k, p, q := PartAhead(area, stage, SHORTEST);
      var one, two := Parts(area, stage)[0].rect, Parts(area, stage)[k].rect;
      HostInCapitals("WWW.a");
      HostInCapitals("WWW.b");
      OneRowIsEnough(SHORTEST, two.width);
      TwoLinksListed(area, stage, k, p, "WWW.a", q, "WWW.b");
      assert !ListedInOrder(TwoLinks(one, p, "WWW.a", two, q, "WWW.b"), area, stage);
    }
  }

  /** A link on the row above the stage is listed behind one on the stage. */
  lemma StageComesBeforeTheRowAbove()
    ensures var area, stage := Rect(0, 0, 6, 2), Some(Rect(0, 1, 6, 1));
            var cells := TwoLinks(stage.value, Pos(0, 1), "ws://b", Rect(0, 0, 6, 1), Pos(0, 0), "ws://a");
            && Interned([], PartsUrls(cells, Parts(area, stage))) == ["ws://b", "ws://a"]
            && !ListedInOrder(cells, area, stage)
  {
    var area, stage := Rect(0, 0, 6, 2), Some(Rect(0, 1, 6, 1));
    StageAndRow(area, stage);
    OnOneRow(Rect(0, 1, 6, 1), "ws://b");
    OnOneRow(Rect(0, 0, 6, 1), "ws://a");
    assert "ws://a"[5] != "ws://b"[5];
    hide *;
    TwoLinksListed(area, stage, 1, Pos(0, 1), "ws://b", Pos(0, 0), "ws://a");
    assert !Before(Pos(0, 1), Pos(0, 0)) by { LaterRow(); }
  }

  lemma LaterRow()
    ensures !Before(Pos(0, 1), Pos(0, 0))
  {
  }

  lemma OnOneRow(rect: Rect, url: string)
    requires rect.height == 1 && rect.width == 6 && |url| == 6 && url[..5] == "ws://" && Links.IsAlphanumeric(url[5])
    ensures Placed(rect, Pos(rect.x, rect.y), url)
  {
    ShortestScheme(url);
    OneRowIsEnough(6, 6);
    hide OneLink, Rows;
    assert url == "ws://" + [url[5]];
  }

  lemma StageAndRow(area: Rect, stage: Option<Rect>)
    requires area == Rect(0, 0, 6, 2) && stage == Some(Rect(0, 1, 6, 1))
    ensures Parts(area, stage) == [Part(Rect(0, 1, 6, 1), true), Part(Rect(0, 0, 6, 1), false)]
  {
    assert PartsTo(area, stage, 1) == [Part(Rect(0, 1, 6, 1), true), Part(Rect(0, 0, 6, 1), false)];
    assert Parts(area, stage) == PartsTo(area, stage, 1);
  }
}
