/**
 The list of the URLs on a screen: each once, in the order in which the scan comes to it
 first, and when that is the order in which a reader does.
 */
module LinkList {
  import opened Base
  import opened Layout
  import opened Selection
  import opened ScreenCells
  import Links
  import SingleLinks

  function LinesOf(cells: Cells, part: Part): seq<seq<Pos>> {
    BlockLines(cells, part.rect, part.join, part.rect.y)
  }

  /** A URL at the end of a list, unless it is there already. */
  function Added(us: seq<string>, url: string): seq<string> { if url in us then us else us + [url] }

  /** Each of `xs` in turn at the end of a list, unless it is there already. */
  function Interned(us: seq<string>, xs: seq<string>): seq<string> {
    if xs == [] then us else Added(Interned(us, xs[..|xs| - 1]), xs[|xs| - 1])
  }

  /** What the links of a line open, left to right. */
  function SpanUrls(spans: seq<Links.Span>): seq<string> {
    if spans == [] then [] else SpanUrls(spans[..|spans| - 1]) + [spans[|spans| - 1].url]
  }

  function LineUrls(cells: Cells, line: seq<Pos>): seq<string> { SpanUrls(Links.Spans(Chars(cells, line), 0)) }

  function LinesUrls(cells: Cells, lines: seq<seq<Pos>>): seq<string> {
    if lines == [] then [] else LinesUrls(cells, lines[..|lines| - 1]) + LineUrls(cells, lines[|lines| - 1])
  }

  function PartsUrls(cells: Cells, parts: seq<Part>): seq<string> {
    if parts == [] then []
    else PartsUrls(cells, parts[..|parts| - 1]) + LinesUrls(cells, LinesOf(cells, parts[|parts| - 1]))
  }

  /** A list interned from nothing holds what was interned, each once, in the order in which
      each came first; and nothing already in a list moves. */
  lemma {:induction false} InternedIs(us: seq<string>, xs: seq<string>)
    requires forall i, j :: 0 <= i < j < |us| ==> us[i] != us[j]
    ensures var r := Interned(us, xs);
            && us <= r && (forall i, j :: 0 <= i < j < |r| ==> r[i] != r[j])
            && (forall u :: u in r <==> u in us || u in xs)
            && forall n :: 0 <= n <= |xs| ==> Interned(us, xs[..n]) <= r
  {
    if xs != [] {
      var last := |xs| - 1;
      InternedIs(us, xs[..last]);
      assert xs == xs[..last] + [xs[last]];
      assert forall n :: 0 <= n <= last ==> xs[..last][..n] == xs[..n];
      assert xs[..|xs|] == xs;
    }
  }

  lemma {:induction false} InternedConcat(us: seq<string>, xs: seq<string>, ys: seq<string>)
    ensures Interned(Interned(us, xs), ys) == Interned(us, xs + ys)
  {
    if ys == [] {
      assert xs + ys == xs;
    } else {
      var last := |ys| - 1;
      InternedConcat(us, xs, ys[..last]);
      assert (xs + ys)[..|xs + ys| - 1] == xs + ys[..last];
    }
  }

  lemma OneSpanUrl(us: seq<string>, spans: seq<Links.Span>, n: nat)
    requires n < |spans|
    ensures Added(Interned(us, SpanUrls(spans[..n])), spans[n].url) == Interned(us, SpanUrls(spans[..n + 1]))
  {
    assert spans[..n + 1][..n] == spans[..n];
    var xs := SpanUrls(spans[..n]) + [spans[n].url];
    assert SpanUrls(spans[..n + 1]) == xs && xs[..|xs| - 1] == SpanUrls(spans[..n]);
  }

  lemma OneLineUrls(us: seq<string>, cells: Cells, done: seq<seq<Pos>>, line: seq<Pos>)
    ensures Interned(Interned(us, LinesUrls(cells, done)), LineUrls(cells, line))
              == Interned(us, LinesUrls(cells, done + [line]))
  {
    assert (done + [line])[..|done|] == done;
    InternedConcat(us, LinesUrls(cells, done), LineUrls(cells, line));
  }

  lemma OnePartUrls(us: seq<string>, cells: Cells, done: seq<Part>, part: Part)
    ensures Interned(Interned(us, PartsUrls(cells, done)), LinesUrls(cells, LinesOf(cells, part)))
         == Interned(us, PartsUrls(cells, done + [part]))
  {
    assert (done + [part])[..|done|] == done;
    InternedConcat(us, PartsUrls(cells, done), LinesUrls(cells, LinesOf(cells, part)));
  }

  lemma NoUrlsYet(us: seq<string>, cells: Cells)
    ensures Interned(us, []) == us && SpanUrls([]) == [] && LinesUrls(cells, []) == [] && PartsUrls(cells, []) == []
  {
  }

  // ------------------------------------------------------------------ in reading order

  /** A link as it stands on the screen: what it opens, and the cell of its first character. */
  datatype Link = Link(url: string, at: Pos)

  function SpanLinks(line: seq<Pos>, spans: seq<Links.Span>): seq<Link>
    requires forall k :: 0 <= k < |spans| ==> spans[k].start < |line|
  {
    seq(|spans|, k requires 0 <= k < |spans| => Link(spans[k].url, line[spans[k].start]))
  }

  function LineLinks(cells: Cells, line: seq<Pos>): seq<Link> {
    Links.SpansAreOrdered(Chars(cells, line), 0);
    SpanLinks(line, Links.Spans(Chars(cells, line), 0))
  }

  function LinesLinks(cells: Cells, lines: seq<seq<Pos>>): seq<Link> {
    if lines == [] then [] else LinesLinks(cells, lines[..|lines| - 1]) + LineLinks(cells, lines[|lines| - 1])
  }

  function PartsLinks(cells: Cells, parts: seq<Part>): seq<Link> {
    if parts == [] then []
    else PartsLinks(cells, parts[..|parts| - 1]) + LinesLinks(cells, LinesOf(cells, parts[|parts| - 1]))
  }

  /** A link of the URL starts at the cell, and none before it. */
  ghost predicate StartsFirst(links: seq<Link>, url: string, p: Pos) {
    Link(url, p) in links && forall q :: Link(url, q) in links ==> Before(p, q)
  }

  ghost predicate Occurs(links: seq<Link>, url: string) { exists p :: StartsFirst(links, url, p) }

  ghost predicate OrderedBy(links: seq<Link>, urls: seq<string>) {
    && (forall i :: 0 <= i < |urls| ==> Occurs(links, urls[i]))
    && (forall i, j, p, q :: 0 <= i < j < |urls| && StartsFirst(links, urls[i], p) && StartsFirst(links, urls[j], q) ==>
          Before(p, q) && p != q)
  }

  /** The URLs stand in the order of the first cells of their first links. */
  ghost predicate InReadingOrder(cells: Cells, parts: seq<Part>, urls: seq<string>) {
    OrderedBy(PartsLinks(cells, parts), urls)
  }

  function UrlsOf(links: seq<Link>): seq<string> { seq(|links|, k requires 0 <= k < |links| => links[k].url) }

  ghost predicate Increasing(links: seq<Link>) {
    forall i, j :: 0 <= i < j < |links| ==> Before(links[i].at, links[j].at) && links[i].at != links[j].at
  }

  lemma IncreasingJoins(a: seq<Link>, b: seq<Link>)
    requires Increasing(a) && Increasing(b)
    requires forall x, y :: x in a && y in b ==> Before(x.at, y.at) && x.at != y.at
    ensures Increasing(a + b)
  {
    forall i, j | 0 <= i < |a| && 0 <= j < |b| ensures Before(a[i].at, b[j].at) && a[i].at != b[j].at {
      assert a[i] in a && b[j] in b;
    }
  }

  /** A line of cells in reading order. */
  ghost predicate Ascending(line: seq<Pos>) {
    forall i, j :: 0 <= i < j < |line| ==> Before(line[i], line[j]) && line[i] != line[j]
  }

  lemma {:induction false} RowsAscend(rect: Rect, y: nat, z: nat)
    requires y <= z
    ensures Ascending(RowsOf(rect, y, z))
    decreases z - y
  {
    if y < z {
      RowsAscend(rect, y, z - 1);
      var front := RowsOf(rect, y, z - 1);
      forall i | 0 <= i < |front| ensures front[i].y < z - 1 {
        assert front[i] in front;
        RowsHold(rect, y, z - 1, front[i]);
      }
    }
  }

  /** Lines in reading order, one behind the other. */
  ghost predicate LinesAscend(lines: seq<seq<Pos>>) {
    && (forall n :: 0 <= n < |lines| ==> Ascending(lines[n]))
    && (forall m, n :: 0 <= m < n < |lines| ==> LinePrecedes(lines[m], lines[n]))
  }

  ghost predicate LinePrecedes(a: seq<Pos>, b: seq<Pos>) { forall p, q :: p in a && q in b ==> Before(p, q) && p != q }

  lemma {:induction false} BlockLinesAscend(cells: Cells, rect: Rect, join: bool, y: nat)
    requires rect.y <= y
    ensures LinesAscend(BlockLines(cells, rect, join, y))
    decreases rect.Bottom() - y
  {
    hide RowsOf, LineEnd, LinesAscend, InLines;
    if y < rect.Bottom() {
      var e := LineEnd(cells, rect, join, y);
      var rest := BlockLines(cells, rect, join, e + 1);
      RowsAscend(rect, y, e + 1);
      BlockLinesAscend(cells, rect, join, e + 1);
      EveryCellIsInOneLine(cells, rect, join, e + 1);
      hide BlockLines;
      forall p | p in RowsOf(rect, y, e + 1) ensures p.y <= e { RowsHold(rect, y, e + 1, p); }
      FirstLineAscends(RowsOf(rect, y, e + 1), rest, e);
    } else {
      NoLineAscends();
    }
  }

  lemma NoLineAscends()
    ensures LinesAscend([])
  {
  }

  lemma FirstLineAscends(line: seq<Pos>, rest: seq<seq<Pos>>, e: nat)
    requires Ascending(line) && LinesAscend(rest)
    requires (forall p :: p in line ==> p.y <= e) && forall q :: InLines(rest, q) ==> q.y > e
    ensures LinesAscend([line] + rest)
  {
    hide Ascending;
    forall n | 0 <= n < |rest| ensures LinePrecedes(line, rest[n]) {
      forall q | q in rest[n] ensures q.y > e { InOneOf(rest, n, q); }
    }
    hide LinePrecedes;
    var lines := [line] + rest;
    assert forall m :: 0 < m < |lines| ==> lines[m] == rest[m - 1];
  }

  lemma LineLinksIncrease(cells: Cells, line: seq<Pos>)
    requires Ascending(line)
    ensures Increasing(LineLinks(cells, line)) && forall l :: l in LineLinks(cells, line) ==> l.at in line
  {
    var spans := Links.Spans(Chars(cells, line), 0);
    Links.SpansAreOrdered(Chars(cells, line), 0);
    forall i, j | 0 <= i < j < |spans| ensures spans[i].start < spans[j].start { StartsGrow(spans, i, j, |line|); }
  }

  lemma {:induction false} StartsGrow(spans: seq<Links.Span>, i: nat, j: nat, to: nat)
    requires i < j < |spans| && Links.Ordered(spans, 0, to)
    ensures spans[i].start < spans[j].start
  {
    if i + 1 < j { StartsGrow(spans, i, j - 1, to); }
  }

  /** The last line is behind all others. */
  lemma LastAscends(lines: seq<seq<Pos>>)
    requires lines != [] && LinesAscend(lines)
    ensures LinesAscend(lines[..|lines| - 1]) && Ascending(lines[|lines| - 1])
    ensures forall p, q :: InLines(lines[..|lines| - 1], p) && q in lines[|lines| - 1] ==> Before(p, q) && p != q
    ensures forall p :: InLines(lines[..|lines| - 1], p) || p in lines[|lines| - 1] ==> InLines(lines, p)
  {
    hide Ascending, LinePrecedes;
    var n := |lines| - 1;
    assert forall m :: 0 <= m < n ==> lines[..n][m] == lines[m];
    forall p, q | InLines(lines[..n], p) && q in lines[n] ensures Before(p, q) && p != q {
      var m :| 0 <= m < n && p in lines[..n][m];
      Precedes(lines[m], lines[n], p, q);
    }
    forall p | InLines(lines[..n], p) ensures InLines(lines, p) {
      var m :| 0 <= m < n && p in lines[..n][m];
      assert p in lines[m];
    }
  }

  lemma Precedes(a: seq<Pos>, b: seq<Pos>, p: Pos, q: Pos)
    requires LinePrecedes(a, b) && p in a && q in b
    ensures Before(p, q) && p != q
  {
  }

  lemma {:induction false} LinesLinksIncrease(cells: Cells, lines: seq<seq<Pos>>)
    requires LinesAscend(lines)
    ensures Increasing(LinesLinks(cells, lines)) && forall l :: l in LinesLinks(cells, lines) ==> InLines(lines, l.at)
  {
    hide LineLinks, Increasing, Ascending, LinesAscend, InLines, Before;
    if lines != [] {
      var n := |lines| - 1;
      LastAscends(lines);
      LinesLinksIncrease(cells, lines[..n]);
      LineLinksIncrease(cells, lines[n]);
      IncreasingJoins(LinesLinks(cells, lines[..n]), LineLinks(cells, lines[n]));
    } else {
      NoneIncrease();
    }
  }

  // ------------------------------------------------------------ where a link can start

  lemma {:induction false} LinesLinksCons(cells: Cells, line: seq<Pos>, rest: seq<seq<Pos>>)
    ensures LinesLinks(cells, [line] + rest) == LineLinks(cells, line) + LinesLinks(cells, rest)
  {
    hide LineLinks;
    var lines, n := [line] + rest, |rest|;
    if n == 0 {
      assert lines[..0] == [] && lines[0] == line && LinesLinks(cells, lines[..0]) == [];
      assert [] + LineLinks(cells, line) == LineLinks(cells, line) + [];
    } else {
      LinesLinksCons(cells, line, rest[..n - 1]);
      assert lines[..n] == [line] + rest[..n - 1] && lines[n] == rest[n - 1];
      hide LinesLinks;
      Assoc(LineLinks(cells, line), LinesLinks(cells, rest[..n - 1]), LineLinks(cells, rest[n - 1]));
    }
  }

  /** The cells of joined rows, by index. */
  lemma {:induction false} RowsAt(rect: Rect, y: nat, z: nat, i: nat)
    requires y <= z && rect.width > 0
    ensures |RowsOf(rect, y, z)| == (z - y) * rect.width
    ensures i < |RowsOf(rect, y, z)| ==> RowsOf(rect, y, z)[i] == Pos(rect.x + i % rect.width, y + i / rect.width)
    decreases z - y
  {
    if y < z {
      RowsAt(rect, y, z - 1, i);
      var before := (z - 1 - y) * rect.width;
      assert before + rect.width == (z - y) * rect.width by { OneRowMore(z - 1 - y, rect.width); }
      if before <= i < before + rect.width { InRow(z - 1 - y, rect.width, i); }
    }
  }

  lemma OneRowMore(m: nat, w: nat)
    ensures m * w + w == (m + 1) * w
  {
  }

  lemma InRow(m: nat, w: nat, i: nat)
    requires m * w <= i < m * w + w
    ensures i / w == m && i % w == i - m * w
  {
    var q, r := i / w, i % w;
    assert q * w + r == i;
    OneRowMore(m, w);
    OneRowMore(q, w);
    Fewer(q, m + 1, w);
    Fewer(m, q + 1, w);
  }

  lemma Fewer(a: nat, b: nat, w: nat)
    requires a * w < b * w
    ensures a < b
  {
    if b <= a { AtMost(b, a, w); }
  }

  lemma AtMost(a: nat, b: nat, w: nat)
    requires a <= b
    ensures a * w <= b * w
  {
  }

  /** With `n` more cells behind index `i` of `m` rows, the row of `i` is that far up. */
  lemma FewRowsLeft(i: nat, m: nat, w: nat, n: nat)
    requires w > 0 && n > 0 && i + n <= m * w
    ensures i / w + Rows(n, w) <= m
  {
    var q, rows := i / w, Rows(n, w);
    assert q * w + i % w == i;
    assert (rows - 1) * w < n;
    hide Rows;
    if q + rows > m {
      AtMost(m, q + (rows - 1), w);
    }
  }

  /** The links of one line start with room for a link behind them. */
  lemma LineLinksStart(cells: Cells, rect: Rect, y: nat, z: nat, l: Link)
    requires y <= z && rect.width > 0 && l in LineLinks(cells, RowsOf(rect, y, z))
    ensures l.at.y + Rows(SingleLinks.SHORTEST, rect.width) <= z
  {
    hide RowsOf, Rows, Links.Candidate, Links.Spans, Links.IsLink;
    var line := RowsOf(rect, y, z);
    var text := Chars(cells, line);
    var spans := Links.Spans(text, 0);
    Links.SpansAreOrdered(text, 0);
    var k :| 0 <= k < |spans| && l == Link(spans[k].url, line[spans[k].start]);
    var i := spans[k].start;
    Links.SpansAreTheLinks(text, 0, k);
    SingleLinks.LinkIsLong(text, i);
    RowsAt(rect, y, z, i);
    FewRowsLeft(i, z - y, rect.width, SingleLinks.SHORTEST);
  }

  lemma {:induction false} BlockLinksStart(cells: Cells, rect: Rect, join: bool, y: nat, l: Link)
    requires rect.width > 0 && l in LinesLinks(cells, BlockLines(cells, rect, join, y))
    ensures l.at.y + Rows(SingleLinks.SHORTEST, rect.width) <= rect.Bottom()
    decreases rect.Bottom() - y
  {
    hide RowsOf, Rows, LineLinks, LineEnd;
    if y < rect.Bottom() {
      var e := LineEnd(cells, rect, join, y);
      var line, rest := RowsOf(rect, y, e + 1), BlockLines(cells, rect, join, e + 1);
      LinesLinksCons(cells, line, rest);
      assert BlockLines(cells, rect, join, y) == [line] + rest;
      hide BlockLines, LinesLinks;
      if l in LineLinks(cells, line) {
        LineLinksStart(cells, rect, y, e + 1, l);
      } else {
        BlockLinksStart(cells, rect, join, e + 1, l);
      }
    }
  }

  /** The links of a part, all of them starting within its rows with room for one. */
  lemma PartLinksIncrease(cells: Cells, part: Part)
    ensures var b := LinesLinks(cells, LinesOf(cells, part));
            && Increasing(b)
            && forall l :: l in b ==> StartRows(part.rect, SingleLinks.SHORTEST).Contains(l.at.x, l.at.y)
  {
    hide Increasing, LinesAscend, BlockLines, Distinct, Consecutive, LinesLinks, Rows;
    BlockLinesAscend(cells, part.rect, part.join, part.rect.y);
    EveryCellIsInOneLine(cells, part.rect, part.join, part.rect.y);
    LinesLinksIncrease(cells, LinesOf(cells, part));
    forall l | l in LinesLinks(cells, LinesOf(cells, part))
      ensures StartRows(part.rect, SingleLinks.SHORTEST).Contains(l.at.x, l.at.y)
    {
      assert part.rect.Contains(l.at.x, l.at.y);
      BlockLinksStart(cells, part.rect, part.join, part.rect.y, l);
    }
  }

  /** Parts read in reading order that share no cell. */
  ghost predicate InSequence(parts: seq<Part>) {
    && ReadInOrder(parts)
    && forall j, k :: 0 <= j < k < |parts| ==> Disjoint(parts[j].rect, parts[k].rect)
  }

  lemma LastInSequence(parts: seq<Part>)
    requires parts != [] && InSequence(parts)
    ensures InSequence(parts[..|parts| - 1])
    ensures forall p: Pos, q: Pos :: InParts(parts[..|parts| - 1], p) && parts[|parts| - 1].rect.Contains(q.x, q.y) ==>
              Before(p, q) && p != q
  {
    var n := |parts| - 1;
    hide Before;
    forall p: Pos, q: Pos | InParts(parts[..n], p) && parts[n].rect.Contains(q.x, q.y) ensures Before(p, q) && p != q {
      var k :| 0 <= k < n && parts[..n][k].rect.Contains(p.x, p.y);
      assert RectPrecedes(parts[k].rect, parts[n].rect) && Disjoint(parts[k].rect, parts[n].rect);
    }
  }

  /** The parts cut to the rows in which a link can start. */
  function Starts(parts: seq<Part>): (r: seq<Part>)
    ensures |r| == |parts|
  {
    seq(|parts|, k requires 0 <= k < |parts| =>
      parts[k].(rect := StartRows(parts[k].rect, SingleLinks.SHORTEST)))
  }

  lemma {:induction false} PartsLinksIncrease(cells: Cells, parts: seq<Part>)
    requires InSequence(Starts(parts))
    ensures Increasing(PartsLinks(cells, parts))
    ensures forall l :: l in PartsLinks(cells, parts) ==> InParts(Starts(parts), l.at)
  {
    hide LinesLinks, LinesOf, Increasing, InSequence, InParts, Before, StartRows;
    if parts != [] {
      var n := |parts| - 1;
      var a, b := PartsLinks(cells, parts[..n]), LinesLinks(cells, LinesOf(cells, parts[n]));
      var starts := Starts(parts);
      assert starts[..n] == Starts(parts[..n]);
      LastInSequence(starts);
      PartsLinksIncrease(cells, parts[..n]);
      PartLinksIncrease(cells, parts[n]);
      IncreasingJoins(a, b);
      forall l: Link | l in a + b ensures InParts(starts, l.at) { InFrontOrLast(starts, l.at); }
    } else {
      NoneIncrease();
    }
  }

  lemma InFrontOrLast(parts: seq<Part>, p: Pos)
    requires parts != []
    ensures InParts(parts, p) <==> InParts(parts[..|parts| - 1], p) || parts[|parts| - 1].rect.Contains(p.x, p.y)
  {
    var last := parts[|parts| - 1];
    InPartsConcat(parts[..|parts| - 1], [last], p);
    assert parts == parts[..|parts| - 1] + [last] && [last][0] == last;
  }

  lemma NoneIncrease()
    ensures Increasing([])
  {
  }

  // ------------------------------------------------------ the links open what is listed

  lemma {:induction false} SpanLinksOpen(line: seq<Pos>, spans: seq<Links.Span>)
    requires forall k :: 0 <= k < |spans| ==> spans[k].start < |line|
    ensures UrlsOf(SpanLinks(line, spans)) == SpanUrls(spans)
  {
    if spans != [] {
      var n := |spans| - 1;
      SpanLinksOpen(line, spans[..n]);
      assert SpanLinks(line, spans) == SpanLinks(line, spans[..n]) + [Link(spans[n].url, line[spans[n].start])];
    }
  }

  lemma {:induction false} LinesLinksOpen(cells: Cells, lines: seq<seq<Pos>>)
    ensures UrlsOf(LinesLinks(cells, lines)) == LinesUrls(cells, lines)
  {
    if lines != [] {
      var n := |lines| - 1;
      LinesLinksOpen(cells, lines[..n]);
      Links.SpansAreOrdered(Chars(cells, lines[n]), 0);
      SpanLinksOpen(lines[n], Links.Spans(Chars(cells, lines[n]), 0));
      UrlsOfConcat(LinesLinks(cells, lines[..n]), LineLinks(cells, lines[n]));
    }
  }

  lemma UrlsOfConcat(a: seq<Link>, b: seq<Link>)
    ensures UrlsOf(a + b) == UrlsOf(a) + UrlsOf(b)
  {
  }

  lemma {:induction false} PartsLinksOpen(cells: Cells, parts: seq<Part>)
    ensures UrlsOf(PartsLinks(cells, parts)) == PartsUrls(cells, parts)
  {
    if parts != [] {
      var n := |parts| - 1;
      PartsLinksOpen(cells, parts[..n]);
      LinesLinksOpen(cells, LinesOf(cells, parts[n]));
      UrlsOfConcat(PartsLinks(cells, parts[..n]), LinesLinks(cells, LinesOf(cells, parts[n])));
    }
  }

  // ------------------------------------------------------------------ the list in order

  /** Of links in reading order the list of what they open is in reading order. */
  lemma {:induction false} ListInOrder(links: seq<Link>)
    requires Increasing(links)
    ensures OrderedBy(links, Interned([], UrlsOf(links)))
  {
    if links != [] {
      var n := |links| - 1;
      var front, last := links[..n], links[n];
      ListInOrder(front);
      assert links == front + [last];
      UrlsOfConcat(front, [last]);
      assert UrlsOf(links)[..n] == UrlsOf(front) && UrlsOf(links)[n] == last.url;
      assert Interned([], UrlsOf(links)) == Added(Interned([], UrlsOf(front)), last.url);
      InternedIs([], UrlsOf(front));
      OneMoreInOrder(front, last, Interned([], UrlsOf(front)));
    }
  }

  /** A link behind all others changes nothing for a URL that one of them opens. */
  lemma StillFirst(front: seq<Link>, last: Link, url: string, p: Pos)
    requires forall l :: l in front ==> Before(l.at, last.at) && l.at != last.at
    requires exists l :: l in front && l.url == url
    ensures StartsFirst(front + [last], url, p) <==> StartsFirst(front, url, p)
  {
    var l: Link :| l in front && l.url == url;
    assert l == Link(url, l.at);
    assert StartsFirst(front + [last], url, p) ==> Before(p, l.at);
    assert StartsFirst(front, url, p) ==> Before(p, l.at) && Before(l.at, last.at);
  }

  lemma NewIsFirst(front: seq<Link>, last: Link, p: Pos)
    requires forall l :: l in front ==> l.url != last.url
    ensures StartsFirst(front + [last], last.url, p) <==> p == last.at
  {
  }

  lemma OneMoreInOrder(front: seq<Link>, last: Link, urls: seq<string>)
    requires Increasing(front + [last]) && OrderedBy(front, urls)
    requires forall u :: u in urls <==> u in UrlsOf(front)
    ensures OrderedBy(front + [last], Added(urls, last.url))
  {
    forall l: Link | l in front ensures Before(l.at, last.at) && l.at != last.at && l.url in urls {
      var i :| 0 <= i < |front| && front[i] == l;
      assert (front + [last])[i] == l && (front + [last])[|front|] == last;
      assert UrlsOf(front)[i] == l.url;
    }
    forall u, p | u in urls ensures StartsFirst(front + [last], u, p) <==> StartsFirst(front, u, p) {
      var i :| 0 <= i < |front| && UrlsOf(front)[i] == u;
      assert front[i] in front && front[i].url == u;
      StillFirst(front, last, u, p);
    }
    if last.url !in urls {
      forall p ensures StartsFirst(front + [last], last.url, p) <==> p == last.at { NewIsFirst(front, last, p); }
    }
    NewInOrder(front, last, urls);
  }

  /** The same URLs start where they did, and perhaps one more behind them all. */
  lemma NewInOrder(front: seq<Link>, last: Link, urls: seq<string>)
    requires OrderedBy(front, urls)
    requires forall l :: l in front ==> Before(l.at, last.at) && l.at != last.at
    requires forall u, p :: u in urls ==> (StartsFirst(front + [last], u, p) <==> StartsFirst(front, u, p))
    requires last.url !in urls ==> forall p :: StartsFirst(front + [last], last.url, p) <==> p == last.at
    ensures OrderedBy(front + [last], Added(urls, last.url))
  {
    forall u, p | StartsFirst(front, u, p) ensures Before(p, last.at) && p != last.at {
      assert Link(u, p) in front && Link(u, p).at == p;
    }
    hide Before, StartsFirst;
    assert forall i :: 0 <= i < |urls| ==> urls[i] in urls;
    forall u | u in urls ensures Occurs(front + [last], u) {
      assert Occurs(front, u);
      var p :| StartsFirst(front, u, p);
      assert StartsFirst(front + [last], u, p);
    }
    if last.url !in urls { assert StartsFirst(front + [last], last.url, last.at); }
  }

  /** The list of a screen's URLs is in reading order. */
  ghost predicate ListedInOrder(cells: Cells, area: Rect, stage: Option<Rect>) {
    InReadingOrder(cells, Parts(area, stage), Interned([], PartsUrls(cells, Parts(area, stage))))
  }

  lemma LeadingPartsInSequence(area: Rect, stage: Option<Rect>)
    requires LeadsBy(area, stage, SingleLinks.SHORTEST)
    ensures InSequence(Starts(Parts(area, stage)))
  {
    hide PartsTo, RowParts, LeadsBy, StartRows, RectPrecedes, Disjoint;
    var ps := Parts(area, stage);
    var starts := Starts(ps);
    PartsAreApart(area, stage);
    forall j, k | 0 <= j < k < |ps| ensures RectPrecedes(starts[j].rect, starts[k].rect) {
      LaterStartIsLater(area, stage, j, k);
    }
    forall j, k | 0 <= j < k < |ps| ensures Disjoint(starts[j].rect, starts[k].rect) {
      StartsApart(ps[j].rect, ps[k].rect);
    }
  }

  lemma StartsApart(a: Rect, b: Rect)
    requires Disjoint(a, b)
    ensures Disjoint(StartRows(a, SingleLinks.SHORTEST), StartRows(b, SingleLinks.SHORTEST))
  {
    assert a.width > 0 ==> Rows(SingleLinks.SHORTEST, a.width) > 0;
    assert b.width > 0 ==> Rows(SingleLinks.SHORTEST, b.width) > 0;
    hide Rows;
    var a', b' := StartRows(a, SingleLinks.SHORTEST), StartRows(b, SingleLinks.SHORTEST);
    forall x: nat, y: nat ensures !(a'.Contains(x, y) && b'.Contains(x, y)) {
      assert !(a.Contains(x, y) && b.Contains(x, y));
    }
  }

  lemma LaterStartIsLater(area: Rect, stage: Option<Rect>, j: nat, k: nat)
    requires LeadsBy(area, stage, SingleLinks.SHORTEST) && j < k < |Parts(area, stage)|
    ensures var ps := Parts(area, stage);
            RectPrecedes(StartRows(ps[j].rect, SingleLinks.SHORTEST), StartRows(ps[k].rect, SingleLinks.SHORTEST))
  {
    hide PartsTo, RowParts, LeadsBy;
    var ps := Parts(area, stage);
    BesideIsARow(area, stage, area.Bottom(), k);
    if Beside(area, stage, j) {
      BesideInOrder(area, stage, area.Bottom(), j, k);
    } else if ps[k].rect.width >= SingleLinks.SHORTEST {
      StagePrecedes(area, stage, SingleLinks.SHORTEST, k);
    } else {
      NarrowRowStartsNone(ps[k].rect);
    }
  }

  lemma NarrowRowStartsNone(rect: Rect)
    requires rect.height == 1 && rect.width < SingleLinks.SHORTEST
    ensures StartRows(rect, SingleLinks.SHORTEST).height == 0
  {
    if rect.width > 0 && Rows(SingleLinks.SHORTEST, rect.width) <= 1 {
      AtMost(Rows(SingleLinks.SHORTEST, rect.width), 1, rect.width);
    }
  }

  /** Where too little comes before the stage to hold a link, the list is in reading order. */
  lemma UrlsAreInReadingOrder(cells: Cells, area: Rect, stage: Option<Rect>)
    requires LeadsBy(area, stage, SingleLinks.SHORTEST)
    ensures ListedInOrder(cells, area, stage)
  {
    hide Parts, PartsLinks, PartsUrls, OrderedBy, Increasing, Interned, LeadsBy, InSequence, Starts;
    var ps := Parts(area, stage);
    LeadingPartsInSequence(area, stage);
    PartsLinksIncrease(cells, ps);
    PartsLinksOpen(cells, ps);
    ListInOrder(PartsLinks(cells, ps));
  }
}
