/**
 The map from screen cells to links: runs by row, each naming one of the distinct URLs.
 */
module ScreenLinks {
  import opened Base
  import opened Layout
  import opened Selection
  import opened ScreenCells
  import opened LinkList
  import Links
  import SingleLinks

  /** One link's run on one row; `x1` is one past its last column. */
  datatype Run = Run(x0: nat, x1: nat, link: nat)

  predicate Covers(r: Run, x: nat) { r.x0 <= x < r.x1 }

  ghost predicate Apart(runs: seq<Run>) {
    && (forall i :: 0 <= i < |runs| ==> runs[i].x0 < runs[i].x1)
    && (forall i, j :: 0 <= i < j < |runs| ==> runs[i].x1 <= runs[j].x0 || runs[j].x1 <= runs[i].x0)
  }

  /** The link of the first run over a column. */
  function Lookup(runs: seq<Run>, x: nat): Option<nat> {
    if runs == [] then None
    else if Covers(runs[0], x) then Some(runs[0].link)
    else Lookup(runs[1..], x)
  }

  lemma {:induction false} LookupAppend(runs: seq<Run>, r: Run, x: nat)
    ensures Lookup(runs + [r], x) == if Lookup(runs, x).Some? then Lookup(runs, x)
                                     else if Covers(r, x) then Some(r.link) else None
  {
    if runs == [] {
      assert runs + [r] == [r];
    } else {
      assert (runs + [r])[1..] == runs[1..] + [r];
      LookupAppend(runs[1..], r, x);
    }
  }

  lemma {:induction false} LookupIsMembership(runs: seq<Run>, x: nat)
    ensures Lookup(runs, x).None? <==> forall r :: r in runs ==> !Covers(r, x)
    ensures Lookup(runs, x).Some? ==> exists r :: r in runs && Covers(r, x) && r.link == Lookup(runs, x).value
  {
    if runs != [] {
      LookupIsMembership(runs[1..], x);
      assert runs == [runs[0]] + runs[1..];
    }
  }

  /** A run over columns no run is over lies apart from them all. */
  lemma FreeRunIsApart(runs: seq<Run>, r: Run)
    requires Apart(runs) && r.x0 < r.x1 && forall x :: r.x0 <= x < r.x1 ==> Lookup(runs, x).None?
    ensures Apart(runs + [r])
  {
    forall i | 0 <= i < |runs| ensures runs[i].x1 <= r.x0 || r.x1 <= runs[i].x0 {
      var q := runs[i];
      assert q in runs;
      var x := Most(q.x0, r.x0);
      if x < r.x1 {
        LookupIsMembership(runs, x);
        assert !Covers(q, x);
      }
    }
  }

  // ----------------------------------------------------------------- what is shown

  datatype Map = Map(area: Rect, rows: seq<seq<Run>>, urls: seq<string>)

  ghost predicate Valid(m: Map) {
    && |m.rows| == m.area.height
    && (forall y :: 0 <= y < |m.rows| ==> Apart(m.rows[y]))
    && (forall y, i :: 0 <= y < |m.rows| && 0 <= i < |m.rows[y]| ==> m.rows[y][i].link < |m.urls|)
    && (forall i, j :: 0 <= i < j < |m.urls| ==> m.urls[i] != m.urls[j])
  }

  /** The URL under a cell. */
  function Shown(m: Map, p: Pos): Option<string> {
    if m.area.y <= p.y && p.y - m.area.y < |m.rows| then
      var l := Lookup(m.rows[p.y - m.area.y], p.x);
      if l.Some? && l.value < |m.urls| then Some(m.urls[l.value]) else None
    else None
  }

  function WithRun(m: Map, y: nat, r: Run): Map
    requires m.area.y <= y && y - m.area.y < |m.rows|
  {
    m.(rows := m.rows[y - m.area.y := m.rows[y - m.area.y] + [r]])
  }

  /** A run over free cells shows its link there and changes nothing else. */
  lemma WithRunShows(m: Map, y: nat, r: Run)
    requires Valid(m) && m.area.y <= y < m.area.Bottom() && r.x0 < r.x1 && r.link < |m.urls|
    requires forall x :: r.x0 <= x < r.x1 ==> Shown(m, Pos(x, y)).None?
    ensures Valid(WithRun(m, y, r))
    ensures forall p: Pos :: Shown(WithRun(m, y, r), p) ==
              if p.y == y && Covers(r, p.x) then Some(m.urls[r.link]) else Shown(m, p)
  {
    var row := m.rows[y - m.area.y];
    forall x | r.x0 <= x < r.x1 ensures Lookup(row, x).None? {
      assert Shown(m, Pos(x, y)).None?;
      LookupLinks(row, x, |m.urls|);
    }
    FreeRunIsApart(row, r);
    forall p: Pos
      ensures Shown(WithRun(m, y, r), p) == if p.y == y && Covers(r, p.x) then Some(m.urls[r.link]) else Shown(m, p)
    {
      LookupAppend(row, r, p.x);
    }
    hide Apart, Lookup;
  }

  lemma {:induction false} LookupLinks(runs: seq<Run>, x: nat, n: nat)
    requires forall i :: 0 <= i < |runs| ==> runs[i].link < n
    ensures Lookup(runs, x).Some? ==> Lookup(runs, x).value < n
  {
    if runs != [] { LookupLinks(runs[1..], x, n); }
  }

  /** A further URL at the end of the list shows nowhere yet. */
  lemma MoreUrlsShowAlike(m: Map, url: string)
    requires Valid(m) && url !in m.urls
    ensures Valid(m.(urls := m.urls + [url]))
    ensures forall p: Pos :: Shown(m.(urls := m.urls + [url]), p) == Shown(m, p)
  {
    var m' := m.(urls := m.urls + [url]);
    forall p: Pos ensures Shown(m', p) == Shown(m, p) {
      if m.area.y <= p.y && p.y - m.area.y < |m.rows| { LookupLinks(m.rows[p.y - m.area.y], p.x, |m.urls|); }
    }
  }

  // -------------------------------------------------------------- what should be

  /** The URL of the span over an index of a line. */
  function UrlOver(spans: seq<Links.Span>, i: nat): Option<string> {
    if spans == [] then None
    else
      var last := spans[|spans| - 1];
      if last.start <= i < last.end then Some(last.url) else UrlOver(spans[..|spans| - 1], i)
  }

  /** What a line of cells should show at its index `i`. */
  function Reading(cells: Cells, line: seq<Pos>, i: nat): Option<string> {
    UrlOver(Links.Spans(Chars(cells, line), 0), i)
  }

  /** There is a link at `a` and it reaches over index `i`. */
  predicate LinkOver(text: string, a: nat, i: nat) {
    Links.IsLink(text, a) && a <= i < a + |Links.Candidate(text, a)|
  }

  lemma {:induction false} UrlOverIs(spans: seq<Links.Span>, i: nat)
    ensures match UrlOver(spans, i)
            case Some(u) => exists k :: 0 <= k < |spans| && spans[k].start <= i < spans[k].end && spans[k].url == u
            case None => forall k :: 0 <= k < |spans| ==> !(spans[k].start <= i < spans[k].end)
  {
    if spans != [] {
      var init, last := spans[..|spans| - 1], spans[|spans| - 1];
      UrlOverIs(init, i);
      assert spans[|spans| - 1] == last && forall k :: 0 <= k < |init| ==> spans[k] == init[k];
    }
  }

  /** A cell reads as the URL of a link over it; it reads as none when each link over it
      starts inside a candidate met before. */
  lemma ReadingIs(cells: Cells, line: seq<Pos>, i: nat)
    requires i < |line|
    ensures var text := Chars(cells, line);
            match Reading(cells, line, i)
            case Some(u) => exists a: nat :: LinkOver(text, a, i) && u == Links.Opened(Links.Candidate(text, a))
            case None =>
              forall a: nat :: LinkOver(text, a, i) ==>
                exists c: nat :: c < a && Links.StartsHere(text, c) > 0 && a < c + |Links.Candidate(text, c)|
  {
    hide Links.Spans, Links.IsLink, Links.Candidate, Links.StartsHere, Links.Opened, UrlOver;
    var text := Chars(cells, line);
    var spans := Links.Spans(text, 0);
    UrlOverIs(spans, i);
    match Reading(cells, line, i)
    case Some(u) =>
      var k :| 0 <= k < |spans| && spans[k].start <= i < spans[k].end && spans[k].url == u;
      Links.SpansAreTheLinks(text, 0, k);
      assert LinkOver(text, spans[k].start, i);
    case None =>
      forall a: nat | LinkOver(text, a, i)
        ensures exists c: nat :: c < a && Links.StartsHere(text, c) > 0 && a < c + |Links.Candidate(text, c)|
      {
        var c := Links.NoLinkIsMissed(text, 0, a);
        assert c < a;
      }
  }

  ghost predicate ShowsLine(m: Map, cells: Cells, line: seq<Pos>) {
    forall i :: 0 <= i < |line| ==> Shown(m, line[i]) == Reading(cells, line, i)
  }

  ghost predicate ShowsLines(m: Map, cells: Cells, lines: seq<seq<Pos>>) {
    forall n :: 0 <= n < |lines| ==> ShowsLine(m, cells, lines[n])
  }

  /** Both maps show the same everywhere but on a line. */
  ghost predicate SameBut(m: Map, m': Map, line: seq<Pos>) {
    m'.area == m.area && forall p: Pos :: p !in line ==> Shown(m', p) == Shown(m, p)
  }

  ghost predicate Free(m: Map, line: seq<Pos>) {
    forall p: Pos :: p in line ==> Shown(m, p).None?
  }

  ghost predicate OnRows(area: Rect, line: seq<Pos>) {
    forall p: Pos :: p in line ==> area.y <= p.y < area.Bottom()
  }

  /** Showing one URL on a piece of a line, and the rest as before. */
  ghost predicate ShowsPiece(m: Map, m': Map, piece: seq<Pos>, url: string) {
    m'.area == m.area && forall p: Pos :: Shown(m', p) == if p in piece then Some(url) else Shown(m, p)
  }

  /** The cells of a line from `i` up to `j` in one row are those a run covers. */
  lemma RunIsPiece(line: seq<Pos>, i: nat, j: nat, r: Run, y: nat)
    requires i < j <= |line| && forall k :: i <= k < j ==> line[k] == Pos(r.x0 + k - i, y)
    requires r.x1 == r.x0 + j - i
    ensures forall p: Pos :: p in line[i..j] <==> p.y == y && Covers(r, p.x)
  {
    forall p: Pos | p.y == y && Covers(r, p.x) ensures p in line[i..j] {
      assert line[i..j][p.x - r.x0] == p;
    }
  }

  lemma PieceGrows(m: Map, m1: Map, m2: Map, line: seq<Pos>, a: nat, i: nat, j: nat, url: string)
    requires a <= i <= j <= |line|
    requires ShowsPiece(m, m1, line[a..i], url) && ShowsPiece(m1, m2, line[i..j], url)
    ensures ShowsPiece(m, m2, line[a..j], url)
  {
    assert line[a..j] == line[a..i] + line[i..j];
  }

  /** No earlier span is over a later one's columns. */
  lemma {:induction false} EarlierSpansEnd(spans: seq<Links.Span>, n: nat, i: nat, to: nat)
    requires n < |spans| && Links.Ordered(spans, 0, to) && spans[n].start <= i
    ensures UrlOver(spans[..n], i).None?
  {
    if n > 0 {
      assert spans[..n][..n - 1] == spans[..n - 1];
      EarlierSpansEnd(spans, n - 1, i, to);
    }
  }

  lemma PieceRunShows(m: Map, line: seq<Pos>, i: nat, j: nat, r: Run, y: nat)
    requires Valid(m) && m.area.y <= y < m.area.Bottom() && r.link < |m.urls|
    requires i < j <= |line| && forall k :: i <= k < j ==> line[k] == Pos(r.x0 + k - i, y)
    requires r.x1 == r.x0 + j - i && Free(m, line[i..j])
    ensures Valid(WithRun(m, y, r)) && ShowsPiece(m, WithRun(m, y, r), line[i..j], m.urls[r.link])
  {
    hide Shown, Apart, Valid;
    RunIsPiece(line, i, j, r, y);
    assert forall x :: r.x0 <= x < r.x1 ==> Pos(x, y) in line[i..j];
    WithRunShows(m, y, r);
  }

  /** The map shows, along a line, what these spans are over. */
  ghost predicate ShowsSpans(m: Map, line: seq<Pos>, spans: seq<Links.Span>) {
    forall i :: 0 <= i < |line| ==> Shown(m, line[i]) == UrlOver(spans, i)
  }

  /** The columns of the next span are free. */
  lemma NextSpanIsFree(m: Map, line: seq<Pos>, spans: seq<Links.Span>, n: nat)
    requires n < |spans| && Links.Ordered(spans, 0, |line|) && ShowsSpans(m, line, spans[..n])
    ensures spans[n].start < spans[n].end <= |line| && Free(m, line[spans[n].start..spans[n].end])
  {
    var s := spans[n];
    forall p | p in line[s.start..s.end] ensures Shown(m, p).None? {
      var i :| s.start <= i < s.end && line[i] == p;
      EarlierSpansEnd(spans, n, i, |line|);
    }
  }

  lemma SameShowsSpans(m: Map, m': Map, line: seq<Pos>, spans: seq<Links.Span>)
    requires ShowsSpans(m, line, spans) && SameBut(m, m', [])
    ensures ShowsSpans(m', line, spans)
  {
  }

  lemma SameButTwice(m: Map, m1: Map, m2: Map, line: seq<Pos>)
    requires SameBut(m, m1, line) && (SameBut(m1, m2, line) || SameBut(m1, m2, []))
    ensures SameBut(m, m2, line)
  {
  }

  // ------------------------------------------------------------------------ the class

  class ScreenMap {
    const area: Rect
    var rows: seq<seq<Run>>
    var urls: seq<string>
    var seen: map<string, nat>

    ghost function Now(): Map
      reads this
    {
      Map(area, rows, urls)
    }

    ghost predicate Ready()
      reads this
    {
      && Valid(Now())
      && (forall u :: u in seen ==> seen[u] < |urls| && urls[seen[u]] == u)
      && (forall i :: 0 <= i < |urls| ==> urls[i] in seen)
    }

    constructor (area: Rect)
      ensures this.area == area && Ready() && urls == [] && forall p: Pos :: Shown(Now(), p).None?
    {
      this.area := area;
      rows, urls, seen := seq(area.height, _ => []), [], map[];
    }

    /** The number of a URL.  A new one gets the next; no other number changes. */
    method Intern(url: string) returns (link: nat)
      requires Ready()
      modifies this
      ensures Ready() && link < |urls| && urls[link] == url && SameBut(old(Now()), Now(), [])
      ensures urls == Added(old(urls), url)
    {
      if url in seen {
        return seen[url];
      }
      MoreUrlsShowAlike(Now(), url);
      urls := urls + [url];
      seen := seen[url := |urls| - 1];
      link := |urls| - 1;
    }

    /** Draw the run of one row's cells, `line[i..j]`. */
    method PushRun(line: seq<Pos>, i: nat, j: nat, r: Run)
      requires Ready() && OnRows(area, line) && r.link < |urls|
      requires i < j <= |line| && forall k :: i <= k < j ==> line[k] == Pos(r.x0 + k - i, line[i].y)
      requires r.x1 == r.x0 + j - i && Free(Now(), line[i..j])
      modifies this`rows
      ensures Ready() && ShowsPiece(old(Now()), Now(), line[i..j], urls[r.link])
    {
      hide Shown, Apart, Lookup;
      var y := line[i].y;
      assert line[i] in line;
      PieceRunShows(Now(), line, i, j, r, y);
      rows := rows[y - area.y := rows[y - area.y] + [r]];
    }

    /** Draw one span of a line, broken at every change of row. */
    method PlaceSpan(line: seq<Pos>, from: nat, to: nat, link: nat)
      requires Ready() && OnRows(area, line) && Consecutive(line) && Distinct(line) && link < |urls|
      requires from <= to <= |line| && Free(Now(), line[from..to])
      modifies this`rows
      ensures Ready() && ShowsPiece(old(Now()), Now(), line[from..to], urls[link])
    {
      var i := from;
      assert line[from..from] == [];
      while i < to
        invariant from <= i <= to && Ready()
        invariant ShowsPiece(old(Now()), Now(), line[from..i], urls[link])
      {
        var x0, row := line[i].x, line[i].y;
        var x1, j := x0, i;
        while j < to && line[j].y == row
          invariant i <= j <= to && x1 == x0 + j - i
          invariant forall k :: i <= k < j ==> line[k] == Pos(x0 + k - i, row)
        {
          assert j > i ==> line[j].x == line[j - 1].x + 1;
          x1 := line[j].x + 1;
          j := j + 1;
        }
        StillFree(old(Now()), Now(), line, from, i, j, to, urls[link]);
        ghost var m1 := Now();
        PushRun(line, i, j, Run(x0, x1, link));
        PieceGrows(old(Now()), m1, Now(), line, from, i, j, urls[link]);
        i := j;
      }
    }

    /** Scan one line of cells and draw its links. */
    method PlaceLine(cells: Cells, line: seq<Pos>)
      requires Ready() && OnRows(area, line) && Consecutive(line) && Distinct(line) && Free(Now(), line)
      modifies this
      ensures Ready() && ShowsLine(Now(), cells, line) && SameBut(old(Now()), Now(), line)
      ensures urls == Interned(old(urls), LineUrls(cells, line))
    {
      hide Shown, Valid, UrlOver, Free, SameBut, Interned, Added, SpanUrls;
      NoUrlsYet(urls, cells);
      var text := Chars(cells, line);
      var spans := Links.Scan(text);
      Links.SpansAreOrdered(text, 0);
      NoSpansYet(Now(), line, spans);
      for n := 0 to |spans|
        invariant Ready() && SameBut(old(Now()), Now(), line) && ShowsSpans(Now(), line, spans[..n])
        invariant urls == Interned(old(urls), SpanUrls(spans[..n]))
      {
        OneSpanUrl(old(urls), spans, n);
        var s := spans[n];
        ghost var m0 := Now();
        var link := Intern(s.url);
        ghost var m1 := Now();
        SameShowsSpans(m0, m1, line, spans[..n]);
        SameButTwice(old(Now()), m0, m1, line);
        NextSpanIsFree(m1, line, spans, n);
        PlaceSpan(line, s.start, s.end, link);
        SpanShows(m1, Now(), line, spans, n);
        SameButTwice(old(Now()), m1, Now(), line);
      }
      assert spans[..|spans|] == spans;
    }

    /** Every line of a rectangle, read and drawn; with `join` a filled row runs on into the next. */
    method Block(cells: Cells, rect: Rect, join: bool)
      requires Ready() && rect.Within(area) && FreeIn(Now(), rect, rect.y)
      modifies this
      ensures Ready() && ShowsLines(Now(), cells, BlockLines(cells, rect, join, rect.y))
      ensures SameOutside(old(Now()), Now(), rect)
      ensures urls == Interned(old(urls), LinesUrls(cells, BlockLines(cells, rect, join, rect.y)))
    {
      hide Shown, Valid, RowsOf, ShowsLine, LineEnd, BlockLines, ShowsLines, LinesAbove, SameOutside, SameBut, Interned,
        LinesUrls, LineUrls;
      NoUrlsYet(urls, cells);
      var y := rect.y;
      ghost var done: seq<seq<Pos>> := [];
      BlockBegins(Now(), cells, rect, join);
      while y < rect.Bottom()
        invariant rect.y <= y && Ready()
        invariant done + BlockLines(cells, rect, join, y) == BlockLines(cells, rect, join, rect.y)
        invariant ShowsLines(Now(), cells, done) && LinesAbove(done, rect, y)
        invariant FreeIn(Now(), rect, y) && SameOutside(old(Now()), Now(), rect)
        invariant urls == Interned(old(urls), LinesUrls(cells, done))
        decreases rect.Bottom() - y
      {
        var line, last := GatherLine(cells, rect, join, y);
        LineFits(area, rect, y, last + 1);
        LineIsFree(Now(), rect, y, line);
        ghost var m := Now();
        PlaceLine(cells, line);
        LineDone(old(Now()), m, Now(), cells, rect, done, y, last + 1);
        BlockStep(cells, rect, join, y, done);
        OneLineUrls(old(urls), cells, done, line);
        done := done + [line];
        y := last + 1;
      }
      BlockEnds(cells, rect, join, y, done);
    }

    /** The whole screen: the stage with its rows joined, then what lies beside it; so the
        URLs are in the order in which they come first, those of the stage ahead of all, and
        in reading order where too little comes before the stage to hold a link. */
    method Of(cells: Cells, stage: Option<Rect>)
      requires Ready() && urls == [] && forall p: Pos :: Shown(Now(), p).None?
      modifies this
      ensures Ready() && ShowsParts(Now(), cells, Parts(area, stage))
      ensures forall y :: 0 <= y < |rows| ==> Sorted(rows[y])
      ensures urls == Interned([], PartsUrls(cells, Parts(area, stage)))
      ensures LeadsBy(area, stage, SingleLinks.SHORTEST) ==> InReadingOrder(cells, Parts(area, stage), urls)
    {
      hide Shown, Valid, LeadsBy, InReadingOrder, RowParts, BlockLines, Intersection, ReadSoFar, ShowsParts,
        Sorted, Interned, PartsUrls, LinesUrls;
      NoUrlsYet([], cells);
      if HasStage(stage, area) {
        var s := Intersection(stage.value, area);
        FirstPartFits(area, stage);
        Block(cells, s, true);
        FirstPartDone(old(Now()), Now(), cells, area, stage);
        OnePartUrls([], cells, [], Part(s, true));
        assert [] + [Part(s, true)] == PartsTo(area, stage, area.y);
      } else {
        NoPartYet(Now(), cells);
      }
      for y := area.y to area.Bottom()
        invariant Ready() && ReadSoFar(Now(), cells, PartsTo(area, stage, y))
        invariant urls == Interned([], PartsUrls(cells, PartsTo(area, stage, y)))
      {
        ReadRow(cells, stage, y);
      }
      ghost var m := Now();
      SortRows();
      ReadIsShown(m, cells, Parts(area, stage));
      SameShowsParts(m, Now(), cells, Parts(area, stage));
      if LeadsBy(area, stage, SingleLinks.SHORTEST) { UrlsAreInReadingOrder(cells, area, stage); }
    }

    /** What lies beside the stage on one row. */
    method ReadRow(cells: Cells, stage: Option<Rect>, y: nat)
      requires Ready() && area.y <= y < area.Bottom() && ReadSoFar(Now(), cells, PartsTo(area, stage, y))
      requires urls == Interned([], PartsUrls(cells, PartsTo(area, stage, y)))
      modifies this
      ensures Ready() && ReadSoFar(Now(), cells, PartsTo(area, stage, y + 1))
      ensures urls == Interned([], PartsUrls(cells, PartsTo(area, stage, y + 1)))
    {
      hide Shown, Valid, RowParts, BlockLines, Intersection, HasStage, ReadSoFar, Reads, FreeIn, SameOutside,
        ShowsLines, Interned, PartsUrls, LinesUrls;
      ghost var before := PartsTo(area, stage, y);
      var beside := RowParts(area, stage, y);
      PartsRead(area, stage, y + 1);
      assert PartsTo(area, stage, y + 1) == before + beside;
      assert before + beside[..0] == before;
      for k := 0 to |beside|
        invariant Ready() && ReadSoFar(Now(), cells, before + beside[..k])
        invariant urls == Interned([], PartsUrls(cells, before + beside[..k]))
      {
        ghost var done := before + beside[..k];
        assert done + [beside[k]] == before + beside[..k + 1];
        assert (before + beside)[..|done|] == done && (before + beside)[|done|] == beside[k];
        PartIsFree(area, stage, Now(), cells, before + beside, |done|, y + 1);
        RowPartIsPlain(area, stage, y, k);
        ghost var m := Now();
        Block(cells, beside[k].rect, false);
        PartDone(area, stage, m, Now(), cells, before + beside, |done|, y + 1);
        OnePartUrls([], cells, done, beside[k]);
      }
      assert before + beside[..|beside|] == before + beside;
    }

    /** Put every row's runs in column order. */
    method SortRows()
      requires Ready()
      modifies this`rows
      ensures Ready() && SameBut(old(Now()), Now(), []) && forall y :: 0 <= y < |rows| ==> Sorted(rows[y])
      ensures urls == old(urls)
    {
      hide Shown, Sorted;
      for y := 0 to |rows|
        invariant Ready() && |rows| == area.height && (forall k :: 0 <= k < y ==> Sorted(rows[k]))
        invariant SameBut(old(Now()), Now(), [])
      {
        ghost var m1 := Now();
        var sorted := SortRow(rows[y]);
        SortingShowsAlike(m1, y, sorted);
        rows := rows[y := sorted];
      }
    }

    /** The link under a column of row `y` of the buffer. */
    method At(x: nat, y: nat) returns (url: Option<string>)
      requires Ready()
      ensures url == Shown(Now(), Pos(x, area.y + y))
    {
      if y >= |rows| {
        return None;
      }
      LookupLinks(rows[y], x, |urls|);
      var i := 0;
      assert rows[y][0..] == rows[y];
      while i < |rows[y]|
        invariant 0 <= i <= |rows[y]|
        invariant Lookup(rows[y][i..], x) == Lookup(rows[y], x)
      {
        assert rows[y][i..][1..] == rows[y][i + 1..];
        if Covers(rows[y][i], x) {
          return Some(urls[rows[y][i].link]);
        }
        i := i + 1;
      }
      url := None;
    }
  }

  // ------------------------------------------------------------------- one block

  ghost predicate FreeIn(m: Map, rect: Rect, y: nat) {
    forall p: Pos :: rect.Contains(p.x, p.y) && y <= p.y ==> Shown(m, p).None?
  }

  ghost predicate SameOutside(m: Map, m': Map, rect: Rect) {
    m'.area == m.area && forall p: Pos :: !rect.Contains(p.x, p.y) ==> Shown(m', p) == Shown(m, p)
  }

  ghost predicate LinesAbove(lines: seq<seq<Pos>>, rect: Rect, y: nat) {
    forall n, p :: 0 <= n < |lines| && p in lines[n] ==> rect.Contains(p.x, p.y) && p.y < y
  }

  lemma BlockBegins(m: Map, cells: Cells, rect: Rect, join: bool)
    ensures [] + BlockLines(cells, rect, join, rect.y) == BlockLines(cells, rect, join, rect.y)
    ensures ShowsLines(m, cells, []) && LinesAbove([], rect, rect.y) && SameOutside(m, m, rect)
  {
  }

  lemma BlockStep(cells: Cells, rect: Rect, join: bool, y: nat, done: seq<seq<Pos>>)
    requires y < rect.Bottom()
    ensures var e := LineEnd(cells, rect, join, y) + 1;
            && y < e <= rect.Bottom()
            && done + BlockLines(cells, rect, join, y)
               == done + [RowsOf(rect, y, e)] + BlockLines(cells, rect, join, e)
  {
  }

  lemma BlockEnds(cells: Cells, rect: Rect, join: bool, y: nat, done: seq<seq<Pos>>)
    requires y >= rect.Bottom()
    ensures done + BlockLines(cells, rect, join, y) == done
  {
  }

  lemma LineIsFree(m: Map, rect: Rect, y: nat, line: seq<Pos>)
    requires FreeIn(m, rect, y) && forall p :: p in line ==> rect.Contains(p.x, p.y) && y <= p.y
    ensures Free(m, line)
  {
  }

  /** The cells of one line: row after row while a row is filled and the next goes on. */
  method GatherLine(cells: Cells, rect: Rect, join: bool, y: nat) returns (line: seq<Pos>, last: nat)
    requires y < rect.Bottom()
    ensures last == LineEnd(cells, rect, join, y) && line == RowsOf(rect, y, last + 1)
  {
    last, line := y, [];
    while true
      invariant y <= last < rect.Bottom() && line == RowsOf(rect, y, last)
      invariant LineEnd(cells, rect, join, last) == LineEnd(cells, rect, join, y)
      decreases rect.Bottom() - last
    {
      line := line + RowCells(rect, last);
      assert line == RowsOf(rect, y, last + 1);
      if rect.width == 0 { EmptyRows(rect, y, last + 1); }
      var full := line != [] && cells(line[|line| - 1]) != ' ';
      assert full == Full(cells, rect, last);
      if join && full && last + 1 < rect.Bottom() && !StartsALink(cells, rect, last + 1) {
        last := last + 1;
      } else {
        return;
      }
    }
  }

  lemma {:induction false} EmptyRows(rect: Rect, y: nat, z: nat)
    requires rect.width == 0 && y <= z
    ensures RowsOf(rect, y, z) == []
    decreases z - y
  {
    if y < z { EmptyRows(rect, y, z - 1); }
  }

  /** A line of a rectangle inside the area is fit to be placed. */
  lemma LineFits(area: Rect, rect: Rect, y: nat, z: nat)
    requires rect.Within(area) && rect.y <= y <= z <= rect.Bottom()
    ensures var line := RowsOf(rect, y, z);
            && OnRows(area, line) && Distinct(line) && Consecutive(line)
            && (forall p :: p in line <==> rect.Contains(p.x, p.y) && y <= p.y < z)
  {
    RowsAreLines(rect, y, z);
    forall p ensures p in RowsOf(rect, y, z) <==> rect.Contains(p.x, p.y) && y <= p.y < z { RowsHold(rect, y, z, p); }
  }

  lemma LineDone(m0: Map, m: Map, m': Map, cells: Cells, rect: Rect, done: seq<seq<Pos>>, y: nat, z: nat)
    requires rect.y <= y <= z <= rect.Bottom()
    requires ShowsLines(m, cells, done) && LinesAbove(done, rect, y) && FreeIn(m, rect, y) && SameOutside(m0, m, rect)
    requires ShowsLine(m', cells, RowsOf(rect, y, z)) && SameBut(m, m', RowsOf(rect, y, z))
    ensures ShowsLines(m', cells, done + [RowsOf(rect, y, z)]) && LinesAbove(done + [RowsOf(rect, y, z)], rect, z)
    ensures FreeIn(m', rect, z) && SameOutside(m0, m', rect)
  {
    hide Shown, Reading;
    var line := RowsOf(rect, y, z);
    forall p ensures p in line <==> rect.Contains(p.x, p.y) && y <= p.y < z { RowsHold(rect, y, z, p); }
    forall n | 0 <= n < |done| ensures ShowsLine(m', cells, done[n]) {
      assert ShowsLine(m, cells, done[n]);
      forall i | 0 <= i < |done[n]| ensures Shown(m', done[n][i]) == Shown(m, done[n][i]) {
        assert done[n][i] in done[n];
      }
    }
  }

  // ------------------------------------------------------------------- all parts

  ghost predicate ShowsParts(m: Map, cells: Cells, parts: seq<Part>) {
    forall k :: 0 <= k < |parts| ==> ShowsLines(m, cells, LinesOf(cells, parts[k]))
  }

  /** The parts read so far are shown, and nothing else is. */
  ghost predicate ReadSoFar(m: Map, cells: Cells, parts: seq<Part>) {
    ShowsParts(m, cells, parts) && forall p: Pos :: !InParts(parts, p) ==> Shown(m, p).None?
  }

  lemma NoPartYet(m: Map, cells: Cells)
    requires forall p: Pos :: Shown(m, p).None?
    ensures ReadSoFar(m, cells, [])
  {
  }

  lemma ReadIsShown(m: Map, cells: Cells, parts: seq<Part>)
    requires ReadSoFar(m, cells, parts)
    ensures ShowsParts(m, cells, parts)
  {
  }

  lemma FirstPartFits(area: Rect, stage: Option<Rect>)
    requires HasStage(stage, area)
    ensures Intersection(stage.value, area).Within(area)
  {
  }

  lemma FirstPartDone(m: Map, m': Map, cells: Cells, area: Rect, stage: Option<Rect>)
    requires HasStage(stage, area) && forall p: Pos :: Shown(m, p).None?
    requires ShowsLines(m', cells,
                        BlockLines(cells, Intersection(stage.value, area), true, Intersection(stage.value, area).y))
    requires SameOutside(m, m', Intersection(stage.value, area))
    ensures ReadSoFar(m', cells, PartsTo(area, stage, area.y))
  {
    hide Shown, Intersection, ShowsLines, BlockLines;
    var ps := PartsTo(area, stage, area.y);
    assert ps == [Part(Intersection(stage.value, area), true)];
    forall p: Pos | !InParts(ps, p) ensures Shown(m', p).None? {
      assert !ps[0].rect.Contains(p.x, p.y);
    }
  }

  lemma RowPartIsPlain(area: Rect, stage: Option<Rect>, y: nat, k: nat)
    requires k < |RowParts(area, stage, y)|
    ensures !RowParts(area, stage, y)[k].join && RowParts(area, stage, y)[k].rect.y == y
  {
  }

  lemma PartIsFree(area: Rect, stage: Option<Rect>, m: Map, cells: Cells, parts: seq<Part>, k: nat, y: nat)
    requires k < |parts| && Reads(area, stage, parts, y) && ReadSoFar(m, cells, parts[..k])
    ensures parts[k].rect.Within(area) && FreeIn(m, parts[k].rect, parts[k].rect.y)
  {
    hide Shown, ShowsParts, HasStage, Intersection;
    forall p: Pos | parts[k].rect.Contains(p.x, p.y) ensures Shown(m, p).None? {
      forall j | 0 <= j < k ensures !parts[..k][j].rect.Contains(p.x, p.y) {
        assert Disjoint(parts[j].rect, parts[k].rect);
      }
    }
  }

  lemma PartDone(area: Rect, stage: Option<Rect>, m: Map, m': Map, cells: Cells, parts: seq<Part>, k: nat, y: nat)
    requires k < |parts| && Reads(area, stage, parts, y) && ReadSoFar(m, cells, parts[..k])
    requires ShowsLines(m', cells, LinesOf(cells, parts[k])) && SameOutside(m, m', parts[k].rect)
    ensures ReadSoFar(m', cells, parts[..k] + [parts[k]])
  {
    hide Shown, HasStage, Intersection, BlockLines, Reading;
    var done := parts[..k] + [parts[k]];
    forall j | 0 <= j < k ensures ShowsLines(m', cells, LinesOf(cells, parts[j])) {
      var lines := LinesOf(cells, parts[..k][j]);
      assert ShowsLines(m, cells, lines);
      EveryCellIsInOneLine(cells, parts[j].rect, parts[j].join, parts[j].rect.y);
      assert Disjoint(parts[j].rect, parts[k].rect);
      forall n, i | 0 <= n < |lines| && 0 <= i < |lines[n]| ensures Shown(m', lines[n][i]) == Shown(m, lines[n][i]) {
        InOneOf(lines, n, lines[n][i]);
      }
      LinesStayShown(m, m', cells, lines);
    }
    forall p: Pos | !InParts(done, p) ensures Shown(m', p).None? {
      InPartsConcat(parts[..k], [parts[k]], p);
      assert InParts([parts[k]], p) <==> parts[k].rect.Contains(p.x, p.y) by { assert [parts[k]][0] == parts[k]; }
    }
  }

  lemma LinesStayShown(m: Map, m': Map, cells: Cells, lines: seq<seq<Pos>>)
    requires ShowsLines(m, cells, lines)
    requires forall n, i :: 0 <= n < |lines| && 0 <= i < |lines[n]| ==> Shown(m', lines[n][i]) == Shown(m, lines[n][i])
    ensures ShowsLines(m', cells, lines)
  {
    hide Shown, Reading;
    forall n | 0 <= n < |lines| ensures ShowsLine(m', cells, lines[n]) { assert ShowsLine(m, cells, lines[n]); }
  }

  lemma SameShowsParts(m: Map, m': Map, cells: Cells, parts: seq<Part>)
    requires ShowsParts(m, cells, parts) && SameBut(m, m', [])
    ensures ShowsParts(m', cells, parts)
  {
    hide Shown, Reading, BlockLines;
    forall k | 0 <= k < |parts| ensures ShowsLines(m', cells, LinesOf(cells, parts[k])) {
      LinesStayShown(m, m', cells, LinesOf(cells, parts[k]));
    }
  }

  // --------------------------------------------------------------------- sorting

  ghost predicate Sorted(runs: seq<Run>) { forall i, j :: 0 <= i < j < |runs| ==> runs[i].x0 <= runs[j].x0 }

  /** Put a run where it belongs among sorted ones. */
  method InsertRun(runs: seq<Run>, r: Run) returns (out: seq<Run>)
    requires Sorted(runs) && Apart(runs + [r])
    ensures Sorted(out) && Apart(out) && forall q :: q in out <==> q in runs || q == r
  {
    var k := |runs|;
    while k > 0 && runs[k - 1].x0 > r.x0
      invariant 0 <= k <= |runs| && forall i :: k <= i < |runs| ==> runs[i].x0 > r.x0
    {
      k := k - 1;
    }
    hide Apart;
    out := runs[..k] + [r] + runs[k..];
    InsertedRun(runs, r, k);
    ApartMoves(runs, r, k);
  }

  lemma InsertedRun(runs: seq<Run>, r: Run, k: nat)
    requires k <= |runs| && Sorted(runs)
    requires (k > 0 ==> runs[k - 1].x0 <= r.x0) && forall i :: k <= i < |runs| ==> runs[i].x0 > r.x0
    ensures Sorted(runs[..k] + [r] + runs[k..])
    ensures forall q :: q in runs[..k] + [r] + runs[k..] <==> q in runs || q == r
  {
    RunsWith(runs, r, k);
    var out := runs[..k] + [r] + runs[k..];
    assert forall i :: 0 <= i < k ==> runs[i].x0 <= r.x0;
    forall i, j | 0 <= i < j < |out| ensures out[i].x0 <= out[j].x0 {
      assert out[i] == if i < k then runs[i] else if i == k then r else runs[i - 1];
      assert out[j] == if j < k then runs[j] else if j == k then r else runs[j - 1];
    }
  }

  lemma RunsWith(runs: seq<Run>, r: Run, k: nat)
    requires k <= |runs|
    ensures forall q :: q in runs[..k] + [r] + runs[k..] <==> q in runs || q == r
  {
    var a, b := runs[..k], runs[k..];
    assert runs == a + b;
    forall q ensures q in a + [r] + b <==> q in a + b || q == r { }
  }

  lemma ApartMoves(runs: seq<Run>, r: Run, k: nat)
    requires k <= |runs| && Apart(runs + [r])
    ensures Apart(runs[..k] + [r] + runs[k..])
  {
    var all, out := runs + [r], runs[..k] + [r] + runs[k..];
    forall i | 0 <= i < |out| ensures out[i] == all[if i < k then i else if i == k then |runs| else i - 1] { }
  }

  method SortRow(runs: seq<Run>) returns (out: seq<Run>)
    requires Apart(runs)
    ensures Sorted(out) && Apart(out) && forall q :: q in out <==> q in runs
  {
    out := [];
    for i := 0 to |runs|
      invariant Sorted(out) && Apart(out) && forall q :: q in out <==> q in runs[..i]
    {
      assert runs[..i + 1] == runs[..i] + [runs[i]];
      forall k | 0 <= k < |out| ensures out[k].x1 <= runs[i].x0 || runs[i].x1 <= out[k].x0 {
        assert out[k] in out;
        var j :| 0 <= j < i && runs[j] == out[k];
      }
      out := InsertRun(out, runs[i]);
    }
    assert runs[..|runs|] == runs;
  }

  lemma {:induction false} SameRunsLookAlike(a: seq<Run>, b: seq<Run>, x: nat)
    requires Apart(a) && Apart(b) && forall q :: q in a <==> q in b
    ensures Lookup(a, x) == Lookup(b, x)
  {
    LookupIsMembership(a, x);
    LookupIsMembership(b, x);
    if Lookup(a, x).Some? && Lookup(b, x).Some? {
      var q :| q in a && Covers(q, x) && q.link == Lookup(a, x).value;
      var r :| r in b && Covers(r, x) && r.link == Lookup(b, x).value;
      var i, j :| 0 <= i < |b| && 0 <= j < |b| && b[i] == q && b[j] == r;
    }
  }

  lemma SortingShowsAlike(m: Map, y: nat, sorted: seq<Run>)
    requires Valid(m) && y < |m.rows| && Apart(sorted) && forall q :: q in sorted <==> q in m.rows[y]
    ensures var m' := m.(rows := m.rows[y := sorted]); Valid(m') && SameBut(m, m', [])
  {
    var m' := m.(rows := m.rows[y := sorted]);
    forall i | 0 <= i < |sorted| ensures sorted[i].link < |m.urls| {
      assert sorted[i] in m.rows[y];
    }
    forall p: Pos ensures Shown(m', p) == Shown(m, p) { SameRunsLookAlike(sorted, m.rows[y], p.x); }
  }

  lemma NoSpansYet(m: Map, line: seq<Pos>, spans: seq<Links.Span>)
    requires Free(m, line)
    ensures ShowsSpans(m, line, spans[..0]) && SameBut(m, m, line)
  {
  }

  lemma StillFree(m: Map, m1: Map, line: seq<Pos>, from: nat, i: nat, j: nat, to: nat, url: string)
    requires from <= i <= j <= to <= |line| && Distinct(line)
    requires Free(m, line[from..to]) && ShowsPiece(m, m1, line[from..i], url)
    ensures Free(m1, line[i..j])
  {
    forall p | p in line[i..j] ensures Shown(m1, p).None? {
      var k :| i <= k < j && line[k] == p;
      assert line[from..to][k - from] == p;
      assert p !in line[from..i];
    }
  }

  /** One more span drawn is one more span over the line. */
  lemma SpanShows(m1: Map, m2: Map, line: seq<Pos>, spans: seq<Links.Span>, n: nat)
    requires n < |spans| && spans[n].start <= spans[n].end <= |line| && Distinct(line)
    requires ShowsSpans(m1, line, spans[..n])
    requires ShowsPiece(m1, m2, line[spans[n].start..spans[n].end], spans[n].url)
    ensures ShowsSpans(m2, line, spans[..n + 1])
    ensures SameBut(m1, m2, line)
  {
    var s := spans[n];
    assert spans[..n + 1][..n] == spans[..n];
    forall i | 0 <= i < |line| ensures line[i] in line[s.start..s.end] <==> s.start <= i < s.end {
      if s.start <= i < s.end { assert line[s.start..s.end][i - s.start] == line[i]; }
    }
  }

  /** A cell's place: part, line of the part, index in the line. */
  ghost predicate PlaceOf(cells: Cells, parts: seq<Part>, k: nat, n: nat, i: nat, p: Pos) {
    && k < |parts| && n < |LinesOf(cells, parts[k])| && i < |LinesOf(cells, parts[k])[n]|
    && LinesOf(cells, parts[k])[n][i] == p
  }

  /** On a read screen every cell has exactly one place in one line, and shows the URL its
      line reads there, or none; no cell of the screen is read twice or left out. */
  lemma EveryCellShowsItsReading(m: Map, cells: Cells, stage: Option<Rect>, p: Pos) returns (k: nat, n: nat, i: nat)
    requires ShowsParts(m, cells, Parts(m.area, stage)) && m.area.Contains(p.x, p.y)
    ensures var parts := Parts(m.area, stage);
            && PlaceOf(cells, parts, k, n, i, p)
            && Shown(m, p) == Reading(cells, LinesOf(cells, parts[k])[n], i)
            && forall k': nat, n': nat, i': nat :: PlaceOf(cells, parts, k', n', i', p) ==>
                k' == k && n' == n && i' == i
  {
    hide Shown, Reading, Parts, BlockLines;
    var parts := Parts(m.area, stage);
    EveryCellIsReadOnce(m.area, stage, p);
    k :| 0 <= k < |parts| && parts[k].rect.Contains(p.x, p.y);
    EveryCellIsInOneLine(cells, parts[k].rect, parts[k].join, parts[k].rect.y);
    var lines := LinesOf(cells, parts[k]);
    assert InLines(lines, p);
    n :| 0 <= n < |lines| && p in lines[n];
    i :| 0 <= i < |lines[n]| && lines[n][i] == p;
    assert ShowsLines(m, cells, lines) && ShowsLine(m, cells, lines[n]);
    forall k': nat, n': nat, i': nat | PlaceOf(cells, parts, k', n', i', p) ensures k' == k && n' == n && i' == i {
      OnePlace(m.area, cells, stage, p, k, n, i, k', n', i');
    }
  }

  lemma OnePlace(
    area: Rect, cells: Cells, stage: Option<Rect>, p: Pos, k: nat, n: nat, i: nat, k': nat, n': nat, i': nat)
    requires PlaceOf(cells, Parts(area, stage), k, n, i, p) && PlaceOf(cells, Parts(area, stage), k', n', i', p)
    ensures k' == k && n' == n && i' == i
  {
    hide Parts, BlockLines;
    var parts := Parts(area, stage);
    EveryCellIsReadOnce(area, stage, p);
    PlaceIsInPart(cells, parts, k, n, i, p);
    PlaceIsInPart(cells, parts, k', n', i', p);
    assert k' == k;
    EveryCellIsInOneLine(cells, parts[k].rect, parts[k].join, parts[k].rect.y);
    var lines := LinesOf(cells, parts[k]);
    assert p in lines[n] && p in lines[n'];
  }

  lemma PlaceIsInPart(cells: Cells, parts: seq<Part>, k: nat, n: nat, i: nat, p: Pos)
    requires PlaceOf(cells, parts, k, n, i, p)
    ensures parts[k].rect.Contains(p.x, p.y)
  {
    EveryCellIsInOneLine(cells, parts[k].rect, parts[k].join, parts[k].rect.y);
    InOneOf(LinesOf(cells, parts[k]), n, p);
  }
}
