/**
 Commit lanes: one pass down a page of history that gives every commit a column
 and every parent edge a line.

 `GraphRows`, `FreeLane` and `Glyphs` are the loops of the source over a mutable
 vector of open lanes.  Each is proved against a specification function, and the
 theorems below are about those functions.  None of them assumes a topological
 order or distinct commit ids unless it says so.
 */
module CommitGraph {
  import opened Base

  type Id = string
  type Lane = Option<Id>

  datatype Commit = Commit(id: Id, parents: seq<Id>)

  datatype GraphRow = GraphRow(
    lane: nat,
    through: seq<nat>,
    merged: seq<nat>,
    forked: seq<nat>,
    overflow: bool,
    merge: bool)

  // ---------------------------------------------------------------- vocabulary

  ghost predicate Ascending(s: seq<nat>) {
    forall i, j :: 0 <= i < j < |s| ==> s[i] < s[j]
  }

  /** Column `k` has an open lane waiting for `p`. */
  predicate Awaits(lanes: seq<Lane>, k: nat, p: Id) {
    k < |lanes| && lanes[k] == Some(p)
  }

  ghost predicate Awaited(lanes: seq<Lane>, p: Id) {
    exists k: nat :: Awaits(lanes, k, p)
  }

  predicate Open(lanes: seq<Lane>, k: nat) {
    k < |lanes| && lanes[k].Some?
  }

  /** Every column a row draws something in. */
  predicate InColumns(row: GraphRow, k: nat) {
    k == row.lane || k in row.through || k in row.merged || k in row.forked
  }

  // ------------------------------------------------------- specification: a row

  /** The first index holding `x`, or the length when there is none. */
  function FirstIndex(lanes: seq<Lane>, x: Lane): (r: nat)
    ensures r <= |lanes|
    ensures r < |lanes| ==> lanes[r] == x
    ensures forall k :: 0 <= k < r ==> lanes[k] != x
  {
    if lanes == [] then 0
    else if lanes[0] == x then 0
    else 1 + FirstIndex(lanes[1..], x)
  }

  /** The columns waiting for `id`, left to right. */
  function Waiting(lanes: seq<Lane>, id: Id): (w: seq<nat>)
    ensures Ascending(w)
    ensures forall k: nat :: k in w <==> Awaits(lanes, k, id)
  {
    if lanes == [] then []
    else
      var last := |lanes| - 1;
      var rest := Waiting(lanes[..last], id);
      assert forall i :: 0 <= i < |rest| ==> rest[i] in rest && Awaits(lanes[..last], rest[i], id);
      if lanes[last] == Some(id) then rest + [last] else rest
  }

  /** The open columns that are neither the node nor joining it, left to right. */
  function Passing(lanes: seq<Lane>, id: Id, lane: nat): (t: seq<nat>)
    ensures Ascending(t)
    ensures forall k: nat :: k in t <==> Open(lanes, k) && k != lane && lanes[k] != Some(id)
  {
    if lanes == [] then []
    else
      var last := |lanes| - 1;
      var rest := Passing(lanes[..last], id, lane);
      assert forall i :: 0 <= i < |rest| ==> rest[i] in rest && Open(lanes[..last], rest[i]);
      if lanes[last].Some? && last != lane && lanes[last] != Some(id) then rest + [last] else rest
  }

  /** The node's column: the leftmost lane waiting for it, else the first free one. */
  function NodeLane(lanes: seq<Lane>, id: Id): (lane: nat)
    ensures lane <= |lanes|
    ensures forall k: nat :: Awaits(lanes, k, id) ==> lane <= k
    ensures Awaited(lanes, id) ==> Awaits(lanes, lane, id)
    ensures !Awaited(lanes, id) ==> !Open(lanes, lane) && forall k: nat :: k < lane ==> Open(lanes, k)
  {
    var w := Waiting(lanes, id);
    if |w| > 0 then assert w[0] in w; w[0]
    else assert forall k: nat :: k !in w; FirstIndex(lanes, None)
  }

  /** The lanes that end at the node: every one that waited for it but its own. */
  function Merged(lanes: seq<Lane>, id: Id): seq<nat> {
    var w := Waiting(lanes, id);
    if w == [] then [] else w[1..]
  }

  /** The lanes once the node is placed: its lane goes to the first parent, every
      other lane that waited for it closes. */
  function AfterNode(lanes: seq<Lane>, c: Commit): seq<Lane> {
    var lane := NodeLane(lanes, c.id);
    var n := if lane < |lanes| then |lanes| else lane + 1;
    seq(n, k requires 0 <= k < n =>
      if k == lane then (if |c.parents| > 0 then Some(c.parents[0]) else None)
      else if lanes[k] == Some(c.id) then None
      else lanes[k])
  }

  function Put(lanes: seq<Lane>, at: nat, p: Id): seq<Lane>
    requires at <= |lanes|
  {
    if at < |lanes| then lanes[at := Some(p)] else lanes + [Some(p)]
  }

  /** Where a further parent is drawn: the lane already awaiting it, else a free one. */
  function ForkColumn(lanes: seq<Lane>, p: Id): (at: nat)
    ensures at <= |lanes|
    ensures Open(lanes, at) ==> lanes[at] == Some(p)
  {
    var have := FirstIndex(lanes, Some(p));
    if have < |lanes| then have else FirstIndex(lanes, None)
  }

  /** The lanes once one is open for each of `ps` in turn. */
  function ForkLanes(lanes: seq<Lane>, ps: seq<Id>): (r: seq<Lane>)
    ensures |lanes| <= |r|
    ensures forall k: nat, p :: Awaits(lanes, k, p) ==> Awaits(r, k, p)
    ensures forall k: nat, p :: Awaits(r, k, p) ==> Awaits(lanes, k, p) || p in ps
  {
    if ps == [] then lanes
    else
      var last := |ps| - 1;
      var held := ForkLanes(lanes, ps[..last]);
      assert ps == ps[..last] + [ps[last]];
      Put(held, ForkColumn(held, ps[last]), ps[last])
  }

  /** The column each of `ps` is drawn in. */
  function ForkColumns(lanes: seq<Lane>, ps: seq<Id>): (f: seq<nat>)
    ensures |f| == |ps|
  {
    if ps == [] then []
    else
      var last := |ps| - 1;
      ForkColumns(lanes, ps[..last]) + [ForkColumn(ForkLanes(lanes, ps[..last]), ps[last])]
  }

  /** The fork columns await their parents, and nothing else is opened. */
  lemma {:induction false} ForksOpen(lanes: seq<Lane>, ps: seq<Id>)
    ensures forall i :: 0 <= i < |ps| ==> Awaits(ForkLanes(lanes, ps), ForkColumns(lanes, ps)[i], ps[i])
    ensures forall k: nat :: Open(ForkLanes(lanes, ps), k) <==> Open(lanes, k) || k in ForkColumns(lanes, ps)
  {
    if ps != [] {
      hide ForkColumn;
      var last := |ps| - 1;
      var held, f := ForkLanes(lanes, ps[..last]), ForkColumns(lanes, ps[..last]);
      var at := ForkColumn(held, ps[last]);
      ForksOpen(lanes, ps[..last]);
      forall i | 0 <= i < |ps| ensures Awaits(Put(held, at, ps[last]), (f + [at])[i], ps[i]) {
        if i < last { assert Awaits(held, f[i], ps[..last][i]); }
      }
    }
  }

  /** Drop the closed lanes at the right edge. */
  function Trim(lanes: seq<Lane>): (r: seq<Lane>)
    ensures r <= lanes
    ensures r != [] ==> r[|r| - 1].Some?
    ensures forall k: nat, p :: Awaits(r, k, p) <==> Awaits(lanes, k, p)
    ensures forall k: nat :: Open(r, k) <==> Open(lanes, k)
  {
    if lanes != [] && lanes[|lanes| - 1].None? then Trim(lanes[..|lanes| - 1]) else lanes
  }

  function StepLanes(lanes: seq<Lane>, c: Commit): seq<Lane> {
    Trim(ForkLanes(AfterNode(lanes, c), Rest(c.parents)))
  }

  function Rest(parents: seq<Id>): seq<Id> {
    if parents == [] then [] else parents[1..]
  }

  function MaxOf(s: seq<nat>, floor: nat): (m: nat)
    ensures m >= floor && forall x :: x in s ==> x <= m
    ensures m == floor || m in s
  {
    if s == [] then floor
    else
      var rest := MaxOf(s[..|s| - 1], floor);
      assert forall x :: x in s ==> x in s[..|s| - 1] || x == s[|s| - 1];
      if s[|s| - 1] > rest then s[|s| - 1] else rest
  }

  function MinOf(s: seq<nat>, ceiling: nat): (m: nat)
    ensures m <= ceiling && forall x :: x in s ==> m <= x
    ensures m == ceiling || m in s
  {
    if s == [] then ceiling
    else
      var rest := MinOf(s[..|s| - 1], ceiling);
      assert forall x :: x in s ==> x in s[..|s| - 1] || x == s[|s| - 1];
      if s[|s| - 1] < rest then s[|s| - 1] else rest
  }

  /** How many columns a row needs: one past its rightmost one. */
  function Width(row: GraphRow): (w: nat)
    ensures forall k: nat :: InColumns(row, k) ==> k < w
    ensures w > 0 && InColumns(row, w - 1)
  {
    MaxOf(row.forked, MaxOf(row.merged, MaxOf(row.through, row.lane))) + 1
  }

  function RowOf(lanes: seq<Lane>, c: Commit, maxLanes: nat): GraphRow {
    var lane := NodeLane(lanes, c.id);
    var row := GraphRow(
      lane,
      Passing(lanes, c.id, lane),
      Merged(lanes, c.id),
      ForkColumns(AfterNode(lanes, c), Rest(c.parents)),
      false,
      |c.parents| > 1);
    row.(overflow := Width(row) > maxLanes)
  }

  // ---------------------------------------------------- specification: a drawing

  /** The rightmost corner drawn, kept inside the limit. */
  function Reach(row: GraphRow, maxLanes: nat): nat {
    var far := MaxOf(row.forked, MaxOf(row.merged, row.lane));
    var limit := if maxLanes == 0 then 0 else maxLanes - 1;
    if far < limit then far else limit
  }

  /** The leftmost corner, or the node. */
  function Near(row: GraphRow): nat {
    MinOf(row.forked, MinOf(row.merged, row.lane))
  }

  /** One cell of the drawing.  A passing line wins over the horizontal run. */
  function Cell(row: GraphRow, maxLanes: nat, i: nat): char {
    if i == row.lane then (if row.merge then '◆' else '●')
    else if i in row.merged then '╯'
    else if i in row.forked then '╮'
    else if i in row.through then '│'
    else if Near(row) < i < Reach(row, maxLanes) then '─'
    else ' '
  }

  function Cells(row: GraphRow, maxLanes: nat): string {
    var width := Width(row);
    seq(if width < maxLanes then width else maxLanes, i requires i >= 0 => Cell(row, maxLanes, i))
  }

  /** Column `k` starts in a row: it is the node's own, or a fork's. */
  predicate StartsIn(row: GraphRow, k: nat) { k == row.lane || k in row.forked }

  /** Column `k` ends in a row: it is the node's own, or one merging in. */
  predicate EndsIn(row: GraphRow, k: nat) { k == row.lane || k in row.merged }

  /** The row's node and corners lie on both sides of column `k`. */
  ghost predicate Crossed(row: GraphRow, k: nat) {
    exists a: nat, b: nat ::
      (StartsIn(row, a) || EndsIn(row, a)) && (StartsIn(row, b) || EndsIn(row, b)) && a < k < b
  }

  /** What a row shows in column `k`: its node, a corner that ends or starts a line, a line
      that passes, the run between node and corners, or nothing. */
  ghost predicate Shows(row: GraphRow, maxLanes: nat, k: nat, ch: char) {
    && (k == row.lane ==> ch == if row.merge then '◆' else '●')
    && (k in row.merged && k != row.lane ==> ch == '╯')
    && (k in row.forked && !EndsIn(row, k) ==> ch == '╮')
    && (k in row.through && !EndsIn(row, k) && !StartsIn(row, k) ==> ch == '│')
    && (!InColumns(row, k) ==> ch == if Crossed(row, k) && k + 1 < maxLanes then '─' else ' ')
  }

  /** The run between the outermost corners is where both sides hold one. */
  lemma RunIsCrossed(row: GraphRow, maxLanes: nat, k: nat)
    ensures Near(row) < k < Reach(row, maxLanes) <==> Crossed(row, k) && k + 1 < maxLanes
  {
    var near, far := Near(row), MaxOf(row.forked, MaxOf(row.merged, row.lane));
    assert StartsIn(row, near) || EndsIn(row, near);
    assert StartsIn(row, far) || EndsIn(row, far);
    forall a: nat | StartsIn(row, a) || EndsIn(row, a) ensures near <= a <= far { }
    hide StartsIn, EndsIn;
  }

  lemma CellShows(row: GraphRow, maxLanes: nat, k: nat)
    ensures Shows(row, maxLanes, k, Cell(row, maxLanes, k))
  {
    RunIsCrossed(row, maxLanes, k);
    hide Near, Reach, Crossed;
  }

  // ------------------------------------------------------ specification: a page

  /** The open lanes once the first `n` commits of a page are drawn. */
  function LanesAt(commits: seq<Commit>, n: nat): seq<Lane>
    requires n <= |commits|
  {
    if n == 0 then [] else StepLanes(LanesAt(commits, n - 1), commits[n - 1])
  }

  /** Row `i` is drawn from the lanes the rows above it left open. */
  function Rows(commits: seq<Commit>, n: nat, maxLanes: nat): (rows: seq<GraphRow>)
    requires n <= |commits|
    ensures |rows| == n
  {
    if n == 0 then []
    else Rows(commits, n - 1, maxLanes) + [RowOf(LanesAt(commits, n - 1), commits[n - 1], maxLanes)]
  }

  // ---------------------------------------------------------------- the methods

  /** A closed lane with none closed to its left; one is added only when all are open. */
  method FreeLane(lanes: seq<Lane>) returns (grown: seq<Lane>, at: nat)
    ensures at < |grown| && grown[at].None? && forall k :: 0 <= k < at ==> grown[k].Some?
    ensures grown == if exists k :: 0 <= k < |lanes| && lanes[k].None? then lanes else lanes + [None]
  {
    at := 0;
    while at < |lanes| && lanes[at].Some?
      invariant at <= |lanes| && forall k :: 0 <= k < at ==> lanes[k].Some?
    {
      at := at + 1;
    }
    grown := if at < |lanes| then lanes else lanes + [None];
  }

  /** A closed lane with none closed to its left is the first index of one, or the new one. */
  lemma {:induction false} FreeIsFirst(lanes: seq<Lane>, grown: seq<Lane>, at: nat)
    requires grown == lanes || grown == lanes + [None]
    requires at < |grown| && grown[at].None? && forall k :: 0 <= k < at ==> grown[k].Some?
    ensures at == FirstIndex(lanes, None)
  {
    var first := FirstIndex(lanes, None);
    assert first < |grown| ==> grown[first].None?;
  }

  lemma NoMax(floor: nat)
    ensures MaxOf([], floor) == floor
  {
  }

  lemma NextMax(s: seq<nat>, i: nat, floor: nat)
    requires i < |s|
    ensures var m := MaxOf(s[..i], floor); MaxOf(s[..i + 1], floor) == if s[i] > m then s[i] else m
  {
    assert s[..i + 1][..i] == s[..i];
  }

  method WidthOf(row: GraphRow) returns (w: nat)
    ensures w == Width(row)
  {
    hide MaxOf;
    w := row.lane;
    var sets := [row.through, row.merged, row.forked];
    for s := 0 to 3
      invariant s == 0 ==> w == row.lane
      invariant s == 1 ==> w == MaxOf(row.through, row.lane)
      invariant s == 2 ==> w == MaxOf(row.merged, MaxOf(row.through, row.lane))
      invariant s == 3 ==> w == MaxOf(row.forked, MaxOf(row.merged, MaxOf(row.through, row.lane)))
    {
      ghost var floor := w;
      NoMax(floor);
      for i := 0 to |sets[s]|
        invariant w == MaxOf(sets[s][..i], floor)
      {
        NextMax(sets[s], i, floor);
        if sets[s][i] > w {
          w := sets[s][i];
        }
      }
      assert sets[s][..|sets[s]|] == sets[s];
    }
    w := w + 1;
  }

  /** Close the lanes at these columns. */
  method CloseLanes(open: seq<Lane>, columns: seq<nat>) returns (lanes: seq<Lane>)
    requires forall i :: 0 <= i < |columns| ==> columns[i] < |open|
    ensures |lanes| == |open|
    ensures forall k :: 0 <= k < |lanes| ==> lanes[k] == if k in columns then None else open[k]
  {
    lanes := open;
    for i := 0 to |columns|
      invariant |lanes| == |open|
      invariant forall k :: 0 <= k < |lanes| ==> lanes[k] == if k in columns[..i] then None else open[k]
    {
      lanes := lanes[columns[i] := None];
    }
    assert columns[..|columns|] == columns;
  }

  /** Close every lane that merges here and hand the node's lane to the first parent. */
  method PlaceNode(before: seq<Lane>, c: Commit)
    returns (lanes: seq<Lane>, lane: nat, through: seq<nat>, merged: seq<nat>)
    ensures lanes == AfterNode(before, c)
    ensures lane == NodeLane(before, c.id) && through == Passing(before, c.id, lane)
    ensures merged == Merged(before, c.id)
  {
    var waiting := Waiting(before, c.id);
    lanes := before;
    if |waiting| > 0 {
      assert waiting[0] in waiting;
      lane := waiting[0];
    } else {
      lanes, lane := FreeLane(lanes);
      FreeIsFirst(before, lanes, lane);
    }
    assert lane == NodeLane(before, c.id);
    hide NodeLane, Waiting, FirstIndex, Passing, AfterNode;
    PassingIgnoresClosed(before, lanes, c.id, lane);
    through := Passing(lanes, c.id, lane);
    merged := if |waiting| > 0 then waiting[1..] else [];
    assert merged == Merged(before, c.id);
    hide Merged;
    MergedAreLanes(before, c.id);
    lanes := CloseLanes(lanes, merged);
    lanes := lanes[lane := if |c.parents| > 0 then Some(c.parents[0]) else None];
    PlacedIs(before, c, lanes);
  }

  /** Open or join one lane for each parent after the first. */
  method OpenForks(placed: seq<Lane>, rest: seq<Id>) returns (lanes: seq<Lane>, forked: seq<nat>)
    ensures lanes == ForkLanes(placed, rest) && forked == ForkColumns(placed, rest)
  {
    lanes, forked := placed, [];
    for i := 0 to |rest|
      invariant lanes == ForkLanes(placed, rest[..i]) && forked == ForkColumns(placed, rest[..i])
    {
      assert rest[..i + 1][..i] == rest[..i];
      ghost var held := lanes;
      var at := FirstIndex(lanes, Some(rest[i]));
      if at == |lanes| {
        lanes, at := FreeLane(lanes);
        FreeIsFirst(held, lanes, at);
        lanes := lanes[at := Some(rest[i])];
      }
      assert at == ForkColumn(held, rest[i]);
      assert lanes == Put(held, at, rest[i]);
      forked := forked + [at];
    }
    assert rest[..|rest|] == rest;
  }

  /** One commit's row, and the lanes it leaves open. */
  method DrawRow(before: seq<Lane>, c: Commit, maxLanes: nat) returns (lanes: seq<Lane>, row: GraphRow)
    ensures lanes == StepLanes(before, c)
    ensures row == RowOf(before, c, maxLanes)
  {
    var lane, through, merged, forked;
    lanes, lane, through, merged := PlaceNode(before, c);
    lanes, forked := OpenForks(lanes, Rest(c.parents));
    lanes := TrimRight(lanes);
    row := GraphRow(lane, through, merged, forked, false, |c.parents| > 1);
    var w := WidthOf(row);
    row := row.(overflow := w > maxLanes);
  }

  /** Pop the closed lanes at the right edge. */
  method TrimRight(full: seq<Lane>) returns (lanes: seq<Lane>)
    ensures lanes == Trim(full)
  {
    lanes := full;
    while lanes != [] && lanes[|lanes| - 1].None?
      invariant Trim(lanes) == Trim(full)
      decreases |lanes|
    {
      lanes := lanes[..|lanes| - 1];
    }
  }

  /** The rows of a page, each drawn from the lanes the one above it leaves. */
  method GraphRows(commits: seq<Commit>, maxLanes: nat) returns (out: seq<GraphRow>)
    ensures out == Rows(commits, |commits|, maxLanes)
  {
    var lanes: seq<Lane> := [];
    out := [];
    for n := 0 to |commits|
      invariant lanes == LanesAt(commits, n)
      invariant out == Rows(commits, n, maxLanes)
    {
      var row;
      lanes, row := DrawRow(lanes, commits[n], maxLanes);
      out := out + [row];
    }
  }

  lemma NextCell(row: GraphRow, maxLanes: nat, i: nat)
    requires i < |Cells(row, maxLanes)|
    ensures Cells(row, maxLanes)[..i + 1] == Cells(row, maxLanes)[..i] + [Cell(row, maxLanes, i)]
  {
    hide Cell, Width;
  }

  /** One row as text: its cells, and the mark of a row that was cut. */
  method Glyphs(row: GraphRow, maxLanes: nat) returns (s: string)
    ensures s == Cells(row, maxLanes) + if row.overflow then "…" else ""
    ensures forall k :: 0 <= k < |Cells(row, maxLanes)| ==> Shows(row, maxLanes, k, s[k])
  {
    hide Width, Near, Reach, Shows;
    var width := WidthOf(row);
    width := if width < maxLanes then width else maxLanes;
    var reach, near := Reach(row, maxLanes), Near(row);
    s := "";
    for i := 0 to width
      invariant s == Cells(row, maxLanes)[..i]
    {
      var ch :=
        if i == row.lane then (if row.merge then '◆' else '●')
        else if i in row.merged then '╯'
        else if i in row.forked then '╮'
        else if i in row.through then '│'
        else if near < i < reach then '─'
        else ' ';
      NextCell(row, maxLanes, i);
      s := s + [ch];
    }
    forall k | 0 <= k < |s| ensures Shows(row, maxLanes, k, s[k]) { CellShows(row, maxLanes, k); }
    if row.overflow {
      s := s + "…";
    }
  }

  /** A closed lane at the right edge passes nothing. */
  lemma PassingIgnoresClosed(a: seq<Lane>, b: seq<Lane>, id: Id, lane: nat)
    requires b == a || b == a + [None]
    ensures Passing(b, id, lane) == Passing(a, id, lane)
  {
    if b != a {
      assert b[..|b| - 1] == a;
    }
  }

  /** Every merged column is a lane, and none is the node's. */
  lemma MergedAreLanes(lanes: seq<Lane>, id: Id)
    ensures forall i :: 0 <= i < |Merged(lanes, id)| ==> Merged(lanes, id)[i] < |lanes|
  {
    MergedColumns(lanes, id);
    assert forall i :: 0 <= i < |Merged(lanes, id)| ==> Merged(lanes, id)[i] in Merged(lanes, id);
  }

  /** Clearing the merged lanes and then setting the node's is placing the node. */
  lemma PlacedIs(before: seq<Lane>, c: Commit, lanes: seq<Lane>)
    requires var lane := NodeLane(before, c.id);
             && |lanes| == (if lane < |before| then |before| else lane + 1)
             && lanes[lane] == (if |c.parents| > 0 then Some(c.parents[0]) else None)
             && forall k :: 0 <= k < |lanes| && k != lane ==>
               lanes[k] == if k in Merged(before, c.id) then None else before[k]
    ensures lanes == AfterNode(before, c)
  {
    MergedColumns(before, c.id);
    hide Merged, NodeLane;
    assert forall k: nat :: k < |before| && before[k] == Some(c.id) ==> Awaits(before, k, c.id);
  }

  /** The merged columns are the waiting ones other than the node's. */
  lemma MergedColumns(lanes: seq<Lane>, id: Id)
    ensures Ascending(Merged(lanes, id))
    ensures forall k: nat :: k in Merged(lanes, id) <==> Awaits(lanes, k, id) && k != NodeLane(lanes, id)
  {
    var w := Waiting(lanes, id);
    if w != [] {
      assert w == [w[0]] + w[1..];
      assert w[0] in w;
    }
  }
}
