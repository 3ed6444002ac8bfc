/**
 What a page of commit rows draws.

 The theorems hold of every page: ids may repeat, parents may be missing from the
 page or listed above their children, and a commit may name a parent twice.
 */
module CommitGraphProofs {
  import opened Base
  import opened CommitGraph

  /** `p` is named by a commit above row `n` and not listed between it and row `n`. */
  ghost predicate Pending(commits: seq<Commit>, n: nat, p: Id)
    requires n <= |commits|
  {
    exists i: nat :: NamedAndUnlisted(commits, i, n, p)
  }

  ghost predicate NamedAndUnlisted(commits: seq<Commit>, i: nat, n: nat, p: Id)
    requires n <= |commits|
  {
    i < n && p in commits[i].parents && forall m :: i < m < n ==> commits[m].id != p
  }

  /** Commit `j` is the next listing of `p`, a parent of commit `i`. */
  ghost predicate Edge(commits: seq<Commit>, i: nat, j: nat, p: Id) {
    i < j < |commits| && commits[j].id == p && NamedAndUnlisted(commits, i, j, p)
  }

  /** Column `k` carries an unbroken line from row `i` down to row `j`. */
  ghost predicate Line(rows: seq<GraphRow>, i: nat, j: nat, k: nat)
    requires i < j < |rows|
  {
    && StartsIn(rows[i], k)
    && (forall m :: i < m < j ==> k in rows[m].through)
    && EndsIn(rows[j], k)
  }

  // ------------------------------------------------------------------- one row

  lemma {:induction false} RowAt(commits: seq<Commit>, n: nat, maxLanes: nat, i: nat)
    requires i < n <= |commits|
    ensures Rows(commits, n, maxLanes)[i] == RowOf(LanesAt(commits, i), commits[i], maxLanes)
  {
    hide StepLanes, RowOf;
    if i < n - 1 { RowAt(commits, n - 1, maxLanes, i); }
  }

  /** A lane waiting for some other commit passes the row and survives it. */
  lemma Survives(lanes: seq<Lane>, c: Commit, maxLanes: nat, k: nat, p: Id)
    requires Awaits(lanes, k, p) && p != c.id
    ensures Awaits(StepLanes(lanes, c), k, p)
    ensures k in RowOf(lanes, c, maxLanes).through
  {
    assert Open(lanes, k);
    assert k != NodeLane(lanes, c.id) by {
      if Awaited(lanes, c.id) { assert Awaits(lanes, NodeLane(lanes, c.id), c.id); }
    }
    assert Awaits(AfterNode(lanes, c), k, p);
  }

  /** A lane waiting for this commit ends at it. */
  lemma Arrives(lanes: seq<Lane>, c: Commit, maxLanes: nat, k: nat)
    requires Awaits(lanes, k, c.id)
    ensures EndsIn(RowOf(lanes, c, maxLanes), k)
    ensures RowOf(lanes, c, maxLanes).lane <= k
  {
    MergedColumns(lanes, c.id);
  }

  /** Each parent is awaited in the node's own lane or in one forked here. */
  lemma Departs(lanes: seq<Lane>, c: Commit, maxLanes: nat, p: Id) returns (k: nat)
    requires p in c.parents
    ensures Awaits(StepLanes(lanes, c), k, p)
    ensures StartsIn(RowOf(lanes, c, maxLanes), k)
    ensures p == c.parents[0] ==> k == RowOf(lanes, c, maxLanes).lane
  {
    var placed := AfterNode(lanes, c);
    var f := ForkColumns(placed, Rest(c.parents));
    ForksOpen(placed, Rest(c.parents));
    if p == c.parents[0] {
      k := NodeLane(lanes, c.id);
      assert Awaits(placed, k, p);
    } else {
      var i :| 0 <= i < |c.parents| && c.parents[i] == p;
      assert Rest(c.parents)[i - 1] == p;
      k := f[i - 1];
      assert Awaits(ForkLanes(placed, Rest(c.parents)), k, p);
      assert k in f;
    }
  }

  /** The ids awaited below a row: its parents, and what was awaited above and is not it. */
  lemma StepAwaits(lanes: seq<Lane>, c: Commit, p: Id)
    ensures Awaited(StepLanes(lanes, c), p) <==> p in c.parents || (Awaited(lanes, p) && p != c.id)
  {
    if p in c.parents {
      var k := Departs(lanes, c, 0, p);
    } else if Awaited(lanes, p) && p != c.id {
      var k: nat :| Awaits(lanes, k, p);
      Survives(lanes, c, 0, k, p);
    } else if Awaited(StepLanes(lanes, c), p) {
      var k: nat :| Awaits(StepLanes(lanes, c), k, p);
      assert Awaits(ForkLanes(AfterNode(lanes, c), Rest(c.parents)), k, p);
      assert p !in Rest(c.parents);
      assert Awaits(AfterNode(lanes, c), k, p);
      assert Awaits(lanes, k, p);
      assert false;
    }
  }

  // ------------------------------------------------------------- parent edges

  /** Once column `k` waits for `p` it keeps waiting until `p` is listed. */
  lemma {:induction false} Held(commits: seq<Commit>, i: nat, m: nat, k: nat, p: Id)
    requires i < m <= |commits|
    requires Awaits(LanesAt(commits, i + 1), k, p)
    requires forall q :: i < q < m ==> commits[q].id != p
    ensures Awaits(LanesAt(commits, m), k, p)
  {
    hide StepLanes, RowOf;
    if i + 1 < m {
      Held(commits, i, m - 1, k, p);
      Survives(LanesAt(commits, m - 1), commits[m - 1], 0, k, p);
    }
  }

  /** A column that waits for `p` from row `i` on is one line to `p`'s next row. */
  lemma LineOf(commits: seq<Commit>, maxLanes: nat, i: nat, j: nat, p: Id, k: nat)
    requires Edge(commits, i, j, p)
    requires StartsIn(RowOf(LanesAt(commits, i), commits[i], maxLanes), k)
    requires Awaits(LanesAt(commits, i + 1), k, p)
    ensures Line(Rows(commits, |commits|, maxLanes), i, j, k)
    ensures Rows(commits, |commits|, maxLanes)[j].lane <= k
  {
    hide StepLanes, RowOf;
    var rows := Rows(commits, |commits|, maxLanes);
    RowAt(commits, |commits|, maxLanes, i);
    RowAt(commits, |commits|, maxLanes, j);
    forall m | i < m < j ensures k in rows[m].through {
      RowAt(commits, |commits|, maxLanes, m);
      Held(commits, i, m, k, p);
      Survives(LanesAt(commits, m), commits[m], maxLanes, k, p);
    }
    Held(commits, i, j, k, p);
    Arrives(LanesAt(commits, j), commits[j], maxLanes, k);
  }

  /** Every parent edge is one unbroken column from the child's row to the parent's
      next row. */
  lemma EdgeIsUnbroken(commits: seq<Commit>, maxLanes: nat, i: nat, j: nat, p: Id) returns (k: nat)
    requires Edge(commits, i, j, p)
    ensures Line(Rows(commits, |commits|, maxLanes), i, j, k)
  {
    hide StepLanes, RowOf;
    k := Departs(LanesAt(commits, i), commits[i], maxLanes, p);
    LineOf(commits, maxLanes, i, j, p, k);
  }

  /** A first parent's line is the child's own column, and its node is never to the
      right of the child's. */
  lemma FirstParentNeverDriftsRight(commits: seq<Commit>, maxLanes: nat, i: nat, j: nat)
    requires i < j < |commits| && commits[i].parents != []
    requires Edge(commits, i, j, commits[i].parents[0])
    ensures var rows := Rows(commits, |commits|, maxLanes);
            Line(rows, i, j, rows[i].lane) && rows[j].lane <= rows[i].lane
  {
    hide StepLanes, RowOf;
    var k := Departs(LanesAt(commits, i), commits[i], maxLanes, commits[i].parents[0]);
    RowAt(commits, |commits|, maxLanes, i);
    LineOf(commits, maxLanes, i, j, commits[i].parents[0], k);
  }

  // ------------------------------------------------------------- no phantom lines

  /** A lane that awaits a commit below a row awaited it above, or was given to it here. */
  lemma StepOrigin(lanes: seq<Lane>, c: Commit, maxLanes: nat, k: nat, p: Id)
    requires Awaits(StepLanes(lanes, c), k, p)
    ensures || (Awaits(lanes, k, p) && p != c.id)
            || (p in c.parents && StartsIn(RowOf(lanes, c, maxLanes), k))
  {
    var placed := AfterNode(lanes, c);
    var all := ForkLanes(placed, Rest(c.parents));
    ForksOpen(placed, Rest(c.parents));
    assert Awaits(all, k, p);
    hide ForkLanes, ForkColumns, Waiting, Passing, Merged, Trim, Width, FirstIndex, NodeLane;
    assert Open(all, k);
    assert k < |placed| && placed[k].Some? ==> Awaits(placed, k, placed[k].value);
  }

  /** Row `i` sends column `k` down to its parent `p`, which no row above row `n` lists; the
      column passes every row between. */
  ghost predicate SentDown(commits: seq<Commit>, rows: seq<GraphRow>, i: nat, n: nat, k: nat, p: Id)
    requires n <= |commits| && |rows| == |commits|
  {
    NamedAndUnlisted(commits, i, n, p) && StartsIn(rows[i], k) && forall m :: i < m < n ==> k in rows[m].through
  }

  /** A lane that awaits a commit was sent down by a commit above that names it. */
  lemma {:induction false} LaneIsSent(commits: seq<Commit>, maxLanes: nat, n: nat, k: nat, p: Id) returns (i: nat)
    requires n <= |commits| && Awaits(LanesAt(commits, n), k, p)
    ensures SentDown(commits, Rows(commits, |commits|, maxLanes), i, n, k, p)
  {
    hide StepLanes, RowOf;
    var lanes, c := LanesAt(commits, n - 1), commits[n - 1];
    StepOrigin(lanes, c, maxLanes, k, p);
    RowAt(commits, |commits|, maxLanes, n - 1);
    if Awaits(lanes, k, p) && p != c.id {
      i := LaneIsSent(commits, maxLanes, n - 1, k, p);
      Survives(lanes, c, maxLanes, k, p);
    } else {
      i := n - 1;
    }
  }

  /** No line is drawn that no commit sent: every column that passes a row or merges in it
      was sent down by a commit above to a parent not listed in between, which for a merging
      column is the row's own commit. */
  lemma EveryLineWasSent(commits: seq<Commit>, maxLanes: nat, j: nat, k: nat) returns (i: nat, p: Id)
    requires j < |commits|
    requires var row := Rows(commits, |commits|, maxLanes)[j]; k in row.through || k in row.merged
    ensures SentDown(commits, Rows(commits, |commits|, maxLanes), i, j, k, p)
    ensures k in Rows(commits, |commits|, maxLanes)[j].merged ==> p == commits[j].id
    ensures k in Rows(commits, |commits|, maxLanes)[j].through ==> p != commits[j].id
  {
    RowAt(commits, |commits|, maxLanes, j);
    hide StepLanes, Rows, LanesAt;
    var lanes := LanesAt(commits, j);
    MergedColumns(lanes, commits[j].id);
    p := lanes[k].value;
    i := LaneIsSent(commits, maxLanes, j, k, p);
  }

  /** As many columns fork at a row as its commit has parents after the first. */
  lemma ForksAreParents(commits: seq<Commit>, maxLanes: nat, i: nat)
    requires i < |commits|
    ensures |Rows(commits, |commits|, maxLanes)[i].forked| == |Rest(commits[i].parents)|
  {
    hide StepLanes;
    RowAt(commits, |commits|, maxLanes, i);
  }

  // ------------------------------------------------------------ the lane frontier

  /** The ids awaited below row `n` are exactly those named and not listed since. */
  lemma {:induction false} FrontierIsPending(commits: seq<Commit>, n: nat, p: Id)
    requires n <= |commits|
    ensures Awaited(LanesAt(commits, n), p) <==> Pending(commits, n, p)
  {
    hide StepLanes, RowOf;
    if n > 0 {
      var c := commits[n - 1];
      FrontierIsPending(commits, n - 1, p);
      StepAwaits(LanesAt(commits, n - 1), c, p);
      if p in c.parents {
        assert NamedAndUnlisted(commits, n - 1, n, p);
      } else {
        if Pending(commits, n - 1, p) {
          var i: nat :| NamedAndUnlisted(commits, i, n - 1, p);
          assert p != c.id ==> NamedAndUnlisted(commits, i, n, p);
        }
        if i: nat :| NamedAndUnlisted(commits, i, n, p) {
          assert NamedAndUnlisted(commits, i, n - 1, p);
        }
      }
    }
  }

  /** No commit is listed below one of its own parents. */
  ghost predicate Topological(commits: seq<Commit>) {
    forall i, j :: 0 <= j <= i < |commits| ==> commits[j].id !in commits[i].parents
  }

  /** On a topologically ordered page the frontier is the parents seen but not listed. */
  lemma TopologicalFrontier(commits: seq<Commit>, n: nat, p: Id)
    requires n <= |commits| && Topological(commits)
    ensures Awaited(LanesAt(commits, n), p) <==>
              (exists i :: 0 <= i < n && p in commits[i].parents) && (forall j :: 0 <= j < n ==> commits[j].id != p)
  {
    FrontierIsPending(commits, n, p);
    if i: nat :| i < n && p in commits[i].parents && forall j :: 0 <= j < n ==> commits[j].id != p {
      assert NamedAndUnlisted(commits, i, n, p);
    }
    if Pending(commits, n, p) {
      var i: nat :| NamedAndUnlisted(commits, i, n, p);
      forall j | 0 <= j < n ensures commits[j].id != p {
        if j <= i { assert commits[j].id !in commits[i].parents; }
      }
    }
  }

  /** Every parent named on the page is listed further down it. */
  ghost predicate Closed(commits: seq<Commit>) {
    forall i, p :: 0 <= i < |commits| && p in commits[i].parents ==>
      exists j :: i < j < |commits| && commits[j].id == p
  }

  /** Lanes left at the bottom of a page are exactly the parents it does not reach:
      none stays open after a closed history, and any page that is not closed leaves one. */
  lemma NoLaneOutlivesAClosedHistory(commits: seq<Commit>)
    ensures Closed(commits) <==> LanesAt(commits, |commits|) == []
  {
    hide StepLanes, RowOf;
    var lanes := LanesAt(commits, |commits|);
    if lanes != [] {
      LastLaneIsOpen(commits, |commits|);
      var p := lanes[|lanes| - 1].value;
      assert Awaits(lanes, |lanes| - 1, p);
      FrontierIsPending(commits, |commits|, p);
      assert exists i :: 0 <= i < |commits| && p in commits[i].parents
               && forall j :: i < j < |commits| ==> commits[j].id != p;
    }
    if i, p :| 0 <= i < |commits| && p in commits[i].parents && forall j :: i < j < |commits| ==> commits[j].id != p {
      assert NamedAndUnlisted(commits, i, |commits|, p);
      FrontierIsPending(commits, |commits|, p);
      assert lanes != [];
    }
  }

  /** The rightmost lane is never a closed one. */
  lemma LastLaneIsOpen(commits: seq<Commit>, n: nat)
    requires n <= |commits|
    ensures var lanes := LanesAt(commits, n); lanes != [] ==> Open(lanes, |lanes| - 1)
  {
  }

  // --------------------------------------------------- columns from row to row

  /** The columns drawn out of the bottom of a row. */
  predicate Leaves(row: GraphRow, c: Commit, k: nat) {
    k in row.through || k in row.forked || (k == row.lane && c.parents != [])
  }

  /** The columns drawn into the top of a row; `met` says a line reaches its node. */
  predicate Enters(row: GraphRow, met: bool, k: nat) {
    k in row.through || k in row.merged || (k == row.lane && met)
  }

  lemma LeavesOpen(lanes: seq<Lane>, c: Commit, maxLanes: nat, k: nat)
    ensures Leaves(RowOf(lanes, c, maxLanes), c, k) <==> Open(StepLanes(lanes, c), k)
  {
    var placed := AfterNode(lanes, c);
    ForksOpen(placed, Rest(c.parents));
    assert Open(placed, k) <==>
           k in Passing(lanes, c.id, NodeLane(lanes, c.id)) || (k == NodeLane(lanes, c.id) && c.parents != []);
  }

  lemma EntersOpen(lanes: seq<Lane>, c: Commit, maxLanes: nat, k: nat)
    ensures Enters(RowOf(lanes, c, maxLanes), Awaited(lanes, c.id), k) <==> Open(lanes, k)
  {
    MergedColumns(lanes, c.id);
    if Open(lanes, k) && lanes[k] == Some(c.id) { assert Awaits(lanes, k, c.id); }
  }

  /** The columns leaving a row are the columns entering the next, where a line reaches
      the next node exactly when some commit above is pending on it. */
  lemma ColumnsAreContinuous(commits: seq<Commit>, maxLanes: nat, i: nat, k: nat)
    requires i + 1 < |commits|
    ensures var rows := Rows(commits, |commits|, maxLanes);
            Leaves(rows[i], commits[i], k) <==>
            Enters(rows[i + 1], Pending(commits, i + 1, commits[i + 1].id), k)
  {
    hide StepLanes, RowOf;
    RowAt(commits, |commits|, maxLanes, i);
    RowAt(commits, |commits|, maxLanes, i + 1);
    LeavesOpen(LanesAt(commits, i), commits[i], maxLanes, k);
    EntersOpen(LanesAt(commits, i + 1), commits[i + 1], maxLanes, k);
    FrontierIsPending(commits, i + 1, commits[i + 1].id);
  }

  /** Within a row the node, the passing columns and the merging columns are distinct,
      each list runs left to right, and the node is left of everything that merges. */
  lemma RowColumnsAreDistinct(commits: seq<Commit>, maxLanes: nat, i: nat)
    requires i < |commits|
    ensures var row := Rows(commits, |commits|, maxLanes)[i];
            && Ascending(row.through) && Ascending(row.merged)
            && row.lane !in row.through
            && (forall k :: k in row.merged ==> row.lane < k && k !in row.through)
  {
    RowAt(commits, |commits|, maxLanes, i);
    MergedColumns(LanesAt(commits, i), commits[i].id);
  }

  // ---------------------------------------------------------- no wider than it must be

  /** The fork for parent `n` joins a column that is already drawn on exactly when that parent
      is awaited already, and otherwise opens the leftmost column that nothing leaves the row in. */
  ghost predicate ForkedWell(row: GraphRow, c: Commit, n: nat, pending: bool)
    requires 0 < n < |c.parents| && n <= |row.forked|
  {
    var k, p := row.forked[n - 1], c.parents[n];
    var joins := k == row.lane || k in row.through || k in row.forked[..n - 1];
    && (joins <==> (pending && p != c.id) || p in c.parents[..n])
    && (!joins ==> forall h: nat :: h < k ==> Leaves(row, c, h))
  }

  lemma {:induction false} ForkColumnAt(lanes: seq<Lane>, ps: seq<Id>, m: nat)
    requires m < |ps|
    ensures ForkColumns(lanes, ps)[m] == ForkColumn(ForkLanes(lanes, ps[..m]), ps[m])
    ensures ForkColumns(lanes, ps)[..m] == ForkColumns(lanes, ps[..m])
  {
    hide ForkColumn, ForkLanes;
    var last := |ps| - 1;
    if m < last {
      ForkColumnAt(lanes, ps[..last], m);
      assert ps[..last][..m] == ps[..m];
    }
  }

  /** Lanes once open for some parents stay open for the rest. */
  lemma {:induction false} ForkLanesStay(lanes: seq<Lane>, ps: seq<Id>, m: nat, k: nat)
    requires m <= |ps| && Open(ForkLanes(lanes, ps[..m]), k)
    ensures Open(ForkLanes(lanes, ps), k)
  {
    hide ForkColumn;
    if m < |ps| {
      ForkLanesStay(lanes, ps[..|ps| - 1], m, k) by { assert ps[..|ps| - 1][..m] == ps[..m]; }
    } else {
      assert ps[..m] == ps;
    }
  }

  lemma ForkColumnIs(held: seq<Lane>, p: Id)
    ensures var k := ForkColumn(held, p);
            if Awaited(held, p) then Awaits(held, k, p) else !Open(held, k) && forall h: nat :: h < k ==> Open(held, h)
  {
    var have := FirstIndex(held, Some(p));
    assert have < |held| ==> Awaits(held, have, p);
    if k: nat :| Awaits(held, k, p) { assert held[k] == Some(p); }
  }

  lemma PlacedAwaits(lanes: seq<Lane>, c: Commit, p: Id)
    requires c.parents != []
    ensures Awaited(AfterNode(lanes, c), p) <==> p == c.parents[0] || (Awaited(lanes, p) && p != c.id)
  {
    var placed, lane := AfterNode(lanes, c), NodeLane(lanes, c.id);
    assert Awaits(placed, lane, c.parents[0]);
    if k: nat :| Awaits(lanes, k, p) && p != c.id {
      if Awaited(lanes, c.id) { assert Awaits(lanes, lane, c.id); }
      assert k != lane || !Open(lanes, lane);
      assert Awaits(placed, k, p) || k == lane;
    }
    if k: nat :| Awaits(placed, k, p) { assert k == lane || Awaits(lanes, k, p); }
  }

  lemma PlacedOpen(lanes: seq<Lane>, c: Commit, k: nat)
    requires c.parents != []
    ensures var lane := NodeLane(lanes, c.id);
            Open(AfterNode(lanes, c), k) <==> k in Passing(lanes, c.id, lane) || k == lane
  {
  }

  /** What is awaited once some forks are open. */
  lemma ForkedAwaits(placed: seq<Lane>, ps: seq<Id>, p: Id)
    ensures Awaited(ForkLanes(placed, ps), p) <==> Awaited(placed, p) || p in ps
  {
    ForksOpen(placed, ps);
    if k: nat :| Awaits(placed, k, p) { assert Awaits(ForkLanes(placed, ps), k, p); }
  }

  /** The column of fork `m` is open before it is drawn exactly when its parent is awaited
      there; otherwise every column left of it is. */
  lemma ForkIsLeftmost(placed: seq<Lane>, ps: seq<Id>, m: nat)
    requires m < |ps|
    ensures var k := ForkColumns(placed, ps)[m];
            && (Open(placed, k) || k in ForkColumns(placed, ps)[..m] <==> Awaited(placed, ps[m]) || ps[m] in ps[..m])
            && (!Awaited(placed, ps[m]) && ps[m] !in ps[..m] ==>
                  forall h: nat :: h < k ==> Open(ForkLanes(placed, ps), h))
  {
    hide ForkColumn, ForkColumns, ForkLanes, Awaited;
    var held := ForkLanes(placed, ps[..m]);
    ForkColumnAt(placed, ps, m);
    ForksOpen(placed, ps[..m]);
    ForkedAwaits(placed, ps[..m], ps[m]);
    ForkColumnIs(held, ps[m]);
    forall h: nat | Open(held, h) ensures Open(ForkLanes(placed, ps), h) { ForkLanesStay(placed, ps, m, h); }
  }

  lemma ForkPlaces(lanes: seq<Lane>, c: Commit, maxLanes: nat, n: nat)
    requires 0 < n < |c.parents|
    ensures var row := RowOf(lanes, c, maxLanes);
            |row.forked| == |c.parents| - 1 && ForkedWell(row, c, n, Awaited(lanes, c.parents[n]))
  {
    var rest, placed, p := Rest(c.parents), AfterNode(lanes, c), c.parents[n];
    var row := RowOf(lanes, c, maxLanes);
    RowColumns(lanes, c, maxLanes);
    assert c.parents[..n] == [c.parents[0]] + rest[..n - 1] && rest[n - 1] == p;
    hide RowOf, ForkColumns, ForkLanes, AfterNode, NodeLane, Passing, Awaited, Leaves, Open, Rest;
    ForkIsLeftmost(placed, rest, n - 1);
    PlacedAwaits(lanes, c, p);
    PlacedOpen(lanes, c, row.forked[n - 1]);
    forall h: nat | Open(ForkLanes(placed, rest), h) ensures Leaves(row, c, h) {
      LeavesWhereForked(lanes, c, maxLanes, h);
    }
  }

  lemma RowColumns(lanes: seq<Lane>, c: Commit, maxLanes: nat)
    ensures var row := RowOf(lanes, c, maxLanes);
            && row.lane == NodeLane(lanes, c.id) && row.through == Passing(lanes, c.id, row.lane)
            && row.forked == ForkColumns(AfterNode(lanes, c), Rest(c.parents))
  {
    hide NodeLane, Passing, ForkColumns, AfterNode, Merged, Width, Rest;
  }

  lemma LeavesWhereForked(lanes: seq<Lane>, c: Commit, maxLanes: nat, h: nat)
    requires Open(ForkLanes(AfterNode(lanes, c), Rest(c.parents)), h)
    ensures Leaves(RowOf(lanes, c, maxLanes), c, h)
  {
    hide RowOf, ForkLanes, AfterNode, Rest, Leaves;
    LeavesOpen(lanes, c, maxLanes, h);
  }

  /** A commit that nothing above names takes the leftmost free column, and one that joins a
      line its leftmost. */
  lemma NodeIsLeftmost(lanes: seq<Lane>, c: Commit, maxLanes: nat, k: nat)
    requires !Awaited(lanes, c.id) && k < RowOf(lanes, c, maxLanes).lane
    ensures k in RowOf(lanes, c, maxLanes).through
  {
    assert Open(lanes, k) && !Awaits(lanes, k, c.id);
    hide ForkColumns, Merged, Width, AfterNode;
  }

  /** The lanes a page needs: a commit that no commit above is pending on has lines in all
      columns left of it, and forks join or open as `ForkedWell` says. */
  ghost predicate Packed(row: GraphRow, commits: seq<Commit>, i: nat)
    requires i < |commits|
  {
    var c := commits[i];
    && (!Pending(commits, i, c.id) ==> forall k: nat :: k < row.lane ==> k in row.through)
    && |row.forked| == |Rest(c.parents)|
    && forall n :: 0 < n < |c.parents| ==> ForkedWell(row, c, n, Pending(commits, i, c.parents[n]))
  }

  lemma RowsArePacked(commits: seq<Commit>, maxLanes: nat, i: nat)
    requires i < |commits|
    ensures Packed(Rows(commits, |commits|, maxLanes)[i], commits, i)
  {
    hide StepLanes, RowOf, ForkedWell;
    var c, lanes := commits[i], LanesAt(commits, i);
    var row := RowOf(lanes, c, maxLanes);
    RowAt(commits, |commits|, maxLanes, i);
    ForksAreParents(commits, maxLanes, i);
    FrontierIsPending(commits, i, c.id);
    if !Pending(commits, i, c.id) {
      forall k: nat | k < row.lane ensures k in row.through { NodeIsLeftmost(lanes, c, maxLanes, k); }
    }
    forall n | 0 < n < |c.parents| ensures ForkedWell(row, c, n, Pending(commits, i, c.parents[n])) {
      FrontierIsPending(commits, i, c.parents[n]);
      ForkPlaces(lanes, c, maxLanes, n);
    }
  }

  // ------------------------------------------------------------------ the drawing

  predicate IsMark(ch: char) { ch in "●◆╯╮│" }

  /** A cell is a node, a corner or a line exactly on the columns the row draws in; the
      horizontal run lies strictly between the node and its outermost corner. */
  lemma MarksAreColumns(row: GraphRow, maxLanes: nat, k: nat)
    ensures var cells := Cells(row, maxLanes);
            && (InColumns(row, k) && k < maxLanes ==> k < |cells|)
            && (k < |cells| ==> (IsMark(cells[k]) <==> InColumns(row, k)))
            && (k < |cells| && cells[k] == '─' ==>
                  exists a: nat, b: nat ::
                    (StartsIn(row, a) || EndsIn(row, a)) && (StartsIn(row, b) || EndsIn(row, b)) && a < k < b)
  {
    var a, b := Near(row), MaxOf(row.forked, MaxOf(row.merged, row.lane));
    assert (StartsIn(row, a) || EndsIn(row, a)) && (StartsIn(row, b) || EndsIn(row, b));
  }

  /** Every parent edge that fits the drawing is one column of line and corner marks
      between two nodes or corners: no blank and no horizontal run interrupts it. */
  lemma DrawnEdgeIsUnbroken(commits: seq<Commit>, maxLanes: nat, i: nat, j: nat, p: Id) returns (k: nat)
    requires Edge(commits, i, j, p)
    ensures var rows := Rows(commits, |commits|, maxLanes);
            Line(rows, i, j, k)
    ensures var rows := Rows(commits, |commits|, maxLanes);
            k < maxLanes ==> forall m :: i <= m <= j ==>
              var cells := Cells(rows[m], maxLanes);
              && k < |cells|
              && (if m == i then cells[k] in "●◆╯╮" else if m == j then cells[k] in "●◆╯" else cells[k] in "│╮")
  {
    hide RowOf, LanesAt, Rows;
    var rows := Rows(commits, |commits|, maxLanes);
    k := EdgeIsUnbroken(commits, maxLanes, i, j, p);
    if k < maxLanes {
      forall m | i <= m <= j
        ensures var cells := Cells(rows[m], maxLanes);
                && k < |cells|
                && (if m == i then cells[k] in "●◆╯╮" else if m == j then cells[k] in "●◆╯" else cells[k] in "│╮")
      {
        MarksAreColumns(rows[m], maxLanes, k);
        RowColumnsAreDistinct(commits, maxLanes, m);
      }
    }
  }

  lemma OverflowIsWidth(lanes: seq<Lane>, c: Commit, maxLanes: nat)
    ensures RowOf(lanes, c, maxLanes).overflow <==> Width(RowOf(lanes, c, maxLanes)) > maxLanes
  {
    hide NodeLane, Passing, Merged, ForkColumns, AfterNode;
  }

  lemma CutColumns(row: GraphRow, maxLanes: nat)
    ensures |Cells(row, maxLanes)| <= maxLanes
    ensures Width(row) > maxLanes <==> exists k: nat :: InColumns(row, k) && k >= |Cells(row, maxLanes)|
  {
    hide Cell;
    assert InColumns(row, Width(row) - 1);
  }

  /** A drawn row never exceeds the limit, and says so exactly when columns were cut. */
  lemma OverflowIsReported(commits: seq<Commit>, maxLanes: nat, i: nat)
    requires i < |commits|
    ensures var row := Rows(commits, |commits|, maxLanes)[i];
            && |Cells(row, maxLanes)| <= maxLanes
            && (row.overflow <==> exists k: nat :: InColumns(row, k) && k >= |Cells(row, maxLanes)|)
  {
    hide *;
    RowAt(commits, |commits|, maxLanes, i);
    OverflowIsWidth(LanesAt(commits, i), commits[i], maxLanes);
    CutColumns(Rows(commits, |commits|, maxLanes)[i], maxLanes);
  }

  /** Column `k` of the drawing runs from the node or corner at row `i` to the one at row
      `j` through line and corner marks only. */
  ghost predicate DrawnLine(text: seq<string>, i: nat, j: nat, k: nat)
    requires i < j < |text|
  {
    && (forall m :: i <= m <= j ==> k < |text[m]|)
    && text[i][k] in "●◆╯╮"
    && (forall m :: i < m < j ==> text[m][k] in "│╮")
    && text[j][k] in "●◆╯"
  }

  /** The text shows the columns of the row below the limit, each with its own mark, and ends
      in an ellipsis exactly when some are cut. */
  ghost predicate TextOf(row: GraphRow, c: Commit, maxLanes: nat, s: string) {
    var n := if row.overflow then |s| - 1 else |s|;
    && (row.merge <==> |c.parents| > 1)
    && 0 <= n <= maxLanes && s[n..] == (if row.overflow then "…" else "")
    && (row.overflow <==> exists k: nat :: InColumns(row, k) && k >= n)
    && forall k :: 0 <= k < n ==> (IsMark(s[k]) <==> InColumns(row, k)) && Shows(row, maxLanes, k, s[k])
  }

  lemma MergeIsTold(commits: seq<Commit>, maxLanes: nat, i: nat)
    requires i < |commits|
    ensures Rows(commits, |commits|, maxLanes)[i].merge == (|commits[i].parents| > 1)
  {
    hide StepLanes, NodeLane, Passing, Merged, ForkColumns, Width, AfterNode;
    RowAt(commits, |commits|, maxLanes, i);
  }

  lemma TextShows(commits: seq<Commit>, maxLanes: nat, i: nat, s: string)
    requires i < |commits|
    requires var row := Rows(commits, |commits|, maxLanes)[i];
             s == Cells(row, maxLanes) + if row.overflow then "…" else ""
    ensures TextOf(Rows(commits, |commits|, maxLanes)[i], commits[i], maxLanes, s)
  {
    hide Rows, InColumns, IsMark, Shows, Cell, Width;
    OverflowIsReported(commits, maxLanes, i);
    RowColumnsAreDistinct(commits, maxLanes, i);
    MergeIsTold(commits, maxLanes, i);
    var row := Rows(commits, |commits|, maxLanes)[i];
    forall k | 0 <= k < |Cells(row, maxLanes)|
      ensures (IsMark(s[k]) <==> InColumns(row, k)) && Shows(row, maxLanes, k, s[k])
    {
      MarksAreColumns(row, maxLanes, k);
      CellShows(row, maxLanes, k);
    }
  }

  /** A page of history, drawn: the rows, and the glyphs of each.  Whatever the page, every
      edge from a commit to a parent's next row is one unbroken line, in the rows and, where
      the limit admits its column, in the text; every passing and merging column was sent down
      by a commit above that names a parent not listed since; the columns out of each row are
      the columns into the next; no row takes a column while one further left is free; and the
      text shows the columns of its row that fit, each with its own mark. */
  method Drawn(commits: seq<Commit>, maxLanes: nat) returns (rows: seq<GraphRow>, text: seq<string>)
    ensures |rows| == |text| == |commits|
    ensures forall i, j, p :: 0 <= i && 0 <= j && Edge(commits, i, j, p) ==>
              exists k: nat :: Line(rows, i, j, k) && (k < maxLanes ==> DrawnLine(text, i, j, k))
    ensures forall i, k: nat :: 0 <= i < |commits| - 1 ==>
              (Leaves(rows[i], commits[i], k) <==>
               Enters(rows[i + 1], Pending(commits, i + 1, commits[i + 1].id), k))
    ensures forall j, k: nat :: 0 <= j < |commits| && (k in rows[j].through || k in rows[j].merged) ==>
              exists i: nat, p :: SentDown(commits, rows, i, j, k, p) && (k in rows[j].merged <==> p == commits[j].id)
    ensures forall i :: 0 <= i < |commits| ==>
              && Packed(rows[i], commits, i)
              && TextOf(rows[i], commits[i], maxLanes, text[i])
  {
    rows := GraphRows(commits, maxLanes);
    hide Rows;
    text := [];
    for i := 0 to |rows|
      invariant |text| == i
      invariant forall m :: 0 <= m < i ==> text[m] == Cells(rows[m], maxLanes) + if rows[m].overflow then "…" else ""
    {
      var s := Glyphs(rows[i], maxLanes);
      text := text + [s];
    }
    forall i, j, p | 0 <= i && 0 <= j && Edge(commits, i, j, p)
      ensures exists k: nat :: Line(rows, i, j, k) && (k < maxLanes ==> DrawnLine(text, i, j, k))
    {
      var k := DrawnEdgeIsUnbroken(commits, maxLanes, i, j, p);
    }
    forall i, k: nat | 0 <= i < |commits| - 1
      ensures Leaves(rows[i], commits[i], k) <==>
              Enters(rows[i + 1], Pending(commits, i + 1, commits[i + 1].id), k)
    {
      ColumnsAreContinuous(commits, maxLanes, i, k);
    }
    forall j, k: nat | 0 <= j < |commits| && (k in rows[j].through || k in rows[j].merged)
      ensures exists i: nat, p :: SentDown(commits, rows, i, j, k, p) && (k in rows[j].merged <==> p == commits[j].id)
    {
      var i, p := EveryLineWasSent(commits, maxLanes, j, k);
      RowColumnsAreDistinct(commits, maxLanes, j);
    }
    forall i | 0 <= i < |commits|
      ensures Packed(rows[i], commits, i) && TextOf(rows[i], commits[i], maxLanes, text[i])
    {
      RowsArePacked(commits, maxLanes, i);
      TextShows(commits, maxLanes, i, text[i]);
    }
  }
}
