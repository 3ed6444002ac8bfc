/**
 One window: a split tree with a focused pane and perhaps a zoomed one.

 `Window` updates its fields in place as the source does; each method's new state
 is a function of the old one, and the run theorem is about those functions.
 */
module Window {
  import opened Base
  import opened Layout
  import opened LayoutTree

  // ------------------------------------------------------------------- neighbours

  function Overlap(a0: nat, a1: nat, b0: nat, b1: nat): nat {
    var lo, hi := if a0 > b0 then a0 else b0, if a1 < b1 then a1 else b1;
    if hi > lo then hi - lo else 0
  }

  function VOverlap(a: Rect, b: Rect): nat { Overlap(a.y, a.Bottom(), b.y, b.Bottom()) }

  function HOverlap(a: Rect, b: Rect): nat { Overlap(a.x, a.Right(), b.x, b.Right()) }

  predicate InRows(r: Rect, y: nat) { r.y <= y < r.Bottom() }

  predicate InColumns(r: Rect, x: nat) { r.x <= x < r.Right() }

  lemma {:induction false} IntervalSize(lo: nat, hi: nat, s: set<nat>)
    requires forall y :: y in s <==> lo <= y < hi
    ensures |s| == if lo < hi then hi - lo else 0
    decreases hi
  {
    if lo < hi { IntervalSize(lo, hi - 1, s - {hi - 1}); } else { assert s == {}; }
  }

  /** Two rectangles overlap by as many rows, and columns, as both have. */
  lemma OverlapIsShared(a: Rect, b: Rect)
    ensures VOverlap(a, b) == |set y: nat | y < a.Bottom() && InRows(a, y) && InRows(b, y)|
    ensures HOverlap(a, b) == |set x: nat | x < a.Right() && InColumns(a, x) && InColumns(b, x)|
  {
    IntervalSize(Most(a.y, b.y), Least(a.Bottom(), b.Bottom()),
                 set y: nat | y < a.Bottom() && InRows(a, y) && InRows(b, y));
    IntervalSize(Most(a.x, b.x), Least(a.Right(), b.Right()),
                 set x: nat | x < a.Right() && InColumns(a, x) && InColumns(b, x));
  }

  /** `r` lies wholly on the `dir` side of `fr` and shares some of that edge. */
  predicate Beside(r: Rect, fr: Rect, dir: Dir) {
    match dir
    case Left => r.Right() <= fr.x && VOverlap(r, fr) > 0
    case Right => r.x >= fr.Right() && VOverlap(r, fr) > 0
    case Up => r.Bottom() <= fr.y && HOverlap(r, fr) > 0
    case Down => r.y >= fr.Bottom() && HOverlap(r, fr) > 0
  }

  function Gap(r: Rect, fr: Rect, dir: Dir): nat
    requires Beside(r, fr, dir)
  {
    match dir
    case Left => fr.x - r.Right()
    case Right => r.x - fr.Right()
    case Up => fr.y - r.Bottom()
    case Down => r.y - fr.Bottom()
  }

  function SharedEdge(r: Rect, fr: Rect, dir: Dir): nat {
    if dir.Left? || dir.Right? then VOverlap(r, fr) else HOverlap(r, fr)
  }

  /** Closest first; among equally close, the longest shared edge. */
  predicate Nearer(r: Rect, s: Rect, fr: Rect, dir: Dir)
    requires Beside(r, fr, dir) && Beside(s, fr, dir)
  {
    || Gap(r, fr, dir) < Gap(s, fr, dir)
    || (Gap(r, fr, dir) == Gap(s, fr, dir) && SharedEdge(r, fr, dir) > SharedEdge(s, fr, dir))
  }

  predicate Candidate(r: (PaneId, Rect), from: PaneId, fr: Rect, dir: Dir) {
    r.0 != from && Beside(r.1, fr, dir)
  }

  function IndexOf(rs: seq<(PaneId, Rect)>, id: PaneId): (k: nat)
    ensures k <= |rs|
    ensures k < |rs| ==> rs[k].0 == id
    ensures forall i :: 0 <= i < k ==> rs[i].0 != id
  {
    if rs == [] || rs[0].0 == id then 0 else 1 + IndexOf(rs[1..], id)
  }

  /** The first of the nearest candidates, or the length when there is none. */
  function Best(rs: seq<(PaneId, Rect)>, n: nat, from: PaneId, fr: Rect, dir: Dir): (k: nat)
    requires n <= |rs|
    ensures k <= |rs|
    ensures k < |rs| ==> k < n && Candidate(rs[k], from, fr, dir)
    ensures forall i :: 0 <= i < n && Candidate(rs[i], from, fr, dir) ==>
              k < |rs| && !Nearer(rs[i].1, rs[k].1, fr, dir) && (i < k ==> Nearer(rs[k].1, rs[i].1, fr, dir))
  {
    if n == 0 then |rs|
    else
      var b := Best(rs, n - 1, from, fr, dir);
      if !Candidate(rs[n - 1], from, fr, dir) then b
      else if b == |rs| || Nearer(rs[n - 1].1, rs[b].1, fr, dir) then n - 1
      else b
  }

  function Neighbor(t: LayoutNode, from: PaneId, dir: Dir, area: Rect): Option<PaneId> {
    var rs := Rects(t, area);
    var f := IndexOf(rs, from);
    if f == |rs| then None
    else
      var k := Best(rs, |rs|, from, rs[f].1, dir);
      if k == |rs| then None else Some(rs[k].0)
  }

  lemma {:induction false} RectsFollowPanes(t: LayoutNode, area: Rect)
    ensures |Rects(t, area)| == |Panes(t)|
    ensures forall i :: 0 <= i < |Panes(t)| ==> Rects(t, area)[i].0 == Panes(t)[i]
  {
    if t.Split? {
      var (a, b) := SplitArea(area, t.dir, t.ratio);
      RectsFollowPanes(t.first, a);
      RectsFollowPanes(t.second, b);
    }
  }

  /** Where a pane of a tree with distinct panes is drawn. */
  ghost function RectOf(t: LayoutNode, id: PaneId, area: Rect): Rect
    requires HasPane(t, id)
  {
    RectsFollowPanes(t, area);
    Rects(t, area)[IndexOf(Rects(t, area), id)].1
  }

  /** The neighbour is another pane beside this one, nearest among all of them; and there
      is one exactly when some pane lies on that side. */
  lemma NeighborIsNearest(t: LayoutNode, from: PaneId, dir: Dir, area: Rect)
    requires Distinct(Panes(t)) && HasPane(t, from)
    ensures var fr := RectOf(t, from, area);
            match Neighbor(t, from, dir, area)
            case None => forall id :: HasPane(t, id) && id != from ==> !Beside(RectOf(t, id, area), fr, dir)
            case Some(to) =>
              && to != from && HasPane(t, to) && Beside(RectOf(t, to, area), fr, dir)
              && forall id :: HasPane(t, id) && id != from && Beside(RectOf(t, id, area), fr, dir) ==>
                   !Nearer(RectOf(t, id, area), RectOf(t, to, area), fr, dir)
  {
    var rs := Rects(t, area);
    RectsFollowPanes(t, area);
    var k := Best(rs, |rs|, from, RectOf(t, from, area), dir);
    if k < |rs| {
      assert rs[k].0 in Panes(t) by { assert Panes(t)[k] == rs[k].0; }
      assert IndexOf(rs, rs[k].0) == k;
    }
    forall id | HasPane(t, id) && id != from && Beside(RectOf(t, id, area), RectOf(t, from, area), dir)
      ensures k < |rs| && !Nearer(RectOf(t, id, area), rs[k].1, RectOf(t, from, area), dir)
    {
      assert Candidate(rs[IndexOf(rs, id)], from, RectOf(t, from, area), dir);
    }
  }

  /** Pane `k` in order is another pane beside `from` on that side; none is nearer, and those
      before it are further. */
  ghost predicate IsNearest(t: LayoutNode, from: PaneId, k: nat, dir: Dir, area: Rect)
    requires HasPane(t, from)
  {
    var fr, ps := RectOf(t, from, area), Panes(t);
    && k < |ps| && ps[k] != from && Beside(RectOf(t, ps[k], area), fr, dir)
    && forall i :: 0 <= i < |ps| && ps[i] != from && Beside(RectOf(t, ps[i], area), fr, dir) ==>
         && !Nearer(RectOf(t, ps[i], area), RectOf(t, ps[k], area), fr, dir)
         && (i < k ==> Nearer(RectOf(t, ps[k], area), RectOf(t, ps[i], area), fr, dir))
  }

  /** Some other pane lies on that side. */
  ghost predicate SomeBeside(t: LayoutNode, from: PaneId, dir: Dir, area: Rect)
    requires HasPane(t, from)
  {
    exists id :: HasPane(t, id) && id != from && Beside(RectOf(t, id, area), RectOf(t, from, area), dir)
  }

  lemma RectAt(t: LayoutNode, area: Rect, i: nat)
    requires Distinct(Panes(t)) && i < |Panes(t)|
    ensures |Rects(t, area)| == |Panes(t)| && RectOf(t, Panes(t)[i], area) == Rects(t, area)[i].1
  {
    RectsFollowPanes(t, area);
    assert Panes(t)[i] in Panes(t);
  }

  /** Where the chosen pane stands to another candidate. */
  lemma BestIsFirst(t: LayoutNode, from: PaneId, k: nat, i: nat, dir: Dir, area: Rect)
    requires Distinct(Panes(t)) && HasPane(t, from)
    requires var rs := Rects(t, area); k == Best(rs, |rs|, from, RectOf(t, from, area), dir) < |rs| == |Panes(t)|
    requires i < |Panes(t)| && Panes(t)[i] != from && HasPane(t, Panes(t)[i]) && HasPane(t, Panes(t)[k])
    requires Beside(RectOf(t, Panes(t)[i], area), RectOf(t, from, area), dir)
    ensures Beside(RectOf(t, Panes(t)[k], area), RectOf(t, from, area), dir) && Panes(t)[k] != from
    ensures var fr, r, best := RectOf(t, from, area), RectOf(t, Panes(t)[i], area), RectOf(t, Panes(t)[k], area);
            !Nearer(r, best, fr, dir) && (i < k ==> Nearer(best, r, fr, dir))
  {
    RectAt(t, area, i);
    RectAt(t, area, k);
    RectsFollowPanes(t, area);
    hide Beside, Nearer, Panes, Rects, RectOf, Distinct, HasPane, Best;
    assert Candidate(Rects(t, area)[i], from, RectOf(t, from, area), dir);
  }

  lemma BestIsNearest(t: LayoutNode, from: PaneId, k: nat, dir: Dir, area: Rect)
    requires Distinct(Panes(t)) && HasPane(t, from)
    requires var rs := Rects(t, area); k == Best(rs, |rs|, from, RectOf(t, from, area), dir) < |rs|
    ensures IsNearest(t, from, k, dir, area) && HasPane(t, Panes(t)[k])
  {
    hide *;
    var ps, fr := Panes(t), RectOf(t, from, area);
    RectsFollowPanes(t, area);
    forall i | 0 <= i < |ps| ensures HasPane(t, ps[i]) { assert ps[i] in ps; }
    BestIsCandidate(t, from, k, dir, area);
    forall i | 0 <= i < |ps| && ps[i] != from && Beside(RectOf(t, ps[i], area), fr, dir)
      ensures !Nearer(RectOf(t, ps[i], area), RectOf(t, ps[k], area), fr, dir)
      ensures i < k ==> Nearer(RectOf(t, ps[k], area), RectOf(t, ps[i], area), fr, dir)
    {
      BestIsFirst(t, from, k, i, dir, area);
    }
    NearestIs(t, from, k, dir, area);
  }

  lemma BestIsCandidate(t: LayoutNode, from: PaneId, k: nat, dir: Dir, area: Rect)
    requires Distinct(Panes(t)) && HasPane(t, from)
    requires var rs := Rects(t, area); k == Best(rs, |rs|, from, RectOf(t, from, area), dir) < |rs| == |Panes(t)|
    requires HasPane(t, Panes(t)[k])
    ensures Panes(t)[k] != from && Beside(RectOf(t, Panes(t)[k], area), RectOf(t, from, area), dir)
  {
    RectAt(t, area, k);
    RectsFollowPanes(t, area);
    hide Beside, Nearer, Panes, Rects, RectOf, Distinct, HasPane, Best;
    assert Candidate(Rects(t, area)[k], from, RectOf(t, from, area), dir);
  }

  lemma NearestIs(t: LayoutNode, from: PaneId, k: nat, dir: Dir, area: Rect)
    requires HasPane(t, from) && k < |Panes(t)| && forall i :: 0 <= i < |Panes(t)| ==> HasPane(t, Panes(t)[i])
    requires Panes(t)[k] != from && Beside(RectOf(t, Panes(t)[k], area), RectOf(t, from, area), dir)
    requires var fr, ps := RectOf(t, from, area), Panes(t);
             forall i :: 0 <= i < |ps| && ps[i] != from && Beside(RectOf(t, ps[i], area), fr, dir) ==>
               && !Nearer(RectOf(t, ps[i], area), RectOf(t, ps[k], area), fr, dir)
               && (i < k ==> Nearer(RectOf(t, ps[k], area), RectOf(t, ps[i], area), fr, dir))
    ensures IsNearest(t, from, k, dir, area)
  {
    hide Beside, Nearer, Panes, RectOf, HasPane;
  }

  lemma NeighborIs(t: LayoutNode, from: PaneId, dir: Dir, area: Rect)
    requires Distinct(Panes(t)) && HasPane(t, from)
    ensures match Neighbor(t, from, dir, area)
            case None => !SomeBeside(t, from, dir, area)
            case Some(to) =>
              SomeBeside(t, from, dir, area) && exists k: nat :: IsNearest(t, from, k, dir, area) && Panes(t)[k] == to
  {
    NeighborIsNearest(t, from, dir, area);
    RectsFollowPanes(t, area);
    var rs := Rects(t, area);
    hide Beside, Nearer, Panes, Rects, Distinct, SomeBeside, IsNearest;
    var k := Best(rs, |rs|, from, RectOf(t, from, area), dir);
    hide RectOf, Best;
    if k < |rs| {
      BestIsNearest(t, from, k, dir, area);
      BesideIs(t, from, Panes(t)[k], dir, area);
    } else {
      NoneBeside(t, from, dir, area);
    }
  }

  lemma BesideIs(t: LayoutNode, from: PaneId, id: PaneId, dir: Dir, area: Rect)
    requires HasPane(t, from) && HasPane(t, id) && id != from
    requires Beside(RectOf(t, id, area), RectOf(t, from, area), dir)
    ensures SomeBeside(t, from, dir, area)
  {
    hide Beside, RectOf;
  }

  lemma NoneBeside(t: LayoutNode, from: PaneId, dir: Dir, area: Rect)
    requires HasPane(t, from)
    requires forall id :: HasPane(t, id) && id != from ==> !Beside(RectOf(t, id, area), RectOf(t, from, area), dir)
    ensures !SomeBeside(t, from, dir, area)
  {
    hide Beside, RectOf;
  }

  function Opposite(dir: Dir): Dir {
    match dir case Left => Right case Right => Left case Up => Down case Down => Up
  }

  /** Moving the focus never leads to a dead end: there is always a way back. */
  lemma NeighborLeadsBack(t: LayoutNode, from: PaneId, dir: Dir, area: Rect)
    requires Distinct(Panes(t)) && HasPane(t, from)
    requires Neighbor(t, from, dir, area).Some?
    ensures Neighbor(t, Neighbor(t, from, dir, area).value, Opposite(dir), area).Some?
  {
    var to := Neighbor(t, from, dir, area).value;
    NeighborIsNearest(t, from, dir, area);
    NeighborIsNearest(t, to, Opposite(dir), area);
    assert Beside(RectOf(t, from, area), RectOf(t, to, area), Opposite(dir));
  }

  /** One split of the tree that has the pane for a child is replaced by its other child. */
  ghost predicate Promoted(t: LayoutNode, t': LayoutNode, id: PaneId) {
    exists q, second ::
      && OnTree(t, q) && At(t, q).Split? && Child(At(t, q), second) == Leaf(id)
      && t' == ReplaceAt(t, q, Child(At(t, q), !second))
  }

  lemma RemovePromotes(t: LayoutNode, id: PaneId)
    ensures var (t', ok) := RemoveLeaf(t, id);
            (ok <==> t != Leaf(id) && HasPane(t, id)) && (!ok ==> t' == t) && (ok ==> Promoted(t, t', id))
  {
    hide RemoveLeaf;
    var q, second := RemovePromotesTheSibling(t, id);
  }

  lemma ManyPanesAreSplit(t: LayoutNode)
    ensures t.Split? <==> |Panes(t)| > 1
  {
  }

  /** Of the two sides of a split the second is right of the first, or below it, with the
      separator between them. */
  lemma SecondIsRightOrBelow(area: Rect, dir: SplitDir, ratio: real)
    requires area.width > 0 && area.height > 0
    ensures var (a, b) := SplitArea(area, dir, ratio);
            var to := if dir.Horizontal? then Right else Down;
            && Beside(b, a, to) && Gap(b, a, to) == 1
            && SharedEdge(b, a, to) == if dir.Horizontal? then area.height else area.width
  {
    hide Share;
  }

  // --------------------------------------------------------------- window states

  datatype State = State(root: LayoutNode, focused: PaneId, zoomed: Option<PaneId>)

  datatype RemoveOutcome = Removed | WindowEmpty | NotFound

  datatype Op = DoSplit(dir: SplitDir, added: PaneId) | DoRemove(id: PaneId) | DoFocus(to: Dir, area: Rect) | DoZoom

  function AfterSplit(s: State, dir: SplitDir, added: PaneId): (State, bool) {
    var (root, ok) := SplitLeaf(s.root, s.focused, dir, added);
    (State(root, if ok then added else s.focused, None), ok)
  }

  function AfterRemove(s: State, id: PaneId): (State, RemoveOutcome) {
    var u := if s.zoomed == Some(id) then s.(zoomed := None) else s;
    var (root, ok) := RemoveLeaf(u.root, id);
    if u.root == Leaf(id) then (u, WindowEmpty)
    else if ok then (u.(root := root, focused := if u.focused == id then FirstPane(root) else u.focused), Removed)
    else (u, NotFound)
  }

  function AfterFocus(s: State, dir: Dir, area: Rect): (State, bool) {
    if s.zoomed.Some? then (s, false)
    else match Neighbor(s.root, s.focused, dir, area)
      case None => (s, false)
      case Some(next) => (s.(focused := next), true)
  }

  function AfterZoom(s: State): State {
    s.(zoomed := if s.zoomed.None? && s.root.Split? then Some(s.focused) else None)
  }

  function Visible(s: State, area: Rect): seq<(PaneId, Rect)> {
    if s.zoomed.Some? && HasPane(s.root, s.zoomed.value) then [(s.zoomed.value, area)] else Rects(s.root, area)
  }

  function Apply(s: State, op: Op): State {
    match op
    case DoSplit(dir, added) => AfterSplit(s, dir, added).0
    case DoRemove(id) => AfterRemove(s, id).0
    case DoFocus(dir, area) => AfterFocus(s, dir, area).0
    case DoZoom => AfterZoom(s)
  }

  function Run(s: State, ops: seq<Op>): State
    decreases |ops|
  {
    if ops == [] then s else Run(Apply(s, ops[0]), ops[1..])
  }

  // ---------------------------------------------------------------------- the class

  class Window {
    const name: string
    var root: LayoutNode
    var focused: PaneId
    var zoomed: Option<PaneId>

    ghost function Now(): State
      reads this
    {
      State(root, focused, zoomed)
    }

    constructor (name: string, pane: PaneId)
      ensures this.name == name && Now() == State(Leaf(pane), pane, None)
    {
      this.name, root, focused, zoomed := name, Leaf(pane), pane, None;
    }

    /** The zoomed pane alone on the whole area, or every pane, in order, on its own part of
        it: each cell is in one pane or in one separator, and none is out of the area. */
    method VisibleRects(area: Rect) returns (rs: seq<(PaneId, Rect)>)
      ensures zoomed.Some? && HasPane(root, zoomed.value) ==> rs == [(zoomed.value, area)]
      ensures zoomed.None? || !HasPane(root, zoomed.value) ==>
                && |rs| == |Panes(root)|
                && (forall i :: 0 <= i < |rs| ==> rs[i].0 == Panes(root)[i] && rs[i].1.Within(area))
                && forall x: nat, y: nat ::
                     Cover(Areas(rs), x, y) + Cover(Separators(root, area), x, y)
                     == if area.Contains(x, y) then 1 else 0
      ensures rs == Visible(Now(), area)
    {
      if zoomed.Some? {
        if HasPane(root, zoomed.value) {
          return [(zoomed.value, area)];
        }
      }
      rs := Rects(root, area);
      RectsFollowPanes(root, area);
      RectsStayInside(root, area);
      assert forall i :: 0 <= i < |rs| ==> rs[i] in rs;
      forall x: nat, y: nat
        ensures Cover(Areas(rs), x, y) + Cover(Separators(root, area), x, y) == if area.Contains(x, y) then 1 else 0
      {
        ExactTiling(root, area, x, y);
      }
    }

    method Split(dir: SplitDir, added: PaneId) returns (ok: bool)
      modifies this
      ensures (Now(), ok) == AfterSplit(old(Now()), dir, added)
      ensures HasPane(old(root), old(focused)) ==>
                && ok && focused == added
                && root == ReplaceAt(old(root), PathTo(old(root), old(focused)),
                                     LayoutNode.Split(dir, 0.5, Leaf(old(focused)), Leaf(added)))
      ensures !HasPane(old(root), old(focused)) ==> !ok && root == old(root) && focused == old(focused)
      ensures zoomed.None?
    {
      SplitRewritesOneLeaf(root, focused, dir, added);
      zoomed := None;
      var r := SplitLeaf(root, focused, dir, added);
      root, ok := r.0, r.1;
      if ok {
        focused := added;
      }
    }

    method Remove(id: PaneId) returns (outcome: RemoveOutcome)
      modifies this
      ensures (Now(), outcome) == AfterRemove(old(Now()), id)
      ensures outcome == if old(root) == Leaf(id) then WindowEmpty
                         else if HasPane(old(root), id) then Removed else NotFound
      ensures outcome != Removed ==> root == old(root) && focused == old(focused)
      ensures outcome == Removed ==>
                && Promoted(old(root), root, id)
                && focused == if old(focused) == id then Panes(root)[0] else old(focused)
      ensures zoomed == if old(zoomed) == Some(id) then None else old(zoomed)
    {
      RemovePromotes(root, id);
      if zoomed == Some(id) {
        zoomed := None;
      }
      if root == Leaf(id) {
        return WindowEmpty;
      }
      var r := RemoveLeaf(root, id);
      if r.1 {
        root := r.0;
        if focused == id {
          focused := FirstPane(root);
        }
        outcome := Removed;
      } else {
        outcome := NotFound;
      }
    }

    method FocusDir(dir: Dir, area: Rect) returns (ok: bool)
      modifies this
      ensures (Now(), ok) == AfterFocus(old(Now()), dir, area)
      ensures root == old(root) && zoomed == old(zoomed) && (!ok ==> focused == old(focused))
      ensures zoomed.Some? ==> !ok
      ensures zoomed.None? && Distinct(Panes(root)) && HasPane(root, old(focused)) ==>
                && (ok <==> SomeBeside(root, old(focused), dir, area))
                && (ok ==> exists k: nat :: IsNearest(root, old(focused), k, dir, area) && Panes(root)[k] == focused)
    {
      if Distinct(Panes(root)) && HasPane(root, focused) { NeighborIs(root, focused, dir, area); }
      if zoomed.Some? {
        return false;
      }
      var next := Neighbor(root, focused, dir, area);
      if next.Some? {
        focused := next.value;
      }
      ok := next.Some?;
    }

    method ToggleZoom()
      modifies this
      ensures Now() == AfterZoom(old(Now()))
      ensures root == old(root) && focused == old(focused)
      ensures zoomed == if old(zoomed).None? && |Panes(root)| > 1 then Some(focused) else None
    {
      ManyPanesAreSplit(root);
      match zoomed
      case Some(_) => zoomed := None;
      case None =>
        if root.Split? {
          zoomed := Some(focused);
        }
    }
  }

  // ------------------------------------------------------------------------- runs

  /** Pane ids are distinct, the focus is on one of them, and so is any zoom. */
  ghost predicate Safe(s: State) {
    && Distinct(Panes(s.root))
    && HasPane(s.root, s.focused)
    && (s.zoomed.Some? ==> HasPane(s.root, s.zoomed.value))
  }

  /** Every split of the run brings a pane id that is not on screen. */
  ghost predicate FreshSplits(s: State, ops: seq<Op>)
    decreases |ops|
  {
    ops == [] ||
    ((ops[0].DoSplit? ==> !HasPane(s.root, ops[0].added)) && FreshSplits(Apply(s, ops[0]), ops[1..]))
  }

  lemma InsertedMembers<T>(s: seq<T>, at: nat, x: T)
    requires at <= |s| && Distinct(s) && x !in s
    ensures Distinct(Inserted(s, at, x))
    ensures forall y :: y in Inserted(s, at, x) <==> y in s || y == x
  {
    var r := Inserted(s, at, x);
    assert forall i :: 0 <= i < |s| ==> r[if i < at then i else i + 1] == s[i];
    assert r[at] == x;
  }

  lemma DroppedMembers<T>(s: seq<T>, at: nat)
    requires at < |s| && Distinct(s)
    ensures Distinct(Dropped(s, at))
    ensures forall y :: y in Dropped(s, at) <==> y in s && y != s[at]
  {
    var r := Dropped(s, at);
    assert forall i :: 0 <= i < |s| && i != at ==> r[if i < at then i else i - 1] == s[i];
  }

  lemma SplitIsSafe(s: State, dir: SplitDir, added: PaneId)
    requires Safe(s) && !HasPane(s.root, added)
    ensures var (s', ok) := AfterSplit(s, dir, added);
            ok && Safe(s') && s'.focused == added
            && forall id :: HasPane(s'.root, id) <==> HasPane(s.root, id) || id == added
  {
    SplitRewritesOneLeaf(s.root, s.focused, dir, added);
    var k := SplitInserts(s.root, s.focused, dir, added);
    InsertedMembers(Panes(s.root), k + 1, added);
  }

  /** Removal deletes only that pane, in place `k`: the others keep their order. */
  lemma RemoveIsSafe(s: State, id: PaneId) returns (k: nat)
    requires Safe(s)
    ensures var (s', outcome) := AfterRemove(s, id);
            && Safe(s')
            && (outcome == WindowEmpty <==> s.root == Leaf(id))
            && (outcome == NotFound <==> !HasPane(s.root, id))
            && (outcome != Removed ==> s'.root == s.root)
            && (outcome == Removed ==> k < |Panes(s.root)| && Panes(s.root)[k] == id
                                       && Panes(s'.root) == Dropped(Panes(s.root), k) && !HasPane(s'.root, id))
  {
    hide At, Child, ReplaceAt, OnTree, RemoveLeaf, Dropped, FirstPane;
    k := 0;
    var q, second := RemovePromotesTheSibling(s.root, id);
    if RemoveLeaf(s.root, id).1 {
      k := RemoveDrops(s.root, id);
      DroppedMembers(Panes(s.root), k);
    }
    hide Panes, HasPane;
  }

  lemma StepIsSafe(s: State, op: Op)
    requires Safe(s) && (op.DoSplit? ==> !HasPane(s.root, op.added))
    ensures Safe(Apply(s, op))
  {
    match op
    case DoSplit(dir, added) => SplitIsSafe(s, dir, added);
    case DoRemove(id) => var k := RemoveIsSafe(s, id);
    case DoFocus(dir, area) => NeighborIsNearest(s.root, s.focused, dir, area);
    case DoZoom =>
  }

  /** Any run of splits with fresh panes, removals, focus moves and zoom toggles keeps ids
      distinct and focus and zoom in the tree. */
  lemma {:induction false} RunsStaySafe(s: State, ops: seq<Op>)
    requires Safe(s) && FreshSplits(s, ops)
    ensures Safe(Run(s, ops))
    decreases |ops|
  {
    if ops != [] {
      StepIsSafe(s, ops[0]);
      RunsStaySafe(Apply(s, ops[0]), ops[1..]);
    }
  }

  /** The same from a new window. */
  lemma NewWindowStaysSafe(pane: PaneId, ops: seq<Op>)
    requires FreshSplits(State(Leaf(pane), pane, None), ops)
    ensures Safe(Run(State(Leaf(pane), pane, None), ops))
  {
    RunsStaySafe(State(Leaf(pane), pane, None), ops);
  }

  /** Split off a fresh pane and remove it: the exact tree is back, unzoomed, with the
      focus on its first pane. */
  lemma SplitThenRemove(s: State, dir: SplitDir, added: PaneId)
    requires Safe(s) && !HasPane(s.root, added)
    ensures AfterRemove(AfterSplit(s, dir, added).0, added) == (State(s.root, FirstPane(s.root), None), Removed)
  {
    SplitIsSafe(s, dir, added);
    RemoveUndoesSplit(s.root, s.focused, dir, added);
  }
}
