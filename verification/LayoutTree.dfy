/**
 The edits of a split tree.  Each is described by the one position it rewrites, so
 what it leaves alone is part of the statement.
 */
module LayoutTree {
  import opened Base
  import opened Layout

  function Panes(t: LayoutNode): (ps: seq<PaneId>)
    ensures |ps| > 0
  {
    match t
    case Leaf(id) => [id]
    case Split(_, _, first, second) => Panes(first) + Panes(second)
  }

  predicate HasPane(t: LayoutNode, id: PaneId)
    ensures HasPane(t, id) <==> id in Panes(t)
  {
    match t
    case Leaf(p) => p == id
    case Split(_, _, first, second) => HasPane(first, id) || HasPane(second, id)
  }

  function FirstPane(t: LayoutNode): (id: PaneId)
    ensures id == Panes(t)[0]
  {
    match t
    case Leaf(id) => id
    case Split(_, _, first, _) => FirstPane(first)
  }

  /** The edits answer with the tree and whether they changed it. */
  function SplitLeaf(t: LayoutNode, target: PaneId, dir: SplitDir, added: PaneId): (LayoutNode, bool) {
    match t
    case Leaf(id) => if id == target then (Split(dir, 0.5, Leaf(target), Leaf(added)), true) else (t, false)
    case Split(_, _, first, second) =>
      var (f, ok) := SplitLeaf(first, target, dir, added);
      if ok then (t.(first := f), true)
      else
        var (s, ok) := SplitLeaf(second, target, dir, added);
        (t.(second := s), ok)
  }

  function RemoveLeaf(t: LayoutNode, target: PaneId): (LayoutNode, bool) {
    match t
    case Leaf(_) => (t, false)
    case Split(_, _, first, second) =>
      if first == Leaf(target) then (second, true)
      else if second == Leaf(target) then (first, true)
      else
        var (f, ok) := RemoveLeaf(first, target);
        if ok then (t.(first := f), true)
        else
          var (s, ok) := RemoveLeaf(second, target);
          (t.(second := s), ok)
  }

  function Axis(dir: Dir): SplitDir {
    match dir
    case Left => Horizontal
    case Right => Horizontal
    case Up => Vertical
    case Down => Vertical
  }

  /** Growing toward the right or the bottom grows the target's side; toward the left or
      the top it gives the cells to the other side. */
  function NewRatio(ratio: real, inSecond: bool, dir: Dir, delta: int, extent: nat): real
    requires extent > 0
  {
    var growFirst := if dir.Right? || dir.Down? then !inSecond else inSecond;
    var signed := if growFirst then delta else -delta;
    ClampRatio(ratio + signed as real / extent as real, extent)
  }

  function Resize(t: LayoutNode, target: PaneId, dir: Dir, delta: int, area: Rect): (LayoutNode, bool) {
    match t
    case Leaf(_) => (t, false)
    case Split(sdir, ratio, first, second) =>
      var (a, b) := SplitArea(area, sdir, ratio);
      var inFirst := HasPane(first, target);
      if !inFirst && !HasPane(second, target) then (t, false)
      else
        var (child, ok) := if inFirst then Resize(first, target, dir, delta, a)
                           else Resize(second, target, dir, delta, b);
        if ok then (if inFirst then t.(first := child) else t.(second := child), true)
        else
          var extent := Extent(area, sdir);
          if sdir != Axis(dir) || extent <= 2 * MIN_PANE + 1 then (t, false)
          else (t.(ratio := NewRatio(ratio, !inFirst, dir, delta, extent)), true)
  }

  // ------------------------------------------------------------- positions in a tree

  /** A way down the tree: false for a first child, true for a second. */
  type Path = seq<bool>

  ghost predicate OnTree(t: LayoutNode, q: Path) {
    q == [] || (t.Split? && OnTree(Child(t, q[0]), q[1..]))
  }

  ghost function Child(t: LayoutNode, second: bool): LayoutNode
    requires t.Split?
  {
    if second then t.second else t.first
  }

  ghost function At(t: LayoutNode, q: Path): LayoutNode
    requires OnTree(t, q)
  {
    if q == [] then t else At(Child(t, q[0]), q[1..])
  }

  ghost function ReplaceAt(t: LayoutNode, q: Path, n: LayoutNode): LayoutNode
    requires OnTree(t, q)
  {
    if q == [] then n
    else if q[0] then t.(second := ReplaceAt(t.second, q[1..], n))
    else t.(first := ReplaceAt(t.first, q[1..], n))
  }

  ghost function ChildArea(t: LayoutNode, second: bool, area: Rect): Rect
    requires t.Split?
  {
    var (a, b) := SplitArea(area, t.dir, t.ratio);
    if second then b else a
  }

  ghost function AreaAt(t: LayoutNode, q: Path, area: Rect): Rect
    requires OnTree(t, q)
  {
    if q == [] then area else AreaAt(Child(t, q[0]), q[1..], ChildArea(t, q[0], area))
  }

  /** The way to the first leaf, in order, that holds `id`. */
  ghost function PathTo(t: LayoutNode, id: PaneId): (q: Path)
    requires HasPane(t, id)
    ensures OnTree(t, q) && At(t, q) == Leaf(id)
  {
    if t.Leaf? then []
    else if HasPane(t.first, id) then [false] + PathTo(t.first, id)
    else [true] + PathTo(t.second, id)
  }

  lemma {:induction false} PrefixOnTree(t: LayoutNode, q: Path, k: nat)
    requires OnTree(t, q) && k <= |q|
    ensures OnTree(t, q[..k])
    ensures k < |q| ==> At(t, q[..k]).Split?
  {
    if k > 0 {
      PrefixOnTree(Child(t, q[0]), q[1..], k - 1);
      assert q[..k][1..] == q[1..][..k - 1];
    }
  }

  /** An edit at one position leaves the areas above it as they were. */
  lemma {:induction false} ReplacedArea(t: LayoutNode, q: Path, n: LayoutNode, area: Rect)
    requires OnTree(t, q)
    ensures OnTree(ReplaceAt(t, q, n), q) && At(ReplaceAt(t, q, n), q) == n
    ensures AreaAt(ReplaceAt(t, q, n), q, area) == AreaAt(t, q, area)
  {
    if q != [] { ReplacedArea(Child(t, q[0]), q[1..], n, ChildArea(t, q[0], area)); }
  }

  // ------------------------------------------------------------------------ split

  /** A split rewrites the first leaf that holds its target, and nothing else. */
  lemma {:induction false} SplitRewritesOneLeaf(t: LayoutNode, target: PaneId, dir: SplitDir, added: PaneId)
    ensures var (t', ok) := SplitLeaf(t, target, dir, added);
            && ok == HasPane(t, target)
            && t' == if ok then ReplaceAt(t, PathTo(t, target), Split(dir, 0.5, Leaf(target), Leaf(added))) else t
  {
    if t.Split? {
      SplitRewritesOneLeaf(t.first, target, dir, added);
      SplitRewritesOneLeaf(t.second, target, dir, added);
    }
  }

  function Inserted<T>(s: seq<T>, at: nat, x: T): seq<T>
    requires at <= |s|
  {
    s[..at] + [x] + s[at..]
  }

  lemma InsertedConcat<T>(a: seq<T>, b: seq<T>, at: nat, x: T)
    ensures at <= |a| ==> Inserted(a + b, at, x) == Inserted(a, at, x) + b
    ensures at <= |b| ==> Inserted(a + b, |a| + at, x) == a + Inserted(b, at, x)
  {
  }

  lemma LeafSplits(id: PaneId, dir: SplitDir, added: PaneId)
    ensures Panes(SplitLeaf(Leaf(id), id, dir, added).0) == Inserted([id], 1, added)
  {
  }

  /** The panes of a split tree: those of the child that holds the target change. */
  lemma SplitGoesIn(t: LayoutNode, target: PaneId, dir: SplitDir, added: PaneId)
    requires t.Split? && HasPane(t, target)
    ensures Panes(SplitLeaf(t, target, dir, added).0) ==
              if HasPane(t.first, target) then Panes(SplitLeaf(t.first, target, dir, added).0) + Panes(t.second)
              else Panes(t.first) + Panes(SplitLeaf(t.second, target, dir, added).0)
  {
    SplitRewritesOneLeaf(t.first, target, dir, added);
  }

  /** The new pane follows the first occurrence of its target in the order of panes. */
  lemma {:induction false} SplitInserts(t: LayoutNode, target: PaneId, dir: SplitDir, added: PaneId) returns (k: nat)
    requires HasPane(t, target)
    ensures k < |Panes(t)| && Panes(t)[k] == target && (forall i :: 0 <= i < k ==> Panes(t)[i] != target)
    ensures Panes(SplitLeaf(t, target, dir, added).0) == Inserted(Panes(t), k + 1, added)
  {
    hide SplitLeaf, Inserted;
    if t.Leaf? {
      LeafSplits(target, dir, added);
      k := 0;
    } else {
      SplitGoesIn(t, target, dir, added);
      var a, b := Panes(t.first), Panes(t.second);
      if HasPane(t.first, target) {
        k := SplitInserts(t.first, target, dir, added);
        InsertedConcat(a, b, k + 1, added);
      } else {
        k := SplitInserts(t.second, target, dir, added);
        InsertedConcat(a, b, k + 1, added);
        k := k + |a|;
      }
    }
  }

  // ----------------------------------------------------------------------- remove

  /** A removal promotes the sibling of a leaf that holds its target, wherever that leaf
      is, and fails exactly on a lone leaf and on an absent target. */
  lemma {:induction false} RemovePromotesTheSibling(t: LayoutNode, target: PaneId) returns (q: Path, second: bool)
    ensures var (t', ok) := RemoveLeaf(t, target);
            && (ok <==> t.Split? && HasPane(t, target))
            && (!ok ==> t' == t)
            && (ok ==> OnTree(t, q) && At(t, q).Split? && Child(At(t, q), second) == Leaf(target)
                       && t' == ReplaceAt(t, q, Child(At(t, q), !second)))
  {
    q, second := [], false;
    if t.Split? {
      if t.first == Leaf(target) {
      } else if t.second == Leaf(target) {
        second := true;
      } else {
        q, second := RemovePromotesTheSibling(t.first, target);
        if RemoveLeaf(t.first, target).1 {
          q := [false] + q;
        } else {
          q, second := RemovePromotesTheSibling(t.second, target);
          q := [true] + q;
        }
      }
    }
  }

  function Dropped<T>(s: seq<T>, at: nat): seq<T>
    requires at < |s|
  {
    s[..at] + s[at + 1..]
  }

  /** Removal takes one occurrence of the pane out of the order and moves nothing. */
  lemma {:induction false} RemoveDrops(t: LayoutNode, target: PaneId) returns (k: nat)
    requires RemoveLeaf(t, target).1
    ensures k < |Panes(t)| && Panes(t)[k] == target
    ensures Panes(RemoveLeaf(t, target).0) == Dropped(Panes(t), k)
  {
    if t.first == Leaf(target) {
      k := 0;
    } else if t.second == Leaf(target) {
      k := |Panes(t.first)|;
    } else if RemoveLeaf(t.first, target).1 {
      k := RemoveDrops(t.first, target);
    } else {
      k := RemoveDrops(t.second, target);
      k := k + |Panes(t.first)|;
    }
  }

  /** Splitting off a fresh pane and removing it again gives back the exact tree. */
  lemma {:induction false} RemoveUndoesSplit(t: LayoutNode, target: PaneId, dir: SplitDir, added: PaneId)
    requires HasPane(t, target) && !HasPane(t, added)
    ensures RemoveLeaf(SplitLeaf(t, target, dir, added).0, added) == (t, true)
  {
    SplitRewritesOneLeaf(t, target, dir, added);
    if t.Split? {
      SplitRewritesOneLeaf(t.first, target, dir, added);
      var q, s := RemovePromotesTheSibling(t.first, added);
      if HasPane(t.first, target) {
        RemoveUndoesSplit(t.first, target, dir, added);
      } else {
        RemoveUndoesSplit(t.second, target, dir, added);
      }
    }
  }

  // ----------------------------------------------------------------------- resize

  /** A split that a resize may adjust: on the wanted axis, with room to share. */
  ghost predicate Eligible(t: LayoutNode, q: Path, dir: Dir, area: Rect) {
    && OnTree(t, q) && At(t, q).Split? && At(t, q).dir == Axis(dir)
    && Extent(AreaAt(t, q, area), At(t, q).dir) > 2 * MIN_PANE + 1
  }

  /** The resize adjusted the split `k` steps down the way `p` to the target: the deepest
      eligible one, in its ratio only. */
  ghost predicate AdjustedAt(t: LayoutNode, t': LayoutNode, p: Path, k: nat, dir: Dir, delta: int, area: Rect) {
    && k < |p| && Eligible(t, p[..k], dir, area)
    && (forall m :: k < m < |p| ==> !Eligible(t, p[..m], dir, area))
    && var n := At(t, p[..k]);
       var extent := Extent(AreaAt(t, p[..k], area), n.dir);
       t' == ReplaceAt(t, p[..k], n.(ratio := NewRatio(n.ratio, p[k], dir, delta, extent)))
  }

  /** One step of the way down: what is eligible below a child is eligible below its parent. */
  lemma EligibleBelow(t: LayoutNode, second: bool, p: Path, dir: Dir, area: Rect)
    requires t.Split?
    ensures forall m :: 0 <= m <= |p| ==>
              (Eligible(t, ([second] + p)[..m + 1], dir, area)
               <==> Eligible(Child(t, second), p[..m], dir, ChildArea(t, second, area)))
  {
    forall m | 0 <= m <= |p|
      ensures Eligible(t, ([second] + p)[..m + 1], dir, area)
              <==> Eligible(Child(t, second), p[..m], dir, ChildArea(t, second, area))
    {
      assert ([second] + p)[..m + 1][1..] == p[..m];
    }
  }

  /** A resize changes exactly one ratio, that of the deepest eligible split above the
      target, and fails exactly when there is none. */
  lemma {:induction false} ResizeAdjustsDeepest(t: LayoutNode, target: PaneId, dir: Dir, delta: int, area: Rect)
    returns (k: nat)
    requires HasPane(t, target)
    ensures var (t', ok) := Resize(t, target, dir, delta, area);
            var p := PathTo(t, target);
            if ok then AdjustedAt(t, t', p, k, dir, delta, area)
            else t' == t && forall m :: 0 <= m < |p| ==> !Eligible(t, p[..m], dir, area)
  {
    k := 0;
    if t.Split? {
      var second := !HasPane(t.first, target);
      var below, child := ChildArea(t, second, area), Child(t, second);
      var p1 := PathTo(child, target);
      k := ResizeAdjustsDeepest(child, target, dir, delta, below);
      var (c', ok) := Resize(child, target, dir, delta, below);
      if ok {
        AdjustedBelow(t, second, c', p1, k, dir, delta, area);
        k := k + 1;
      } else {
        EligibleBelow(t, second, p1, dir, area);
        var p := [second] + p1;
        assert p[..0] == [];
        forall m | 0 < m < |p| ensures !Eligible(t, p[..m], dir, area) {
          assert !Eligible(child, p1[..m - 1], dir, below);
        }
        k := 0;
      }
    }
  }

  /** An adjustment below a child is the same adjustment one step further from the root. */
  lemma AdjustedBelow(t: LayoutNode, second: bool, c': LayoutNode, p1: Path, k: nat, dir: Dir, delta: int, area: Rect)
    requires t.Split? && AdjustedAt(Child(t, second), c', p1, k, dir, delta, ChildArea(t, second, area))
    ensures AdjustedAt(t, if second then t.(second := c') else t.(first := c'), [second] + p1, k + 1, dir, delta, area)
  {
    var p := [second] + p1;
    EligibleBelow(t, second, p1, dir, area);
    assert p[..k + 1][1..] == p1[..k];
    forall m | k + 1 < m < |p| ensures !Eligible(t, p[..m], dir, area) {
      assert !Eligible(Child(t, second), p1[..m - 1], dir, ChildArea(t, second, area));
    }
  }

  /** The target's side of a split, in cells. */
  ghost function SideExtent(n: LayoutNode, second: bool, area: Rect): nat
    requires n.Split?
  {
    Extent(ChildArea(n, second, area), n.dir)
  }

  lemma SideIsShare(n: LayoutNode, second: bool, area: Rect)
    requires n.Split?
    ensures var inner := Inner(Extent(area, n.dir));
            SideExtent(n, second, area) == if second then inner - Share(inner, n.ratio) else Share(inner, n.ratio)
  {
  }

  /** How far a resize asks the target's side of a split to grow; left and up ask it to
      shrink. */
  function Asked(dir: Dir, delta: int): int {
    if dir.Right? || dir.Down? then delta else -delta
  }

  /** The ratio asks for less than a minimum on one side, which is given all the same. */
  predicate HeldAtMinimum(inner: nat, ratio: real) {
    Round(Cells(inner, ratio)) != Share(inner, ratio)
  }

  /** A side of a split moved as it was asked: never the other way, never by more, and by at
      most one cell less, unless a minimum held it before or stopped it now. */
  predicate MovedAsAsked(before: nat, after: nat, asked: int, inner: nat, held: bool) {
    && (asked >= 0 ==> before <= after <= before + asked
                       && (held || after + 1 >= before + asked || after + MIN_PANE == inner))
    && (asked <= 0 ==> before + asked <= after <= before
                       && (held || after <= before + asked + 1 || after == MIN_PANE))
  }

  /** Adding at most `d` raises a rounded number by at most `d`, and taking it away lowers it
      by no more. */
  lemma RoundMovesAtMost(x: real, y: real, d: nat)
    ensures 0.0 <= y <= d as real ==> Round(x) <= Round(x + y) <= Round(x) + d
    ensures -(d as real) <= y <= 0.0 ==> Round(x) <= Round(x + y) + d && Round(x + y) <= Round(x)
  {
  }

  lemma RoundMovesAtLeast(x: real, y: real, d: nat)
    requires d > 0 && 0.0 <= x && Round(x) < U16_MAX
    ensures y >= d as real - 1.0 ==> Round(x + y) >= Round(x) + d - 1 || Round(x + y) == U16_MAX
    ensures y <= 1.0 - d as real ==> Round(x + y) == 0 || Round(x + y) + d <= Round(x) + 1
  {
  }

  /** What a step of `first` cells adds before rounding: not quite `first`. */
  predicate NearlyStep(y: real, first: int, extent: nat) {
    var f, e := first as real, extent as real;
    && (first >= 0 ==> 0.0 <= y <= f) && (first <= 0 ==> f <= y <= 0.0)
    && (0 < first <= extent ==> y >= f - 1.0) && (-(extent as int) <= first < 0 ==> y <= f + 1.0)
    && (first > extent ==> y >= e - 1.0) && (first < -(extent as int) ==> y <= 1.0 - e)
  }

  /** A ratio of an extent, before rounding. */
  function Cells(inner: nat, ratio: real): real { inner as real * ratio }

  lemma StepIsNearly(first: int, extent: nat)
    requires extent > 1
    ensures NearlyStep(Cells(extent - 1, first as real / extent as real), first, extent)
  {
    var e, f := extent as real, first as real;
    var q := f / e;
    assert q * e == f;
    LessOne(e, q);
    assert (extent - 1) as real == e - 1.0;
    assert Cells(extent - 1, q) == f - q;
    if first >= 0 {
      StepBounds(q, e, f);
    } else {
      Negated(q, e);
      StepBounds(-q, e, -f);
    }
    hide Cells;
  }

  lemma Negated(q: real, e: real)
    ensures (-q) * e == -(q * e)
  {
  }

  lemma LessOne(e: real, q: real)
    ensures (e - 1.0) * q == q * e - q
  {
  }

  lemma ProductSides(q: real, e: real, c: real)
    requires e > 0.0
    ensures q > c <==> q * e > c * e
    ensures q < c <==> q * e < c * e
  {
  }

  lemma ScaledUp(a: real, q: real)
    requires a >= 0.0 && q >= 1.0
    ensures a * q >= a
  {
  }

  lemma BothAboveOne(q: real, e: real)
    requires q > 1.0 && e > 1.0
    ensures q * e - q >= e - 1.0
  {
    NonNegative(q - 1.0, e - 1.0);
    Expanded(q, e);
  }

  lemma NonNegative(a: real, b: real)
    requires a >= 0.0 && b >= 0.0
    ensures a * b >= 0.0
  {
  }

  lemma Expanded(q: real, e: real)
    ensures (q - 1.0) * (e - 1.0) == q * e - q - e + 1.0
  {
  }

  /** What is left of `f` when its quotient by more than one is taken away. */
  lemma StepBounds(q: real, e: real, f: real)
    requires e > 1.0 && q * e == f >= 0.0
    ensures 0.0 <= f - q <= f
    ensures (f <= e ==> f - q >= f - 1.0) && (f > e ==> f - q >= e - 1.0)
  {
    ProductSides(q, e, 0.0);
    ProductSides(q, e, 1.0);
    assert 0.0 * e == 0.0 && 1.0 * e == e;
    ScaledUp(q, e);
    if q > 1.0 { BothAboveOne(q, e); }
  }

  /** A rounded share kept between the minimums. */
  function Kept(inner: nat, r: nat): nat
    requires inner > 2 * MIN_PANE
  {
    if r < MIN_PANE then MIN_PANE else if r > inner - MIN_PANE then inner - MIN_PANE else r
  }

  lemma ShareIsKept(inner: nat, ratio: real)
    requires inner > 2 * MIN_PANE
    ensures Share(inner, ratio) == Kept(inner, Round(Cells(inner, ratio)))
  {
    hide Round;
  }

  lemma KeptMoves(inner: nat, r0: nat, r1: nat, first: int)
    requires inner > 2 * MIN_PANE
    requires if first >= 0 then r0 <= r1 <= r0 + first else r1 <= r0 <= r1 - first
    requires r0 == Kept(inner, r0) ==>
               if first > 0 then r1 >= r0 + first - 1 || r1 >= inner - MIN_PANE
               else if first < 0 then r1 <= r0 + first + 1 || r1 == 0
               else true
    ensures MovedAsAsked(Kept(inner, r0), Kept(inner, r1), first, inner, r0 != Kept(inner, r0))
  {
  }

  /** A number rounded before and after a step is added. */
  lemma RoundedMoves(x: real, y: real, first: int, extent: nat)
    requires 2 * MIN_PANE + 1 < extent <= U16_MAX && NearlyStep(y, first, extent)
    ensures var r0, r1 := Round(x), Round(x + y);
            && (if first >= 0 then r0 <= r1 <= r0 + first else r1 <= r0 <= r1 - first)
            && (0 < r0 < extent ==>
                  if first > 0 then r1 >= r0 + first - 1 || r1 >= extent - 1
                  else if first < 0 then r1 <= r0 + first + 1 || r1 == 0
                  else true)
  {
    var d := if first >= 0 then first else -first;
    RoundMovesAtMost(x, y, d);
    if 0 < Round(x) < extent && first != 0 {
      PositiveRounds(x);
      RoundMovesAtLeast(x, y, if d <= extent then d else extent);
    }
    hide Round;
  }

  lemma PositiveRounds(x: real)
    requires Round(x) > 0
    ensures x >= 0.0
  {
  }

  lemma Distributes(a: real, b: real, c: real)
    ensures a * (b + c) == a * b + a * c
  {
  }

  lemma ShareMoves(ratio: real, first: int, extent: nat)
    requires 2 * MIN_PANE + 1 < extent <= U16_MAX
    ensures MovedAsAsked(Share(extent - 1, ratio), Share(extent - 1, ratio + first as real / extent as real), first,
                         extent - 1, HeldAtMinimum(extent - 1, ratio))
  {
    var inner, step := extent - 1, first as real / extent as real;
    Distributes(inner as real, ratio, step);
    assert Cells(inner, ratio + step) == Cells(inner, ratio) + Cells(inner, step);
    hide Round, Share, MovedAsAsked, NearlyStep, Cells;
    StepIsNearly(first, extent);
    RoundedMoves(Cells(inner, ratio), Cells(inner, step), first, extent);
    ShareIsKept(inner, ratio);
    ShareIsKept(inner, ratio + step);
    KeptMoves(inner, Round(Cells(inner, ratio)), Round(Cells(inner, ratio + step)), first);
  }

  lemma NewShare(ratio: real, second: bool, dir: Dir, delta: int, extent: nat)
    requires 2 * MIN_PANE + 1 < extent <= U16_MAX
    ensures MovedAsAsked(Share(extent - 1, ratio), Share(extent - 1, NewRatio(ratio, second, dir, delta, extent)),
                         if second then -Asked(dir, delta) else Asked(dir, delta),
                         extent - 1, HeldAtMinimum(extent - 1, ratio))
  {
    var first := if second then -Asked(dir, delta) else Asked(dir, delta);
    var moved := ratio + first as real / extent as real;
    assert NewRatio(ratio, second, dir, delta, extent) == ClampRatio(moved, extent);
    hide Share, ClampRatio, MovedAsAsked;
    ClampsAgree(moved, extent);
    ShareMoves(ratio, first, extent);
  }

  /** A resize moves the target's side of the split it adjusts as it was asked to. */
  lemma ResizeMovesOneWay(n: LayoutNode, second: bool, dir: Dir, delta: int, area: Rect)
    requires n.Split? && n.dir == Axis(dir)
    requires 2 * MIN_PANE + 1 < Extent(area, n.dir) <= U16_MAX
    ensures var inner := Inner(Extent(area, n.dir));
            var n' := n.(ratio := NewRatio(n.ratio, second, dir, delta, Extent(area, n.dir)));
            MovedAsAsked(SideExtent(n, second, area), SideExtent(n', second, area), Asked(dir, delta), inner,
                         HeldAtMinimum(inner, n.ratio))
  {
    var extent := Extent(area, n.dir);
    NewShare(n.ratio, second, dir, delta, extent);
    SideIsShare(n, second, area);
    SideIsShare(n.(ratio := NewRatio(n.ratio, second, dir, delta, extent)), second, area);
    hide NewRatio, Share, SideExtent, Asked, HeldAtMinimum;
  }

  /** The whole resize: it succeeds exactly when some split above the target is eligible,
      keeps the panes, and moves the target's border the way it was asked to. */
  lemma ResizeMovesTheBorder(t: LayoutNode, target: PaneId, dir: Dir, delta: int, area: Rect)
    requires area.width <= U16_MAX && area.height <= U16_MAX
    ensures var (t', ok) := Resize(t, target, dir, delta, area);
            && (!ok ==> t' == t)
            && (ok <==> HasPane(t, target) &&
                        exists m :: 0 <= m < |PathTo(t, target)| && Eligible(t, PathTo(t, target)[..m], dir, area))
            && (ok ==> exists k ::
                  && 0 <= k < |PathTo(t, target)| && AdjustedAt(t, t', PathTo(t, target), k, dir, delta, area)
                  && BorderMoved(t, t', PathTo(t, target), k, Asked(dir, delta), area))
  {
    if HasPane(t, target) {
      var k := ResizeAdjustsDeepest(t, target, dir, delta, area);
      var (t', ok) := Resize(t, target, dir, delta, area);
      if ok {
        var p := PathTo(t, target);
        var q := p[..k];
        var n, here := At(t, q), AreaAt(t, q, area);
        AreaAtStaysInside(t, q, area);
        ResizeMovesOneWay(n, p[k], dir, delta, here);
        ReplacedArea(t, q, n.(ratio := NewRatio(n.ratio, p[k], dir, delta, Extent(here, n.dir))), area);
        assert BorderMoved(t, t', p, k, Asked(dir, delta), area);
      }
    }
  }

  ghost predicate BorderMoved(t: LayoutNode, t': LayoutNode, p: Path, k: nat, asked: int, area: Rect) {
    && k < |p| && OnTree(t, p[..k]) && At(t, p[..k]).Split? && OnTree(t', p[..k]) && At(t', p[..k]).Split?
    && AreaAt(t', p[..k], area) == AreaAt(t, p[..k], area)
    && var before := SideExtent(At(t, p[..k]), p[k], AreaAt(t, p[..k], area));
       var after := SideExtent(At(t', p[..k]), p[k], AreaAt(t', p[..k], area));
       var inner := Inner(Extent(AreaAt(t, p[..k], area), At(t, p[..k]).dir));
       MovedAsAsked(before, after, asked, inner, HeldAtMinimum(inner, At(t, p[..k]).ratio))
  }

  lemma {:induction false} AreaAtStaysInside(t: LayoutNode, q: Path, area: Rect)
    requires OnTree(t, q)
    ensures AreaAt(t, q, area).width <= area.width && AreaAt(t, q, area).height <= area.height
  {
    if q != [] { AreaAtStaysInside(Child(t, q[0]), q[1..], ChildArea(t, q[0], area)); }
  }

  /** A resize keeps the panes and their order. */
  lemma {:induction false} ResizeKeepsPanes(t: LayoutNode, target: PaneId, dir: Dir, delta: int, area: Rect)
    ensures Panes(Resize(t, target, dir, delta, area).0) == Panes(t)
  {
    if t.Split? {
      var (a, b) := SplitArea(area, t.dir, t.ratio);
      ResizeKeepsPanes(t.first, target, dir, delta, a);
      ResizeKeepsPanes(t.second, target, dir, delta, b);
    }
  }

  // ---------------------------------------------------------- the axis of a resize

  /** The rectangles differ along the axis of `dir` at most: left and right move no top and no
      bottom, up and down no side. */
  predicate SameAcross(dir: Dir, r: Rect, s: Rect) {
    if dir.Left? || dir.Right? then r.y == s.y && r.height == s.height else r.x == s.x && r.width == s.width
  }

  ghost predicate AllSameAcross(dir: Dir, rs: seq<(PaneId, Rect)>, ss: seq<(PaneId, Rect)>) {
    |rs| == |ss| && forall i :: 0 <= i < |rs| ==> rs[i].0 == ss[i].0 && SameAcross(dir, rs[i].1, ss[i].1)
  }

  /** The two sides of a split are the same across when each is. */
  lemma SidesSameAcross(t: LayoutNode, u: LayoutNode, dir: Dir, area: Rect, other: Rect)
    requires t.Split? && u.Split?
    requires AllSameAcross(dir, Rects(t.first, ChildArea(t, false, area)), Rects(u.first, ChildArea(u, false, other)))
    requires AllSameAcross(dir, Rects(t.second, ChildArea(t, true, area)), Rects(u.second, ChildArea(u, true, other)))
    ensures AllSameAcross(dir, Rects(t, area), Rects(u, other))
  {
    hide SplitArea, SameAcross;
  }

  /** In areas that are the same across, the same tree is. */
  lemma {:induction false} AreasSameAcross(t: LayoutNode, dir: Dir, area: Rect, other: Rect)
    requires SameAcross(dir, area, other)
    ensures AllSameAcross(dir, Rects(t, area), Rects(t, other))
  {
    if t.Split? {
      SplitSameAcross(t, t, dir, area, other);
      hide Rects, AllSameAcross, SameAcross, ChildArea;
      AreasSameAcross(t.first, dir, ChildArea(t, false, area), ChildArea(t, false, other));
      AreasSameAcross(t.second, dir, ChildArea(t, true, area), ChildArea(t, true, other));
      SidesSameAcross(t, t, dir, area, other);
    }
  }

  /** Splits that differ in their ratio at most, and then along the axis only. */
  lemma SplitSameAcross(t: LayoutNode, u: LayoutNode, dir: Dir, area: Rect, other: Rect)
    requires t.Split? && u.Split? && t.dir == u.dir && SameAcross(dir, area, other)
    requires t.ratio == u.ratio || t.dir == if dir.Left? || dir.Right? then Horizontal else Vertical
    ensures SameAcross(dir, ChildArea(t, false, area), ChildArea(u, false, other))
    ensures SameAcross(dir, ChildArea(t, true, area), ChildArea(u, true, other))
  {
    hide Share;
  }

  /** A resize to the left or right moves no pane's top or bottom, one up or down no pane's
      side. */
  lemma {:induction false} ResizeKeepsTheOtherAxis(t: LayoutNode, target: PaneId, dir: Dir, delta: int, area: Rect)
    ensures AllSameAcross(dir, Rects(t, area), Rects(Resize(t, target, dir, delta, area).0, area))
  {
    var t' := Resize(t, target, dir, delta, area).0;
    if t.Split? {
      var a, b := ChildArea(t, false, area), ChildArea(t, true, area);
      ResizeKeepsTheOtherAxis(t.first, target, dir, delta, a);
      ResizeKeepsTheOtherAxis(t.second, target, dir, delta, b);
      ResizedParts(t, target, dir, delta, area);
      hide Rects, AllSameAcross, SameAcross, ChildArea, Resize;
      AcrossItself(dir, area);
      SplitSameAcross(t, t', dir, area, area);
      AreasSameAcross(t.first, dir, a, ChildArea(t', false, area));
      AreasSameAcross(t.second, dir, b, ChildArea(t', true, area));
      SidesSameAcross(t, t', dir, area, area);
    } else {
      AcrossItself(dir, area);
    }
  }

  /** A resize of a split changes its ratio, on the axis asked for, or one of its sides. */
  lemma ResizedParts(t: LayoutNode, target: PaneId, dir: Dir, delta: int, area: Rect)
    requires t.Split?
    ensures var t' := Resize(t, target, dir, delta, area).0;
            var a, b := ChildArea(t, false, area), ChildArea(t, true, area);
            && t'.Split? && t'.dir == t.dir
            && (|| (t'.ratio == t.ratio && t'.second == t.second
                    && t'.first == Resize(t.first, target, dir, delta, a).0)
                || (t'.ratio == t.ratio && t'.first == t.first
                    && t'.second == Resize(t.second, target, dir, delta, b).0)
                || (t'.first == t.first && t'.second == t.second
                    && (t'.ratio == t.ratio || t.dir == if dir.Left? || dir.Right? then Horizontal else Vertical)))
  {
    hide SplitArea, NewRatio, HasPane, Extent;
  }

  lemma AcrossItself(dir: Dir, area: Rect)
    ensures SameAcross(dir, area, area)
  {
  }
}
