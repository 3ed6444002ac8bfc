/**
 The split tree of a window: integer geometry with a one-cell separator between
 siblings, ratios clamped so that no pane is squeezed out, and the edits that
 split, remove and resize.

 The source owns each subtree through a box and rewrites it in place, so no two
 names reach one node; here a tree is a value and an edit returns the new one.
 Ratios are reals.
 */
module Layout {
  import opened Base

  type PaneId = nat

  datatype SplitDir = Horizontal | Vertical

  datatype Dir = Left | Right | Up | Down

  datatype LayoutNode =
    | Leaf(id: PaneId)
    | Split(dir: SplitDir, ratio: real, first: LayoutNode, second: LayoutNode)

  datatype Rect = Rect(x: nat, y: nat, width: nat, height: nat) {
    function Right(): nat { x + width }
    function Bottom(): nat { y + height }
    predicate Contains(cx: nat, cy: nat) { x <= cx < Right() && y <= cy < Bottom() }

    /** `this` lies within `outer`, edges included. */
    predicate Within(outer: Rect) {
      outer.x <= x && Right() <= outer.Right() && outer.y <= y && Bottom() <= outer.Bottom()
    }
  }

  /** The least extent a pane is given on either axis. */
  const MIN_PANE: nat := 2

  const U16_MAX: nat := 65535

  // ------------------------------------------------------------------ geometry

  /** `round() as u16`: half up on what is not negative, and the cast saturates. */
  function Round(v: real): (r: nat)
    ensures -0.5 <= v < U16_MAX as real + 0.5 ==> r as real - 0.5 <= v < r as real + 0.5
    ensures v < 0.0 ==> r == 0
    ensures v >= U16_MAX as real ==> r == U16_MAX
  {
    if v < 0.0 then 0
    else
      var r := (v + 0.5).Floor;
      if r < U16_MAX then r else U16_MAX
  }

  function Inner(extent: nat): nat { if extent == 0 then 0 else extent - 1 }

  /** The first child's cells out of `inner`. */
  function Share(inner: nat, ratio: real): (s: nat)
    ensures s <= inner
    ensures inner > 2 * MIN_PANE ==> MIN_PANE <= s <= inner - MIN_PANE
  {
    if inner == 0 then 0
    else
      var first := Round(inner as real * ratio);
      if inner <= 2 * MIN_PANE then Least(first, inner)
      else if first < MIN_PANE then MIN_PANE
      else if first > inner - MIN_PANE then inner - MIN_PANE
      else first
  }

  function SplitArea(area: Rect, dir: SplitDir, ratio: real): (Rect, Rect) {
    match dir
    case Horizontal =>
      var w := Share(Inner(area.width), ratio);
      (Rect(area.x, area.y, w, area.height),
       Rect(area.x + w + (if area.width > w then 1 else 0), area.y, Inner(area.width) - w, area.height))
    case Vertical =>
      var h := Share(Inner(area.height), ratio);
      (Rect(area.x, area.y, area.width, h),
       Rect(area.x, area.y + h + (if area.height > h then 1 else 0), area.width, Inner(area.height) - h))
  }

  /** The cells between the two children: where the renderer draws the border. */
  function Separator(area: Rect, dir: SplitDir, ratio: real): Rect {
    match dir
    case Horizontal => Rect(area.x + Share(Inner(area.width), ratio), area.y, Least(1, area.width), area.height)
    case Vertical => Rect(area.x, area.y + Share(Inner(area.height), ratio), area.width, Least(1, area.height))
  }

  function Rects(t: LayoutNode, area: Rect): seq<(PaneId, Rect)> {
    match t
    case Leaf(id) => [(id, area)]
    case Split(dir, ratio, first, second) =>
      var (a, b) := SplitArea(area, dir, ratio);
      Rects(first, a) + Rects(second, b)
  }

  function Separators(t: LayoutNode, area: Rect): seq<Rect> {
    match t
    case Leaf(_) => []
    case Split(dir, ratio, first, second) =>
      var (a, b) := SplitArea(area, dir, ratio);
      [Separator(area, dir, ratio)] + Separators(first, a) + Separators(second, b)
  }

  function Areas(rs: seq<(PaneId, Rect)>): (a: seq<Rect>)
    ensures |a| == |rs| && forall i :: 0 <= i < |rs| ==> a[i] == rs[i].1
  {
    seq(|rs|, i requires 0 <= i < |rs| => rs[i].1)
  }

  // -------------------------------------------------------------------- tiling

  /** How many of `rs` hold a cell. */
  ghost function Cover(rs: seq<Rect>, x: nat, y: nat): nat {
    if rs == [] then 0 else (if rs[0].Contains(x, y) then 1 else 0) + Cover(rs[1..], x, y)
  }

  lemma {:induction false} CoverConcat(a: seq<Rect>, b: seq<Rect>, x: nat, y: nat)
    ensures Cover(a + b, x, y) == Cover(a, x, y) + Cover(b, x, y)
  {
    if a == [] {
      assert a + b == b;
    } else {
      assert (a + b)[1..] == a[1..] + b;
      CoverConcat(a[1..], b, x, y);
    }
  }

  /** A split covers each cell of its area once: first child, separator or second child. */
  lemma SplitCovers(area: Rect, dir: SplitDir, ratio: real, x: nat, y: nat)
    ensures var (a, b) := SplitArea(area, dir, ratio);
            (if a.Contains(x, y) then 1 else 0) + (if b.Contains(x, y) then 1 else 0)
            + (if Separator(area, dir, ratio).Contains(x, y) then 1 else 0)
            == if area.Contains(x, y) then 1 else 0
  {
  }

  /** Exact tiling: for every tree, ratio and area, each cell of the area lies in exactly
      one pane or exactly one separator, and no other cell lies in any. */
  lemma {:induction false} ExactTiling(t: LayoutNode, area: Rect, x: nat, y: nat)
    ensures Cover(Areas(Rects(t, area)), x, y) + Cover(Separators(t, area), x, y)
            == if area.Contains(x, y) then 1 else 0
  {
    match t
    case Leaf(id) =>
      assert Areas(Rects(t, area)) == [area];
    case Split(dir, ratio, first, second) =>
      var (a, b) := SplitArea(area, dir, ratio);
      ExactTiling(first, a, x, y);
      ExactTiling(second, b, x, y);
      SplitCovers(area, dir, ratio, x, y);
      assert Areas(Rects(t, area)) == Areas(Rects(first, a)) + Areas(Rects(second, b));
      CoverConcat(Areas(Rects(first, a)), Areas(Rects(second, b)), x, y);
      var sep := [Separator(area, dir, ratio)];
      CoverConcat(sep, Separators(first, a), x, y);
      CoverConcat(sep + Separators(first, a), Separators(second, b), x, y);
  }

  lemma SplitWithin(area: Rect, dir: SplitDir, ratio: real)
    ensures var (a, b) := SplitArea(area, dir, ratio);
            a.Within(area) && b.Within(area) && Separator(area, dir, ratio).Within(area)
  {
  }

  /** No rectangle leaves the area, empty ones included; so an area whose edges fit a
      16-bit coordinate gives only rectangles whose edges do. */
  lemma {:induction false} RectsStayInside(t: LayoutNode, area: Rect)
    ensures forall r :: r in Rects(t, area) ==> r.1.Within(area)
    ensures forall s :: s in Separators(t, area) ==> s.Within(area)
  {
    match t
    case Leaf(_) =>
    case Split(dir, ratio, first, second) =>
      var (a, b) := SplitArea(area, dir, ratio);
      SplitWithin(area, dir, ratio);
      RectsStayInside(first, a);
      RectsStayInside(second, b);
  }

  function Extent(area: Rect, dir: SplitDir): nat {
    match dir case Horizontal => area.width case Vertical => area.height
  }

  /** A split with more than twice the minimum inside leaves both sides the minimum, and
      every split divides its inner extent between its sides. */
  lemma SidesKeepTheMinimum(area: Rect, dir: SplitDir, ratio: real)
    ensures var (a, b) := SplitArea(area, dir, ratio);
            && Extent(a, dir) + Extent(b, dir) == Inner(Extent(area, dir))
            && (Inner(Extent(area, dir)) > 2 * MIN_PANE ==> Extent(a, dir) >= MIN_PANE && Extent(b, dir) >= MIN_PANE)
  {
  }

  /** How far a whole number is from a real one. */
  function Off(n: nat, v: real): real { if n as real > v then n as real - v else v - n as real }

  /** Of the whole numbers from `lo` to `hi` the one nearest to `v` is what `v` rounds to, or
      the end it is beyond. */
  lemma RoundIsNearest(v: real, lo: nat, hi: nat, s: nat)
    requires lo <= s <= hi <= U16_MAX
    ensures var k := if Round(v) < lo then lo else if Round(v) > hi then hi else Round(v);
            Off(k, v) <= Off(s, v) && (Off(k, v) == Off(s, v) ==> s <= k)
  {
    hide Round;
    var r := Round(v);
    if -0.5 <= v < U16_MAX as real + 0.5 { assert r as real - 0.5 <= v < r as real + 0.5; }
  }

  /** The first child's share is as close to its ratio of the whole as the minimums allow:
      no other share that keeps them is closer, and of two as close it is the greater. */
  lemma ShareIsNearest(inner: nat, ratio: real, s: nat)
    requires inner <= U16_MAX && s <= inner
    requires inner > 2 * MIN_PANE ==> MIN_PANE <= s <= inner - MIN_PANE
    ensures var want := inner as real * ratio;
            && Off(Share(inner, ratio), want) <= Off(s, want)
            && (Off(Share(inner, ratio), want) == Off(s, want) ==> s <= Share(inner, ratio))
  {
    hide Round, Off;
    var want := inner as real * ratio;
    if inner > 2 * MIN_PANE {
      RoundIsNearest(want, MIN_PANE, inner - MIN_PANE, s);
    } else {
      RoundIsNearest(want, 0, inner, s);
    }
  }

  // ---------------------------------------------------------------- the two clamps

  function Min(a: real, b: real): real { if a < b then a else b }

  function Max(a: real, b: real): real { if a > b then a else b }

  /** A zero extent divides to infinity in the source, which leaves one half. */
  function ClampRatio(ratio: real, extent: nat): real {
    if extent == 0 then 0.5
    else
      var min := (MIN_PANE as real + 0.5) / extent as real;
      var lo, hi := Min(min, 0.5), Max(1.0 - min, 0.5);
      Max(lo, Min(ratio, hi))
  }

  lemma RoundMonotone(a: real, b: real)
    requires a <= b
    ensures Round(a) <= Round(b)
  {
  }

  lemma ShareMonotone(inner: nat, a: real, b: real)
    requires a <= b
    ensures Share(inner, a) <= Share(inner, b)
  {
    assert inner as real * a <= inner as real * b;
    RoundMonotone(inner as real * a, inner as real * b);
  }

  /** Where the minimums bind, the least and greatest ratios the clamp allows already
      round to them. */
  lemma ClampEnds(extent: nat)
    requires 2 * MIN_PANE + 1 < extent <= U16_MAX
    ensures var min := (MIN_PANE as real + 0.5) / extent as real;
            && 0.0 < min < 0.5
            && Round((extent - 1) as real * min) == MIN_PANE
            && Round((extent - 1) as real * (1.0 - min)) == extent - 1 - MIN_PANE
  {
    var e := extent as real;
    var min := 2.5 / e;
    assert min * e == 2.5;
    assert (extent - 1) as real == e - 1.0;
    assert (e - 1.0) * min == 2.5 - min;
    assert (e - 1.0) * (1.0 - min) == e - 3.5 + min;
    assert (0.5 - min) * e > 0.0;
    var n: int := extent - 3;
    assert n as real == e - 3.0;
  }

  lemma ShareEnds(extent: nat, min: real)
    requires 2 * MIN_PANE + 1 < extent <= U16_MAX && min == (MIN_PANE as real + 0.5) / extent as real
    ensures Share(extent - 1, min) == MIN_PANE && Share(extent - 1, 1.0 - min) == extent - 1 - MIN_PANE
  {
    ClampEnds(extent);
  }

  /** The clamp on the stored ratio never fights the clamp on the rendered share. */
  lemma ClampsAgree(ratio: real, extent: nat)
    requires 2 * MIN_PANE + 1 < extent <= U16_MAX
    ensures Share(extent - 1, ClampRatio(ratio, extent)) == Share(extent - 1, ratio)
  {
    var min := (MIN_PANE as real + 0.5) / extent as real;
    ClampEnds(extent);
    assert ClampRatio(ratio, extent) == Max(min, Min(ratio, 1.0 - min));
    ShareEnds(extent, min);
    if ratio < min {
      ShareMonotone(extent - 1, ratio, min);
    } else if ratio > 1.0 - min {
      ShareMonotone(extent - 1, 1.0 - min, ratio);
    }
  }

  /** They agree on every ratio at exactly the extents the resize guard admits, and at the
      two where there is nothing to share. */
  lemma ClampsAgreeExactly(extent: nat)
    requires extent <= U16_MAX
    ensures (forall ratio :: Share(Inner(extent), ClampRatio(ratio, extent)) == Share(Inner(extent), ratio))
            <==> extent <= 1 || extent > 2 * MIN_PANE + 1
  {
    if extent > 2 * MIN_PANE + 1 {
      forall ratio ensures Share(Inner(extent), ClampRatio(ratio, extent)) == Share(Inner(extent), ratio) {
        ClampsAgree(ratio, extent);
      }
    } else if extent > 1 {
      assert ClampRatio(0.0, extent) == 0.5;
      assert Share(Inner(extent), 0.0) == 0;
      assert (extent - 1) as real * 0.5 >= 0.5;
      assert Share(Inner(extent), 0.5) > 0;
    }
  }
}
