/** The offset at which a row of the picker is on screen, over the reals. */
module Scroll {
  import opened Strings

  const ROW_SPACING: real := 2.0

  /** The list as it was last drawn: `scale` turns estimated heights into the pixels of the others. */
  datatype ListMetrics = ListMetrics(viewport: real, offset: real, scale: real)

  function Sum(heights: seq<real>): real {
    if heights == [] then 0.0 else Sum(heights[..|heights| - 1]) + heights[|heights| - 1]
  }

  function ContentHeight(heights: seq<real>): real {
    var gaps := if |heights| == 0 then 0 else |heights| - 1;
    Sum(heights) + gaps as real * ROW_SPACING
  }

  function RowTop(heights: seq<real>, index: nat): real {
    var above := heights[..if index < |heights| then index else |heights|];
    Sum(above) + |above| as real * ROW_SPACING
  }

  function Top(heights: seq<real>, index: nat, scale: real): real {
    RowTop(heights, index) * scale
  }

  function Height(heights: seq<real>, index: nat, scale: real): real
    requires index < |heights|
  {
    heights[index] * scale
  }

  function Bottom(heights: seq<real>, index: nat, scale: real): real
    requires index < |heights|
  {
    Top(heights, index, scale) + Height(heights, index, scale)
  }

  function Content(heights: seq<real>, scale: real): real {
    ContentHeight(heights) * scale
  }

  function ScrollOffset(heights: seq<real>, index: nat, list: ListMetrics): Option<real> {
    if index >= |heights| then None
    else
      var top, bottom := Top(heights, index, list.scale), Bottom(heights, index, list.scale);
      if Content(heights, list.scale) <= list.viewport then None
      else if top < list.offset then Some(top)
      else if bottom > list.offset + list.viewport then
        Some(if bottom - list.viewport < top then bottom - list.viewport else top)
      else None
  }

  /** The list once it has been scrolled as told. */
  function Scrolled(heights: seq<real>, index: nat, list: ListMetrics): ListMetrics {
    match ScrollOffset(heights, index, list)
    case None => list
    case Some(offset) => list.(offset := offset)
  }

  ghost predicate Drawable(heights: seq<real>, list: ListMetrics) {
    (forall h <- heights :: h >= 0.0) && list.scale > 0.0 && list.viewport >= 0.0
  }

  /** Nothing is scrolled past the end, or before the beginning. */
  ghost predicate InRange(heights: seq<real>, list: ListMetrics) {
    var furthest := Content(heights, list.scale) - list.viewport;
    0.0 <= list.offset <= if furthest > 0.0 then furthest else 0.0
  }

  ghost predicate FullyVisible(heights: seq<real>, index: nat, list: ListMetrics)
    requires index < |heights|
  {
    list.offset <= Top(heights, index, list.scale) && Bottom(heights, index, list.scale) <= list.offset + list.viewport
  }

  /** Rows follow one another with one gap between, the first at the top and the last at the end. */
  lemma {:induction false} RowsTile(heights: seq<real>, index: nat)
    requires index < |heights|
    ensures index == 0 ==> RowTop(heights, index) == 0.0
    ensures index + 1 < |heights| ==>
              RowTop(heights, index + 1) == RowTop(heights, index) + heights[index] + ROW_SPACING
    ensures index + 1 == |heights| ==> ContentHeight(heights) == RowTop(heights, index) + heights[index]
  {
    assert heights[..index + 1][..index] == heights[..index];
    assert heights[..|heights|] == heights;
  }

  lemma {:induction false} RowsAreInside(heights: seq<real>, index: nat)
    requires index < |heights| && forall h <- heights :: h >= 0.0
    ensures 0.0 <= RowTop(heights, index) && RowTop(heights, index) + heights[index] <= ContentHeight(heights)
  {
    BelowTheTop(heights, index);
    AboveTheEnd(heights, index);
  }

  lemma {:induction false} BelowTheTop(heights: seq<real>, index: nat)
    requires index < |heights| && forall h <- heights :: h >= 0.0
    ensures 0.0 <= RowTop(heights, index)
  {
    RowsTile(heights, index);
    if index > 0 {
      BelowTheTop(heights, index - 1);
      RowsTile(heights, index - 1);
      assert heights[index - 1] in heights;
    }
  }

  lemma {:induction false} AboveTheEnd(heights: seq<real>, index: nat)
    requires index < |heights| && forall h <- heights :: h >= 0.0
    ensures RowTop(heights, index) + heights[index] <= ContentHeight(heights)
    decreases |heights| - index
  {
    RowsTile(heights, index);
    if index + 1 < |heights| {
      AboveTheEnd(heights, index + 1);
      assert heights[index + 1] in heights;
    }
  }

  lemma {:induction false} ScalingKeepsOrder(a: real, b: real, scale: real)
    requires a <= b && scale > 0.0
    ensures a * scale <= b * scale
  {
  }

  lemma {:induction false} DrawnInside(heights: seq<real>, index: nat, list: ListMetrics)
    requires Drawable(heights, list) && index < |heights|
    ensures 0.0 <= Top(heights, index, list.scale) <= Bottom(heights, index, list.scale) <= Content(heights, list.scale)
  {
    RowsAreInside(heights, index);
    assert heights[index] in heights;
    ScalingKeepsOrder(0.0, RowTop(heights, index), list.scale);
    ScalingKeepsOrder(0.0, heights[index], list.scale);
    ScalingKeepsOrder(RowTop(heights, index) + heights[index], ContentHeight(heights), list.scale);
    assert (RowTop(heights, index) + heights[index]) * list.scale == Bottom(heights, index, list.scale);
  }

  /** The row is on screen, from its top if it is taller than the screen; the list stays in range;
      and asking again does not move it. */
  lemma {:induction false} ScrollingShowsTheRow(heights: seq<real>, index: nat, list: ListMetrics)
    requires Drawable(heights, list) && InRange(heights, list) && index < |heights|
    ensures var after := Scrolled(heights, index, list);
            && InRange(heights, after)
            && (Height(heights, index, list.scale) <= list.viewport ==> FullyVisible(heights, index, after))
            && (Height(heights, index, list.scale) > list.viewport ==> after.offset == Top(heights, index, list.scale))
            && Scrolled(heights, index, after) == after
  {
    hide Top;
    hide Height;
    hide Content;
    DrawnInside(heights, index, list);
  }

  /** A row already in full view asks for none, at any offset. */
  lemma {:induction false} VisibleRowsStay(heights: seq<real>, index: nat, list: ListMetrics)
    requires index < |heights| && FullyVisible(heights, index, list)
    ensures ScrollOffset(heights, index, list).None?
  {
  }

  /** No offset that shows the whole row is nearer than the one the list is scrolled to. */
  lemma {:induction false} ScrollingMovesAsLittleAsItCan(heights: seq<real>, index: nat, list: ListMetrics, other: real)
    requires Drawable(heights, list) && InRange(heights, list) && index < |heights|
    requires FullyVisible(heights, index, list.(offset := other))
    ensures var after := Scrolled(heights, index, list).offset;
            (if after < list.offset then list.offset - after else after - list.offset)
            <= if other < list.offset then list.offset - other else other - list.offset
  {
    hide Top;
    hide Height;
    hide Content;
    DrawnInside(heights, index, list);
  }
}
