/**
 The resize directive's geometry: which edge or corner the pointer is over,
 and the preview rectangle a drag produces, clamped to a minimum size while
 the edge opposite the dragged one stays where it was.
 */
module Resizable {
  import opened Base

  /** `ResizeDirection` without its `null`; `null` is `None`. */
  datatype Direction = N | S | E | W | NW | NE | SW | SE

  /** Thickness in pixels of the band along each border that starts a resize. */
  const ZoneSize: int := 8
  const MinWidth: int := 100
  const MinHeight: int := 80

  /** `direction.includes('e')` and its three siblings. */
  predicate East(d: Direction) { d == E || d == NE || d == SE }
  predicate West(d: Direction) { d == W || d == NW || d == SW }
  predicate South(d: Direction) { d == S || d == SW || d == SE }
  predicate North(d: Direction) { d == N || d == NW || d == NE }

  /** The cursor the directive shows over each zone. */
  function CursorFor(d: Option<Direction>): (c: string)
    ensures d.None? <==> c == "default"
  {
    match d
    case None => "default"
    case Some(NW) => "nwse-resize"
    case Some(SE) => "nwse-resize"
    case Some(NE) => "nesw-resize"
    case Some(SW) => "nesw-resize"
    case Some(N) => "ns-resize"
    case Some(S) => "ns-resize"
    case Some(W) => "ew-resize"
    case Some(E) => "ew-resize"
  }

  /**
   `updateCursorAndDirection`: the zone under the pointer at offset (x, y) in an
   element of the given inner size. Corners win over single edges; the
   interior gives no direction.
   */
  function Classify(x: int, y: int, width: int, height: int): (d: Option<Direction>)
    ensures var left, right, top, bottom := x < ZoneSize, x > width - ZoneSize, y < ZoneSize, y > height - ZoneSize;
      && (d.None? <==> !left && !right && !top && !bottom)
      // a corner is reported whenever the pointer is in two bands at once
      && (top && left ==> d == Some(NW))
      && (top && right && !left ==> d == Some(NE))
      && (bottom && left && !top ==> d == Some(SW))
      && (bottom && right && !top && !left ==> d == Some(SE))
      // a single band names its edge; in an element too small for both, north and west win
      && (top && !left && !right ==> d == Some(N))
      && (bottom && !top && !left && !right ==> d == Some(S))
      && (left && !top && !bottom ==> d == Some(W))
      && (right && !top && !bottom && !left ==> d == Some(E))
      // the reported direction only names bands the pointer is in
      && (d.Some? ==> (North(d.value) ==> top) && (South(d.value) ==> bottom)
                      && (West(d.value) ==> left) && (East(d.value) ==> right))
  {
    var left, right, top, bottom := x < ZoneSize, x > width - ZoneSize, y < ZoneSize, y > height - ZoneSize;
    if top && left then Some(NW)
    else if top && right then Some(NE)
    else if bottom && left then Some(SW)
    else if bottom && right then Some(SE)
    else if top then Some(N)
    else if bottom then Some(S)
    else if left then Some(W)
    else if right then Some(E)
    else None
  }

  /** A rectangle in page pixels. */
  datatype Rect = Rect(left: int, top: int, width: int, height: int)

  /**
   The directive's drag state: whether a resize is running, its direction, whether
   the preview outline exists, the element's rectangle and the pointer position
   when the drag started.
   */
  datatype Drag = Drag(
    resizing: bool,
    direction: Option<Direction>,
    hasOutline: bool,
    start: Rect,
    startX: int,
    startY: int)

  function Max(a: int, b: int): int { if a < b then b else a }

  /**
   `onResize`: the preview rectangle for the pointer at (clientX, clientY), or
   `None` when the handler returns without touching the preview.
   */
  function OnResize(drag: Drag, clientX: int, clientY: int): (r: Option<Rect>)
    ensures r.None? <==> !drag.resizing || drag.direction.None? || !drag.hasOutline
    ensures r.Some? ==>
              var d, s, dx, dy := drag.direction.value, drag.start, clientX - drag.startX, clientY - drag.startY;
              // never below the minimum size
              && r.value.width >= MinWidth && r.value.height >= MinHeight
              // dragging an edge moves it by the pointer's travel, unless that breaks the minimum
              && r.value.width == Max(if East(d) then s.width + dx else if West(d) then s.width - dx else s.width, MinWidth)
              && r.value.height == Max(if South(d) then s.height + dy else if North(d) then s.height - dy else s.height, MinHeight)
              // the opposite edge stays put: west and north drags keep the right and bottom edges
              && (West(d) ==> r.value.left + r.value.width == s.left + s.width)
              && (North(d) ==> r.value.top + r.value.height == s.top + s.height)
              // other drags never move the left or top edge
              && (!West(d) ==> r.value.left == s.left)
              && (!North(d) ==> r.value.top == s.top)
  {
    if !drag.resizing || drag.direction.None? || !drag.hasOutline then None
    else
      var d, s := drag.direction.value, drag.start;
      var dx, dy := clientX - drag.startX, clientY - drag.startY;
      var width := if West(d) then s.width - dx else if East(d) then s.width + dx else s.width;
      var left := if West(d) then s.left + dx else s.left;
      var height := if North(d) then s.height - dy else if South(d) then s.height + dy else s.height;
      var top := if North(d) then s.top + dy else s.top;
      var left' := if width < MinWidth && West(d) then left - (MinWidth - width) else left;
      var width' := if width < MinWidth then MinWidth else width;
      var top' := if height < MinHeight && North(d) then top - (MinHeight - height) else top;
      var height' := if height < MinHeight then MinHeight else height;
      Some(Rect(left', top', width', height'))
  }

  /** What the directive emits when the drag ends: the new size and the move of the top-left corner. */
  datatype Resized = Resized(width: int, height: int, deltaX: Option<int>, deltaY: Option<int>)

  /**
   `stopResize`: the outline's rectangle, read back from the page, becomes the
   new size and the offset from the start position; without an outline the
   start size and no movement are reported. Nothing is emitted unless a resize
   is running.
   */
  function StopResize(drag: Drag, outline: Option<Rect>): (e: Option<Resized>)
    ensures e.None? <==> !drag.resizing
    ensures e.Some? && outline.Some? ==>
              && e.value.width == outline.value.width && e.value.height == outline.value.height
              && e.value.deltaX.Some? && e.value.deltaY.Some?
              && drag.start.left + e.value.deltaX.value == outline.value.left
              && drag.start.top + e.value.deltaY.value == outline.value.top
    ensures e.Some? && outline.None? ==> e.value == Resized(drag.start.width, drag.start.height, Some(0), Some(0))
  {
    if !drag.resizing then None
    else match outline
      case None => Some(Resized(drag.start.width, drag.start.height, Some(0), Some(0)))
      case Some(o) => Some(Resized(o.width, o.height, Some(o.left - drag.start.left), Some(o.top - drag.start.top)))
  }

  /** A drag that does not move the pointer leaves an element of at least the minimum size as it was. */
  lemma StillDragIsIdentity(drag: Drag)
    requires drag.resizing && drag.direction.Some? && drag.hasOutline
    requires drag.start.width >= MinWidth && drag.start.height >= MinHeight
    ensures OnResize(drag, drag.startX, drag.startY) == Some(drag.start)
  {
  }

  /** Dragging further out never gives a smaller preview: width is monotone in the pointer's travel. */
  lemma EastWidthMonotone(drag: Drag, x1: int, x2: int, y: int)
    requires drag.resizing && drag.direction.Some? && drag.hasOutline && East(drag.direction.value)
    requires x1 <= x2
    ensures OnResize(drag, x1, y).value.width <= OnResize(drag, x2, y).value.width
    ensures OnResize(drag, x1, y).value.left == OnResize(drag, x2, y).value.left
  {
  }
}
