/**
 * The drag-to-select canvas (`ImageAnnotation.tsx`): pressing starts a
 * rectangle, moving previews it, and releasing reports it when it is larger
 * than five pixels each way. Pointer positions are canvas coordinates; an
 * absent position stands for a canvas that is not mounted.
 */
module ImageAnnotation {
  import opened Wrappers

  datatype Point = Point(x: real, y: real)

  datatype Rect = Rect(x: real, y: real, width: real, height: real)

  /** The component's state: whether a drag is on, and where it started. */
  datatype Drag = Drag(drawing: bool, start: Option<Point>)

  /** What the component tells its parent through `onSelectionChange`. */
  datatype Report = Silent | Cleared | Selected(rect: Rect)

  function Min(a: real, b: real): real {
    if a <= b then a else b
  }

  function Abs(a: real): real {
    if a < 0.0 then -a else a
  }

  /** The rectangle spanned by two corners, whatever direction the drag took. */
  function DragRect(a: Point, b: Point): (r: Rect)
    ensures r.width >= 0.0 && r.height >= 0.0
    ensures (r.x == a.x || r.x == b.x) && r.x <= a.x && r.x <= b.x
    ensures (r.y == a.y || r.y == b.y) && r.y <= a.y && r.y <= b.y
    ensures r.x + r.width == (if a.x >= b.x then a.x else b.x)
    ensures r.y + r.height == (if a.y >= b.y then a.y else b.y)
  {
    Rect(Min(a.x, b.x), Min(a.y, b.y), Abs(a.x - b.x), Abs(a.y - b.y))
  }

  /** Swapping the corners gives the same rectangle. */
  lemma DragRectSymmetric(a: Point, b: Point)
    ensures DragRect(a, b) == DragRect(b, a)
  {
  }

  /** Both corners lie on the rectangle's boundary box. */
  predicate Covers(r: Rect, p: Point) {
    r.x <= p.x <= r.x + r.width && r.y <= p.y <= r.y + r.height
  }

  /** The rectangle is the smallest box holding both corners. */
  lemma DragRectIsBoundingBox(a: Point, b: Point, box: Rect)
    requires Covers(box, a) && Covers(box, b)
    ensures Covers(DragRect(a, b), a) && Covers(DragRect(a, b), b)
    ensures box.x <= DragRect(a, b).x && DragRect(a, b).x + DragRect(a, b).width <= box.x + box.width
    ensures box.y <= DragRect(a, b).y && DragRect(a, b).y + DragRect(a, b).height <= box.y + box.height
  {
  }

  const MinSide := 5.0

  /**
   * `handleMouseDown`: ignored when disabled or without a position;
   * otherwise a drag starts there and the current selection is cleared.
   */
  function MouseDown(d: Drag, disabled: bool, pos: Option<Point>): (r: (Drag, Report))
    ensures disabled || pos.None? ==> r == (d, Silent)
    ensures !disabled && pos.Some? ==> r == (Drag(true, pos), Cleared)
  {
    if disabled || pos.None? then (d, Silent) else (Drag(true, pos), Cleared)
  }

  /**
   * `handleMouseMove`: the rectangle drawn as a preview, only while a drag
   * that has a start point is on. The state does not change.
   */
  function MouseMove(d: Drag, pos: Option<Point>): (r: Option<Rect>)
    ensures r.Some? <==> d.drawing && d.start.Some? && pos.Some?
    ensures r.Some? ==> r.value == DragRect(d.start.value, pos.value)
  {
    if !d.drawing || d.start.None? || pos.None? then None else Some(DragRect(d.start.value, pos.value))
  }

  /**
   * `handleMouseUp`: nothing at all without a start point; otherwise the drag
   * ends, and the rectangle is reported when both sides exceed five pixels.
   */
  function MouseUp(d: Drag, pos: Option<Point>): (r: (Drag, Report))
    ensures d.start.None? ==> r == (d, Silent)
    ensures d.start.Some? ==> r.0 == Drag(false, None)
    ensures r.1.Selected? <==>
      d.start.Some? && pos.Some?
      && DragRect(d.start.value, pos.value).width > MinSide && DragRect(d.start.value, pos.value).height > MinSide
    ensures r.1.Selected? ==> r.1.rect == DragRect(d.start.value, pos.value)
    ensures !r.1.Cleared?
  {
    if d.start.None? then (d, Silent)
    else
      var report :=
        if pos.Some? then
          var rect := DragRect(d.start.value, pos.value);
          if rect.width > MinSide && rect.height > MinSide then Selected(rect) else Silent
        else Silent;
      (Drag(false, None), report)
  }

  /** Leaving the canvas stops drawing but keeps the start point. */
  function MouseLeave(d: Drag): (r: Drag)
    ensures !r.drawing && r.start == d.start
  {
    d.(drawing := false)
  }

  /**
   * A press followed by a release reports a selection exactly when the two
   * points are more than five pixels apart both ways, and the release always
   * ends the drag.
   */
  lemma PressRelease(d: Drag, a: Point, b: Point)
    ensures var (pressed, _) := MouseDown(d, false, Some(a));
      var (released, report) := MouseUp(pressed, Some(b));
      released == Drag(false, None)
      && (report.Selected? <==> Abs(a.x - b.x) > MinSide && Abs(a.y - b.y) > MinSide)
  {
  }

  /** A click without moving never selects anything. */
  lemma ClickSelectsNothing(d: Drag, a: Point)
    ensures MouseUp(MouseDown(d, false, Some(a)).0, Some(a)).1 == Silent
  {
  }

  /**
   * After leaving the canvas mid-drag the preview stops, but a release still
   * reports the rectangle from the original start point.
   */
  lemma LeaveKeepsPendingRelease(d: Drag, b: Point)
    requires d.start.Some?
    ensures MouseMove(MouseLeave(d), Some(b)).None?
    ensures MouseUp(MouseLeave(d), Some(b)) == MouseUp(d, Some(b))
  {
  }
}
