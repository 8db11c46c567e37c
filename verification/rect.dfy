/**
 * The border zone of the event-driven display: an axis-aligned rectangle
 * tagged with the monitor index and the border it stands for.
 */
module Rect {
  import opened Common

  datatype Rect = Rect(x: int, y: int, w: int, h: int, screen: int, border: byte)

  /** `rect::inside`: closed on all four sides, so a rectangle of width w
      spans the w + 1 columns x .. x + w. */
  predicate Inside(r: Rect, px: int, py: int)
  {
    px >= r.x && px <= r.x + r.w && py >= r.y && py <= r.y + r.h
  }

  /** Both the origin corner and the far corner are inside. */
  lemma CornersInside(r: Rect)
    requires r.w >= 0 && r.h >= 0
    ensures Inside(r, r.x, r.y)
    ensures Inside(r, r.x + r.w, r.y + r.h)
  {
  }

  /** A rectangle one pixel wide covers exactly two columns. */
  lemma UnitWidthCoversTwoColumns(r: Rect, py: int)
    requires r.w == 1 && r.y <= py <= r.y + r.h
    ensures forall px :: Inside(r, px, py) <==> px == r.x || px == r.x + 1
  {
  }
}
