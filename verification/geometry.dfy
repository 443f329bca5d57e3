/** Qt's integer rectangle as the editor uses it (blackoutpdf.py, BOPDF.py).

    A QRect is stored by its four edges, all inclusive: left x1, top y1,
    right x2, bottom y2, so that width() is x2 - x1 + 1. Rectangles are
    compared by value, as Python's `==` on QRect does. */
module Geometry {
  import opened Results

  datatype Point = Point(x: int, y: int)

  datatype Rect = Rect(x1: int, y1: int, x2: int, y2: int) {
    function Width(): int { x2 - x1 + 1 }
    function Height(): int { y2 - y1 + 1 }
    function TopLeft(): Point { Point(x1, y1) }
    function TopRight(): Point { Point(x2, y1) }
    function BottomLeft(): Point { Point(x1, y2) }
    function BottomRight(): Point { Point(x2, y2) }
  }

  /** QRect(): the null rectangle, width and height 0. */
  const NullRect := Rect(0, 0, -1, -1)

  /** QRect(x, y, w, h). */
  function RectXYWH(x: int, y: int, w: int, h: int): (r: Rect)
    ensures r.TopLeft() == Point(x, y) && r.Width() == w && r.Height() == h
  {
    Rect(x, y, x + w - 1, y + h - 1)
  }

  /** QRect(topLeft, bottomRight). */
  function RectCorners(a: Point, b: Point): (r: Rect)
    ensures r.TopLeft() == a && r.BottomRight() == b
  {
    Rect(a.x, a.y, b.x, b.y)
  }

  function Abs(n: int): nat {
    if n < 0 then -n else n
  }

  /** QRect.normalized() in Qt 6. An axis whose right edge lies left of its
      left edge (x2 < x1) gets the edges x2 + 1 and x1 - 1: the reversed
      corners are read as exclusive and turned into inclusive ones. Hence
      the width becomes |width()| rather than |x2 - x1| + 1, a rectangle of
      non-negative size is returned as it is, and contains() is unaffected. */
  function Normalized(r: Rect): (n: Rect)
    ensures n.Width() == Abs(r.Width()) && n.Height() == Abs(r.Height())
    ensures r.Width() >= 0 && r.Height() >= 0 ==> n == r
    ensures forall x, y :: Contains(n, x, y) <==> Contains(r, x, y)
  {
    Rect(if r.x2 < r.x1 then r.x2 + 1 else r.x1, if r.y2 < r.y1 then r.y2 + 1 else r.y1,
         if r.x2 < r.x1 then r.x1 - 1 else r.x2, if r.y2 < r.y1 then r.y1 - 1 else r.y2)
  }

  /** The closed interval Qt's contains() tests along one axis: the edges
      themselves, unless the extent is negative, in which case the span from
      the far edge + 1 to the near edge - 1. */
  function Span(lo: int, hi: int): (r: (int, int))
    ensures hi >= lo - 1 ==> r == (lo, hi)
  {
    if hi < lo - 1 then (hi + 1, lo - 1) else (lo, hi)
  }

  /** QRect.contains(x, y) (not proper): on each axis the point lies between
      the edges, inclusively when they are in order and exclusively when they
      are reversed, so a rectangle of width or height 0 contains nothing. */
  predicate Contains(r: Rect, x: int, y: int)
    ensures Contains(r, x, y) <==>
      && (r.x1 <= x <= r.x2 || r.x2 < x < r.x1)
      && (r.y1 <= y <= r.y2 || r.y2 < y < r.y1)
  {
    var (l, rt) := Span(r.x1, r.x2);
    var (t, b) := Span(r.y1, r.y2);
    l <= x <= rt && t <= y <= b
  }

  /** For a rectangle of non-negative size, contains() is membership in the
      inclusive edges; an empty one contains nothing. */
  lemma ContainsInside(r: Rect, x: int, y: int)
    requires r.Width() >= 0 && r.Height() >= 0
    ensures Contains(r, x, y) <==> r.x1 <= x <= r.x2 && r.y1 <= y <= r.y2
    ensures r.Width() == 0 || r.Height() == 0 ==> !Contains(r, x, y)
  {
  }

  /** QRect.moveTo(x, y): same size, top-left at (x, y). */
  function MoveTo(r: Rect, x: int, y: int): (m: Rect)
    ensures m.TopLeft() == Point(x, y)
    ensures m.Width() == r.Width() && m.Height() == r.Height()
  {
    Rect(x, y, x + r.x2 - r.x1, y + r.y2 - r.y1)
  }

  /** The four resize handles of a selected item. */
  datatype Handle = NW | NE | SW | SE

  /** CaviardableImage.HANDLE_SIZE. */
  const HandleSize := 12

  /** The corner a handle sits on. */
  function Corner(r: Rect, h: Handle): Point {
    match h
    case NW => r.TopLeft()
    case NE => r.TopRight()
    case SW => r.BottomLeft()
    case SE => r.BottomRight()
  }

  /** The corner diagonally opposite a handle. */
  function Opposite(r: Rect, h: Handle): Point {
    match h
    case NW => r.BottomRight()
    case NE => r.BottomLeft()
    case SW => r.TopRight()
    case SE => r.TopLeft()
  }

  /** get_handles: a HANDLE_SIZE square centred (by s//2) on each corner. */
  function HandleRect(r: Rect, h: Handle): (q: Rect)
    ensures q.Width() == HandleSize && q.Height() == HandleSize
    ensures Contains(q, Corner(r, h).x, Corner(r, h).y)
  {
    var c := Corner(r, h);
    RectXYWH(c.x - HandleSize / 2, c.y - HandleSize / 2, HandleSize, HandleSize)
  }

  /** handle_at_pos: the first handle, in the order nw, ne, sw, se, whose
      square contains the point. */
  function HandleAt(r: Rect, x: int, y: int): (h: Option<Handle>)
    ensures h.Some? ==> Contains(HandleRect(r, h.value), x, y)
    ensures h.None? <==> forall k: Handle :: !Contains(HandleRect(r, k), x, y)
  {
    if Contains(HandleRect(r, NW), x, y) then Some(NW)
    else if Contains(HandleRect(r, NE), x, y) then Some(NE)
    else if Contains(HandleRect(r, SW), x, y) then Some(SW)
    else if Contains(HandleRect(r, SE), x, y) then Some(SE)
    else None
  }

  /** On a rectangle at least HANDLE_SIZE wide and high, pressing exactly on a
      corner grabs that corner's handle. */
  lemma HandleAtCorner(r: Rect, h: Handle)
    requires r.x2 - r.x1 >= HandleSize && r.y2 - r.y1 >= HandleSize
    ensures HandleAt(r, Corner(r, h).x, Corner(r, h).y) == Some(h)
  {
    var c := Corner(r, h);
    forall k: Handle | k != h
      ensures !Contains(HandleRect(r, k), c.x, c.y)
    {
      ContainsInside(HandleRect(r, k), c.x, c.y);
    }
  }

  /** The extent a corner drag must leave strictly exceeded (min_size). */
  const MinSize := 16

  /** The horizontal and vertical extents a drag of handle `h` to (nx, ny)
      would leave, measured from the opposite corner as the source does. */
  function DragExtents(r: Rect, h: Handle, nx: int, ny: int): (int, int) {
    match h
    case NW => (r.x2 - nx, r.y2 - ny)
    case NE => (nx - r.x1, r.y2 - ny)
    case SW => (r.x2 - nx, ny - r.y1)
    case SE => (nx - r.x1, ny - r.y1)
  }

  /** The resize branch of mouseMoveEvent: the dragged corner moves to
      (nx, ny) only if both resulting extents exceed MinSize; otherwise the
      rectangle is unchanged. The opposite corner never moves. */
  function Resize(r: Rect, h: Handle, nx: int, ny: int): (q: Rect)
    ensures Opposite(q, h) == Opposite(r, h)
    ensures q == r || Corner(q, h) == Point(nx, ny)
    ensures q != r ==> q.x2 - q.x1 > MinSize && q.y2 - q.y1 > MinSize
    ensures DragExtents(r, h, nx, ny).0 > MinSize && DragExtents(r, h, nx, ny).1 > MinSize
            <==> Corner(q, h) == Point(nx, ny) && q.x2 - q.x1 > MinSize && q.y2 - q.y1 > MinSize
  {
    var (dw, dh) := DragExtents(r, h, nx, ny);
    if dw > MinSize && dh > MinSize then
      match h
      case NW => r.(x1 := nx, y1 := ny)
      case NE => r.(x2 := nx, y1 := ny)
      case SW => r.(x1 := nx, y2 := ny)
      case SE => r.(x2 := nx, y2 := ny)
    else r
  }

  /** A rectangle whose extents exceed MinSize keeps that property under any
      corner drag. */
  lemma ResizeKeepsMinimum(r: Rect, h: Handle, nx: int, ny: int)
    requires r.x2 - r.x1 > MinSize && r.y2 - r.y1 > MinSize
    ensures Resize(r, h, nx, ny).x2 - Resize(r, h, nx, ny).x1 > MinSize
    ensures Resize(r, h, nx, ny).y2 - Resize(r, h, nx, ny).y1 > MinSize
  {
  }
}
