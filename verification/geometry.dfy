/**
 * CoreGraphics rectangles over `real`. A `Rect` keeps origin and size as
 * stored; the accessors standardise it the way `CGRect` does, so a negative
 * width or height describes the same area as its mirror image.
 */
module Geometry {

  datatype Point = Point(x: real, y: real)

  datatype Size = Size(width: real, height: real)

  datatype Rect = Rect(x: real, y: real, w: real, h: real)

  function Abs(a: real): real {
    if a < 0.0 then -a else a
  }

  function Width(r: Rect): real { Abs(r.w) }

  function Height(r: Rect): real { Abs(r.h) }

  function MinX(r: Rect): real { if r.w < 0.0 then r.x + r.w else r.x }

  function MinY(r: Rect): real { if r.h < 0.0 then r.y + r.h else r.y }

  function MaxX(r: Rect): real { MinX(r) + Width(r) }

  function MaxY(r: Rect): real { MinY(r) + Height(r) }

  function MidX(r: Rect): real { MinX(r) + Width(r) / 2.0 }

  function MidY(r: Rect): real { MinY(r) + Height(r) / 2.0 }

  function Center(r: Rect): Point { Point(MidX(r), MidY(r)) }

  /** `CGRect.width * CGRect.height`. */
  function Area(r: Rect): real { Width(r) * Height(r) }

  /** `CGRect.isEmpty`: zero width or zero height. */
  predicate IsEmpty(r: Rect) { r.w == 0.0 || r.h == 0.0 }

  /** `CGRect.contains(_:)`: half-open on both axes, min <= p < max. */
  predicate Contains(r: Rect, p: Point) {
    MinX(r) <= p.x < MaxX(r) && MinY(r) <= p.y < MaxY(r)
  }

  /** `insetBy(dx: -m, dy: -m)`: the standardised rect grown by `m` on every side. */
  function Outset(r: Rect, m: real): (g: Rect)
    requires m >= 0.0
    ensures forall p :: Contains(r, p) ==> Contains(g, p)
    ensures Width(g) == Width(r) + 2.0 * m && Height(g) == Height(r) + 2.0 * m
  {
    Rect(MinX(r) - m, MinY(r) - m, Width(r) + 2.0 * m, Height(r) + 2.0 * m)
  }

  /** An empty rect contains no point. */
  lemma EmptyContainsNothing(r: Rect, p: Point)
    requires IsEmpty(r)
    ensures !Contains(r, p)
  {
  }

  /**
   * A normalised recognizer box (origin at the bottom-left, unit square) in
   * top-left coordinates of a `size` canvas: x = bx * W, y = (1 - by - bh) * H,
   * w = bw * W, h = bh * H.
   */
  function FlipBox(box: Rect, size: Size): (r: Rect)
    requires size.width >= 0.0 && size.height >= 0.0
    ensures r.w >= 0.0 && r.h >= 0.0
    ensures Width(r) == Width(box) * size.width && Height(r) == Height(box) * size.height
    ensures r.y + r.h == (1.0 - box.y) * size.height
  {
    Rect(box.x * size.width, (1.0 - box.y - Height(box)) * size.height,
         Width(box) * size.width, Height(box) * size.height)
  }

  /** The inverse conversion: a top-left rect back to a normalised bottom-left box. */
  function UnflipRect(r: Rect, size: Size): Rect
    requires size.width > 0.0 && size.height > 0.0
  {
    Rect(r.x / size.width, 1.0 - (r.y + Height(r)) / size.height,
         Width(r) / size.width, Height(r) / size.height)
  }

  /** Flipping a standardised box into a non-degenerate canvas and back gives the box again. */
  lemma FlipRoundTrip(box: Rect, size: Size)
    requires size.width > 0.0 && size.height > 0.0
    requires box.w >= 0.0 && box.h >= 0.0
    ensures UnflipRect(FlipBox(box, size), size) == box
  {
    var r := FlipBox(box, size);
    assert r.x / size.width == box.x;
    assert Height(r) / size.height == box.h;
    var top := r.y + Height(r);
    assert top == (1.0 - box.y) * size.height;
    DivCancel(1.0 - box.y, size.height);
  }

  lemma DivCancel(c: real, d: real)
    requires d != 0.0
    ensures (c * d) / d == c
  {
  }

  /** A box inside the unit square lands inside the canvas. */
  lemma FlipStaysInCanvas(box: Rect, size: Size)
    requires size.width >= 0.0 && size.height >= 0.0
    requires 0.0 <= box.x && 0.0 <= box.w && box.x + box.w <= 1.0
    requires 0.0 <= box.y && 0.0 <= box.h && box.y + box.h <= 1.0
    ensures var r := FlipBox(box, size);
      0.0 <= r.x && r.x + r.w <= size.width && 0.0 <= r.y && r.y + r.h <= size.height
  {
    var r := FlipBox(box, size);
    assert r.x + r.w == (box.x + box.w) * size.width;
    assert r.y == (1.0 - box.y - box.h) * size.height;
  }

  /** {0.1, 0.2, 0.3, 0.1} in a 1000 x 2000 canvas becomes {100, 1400, 300, 200}. */
  lemma FlipExample()
    ensures FlipBox(Rect(0.1, 0.2, 0.3, 0.1), Size(1000.0, 2000.0)) == Rect(100.0, 1400.0, 300.0, 200.0)
  {
  }
}
