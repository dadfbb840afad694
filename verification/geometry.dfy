/** Screen layout constants and the rectangle tests the game relies on.
    Coordinates are exact reals with y growing downward, as on screen. */
module Geometry {

  /** Window size and the y-coordinate where bodies stand on the ground. */
  const Width: int := 800
  const Height: int := 450
  const GroundY: int := 320

  /** A rectangle by its top-left corner and its size, as pygame's Rect and
      Pygame Zero's ZRect store it. */
  datatype Rect = Rect(left: real, top: real, width: real, height: real) {
    function Right(): real { left + width }
    function Bottom(): real { top + height }
  }

  /** `colliderect`: the interiors intersect on both axes, so two rectangles
      that only share an edge do not collide. */
  predicate Overlaps(a: Rect, b: Rect) {
    a.left < b.Right() && b.left < a.Right() && a.top < b.Bottom() && b.top < a.Bottom()
  }

  /** `collidepoint`: the left and top edges are inside the rectangle, the
      right and bottom edges are not. */
  predicate Contains(r: Rect, px: real, py: real) {
    r.left <= px < r.Right() && r.top <= py < r.Bottom()
  }

  /** The bounds of an Actor of size `w` by `h` whose position `(x, y)` is its
      centre (the default anchor). */
  function ActorBounds(x: real, y: real, w: real, h: real): (r: Rect)
    ensures r.width == w && r.height == h
    ensures r.left + w / 2.0 == x && r.top + h / 2.0 == y
  {
    Rect(x - w / 2.0, y - h / 2.0, w, h)
  }
}
