/** The System.Drawing value types the recogniser works with. */
module Geometry {

  /** A pixel position; `x` is the column and `y` the row. */
  datatype Point = Point(x: int, y: int)

  /** An axis-aligned rectangle given by its top-left corner and its size. */
  datatype Rectangle = Rectangle(x: int, y: int, width: int, height: int)
  {
    /** The `Area()` extension the deduplicator sorts and compares by. */
    function Area(): int {
      width * height
    }

    /** `Rectangle.Inflate(dx, dy)`: grows the rectangle by dx on the left and
        on the right and by dy at the top and at the bottom. */
    function Inflate(dx: int, dy: int): Rectangle {
      Rectangle(x - dx, y - dy, width + 2 * dx, height + 2 * dy)
    }

    /** `Rectangle.Contains(Rectangle r)`: r lies entirely inside this rectangle. */
    predicate Contains(r: Rectangle) {
      x <= r.x && r.x + r.width <= x + width &&
      y <= r.y && r.y + r.height <= y + height
    }
  }
}
