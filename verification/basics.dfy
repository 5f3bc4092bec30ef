/** Values shared by every part of the model: Swift optionals and CGPoint. */
module Basics {

  /** A Swift optional: `nil` or a wrapped value. */
  datatype Option<+T> = None | Some(value: T)

  /** A CGPoint. Coordinates are reals, so CGFloat rounding is not modelled. */
  datatype Point = Point(x: real, y: real)

  /** CGPointZero. */
  const Zero := Point(0.0, 0.0)

  /** The `-` operator of the CGPoint extension: component-wise difference. */
  function Minus(a: Point, b: Point): Point {
    Point(a.x - b.x, a.y - b.y)
  }

  /** The `/` operator of the CGPoint extension: both components divided by `d`. */
  function Divide(a: Point, d: real): Point
    requires d != 0.0
  {
    Point(a.x / d, a.y / d)
  }
}
