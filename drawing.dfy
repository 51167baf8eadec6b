/**
 * Pixel coordinates and an abstract model of an image that is drawn on in place.
 * Only the sequence of drawing calls is recorded; colours, fonts, thickness and
 * anti-aliasing are not modelled.
 */
module Drawing {

  /** A pixel position: column `x`, row `y`, as the (x, y) tuples the drawing calls take. */
  datatype Point = Point(x: int, y: int)

  /** One drawing call on an image. */
  datatype Mark =
    | Disc(center: Point, radius: nat)       // a filled circle
    | Label(landmark: nat, origin: Point)    // the decimal text of a landmark index
    | Line(from: Point, to: Point)           // a straight segment

  /** An image that drawing calls mutate; `marks` is everything drawn on it so far, in order. */
  class Canvas {
    var marks: seq<Mark>

    constructor ()
      ensures marks == []
    {
      marks := [];
    }

    /** A filled circle, as `cv2.circle(img, center, radius, color, thickness=-1)`. */
    method Circle(center: Point, radius: nat)
      modifies this
      ensures marks == old(marks) + [Disc(center, radius)]
    {
      marks := marks + [Disc(center, radius)];
    }

    /** The index of a landmark written at a point, as `cv2.putText(img, "{}".format(i), origin, ...)`. */
    method PutText(landmark: nat, origin: Point)
      modifies this
      ensures marks == old(marks) + [Label(landmark, origin)]
    {
      marks := marks + [Label(landmark, origin)];
    }

    /** A segment between two points, as `cv2.line(img, from, to, color)`. */
    method Line(from: Point, to: Point)
      modifies this
      ensures marks == old(marks) + [Mark.Line(from, to)]
    {
      marks := marks + [Mark.Line(from, to)];
    }
  }
}
