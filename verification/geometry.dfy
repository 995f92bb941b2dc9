/**
  Axis-aligned integer rectangles in the pixel convention of Qt's QRect,
  restricted to the queries the parking controller makes of them.
*/
module Geometry {
  import opened Numbers

  /** A rectangle whose top-left pixel is (x, y) and which covers `width`
      columns and `height` rows: its last column is x + width - 1 and its
      last row y + height - 1. */
  datatype Rect = Rect(x: int, y: int, width: int, height: int) {

    /** Both sides positive; every rectangle the controller builds is proper. */
    predicate Proper() { width > 0 && height > 0 }

    function Right(): int { x + width - 1 }

    function Bottom(): int { y + height - 1 }

    /** Pixel (px, py) is covered by this rectangle. */
    predicate Contains(px: int, py: int) {
      x <= px <= Right() && y <= py <= Bottom()
    }

    /** QRect::adjusted: the top-left corner moves by (dx1, dy1) and the
        bottom-right corner by (dx2, dy2). */
    function Adjusted(dx1: int, dy1: int, dx2: int, dy2: int): (r: Rect)
      ensures r.x == x + dx1 && r.y == y + dy1
      ensures r.Right() == Right() + dx2 && r.Bottom() == Bottom() + dy2
    {
      Rect(x + dx1, y + dy1, width - dx1 + dx2, height - dy1 + dy2)
    }

    /** QRect::intersects on proper rectangles: the column ranges overlap and
        the row ranges overlap. */
    predicate Intersects(other: Rect) {
      && Proper() && other.Proper()
      && x <= other.Right() && other.x <= Right()
      && y <= other.Bottom() && other.y <= Bottom()
    }

    /** QRect::width() / 2.0 added to the left edge, in exact arithmetic. */
    function CenterX(): real { x as real + width as real / 2.0 }

    function CenterY(): real { y as real + height as real / 2.0 }
  }

  /** The overlap test agrees with its meaning: two proper rectangles
      intersect exactly when some pixel lies in both. */
  lemma IntersectsIffCommonPixel(a: Rect, b: Rect)
    requires a.Proper() && b.Proper()
    ensures a.Intersects(b) <==> exists px, py :: a.Contains(px, py) && b.Contains(px, py)
  {
    if a.Intersects(b) {
      var px, py := Max(a.x, b.x), Max(a.y, b.y);
      assert a.Contains(px, py) && b.Contains(px, py);
    }
  }
}
