/** Face rectangles in integer pixel coordinates and the margin-widened,
    image-clamped crop box used for person thumbnails. */
module Geometry {

  /** `(left, top, right, bottom)`; RetinaFace's `facial_area` `[x1, y1, x2, y2]`
      is read in this order. */
  datatype Box = Box(left: int, top: int, right: int, bottom: int)

  /** `(right - left) * (bottom - top)`; negative for an inverted box. */
  function Area(b: Box): int
  {
    (b.right - b.left) * (b.bottom - b.top)
  }

  /** `MARGIN = 30` / `margin = 30`. */
  const Margin: int := 30

  predicate InSpan(x: int, lo: int, hi: int)
  {
    lo <= x <= hi
  }

  /** The face box widened by `Margin` on every side, with left and top
      raised to 0 and right and bottom lowered to the image width and height. */
  function CropBox(b: Box, width: int, height: int): (r: Box)
    ensures r.left >= 0 && r.left >= b.left - Margin && (r.left == 0 || r.left == b.left - Margin)
    ensures r.top >= 0 && r.top >= b.top - Margin && (r.top == 0 || r.top == b.top - Margin)
    ensures r.right <= width && r.right <= b.right + Margin
            && (r.right == width || r.right == b.right + Margin)
    ensures r.bottom <= height && r.bottom <= b.bottom + Margin
            && (r.bottom == height || r.bottom == b.bottom + Margin)
  {
    Box(if b.left - Margin < 0 then 0 else b.left - Margin,
        if b.top - Margin < 0 then 0 else b.top - Margin,
        if width < b.right + Margin then width else b.right + Margin,
        if height < b.bottom + Margin then height else b.bottom + Margin)
  }

  /** The crop's horizontal and vertical spans are exactly the image's spans
      intersected with the widened face box's spans. */
  lemma {:induction false} CropIsIntersection(b: Box, width: int, height: int)
    ensures var r := CropBox(b, width, height);
            && (forall x :: InSpan(x, r.left, r.right) <==>
                  InSpan(x, 0, width) && InSpan(x, b.left - Margin, b.right + Margin))
            && (forall y :: InSpan(y, r.top, r.bottom) <==>
                  InSpan(y, 0, height) && InSpan(y, b.top - Margin, b.bottom + Margin))
  {
  }

  /** A face box inside the image stays inside the crop, and the crop stays
      inside the image. */
  lemma {:induction false} CropContainsFace(b: Box, width: int, height: int)
    requires 0 <= b.left <= b.right <= width && 0 <= b.top <= b.bottom <= height
    ensures var r := CropBox(b, width, height);
            && 0 <= r.left <= b.left && b.right <= r.right <= width
            && 0 <= r.top <= b.top && b.bottom <= r.bottom <= height
  {
  }

  /** Pillow's `crop` refuses a box whose right edge lies left of its left
      edge or whose lower edge lies above its upper edge. */
  predicate Croppable(r: Box)
  {
    r.left <= r.right && r.top <= r.bottom
  }
}
