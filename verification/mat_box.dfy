/** `MatBox.java`: a box paired with the region of the source image cropped
    around it. The image itself is not modelled; only its size and the
    rectangle that `fromImage` hands to `submat` are. */
module MatBoxes {
  import opened Wrappers
  import opened Boxes

  /** A box and the rectangle of the image it was cropped from. The box keeps
      the unpadded rectangle; `crop` is the padded one passed to `submat`. */
  datatype MatBox = MatBox(box: Box, crop: Rect)

  /** Why `fromImage` failed: OpenCV's `submat` rejects a region with a
      negative width or height. */
  datatype CropError = NegativeExtent

  /** The box lies in the image: its bounds are within `[0, width]` and
      `[0, height]`. */
  predicate InsideImage(b: Box, imageWidth: nat, imageHeight: nat) {
    0 <= b.StartX() && b.EndX() <= imageWidth && 0 <= b.StartY() && b.EndY() <= imageHeight
  }

  /** The points the crop is meant to cover: within `padding` of the box on
      each axis, and inside the image. */
  predicate InWindow(box: Box, imageWidth: nat, imageHeight: nat, padding: int, p: Point) {
    && 0 <= p.x <= imageWidth && 0 <= p.y <= imageHeight
    && box.StartX() - padding <= p.x <= box.EndX() + padding
    && box.StartY() - padding <= p.y <= box.EndY() + padding
  }

  /** `fromImage`: grow the box by `padding` on every side, clamp the grown
      rectangle to the image, and crop that region.

      The crop covers exactly the points of the window: the image's points
      within `padding` of the box. When no point is in the window the clamped
      rectangle has a negative extent and `submat` throws. When the box is
      inside the image and the padding is not negative the crop succeeds and
      contains the box, and with no padding it is exactly the box's
      rectangle. The returned `MatBox` keeps the input box unchanged. */
  function FromImage(box: Box, imageWidth: nat, imageHeight: nat, padding: int): (r: Result<MatBox, CropError>)
    requires box.Valid()
    ensures r.Success? ==> r.value.box == box && Box(r.value.crop).Valid()
    ensures r.Success? ==> forall p: Point {:trigger InWindow(box, imageWidth, imageHeight, padding, p)} ::
      Box(r.value.crop).Covers(p) <==> InWindow(box, imageWidth, imageHeight, padding, p)
    ensures r.Failure? ==> forall p: Point {:trigger InWindow(box, imageWidth, imageHeight, padding, p)} ::
      !InWindow(box, imageWidth, imageHeight, padding, p)
    ensures InsideImage(box, imageWidth, imageHeight) && padding >= 0 ==>
      r.Success? && Encloses(Box(r.value.crop), box)
    ensures InsideImage(box, imageWidth, imageHeight) && padding == 0 ==>
      r.Success? && r.value.crop == box.rect
  {
    var startX := Max(0, box.rect.x - padding);
    var startY := Max(0, box.rect.y - padding);
    var endX := Min(imageWidth, box.EndX() + padding);
    var endY := Min(imageHeight, box.EndY() + padding);
    var padded := Rect(startX, startY, endX - startX, endY - startY);
    if padded.width < 0 || padded.height < 0 then Failure(NegativeExtent)
    else Success(MatBox(box, padded))
  }

  /** Growing the padding never shrinks the crop of a box inside the image. */
  lemma PaddingMonotone(box: Box, imageWidth: nat, imageHeight: nat, p: int, q: int)
    requires box.Valid() && InsideImage(box, imageWidth, imageHeight)
    requires 0 <= p <= q
    ensures FromImage(box, imageWidth, imageHeight, p).Success?
    ensures FromImage(box, imageWidth, imageHeight, q).Success?
    ensures Encloses(Box(FromImage(box, imageWidth, imageHeight, q).value.crop),
                     Box(FromImage(box, imageWidth, imageHeight, p).value.crop))
  {
  }
}
