/**
  Raster images and the two CoreGraphics primitives the upscaler relies on:
  drawing an image into a bitmap context, and cropping an image.

  Every image here is a grid of rows counted from the TOP (row 0 is the top
  row), which is how `CGImage.cropping(to:)` counts.  A bitmap context's
  `draw(_:in:)` counts y from the BOTTOM instead; `Draw` converts: an image
  of height h drawn at y-up offset y occupies rows
  [canvasHeight - y - h, canvasHeight - y).
*/
module Raster {
  import opened Wrappers

  /** An opaque pixel; `Blank` is the transparent pixel a fresh context holds. */
  datatype Pixel = Blank | Painted(rgba: nat)

  datatype Image = Image(width: nat, height: nat, rows: seq<seq<Pixel>>) {

    /** The grid really has `height` rows of `width` pixels. */
    predicate WellFormed() {
      |rows| == height && forall r :: 0 <= r < |rows| ==> |rows[r]| == width
    }

    /** A CGImage always has at least one pixel on each axis. */
    predicate Valid() {
      WellFormed() && width >= 1 && height >= 1
    }
  }

  /** A `width` x `height` image of blank pixels. */
  function BlankImage(width: nat, height: nat): (img: Image)
    ensures img.WellFormed() && img.width == width && img.height == height
    ensures forall r, c :: 0 <= r < height && 0 <= c < width ==> img.rows[r][c] == Blank
  {
    Image(width, height, seq(height, _ => seq(width, _ => Blank)))
  }

  /** Two well-formed images with the same size and the same pixels are equal. */
  lemma ImageEquality(a: Image, b: Image)
    requires a.WellFormed() && b.WellFormed()
    requires a.width == b.width && a.height == b.height
    requires forall r, c :: 0 <= r < a.height && 0 <= c < a.width ==> a.rows[r][c] == b.rows[r][c]
    ensures a == b
  {
    forall r | 0 <= r < a.height
      ensures a.rows[r] == b.rows[r]
    {
    }
  }

  /** The image a bitmap context holds (`CGContext.makeImage`). */
  function Snapshot(canvas: array2<Pixel>): (img: Image)
    reads canvas
    ensures img.WellFormed() && img.width == canvas.Length1 && img.height == canvas.Length0
    ensures forall r, c :: 0 <= r < img.height && 0 <= c < img.width ==> img.rows[r][c] == canvas[r, c]
  {
    Image(canvas.Length1, canvas.Length0,
      seq(canvas.Length0, r requires 0 <= r < canvas.Length0 reads canvas =>
        seq(canvas.Length1, c requires 0 <= c < canvas.Length1 reads canvas => canvas[r, c])))
  }

  /** Top row of an image of height `h` drawn at y-up offset `y` into a canvas of height `canvasHeight`. */
  function DrawTop(canvasHeight: nat, y: nat, h: nat): int {
    canvasHeight - y - h
  }

  /** Whether cell (row, col) lies in the rectangle an image of size `w` x `h` covers when its top-left cell is (top, left). */
  predicate Covers(top: int, left: int, w: nat, h: nat, row: int, col: int) {
    top <= row < top + h && left <= col < left + w
  }

  /**
    `context.draw(img, in: CGRect(x: x, y: y, width: img.width, height: img.height))`:
    copies `img` unscaled into the rectangle whose lower-left corner is (x, y)
    in the context's y-up frame, clipped to the canvas.  Every other cell
    keeps its value.
  */
  method Draw(canvas: array2<Pixel>, img: Image, x: nat, y: nat)
    requires img.WellFormed()
    modifies canvas
    ensures var top := DrawTop(canvas.Length0, y, img.height);
      forall row, col :: 0 <= row < canvas.Length0 && 0 <= col < canvas.Length1 ==>
        canvas[row, col] == if Covers(top, x, img.width, img.height, row, col)
                            then img.rows[row - top][col - x]
                            else old(canvas[row, col])
  {
    var top := DrawTop(canvas.Length0, y, img.height);
    for i := 0 to img.height
      invariant forall row, col :: 0 <= row < canvas.Length0 && 0 <= col < canvas.Length1 ==>
        canvas[row, col] == if Covers(top, x, img.width, i, row, col)
                            then img.rows[row - top][col - x]
                            else old(canvas[row, col])
    {
      for j := 0 to img.width
        invariant forall row, col :: 0 <= row < canvas.Length0 && 0 <= col < canvas.Length1 ==>
          canvas[row, col] == if Covers(top, x, img.width, i, row, col) || Covers(top + i, x, j, 1, row, col)
                              then img.rows[row - top][col - x]
                              else old(canvas[row, col])
      {
        if 0 <= top + i < canvas.Length0 && x + j < canvas.Length1 {
          canvas[top + i, x + j] := img.rows[i][j];
        }
      }
    }
  }

  function Max(a: int, b: int): int { if a < b then b else a }

  function Min(a: int, b: int): int { if a < b then a else b }

  /**
    `img.cropping(to: CGRect(x: x, y: y, width: w, height: h))`, with y
    counted from the top: the part of the rectangle that lies inside the
    image, or `None` when that part is empty.
  */
  function Crop(img: Image, x: int, y: int, w: nat, h: nat): (r: Option<Image>)
    requires img.WellFormed()
    ensures r.Some? <==> (Max(x, 0) < Min(x + w, img.width) && Max(y, 0) < Min(y + h, img.height))
    ensures r.Some? ==> r.value.Valid()
    ensures r.Some? ==>
      && r.value.width == Min(x + w, img.width) - Max(x, 0)
      && r.value.height == Min(y + h, img.height) - Max(y, 0)
      && forall i, j :: 0 <= i < r.value.height && 0 <= j < r.value.width ==>
           r.value.rows[i][j] == img.rows[Max(y, 0) + i][Max(x, 0) + j]
  {
    var left, top := Max(x, 0), Max(y, 0);
    var right, bottom := Min(x + w, img.width), Min(y + h, img.height);
    if left >= right || top >= bottom then None
    else
      Some(Image(right - left, bottom - top,
        seq(bottom - top, i requires 0 <= i < bottom - top =>
          seq(right - left, j requires 0 <= j < right - left => img.rows[top + i][left + j]))))
  }

  /** A nonempty rectangle inside the image is cut out exactly: its size and every pixel. */
  lemma CropInside(img: Image, x: nat, y: nat, w: nat, h: nat)
    requires img.WellFormed()
    requires 1 <= w && x + w <= img.width && 1 <= h && y + h <= img.height
    ensures Crop(img, x, y, w, h).Some?
    ensures var r := Crop(img, x, y, w, h).value;
      r.width == w && r.height == h &&
      forall i, j :: 0 <= i < h && 0 <= j < w ==> r.rows[i][j] == img.rows[y + i][x + j]
  {
  }
}
