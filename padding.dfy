/**
  The padder: a dimension is rounded up to the next multiple of the tile
  size, and the image is drawn at the origin of a blank context of the
  rounded size.  The context's y axis points up, so the original lands in
  the BOTTOM-left corner and all padding lies along the top and the right.
*/
module Padding {
  import opened Wrappers
  import opened Raster

  /** `roundUpToNextMultiple(n, multipleOf: m)`: the smallest multiple of `m` that is at least `n`. */
  function RoundUpToNextMultiple(n: nat, m: nat): (r: nat)
    requires m > 0
    ensures r % m == 0
    ensures n <= r < n + m
    ensures n % m == 0 ==> r == n
    ensures forall k: nat :: n <= k && k % m == 0 ==> r <= k
  {
    if n % m == 0 then
      MultiplesAbove(n, m, n / m);
      n
    else
      var q := n / m;
      MultipleMod(q + 1, m);
      MultiplesAbove(n, m, q + 1);
      (q + 1) * m
  }

  /** Every multiple of `m` that is at least `n` is at least `q * m`, when `q` is `n / m` rounded up. */
  lemma MultiplesAbove(n: nat, m: nat, q: nat)
    requires m > 0
    requires q == n / m || (q == n / m + 1 && n % m != 0)
    ensures forall k: nat :: n <= k && k % m == 0 ==> q * m <= k
  {
    forall k: nat | n <= k && k % m == 0
      ensures q * m <= k
    {
      MultipleAtLeast(n, m, q, k);
    }
  }

  lemma MultipleAtLeast(n: nat, m: nat, q: nat, k: nat)
    requires m > 0 && n <= k && k % m == 0
    requires q == n / m || (q == n / m + 1 && n % m != 0)
    ensures q * m <= k
  {
    var p, d := k / m, n / m;
    assert k == p * m;
    assert n == d * m + n % m;
    if p + 1 <= d {
      MulMonotone(p + 1, d, m);
      assert false;
    }
    if p == d {
      assert n % m == 0;
    } else {
      MulMonotone(q, p, m);
    }
  }

  /** A multiple of `m` leaves no remainder. */
  lemma MultipleMod(q: nat, m: nat)
    requires m > 0
    ensures (q * m) % m == 0 && (q * m) / m == q
  {
    var d, r := (q * m) / m, (q * m) % m;
    assert q * m == d * m + r;
    assert (q - d) * m == r;
    if q - d >= 1 {
      MulMonotone(1, q - d, m);
    } else if q - d <= -1 {
      MulMonotone(1, d - q, m);
    }
  }

  lemma MulMonotone(a: int, b: int, m: nat)
    requires a <= b
    ensures a * m <= b * m
  {
    assert b * m - a * m == (b - a) * m;
  }

  /** Rounding up is idempotent. */
  lemma RoundUpIdempotent(n: nat, m: nat)
    requires m > 0
    ensures RoundUpToNextMultiple(RoundUpToNextMultiple(n, m), m) == RoundUpToNextMultiple(n, m)
  {
  }

  /**
    The image `padImageToTile(image, tileSize)` returns: the smallest
    tile-multiple size, the original in the bottom rows and left columns,
    blank everywhere else.
  */
  function Padded(image: Image, tileSize: nat): (padded: Image)
    requires image.Valid() && tileSize > 0
    ensures padded.Valid()
    ensures padded.width % tileSize == 0 && image.width <= padded.width < image.width + tileSize
    ensures padded.height % tileSize == 0 && image.height <= padded.height < image.height + tileSize
  {
    var w := RoundUpToNextMultiple(image.width, tileSize);
    var h := RoundUpToNextMultiple(image.height, tileSize);
    var top := h - image.height;
    Image(w, h,
      seq(h, r requires 0 <= r < h =>
        seq(w, c requires 0 <= c < w =>
          if top <= r && c < image.width then image.rows[r - top][c] else Blank)))
  }

  /** Padding keeps every original pixel at its place counted from the bottom-left, and pads with blanks. */
  lemma PaddedPixels(image: Image, tileSize: nat)
    requires image.Valid() && tileSize > 0
    ensures var padded := Padded(image, tileSize);
      var top := padded.height - image.height;
      (forall r, c :: 0 <= r < image.height && 0 <= c < image.width ==>
        padded.rows[top + r][c] == image.rows[r][c]) &&
      (forall r, c :: 0 <= r < padded.height && 0 <= c < padded.width && (r < top || image.width <= c) ==>
        padded.rows[r][c] == Blank)
  {
  }

  /** An image whose sides are already tile multiples is padded to itself. */
  lemma PaddedIdentity(image: Image, tileSize: nat)
    requires image.Valid() && tileSize > 0
    requires image.width % tileSize == 0 && image.height % tileSize == 0
    ensures Padded(image, tileSize) == image
  {
    ImageEquality(Padded(image, tileSize), image);
  }

  /** Cropping the padded image at the padding anchor gives the original back. */
  lemma CropUndoesPadding(image: Image, tileSize: nat)
    requires image.Valid() && tileSize > 0
    ensures var padded := Padded(image, tileSize);
      Crop(padded, 0, padded.height - image.height, image.width, image.height) == Some(image)
  {
    var padded := Padded(image, tileSize);
    var top := padded.height - image.height;
    CropInside(padded, 0, top, image.width, image.height);
    ImageEquality(Crop(padded, 0, top, image.width, image.height).value, image);
  }

  /**
    `padImageToTile(image, tileSize: tileSize)`: allocates a blank context of
    the rounded-up size, draws the original at (0, 0) and takes its image.
  */
  method PadImageToTile(image: Image, tileSize: nat) returns (padded: Image)
    requires image.Valid() && tileSize > 0
    ensures padded == Padded(image, tileSize)
  {
    var paddedWidth := RoundUpToNextMultiple(image.width, tileSize);
    var paddedHeight := RoundUpToNextMultiple(image.height, tileSize);
    var context := new Pixel[paddedHeight, paddedWidth]((_, _) => Blank);
    Draw(context, image, 0, 0);
    padded := Snapshot(context);
    ImageEquality(padded, Padded(image, tileSize));
  }
}
