/**
  `tileUpscaleImage` and `upscale`: pad the image, run the network on every
  512-pixel tile, draw each 2048-pixel result into one shared canvas at
  the tile's slot, crop the canvas back to four times the original size,
  and ask for a resize to the original size.

  The network is a parameter `infer`: it receives the padded image and the
  normalised region of interest and returns an upscaled tile, or nothing
  when the request fails.
*/
module Upscale {
  import opened Wrappers
  import opened Raster
  import opened Padding
  import opened Tiling

  /** An upscaled tile: the source draws it at its own size, which is fixed here at the 2048 x 2048 the network produces. */
  type Tile = t: Image | t.Valid() && t.width == UpscaledTileSize && t.height == UpscaledTileSize
    witness BlankImage(UpscaledTileSize, UpscaledTileSize)

  /**
    The loaded super-resolution network, applied to a padded image and a
    region of interest.  A request that fails or yields no usable pixel
    buffer answers `None`.
  */
  type Infer = (Image, Rect) -> Option<Tile>

  /** The errors `upscale` throws: the file does not load, the network does not load, the final crop fails. */
  datatype UpscaleError = ImageLoadFailed | ModelLoadFailed | CropFailed

  /**
    The pixel the shared canvas holds at (row, col) once every tile has
    been processed: the matching pixel of the upscaled tile whose block
    contains the cell, or blank when that tile's request returned nothing.
  */
  function ComposedPixel(padded: Image, infer: Infer, row: nat, col: nat): Pixel
    requires padded.Valid() && row < padded.height * ScaleFactor
  {
    var canvasHeight := padded.height * ScaleFactor;
    var t := CellTile(canvasHeight, row, col);
    match infer(padded, RegionOfInterest(t.h, t.v, TileSize, padded.width, padded.height))
    case None => Blank
    case Some(tile) => tile.rows[row - BlockTop(canvasHeight, t.v)][col - t.h * UpscaledTileSize]
  }

  /** The padded, upscaled canvas after the tile loop. */
  function Composed(padded: Image, infer: Infer): (canvas: Image)
    requires padded.Valid()
    ensures canvas.Valid()
    ensures canvas.width == padded.width * ScaleFactor && canvas.height == padded.height * ScaleFactor
  {
    var width, height := padded.width * ScaleFactor, padded.height * ScaleFactor;
    Image(width, height,
      seq(height, row requires 0 <= row < height =>
        seq(width, col requires 0 <= col < width => ComposedPixel(padded, infer, row, col))))
  }

  /**
    Inside the block of tile (h, v) the canvas holds exactly that tile's
    upscaled output, unscaled and upright, or blanks when its request
    returned nothing.
  */
  lemma ComposedBlock(padded: Image, infer: Infer, h: nat, v: nat, i: nat, j: nat)
    requires padded.Valid() && padded.width % TileSize == 0 && padded.height % TileSize == 0
    requires h < TileCount(padded.width, TileSize) && v < TileCount(padded.height, TileSize)
    requires i < UpscaledTileSize && j < UpscaledTileSize
    ensures var canvas := Composed(padded, infer);
      var row := BlockTop(canvas.height, v) + i;
      0 <= row < canvas.height && h * UpscaledTileSize + j < canvas.width &&
      canvas.rows[row][h * UpscaledTileSize + j] ==
        match infer(padded, RegionOfInterest(h, v, TileSize, padded.width, padded.height))
        case None => Blank
        case Some(tile) => tile.rows[i][j]
  {
    var horizontalTiles, verticalTiles := TileCount(padded.width, TileSize), TileCount(padded.height, TileSize);
    var height := padded.height * ScaleFactor;
    var row, col := BlockTop(height, v) + i, h * UpscaledTileSize + j;
    assert height == verticalTiles * UpscaledTileSize;
    PlacementBlocksPartition(horizontalTiles, verticalTiles, row, col, h, v);
  }

  /**
    What `tileUpscaleImage` returns: the composed canvas cropped to the
    rectangle (0, paddedUpscaledHeight - upscaledHeight, upscaledWidth,
    upscaledHeight), y counted from the top.
  */
  function TileUpscaled(image: Image, infer: Infer): (r: Result<Image, UpscaleError>)
    requires image.Valid()
    ensures r.Success? && r.value.Valid()
    ensures r.value.width == image.width * ScaleFactor && r.value.height == image.height * ScaleFactor
  {
    var canvas := Composed(Padded(image, TileSize), infer);
    var upscaledWidth, upscaledHeight := image.width * ScaleFactor, image.height * ScaleFactor;
    match Crop(canvas, 0, canvas.height - upscaledHeight, upscaledWidth, upscaledHeight)
    case None => Failure(CropFailed)
    case Some(cropped) => Success(cropped)
  }

  /**
    The crop rectangle lies inside the canvas, so the crop never fails: the
    result is exactly 4W x 4H, and its pixel (r, c) is canvas pixel
    (paddedUpscaledHeight - 4H + r, c).
  */
  lemma TileUpscaledShape(image: Image, infer: Infer)
    requires image.Valid()
    ensures var padded := Padded(image, TileSize);
      var top := padded.height * ScaleFactor - image.height * ScaleFactor;
      var result := TileUpscaled(image, infer);
      && 0 <= top && image.width * ScaleFactor <= padded.width * ScaleFactor
      && result.Success?
      && result.value.width == image.width * ScaleFactor
      && result.value.height == image.height * ScaleFactor
      && forall r, c :: 0 <= r < result.value.height && 0 <= c < result.value.width ==>
           result.value.rows[r][c] == ComposedPixel(padded, infer, top + r, c)
  {
    var padded := Padded(image, TileSize);
    var canvas := Composed(padded, infer);
    var upscaledWidth, upscaledHeight := image.width * ScaleFactor, image.height * ScaleFactor;
    CropInside(canvas, 0, canvas.height - upscaledHeight, upscaledWidth, upscaledHeight);
  }

  /** Whether tile `t` comes before tile (h, v) in the loop's order. */
  predicate Before(t: TileIndex, h: nat, v: nat) {
    t.h < h || (t.h == h && t.v < v)
  }

  /**
    The loop invariant of the tile loop: the canvas has the padded, upscaled
    size, the blocks of the tiles processed before (h, v) hold what the
    composed canvas holds, and every other cell is still blank.
  */
  ghost predicate ComposedUpTo(context: array2<Pixel>, padded: Image, infer: Infer, h: nat, v: nat)
    reads context
    requires padded.Valid()
  {
    && context.Length0 == padded.height * ScaleFactor
    && context.Length1 == padded.width * ScaleFactor
    && forall row, col :: 0 <= row < context.Length0 && 0 <= col < context.Length1 ==>
         context[row, col] == if Before(CellTile(context.Length0, row, col), h, v)
                              then ComposedPixel(padded, infer, row, col) else Blank
  }

  /**
    One iteration of the tile loop: asks the network for the region of
    interest of tile (h, v) and draws the tile it returns, if any, at
    (h * 2048, v * 2048) in the canvas's y-up frame.  Only the tile's own
    block changes, and it then holds what the composed canvas holds there;
    a failed request changes nothing.  The block was blank before, so
    drawing over it is the same as copying into it.
  */
  method UpscaleTile(context: array2<Pixel>, padded: Image, infer: Infer, h: nat, v: nat)
    requires padded.Valid() && padded.width % TileSize == 0 && padded.height % TileSize == 0
    requires h < TileCount(padded.width, TileSize) && v < TileCount(padded.height, TileSize)
    requires ComposedUpTo(context, padded, infer, h, v)
    modifies context
    ensures forall row, col :: 0 <= row < context.Length0 && 0 <= col < context.Length1 ==>
      context[row, col] == if CellTile(context.Length0, row, col) == TileIndex(h, v)
                           then ComposedPixel(padded, infer, row, col) else old(context[row, col])
    ensures ComposedUpTo(context, padded, infer, h, v + 1)
  {
    var horizontalTiles, verticalTiles := TileCount(padded.width, TileSize), TileCount(padded.height, TileSize);
    assert context.Length0 == verticalTiles * UpscaledTileSize;
    assert context.Length1 == horizontalTiles * UpscaledTileSize;
    var roi := RegionOfInterest(h, v, TileSize, padded.width, padded.height);
    var observation := infer(padded, roi);
    if observation.Some? {
      Draw(context, observation.value, h * UpscaledTileSize, v * UpscaledTileSize);
    }
    forall row, col | 0 <= row < context.Length0 && 0 <= col < context.Length1
      ensures context[row, col] == if CellTile(context.Length0, row, col) == TileIndex(h, v)
                                   then ComposedPixel(padded, infer, row, col) else old(context[row, col])
    {
      PlacementBlocksPartition(horizontalTiles, verticalTiles, row, col, h, v);
    }
  }

  /** A finished column hands over to the next one: every cell's tile row is below `verticalTiles`. */
  lemma ComposedUpToNextColumn(context: array2<Pixel>, padded: Image, infer: Infer, h: nat)
    requires padded.Valid() && padded.height % TileSize == 0
    requires ComposedUpTo(context, padded, infer, h, TileCount(padded.height, TileSize))
    ensures ComposedUpTo(context, padded, infer, h + 1, 0)
  {
    var verticalTiles := TileCount(padded.height, TileSize);
    forall row, col | 0 <= row < context.Length0 && 0 <= col < context.Length1
      ensures CellTile(context.Length0, row, col).v < verticalTiles
    {
      PlacementBlocksPartition(col / UpscaledTileSize + 1, verticalTiles, row, col, 0, 0);
    }
  }

  /** Once every column is done, the canvas is the composed canvas. */
  lemma ComposedUpToAll(context: array2<Pixel>, padded: Image, infer: Infer)
    requires padded.Valid() && padded.width % TileSize == 0 && padded.height % TileSize == 0
    requires ComposedUpTo(context, padded, infer, TileCount(padded.width, TileSize), 0)
    ensures Snapshot(context) == Composed(padded, infer)
  {
    var horizontalTiles, verticalTiles := TileCount(padded.width, TileSize), TileCount(padded.height, TileSize);
    forall row, col | 0 <= row < context.Length0 && 0 <= col < context.Length1
      ensures context[row, col] == ComposedPixel(padded, infer, row, col)
    {
      PlacementBlocksPartition(horizontalTiles, verticalTiles, row, col, 0, 0);
    }
    ImageEquality(Snapshot(context), Composed(padded, infer));
  }

  /**
    `tileUpscaleImage(image:)`: pads the image, allocates a blank canvas of
    the padded, upscaled size, and for every tile column `h` and every tile
    row `v` asks the network for the tile's region of interest and draws the
    tile it returns (if any) at (h * 2048, v * 2048) in the canvas's y-up
    frame; then crops.  A failed request leaves its block blank and the
    loop goes on.  `model` is the network as loading it turned out: `None`
    when it does not load, which aborts before any tile is processed.
    `visits` records the order the tiles are processed in.
  */
  method TileUpscaleImage(image: Image, model: Option<Infer>) returns (result: Result<Image, UpscaleError>, ghost visits: seq<TileIndex>)
    requires image.Valid()
    ensures model.None? ==> result == Failure(ModelLoadFailed) && visits == []
    ensures model.Some? ==> result == TileUpscaled(image, model.value)
    ensures model.Some? ==> var padded := Padded(image, TileSize);
      visits == GridOrder(TileCount(padded.width, TileSize), TileCount(padded.height, TileSize))
  {
    if model.None? {
      return Failure(ModelLoadFailed), [];
    }
    var infer := model.value;
    var upscaledWidth := image.width * ScaleFactor;
    var upscaledHeight := image.height * ScaleFactor;
    var padded := PadImageToTile(image, TileSize);
    var paddedUpscaledWidth := padded.width * ScaleFactor;
    var paddedUpscaledHeight := padded.height * ScaleFactor;
    var horizontalTiles := TileCount(padded.width, TileSize);
    var verticalTiles := TileCount(padded.height, TileSize);

    var context := new Pixel[paddedUpscaledHeight, paddedUpscaledWidth]((_, _) => Blank);
    visits := [];
    for h := 0 to horizontalTiles
      invariant visits == GridOrder(h, verticalTiles)
      invariant ComposedUpTo(context, padded, infer, h, 0)
    {
      for v := 0 to verticalTiles
        invariant visits == GridOrder(h, verticalTiles) + Column(h, v)
        invariant ComposedUpTo(context, padded, infer, h, v)
      {
        UpscaleTile(context, padded, infer, h, v);
        assert Column(h, v + 1) == Column(h, v) + [TileIndex(h, v)];
        visits := visits + [TileIndex(h, v)];
      }
      ComposedUpToNextColumn(context, padded, infer, h);
    }

    var upscaledPaddedImage := Snapshot(context);
    ComposedUpToAll(context, padded, infer);
    var cropped := Crop(upscaledPaddedImage, 0, paddedUpscaledHeight - upscaledHeight, upscaledWidth, upscaledHeight);
    if cropped.None? {
      result := Failure(CropFailed);
    } else {
      result := Success(cropped.value);
    }
  }

  /**
    The size `upscale` asks `scalePreservingAspectRatio` for: the upscaled
    size divided by 4, rounding down, so an image of sides 4w x 4h asks for w x h.
  */
  function TargetSize(upscaled: Image): (size: (nat, nat))
    ensures size.0 * ScaleFactor <= upscaled.width < (size.0 + 1) * ScaleFactor
    ensures size.1 * ScaleFactor <= upscaled.height < (size.1 + 1) * ScaleFactor
    ensures upscaled.width % ScaleFactor == 0 ==> size.0 * ScaleFactor == upscaled.width
    ensures upscaled.height % ScaleFactor == 0 ==> size.1 * ScaleFactor == upscaled.height
  {
    (upscaled.width / ScaleFactor, upscaled.height / ScaleFactor)
  }

  /** The upscaled image, and the size it is to be resampled to before JPEG encoding. */
  datatype ScaleRequest = ScaleRequest(image: Image, targetWidth: nat, targetHeight: nat)

  /**
    `upscale(imageURL)`, up to the resampling and the encoding: `decoded`
    is the image the file decodes to, or `None` when it cannot be loaded,
    and `model` is the network as loading it turned out.  The size asked
    for is the original's size in pixels, handed to the resampler as a
    size in points.
  */
  method UpscaleFile(decoded: Option<Image>, model: Option<Infer>) returns (r: Result<ScaleRequest, UpscaleError>)
    requires decoded.Some? ==> decoded.value.Valid()
    ensures decoded.None? <==> r == Failure(ImageLoadFailed)
    ensures decoded.Some? && model.None? ==> r == Failure(ModelLoadFailed)
    ensures decoded.Some? && model.Some? ==>
      && r.Success?
      && r.value.image == TileUpscaled(decoded.value, model.value).value
      && r.value.targetWidth == decoded.value.width
      && r.value.targetHeight == decoded.value.height
  {
    if decoded.None? {
      return Failure(ImageLoadFailed);
    }
    var image := decoded.value;
    var upscaled, _ := TileUpscaleImage(image, model);
    match upscaled
    case Failure(e) =>
      r := Failure(e);
    case Success(cgImageUpscaled) =>
      var (targetWidth, targetHeight) := TargetSize(cgImageUpscaled);
      r := Success(ScaleRequest(cgImageUpscaled, targetWidth, targetHeight));
  }

  /** 600 x 400: padded 1024 x 512, a 2 x 1 grid, a 4096 x 2048 canvas, a 2400 x 1600 crop, a 600 x 400 target. */
  lemma WorkedExample(image: Image, infer: Infer)
    requires image.Valid() && image.width == 600 && image.height == 400
    ensures var padded := Padded(image, TileSize);
      && padded.width == 1024 && padded.height == 512
      && TileCount(padded.width, TileSize) == 2 && TileCount(padded.height, TileSize) == 1
      && Composed(padded, infer).width == 4096 && Composed(padded, infer).height == 2048
      && TileUpscaled(image, infer).Success?
      && TileUpscaled(image, infer).value.width == 2400 && TileUpscaled(image, infer).value.height == 1600
      && TargetSize(TileUpscaled(image, infer).value) == (600, 400)
  {
    TileUpscaledShape(image, infer);
  }
  /**
    A stand-in network for checking the geometry: it reads the 512-pixel
    block the region of interest names (lower-left corner at
    (x * width, y * height), y up) and enlarges every pixel to a 4 x 4
    square.  It answers nothing for a region that is not such a block.
  */
  function EnlargeStub(source: Image, roi: Rect): Option<Tile> {
    if !source.WellFormed() then None
    else
      var left := PixelOffset(roi.x, source.width);
      var bottom := PixelOffset(roi.y, source.height);
      var top := source.height - bottom - TileSize;
      if left < 0 || top < 0 || left + TileSize > source.width || top + TileSize > source.height then None
      else Some(Enlarge(source, top, left))
  }

  /** A normalised coordinate scaled back to whole pixels. */
  function PixelOffset(fraction: real, side: nat): int {
    (fraction * side as real).Floor
  }

  /** The 512-pixel block of `source` whose top-left cell is (top, left), each pixel enlarged to 4 x 4. */
  function Enlarge(source: Image, top: nat, left: nat): (tile: Tile)
    requires source.WellFormed() && top + TileSize <= source.height && left + TileSize <= source.width
    ensures forall i, j :: 0 <= i < UpscaledTileSize && 0 <= j < UpscaledTileSize ==>
      tile.rows[i][j] == source.rows[top + i / ScaleFactor][left + j / ScaleFactor]
  {
    Image(UpscaledTileSize, UpscaledTileSize,
      seq(UpscaledTileSize, i requires 0 <= i < UpscaledTileSize =>
        seq(UpscaledTileSize, j requires 0 <= j < UpscaledTileSize =>
          source.rows[top + i / ScaleFactor][left + j / ScaleFactor])))
  }

  /** On a tile of the grid, the stub enlarges exactly the tile's block of the padded image. */
  lemma EnlargeStubOnTile(padded: Image, h: nat, v: nat)
    requires padded.Valid() && padded.width % TileSize == 0 && padded.height % TileSize == 0
    requires h < TileCount(padded.width, TileSize) && v < TileCount(padded.height, TileSize)
    ensures var top := padded.height - (v + 1) * TileSize;
      && 0 <= top && (h + 1) * TileSize <= padded.width
      && EnlargeStub(padded, RegionOfInterest(h, v, TileSize, padded.width, padded.height)).Some?
      && EnlargeStub(padded, RegionOfInterest(h, v, TileSize, padded.width, padded.height)).value
         == Enlarge(padded, top, h * TileSize)
  {
    var roi := RegionOfInterest(h, v, TileSize, padded.width, padded.height);
    RegionCorner(h, v, padded.width, padded.height);
    var left, bottom := h * TileSize, v * TileSize;
    assert PixelOffset(roi.x, padded.width) == left;
    assert PixelOffset(roi.y, padded.height) == bottom;
    MulMonotone(h + 1, TileCount(padded.width, TileSize), TileSize);
    MulMonotone(v + 1, TileCount(padded.height, TileSize), TileSize);
    assert left + TileSize <= padded.width;
    assert bottom + TileSize <= padded.height;
    var top := padded.height - bottom - TileSize;
    assert top == padded.height - (v + 1) * TileSize;
    StubAnswer(padded, roi, top, left);
  }

  lemma StubAnswer(source: Image, roi: Rect, top: nat, left: nat)
    requires source.WellFormed()
    requires PixelOffset(roi.x, source.width) == left
    requires source.height - PixelOffset(roi.y, source.height) - TileSize == top
    requires left + TileSize <= source.width && top + TileSize <= source.height
    ensures EnlargeStub(source, roi).Some?
    ensures EnlargeStub(source, roi).value == Enlarge(source, top, left)
  {
  }

  /** The stub reads the lower-left corner of a tile's region of interest back as a pixel position. */
  lemma RegionCorner(h: nat, v: nat, paddedWidth: nat, paddedHeight: nat)
    requires paddedWidth > 0 && paddedHeight > 0
    ensures var roi := RegionOfInterest(h, v, TileSize, paddedWidth, paddedHeight);
      && PixelOffset(roi.x, paddedWidth) == h * TileSize
      && PixelOffset(roi.y, paddedHeight) == v * TileSize
  {
  }

  /** With the enlarging stub as the network, the composed canvas is the padded image enlarged 4 x 4. */
  lemma ComposedWithEnlargeStub(padded: Image, row: nat, col: nat)
    requires padded.Valid() && padded.width % TileSize == 0 && padded.height % TileSize == 0
    requires row < padded.height * ScaleFactor && col < padded.width * ScaleFactor
    ensures ComposedPixel(padded, EnlargeStub, row, col) == padded.rows[row / ScaleFactor][col / ScaleFactor]
  {
    var height := padded.height * ScaleFactor;
    var t := CellTile(height, row, col);
    var horizontalTiles, verticalTiles := TileCount(padded.width, TileSize), TileCount(padded.height, TileSize);
    PlacementBlocksPartition(horizontalTiles, verticalTiles, row, col, t.h, t.v);
    EnlargeStubOnTile(padded, t.h, t.v);
    var top := padded.height - (t.v + 1) * TileSize;
    var i, j := row - BlockTop(height, t.v), col - t.h * UpscaledTileSize;
    assert i == row - ScaleFactor * top;
    assert top + i / ScaleFactor == row / ScaleFactor;
    assert t.h * TileSize + j / ScaleFactor == col / ScaleFactor;
  }

  /**
    With the enlarging stub as the network, pixel (r, c) of the result is
    original pixel (r / 4, c / 4): the crop offset exactly undoes the
    padding anchor and the tile placement.
  */
  lemma EnlargeStubRoundTrip(image: Image, r: nat, c: nat)
    requires image.Valid() && r < image.height * ScaleFactor && c < image.width * ScaleFactor
    ensures TileUpscaled(image, EnlargeStub).Success?
    ensures TileUpscaled(image, EnlargeStub).value.rows[r][c] == image.rows[r / ScaleFactor][c / ScaleFactor]
  {
    var padded := Padded(image, TileSize);
    TileUpscaledShape(image, EnlargeStub);
    var top := padded.height - image.height;
    var row := ScaleFactor * top + r;
    assert TileUpscaled(image, EnlargeStub).value.rows[r][c] == ComposedPixel(padded, EnlargeStub, row, c);
    ComposedWithEnlargeStub(padded, row, c);
    assert row / ScaleFactor == top + r / ScaleFactor;
    PaddedPixels(image, TileSize);
    assert padded.rows[top + r / ScaleFactor][c / ScaleFactor] == image.rows[r / ScaleFactor][c / ScaleFactor];
  }
}
