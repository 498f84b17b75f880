/**
  The tile grid of `tileUpscaleImage`: how many tiles the padded image has,
  the order the nested loop visits them in, the normalised region of
  interest each tile hands to the network, and the block of the upscaled
  canvas each upscaled tile is drawn into.
*/
module Tiling {
  import opened Raster
  import opened Padding

  /** The network's input tile side, in pixels. */
  const TileSize: nat := 512
  /** The network's scale factor. */
  const ScaleFactor: nat := 4
  /** Side of one upscaled tile, in pixels. */
  const UpscaledTileSize: nat := TileSize * ScaleFactor

  /** `a` lies in slot `k` of width `size` exactly when `k` is `a / size`. */
  lemma SlotUnique(a: nat, size: nat, k: nat)
    requires size > 0
    ensures k * size <= a < (k + 1) * size <==> k == a / size
  {
    var q := a / size;
    assert q * size <= a < q * size + size;
    if k < q {
      MulMonotone(k + 1, q, size);
    } else if k > q {
      MulMonotone(q + 1, k, size);
    }
  }

  /** `horizontalTiles = paddedWidth / tileSize`: no remainder is lost. */
  function TileCount(paddedSide: nat, tileSize: nat): (n: nat)
    requires tileSize > 0 && paddedSide % tileSize == 0
    ensures n * tileSize == paddedSide
  {
    paddedSide / tileSize
  }

  /** Grid coordinates of one tile: column `h` from the left, row `v` from the bottom. */
  datatype TileIndex = TileIndex(h: nat, v: nat)

  /**
    The order `for horizontalTile in 0 ..< h { for verticalTile in 0 ..< v }`
    visits the tiles in: column by column, each column bottom to top.
    Every tile of the grid appears, nothing else, and none twice.
  */
  function GridOrder(horizontalTiles: nat, verticalTiles: nat): (s: seq<TileIndex>)
    ensures forall t :: t in s <==> t.h < horizontalTiles && t.v < verticalTiles
    ensures forall i, j :: 0 <= i < j < |s| ==> s[i] != s[j]
  {
    if horizontalTiles == 0 then []
    else
      var prefix := GridOrder(horizontalTiles - 1, verticalTiles);
      var column := Column(horizontalTiles - 1, verticalTiles);
      assert forall i, j :: 0 <= i < |prefix| <= j < |prefix| + |column| ==>
        (prefix + column)[i] == prefix[i] && (prefix + column)[j] == column[j - |prefix|];
      prefix + column
  }

  /** The inner loop's visits for column `h`. */
  function Column(h: nat, verticalTiles: nat): (s: seq<TileIndex>)
    ensures |s| == verticalTiles && forall v :: 0 <= v < verticalTiles ==> s[v] == TileIndex(h, v)
  {
    seq(verticalTiles, v requires 0 <= v => TileIndex(h, v))
  }

  /** A normalised rectangle with its origin at the bottom-left, as Vision's `regionOfInterest` is. */
  datatype Rect = Rect(x: real, y: real, width: real, height: real)

  /**
    The region of interest of tile (h, v), exact instead of in `Double`:
    `(h * t / pw, v * t / ph, t / pw, t / ph)`.  Scaled back by the padded
    size it is the pixel block [h t, (h + 1) t) x [v t, (v + 1) t).
  */
  function RegionOfInterest(h: nat, v: nat, tileSize: nat, paddedWidth: nat, paddedHeight: nat): (roi: Rect)
    requires paddedWidth > 0 && paddedHeight > 0
    ensures roi.x * paddedWidth as real == (h * tileSize) as real
    ensures roi.y * paddedHeight as real == (v * tileSize) as real
    ensures roi.width * paddedWidth as real == tileSize as real
    ensures roi.height * paddedHeight as real == tileSize as real
  {
    Rect((h * tileSize) as real / paddedWidth as real,
         (v * tileSize) as real / paddedHeight as real,
         tileSize as real / paddedWidth as real,
         tileSize as real / paddedHeight as real)
  }

  /** Every tile's region of interest lies inside the unit square. */
  lemma RegionInUnitSquare(h: nat, v: nat, tileSize: nat, paddedWidth: nat, paddedHeight: nat)
    requires tileSize > 0 && paddedWidth > 0 && paddedHeight > 0
    requires paddedWidth % tileSize == 0 && paddedHeight % tileSize == 0
    requires h < TileCount(paddedWidth, tileSize) && v < TileCount(paddedHeight, tileSize)
    ensures var roi := RegionOfInterest(h, v, tileSize, paddedWidth, paddedHeight);
      0.0 <= roi.x && roi.x + roi.width <= 1.0 && 0.0 <= roi.y && roi.y + roi.height <= 1.0
  {
    var roi := RegionOfInterest(h, v, tileSize, paddedWidth, paddedHeight);
    AxisInUnitInterval(h, tileSize, paddedWidth, roi.x, roi.width);
    AxisInUnitInterval(v, tileSize, paddedHeight, roi.y, roi.height);
  }

  /** On one axis: slot k of a side that holds whole slots spans a sub-interval of [0, 1]. */
  lemma AxisInUnitInterval(k: nat, tileSize: nat, side: nat, x: real, w: real)
    requires tileSize > 0 && side > 0 && side % tileSize == 0 && k < TileCount(side, tileSize)
    requires x * side as real == (k * tileSize) as real && w * side as real == tileSize as real
    ensures 0.0 <= x && x + w <= 1.0
  {
    MulMonotone(k + 1, TileCount(side, tileSize), tileSize);
    UnitBound(x, w, side, k * tileSize, tileSize);
  }

  lemma UnitBound(x: real, w: real, side: nat, start: nat, size: nat)
    requires side > 0 && start + size <= side
    requires x * side as real == start as real && w * side as real == size as real
    ensures 0.0 <= x && x + w <= 1.0
  {
    assert (x + w) * side as real == (start + size) as real;
    var excess := x + w - 1.0;
    assert excess * side as real == (start + size) as real - side as real;
    if excess > 0.0 {
      PositiveProduct(excess, side as real);
    }
  }

  lemma PositiveProduct(a: real, b: real)
    requires a > 0.0 && b > 0.0
    ensures a * b > 0.0
  {
  }

  /** Whether pixel (px, py) of the padded image, counted from the bottom-left, falls in `roi`. */
  predicate RegionContains(roi: Rect, paddedWidth: nat, paddedHeight: nat, px: nat, py: nat) {
    && roi.x * paddedWidth as real <= px as real < (roi.x + roi.width) * paddedWidth as real
    && roi.y * paddedHeight as real <= py as real < (roi.y + roi.height) * paddedHeight as real
  }

  /**
    The regions of interest partition the padded image: each pixel lies in
    the region of exactly one tile of the grid, tile (px / t, py / t).
  */
  lemma RegionsPartitionPaddedImage(tileSize: nat, paddedWidth: nat, paddedHeight: nat, px: nat, py: nat, h: nat, v: nat)
    requires tileSize > 0 && paddedWidth > 0 && paddedHeight > 0
    requires paddedWidth % tileSize == 0 && paddedHeight % tileSize == 0
    requires px < paddedWidth && py < paddedHeight
    ensures px / tileSize < TileCount(paddedWidth, tileSize) && py / tileSize < TileCount(paddedHeight, tileSize)
    ensures RegionContains(RegionOfInterest(h, v, tileSize, paddedWidth, paddedHeight), paddedWidth, paddedHeight, px, py)
            <==> h == px / tileSize && v == py / tileSize
  {
    var roi := RegionOfInterest(h, v, tileSize, paddedWidth, paddedHeight);
    AxisSlot(h, tileSize, paddedWidth, px, roi.x, roi.width);
    AxisSlot(v, tileSize, paddedHeight, py, roi.y, roi.height);
  }

  /** On one axis: pixel p lies in the interval of slot k exactly when k is p / t, a slot of the grid. */
  lemma AxisSlot(k: nat, tileSize: nat, side: nat, p: nat, x: real, w: real)
    requires tileSize > 0 && side % tileSize == 0 && p < side
    requires x * side as real == (k * tileSize) as real && w * side as real == tileSize as real
    ensures p / tileSize < TileCount(side, tileSize)
    ensures x * side as real <= p as real < (x + w) * side as real <==> k == p / tileSize
  {
    ScaledInterval(x, w, side, k * tileSize, tileSize, p);
    SlotUnique(p, tileSize, k);
    SlotInGrid(p, tileSize, side);
  }

  /** An interval given in normalised coordinates, scaled back by `side`, is [start, start + size). */
  lemma ScaledInterval(x: real, w: real, side: nat, start: nat, size: nat, p: nat)
    requires x * side as real == start as real && w * side as real == size as real
    ensures x * side as real <= p as real < (x + w) * side as real <==> start <= p < start + size
  {
    assert (x + w) * side as real == x * side as real + w * side as real;
  }

  /** A pixel of a side made of whole slots lies in one of its slots. */
  lemma SlotInGrid(p: nat, tileSize: nat, side: nat)
    requires tileSize > 0 && side % tileSize == 0 && p < side
    ensures p / tileSize < TileCount(side, tileSize)
  {
    var n := TileCount(side, tileSize);
    SlotUnique(p, tileSize, p / tileSize);
    if p / tileSize >= n {
      MulMonotone(n, p / tileSize, tileSize);
    }
  }

  /** The tile whose upscaled block holds canvas cell (row, col), rows counted from the top. */
  function CellTile(canvasHeight: nat, row: nat, col: nat): TileIndex
    requires row < canvasHeight
  {
    TileIndex(col / UpscaledTileSize, (canvasHeight - 1 - row) / UpscaledTileSize)
  }

  /** Top row of the block tile row `v` is drawn into, at y-up offset `v * upscaledTileSize`. */
  function BlockTop(canvasHeight: nat, v: nat): int {
    DrawTop(canvasHeight, v * UpscaledTileSize, UpscaledTileSize)
  }

  /** Whether canvas cell (row, col) lies in the block tile (h, v) is drawn into. */
  predicate InBlock(canvasHeight: nat, h: nat, v: nat, row: int, col: int) {
    Covers(BlockTop(canvasHeight, v), h * UpscaledTileSize, UpscaledTileSize, UpscaledTileSize, row, col)
  }

  /**
    The placement blocks are pairwise disjoint and together cover the
    upscaled canvas: each cell lies in the block of exactly one tile of the
    grid, and that tile is `CellTile`.
  */
  lemma PlacementBlocksPartition(horizontalTiles: nat, verticalTiles: nat, row: nat, col: nat, h: nat, v: nat)
    requires row < verticalTiles * UpscaledTileSize && col < horizontalTiles * UpscaledTileSize
    ensures var t := CellTile(verticalTiles * UpscaledTileSize, row, col);
      t.h < horizontalTiles && t.v < verticalTiles
    ensures InBlock(verticalTiles * UpscaledTileSize, h, v, row, col)
            <==> CellTile(verticalTiles * UpscaledTileSize, row, col) == TileIndex(h, v)
  {
    var height := verticalTiles * UpscaledTileSize;
    SlotUnique(col, UpscaledTileSize, h);
    SlotUnique(height - 1 - row, UpscaledTileSize, v);
  }
}
