# Tiled upscaling and category bookkeeping, modelled in Dafny

This project models two parts of the Aidoku reader.

**Tiled super-resolution upscaling** (`Shared/Data/Downloads/UpscaleImage.swift`).
An image is padded up to whole 512-pixel tiles. Each tile is sent to an
external 4x super-resolution network. Every 2048-pixel tile that comes back
is drawn into one shared canvas at the tile's slot. The canvas is then
cropped back to four times the original size. `upscale` then asks for a
resize to the original size in points.

- Images are grids of opaque pixels (`Raster.Image`). `Blank` is the
  transparent pixel a fresh bitmap context holds.
- Rows are counted from the top everywhere. `context.draw` counts y from
  the bottom, so `Raster.Draw` converts: an image of height h drawn at y-up
  offset y starts at row `canvasHeight - y - h`. `cropping(to:)` already
  counts from the top.
- The canvas is an `array2` that the tile loop updates in place, one
  tile at a time, with the source's nested loops.
- The loaded network is a parameter `infer: (Image, Rect) -> Option<Tile>`. It gets
  the padded image and the tile's normalised region of interest. A failed
  or empty request is `None`, and that tile's block stays blank.
- Regions of interest are exact rationals (`real`), not `Double`s.

**Category bookkeeping** (`Shared/Managers/CoreData/CoreDataManager+Category.swift`).
The managed-object context is the class `Categories.CategoryStore`. It
holds the stored categories (identity, title, `sort`) and, for each
library manga, the set of ids of its categories. Fetch requests are
queries over these fields. `createCategory` refuses a title that is
already stored. Otherwise it appends a category whose `sort` is one above
the largest stored `sort`.

Two behaviours of the code are worth stating:
- The crop clips its rectangle to the image, as `cropping(to:)` does. It fails only when nothing of the rectangle is inside the image. It does not fail for every out-of-bounds rectangle.
- A tile whose request fails is left blank, and the loop goes on. The canvas is not guaranteed to be fully written before cropping.

## Model

| member | source | states |
|---|---|---|
| Raster.Draw | Shared/Data/Downloads/UpscaleImage.swift:127-130 | drawing an image at y-up offset (x, y) writes exactly the canvas cells of its rectangle (rows from canvasHeight - y - h), clipped to the canvas, with the image upright; every other cell keeps its value |
| Raster.Snapshot | Shared/Data/Downloads/UpscaleImage.swift:76-79 | taking the context's image copies the canvas pixel for pixel, at the canvas's size |
| Raster.Crop | Shared/Data/Downloads/UpscaleImage.swift:151-157 | cropping succeeds exactly when the rectangle meets the image; the result is the rectangle clipped to the image, at the clipped size, with its pixel (i, j) the image's pixel at the clipped corner plus (i, j) |
| Raster.CropInside | Shared/Data/Downloads/UpscaleImage.swift:151-154 | a nonempty rectangle inside the image yields exactly that w x h block, pixel for pixel, y counted from the top |
| Padding.RoundUpToNextMultiple | Shared/Data/Downloads/UpscaleImage.swift:46-52 | the result is the smallest multiple of m that is at least n: a multiple, n <= r < n + m, no larger than any multiple >= n, and n itself when m divides n |
| Padding.RoundUpIdempotent | Shared/Data/Downloads/UpscaleImage.swift:46-52 | rounding up an already rounded value changes nothing |
| Padding.Padded | Shared/Data/Downloads/UpscaleImage.swift:54-81 | the padded image is valid and each side is the smallest tile multiple not below the original side (less than one tile more) |
| Padding.PaddedPixels | Shared/Data/Downloads/UpscaleImage.swift:73-74 | the original sits pixel for pixel in the bottom rows and the left columns; every other cell (top and right padding) is blank |
| Padding.PaddedIdentity | Shared/Data/Downloads/UpscaleImage.swift:58-74 | an image whose sides are already tile multiples pads to itself |
| Padding.CropUndoesPadding | Shared/Data/Downloads/UpscaleImage.swift:73-74 | cropping the padded image at (0, paddedHeight - height, width, height) gives the original back: the crop offset inverts the padding anchor |
| Padding.PadImageToTile | Shared/Data/Downloads/UpscaleImage.swift:54-81 | allocating a blank context of the rounded size and drawing the image at (0, 0) yields exactly the padded image |
| Tiling.TileCount | Shared/Data/Downloads/UpscaleImage.swift:107-108 | tiles times tile size is the padded side: no remainder is lost |
| Tiling.GridOrder | Shared/Data/Downloads/UpscaleImage.swift:119-120 | the nested loop's visiting order contains every (h, v) of the grid, nothing else, and none twice |
| Tiling.RegionOfInterest | Shared/Data/Downloads/UpscaleImage.swift:137-141 | scaled back by the padded size, the region of tile (h, v) starts at pixel (h t, v t) and is t wide and t high |
| Tiling.RegionInUnitSquare | Shared/Data/Downloads/UpscaleImage.swift:137-141 | the region of every tile of the grid lies inside the unit square |
| Tiling.RegionsPartitionPaddedImage | Shared/Data/Downloads/UpscaleImage.swift:137-141 | each pixel of the padded image lies in the region of exactly one tile, tile (px / t, py / t), which is in the grid |
| Tiling.PlacementBlocksPartition | Shared/Data/Downloads/UpscaleImage.swift:119-130 | the 2048-pixel placement blocks are pairwise disjoint and cover the canvas: each cell is in the block of exactly one grid tile |
| Upscale.Composed | Shared/Data/Downloads/UpscaleImage.swift:104-117 | the composed canvas is valid and four times the padded size on each axis |
| Upscale.ComposedBlock | Shared/Data/Downloads/UpscaleImage.swift:121-134 | inside the block of tile (h, v) the canvas holds that tile's output upright and unscaled, or blanks when its request returned nothing |
| Upscale.UpscaleTile | Shared/Data/Downloads/UpscaleImage.swift:121-144 | one iteration changes only the cells of its own tile's block, which then hold the composed pixels; a failed request changes nothing; the loop invariant moves on to the next tile |
| Upscale.TileUpscaled | Shared/Data/Downloads/UpscaleImage.swift:148-157 | with a loaded network, the cropped canvas is always a valid image of exactly 4W x 4H: the crop error is unreachable |
| Upscale.TileUpscaleImage | Shared/Data/Downloads/UpscaleImage.swift:83-160 | a network that does not load aborts with an error before any tile; otherwise the pad, in-place tile loop and crop return exactly the specified result, and the tiles are visited in grid order |
| Upscale.TargetSize | Shared/Data/Downloads/UpscaleImage.swift:170-172 | each target side is the upscaled side divided by 4 rounding down, and exactly a quarter when 4 divides it |
| Upscale.TileUpscaledShape | Shared/Data/Downloads/UpscaleImage.swift:148-157 | the crop rectangle (0, paddedUpscaledHeight - 4H, 4W, 4H) lies in the canvas, so the crop never fails and yields a 4W x 4H image of canvas pixels offset by the padding |
| Upscale.UpscaleFile | Shared/Data/Downloads/UpscaleImage.swift:162-176 | an image that cannot be loaded is an error, and so is a network that cannot be loaded; otherwise the upscaled image is returned with the resize target (width / 4, height / 4), which equals the original W x H |
| Upscale.WorkedExample | Shared/Data/Downloads/UpscaleImage.swift:96-108 | a 600 x 400 image gives 1024 x 512 padded, a 2 x 1 grid, a 4096 x 2048 canvas, a 2400 x 1600 crop and a 600 x 400 target |
| Upscale.ComposedWithEnlargeStub | Shared/Data/Downloads/UpscaleImage.swift:127-141 | with a network that enlarges each pixel of its region 4 x 4, the composed canvas is the padded image enlarged 4 x 4: region of interest and placement agree |
| Upscale.EnlargeStubRoundTrip | Shared/Data/Downloads/UpscaleImage.swift:150-154 | with that network, cropped pixel (r, c) is original pixel (r / 4, c / 4): the crop exactly undoes the padding anchor and the tile placement |
| Categories.FindByTitle | Shared/Managers/CoreData/CoreDataManager+Category.swift:17-24 | the fetch by title returns a stored category with that title, and nothing exactly when no stored category has it |
| Categories.LastSort | Shared/Managers/CoreData/CoreDataManager+Category.swift:59-61 | the first sort of a descending fetch is the largest stored sort, attained by some category, or -1 for an empty store |
| Categories.LinkedIds | Shared/Managers/CoreData/CoreDataManager+Category.swift:74-77 | the ids linked for a list of titles are ids of stored categories and include the id found for every listed title that names a stored category |
| Categories.LinkedIdsExact | Shared/Managers/CoreData/CoreDataManager+Category.swift:73-77 | with unique titles, a stored category is linked exactly when its title is listed |
| Categories.CategoryStore.ClearCategories | Shared/Managers/CoreData/CoreDataManager+Category.swift:12-15 | afterwards the store holds no categories and every library manga has no categories |
| Categories.CategoryStore.GetCategory | Shared/Managers/CoreData/CoreDataManager+Category.swift:17-24 | returns a stored category with the title, and nothing exactly when none has it |
| Categories.CategoryStore.GetCategories | Shared/Managers/CoreData/CoreDataManager+Category.swift:26-32 | returns all stored categories and only them, as many as are stored |
| Categories.CategoryStore.GetCategoriesOfManga | Shared/Managers/CoreData/CoreDataManager+Category.swift:34-38 | a library manga's categories are exactly the stored categories linked to it; a manga not in the library has none |
| Categories.CategoryStore.GetCategoriesOfLibraryManga | Shared/Managers/CoreData/CoreDataManager+Category.swift:40-43 | returns exactly the set of stored categories linked to the manga |
| Categories.CategoryStore.CreateCategory | Shared/Managers/CoreData/CoreDataManager+Category.swift:45-67 | an existing title yields nothing and no change; otherwise exactly one category is appended with that title, a fresh identity and sort = largest + 1 (0 when empty), above every existing sort; the store invariant, which includes unique titles, is kept; links are untouched |
| Categories.CategoryStore.AddCategoriesToManga | Shared/Managers/CoreData/CoreDataManager+Category.swift:69-78 | the manga's set gains the category found for each known title and nothing for unknown ones, so a stored category ends up linked exactly when it was linked before or its title is listed; nothing changes for a manga not in the library; other manga and the categories are untouched |

## Left out

- Loading the network (`VNCoreMLModel`) is a foreign call. Its outcome is the `model` parameter of `Upscale.TileUpscaleImage` and `Upscale.UpscaleFile`, and `None` gives the `ModelLoadFailed` error.
- Inference (`VNCoreMLRequest`, `VNImageRequestHandler.perform`) is a foreign call. The loaded network is a function `infer`. A failed or empty per-tile request is `None`, which is what `try?` and the optional chain reduce it to. The tile's block then stays blank.
- Upscale.TileUpscaleImage: the network's answer is typed as a 2048 x 2048 tile, but the source draws any answer at the answer's own size, with its lower-left corner at the block's lower-left corner (the frame is y-up). A larger answer would spill into the neighbouring blocks above and to the right. A smaller one would leave the top and right of its block blank. Neither case is captured.
- Failures to allocate a bitmap context or to take its image (`CGContext(...)` returning nil, `makeImage()` returning nil) are not modelled, because allocation always succeeds in Dafny.
- Pixel formats, bits per component, colour spaces, premultiplied alpha and the CIImage/CIContext conversion are library plumbing. Pixels are opaque values.
- Raster.Draw copies pixels instead of blending them source-over. The two agree here: the padding is drawn into a fresh, blank context, and the tile loop's invariant shows that each tile's block is still blank when its tile is drawn.
- The `Double` rounding of the region of interest is not modelled. Regions are exact rationals.
- How Vision crops and scales the region of interest before feeding it to the network is part of the network, not of this code. The 4x-enlarging stand-in `Upscale.EnlargeStub` fixes one such behaviour, only to check the geometry.
- Loading the file (`UIImage(contentsOfFile:)`) is replaced by an `Option<Image>` argument of `Upscale.UpscaleFile`. JPEG encoding at quality 0.85 is left out as codec I/O.
- The resampling in `scalePreservingAspectRatio` is left out as floating-point rendering. Only the target size `upscale` asks for is modelled. That size is in points, so the rendered image is that size times the renderer's screen scale in pixels. `iOS/Extensions/UIImage.swift` is not part of this model.
- `UpscaleError` is only a localised message wrapper. Errors are the three-case `Upscale.UpscaleError`. Its `CropFailed` case is unreachable here, because `Upscale.TileUpscaled` proves the crop always succeeds. In the source, the canvas context at `UpscaleImage.swift` lines 111-117 is not guarded. If allocating it fails, every `context?.draw` does nothing, `context?.makeImage()` is nil, and the crop error at lines 155-157 is thrown. This Dafny model always allocates, so it cannot reach that error.
- Padding.RoundUpToNextMultiple takes a non-negative `n`, because every caller passes an image side. Swift's truncating division on negative values is not modelled, and neither is 64-bit overflow of the products.
- Images have at least one pixel on each axis, as a `CGImage` always does.
- CoreData mechanics are not modelled: `NSPredicate`, fetch and count requests, managed-object contexts, and fetch or count failures that fall back to defaults. The context argument is dropped. `getLibraryManga` becomes a map lookup. `clear` becomes emptying the category list.
- Categories.CategoryStore.ClearCategories: every manga also loses its links. This assumes the relationship's delete rule nullifies links. The data model that declares the rule is not part of this model.
- Categories.CategoryStore.GetCategory: CoreData fixes no order for a fetch without sort descriptors. The model returns the first match in store order. It is the only match while titles are unique.
- The integer width of `sort` is not modelled. It is an unbounded integer.
