# Greedy edge-matching tile assembler

This project models the tile assembler of `CreatePictureFromTiles.py` in Dafny. The program takes a pool of equally sized images, the tiles, and fills a `frame_width x frame_height` grid with them. It works in row-major order. Each cell gets a tile whose TOP edge equals the BOT edge of the tile above it, and whose LEFT edge equals the RIGHT edge of the tile to its left. A cell no tile fits gets the sentinel `-1` and is rendered black.

The model covers:
- the tile's four edges (`Tile.__init__`, `GetBoundary`, `CompareBoundaries`);
- the candidate filter (`GetViableTiles`);
- the numbering of the tiles (`GetTilesFromImages`);
- the grid builder (`ConstructTileGrid`);
- the duplicate filter (`DeleteDuplicateImages`, `ImagesAreIdentical`);
- the renderer (`CreatePicture`);
- the frame-size check and the call sequence of `Main`.

Modules, one per file:
- `Wrappers`: `Option`.
- `Images`: an image is a size, a number of bands, and the flat row-major pixel list that PIL's `getdata()` yields. This module also holds the pixel-difference identity test.
- `Tiles`: the `Tile` class. Its fields are `const`, because the source writes them only in the constructor. Each edge is kept as its exact pixel sequence rather than as Python's `hash` of it.
- `Assembly`: tile numbering, the candidate filter and the grid builder. The builder is an imperative method over a `seq<seq<int>>` grid. `random.choice` is an arbitrary pick (`:|`) from the non-empty candidate list.
- `Dedup`: duplicate removal. It marks each image that has an identical later image, then deletes the marks from the highest index to the lowest.
- `Picture`: rendering into an `array2` canvas, indexed `[y, x]`, with PIL's paste boxes.
- `Pipeline`: `Main` without its I/O.

Every placement in the code is greedy and independent. A cell that fails imposes no constraint on later cells, so the cells after it are filled as if it were empty. Nothing in the code propagates constraints through the grid, looks ahead, backtracks, cascades failures or smooths the seams. The model follows the code.

## Model

| member | source | states |
|---|---|---|
| Images.Rows | CreatePictureFromTiles.py:26-27 | the flat pixel list cut into `height` rows of `width` pixels each |
| Images.RowsAt | CreatePictureFromTiles.py:27 | entry x of row y of the reshaped rows is the image's pixel in column x of row y, so the reshape keeps every pixel in place |
| Images.PixelAt | CreatePictureFromTiles.py:27 | pixel (x, y) of a valid image has the image's number of bands |
| Images.Difference | CreatePictureFromTiles.py:259 | the difference has one pixel per image pixel; a channel of it is 0 exactly when the two images agree in that channel |
| Images.ImagesAreIdenticalAsWritten | CreatePictureFromTiles.py:257-260 | the identity test as written: every difference pixel equals the first, and the first is the 4-tuple (0,0,0,0); it can only succeed on four-band images |
| Images.ZeroDifferenceIffSameData | CreatePictureFromTiles.py:258-260 | every difference pixel is the all-zero pixel of the images' band count exactly when the two images hold the same pixel data |
| Images.ImagesAreIdentical | CreatePictureFromTiles.py:257-260 | the identity test as intended: two images of one size and band count are identical exactly when their pixel data are equal |
| Images.AsWrittenAgreesOnFourBands | CreatePictureFromTiles.py:258-260 | on four-band images the test as written and the corrected test agree |
| Images.RgbImageNotIdenticalToItself | CreatePictureFromTiles.py:258-260 | a one-pixel RGB image is identical to itself, yet the test as written rejects it |
| Images.SolidAt | CreatePictureFromTiles.py:136 | every pixel of the block painted with a colour is that colour |
| Tiles.EdgeOf | CreatePictureFromTiles.py:33-36 | a TOP or BOT edge has one pixel per column; a LEFT or RIGHT edge has one pixel per row |
| Tiles.Tile.constructor | CreatePictureFromTiles.py:21-36 | stores the image and, for each direction, the edge read from the reshaped rows: TOP is row 0, RIGHT is column width-1, BOT is row height-1 and LEFT is column 0, each read in order |
| Tiles.Tile.GetBoundary | CreatePictureFromTiles.py:47-48 | the stored boundary in a direction is that edge of the tile's image |
| Tiles.Tile.CompareBoundaries | CreatePictureFromTiles.py:38-42 | true when the expected boundary is None; otherwise true exactly when it equals the tile's edge in that direction |
| Tiles.TopMeetsBot | CreatePictureFromTiles.py:33-35 | a TOP edge equal to another tile's BOT edge means equal widths, with row 0 equal pixel by pixel to the other tile's last row |
| Tiles.LeftMeetsRight | CreatePictureFromTiles.py:34-36 | a LEFT edge equal to another tile's RIGHT edge means equal heights, with column 0 equal pixel by pixel to the other tile's last column |
| Assembly.GetTilesFromImages | CreatePictureFromTiles.py:183-184 | tile k is built from image k, one valid tile per image |
| Assembly.GetViableTiles | CreatePictureFromTiles.py:169-181 | returns in-range ids in increasing tile order; an id is listed exactly when the tile fits the expectation in all four directions; with all four expectations None, every id 0..n-1 is listed |
| Assembly.MatchesAllFour | CreatePictureFromTiles.py:175-176 | a tile fits an expectation exactly when it passes the boundary test in each of TOP, RIGHT, BOT and LEFT |
| Assembly.CellConstraint | CreatePictureFromTiles.py:154-158 | RIGHT and BOT are never constrained; TOP is the BOT edge of the tile above when it is placed, and LEFT is the RIGHT edge of the tile to the left when it is placed |
| Assembly.ChooseViable | CreatePictureFromTiles.py:160-165 | picks a tile that fits the constraint, or -1 exactly when no tile fits it |
| Assembly.ConstructTileGrid | CreatePictureFromTiles.py:140-167 | returns [] for an empty pool. Otherwise it returns frame_height rows of frame_width cells, each a tile id or -1, with cell (0,0) a tile; every cell follows the placement rule; placed neighbours agree on their shared edges; the reported failures are exactly the -1 cells, as (x, y), in scan order |
| Assembly.FillRow | CreatePictureFromTiles.py:149-165 | filling row i left to right extends the cells that follow the placement rule by that row and leaves every other row unchanged. The earlier failure list stays a prefix, followed by each failed cell of the row, in order |
| Assembly.TopSeam | CreatePictureFromTiles.py:155-156 | a placed tile below a placed tile has as its TOP edge the BOT edge of the tile above |
| Assembly.LeftSeam | CreatePictureFromTiles.py:157-158 | a placed tile to the right of a placed tile has as its LEFT edge the RIGHT edge of the tile to its left |
| Assembly.SeamsAgree | CreatePictureFromTiles.py:155-160 | in a built grid a placed tile's TOP edge equals the BOT edge of a placed tile above it, and its LEFT edge equals the RIGHT edge of a placed tile to its left |
| Assembly.FailureDoesNotCascade | CreatePictureFromTiles.py:155-158 | a cell whose upper and left neighbours are absent or -1 always gets a tile |
| Assembly.LeftMismatchFails | CreatePictureFromTiles.py:157-165 | a cell to the right of a placed tile whose RIGHT edge matches no tile's LEFT edge becomes -1 |
| Assembly.UniversalTileMeansNoFailure | CreatePictureFromTiles.py:154-165 | if one tile's TOP edge fits under every tile and its LEFT edge fits beside every tile, no cell fails |
| Assembly.SeamlessTileFillsFrame | CreatePictureFromTiles.py:150-165 | a one-tile pool whose TOP equals its BOT and whose LEFT equals its RIGHT fills every cell with that tile |
| Assembly.IncompatibleRowAlternates | CreatePictureFromTiles.py:157-165 | in a one-row frame over a pool where no LEFT edge equals any RIGHT edge, cell j fails exactly when j is odd |
| Dedup.DeleteDuplicateImages | CreatePictureFromTiles.py:241-255 | the result is the input without the images that have an identical later image, the others in their order, and no two survivors are identical |
| Dedup.MarkDuplicates | CreatePictureFromTiles.py:242-249 | the recorded indices are increasing and in range, and they are exactly the positions of the images that have an identical later image |
| Dedup.DropOneMore | CreatePictureFromTiles.py:251-253 | deleting index p after deleting only higher indices removes the element at position p of the already shortened list, so deleting from the highest index down removes exactly the marked elements |
| Dedup.DropSelects | CreatePictureFromTiles.py:252-253 | the survivors are unmarked elements, taken in strictly increasing original position, so their relative order is kept |
| Dedup.DropKeeps | CreatePictureFromTiles.py:252-253 | an element at an unmarked position survives the deletions |
| Dedup.SurvivorsDistinct | CreatePictureFromTiles.py:244-249 | no two images left by the filter are identical |
| Dedup.EveryImageKeptUpToIdentity | CreatePictureFromTiles.py:244-253 | every input image is identical to some survivor |
| Dedup.AsWrittenFilterKeepsNonRgbaPool | CreatePictureFromTiles.py:241-260 | with the identity test as written, a pool whose images are not four-band has no position marked, so the filter returns it unchanged and keeps all its duplicates |
| Dedup.AsWrittenFilterAgreesOnRgbaPool | CreatePictureFromTiles.py:241-260 | on a pool of four-band images the filter as written marks exactly the positions this model's filter marks |
| Picture.CellBox | CreatePictureFromTiles.py:130 | the box of cell (i, j) is tw wide and th high |
| Picture.CellOfPixel | CreatePictureFromTiles.py:128-130 | pixel (x, y) is in the box of cell (i, j) exactly when i = y div th and j = x div tw, and its offset in the box is then (x mod tw, y mod th) |
| Picture.BoxesDisjoint | CreatePictureFromTiles.py:128-130 | the boxes of two different cells share no pixel |
| Picture.BoxesCover | CreatePictureFromTiles.py:126-130 | every canvas pixel lies in the box of a cell of the frame |
| Picture.CellImage | CreatePictureFromTiles.py:132-136 | the image pasted into a cell is valid and of the first tile's size |
| Picture.PictureAt | CreatePictureFromTiles.py:126-136 | canvas pixel (x, y) falls in the frame cell (y div th, x div tw); it is black when that cell failed and otherwise the pixel of the tile placed there at offset (x mod tw, y mod th) |
| Picture.PictureShowsCell | CreatePictureFromTiles.py:128-136 | inside the box of a placed cell the picture shows that cell's tile at the offset in the box; inside the box of a -1 cell it is black |
| Picture.HorizontalSeamContinues | CreatePictureFromTiles.py:128-133 | across the horizontal seam between two placed cells, the last pixel row above equals the first pixel row below |
| Picture.VerticalSeamContinues | CreatePictureFromTiles.py:128-133 | across the vertical seam between two placed cells, the last pixel column on the left equals the first pixel column on the right |
| Picture.Paste | CreatePictureFromTiles.py:133-136 | pastes the image into the box and leaves every canvas pixel outside the box unchanged |
| Picture.CreatePicture | CreatePictureFromTiles.py:121-138 | no canvas for an empty grid. Otherwise the canvas is tw * frame_width by th * frame_height, with the size taken from cell (0,0)'s tile, and every canvas pixel is that of the rendered picture |
| Pipeline.BuiltGridIsRenderable | CreatePictureFromTiles.py:122-125 | for a positive frame, a grid built from equally sized tiles is one the renderer accepts: in particular cell (0,0) holds a tile whose size sets the canvas |
| Pipeline.RunFrame | CreatePictureFromTiles.py:271-278 | a frame with a non-positive side, or an empty pool, gives no picture. Otherwise the grid is built from the deduplicated pool and the canvas is its rendering |

## Left out

- `CreatePicturesFromTiles.py` is only argument parsing, and its entry point does nothing with the parsed arguments.
- `ParseCommandLineArgs`, `SetupLogging`, `Log` and `CloseLog` are left out: they are command-line handling, console output and a global log file. The one diagnostic the core emits is the message logged at CreatePictureFromTiles.py:162, 'Could not find any tile whose boundaries are consistent for the grid area. Using black tile to show erroneous region at position (j,i)'. The model returns the positions of those messages as the `failures` list of `ConstructTileGrid`.
- `GetImagesFromPath` is file-system globbing, `Image.open`, and PIL rotation and mirroring. It checks only that all images share one size (CreatePictureFromTiles.py:204-212). It does not check their mode or their number of bands.
- Dedup.Uniform: images of one size but different band counts (say RGB and RGBA) pass the loader and reach `DeleteDuplicateImages` (CreatePictureFromTiles.py:234), where `ImageChops.difference` raises an error. The model leaves this failure out: the duplicate filter and `Pipeline.RunFrame` require one size and one band count.
- Pools of images that are not 8 bits per channel (Pillow modes `I`, `I;16`, `F`) are not modelled. For them `ImageChops.difference` raises even when all images share one mode, while the model's channel values are unbounded integers.
- `CloseImages` and closing files are left out: they release resources and compute nothing.
- `Tile.GetImage` is a plain field read, written `.im` in the model.
- `CreatePicture` saving to a file is dropped; the canvas is returned instead.
- Paste mode conversion is not modelled: PIL converts each pasted tile to the RGB canvas's mode, while the canvas here holds the tile's pixel tuples as they are.
- Images.Image.Valid: images have positive width and height. For a zero-size image the source raises `IndexError` in `Tile.__init__` (`pixels[0]` at CreatePictureFromTiles.py:33 when the height is 0, `row[width - 1]` at line 34 when the width is 0), and in `ImagesAreIdentical` through `pixels[0]` at line 260. That error is not modelled.
- Tiles.Tile.constructor: edges are exact pixel sequences, not Python's 64-bit `hash` of them, which may collide, so hash collisions are not modelled.
- Assembly.ConstructTileGrid: `random.choice` is any element of the non-empty list; its uniform distribution is not modelled. Unfilled cells hold -2 in place of Python's `None`; no cell is read before it is filled.
- Assembly.ConstructTileGrid: frame sizes are natural numbers. The negative sizes that `Main` rejects before calling it are handled in `Pipeline.RunFrame`.
- Images.Difference: `ImageChops.difference` is modelled only for two valid images of the same size and the same number of bands. Pillow raises an error when the band counts differ or the images are not 8-bit, and for images of different sizes it compares only their overlapping area. The loader rules out different sizes. The model excludes different band counts through Dedup.Uniform, and pools that are not 8-bit are left out, as stated earlier in this list.
- Dedup.DeleteDuplicateImages: uses the corrected identity test `Images.ImagesAreIdentical`, not the test as written. With the test as written, a pool without four-band images has nothing removed (`Dedup.AsWrittenFilterKeepsNonRgbaPool`). On four-band pools the two tests mark the same images (`Dedup.AsWrittenFilterAgreesOnRgbaPool`). So for RGB and greyscale pools the model removes duplicates that the source keeps.
- Python list aliasing is not modelled. `DeleteDuplicateImages` deletes from the caller's list in place and returns that same list; the model returns the new list as a value.
- `CreatePicture` also returns early when `tile_map == []`. That test compares a dict with a list, so it is always false. The model tests only `grid == []`, which holds whenever the pool is empty.

## Findings

| source | as written | input that shows it | evidently intended | confidence | as-written member | corrected member |
|---|---|---|---|---|---|---|
| CreatePictureFromTiles.py:258-260 | the difference pixels are compared with the 4-tuple `(0,0,0,0)`, but an RGB or greyscale image yields 3-tuples or plain values | two equal 1x1 RGB images with pixel (7,7,7): every difference pixel is (0,0,0), which is not (0,0,0,0), so the images are judged different and RGB duplicates are never removed | images are identical when every difference pixel is the all-zero pixel of their own band count | not executed | Images.ImagesAreIdenticalAsWritten, Images.RgbImageNotIdenticalToItself, Dedup.AsWrittenFilterKeepsNonRgbaPool | Images.ImagesAreIdentical, Dedup.DeleteDuplicateImages |
