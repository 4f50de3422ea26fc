# TurbotSAM tiled segmentation pipeline, modelled in Dafny

TurbotSAM counts fish (turbot) in an image by segmenting it with MobileSAM.
The user chooses the path. "Sin cuadrantes" segments the whole image at once. Choosing a cell count of 4, 9, 16, 25 or 36 runs the tiled path:

1. The image is split into a square grid of `s × s` tiles, with `s = isqrt(N)` for a requested cell count `N`.
2. The segmentation oracle runs on each tile in turn. A generator reports progress after each tile.
3. The per-tile masks are moved back into the frame of the whole image and concatenated.
4. The masks are then rasterized into a label image.
5. Optionally, they are filtered by intensity, opening and size.
6. Finally, one centroid is computed per mask.

This project models that core:

| file | module | models |
|---|---|---|
| `Images.dfy` | `Images` | The error values and the `Result`/`Option` wrappers. Grids as `seq<seq<T>>`, boolean masks and mask records. `isqrt` and the grid partition that every tiled operation derives from `N`. |
| `Utils.dfy` | `Utils` | `generarCuadrantes`, the sector fill over a 2-D label array. `recortarCuadrantes`, the row-major crop. `obtenerDimensionesImagen`. The absolute part of `calcularErrores`. |
| `TileSegmentation.dfy` | `TileSegmentation` | `generarMascarasPorCuadrante` as a class `MaskStream` whose `Next` is one resumption of the generator. The consuming loop of the caller is `ConsumeAll`. |
| `Stitching.dfy` | `Stitching` | `superponerMascaras`: re-projection of the tile masks and concatenation. |
| `Rasterizer.dfy` | `Rasterizer` | `mostrarLabels`: last-write-wins painting into a label array. |
| `Postprocessing.dfy` | `Postprocessing` | `procesarMascaras`: a stable area sort (largest first), intensity exclusion, the opening, the strict size window, and in-place painting of the caller's label array. |
| `Centroids.dfy` | `Centroids` | `pintarCentroidesMascaras`: the truncated centre of mass of each mask. |
| `Pipeline.dfy` | `Pipeline` | How the stages fit together. Masks shaped like a tile always stitch without error. A re-projected pixel lands in the sector numbered after its tile. A re-projected mask's centroid stays inside its tile. |

Python exceptions are modelled as `Err` values:

- a floor division by a zero tile side;
- a boolean index whose shape does not match;
- `mascaras[0]` on an empty list;
- `int(nan)` for an empty mask;
- an index outside the image;
- an error raised by the oracle.

`None` is modelled as `Option.None`. Operations that fill or update a numpy array in place are methods over `array2<int>`. Pure computations are functions.

The model follows the code on these points:

- `mostrarLabels` paints the masks in input order. It does not sort them by area. Ids are the 1-based input positions.
- `procesarMascaras` paints with the 1-based position in the sorted list. Masks that are skipped or rejected still use up their position, so the ids of the kept masks can have gaps. `KeptIsSubsequence` states which ids occur.
- No grid error exists for a cell count that is not a perfect square. `isqrt` floors the count. Only `N = 0` fails, through the floor division by zero.
- The generator yields the list of per-tile mask lists, not a flat list.
- Progress is capped at 90 without postprocessing and at 50 with it. The code's `aux` gives exactly these values.

## Model

| member | source | states |
|---|---|---|
| Images.RowCountPositive | scripts/ProcesarMascaras.py:158-161 | a row has a positive pixel count exactly when it has a true cell |
| Images.PixelCountPositive | scripts/ProcesarMascaras.py:158-161 | a mask has a positive pixel count exactly when some pixel is set, so `center_of_mass` is defined exactly for masks with a true pixel |
| Images.Isqrt | scripts/Utils.py:26 | the result is the floor of the square root: `s² ≤ n < (s+1)²` |
| Images.Partition | scripts/Utils.py:25-28 | fails exactly when `N = 0`, with the zero-side error. Otherwise `s² ≤ N < (s+1)²`, and `s` tiles of the floored tile height and width fit in the image with less than `s` pixels to spare on each axis |
| Utils.SectorLabels | scripts/Utils.py:24-41 | fails exactly when `N = 0`. Otherwise it returns a fresh H×W array in which every pixel holds its sector value: the 1-based row-major tile number inside the `s·h × s·w` area when sectors are on, and 0 everywhere else |
| Utils.PaintTile | scripts/Utils.py:37-41 | filling tile (i, j) sets exactly the pixels of that tile to `i·s + j + 1`, and every other pixel keeps its value |
| Utils.PaintedIsFilled | scripts/Utils.py:35-41 | the tiles do not overlap, so after the row-major fill has reached tile (i, j), each pixel of an earlier tile holds that tile's number plus one and every other pixel is 0, whatever the painting order within the loop |
| Utils.SectorOfTilePixel | scripts/Utils.py:35-41 | pixel (r, c) of tile (i, j) carries label `i·s + j + 1` |
| Utils.Crop | scripts/Utils.py:76-77 | the window has the requested shape, and pixel (r, c) is image pixel (top+r, left+c) |
| Utils.Tile | scripts/Utils.py:74-77 | tile (i, j) has the tile size |
| Utils.TilePixel | scripts/Utils.py:74-77 | pixel (r, c) of tile (i, j) is image pixel `(i·h + r, j·w + c)`, which lies inside the image |
| Utils.RowMajorTilesAt | scripts/Utils.py:72-78 | there are `s²` tiles, and tile number `i·s + j` is the tile at grid position (i, j) |
| Utils.CropTiles | scripts/Utils.py:56-80 | fails exactly when `N = 0`. Otherwise the grid fits the image and the result is the `s²` tiles in row-major order |
| Utils.Dimensions | scripts/Utils.py:96-97 | the image has exactly the returned height and width |
| Utils.AbsoluteError | scripts/Utils.py:145 | the error is `o − c` or `c − o`, is never negative, and is 0 exactly when the counts agree |
| Utils.AbsoluteErrorSymmetric | scripts/Utils.py:145 | the absolute error does not depend on the order of its arguments |
| TileSegmentation.Progress | scripts/TurbotSAM.py:88-95 | progress after k of n tiles lies in (0, cap] and equals the cap exactly when k = n |
| TileSegmentation.ProgressIncreases | scripts/TurbotSAM.py:92-95 | with a positive cap, progress strictly increases from tile to tile |
| TileSegmentation.MaskStream.constructor | scripts/TurbotSAM.py:86-89 | a new generator has an empty shared list and count 0, and its cap is 90 without postprocessing and 50 with it |
| TileSegmentation.MaskStream.Next | scripts/TurbotSAM.py:91-96 | one resumption of the generator. It segments the next tile, appends the oracle's masks to the shared list, bumps the count and yields (progress, list, count). An oracle error is re-raised and ends the generator. A finished generator is exhausted. The shared list always holds the oracle's results for the tiles done so far |
| TileSegmentation.OkPrefix | scripts/TurbotSAM.py:91-96 | the number of leading tiles that the oracle segments before its first failure |
| TileSegmentation.ConsumeAll | scripts/NapariSAM.py:1185-1196 | driving the generator to its end gives one report per tile segmented before the first failure. The k-th report is (progress of k tiles, k). The result is the oracle's masks for every tile, in tile order, when no tile fails, and otherwise the first failing tile's error. `last` is always the oracle's masks for the tiles segmented before the first failure |
| Stitching.Shifted | scripts/ProcesarMascaras.py:199 | the re-projected mask has the size of the whole image |
| Stitching.ShiftedPixels | scripts/ProcesarMascaras.py:198-204 | when the mask fits, every true pixel moves by the tile offset, and no other pixel of the global mask is set |
| Stitching.Relocated | scripts/ProcesarMascaras.py:206-215 | the new record carries the re-projected mask. Area, bbox, predicted IoU, point coordinates, stability score and crop box are copied unchanged |
| Stitching.RelocateAllAt | scripts/ProcesarMascaras.py:196-215 | record t of a re-projected tile is record t of the tile, re-projected |
| Stitching.StitchedAt | scripts/ProcesarMascaras.py:191-217 | tile idx occupies positions (records of earlier tiles) .. (records of tiles up to idx) − 1 of the output, with its records re-projected by its offset and kept in their order |
| Stitching.StitchedLayout | scripts/ProcesarMascaras.py:191-217 | the output holds every record of the first `s²` tiles exactly once. Record t of tile idx sits at position (records of earlier tiles) + t and is moved by its tile's offset |
| Stitching.TileShapedFits | scripts/ProcesarMascaras.py:184-204 | a mask of tile size fits at the offset of any of the `s²` tiles |
| Stitching.RelocateTile | scripts/ProcesarMascaras.py:196-215 | the loop over one tile's records raises exactly when some record would have a pixel outside the image. Otherwise it returns every record re-projected by the tile's offset, in order |
| Stitching.Superimpose | scripts/ProcesarMascaras.py:172-221 | fails exactly when there are no tile lists (zero side) or a true pixel would land outside the image. Otherwise it returns the stitched list of the first `s²` tile lists |
| Rasterizer.LastCoverIsLast | scripts/ProcesarMascaras.py:85-87 | a pixel's label is 0 exactly when no mask covers it. Otherwise the mask it names covers the pixel and no later mask does |
| Rasterizer.LastCoverDisjoint | scripts/ProcesarMascaras.py:85-87 | for masks that do not overlap at a pixel, the pixel's label is k+1 exactly when mask k covers it |
| Rasterizer.RenderLabels | scripts/ProcesarMascaras.py:49-91 | returns None for no masks. Fails exactly when some mask's shape differs from the first one's. Otherwise it returns a fresh array of the first mask's shape holding the last covering 1-based position at each pixel |
| Postprocessing.InsertByAreaPermutes | scripts/ProcesarMascaras.py:114 | insertion adds exactly the one record |
| Postprocessing.InsertByAreaDescending | scripts/ProcesarMascaras.py:114 | insertion keeps a largest-first list ordered |
| Postprocessing.InsertByAreaStable | scripts/ProcesarMascaras.py:114 | insertion puts the record before the existing records of its own area and leaves the records of every other area untouched |
| Postprocessing.SortByAreaPermutes | scripts/ProcesarMascaras.py:114 | the sorted list is a permutation of the input |
| Postprocessing.SortByAreaDescending | scripts/ProcesarMascaras.py:114 | the sorted list is ordered largest area first |
| Postprocessing.SortByAreaStable | scripts/ProcesarMascaras.py:114 | the sort is stable: for every area, the records of that area keep their input order |
| Postprocessing.WorkingMaskMeaning | scripts/ProcesarMascaras.py:119-120 | the intensity exclusion keeps exactly the segmentation pixels at least as bright as the threshold, and excluding again changes nothing |
| Postprocessing.WorkingMaskNonEmpty | scripts/ProcesarMascaras.py:119-124 | the excluded mask has a pixel left (`pixels.size != 0`) exactly when some segmentation pixel is at least as bright as the threshold |
| Postprocessing.Judge | scripts/ProcesarMascaras.py:117-128 | one iteration's test, computed as the code does it (exclusion, empty check, opening, area window), returns exactly the verdict `Accepts`: some segmentation pixel reaches the threshold and `minSize < area < maxSize`, both bounds strict, using the stored area. It also returns the opened working mask |
| Postprocessing.OpenedInSegmentation | scripts/ProcesarMascaras.py:119-126 | when the opening never adds pixels, every pixel of the painted mask is a segmentation pixel at least as bright as the threshold |
| Postprocessing.PaintMask | scripts/ProcesarMascaras.py:129 | the pixels the mask covers take the value, and every other pixel keeps its value |
| Postprocessing.KeptIsSubsequence | scripts/ProcesarMascaras.py:116-130 | the kept list is the sorted list restricted to the accepted positions. The positions strictly increase, a position is listed exactly when its record is accepted, and the k-th kept record is the record at the k-th position |
| Postprocessing.LabelAtIsLast | scripts/ProcesarMascaras.py:126-129 | a pixel keeps the caller's value when no kept record's opened mask covers it. Otherwise it holds v, where record v−1 is kept, covers it, and no later kept record covers it |
| Postprocessing.ChangedPixelIsCovered | scripts/ProcesarMascaras.py:119-129 | when the opening never adds pixels, a relabelled pixel lies in the segmentation of the kept record whose 1-based sorted position it holds, and is at least as bright as the threshold |
| Postprocessing.Postprocess | scripts/ProcesarMascaras.py:94-134 | returns the kept records of the area-sorted list, and every pixel of the label array becomes the label the kept opened masks give it (otherwise unchanged) |
| Centroids.CentroidInBox | scripts/ProcesarMascaras.py:158-161 | the truncated centre of mass of a non-empty mask lies inside every box that contains all of its pixels |
| Centroids.CentroidPoints | scripts/ProcesarMascaras.py:137-169 | fails on an empty list and on a mask without pixels. Otherwise it returns the first mask's size and one centroid per mask, in mask order |
| Pipeline.TileShapedMasksFit | scripts/ProcesarMascaras.py:191-204 | stitching masks of tile size over the crop's grid never raises |
| Pipeline.RelocatedPixelInSector | scripts/ProcesarMascaras.py:198-204 | a true pixel (r, c) of a mask from tile (i, j) lands at `(i·h + r, j·w + c)`, whose sector label is that tile's number `i·s + j + 1` |
| Pipeline.CentroidStaysInTile | scripts/ProcesarMascaras.py:158-161 | the centroid of a re-projected non-empty mask from tile (i, j) lies inside that tile's region of the image |

## Left out

- The separating lines of `generarCuadrantes` (`cv2.line`) and the circles of `pintarCentroidesMascaras` (`cv2.circle`) are not modelled. They are raster drawing in a foreign library. The sector fill and the size of the point image are modelled.
- Integer widths of the label arrays are not modelled: `uint8` sectors and `uint16`/`uint32` labels use unbounded integers. A sector number above 255 (`N ≥ 256`) behaves differently depending on the NumPy version: it wraps in some versions and raises in others.
- `Images.Isqrt` is the exact integer square root. `int(math.sqrt(N))` agrees with it for every cell count the application can request. It would differ only for counts beyond the float mantissa.
- `TileSegmentation.Progress` is an exact rational. Float rounding of `cont / numCuadrantes * aux` is not modelled.
- The relative error of `calcularErrores` is left out: a float division rounded to two decimals. It raises when the expected count is 0, and its caller guards that case.
- `Centroids.Centroid` is the exact mean floored, which is the same as truncation because the mean is never negative. Float rounding of `center_of_mass` is not modelled.
- The morphological opening with `disk(3)` is a parameter of `Postprocessing.Postprocess`. Two lemmas rely on a property of it, namely that it never adds a pixel: `Postprocessing.OpenedInSegmentation` and `Postprocessing.ChangedPixelIsCovered`, which uses it. Its exact effect is not modelled.
- Postprocessing.Postprocess: the matching shapes of the label image, the intensity image and the masks are a precondition rather than a modelled IndexError. The function's docstring promises only that the label image has the original image's shape. The other shapes are guaranteed by its only call site (scripts/NapariSAM.py:1231-1235). That call site builds the labels as zeros of the grey image's height and width, and the intensity as the mean of its channels. The masks come from that same image.
- The segmentation oracle (MobileSAM's automatic mask generator, its model loading and its parameters) is a function parameter of `TileSegmentation.MaskStream`. Its internals are not part of this model.
- TileSegmentation.ConsumeAll: after an oracle failure the caller catches the exception and still stitches the last yielded list (scripts/NapariSAM.py:1191-1196). `ConsumeAll` returns that list as `last`, holding k < n tile lists. `superponerMascaras` then takes `isqrt(k)` as the grid side, so the partial masks are placed on the wrong grid. Example: 9 tiles of a 900×900 image, with a failure on tile 4 (0-based); the four lists are stitched on a 2×2 grid of 450×450 tiles. The model does not chain `last` into `Stitching.Superimpose`. When the first tile fails the caller's variable is never bound, and that case is not modelled either.
- TileSegmentation.MaskStream.Next: the generator yields the same list object on every step. The model yields a snapshot of its value, so a consumer's view of later appends through that alias is not captured. Every snapshot is a prefix of the next one.
- Grids are `seq<seq<T>>` with the width taken from the first row, so the width of an image with no rows is not represented. Colour channels are an opaque pixel type `P`. `recortarCuadrantes` and `obtenerDimensionesImagen` unpack a three-dimensional shape, and a two-dimensional image there is not modelled.
- The exceptions are modelled as error values. A bare `except Exception: raise` re-raises unchanged, so it is the identity on them. Memory exhaustion while allocating label images is not modelled.
- The graphical interface, threads, logging, file I/O, the non-tiled path and the other helpers of `Utils` (`convertRGB` and the rest) are not modelled. They are outside the pipeline core.
