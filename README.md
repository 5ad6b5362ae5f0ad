# Brick and block mosaics of imaging-app, in Dafny

This project models the integer core behind the `/lego` and `/minecraft`
endpoints of imaging-app.

- **Band remapper** (`colorize_lego_band`). It recolours one band of the
  grey brick texture towards a target channel value. A template pixel
  darker than 33 becomes the target minus 100. One brighter than 233
  becomes the target plus 100. Anything in between becomes the target
  shifted by the pixel's offset from 133. The result is clamped to
  [0, 255].
- **Nearest-palette matcher** (the `min_by_key` in `minecraft`). It picks
  the palette key with the smallest L1 distance to a pixel, summed over R,
  G, B and A. On a tie it keeps the earliest key in the order the palette's
  key list was collected.
- **Mosaic compositor** (`lego` and `minecraft`). It creates a transparent
  canvas `cell` times the resized image in each dimension, with cells of 30
  for bricks and 20 for blocks. It walks the image row by row with `x`/`y`
  cursors and pastes one tile at the cursor for every pixel whose alpha is
  not 0.

Files:

- `imaging.dfy` (module `Imaging`): 8-bit channels and RGBA pixels.
  `Grid<T>` stands for the raster library's `Image<P>`, stored as rows.
  `Canvas` is the image mutated in place, with `Paste`.
- `helpers.dfy` (module `Helpers`): the remap of one pixel (`RemapValue`),
  the band map (`ColorizeBand`) and their properties.
- `palette.dfy` (module `PaletteMatch`): the palette, the L1 distance, the
  left fold `Nearest` and the lookup `MatchColor`.
- `mosaic.dfy` (module `Mosaic`): the cell sizes and default resize
  targets, the brick tile, the specification of the finished canvas
  (`MosaicPixel`), lemmas about cells, and the imperative `Lego` and
  `Minecraft` loops.

`Lego` and `Minecraft` are proved against `MosaicPixel`. Their result
canvas equals that specification at every position. The lemmas about
`MosaicPixel` then give the promised properties:

- the source pixel at row `r`, column `c` owns the cell at
  `(c * cell, r * cell)`;
- the cells partition the canvas;
- a pixel with alpha 0 leaves its cell transparent.

The block style needs a tile for every pixel, including for a palette with
no entries. An empty palette has no tile, so `TileFor` gives a transparent
tile there. That tile is never drawn: `Minecraft` returns `None` at the
first visible pixel when the palette is empty, where the source's `unwrap`
panics.

## Model

| member | source | states |
|---|---|---|
| `Imaging.Uniform` | src/functions.rs:95 | the alpha band `Image::new(w, h, v)` has size w by h and is `v` at every position |
| `Imaging.Canvas.constructor` | src/functions.rs:80-84 | a new canvas has the requested size and every pixel is the fill colour (transparent for both mosaics) |
| `Imaging.Canvas.Paste` | src/functions.rs:89-97 | the tile lands in the rectangle at (x, y) with each tile pixel at its offset, and every canvas pixel outside the rectangle keeps its value |
| `Helpers.Clamp` | src/helpers.rs:21-25 | the result always lies in [0, 255]; values already in range are kept, values below go to 0, values above go to 255 |
| `Helpers.RemapValue` | src/helpers.rs:11-27 | the result is a Byte, the clamped three-way shift of the closure; its range [0, 255] is stated as an ensures and also holds by the result type |
| `Helpers.RemapCases` | src/helpers.rs:13-19 | template value below 33 gives clamp(v-100), above 233 gives clamp(v+100), and otherwise clamp(v-133+p) |
| `Helpers.RemapIsClampedShift` | src/helpers.rs:13-25 | the three cases meet at their boundaries, so the remap equals clamp(v + clamp(p,33,233) - 133) |
| `Helpers.RemapNeutral` | src/helpers.rs:17-18 | the template grey 133 reproduces any 8-bit target value exactly |
| `Helpers.RemapMonotoneInValue` | src/helpers.rs:13-25 | for a fixed template value, a larger target never gives a smaller output |
| `Helpers.RemapMonotoneInTemplate` | src/helpers.rs:13-25 | for a fixed target, a brighter template pixel never gives a smaller output, across all three cases |
| `Helpers.RemapAtExtremes` | src/helpers.rs:13-25 | with target 0 the template's darker half is black and its brighter half keeps its offset above 133; with target 255 the reverse |
| `Helpers.RemapWithinShadowAndHighlight` | src/helpers.rs:13-25 | every output lies between the shadow output clamp(v-100) and the highlight output clamp(v+100) |
| `Helpers.ColorizeBand` | src/helpers.rs:9-29 | the output band has the input's size, and each output pixel is the remap of the input pixel at the same position |
| `Helpers.ColorizeBandMonotone` | src/helpers.rs:9-29 | remapping towards a larger target gives a band that is at least as bright at every position |
| `Helpers.ColorizeNeutralBand` | src/helpers.rs:9-29 | a band that is 133 everywhere is remapped to a uniform band of the target value |
| `PaletteMatch.AbsDiff` | src/functions.rs:128-131 | `u8::abs_diff`: the gap between two channel values, at most 255, 0 exactly for equal values |
| `PaletteMatch.Distance` | src/functions.rs:127-132 | the sum of the four u8 `abs_diff`s widened to u32, at most 1020 so it never wraps, and 0 exactly when key and pixel are equal |
| `PaletteMatch.DistanceZero` | src/functions.rs:127-132 | the L1 distance over R, G, B, A is 0 exactly when the key equals the pixel |
| `PaletteMatch.Nearest` | src/functions.rs:126-134 | the returned index is in range, its key is no farther than any other key, and it is strictly nearer than every earlier key, so ties go to the first |
| `PaletteMatch.NearestIsUniqueFirstMinimum` | src/functions.rs:126-134 | any index that is both a minimum and first among the minima is the one the fold returns |
| `PaletteMatch.MatchColor` | src/functions.rs:126-137 | no colour exactly when the palette is empty (the `unwrap` panic); otherwise the colour is a key of the block map, so the lookup cannot fail, and it is no farther than any key |
| `PaletteMatch.ExactMatch` | src/functions.rs:126-134 | a pixel whose colour is a key is matched to that key, at distance 0 |
| `PaletteMatch.SingleEntryMatch` | src/functions.rs:126-134 | with a single-entry palette every pixel is matched to its one key |
| `Mosaic.BrickTarget` | src/functions.rs:78 | with no size given the brick resize target is 40; otherwise it is the given u8 size (so at most 255) |
| `Mosaic.BlockTarget` | src/functions.rs:114 | with no size given the block resize target is 70; otherwise it is the given u8 size (so at most 255) |
| `Mosaic.FromBands` | src/functions.rs:91-96 | the assembled tile has the bands' size, and each of its pixels takes R, G, B and A from the four bands at the same position |
| `Mosaic.BrickTile` | src/functions.rs:89-96 | the brick is 30 by 30; its R, G and B at each position are the template's bands remapped with the pixel's r, g and b; its alpha is the pixel's alpha everywhere |
| `Mosaic.TileFor` | src/functions.rs:125-140 | the tile is cell by cell; for blocks over a non-empty palette it is the block of the nearest key |
| `Mosaic.CellFits` | src/functions.rs:99-102 | with fewer than n cells to its left, one more cell still ends within a side of n cells |
| `Mosaic.CellOf` | src/functions.rs:99-102 | a canvas position on a side of n cells lies in cell v / cell, which is below n, at offset v % cell |
| `Mosaic.CellCoordinates` | src/functions.rs:99-102 | a position inside cell k is found again in cell k by division, at its offset from the cell's start |
| `Mosaic.CellPlacementAt` | src/functions.rs:86-103 | a position in the cell of row r, column c is on the canvas and shows that pixel's tile at the same offset, or is transparent when the pixel has alpha 0 |
| `Mosaic.CellPlacement` | src/functions.rs:86-103 | the pixel at row r, column c owns the cell at (c * cell, r * cell): every position of that cell shows its tile at the same offset, or is transparent for alpha 0 |
| `Mosaic.CellsPartitionCanvas` | src/functions.rs:99-102 | every canvas position lies in the cell of exactly one source pixel, so cells are disjoint and cover the canvas |
| `Mosaic.SkippedCellIsTransparent` | src/functions.rs:88 | a source pixel with alpha 0 leaves its whole cell transparent |
| `Mosaic.BrickPixel` | src/functions.rs:86-103 | each brick canvas pixel inside a visible pixel's cell has the template remapped towards that pixel's r, g, b, and has the pixel's alpha |
| `Mosaic.SingleBlockCoversCanvas` | src/functions.rs:122-146 | a fully opaque image over a single-entry palette is covered by that block with no transparent gaps |
| `Mosaic.SkipCell` | src/functions.rs:88 | skipping a pixel with alpha 0 leaves the canvas unchanged and still finishes that pixel's cell |
| `Mosaic.PasteCell` | src/functions.rs:89-97 | pasting a visible pixel's tile at the cursor finishes its cell and changes nothing else |
| `Mosaic.Lego` | src/functions.rs:74-106 | the canvas is width*30 by height*30, and every one of its pixels equals the brick mosaic specification |
| `Mosaic.Minecraft` | src/functions.rs:110-149 | fails exactly when the palette is empty and some pixel is visible; otherwise the canvas is width*20 by height*20 and equals the block mosaic specification |

## Left out

- `resize_to` (src/helpers.rs:32-42) computes the short side with `f32` division and `ceil`, then calls the library's bilinear resampler. It is not modelled. `Lego` and `Minecraft` take the already-resized image, which the caller obtains with `BrickTarget(size)` or `BlockTarget(size)` as the long side.
- Palette loading (src/functions.rs:31-67) is not modelled: directory listing, PNG decoding, the 1×1 downsample that gives each key, the resize of each block to 20×20, and the load counters. The palette is an input. Its `sample` stands for `MC_SAMPLE`, the keys in the map's iteration order, which decides ties.
- Loading the brick texture `lego.png` is not modelled. The template is an input, and its three bands are assumed to be 30×30. That is the size `Image::from_bands` needs to match the 30×30 alpha band.
- `Imaging.Canvas.Paste`: the library's `paste` blends the tile onto the canvas by alpha. The model writes the tile's pixels in place of the canvas pixels. Each cell is written once, onto a transparent background, so only the library's blend arithmetic for a transparent base is not captured. The tile must also fit inside the canvas, which both mosaics guarantee.
- The library stores an image as one row-major vector. The model uses a two-dimensional array, indexed by (row, column).
- `Helpers.RemapValue` takes the target as an unbounded integer. The source's `i32` arithmetic could overflow only for targets within 133 of the `i32` limits. No caller passes such a value, because callers pass u8 channels.
- Machine integer widths of the cursors and canvas dimensions (u32) are not modelled. The size parameter is a u8 (src/models.rs:7). The `f32` product in `resize_to` can round just above the target, so a resized side is at most 256 and a canvas side at most 7680. Nothing can wrap.
- The `.clone().convert()` of a block (src/functions.rs:138-139) converts RGBA to RGBA and is modelled as the block itself.
- `paint`, `to_photon`, `to_ril` and `not_found` are not modelled. They call the oil effect (floating point, external library) and use GIF brush masks and base64/PNG codec round trips.
- src/wrapper.rs, src/main.rs, src/models.rs and the frontend are not modelled. They are multipart upload handling, HTTP routing, option structs and UI code. The braille, ascii, matrix, lines, balls and squares functions those routes name are not part of this model.
