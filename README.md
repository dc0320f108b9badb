# Leaflet tile generator — verified model

The Leaflet tile generator is a single React component
(`tools/leaflet_tile_generator.tsx`). The user uploads an image, and the
component cuts it into a pyramid of 256 × 256 PNG tiles for a Leaflet map:

- Zoom level `z` covers the whole image with a 2^z × 2^z grid of tiles.
- The top level, `maxZoom`, is derived from the longer side of the image.
- While it works, the component reports a progress percentage after each
  tile.
- Before generation it shows an estimate of the tile count.
- Afterwards it offers a text summary: the tile count, the (x, y) cells
  grouped by zoom, and the `maxZoom` to give to `L.tileLayer`.

This project models that logic in Dafny and proves what it does.

| module | what it holds |
|---|---|
| `TileMath` (`tile_math.dfy`) | Powers of two and four. The maximum zoom, characterised exactly as the least `z` with 256 · 2^z ≥ longer side (minus infinity for an empty image). The tile estimate, including the ECMAScript bitwise-or-with-zero conversion. The progress percentage and its `Math.round`. |
| `Crop` (`crop.dfy`) | The source and destination rectangles of a tile, in exact rational arithmetic. |
| `Tiling` (`tiling.dfy`) | The tile pyramid as a specification: `Row`, `Rows`, `Level` and `Pyramid` in the loops' (zoom, y, x) order. |
| `Structure` (`structure.dfy`) | The grouping of tiles by zoom that `downloadAsZip` builds, and `Math.max` over the tile zooms. |
| `Generator` (`generator.dfy`) | The component's state (`image`, `generating`, `progress`, `tiles`) as a class. `generateTiles` is written as nested loops, proved against `Pyramid` and the progress series. The grouping loop of `downloadAsZip` is proved against `CellsAt` and `Zooms`. |

Two behaviours of the code are easy to miss. The model follows the code
in both:

- **No clamp on `maxZoom`.** `maxZoom` is `Math.ceil(Math.log2(side / 256))`
  with no floor at 0.
  - An image whose longer side is 1 to 128 pixels gets a negative `maxZoom`,
    and the loop `zoom <= maxZoom` produces no tiles at all.
  - A 0-pixel image gives minus infinity, and also no tiles.
  - Only sides 129 to 256 give the single-tile pyramid.
  - See `TileMath.MaxZoomExamplesSmall` and `Tiling.PyramidSize` with
    `TileMath.Levels`.
- **Progress does not always reach 100.** The progress denominator is
  `4^(maxZoom+1) / 3`, a real number. It is slightly larger than the true
  tile count `(4^(maxZoom+1) - 1) / 3`.
  - The percentage still never decreases and never leaves [0, 100].
  - For one, two and three levels it ends at 75, 94 and 98 rather than
    100. See `TileMath.FinalProgress`, `TileMath.FinalProgressExamples`
    and `TileMath.RunProgress`.

## Model

| member | source | states |
|---|---|---|
| TileMath.LeastZoom | tools/leaflet_tile_generator.tsx:39-40 | For a non-empty image the result is a zoom at which 256 · 2^z reaches the longer side, and one less does not: it is `ceil(log2(side / 256))` in exact integers. |
| TileMath.MaxZoom | tools/leaflet_tile_generator.tsx:39-40 | `maxZoom` is minus infinity exactly when the longer side is 0 (`Math.log2(0)`). |
| TileMath.MaxZoomIsLeast | tools/leaflet_tile_generator.tsx:39-40 | `maxZoom` is the least zoom at which the pyramid reaches the image's resolution: `Fits(m, z)` holds exactly for z ≥ maxZoom. An empty image fits at every zoom. |
| TileMath.MaxZoomExamplesLarge | tools/leaflet_tile_generator.tsx:39-40 | Longer sides 4096, 1024, 512 and 257 give maxZoom 4, 2, 1 and 1. |
| TileMath.MaxZoomExamplesSmall | tools/leaflet_tile_generator.tsx:39-40 | Longer sides 256, 200 and 129 give 0, while 128 gives -1 and 64 gives -2: there is no clamp at 0. |
| TileMath.ToInt32 | tools/leaflet_tile_generator.tsx:156 | The bitwise-or-with-zero conversion (ECMAScript ToInt32) always yields a signed 32-bit value. |
| TileMath.EstimateForExponent | tools/leaflet_tile_generator.tsx:156 | 4^e / 3, converted by bitwise-or with zero, for an exponent e ≤ 16 is the size of an e-level pyramid, and 0 for e ≤ 0. |
| TileMath.EstimateMatchesTotal | tools/leaflet_tile_generator.tsx:156 | For a longer side up to 2^23 pixels, the displayed estimate equals the number of tiles the generator produces for that image. |
| TileMath.TotalCountExact | tools/leaflet_tile_generator.tsx:43-49 | The pyramid size satisfies 3 · total + 1 = 4^levels, so the count is exact. |
| TileMath.Levels | tools/leaflet_tile_generator.tsx:43 | The number of passes of `zoom <= maxZoom` from 0: none exactly when maxZoom is minus infinity or negative, and otherwise n passes with maxZoom = n - 1. |
| TileMath.Pow4Real | tools/leaflet_tile_generator.tsx:77 | `Math.pow(4, maxZoom + 1)` is 0 exactly for a maxZoom of minus infinity. For a finite exponent it is positive, at least 1 when the exponent is ≥ 0, and at most 1/4 when it is negative. |
| TileMath.EstimatedTiles | tools/leaflet_tile_generator.tsx:156 | The displayed estimate is a signed 32-bit value, and 0 for an empty image. |
| TileMath.Round | tools/leaflet_tile_generator.tsx:79 | `Math.round` gives the integer nearest its argument, with halves rounded up: r lies in [i - 1/2, i + 1/2). |
| TileMath.ProgressAfter | tools/leaflet_tile_generator.tsx:77-79 | The percentage set after k tiles is never negative, and it is 0 before any tile. |
| TileMath.ProgressRatio | tools/leaflet_tile_generator.tsx:77-79 | The percentage after k tiles equals `Math.round(300 k / 4^(maxZoom+1))`. |
| TileMath.ProgressMonotone | tools/leaflet_tile_generator.tsx:77-79 | More tiles never give a lower percentage. |
| TileMath.ProgressBounds | tools/leaflet_tile_generator.tsx:77-79 | Up to the real tile count, the percentage stays within [0, 100]. |
| TileMath.FinalProgress | tools/leaflet_tile_generator.tsx:77-79 | The percentage after the last tile is 100 if and only if maxZoom ≥ 3. |
| TileMath.FinalProgressExamples | tools/leaflet_tile_generator.tsx:77-79 | Runs of one, two and three levels end at 75, 94 and 98 percent. |
| TileMath.ProgressSeriesSound | tools/leaflet_tile_generator.tsx:77-79 | Every series of per-tile percentages within the tile count is non-decreasing, and each value lies in [0, 100]. |
| TileMath.RunProgress | tools/leaflet_tile_generator.tsx:31-79 | The values a run of n ≥ 1 levels writes to `progress` (0, then one per tile) are non-decreasing and within [0, 100]. The last is 100 exactly when n ≥ 4. |
| Crop.SourceRect | tools/leaflet_tile_generator.tsx:58-61 | For x and y below 2^z, the crop `(sx, sy, sw, sh)` of tile (x, y) lies inside the image on both axes. |
| Crop.SlicesAbut | tools/leaflet_tile_generator.tsx:58-61 | Along each axis, the crop of tile i ends exactly where the crop of tile i + 1 starts. |
| Crop.SlicesSpan | tools/leaflet_tile_generator.tsx:58-61 | The first crop starts at 0 and the last ends exactly at the image's edge. |
| Crop.SliceOfPoint | tools/leaflet_tile_generator.tsx:58-61 | A coordinate inside the image lies in the crop of index floor(p / (extent / 2^z)), and that index is in range. |
| Crop.SlicesPartition | tools/leaflet_tile_generator.tsx:58-61 | Along one axis, every coordinate of the image lies in exactly one tile's crop. |
| Crop.CropsPartitionImage | tools/leaflet_tile_generator.tsx:58-64 | At every zoom the source rectangles of the 2^z × 2^z tiles partition the image: each pixel position is drawn into exactly one tile. |
| Crop.CropExample | tools/leaflet_tile_generator.tsx:58-61 | For a 512 × 256 image at zoom 1, tile (0, 0) is cut from (0, 0, 256, 128) and tile (1, 1) from (256, 128, 256, 128). |
| Tiling.LongerSide | tools/leaflet_tile_generator.tsx:39 | `Math.max(width, height)`: the result is one of the two sides and no smaller than either. |
| Tiling.PyramidZoomsBelow | tools/leaflet_tile_generator.tsx:43-49 | Every tile of an n-level pyramid has zoom below n. |
| Tiling.PyramidTopLast | tools/leaflet_tile_generator.tsx:43-49 | A pyramid of at least one level is non-empty, and its last tile belongs to the top level n - 1. |
| Tiling.LevelSize | tools/leaflet_tile_generator.tsx:44-49 | Level z holds exactly 4^z tiles. |
| Tiling.PyramidSize | tools/leaflet_tile_generator.tsx:43-49 | A pyramid of n levels holds (4^n - 1) / 3 tiles. |
| Tiling.PyramidMembers | tools/leaflet_tile_generator.tsx:43-75 | A tile is in an n-level pyramid exactly when its zoom is below n, x and y are below 2^zoom, and it carries that address's crop and canvas rectangles. |
| Tiling.PyramidOrdered | tools/leaflet_tile_generator.tsx:43-49 | Tiles appear in strictly increasing (zoom, y, x) order. |
| Tiling.PyramidExactlyOnce | tools/leaflet_tile_generator.tsx:43-49 | Every address (z, x, y) of the pyramid occurs at exactly one position. |
| Tiling.PyramidCountAt | tools/leaflet_tile_generator.tsx:43-49 | Zoom z < n contributes exactly 4^z tiles, and no other zoom occurs. |
| Structure.LayerMaxZoom | tools/leaflet_tile_generator.tsx:116 | `Math.max(...zooms)` is minus infinity for no tiles. Otherwise it is a zoom that occurs and bounds every tile's zoom. |
| Structure.ZoomsExact | tools/leaflet_tile_generator.tsx:99-103 | The keys `forEach` creates are exactly the zooms of the tiles: every tile's zoom is a key, and every key is some tile's zoom. |
| Structure.CellsAtAbsent | tools/leaflet_tile_generator.tsx:100-103 | A zoom that no tile has gets no cells. |
| Structure.CellsAtCount | tools/leaflet_tile_generator.tsx:100-103 | Each zoom's list holds one cell per tile of that zoom. |
| Structure.CellsAtSound | tools/leaflet_tile_generator.tsx:100-103 | A cell is listed under zoom z exactly when some tile of zoom z has it. |
| Structure.GroupsAddUp | tools/leaflet_tile_generator.tsx:99-105 | When every zoom is below n, the lists of zooms 0 .. n - 1 together hold as many cells as `tiles.length`. |
| Structure.PyramidGroupOrder | tools/leaflet_tile_generator.tsx:99-103 | For a generated pyramid, zoom z < n lists the cells of level z in generation order. Higher zooms get nothing. |
| Structure.PyramidGroupSize | tools/leaflet_tile_generator.tsx:99-103 | For a generated pyramid, zoom z < n lists 4^z cells. |
| Structure.PyramidKeys | tools/leaflet_tile_generator.tsx:99-103 | For a generated pyramid, the keys are exactly zooms 0 .. n - 1. |
| Structure.PyramidLayerMaxZoom | tools/leaflet_tile_generator.tsx:116 | The layer maxZoom of an n-level pyramid is n - 1, or minus infinity when n = 0. |
| Structure.LayerMaxZoomMatchesGenerator | tools/leaflet_tile_generator.tsx:116 | The maxZoom written into the Leaflet configuration equals the generator's maxZoom whenever any tile was produced. |
| Generator.LeafletTileGenerator.constructor | tools/leaflet_tile_generator.tsx:5-8 | Initial state: no image, not generating, progress 0, no tiles. |
| Generator.LeafletTileGenerator.LoadImage | tools/leaflet_tile_generator.tsx:17-19 | A loaded image replaces the previous one and clears the tiles. Nothing else changes. |
| Generator.LeafletTileGenerator.GenerateTiles | tools/leaflet_tile_generator.tsx:27-86 | With no image nothing changes. Otherwise `tiles` becomes exactly the n-level pyramid for the image's maxZoom. `progress` has taken the values 0, then one percentage per tile in order, and ends at the last of them. `generating` ends false and the image is unchanged. |
| Generator.LeafletTileGenerator.GenerateLevels | tools/leaflet_tile_generator.tsx:43-82 | The zoom loop appends levels 0 .. maxZoom (none for a negative or infinite maxZoom). Each tile is followed by its progress value. |
| Generator.LeafletTileGenerator.GenerateLevel | tools/leaflet_tile_generator.tsx:44-81 | One pass of the zoom loop appends exactly level `zoom`, row by row. |
| Generator.LeafletTileGenerator.GenerateRow | tools/leaflet_tile_generator.tsx:49-80 | One run of the column loop appends exactly row y of level `zoom`, each tile with its crop. After each tile, progress is set from the running count. |
| Generator.LeafletTileGenerator.DownloadAsZip | tools/leaflet_tile_generator.tsx:97-116 | The summary values: the tile count, the dictionary whose keys are exactly the zooms present and whose value for each key is that zoom's cells in tile order, and `Math.max` over the zooms. |

## Left out

- User interface: the JSX, the buttons and the tile preview grid are not modelled. Only the state they display is.
- Upload I/O: `FileReader` and image decoding (lines 11-25) become the `LoadImage` call with the decoded size. Only width and height matter to the generator.
- Canvas drawing and PNG encoding: `fillRect`, `drawImage` and `toBlob` (lines 50-55, 64-67) are not modelled. A tile records the source and destination rectangles passed to `drawImage` instead of pixel data.
- Object URLs: the `url` and `blob` fields of a tile (lines 73-74) are not modelled.
- Encoding failure: the model assumes every tile encodes. In the code, `toBlob` can hand back `null` (line 67). `URL.createObjectURL(null)` then throws at line 74, and the run stops before lines 84-85: `generating` stays true and `tiles` is never set. `GenerateTiles` does not model this path.
- Text assembly in `downloadAsZip` (lines 105-127): the summary's text layout, the `bounds` line and the `Blob` download are not modelled. The dictionary is modelled as a map, so the ascending key order of `Object.keys` is not modelled either. The values the text is built from are modelled.
- `downloadTiles` (lines 88-95) only triggers one browser download per tile. It is not modelled.
- Floating point: `Math.log2` and `Math.ceil` (line 40) are replaced by the exact integer characterisation `TileMath.LeastZoom`. The crop coordinates and the progress ratio use exact rationals. Rounding in IEEE doubles is not modelled.
- Concurrency: the `await` in the tile loop (line 67) lets the user interact in the middle of a run. For example, uploading a new image mid-run clears `tiles`, and the run's final `setTiles` then overwrites that. Runs are modelled as atomic.
- `generating` disabling the button (line 162) belongs to the user interface. Nothing in the model prevents calling `GenerateTiles` twice.
- React state updates are asynchronous; `progress` is modelled as written immediately. The values written during the latest run are recorded in a ghost field.
- TileMath.EstimateMatchesTotal: holds only for longer sides up to 2^23 pixels. Beyond that the exponent exceeds 16 and `| 0` wraps modulo 2^32. `TileMath.ToInt32` models the wrap, but no equality is claimed there.
