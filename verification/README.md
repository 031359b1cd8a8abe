# Area-weighted rasterization of a polygon layer

`rasterize.py` turns a polygon feature class into a raster. Each output cell
holds the attribute values of the polygons that overlap it, weighted by the
fraction of the cell each polygon covers. All geometry work is done by the GIS
toolkit. The program itself contributes four pieces of bookkeeping, and this
Dafny project models those four:

1. **Grid sizing.** `width = int((xmax - xmin) / cellsize) + 1`, and likewise
   `height` (`CellIndex.GridDim`).
2. **Unique cell labelling.** A nested loop writes a running counter
   1, 2, … into a `height × width` array in row-major order. This stops the
   raster-to-polygon conversion from merging neighbouring cells
   (`Rasterization.Grid.LabelCells`).
3. **Weighted accumulation.** The intersected layer is read with a cursor.
   Each fragment carries its cell label, an attribute value and an area. The
   label is decoded as `row = (id - 1) // width`, `col = (id - 1) % width`.
   The cell gains `value * area / cellsize²`, and its mask bit is set
   (`Rasterization.Grid.AddFragment`, `Rasterization.Grid.Accumulate`).
4. **NoData sweep.** Every cell whose mask bit is still unset is overwritten
   with the sentinel `value_to_nodata`, which defaults to -9999.0
   (`Rasterization.Grid.FillNoData`).

`Rasterization.Rasterize` chains the four steps. It takes the layer's extent
and the fragment records of the intersected layer as inputs.

Files:

- `grid_index.dfy` (module `CellIndex`): the extent, the grid size, the
  labels and their decoding. It proves that labelling and decoding are
  inverse to each other.
- `accumulation.dfy` (module `Accumulation`): the fragment record, the
  weight of a fragment, and the per-cell specification of what accumulation
  computes. `Covers` is the mask bit, `CellSum` the weighted sum and
  `RasterValue` the output value. The module also holds the lemmas about
  these: order independence, full and half coverage, and the effect of the
  sentinel.
- `rasterize.dfy` (module `Rasterization`): the class `Grid`. It holds the
  two dimensions, the cell size, the accumulator `values` and the `mask`,
  both `array2`. Its methods are the source's loops, each proved against the
  specification functions.

Arithmetic conventions:

- Python's `//` and `%` with a positive divisor agree with Dafny's Euclidean
  `/` and `%` for every integer, negative ones included. `Decode` is therefore
  exactly the source's decoding.
- Python's `int()` truncates toward zero. The extent satisfies
  `xmin <= xmax`, so the quotient is never negative and truncation is the
  floor.
- Values, areas and the cell size are exact `real`s. The weight
  `area / cellsize²` is written `area / cellsize / cellsize`
  (`Accumulation.CoveredFraction`), which is the same number over the reals.

Checks and edge cases, as the code has them:

- The code never checks `cellsize > 0`, so it is a precondition rather than
  an error result.
- The code never checks that a fragment's label lies in `[1, width·height]`.
  That is a precondition too.
- An empty intersected layer leaves every cell NoData, and `Rasterize`
  states this.

## Model

| member | source | states |
|---|---|---|
| `CellIndex.GridDim` | rasterize.py:27-28 | For `cellsize > 0` and `lo <= hi`, the cell count is at least 1. The first `n - 1` cells end at or before `hi`, and `n` cells reach past it. So the grid covers the extent with the fewest whole cells. |
| `CellIndex.LabelInRange` | rasterize.py:37-40 | The label `row*width + col + 1` of every grid cell lies in `[1, width*height]`. |
| `CellIndex.DecodeOfLabel` | rasterize.py:63-67 | Decoding a cell's label with `(id-1) // width` and `(id-1) % width` gives back that cell. |
| `CellIndex.LabelsDistinct` | rasterize.py:37-40 | Two grid cells with the same label are the same cell, so the labelling is injective. |
| `CellIndex.DecodeInGrid` | rasterize.py:63-67 | Every label in `[1, width*height]` decodes to a row below `height` and a column below `width`. Relabelling that cell gives the label back, so decoding is a bijection onto the grid. |
| `Rasterization.Grid.constructor` | rasterize.py:27-60 | Width and height are `GridDim` of the extent's x and y spans. The accumulator starts all zeros and the mask all false, both `height × width`. |
| `Rasterization.Grid.LabelCells` | rasterize.py:29-40 | After the nested loop, cell `[r, c]` of the fresh `height × width` array holds `CellId(width, r, c)`, that is `r*width + c + 1`. `CellId` is the closed form of the running counter at lines 39-40. |
| `Rasterization.Grid.AddFragment` | rasterize.py:63-69 | The fragment's cell, `Decode(width, id)` (the source's `(id-1) // width` and `(id-1) % width` at lines 66-67), lies in the grid. That cell gains `Contribution`, the source's `value * area / cellsize²` at line 65, and its mask bit becomes true. Every other cell and mask bit is unchanged. |
| `Rasterization.Grid.Accumulate` | rasterize.py:61-69 | After the cursor loop, each cell has gained `CellSum`, the sum of the contributions of the fragments that decode to it. Its mask bit is set exactly when `Covers` holds, that is, when some fragment decodes to it. |
| `Rasterization.Grid.FillNoData` | rasterize.py:72-75 | Every unmasked cell now holds the sentinel. Every masked cell keeps its accumulated value. The mask is unchanged. |
| `Rasterization.Rasterize` | rasterize.py:14-79 | The sentinel defaults to -9999.0, as `value_to_nodata` does. The output is `GridDim(y) × GridDim(x)`. Each cell holds `RasterValue`: its weighted sum if some fragment falls in it, the sentinel otherwise. An empty fragment sequence gives a grid that is entirely the sentinel. |
| `Accumulation.CoversIffSomeFragment` | rasterize.py:69 | The mask bit of a cell is set if and only if some fragment's label decodes to that cell (both directions). |
| `Accumulation.UncoveredSumIsZero` | rasterize.py:59-68 | A cell that no fragment decodes to keeps the accumulator's initial 0. |
| `Accumulation.CellSumAppend` | rasterize.py:62-68 | Accumulating two runs of fragments one after the other adds their per-cell sums. |
| `Accumulation.CellSumPermutation` | rasterize.py:61-68 | Any reordering of the fragments (equal multisets) gives the same per-cell sum. |
| `Accumulation.CoversPermutation` | rasterize.py:61-69 | Any reordering of the fragments gives the same mask. |
| `Accumulation.RasterValuePermutation` | rasterize.py:61-75 | Any reordering of the fragments gives the same output cell value. |
| `Accumulation.SoleFragmentSum` | rasterize.py:65-68 | When exactly one fragment falls in a cell, the cell is covered and its sum is that fragment's contribution. |
| `Accumulation.FullCellKeepsValue` | rasterize.py:65-68 | Take a cell covered by a single fragment whose area equals the cell's area (area ratio 1). That cell ends with the fragment's value. |
| `Accumulation.HalfSplitAverages` | rasterize.py:65-68 | In any layer, take a cell that exactly two fragments fall in, each covering half of it, with values v and w. That cell ends with (v + w) / 2. |
| `Accumulation.SentinelAffectsOnlyUncovered` | rasterize.py:72-75 | The output value of a covered cell does not depend on the sentinel. An uncovered cell holds exactly the sentinel. |

## Left out

- Extent query (`arcpy.Describe`, rasterize.py:18-24): the toolkit's metadata service. The extent is an input, and it is assumed well formed (`xmin <= xmax`, `ymin <= ymax`).
- Array-to-raster conversions (rasterize.py:43-44, 77-78), raster-to-polygon conversion (47-48), polygon intersection (51), the `SearchCursor` (61-62), `save` (79) and the deletion of the temporary layers (82-83): toolkit services and file I/O. The fragments of the intersected layer are an input sequence of `(id, value, area)` records, in cursor order. The labels from `LabelCells` are handed to the conversion, and that conversion is not part of this model.
- Fragment geometry and `featrow.shape.area`: computed by the toolkit's geometry engine. `area` is a given real.
- Null attribute values: a fragment whose attribute field is null yields `None`, and `value * (...)` at rasterize.py:65 then raises a `TypeError` that aborts the run. `Fragment.value` is a `real`, so the model has no null value and no such abort.
- Fragment label: the source reads the `FID_polygrid` field. The model takes it to be the cell's label. This holds when the conversion emits one polygon per cell, in the labelling's row-major order.
- The raster's lower-left origin (`arcpy.Point`, rasterize.py:24): used only by the two array-to-raster conversions (rasterize.py:43-44, 77-78), which are not part of this model.
- Output NoData interpretation: the output conversion marks as NoData every cell equal to the sentinel. That includes a covered cell whose weighted sum happens to equal the sentinel. The model stops at the array handed to that conversion.
- CellIndex.GridDim: does not model the double-precision division at rasterize.py:27-28. The source rounds the quotient `(xmax - xmin) / cellsize` to a double before `int()`. When the span is a multiple of the cell size, or very close to one, the source's width or height can differ by one from `GridDim`'s exact-real result. For example, with xmin = 0, xmax = 0.3 and cellsize = 0.1, the double quotient is 2.9999999999999996, so the source's width is 3 while `GridDim` gives 4.
- Storage widths: `float32` rounding of the accumulator and `uint32` labels are not modelled. Values use exact `real`s and labels unbounded `nat`s.
- Weight formula: the weight is `value * (area / cellsize / cellsize)`, which equals the source's `value * (area / cellsize**2)` over the reals. The squared cell size is not spelt out, and the full-coverage lemmas state "area equals the cell's area" as a covered fraction of 1.
- The ArcToolbox entry point (rasterize.py:85-93): parameter parsing.
- Checks the source does not make: `cellsize > 0` and labels within `[1, width·height]` are preconditions, not error results.
