/**
 * The working state of `rasterize` and the loops that fill it in place.
 *
 * A Grid owns the float accumulator (`values`) and the coverage mask, both
 * height x width. The extent query, the array-to-raster and raster-to-polygon
 * conversions, the polygon intersection and the raster output are services of
 * the GIS toolkit: the model takes the extent and the intersected fragments as
 * inputs and returns the final accumulator array.
 */
module Rasterization {
  import opened CellIndex
  import opened Accumulation

  class Grid {
    const width: nat
    const height: nat
    const cellsize: real
    /** Accumulated weighted values, indexed [row, col]. */
    const values: array2<real>
    /** Whether a cell received at least one fragment, indexed [row, col]. */
    const mask: array2<bool>

    ghost predicate Valid() {
      width > 0 && height > 0 && cellsize > 0.0 &&
      values.Length0 == height && values.Length1 == width &&
      mask.Length0 == height && mask.Length1 == width
    }

    /** Sizes the grid from the extent and allocates a zero accumulator and an empty mask. */
    constructor (extent: Extent, cellsize: real)
      requires WellFormed(extent) && cellsize > 0.0
      ensures Valid()
      ensures width == GridDim(extent.xmin, extent.xmax, cellsize)
      ensures height == GridDim(extent.ymin, extent.ymax, cellsize)
      ensures this.cellsize == cellsize
      ensures fresh(values) && fresh(mask)
      ensures forall r, c :: 0 <= r < height && 0 <= c < width ==> values[r, c] == 0.0
      ensures forall r, c :: 0 <= r < height && 0 <= c < width ==> !mask[r, c]
    {
      var w := GridDim(extent.xmin, extent.xmax, cellsize);
      var h := GridDim(extent.ymin, extent.ymax, cellsize);
      width, height := w, h;
      this.cellsize := cellsize;
      values := new real[h, w]((r, c) => 0.0);
      mask := new bool[h, w]((r, c) => false);
    }

    /**
     * Writes a running counter, starting at 1, into a fresh height x width
     * array, row by row and left to right, so that no two cells share a value.
     */
    method LabelCells() returns (ids: array2<nat>)
      requires Valid()
      ensures fresh(ids) && ids.Length0 == height && ids.Length1 == width
      ensures forall r, c :: 0 <= r < height && 0 <= c < width ==> ids[r, c] == CellId(width, r, c)
    {
      ids := new nat[height, width]((r, c) => 0);
      var value := 1;
      for row := 0 to height
        invariant value == row * width + 1
        invariant forall r, c :: 0 <= r < row && 0 <= c < width ==> ids[r, c] == CellId(width, r, c)
      {
        for col := 0 to width
          invariant value == row * width + col + 1
          invariant forall r, c :: 0 <= r < row && 0 <= c < width ==> ids[r, c] == CellId(width, r, c)
          invariant forall c :: 0 <= c < col ==> ids[row, c] == CellId(width, row, c)
        {
          ids[row, col] := value;
          value := value + 1;
        }
      }
    }

    /**
     * One step of the cursor loop: decodes the fragment's label, adds its
     * weighted value into that cell and sets the cell's mask bit. No other
     * cell and no other mask bit changes.
     */
    method AddFragment(f: Fragment)
      requires Valid() && ValidId(f.id, width, height)
      modifies values, mask
      ensures 0 <= Decode(width, f.id).row < height && 0 <= Decode(width, f.id).col < width
      ensures forall r, c :: 0 <= r < height && 0 <= c < width ==>
        values[r, c] == old(values[r, c]) + (if InCell(f, width, r, c) then Contribution(f, cellsize) else 0.0)
      ensures forall r, c :: 0 <= r < height && 0 <= c < width ==>
        mask[r, c] == (old(mask[r, c]) || InCell(f, width, r, c))
    {
      DecodeInGrid(width, height, f.id);
      var gridId := f.id - 1;
      var row := gridId / width;
      var col := gridId % width;
      values[row, col] := values[row, col] + Contribution(f, cellsize);
      mask[row, col] := true;
    }

    /**
     * The cursor loop over the intersected layer: every cell gains the sum of
     * the contributions of the fragments in it, and its mask bit is set
     * exactly when at least one fragment falls in it.
     */
    method Accumulate(frags: seq<Fragment>)
      requires Valid()
      requires forall i :: 0 <= i < |frags| ==> ValidId(frags[i].id, width, height)
      modifies values, mask
      ensures forall r, c :: 0 <= r < height && 0 <= c < width ==>
        values[r, c] == old(values[r, c]) + CellSum(frags, width, cellsize, r, c)
      ensures forall r, c :: 0 <= r < height && 0 <= c < width ==>
        mask[r, c] == (old(mask[r, c]) || Covers(frags, width, r, c))
    {
      for i := 0 to |frags|
        invariant forall r, c :: 0 <= r < height && 0 <= c < width ==>
          values[r, c] == old(values[r, c]) + CellSum(frags[..i], width, cellsize, r, c)
        invariant forall r, c :: 0 <= r < height && 0 <= c < width ==>
          mask[r, c] == (old(mask[r, c]) || Covers(frags[..i], width, r, c))
      {
        AddFragment(frags[i]);
        assert frags[..i + 1][..i] == frags[..i];
      }
      assert frags[..|frags|] == frags;
    }

    /** Overwrites every cell whose mask bit is unset with the sentinel; masked cells keep their value. */
    method FillNoData(nodata: real)
      requires Valid()
      modifies values
      ensures forall r, c :: 0 <= r < height && 0 <= c < width ==>
        values[r, c] == if mask[r, c] then old(values[r, c]) else nodata
    {
      for row := 0 to height
        invariant forall r, c :: 0 <= r < height && 0 <= c < width ==>
          values[r, c] == if r < row && !mask[r, c] then nodata else old(values[r, c])
      {
        for col := 0 to width
          invariant forall r, c :: 0 <= r < height && 0 <= c < width ==>
            values[r, c] == if (r < row || (r == row && c < col)) && !mask[r, c] then nodata else old(values[r, c])
        {
          if !mask[row, col] {
            values[row, col] := nodata;
          }
        }
      }
    }
  }

  /**
   * The whole procedure on the model's inputs: size the grid, label its
   * cells (the labels go to the vectorisation service, outside this model),
   * accumulate the fragments of the intersected layer, then mark uncovered
   * cells as NoData. Each output cell holds the area-weighted sum of the
   * fragments in it, or the sentinel when there are none. The sentinel
   * defaults to -9999.0.
   */
  method Rasterize(extent: Extent, cellsize: real, frags: seq<Fragment>, nodata: real := -9999.0) returns (out: array2<real>)
    requires WellFormed(extent) && cellsize > 0.0
    requires forall i :: 0 <= i < |frags| ==>
      ValidId(frags[i].id, GridDim(extent.xmin, extent.xmax, cellsize), GridDim(extent.ymin, extent.ymax, cellsize))
    ensures out.Length0 == GridDim(extent.ymin, extent.ymax, cellsize)
    ensures out.Length1 == GridDim(extent.xmin, extent.xmax, cellsize)
    ensures forall r, c :: 0 <= r < out.Length0 && 0 <= c < out.Length1 ==>
      out[r, c] == RasterValue(frags, out.Length1, cellsize, nodata, r, c)
    ensures frags == [] ==> forall r, c :: 0 <= r < out.Length0 && 0 <= c < out.Length1 ==> out[r, c] == nodata
  {
    var grid := new Grid(extent, cellsize);
    var labels := grid.LabelCells();
    grid.Accumulate(frags);
    grid.FillNoData(nodata);
    out := grid.values;
  }
}
