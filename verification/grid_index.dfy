/**
 * Grid sizing and cell numbering of the area-weighted rasterizer.
 *
 * The grid is anchored at the lower-left corner of the input layer's extent.
 * Its cells are numbered 1, 2, ... in row-major order; a fragment of the
 * intersected layer carries such a number, and the number is decoded back to
 * a (row, column) pair with floor division and remainder by the width.
 */
module CellIndex {

  /** The bounding box of the input polygon layer. */
  datatype Extent = Extent(xmin: real, xmax: real, ymin: real, ymax: real)

  /** A bounding box as the layer-metadata service reports it. */
  predicate WellFormed(e: Extent) {
    e.xmin <= e.xmax && e.ymin <= e.ymax
  }

  /** A grid position: row index and column index. */
  datatype Cell = Cell(row: int, col: int)

  /**
   * Number of cells along one axis: the span truncated to whole cells, plus
   * one. The quotient is never negative here, so truncation is the floor.
   * The result is the least cell count whose cells reach past `hi`.
   */
  function GridDim(lo: real, hi: real, cellsize: real): (n: int)
    requires cellsize > 0.0 && lo <= hi
    ensures n >= 1
    ensures lo + (n - 1) as real * cellsize <= hi
    ensures hi < lo + n as real * cellsize
  {
    var q := (hi - lo) / cellsize;
    var k := q.Floor;
    FloorScaled(q, k, cellsize);
    assert q * cellsize == hi - lo;
    assert hi < lo + (k + 1) as real * cellsize;
    k + 1
  }

  /** Scaling `k <= q < k + 1` by a positive cell size. */
  lemma FloorScaled(q: real, k: int, cellsize: real)
    requires cellsize > 0.0 && q >= 0.0 && k == q.Floor
    ensures k >= 0
    ensures k as real * cellsize <= q * cellsize < (k + 1) as real * cellsize
  {
    assert k as real <= q < (k + 1) as real;
    assert (q - k as real) * cellsize >= 0.0;
    assert ((k + 1) as real - q) * cellsize > 0.0;
  }

  /** The label written into cell (row, col): a running counter from 1, row-major. */
  function CellId(width: nat, row: nat, col: nat): nat
  {
    row * width + col + 1
  }

  /** Labels lie between 1 and width * height. */
  predicate ValidId(id: int, width: nat, height: nat) {
    1 <= id <= width * height
  }

  /**
   * Position of a label: row = (id - 1) // width, col = (id - 1) % width.
   * With a positive divisor Python's floor division and remainder agree with
   * Dafny's Euclidean ones, for negative operands too.
   */
  function Decode(width: nat, id: int): Cell
    requires width > 0
  {
    Cell((id - 1) / width, (id - 1) % width)
  }

  /** Multiplying by a positive width keeps a strict order. */
  lemma MulLessCancel(a: int, b: int, w: int)
    requires w > 0 && a * w < b * w
    ensures a < b
  {
    assert (b - a) * w == b * w - a * w;
  }

  /** Quotient and remainder are unique. */
  lemma DivModUnique(x: int, w: int, q: int, m: int)
    requires w > 0 && x == q * w + m && 0 <= m < w
    ensures x / w == q && x % w == m
  {
    var q', m' := x / w, x % w;
    assert x == q' * w + m' && 0 <= m' < w;
    assert q * w < (q' + 1) * w by {
      assert (q' + 1) * w == q' * w + w;
    }
    assert q' * w < (q + 1) * w by {
      assert (q + 1) * w == q * w + w;
    }
    MulLessCancel(q, q' + 1, w);
    MulLessCancel(q', q + 1, w);
  }

  /** Every label of the grid decodes to a cell of the grid, which it labels. */
  lemma DecodeInGrid(width: nat, height: nat, id: int)
    requires width > 0 && ValidId(id, width, height)
    ensures 0 <= Decode(width, id).row < height
    ensures 0 <= Decode(width, id).col < width
    ensures CellId(width, Decode(width, id).row, Decode(width, id).col) == id
  {
    var cell := Decode(width, id);
    assert id - 1 == cell.row * width + cell.col;
    MulLessCancel(cell.row, height, width);
  }

  /** The label of a grid cell lies between 1 and width * height. */
  lemma LabelInRange(width: nat, height: nat, row: nat, col: nat)
    requires row < height && col < width
    ensures ValidId(CellId(width, row, col), width, height)
  {
    assert (height - row - 1) * width >= 0;
    assert (height - row - 1) * width == height * width - row * width - width;
  }

  /** Decoding the label of a cell gives back that cell. */
  lemma DecodeOfLabel(width: nat, row: nat, col: nat)
    requires col < width
    ensures Decode(width, CellId(width, row, col)) == Cell(row, col)
  {
    var x := CellId(width, row, col) - 1;
    assert x == row * width + col;
    DivModUnique(x, width, row, col);
  }

  /** No two cells share a label. */
  lemma LabelsDistinct(width: nat, height: nat, r1: nat, c1: nat, r2: nat, c2: nat)
    requires r1 < height && c1 < width && r2 < height && c2 < width
    requires CellId(width, r1, c1) == CellId(width, r2, c2)
    ensures r1 == r2 && c1 == c2
  {
    DecodeOfLabel(width, r1, c1);
    DecodeOfLabel(width, r2, c2);
  }
}
