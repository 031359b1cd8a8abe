/**
 * What the accumulation pass computes, stated cell by cell over the sequence
 * of intersection fragments.
 *
 * Each fragment is one piece of (grid cell) ∩ (input polygon) and carries the
 * label of its cell, the attribute value of its polygon and its own area. Its
 * contribution to its cell is value * area / cellsize², so a cell's weighted
 * value is the area-weighted mean of the polygons covering it when they cover
 * it completely.
 */
module Accumulation {
  import opened CellIndex

  /** One record of the intersected layer: cell label, attribute value, area. */
  datatype Fragment = Fragment(id: int, value: real, area: real)

  /**
   * Fraction of its cell that the fragment covers: area / cellsize², with the
   * cell size divided out one side at a time (equal over the reals).
   */
  function CoveredFraction(f: Fragment, cellsize: real): real
    requires cellsize > 0.0
  {
    f.area / cellsize / cellsize
  }

  /** value * (area / cellsize²): the fragment's share of its cell's value. */
  function Contribution(f: Fragment, cellsize: real): real
    requires cellsize > 0.0
  {
    f.value * CoveredFraction(f, cellsize)
  }

  /** Whether fragment `f` falls in the cell at (row, col). */
  predicate InCell(f: Fragment, width: nat, row: int, col: int)
    requires width > 0
  {
    Decode(width, f.id) == Cell(row, col)
  }

  /** Whether any of `frags` falls in the cell (the coverage mask bit). */
  predicate Covers(frags: seq<Fragment>, width: nat, row: int, col: int)
    requires width > 0
  {
    if frags == [] then false
    else Covers(frags[..|frags| - 1], width, row, col) || InCell(frags[|frags| - 1], width, row, col)
  }

  /** Sum of the contributions of those of `frags` that fall in the cell, in order. */
  function CellSum(frags: seq<Fragment>, width: nat, cellsize: real, row: int, col: int): real
    requires width > 0 && cellsize > 0.0
  {
    if frags == [] then 0.0
    else
      var f := frags[|frags| - 1];
      CellSum(frags[..|frags| - 1], width, cellsize, row, col)
        + (if InCell(f, width, row, col) then Contribution(f, cellsize) else 0.0)
  }

  /** Value of the cell in the output raster: the weighted sum where covered, else the sentinel. */
  function RasterValue(frags: seq<Fragment>, width: nat, cellsize: real, nodata: real, row: int, col: int): real
    requires width > 0 && cellsize > 0.0
  {
    if Covers(frags, width, row, col) then CellSum(frags, width, cellsize, row, col) else nodata
  }

  /** The mask bit is set exactly when some fragment falls in the cell. */
  lemma {:induction false} CoversIffSomeFragment(frags: seq<Fragment>, width: nat, row: int, col: int)
    requires width > 0
    ensures Covers(frags, width, row, col) <==>
            exists i :: 0 <= i < |frags| && InCell(frags[i], width, row, col)
  {
    if frags != [] {
      var init := frags[..|frags| - 1];
      CoversIffSomeFragment(init, width, row, col);
      if Covers(init, width, row, col) {
        var i :| 0 <= i < |init| && InCell(init[i], width, row, col);
        assert frags[i] == init[i];
      }
      if i :| 0 <= i < |frags| && InCell(frags[i], width, row, col) {
        if i < |init| {
          assert init[i] == frags[i];
        }
      }
    }
  }

  /** A cell no fragment falls in accumulates nothing. */
  lemma {:induction false} UncoveredSumIsZero(frags: seq<Fragment>, width: nat, cellsize: real, row: int, col: int)
    requires width > 0 && cellsize > 0.0
    requires !Covers(frags, width, row, col)
    ensures CellSum(frags, width, cellsize, row, col) == 0.0
  {
    if frags != [] {
      UncoveredSumIsZero(frags[..|frags| - 1], width, cellsize, row, col);
    }
  }

  /** The fragments of a concatenation add up. */
  lemma {:induction false} CellSumAppend(a: seq<Fragment>, b: seq<Fragment>, width: nat, cellsize: real, row: int, col: int)
    requires width > 0 && cellsize > 0.0
    ensures CellSum(a + b, width, cellsize, row, col)
            == CellSum(a, width, cellsize, row, col) + CellSum(b, width, cellsize, row, col)
  {
    if b == [] {
      assert a + b == a;
    } else {
      var b' := b[..|b| - 1];
      assert (a + b)[..|a + b| - 1] == a + b';
      CellSumAppend(a, b', width, cellsize, row, col);
    }
  }

  /** Accumulation does not depend on the order of the fragments. */
  lemma {:induction false} CellSumPermutation(s: seq<Fragment>, t: seq<Fragment>, width: nat, cellsize: real, row: int, col: int)
    requires width > 0 && cellsize > 0.0
    requires multiset(s) == multiset(t)
    ensures CellSum(s, width, cellsize, row, col) == CellSum(t, width, cellsize, row, col)
    decreases |s|
  {
    if s != [] {
      var n := |s| - 1;
      var x := s[n];
      assert s == s[..n] + [x];
      assert x in multiset(t);
      var k :| 0 <= k < |t| && t[k] == x;
      var rest := t[..k] + t[k + 1..];
      assert t == t[..k] + [x] + t[k + 1..];
      assert multiset(s[..n]) == multiset(rest) by {
        calc {
          multiset(s[..n]) + multiset{x};
          multiset(s);
          multiset(t);
          multiset(t[..k] + [x] + t[k + 1..]);
          multiset(t[..k]) + multiset{x} + multiset(t[k + 1..]);
          multiset(rest) + multiset{x};
        }
        assert multiset(s[..n]) == multiset(s[..n]) + multiset{x} - multiset{x};
        assert multiset(rest) == multiset(rest) + multiset{x} - multiset{x};
      }
      CellSumPermutation(s[..n], rest, width, cellsize, row, col);
      CellSumAppend(t[..k] + [x], t[k + 1..], width, cellsize, row, col);
      CellSumAppend(t[..k], t[k + 1..], width, cellsize, row, col);
      assert (t[..k] + [x])[..k] == t[..k];
    }
  }

  /** Coverage does not depend on the order of the fragments. */
  lemma CoversPermutation(s: seq<Fragment>, t: seq<Fragment>, width: nat, row: int, col: int)
    requires width > 0
    requires multiset(s) == multiset(t)
    ensures Covers(s, width, row, col) <==> Covers(t, width, row, col)
  {
    CoversIffSomeFragment(s, width, row, col);
    CoversIffSomeFragment(t, width, row, col);
    if i :| 0 <= i < |s| && InCell(s[i], width, row, col) {
      assert s[i] in multiset(t);
    }
    if i :| 0 <= i < |t| && InCell(t[i], width, row, col) {
      assert t[i] in multiset(s);
    }
  }

  /** The output raster does not depend on the order in which the cursor yields fragments. */
  lemma RasterValuePermutation(s: seq<Fragment>, t: seq<Fragment>, width: nat, cellsize: real, nodata: real, row: int, col: int)
    requires width > 0 && cellsize > 0.0
    requires multiset(s) == multiset(t)
    ensures RasterValue(s, width, cellsize, nodata, row, col) == RasterValue(t, width, cellsize, nodata, row, col)
  {
    CoversPermutation(s, t, width, row, col);
    CellSumPermutation(s, t, width, cellsize, row, col);
  }

  /** When fragment i is the only one in its cell, the cell's sum is its contribution alone. */
  lemma SoleFragmentSum(frags: seq<Fragment>, i: nat, width: nat, cellsize: real, row: int, col: int)
    requires width > 0 && cellsize > 0.0
    requires i < |frags| && InCell(frags[i], width, row, col)
    requires forall j :: 0 <= j < |frags| && j != i ==> !InCell(frags[j], width, row, col)
    ensures Covers(frags, width, row, col)
    ensures CellSum(frags, width, cellsize, row, col) == Contribution(frags[i], cellsize)
  {
    CoversIffSomeFragment(frags, width, row, col);
    var before, after := frags[..i], frags[i + 1..];
    assert frags == before + [frags[i]] + after;
    CoversIffSomeFragment(before, width, row, col);
    CoversIffSomeFragment(after, width, row, col);
    assert !Covers(before, width, row, col) by {
      forall j | 0 <= j < |before| ensures !InCell(before[j], width, row, col) {
        assert before[j] == frags[j];
      }
    }
    assert !Covers(after, width, row, col) by {
      forall j | 0 <= j < |after| ensures !InCell(after[j], width, row, col) {
        assert after[j] == frags[i + 1 + j];
      }
    }
    UncoveredSumIsZero(before, width, cellsize, row, col);
    UncoveredSumIsZero(after, width, cellsize, row, col);
    CellSumAppend(before + [frags[i]], after, width, cellsize, row, col);
    assert (before + [frags[i]])[..i] == before;
  }

  /** A cell covered completely by one polygon of value v (area ratio 1) ends with value v. */
  lemma FullCellKeepsValue(frags: seq<Fragment>, i: nat, width: nat, cellsize: real, nodata: real, row: int, col: int)
    requires width > 0 && cellsize > 0.0
    requires i < |frags| && InCell(frags[i], width, row, col)
    requires forall j :: 0 <= j < |frags| && j != i ==> !InCell(frags[j], width, row, col)
    requires CoveredFraction(frags[i], cellsize) == 1.0
    ensures RasterValue(frags, width, cellsize, nodata, row, col) == frags[i].value
  {
    SoleFragmentSum(frags, i, width, cellsize, row, col);
  }

  /**
   * A cell split in two halves between polygons of values v and w ends with
   * (v + w) / 2, wherever the two fragments sit in the layer.
   */
  lemma HalfSplitAverages(frags: seq<Fragment>, i: nat, j: nat, width: nat, cellsize: real, nodata: real, row: int, col: int)
    requires width > 0 && cellsize > 0.0
    requires i < j < |frags|
    requires InCell(frags[i], width, row, col) && InCell(frags[j], width, row, col)
    requires forall k :: 0 <= k < |frags| && k != i && k != j ==> !InCell(frags[k], width, row, col)
    requires CoveredFraction(frags[i], cellsize) == 0.5 && CoveredFraction(frags[j], cellsize) == 0.5
    ensures RasterValue(frags, width, cellsize, nodata, row, col) == (frags[i].value + frags[j].value) / 2.0
  {
    var before, from := frags[..j], frags[j..];
    assert frags == before + from;
    forall k | 0 <= k < |before| && k != i ensures !InCell(before[k], width, row, col) {
      assert before[k] == frags[k];
    }
    SoleFragmentSum(before, i, width, cellsize, row, col);
    forall k | 0 <= k < |from| && k != 0 ensures !InCell(from[k], width, row, col) {
      assert from[k] == frags[j + k];
    }
    SoleFragmentSum(from, 0, width, cellsize, row, col);
    CellSumAppend(before, from, width, cellsize, row, col);
    CoversIffSomeFragment(frags, width, row, col);
  }

  /** Changing the sentinel changes only the cells no fragment covers. */
  lemma SentinelAffectsOnlyUncovered(frags: seq<Fragment>, width: nat, cellsize: real, nodata1: real, nodata2: real, row: int, col: int)
    requires width > 0 && cellsize > 0.0
    ensures Covers(frags, width, row, col) ==>
            RasterValue(frags, width, cellsize, nodata1, row, col) == RasterValue(frags, width, cellsize, nodata2, row, col)
    ensures !Covers(frags, width, row, col) ==> RasterValue(frags, width, cellsize, nodata1, row, col) == nodata1
  {
  }
}
