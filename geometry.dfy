/**
 * Slot geometry. A cut is a straight run of cells: a start cell, an
 * orientation and a length. Horizontal cuts advance along a row (the column
 * grows), vertical cuts advance along a column (the row grows).
 */
module Geometry {

  datatype Orientation = Horizontal | Vertical

  datatype Cut = Cut(row: int, col: int, orientation: Orientation, len: int)
  {
    /** A cut built field by field from this one. */
    function Copy(): (copy: Cut)
      ensures copy == this
    {
      Cut(row, col, orientation, len)
    }
  }

  /** The cell `step` cells along orientation `o` from (row, col). */
  function Move(row: int, col: int, o: Orientation, step: int): (cell: (int, int))
    ensures o.Horizontal? ==> cell.0 == row && cell.1 - col == step
    ensures o.Vertical? ==> cell.1 == col && cell.0 - row == step
  {
    match o
    case Horizontal => (row, col + step)
    case Vertical => (row + step, col)
  }

  /** The cell `k` steps along `cut` from its start. */
  function CellOf(cut: Cut, k: int): (int, int)
  {
    Move(cut.row, cut.col, cut.orientation, k)
  }

  /** Whether cell (i, j) is one of the cells of `cut`. */
  predicate IsInCut(i: int, j: int, cut: Cut)
  {
    match cut.orientation
    case Horizontal => i == cut.row && cut.col <= j < cut.col + cut.len
    case Vertical => j == cut.col && cut.row <= i < cut.row + cut.len
  }

  /** The cells of a cut are exactly the cells 0 .. len - 1 steps from its start. */
  lemma InCutIffStep(cut: Cut, i: int, j: int)
    ensures IsInCut(i, j, cut) <==> exists k :: 0 <= k < cut.len && CellOf(cut, k) == (i, j)
  {
    if IsInCut(i, j, cut) {
      var k := if cut.orientation.Horizontal? then j - cut.col else i - cut.row;
      assert CellOf(cut, k) == (i, j);
    }
  }

  /** Stepping once from the cell `k` steps along is stepping `k + 1`. */
  lemma MoveStep(row: int, col: int, o: Orientation, k: int)
    ensures var c := Move(row, col, o, k); Move(c.0, c.1, o, 1) == Move(row, col, o, k + 1)
  {
  }

  /** Stepping once from the `k`-th cell of a cut gives its (k + 1)-th cell. */
  lemma CellOfStep(cut: Cut, k: int)
    ensures var c := CellOf(cut, k); Move(c.0, c.1, cut.orientation, 1) == CellOf(cut, k + 1)
  {
  }

  /** The part of `cut` from `start` steps along to just before `end`. */
  function Subcut(cut: Cut, start: int, end: int): (sub: Cut)
    ensures sub.orientation == cut.orientation && sub.len == end - start
    ensures (sub.row, sub.col) == CellOf(cut, start)
  {
    var c := Move(cut.row, cut.col, cut.orientation, start);
    Cut(c.0, c.1, cut.orientation, end - start)
  }

  /** The k-th cell of a subcut is the (start + k)-th cell of the cut. */
  lemma SubcutCell(cut: Cut, start: int, end: int, k: int)
    ensures CellOf(Subcut(cut, start, end), k) == CellOf(cut, start + k)
  {
  }

  /** A subcut inside the cut covers only cells of the cut. */
  lemma SubcutInside(cut: Cut, start: int, end: int, i: int, j: int)
    requires 0 <= start <= end <= cut.len
    ensures IsInCut(i, j, Subcut(cut, start, end)) ==> IsInCut(i, j, cut)
  {
  }

  /**
   * Whether two cuts cross. Cuts of one orientation meet only when they are
   * the same cut; otherwise they meet when the cell in the row of the
   * horizontal one and the column of the vertical one lies in both.
   */
  predicate DoCutsMeet(cut1: Cut, cut2: Cut)
  {
    if cut1.orientation == cut2.orientation then cut1 == cut2
    else
      var (intI, intJ) := if cut1.orientation.Horizontal? then (cut1.row, cut2.col) else (cut2.row, cut1.col);
      IsInCut(intI, intJ, cut1) && IsInCut(intI, intJ, cut2)
  }

  lemma DoCutsMeetSymmetric(cut1: Cut, cut2: Cut)
    ensures DoCutsMeet(cut1, cut2) <==> DoCutsMeet(cut2, cut1)
  {
  }

  /** Every cut meets itself. */
  lemma DoCutsMeetSelf(cut: Cut)
    ensures DoCutsMeet(cut, cut)
  {
  }

  /** Cuts of one orientation meet exactly when they are equal. */
  lemma DoCutsMeetParallel(cut1: Cut, cut2: Cut)
    requires cut1.orientation == cut2.orientation
    ensures DoCutsMeet(cut1, cut2) <==> cut1 == cut2
  {
  }

  /** Cuts of different orientations meet exactly when they share a cell. */
  lemma DoCutsMeetCrossing(cut1: Cut, cut2: Cut)
    requires cut1.orientation != cut2.orientation
    ensures DoCutsMeet(cut1, cut2) <==> exists i, j :: IsInCut(i, j, cut1) && IsInCut(i, j, cut2)
  {
    if cut1.orientation.Horizontal? {
      if DoCutsMeet(cut1, cut2) {
        assert IsInCut(cut1.row, cut2.col, cut1) && IsInCut(cut1.row, cut2.col, cut2);
      }
    } else {
      if DoCutsMeet(cut1, cut2) {
        assert IsInCut(cut2.row, cut1.col, cut1) && IsInCut(cut2.row, cut1.col, cut2);
      }
    }
  }
}
