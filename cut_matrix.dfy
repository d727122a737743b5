/**
 * The grid of a crossword: `height` rows of `width` cells, each a string. One
 * distinguished string marks an empty cell and another a stop cell, which no
 * cut may contain. A cut is split into its maximal runs of non-stop cells.
 */
module CutMatrices {
  import opened Options
  import opened Seqs
  import opened Lists
  import opened Utils
  import opened Geometry

  datatype CellData = CellData(i: int, j: int, value: string)

  /** Why a write or an embedding was refused. */
  datatype Error =
    | OutOfBounds(i: int, j: int)
    | Populated(i: int, j: int)
    | TooLong(n: int, len: int)
    | AlreadyEmbedded(word: string)

  type Grid = seq<seq<string>>

  /** `data` has `height` rows of `width` cells. */
  predicate Shaped(data: Grid, width: nat, height: nat)
  {
    |data| == height && forall i :: 0 <= i < height ==> |data[i]| == width
  }

  /** Whether (row, col) is a cell of a `width` by `height` grid. */
  predicate InBounds(width: nat, height: nat, row: int, col: int)
  {
    0 <= row < height && 0 <= col < width
  }

  /** Every cell of `cut` lies in a `width` by `height` grid. */
  predicate InGrid(cut: Cut, width: nat, height: nat)
  {
    cut.len >= 0 && forall k :: 0 <= k < cut.len ==> InBounds(width, height, CellOf(cut, k).0, CellOf(cut, k).1)
  }

  /** A subcut inside a cut that lies in the grid lies in the grid. */
  lemma SubcutInGrid(cut: Cut, start: int, end: int, width: nat, height: nat)
    requires InGrid(cut, width, height) && 0 <= start <= end <= cut.len
    ensures InGrid(Subcut(cut, start, end), width, height)
  {
    forall k | 0 <= k < end - start
      ensures InBounds(width, height, CellOf(Subcut(cut, start, end), k).0, CellOf(Subcut(cut, start, end), k).1)
    {
      SubcutCell(cut, start, end, k);
      assert InBounds(width, height, CellOf(cut, start + k).0, CellOf(cut, start + k).1);
    }
  }

  /** The positions and values of the cells of `cut`, from its start. */
  function CutCells(data: Grid, width: nat, height: nat, cut: Cut): (cells: seq<CellData>)
    requires Shaped(data, width, height) && InGrid(cut, width, height)
    ensures |cells| == cut.len
    ensures forall k :: 0 <= k < cut.len ==> (cells[k].i, cells[k].j) == CellOf(cut, k)
    ensures forall k :: 0 <= k < cut.len ==> cells[k].value == data[cells[k].i][cells[k].j]
  {
    seq(cut.len, k requires 0 <= k < cut.len =>
      var c := CellOf(cut, k);
      CellData(c.0, c.1, data[c.0][c.1]))
  }

  /** The values of the cells of `cut`, from its start. */
  function CutData(data: Grid, width: nat, height: nat, cut: Cut): (vals: seq<string>)
    requires Shaped(data, width, height) && InGrid(cut, width, height)
    ensures |vals| == cut.len
    ensures forall k :: 0 <= k < cut.len ==> vals[k] == data[CellOf(cut, k).0][CellOf(cut, k).1]
  {
    seq(cut.len, k requires 0 <= k < cut.len => data[CellOf(cut, k).0][CellOf(cut, k).1])
  }

  /** The values of a subcut are the corresponding slice of the values of the cut. */
  lemma SubcutData(data: Grid, width: nat, height: nat, cut: Cut, start: int, end: int)
    requires Shaped(data, width, height) && InGrid(cut, width, height) && 0 <= start <= end <= cut.len
    ensures InGrid(Subcut(cut, start, end), width, height)
    ensures CutData(data, width, height, Subcut(cut, start, end)) == CutData(data, width, height, cut)[start..end]
  {
    SubcutInGrid(cut, start, end, width, height);
    forall k | 0 <= k < end - start
      ensures CutData(data, width, height, Subcut(cut, start, end))[k] == CutData(data, width, height, cut)[start + k]
    {
      SubcutCell(cut, start, end, k);
    }
  }

  // ----- maximal runs of non-stop cells -----

  /** The number of leading entries of `vals` that are not `stop`. */
  function Lead(vals: seq<string>, stop: string): (n: nat)
    ensures n <= |vals|
    ensures forall k :: 0 <= k < n ==> vals[k] != stop
    ensures n < |vals| ==> vals[n] == stop
    decreases |vals|
  {
    if vals == [] || vals[0] == stop then 0 else 1 + Lead(vals[1..], stop)
  }

  /** `Lead` is determined by where the first stop is. */
  lemma LeadIs(vals: seq<string>, stop: string, n: nat)
    requires n <= |vals| && (forall k :: 0 <= k < n ==> vals[k] != stop) && (n < |vals| ==> vals[n] == stop)
    ensures Lead(vals, stop) == n
  {
  }

  /**
   * The maximal runs of non-stop entries of `vals`, as (start, length) pairs
   * with starts counted from `base`, in order.
   */
  function Runs(vals: seq<string>, stop: string, base: int): seq<(int, int)>
    decreases |vals|
  {
    if vals == [] then []
    else if vals[0] == stop then Runs(vals[1..], stop, base + 1)
    else
      var l := Lead(vals, stop);
      [(base, l)] + Runs(vals[l..], stop, base + l)
  }

  /** The run pairs as subcuts of `cut`. */
  function RunCuts(cut: Cut, spans: seq<(int, int)>): (cuts: seq<Cut>)
    ensures |cuts| == |spans|
    ensures forall m :: 0 <= m < |spans| ==> cuts[m] == Subcut(cut, spans[m].0, spans[m].0 + spans[m].1)
  {
    seq(|spans|, m requires 0 <= m < |spans| => Subcut(cut, spans[m].0, spans[m].0 + spans[m].1))
  }

  lemma RunCutsAppend(cut: Cut, a: seq<(int, int)>, b: seq<(int, int)>)
    ensures RunCuts(cut, a + b) == RunCuts(cut, a) + RunCuts(cut, b)
  {
  }

  /** A run that reaches a stop at position `k` ends there; the runs go on after it. */
  lemma RunsAtStop(vals: seq<string>, stop: string, s: int, k: int)
    requires 0 <= s <= k < |vals| && vals[k] == stop
    requires forall t :: s <= t < k ==> vals[t] != stop
    ensures Runs(vals[s..], stop, s) == (if s < k then [(s, k - s)] else []) + Runs(vals[k + 1..], stop, k + 1)
  {
    assert vals[k..][1..] == vals[k + 1..];
    if s < k {
      LeadIs(vals[s..], stop, k - s);
      assert vals[s..][k - s..] == vals[k..];
    }
  }

  /** A run that reaches the end of `vals` is the last one. */
  lemma RunsAtEnd(vals: seq<string>, stop: string, s: int)
    requires 0 <= s <= |vals|
    requires forall t :: s <= t < |vals| ==> vals[t] != stop
    ensures Runs(vals[s..], stop, s) == if s < |vals| then [(s, |vals| - s)] else []
  {
    if s < |vals| {
      LeadIs(vals[s..], stop, |vals| - s);
      assert vals[s..][|vals| - s..] == [];
    }
  }

  /** A stop-free sequence of values is one run. */
  lemma RunsNoStop(vals: seq<string>, stop: string)
    requires vals != [] && forall t :: 0 <= t < |vals| ==> vals[t] != stop
    ensures Runs(vals, stop, 0) == [(0, |vals|)]
  {
    RunsAtEnd(vals, stop, 0);
    assert vals[0..] == vals;
  }

  /**
   * The state of a scan of `vals` along `cut` with the current run open since
   * `s`: what has been emitted, followed by the runs from `s` on, is `total`.
   */
  ghost predicate ScanState(cut: Cut, vals: seq<string>, stop: string, s: int, emitted: seq<Cut>, total: seq<Cut>)
    requires 0 <= s <= |vals|
  {
    emitted + RunCuts(cut, Runs(vals[s..], stop, s)) == total
  }

  /** The scan of a cut meets a stop at `k` with a run open since `s`: that run is emitted. */
  lemma ScanClose(cut: Cut, vals: seq<string>, stop: string, s: int, k: int, emitted: seq<Cut>, total: seq<Cut>)
    requires 0 <= s < k < |vals| && vals[k] == stop
    requires forall t :: s <= t < k ==> vals[t] != stop
    requires ScanState(cut, vals, stop, s, emitted, total)
    ensures ScanState(cut, vals, stop, k + 1, emitted + [Subcut(cut, s, k)], total)
  {
    RunsAtStop(vals, stop, s, k);
    RunCutsAppend(cut, [(s, k - s)], Runs(vals[k + 1..], stop, k + 1));
  }

  /** The scan of a cut meets a stop at `k` with no run open: nothing is emitted. */
  lemma ScanSkip(cut: Cut, vals: seq<string>, stop: string, k: int, emitted: seq<Cut>, total: seq<Cut>)
    requires 0 <= k < |vals| && vals[k] == stop
    requires ScanState(cut, vals, stop, k, emitted, total)
    ensures ScanState(cut, vals, stop, k + 1, emitted, total)
  {
    RunsAtStop(vals, stop, k, k);
  }

  /**
   * One step of the scan of `cut`: cell `k` either extends the run open since
   * `s` or is a stop, which ends that run (emitted when not empty) and moves
   * the start of the next run to the following cell.
   */
  method ScanStep(list: List<Cut>, cut: Cut, cell: CellData, stop: string, k: int, startRow: int, startCol: int, len: int,
                  ghost vals: seq<string>, ghost s: int, ghost total: seq<Cut>)
    returns (nextRow: int, nextCol: int, nextLen: int, ghost nextS: int)
    requires list.Valid()
    requires 0 <= s <= k < |vals| && len == k - s
    requires vals[k] == cell.value && (cell.i, cell.j) == CellOf(cut, k)
    requires startRow == CellOf(cut, s).0 && startCol == CellOf(cut, s).1
    requires forall t :: s <= t < k ==> vals[t] != stop
    requires ScanState(cut, vals, stop, s, list.Contents, total)
    modifies list.Repr
    ensures list.Valid() && fresh(list.Repr - old(list.Repr))
    ensures 0 <= nextS <= k + 1 && nextLen == k + 1 - nextS
    ensures nextRow == CellOf(cut, nextS).0 && nextCol == CellOf(cut, nextS).1
    ensures forall t :: nextS <= t < k + 1 ==> vals[t] != stop
    ensures ScanState(cut, vals, stop, nextS, list.Contents, total)
  {
    var o := cut.orientation;
    if cell.value == stop {
      if len > 0 {
        ScanClose(cut, vals, stop, s, k, list.Contents, total);
        assert Cut(startRow, startCol, o, len) == Subcut(cut, s, k);
        list.Add(Cut(startRow, startCol, o, len));
      } else {
        ScanSkip(cut, vals, stop, k, list.Contents, total);
      }
      CellOfStep(cut, k);
      var next := Move(cell.i, cell.j, o, 1);
      nextRow, nextCol, nextLen, nextS := next.0, next.1, 0, k + 1;
    } else {
      nextRow, nextCol, nextLen, nextS := startRow, startCol, len + 1, s;
    }
  }

  /** The scan of a cut reaches its end: the open run, if any, is the last one. */
  lemma ScanEnd(cut: Cut, vals: seq<string>, stop: string, s: int, emitted: seq<Cut>, total: seq<Cut>)
    requires 0 <= s <= |vals|
    requires forall t :: s <= t < |vals| ==> vals[t] != stop
    requires ScanState(cut, vals, stop, s, emitted, total)
    ensures (if s < |vals| then emitted + [Subcut(cut, s, |vals|)] else emitted) == total
  {
    RunsAtEnd(vals, stop, s);
  }

  /**
   * `run`, a (start, length) pair with the start counted from `base`, is a
   * maximal run of `vals`: non-empty, inside `vals`, free of stops and
   * flanked on each side by a stop or an end of `vals`.
   */
  predicate IsRun(vals: seq<string>, stop: string, base: int, run: (int, int))
  {
    var (s, l) := run;
    && 1 <= l && base <= s && s + l <= base + |vals|
    && (forall t :: s - base <= t < s - base + l ==> vals[t] != stop)
    && (s == base || vals[s - base - 1] == stop)
    && (s + l == base + |vals| || vals[s + l - base] == stop)
  }

  /** A run of a suffix of `vals` that follows a stop is a run of `vals`. */
  lemma IsRunShift(vals: seq<string>, stop: string, base: int, d: nat, run: (int, int))
    requires d <= |vals| && IsRun(vals[d..], stop, base + d, run)
    requires d > 0 ==> vals[d - 1] == stop || (d < |vals| && vals[d] == stop)
    ensures IsRun(vals, stop, base, run)
  {
    var (s, l) := run;
    forall t | s - base <= t < s - base + l
      ensures vals[t] != stop
    {
      assert vals[d..][t - d] == vals[t];
    }
    if s != base {
      if s == base + d {
        assert vals[d..][0] != stop;
      } else {
        assert vals[d..][s - base - d - 1] == vals[s - base - 1];
      }
    }
    if s + l != base + |vals| {
      assert vals[d..][s + l - base - d] == vals[s + l - base];
    }
  }

  /** The pairs are maximal runs of `vals`, each ending before the next begins. */
  ghost predicate MaximalRuns(vals: seq<string>, stop: string, base: int, r: seq<(int, int)>)
  {
    && (forall m :: 0 <= m < |r| ==> IsRun(vals, stop, base, r[m]))
    && (forall m :: 0 < m < |r| ==> r[m - 1].0 + r[m - 1].1 < r[m].0)
  }

  /** Runs of what follows a leading stop are runs of the whole. */
  lemma MaximalAfterStop(vals: seq<string>, stop: string, base: int, r: seq<(int, int)>)
    requires vals != [] && vals[0] == stop
    requires MaximalRuns(vals[1..], stop, base + 1, r)
    ensures MaximalRuns(vals, stop, base, r)
  {
    forall m | 0 <= m < |r|
      ensures IsRun(vals, stop, base, r[m])
    {
      IsRunShift(vals, stop, base, 1, r[m]);
    }
  }

  /** A leading run of length `l` followed by the maximal runs of the rest is maximal. */
  lemma MaximalAfterLead(vals: seq<string>, stop: string, base: int, l: nat, rest: seq<(int, int)>)
    requires 0 < l <= |vals| && (forall k :: 0 <= k < l ==> vals[k] != stop) && (l < |vals| ==> vals[l] == stop)
    requires MaximalRuns(vals[l..], stop, base + l, rest)
    ensures MaximalRuns(vals, stop, base, [(base, l)] + rest)
  {
    var r := [(base, l)] + rest;
    if rest != [] {
      assert IsRun(vals[l..], stop, base + l, rest[0]);
    }
    forall m | 0 <= m < |r|
      ensures IsRun(vals, stop, base, r[m])
    {
      if m > 0 {
        assert r[m] == rest[m - 1];
        IsRunShift(vals, stop, base, l, rest[m - 1]);
      }
    }
    forall m | 1 < m < |r|
      ensures r[m - 1].0 + r[m - 1].1 < r[m].0
    {
      assert r[m - 1] == rest[m - 2] && r[m] == rest[m - 1];
    }
  }

  /** Every pair of `Runs` is a maximal run, and each run ends before the next begins. */
  lemma {:induction false} RunsMaximal(vals: seq<string>, stop: string, base: int)
    ensures MaximalRuns(vals, stop, base, Runs(vals, stop, base))
    decreases |vals|
  {
    if vals == [] {
    } else if vals[0] == stop {
      RunsMaximal(vals[1..], stop, base + 1);
      MaximalAfterStop(vals, stop, base, Runs(vals[1..], stop, base + 1));
    } else {
      var l := Lead(vals, stop);
      RunsMaximal(vals[l..], stop, base + l);
      MaximalAfterLead(vals, stop, base, l, Runs(vals[l..], stop, base + l));
    }
  }

  /** Whether position `p` lies in the (start, length) pair `run`. */
  predicate InRun(run: (int, int), p: int)
  {
    run.0 <= p < run.0 + run.1
  }

  /** Every non-stop entry of `vals` lies in one of its `Runs`. */
  lemma {:induction false} RunsCover(vals: seq<string>, stop: string, base: int, t: int)
    requires 0 <= t < |vals| && vals[t] != stop
    ensures exists m :: 0 <= m < |Runs(vals, stop, base)| && InRun(Runs(vals, stop, base)[m], base + t)
    decreases |vals|
  {
    var r := Runs(vals, stop, base);
    if vals[0] == stop {
      assert vals[1..][t - 1] == vals[t];
      RunsCover(vals[1..], stop, base + 1, t - 1);
    } else {
      var l := Lead(vals, stop);
      if t < l {
        assert r[0] == (base, l);
      } else {
        var rest := Runs(vals[l..], stop, base + l);
        assert vals[l..][t - l] == vals[t];
        RunsCover(vals[l..], stop, base + l, t - l);
        var m :| 0 <= m < |rest| && InRun(rest[m], base + t);
        assert r[m + 1] == rest[m];
      }
    }
  }

  /** The number of entries of `vals` that are not `stop`. */
  function NonStop(vals: seq<string>, stop: string): nat
  {
    |Filtered(vals, v => v != stop)|
  }

  /** The sum of the lengths of the runs. */
  function TotalLength(spans: seq<(int, int)>): int
  {
    if spans == [] then 0 else spans[0].1 + TotalLength(spans[1..])
  }

  /** The runs together are as long as the number of non-stop entries. */
  lemma {:induction false} RunsCountNonStop(vals: seq<string>, stop: string, base: int)
    ensures TotalLength(Runs(vals, stop, base)) == NonStop(vals, stop)
    decreases |vals|
  {
    var p := (v: string) => v != stop;
    if vals == [] {
    } else if vals[0] == stop {
      RunsCountNonStop(vals[1..], stop, base + 1);
    } else {
      var l := Lead(vals, stop);
      RunsCountNonStop(vals[l..], stop, base + l);
      assert vals == vals[..l] + vals[l..];
      FilteredAppend(vals[..l], vals[l..], p);
      FilteredAll(vals[..l], p);
      var r := [(base, l)] + Runs(vals[l..], stop, base + l);
      assert r[1..] == Runs(vals[l..], stop, base + l);
    }
  }

  /** The maximal runs of a cut of `data`, as subcuts of it. */
  function RunsOf(data: Grid, width: nat, height: nat, stop: string, cut: Cut): seq<Cut>
    requires Shaped(data, width, height) && InGrid(cut, width, height)
  {
    RunCuts(cut, Runs(CutData(data, width, height, cut), stop, 0))
  }

  /** Every run spans positions inside `vals`. */
  lemma RunsInside(vals: seq<string>, stop: string)
    ensures forall m :: 0 <= m < |Runs(vals, stop, 0)| ==>
      0 <= Runs(vals, stop, 0)[m].0 <= Runs(vals, stop, 0)[m].0 + Runs(vals, stop, 0)[m].1 <= |vals|
  {
    var r := Runs(vals, stop, 0);
    RunsMaximal(vals, stop, 0);
    forall m | 0 <= m < |r|
      ensures 0 <= r[m].0 <= r[m].0 + r[m].1 <= |vals|
    {
      assert IsRun(vals, stop, 0, r[m]);
    }
  }

  /** Every run of a cut in the grid is a subcut inside it, hence in the grid. */
  lemma RunsOfInGrid(data: Grid, width: nat, height: nat, stop: string, cut: Cut)
    requires Shaped(data, width, height) && InGrid(cut, width, height)
    ensures forall x :: x in RunsOf(data, width, height, stop, cut) ==> InGrid(x, width, height)
  {
    var vals := CutData(data, width, height, cut);
    var r := Runs(vals, stop, 0);
    RunsInside(vals, stop);
    forall x | x in RunsOf(data, width, height, stop, cut)
      ensures InGrid(x, width, height)
    {
      var m :| 0 <= m < |r| && RunCuts(cut, r)[m] == x;
      SubcutInGrid(cut, r[m].0, r[m].0 + r[m].1, width, height);
    }
  }

  predicate IsLong(cut: Cut)
  {
    cut.len > 1
  }

  /** The runs longer than one cell of each cut in turn. */
  function LongRuns(data: Grid, width: nat, height: nat, stop: string, cuts: seq<Cut>): seq<Cut>
    requires Shaped(data, width, height) && forall c :: c in cuts ==> InGrid(c, width, height)
  {
    if cuts == [] then []
    else
      LongRuns(data, width, height, stop, cuts[..|cuts| - 1])
        + Filtered(RunsOf(data, width, height, stop, cuts[|cuts| - 1]), IsLong)
  }

  /** The long runs lie in the grid and are longer than one cell. */
  lemma {:induction false} LongRunsInGrid(data: Grid, width: nat, height: nat, stop: string, cuts: seq<Cut>)
    requires Shaped(data, width, height) && forall c :: c in cuts ==> InGrid(c, width, height)
    ensures forall x :: x in LongRuns(data, width, height, stop, cuts) ==> InGrid(x, width, height) && x.len > 1
    decreases |cuts|
  {
    if cuts != [] {
      var init, last := cuts[..|cuts| - 1], cuts[|cuts| - 1];
      assert forall c :: c in init ==> c in cuts;
      LongRunsInGrid(data, width, height, stop, init);
      RunsOfInGrid(data, width, height, stop, last);
      forall x | x in Filtered(RunsOf(data, width, height, stop, last), IsLong)
        ensures InGrid(x, width, height) && x.len > 1
      {
        FilteredMember(RunsOf(data, width, height, stop, last), IsLong, x);
      }
    }
  }

  /** A stop-free cut of the grid is its own only run. */
  lemma RunsOfOpen(data: Grid, width: nat, height: nat, stop: string, cut: Cut)
    requires Shaped(data, width, height) && InGrid(cut, width, height) && cut.len > 0
    requires forall k :: 0 <= k < cut.len ==> data[CellOf(cut, k).0][CellOf(cut, k).1] != stop
    ensures RunsOf(data, width, height, stop, cut) == [cut]
  {
    var vals := CutData(data, width, height, cut);
    assert forall t :: 0 <= t < |vals| ==> vals[t] != stop;
    RunsNoStop(vals, stop);
  }

  /** Long stop-free cuts are left as they are. */
  lemma {:induction false} LongRunsOpen(data: Grid, width: nat, height: nat, stop: string, cuts: seq<Cut>)
    requires Shaped(data, width, height)
    requires forall c :: c in cuts ==> InGrid(c, width, height) && c.len > 1
    requires forall c, k :: c in cuts && 0 <= k < c.len && InBounds(width, height, CellOf(c, k).0, CellOf(c, k).1) ==>
      data[CellOf(c, k).0][CellOf(c, k).1] != stop
    ensures LongRuns(data, width, height, stop, cuts) == cuts
    decreases |cuts|
  {
    if cuts != [] {
      var init, last := cuts[..|cuts| - 1], cuts[|cuts| - 1];
      assert forall c :: c in init ==> c in cuts;
      LongRunsOpen(data, width, height, stop, init);
      RunsOfOpen(data, width, height, stop, last);
      assert Filtered([last], IsLong) == [last] by {
        assert [last][1..] == [];
      }
      assert init + [last] == cuts;
    }
  }

  /** The row cuts then the column cuts of a whole `width` by `height` grid. */
  function InitialCuts(width: nat, height: nat): (cuts: seq<Cut>)
    ensures |cuts| == width + height
  {
    seq(height, row requires 0 <= row < height => Cut(row, 0, Horizontal, width))
      + seq(width, col requires 0 <= col < width => Cut(0, col, Vertical, height))
  }

  lemma InitialCutsInGrid(width: nat, height: nat)
    ensures forall c :: c in InitialCuts(width, height) ==> InGrid(c, width, height)
  {
  }

  // ----- writing cells -----

  /**
   * The outcome of writing `value` at (i, j) when empty cells hold `empty`:
   * refused off the grid or over a different non-empty value, and otherwise
   * the grid with that one cell replaced.
   */
  function Written(data: Grid, width: nat, height: nat, empty: string, i: int, j: int, value: string): (Option<Error>, Grid)
    requires Shaped(data, width, height)
  {
    if !InBounds(width, height, i, j) then (Some(OutOfBounds(i, j)), data)
    else if data[i][j] != empty && data[i][j] != value then (Some(Populated(i, j)), data)
    else (None, data[i := data[i][j := value]])
  }

  /**
   * A write succeeds exactly on an in-bounds cell that is empty or already
   * holds the value; the bounds check comes first.
   */
  lemma WrittenSucceeds(data: Grid, width: nat, height: nat, empty: string, i: int, j: int, value: string)
    requires Shaped(data, width, height)
    ensures Written(data, width, height, empty, i, j, value).0.None? <==>
      InBounds(width, height, i, j) && (data[i][j] == empty || data[i][j] == value)
    ensures !InBounds(width, height, i, j) ==> Written(data, width, height, empty, i, j, value).0 == Some(OutOfBounds(i, j))
    ensures InBounds(width, height, i, j) && data[i][j] != empty && data[i][j] != value ==>
      Written(data, width, height, empty, i, j, value).0 == Some(Populated(i, j))
  {
  }

  /** A write keeps the shape, and changes at most cell (i, j), to `value`. */
  lemma WrittenOnly(data: Grid, width: nat, height: nat, empty: string, i: int, j: int, value: string)
    requires Shaped(data, width, height)
    ensures var (err, g) := Written(data, width, height, empty, i, j, value);
      && Shaped(g, width, height)
      && (err.Some? ==> g == data)
      && (err.None? ==> g[i][j] == value)
      && forall a, b :: InBounds(width, height, a, b) && (a, b) != (i, j) ==> g[a][b] == data[a][b]
  {
  }

  /** Writing the value a cell already holds succeeds and changes nothing. */
  lemma WrittenIdempotent(data: Grid, width: nat, height: nat, empty: string, i: int, j: int)
    requires Shaped(data, width, height) && InBounds(width, height, i, j)
    ensures Written(data, width, height, empty, i, j, data[i][j]) == (None, data)
  {
    assert data[i][j := data[i][j]] == data[i];
    assert data[i := data[i]] == data;
  }

  /** Writing over an empty cell of the grid always succeeds. */
  lemma WrittenOverEmpty(data: Grid, width: nat, height: nat, empty: string, i: int, j: int, value: string)
    requires Shaped(data, width, height) && InBounds(width, height, i, j) && data[i][j] == empty
    ensures Written(data, width, height, empty, i, j, value).0 == None
  {
  }

  /**
   * Writing `vals[k..]` to the cells k, k + 1, ... of `cut` in turn, stopping
   * at the first refused write (earlier writes stay).
   */
  function Filled(data: Grid, width: nat, height: nat, empty: string, cut: Cut, vals: seq<string>, k: nat): (r: (Option<Error>, Grid))
    requires Shaped(data, width, height)
    ensures Shaped(r.1, width, height)
    decreases |vals| - k
  {
    if k >= |vals| then (None, data)
    else
      var c := CellOf(cut, k);
      var (err, g) := Written(data, width, height, empty, c.0, c.1, vals[k]);
      if err.Some? then (err, g)
      else
        WrittenOnly(data, width, height, empty, c.0, c.1, vals[k]);
        Filled(g, width, height, empty, cut, vals, k + 1)
  }

  /** The outcome of filling the first `|vals|` cells of `cut` with `vals`. */
  function FillResult(data: Grid, width: nat, height: nat, empty: string, cut: Cut, vals: seq<string>): (r: (Option<Error>, Grid))
    requires Shaped(data, width, height)
    ensures Shaped(r.1, width, height)
  {
    if |vals| > cut.len then (Some(TooLong(|vals|, cut.len)), data)
    else Filled(data, width, height, empty, cut, vals, 0)
  }

  /** The index of the first refused write when filling from `k`, or `|vals|`. */
  function FailIndex(data: Grid, width: nat, height: nat, empty: string, cut: Cut, vals: seq<string>, k: nat): nat
    requires Shaped(data, width, height)
    decreases |vals| - k
  {
    if k >= |vals| then |vals|
    else
      var c := CellOf(cut, k);
      var (err, g) := Written(data, width, height, empty, c.0, c.1, vals[k]);
      if err.Some? then k
      else
        WrittenOnly(data, width, height, empty, c.0, c.1, vals[k]);
        FailIndex(g, width, height, empty, cut, vals, k + 1)
  }

  /**
   * Filling from `k` within the grid writes, in order, the cells from `k` up
   * to the first refused one: those hold their values afterwards, every other
   * cell is unchanged, and the outcome is an error exactly when some write was
   * refused.
   */
  lemma {:induction false} FilledCells(data: Grid, width: nat, height: nat, empty: string, cut: Cut, vals: seq<string>, k: nat)
    requires Shaped(data, width, height) && InGrid(cut, width, height) && |vals| <= cut.len
    ensures var (err, g) := Filled(data, width, height, empty, cut, vals, k);
      var f := FailIndex(data, width, height, empty, cut, vals, k);
      && Shaped(g, width, height)
      && (k <= |vals| ==> k <= f <= |vals|)
      && (err.None? <==> f >= |vals|)
      && (forall t :: k <= t < f ==> g[CellOf(cut, t).0][CellOf(cut, t).1] == vals[t])
      && (forall a, b :: InBounds(width, height, a, b) && (forall t :: k <= t < f ==> CellOf(cut, t) != (a, b)) ==> g[a][b] == data[a][b])
    decreases |vals| - k
  {
    if k < |vals| {
      var c := CellOf(cut, k);
      WrittenOnly(data, width, height, empty, c.0, c.1, vals[k]);
      var (err1, g1) := Written(data, width, height, empty, c.0, c.1, vals[k]);
      if err1.None? {
        FilledCells(g1, width, height, empty, cut, vals, k + 1);
        var (err, g) := Filled(g1, width, height, empty, cut, vals, k + 1);
        var f := FailIndex(g1, width, height, empty, cut, vals, k + 1);
        forall t | k <= t < f
          ensures g[CellOf(cut, t).0][CellOf(cut, t).1] == vals[t]
        {
          if t == k {
            forall t' | k + 1 <= t' < f
              ensures CellOf(cut, t') != c
            {
              assert CellOf(cut, t') != CellOf(cut, k);
            }
            assert InBounds(width, height, c.0, c.1);
          }
        }
      }
    }
  }

  /** A successful fill leaves the first `|vals|` cells of the cut holding `vals`. */
  lemma FillResultCells(data: Grid, width: nat, height: nat, empty: string, cut: Cut, vals: seq<string>)
    requires Shaped(data, width, height) && InGrid(cut, width, height)
    requires FillResult(data, width, height, empty, cut, vals).0 == None
    ensures var g := FillResult(data, width, height, empty, cut, vals).1;
      Shaped(g, width, height) && CutData(g, width, height, cut)[..|vals|] == vals
  {
    FilledCells(data, width, height, empty, cut, vals, 0);
  }

  /**
   * A successful fill fits in the cut, leaves each of the first `|vals|`
   * cells of the cut holding its value and every other cell unchanged.
   */
  lemma FillPlaced(data: Grid, width: nat, height: nat, empty: string, cut: Cut, vals: seq<string>)
    requires Shaped(data, width, height) && InGrid(cut, width, height)
    requires FillResult(data, width, height, empty, cut, vals).0 == None
    ensures var g := FillResult(data, width, height, empty, cut, vals).1;
      && |vals| <= cut.len
      && (forall t :: 0 <= t < |vals| ==> g[CellOf(cut, t).0][CellOf(cut, t).1] == vals[t])
      && forall a, b :: InBounds(width, height, a, b) && (forall t :: 0 <= t < |vals| ==> CellOf(cut, t) != (a, b)) ==>
           g[a][b] == data[a][b]
  {
    FilledCells(data, width, height, empty, cut, vals, 0);
  }

  /** Every cell of the grid holds a one-character string. */
  ghost predicate SingleCells(data: Grid, width: nat, height: nat)
    requires Shaped(data, width, height)
  {
    forall i, j :: InBounds(width, height, i, j) ==> |data[i][j]| == 1
  }

  /** Every non-empty cell of `before` holds the same value in `after`. */
  ghost predicate Keeps(before: Grid, after: Grid, width: nat, height: nat, empty: string)
    requires Shaped(before, width, height) && Shaped(after, width, height)
  {
    forall i, j :: InBounds(width, height, i, j) && before[i][j] != empty ==> after[i][j] == before[i][j]
  }

  /** Keeping non-empty cells is transitive. */
  lemma KeepsTrans(a: Grid, b: Grid, c: Grid, width: nat, height: nat, empty: string)
    requires Shaped(a, width, height) && Shaped(b, width, height) && Shaped(c, width, height)
    requires Keeps(a, b, width, height, empty) && Keeps(b, c, width, height, empty)
    ensures Keeps(a, c, width, height, empty)
  {
  }

  /** The values along a cut of a grid of one-character cells are one character each. */
  lemma CutDataSingle(data: Grid, width: nat, height: nat, cut: Cut)
    requires Shaped(data, width, height) && SingleCells(data, width, height) && InGrid(cut, width, height)
    ensures SingleChars(CutData(data, width, height, cut))
  {
  }

  /**
   * A write never changes a non-empty cell, and writing a one-character value
   * keeps every cell one character long.
   */
  lemma WrittenKeeps(data: Grid, width: nat, height: nat, empty: string, i: int, j: int, value: string)
    requires Shaped(data, width, height)
    ensures var g := Written(data, width, height, empty, i, j, value).1;
      && Shaped(g, width, height) && Keeps(data, g, width, height, empty)
      && (SingleCells(data, width, height) && |value| == 1 ==> SingleCells(g, width, height))
  {
    WrittenOnly(data, width, height, empty, i, j, value);
  }

  /**
   * Filling never changes a non-empty cell, and filling with one-character
   * values keeps every cell one character long.
   */
  lemma {:induction false} FilledKeeps(data: Grid, width: nat, height: nat, empty: string, cut: Cut, vals: seq<string>, k: nat)
    requires Shaped(data, width, height)
    ensures var g := Filled(data, width, height, empty, cut, vals, k).1;
      && Shaped(g, width, height) && Keeps(data, g, width, height, empty)
      && (SingleCells(data, width, height) && (forall t :: 0 <= t < |vals| ==> |vals[t]| == 1) ==> SingleCells(g, width, height))
    decreases |vals| - k
  {
    if k < |vals| {
      var c := CellOf(cut, k);
      WrittenKeeps(data, width, height, empty, c.0, c.1, vals[k]);
      var (err, g1) := Written(data, width, height, empty, c.0, c.1, vals[k]);
      if err.None? {
        FilledKeeps(g1, width, height, empty, cut, vals, k + 1);
      }
    }
  }

  /** Whether the k-th cell of `cut` is empty or already holds `value`. */
  predicate Admits(data: Grid, width: nat, height: nat, empty: string, cut: Cut, k: int, value: string)
    requires Shaped(data, width, height) && InGrid(cut, width, height) && 0 <= k < cut.len
  {
    var c := CellOf(cut, k);
    data[c.0][c.1] == empty || data[c.0][c.1] == value
  }

  /** Filling from `k` succeeds exactly when each of its cells admits its value. */
  lemma {:induction false} FilledSucceeds(data: Grid, width: nat, height: nat, empty: string, cut: Cut, vals: seq<string>, k: nat)
    requires Shaped(data, width, height) && InGrid(cut, width, height) && |vals| <= cut.len
    ensures Filled(data, width, height, empty, cut, vals, k).0.None? <==>
      forall t :: k <= t < |vals| ==> Admits(data, width, height, empty, cut, t, vals[t])
    decreases |vals| - k
  {
    if k < |vals| {
      var c := CellOf(cut, k);
      WrittenOnly(data, width, height, empty, c.0, c.1, vals[k]);
      var (err, g1) := Written(data, width, height, empty, c.0, c.1, vals[k]);
      if err.None? {
        FilledSucceeds(g1, width, height, empty, cut, vals, k + 1);
        forall t | k + 1 <= t < |vals|
          ensures Admits(g1, width, height, empty, cut, t, vals[t]) == Admits(data, width, height, empty, cut, t, vals[t])
        {
          assert CellOf(cut, t) != c;
        }
      }
    }
  }

  /**
   * A fill succeeds exactly when the values fit in the cut and each of the
   * cells they go to is empty or already holds its value.
   */
  lemma FillSucceeds(data: Grid, width: nat, height: nat, empty: string, cut: Cut, vals: seq<string>)
    requires Shaped(data, width, height) && (|vals| <= cut.len ==> InGrid(cut, width, height))
    ensures FillResult(data, width, height, empty, cut, vals).0.None? <==>
      |vals| <= cut.len && forall t :: 0 <= t < |vals| ==> Admits(data, width, height, empty, cut, t, vals[t])
  {
    if |vals| <= cut.len {
      FilledSucceeds(data, width, height, empty, cut, vals, 0);
    }
  }

  /** The values of `cells`, in order. */
  function Values(cells: seq<CellData>): (vals: seq<string>)
    ensures |vals| == |cells| && forall k :: 0 <= k < |cells| ==> vals[k] == cells[k].value
  {
    seq(|cells|, k requires 0 <= k < |cells| => cells[k].value)
  }

  /**
   * The scan of the cells of `cut` behind `CutMatrix.GetSubcuts`: a run opens
   * at the first non-stop cell after a stop and closes at the next stop or at
   * the end, and each closed run is emitted in turn.
   */
  method ScanCells(cut: Cut, cells: seq<CellData>, stop: string) returns (subcuts: seq<Cut>)
    requires |cells| == cut.len && forall k :: 0 <= k < |cells| ==> (cells[k].i, cells[k].j) == CellOf(cut, k)
    ensures subcuts == RunCuts(cut, Runs(Values(cells), stop, 0))
  {
    var o := cut.orientation;
    var startRow, startCol := cut.row, cut.col;
    var len := 0;
    ghost var s := 0;
    ghost var vals := Values(cells);
    ghost var total := RunCuts(cut, Runs(vals, stop, 0));
    var list := new List<Cut>();
    assert vals[0..] == vals;
    for k := 0 to |cells|
      invariant list.Valid() && fresh(list.Repr)
      invariant 0 <= s <= k && len == k - s
      invariant startRow == CellOf(cut, s).0 && startCol == CellOf(cut, s).1
      invariant forall t :: s <= t < k ==> vals[t] != stop
      invariant ScanState(cut, vals, stop, s, list.Contents, total)
    {
      startRow, startCol, len, s := ScanStep(list, cut, cells[k], stop, k, startRow, startCol, len, vals, s, total);
    }
    ScanEnd(cut, vals, stop, s, list.Contents, total);
    if len > 0 {
      assert Cut(startRow, startCol, o, len) == Subcut(cut, s, |vals|);
      list.Add(Cut(startRow, startCol, o, len));
    }
    subcuts := list.ToSlice();
  }

  /** Appends to `list` the runs longer than one cell, in order. */
  method AddLong(list: List<Cut>, runs: seq<Cut>)
    requires list.Valid()
    modifies list.Repr
    ensures list.Valid() && fresh(list.Repr - old(list.Repr))
    ensures list.Contents == old(list.Contents) + Filtered(runs, IsLong)
  {
    ghost var before := list.Contents;
    assert runs[..0] == [];
    for m := 0 to |runs|
      invariant list.Valid() && fresh(list.Repr - old(list.Repr))
      invariant list.Contents == before + Filtered(runs[..m], IsLong)
    {
      assert runs[..m + 1] == runs[..m] + [runs[m]];
      FilteredSnoc(runs[..m], runs[m], IsLong);
      if runs[m].len > 1 {
        list.Add(runs[m]);
      }
    }
    assert runs[..|runs|] == runs;
  }

  class CutMatrix {
    const width: nat
    const height: nat
    /** The value of an empty cell. */
    const empty: string
    /** The value of a cell that no cut may contain. */
    const stop: string
    var data: Grid

    ghost predicate Valid()
      reads this
    {
      Shaped(data, width, height)
    }

    /** A `width` by `height` grid of empty cells. */
    constructor (width: nat, height: nat, empty: string, stop: string)
      ensures Valid()
      ensures this.width == width && this.height == height && this.empty == empty && this.stop == stop
      ensures forall i, j :: InBounds(width, height, i, j) ==> data[i][j] == empty
    {
      this.width, this.height := width, height;
      this.empty, this.stop := empty, stop;
      var matrix := MakeMatrix(height, width, (i: int, j: int) => empty);
      data := matrix;
    }

    /** Whether (row, col) is a cell of this grid: the row below the height, the column below the width. */
    function IsValid(row: int, col: int): (valid: bool)
      ensures valid <==> 0 <= row < height && 0 <= col < width
    {
      InBounds(width, height, row, col)
    }

    /** The cells of `cut` with their positions, in a freshly filled array. */
    method IterateCut(cut: Cut) returns (cells: seq<CellData>)
      requires Valid() && InGrid(cut, width, height)
      ensures cells == CutCells(data, width, height, cut)
    {
      var buffer := new CellData[cut.len];
      for k := 0 to cut.len
        invariant forall t :: 0 <= t < k ==> buffer[t] == CutCells(data, width, height, cut)[t]
      {
        var cell := CellOf(cut, k);
        buffer[k] := CellData(cell.0, cell.1, data[cell.0][cell.1]);
      }
      cells := buffer[..];
    }

    /** The values of the cells of `cut`, in order. */
    method GetCutData(cut: Cut) returns (vals: seq<string>)
      requires Valid() && InGrid(cut, width, height)
      ensures vals == CutData(data, width, height, cut)
    {
      var cells := IterateCut(cut);
      vals := Map(cells, (c: CellData) => c.value);
    }

    /**
     * Splits `cut` at its stop cells into its maximal runs of other cells,
     * scanning the cells once and closing a run at each stop and at the end.
     */
    method GetSubcuts(cut: Cut) returns (subcuts: seq<Cut>)
      requires Valid() && InGrid(cut, width, height)
      ensures subcuts == RunsOf(data, width, height, stop, cut)
      ensures forall x :: x in subcuts ==> InGrid(x, width, height)
    {
      var cells := IterateCut(cut);
      assert Values(cells) == CutData(data, width, height, cut);
      subcuts := ScanCells(cut, cells, stop);
      RunsOfInGrid(data, width, height, stop, cut);
    }

    /** The runs longer than one cell of each of `cuts`, cut by cut. */
    method SubcutsOf(cuts: seq<Cut>) returns (subcuts: seq<Cut>)
      requires Valid() && forall c :: c in cuts ==> InGrid(c, width, height)
      ensures subcuts == LongRuns(data, width, height, stop, cuts)
    {
      var list := new List<Cut>();
      assert cuts[..0] == [];
      for n := 0 to |cuts|
        invariant list.Valid() && fresh(list.Repr)
        invariant list.Contents == LongRuns(data, width, height, stop, cuts[..n])
      {
        var runs := GetSubcuts(cuts[n]);
        AddLong(list, runs);
        assert cuts[..n + 1][..n] == cuts[..n];
      }
      assert cuts[..|cuts|] == cuts;
      subcuts := list.ToSlice();
    }

    /** The long runs of every row, top to bottom, then of every column, left to right. */
    method GetCuts() returns (cuts: seq<Cut>)
      requires Valid()
      ensures cuts == LongRuns(data, width, height, stop, InitialCuts(width, height))
    {
      var initialCuts := new Cut[width + height];
      for row := 0 to height
        invariant forall r :: 0 <= r < row ==> initialCuts[r] == Cut(r, 0, Horizontal, width)
      {
        initialCuts[row] := Cut(row, 0, Horizontal, width);
      }
      for col := 0 to width
        invariant forall r :: 0 <= r < height ==> initialCuts[r] == Cut(r, 0, Horizontal, width)
        invariant forall c :: 0 <= c < col ==> initialCuts[height + c] == Cut(0, c, Vertical, height)
      {
        initialCuts[height + col] := Cut(0, col, Vertical, height);
      }
      assert initialCuts[..] == InitialCuts(width, height);
      InitialCutsInGrid(width, height);
      cuts := SubcutsOf(initialCuts[..]);
    }

    /**
     * Writes `value` at (i, j), refusing a cell off the grid or one that holds
     * a different non-empty value; a refused write changes nothing.
     */
    method Set(i: int, j: int, value: string) returns (err: Option<Error>)
      requires Valid()
      modifies this
      ensures Valid()
      ensures (err, data) == Written(old(data), width, height, empty, i, j, value)
    {
      if !IsValid(i, j) {
        return Some(OutOfBounds(i, j));
      }
      var currentValue := data[i][j];
      if currentValue != empty && currentValue != value {
        return Some(Populated(i, j));
      }
      data := data[i := data[i][j := value]];
      return None;
    }

    /**
     * Writes `vals` into the first cells of `cut`, refusing values longer than
     * the cut before writing anything, and stopping at the first refused
     * write without undoing the earlier ones.
     */
    method FillIn(vals: seq<string>, cut: Cut) returns (err: Option<Error>)
      requires Valid() && (|vals| <= cut.len ==> InGrid(cut, width, height))
      modifies this
      ensures Valid()
      ensures (err, data) == FillResult(old(data), width, height, empty, cut, vals)
    {
      var n := |vals|;
      if n > cut.len {
        return Some(TooLong(n, cut.len));
      }
      var cells := IterateCut(cut);
      for k := 0 to n
        invariant Valid()
        invariant Filled(data, width, height, empty, cut, vals, k) == Filled(old(data), width, height, empty, cut, vals, 0)
      {
        err := Set(cells[k].i, cells[k].j, vals[k]);
        if err != None {
          return err;
        }
      }
      return None;
    }

    /** A new matrix, sharing nothing with this one, with equal fields. */
    method Copy() returns (copy: CutMatrix)
      requires Valid()
      ensures fresh(copy) && copy.Valid()
      ensures copy.width == width && copy.height == height && copy.empty == empty && copy.stop == stop
      ensures copy.data == data
    {
      copy := new CutMatrix(width, height, empty, stop);
      var d := data;
      // The factory is only ever called on cells of the grid.
      var matrix := MakeMatrix(height, width, (i: int, j: int) => if 0 <= i < |d| && 0 <= j < |d[i]| then d[i][j] else empty);
      forall i | 0 <= i < height
        ensures matrix[i] == d[i]
      {
        assert forall j :: 0 <= j < width ==> matrix[i][j] == d[i][j];
      }
      copy.data := matrix;
    }
  }

  /** On a fresh grid of two or more rows and columns, the cuts are the whole rows then the whole columns. */
  lemma FreshGridCuts(width: nat, height: nat, empty: string, stop: string, data: Grid)
    requires Shaped(data, width, height) && width > 1 && height > 1 && empty != stop
    requires forall i, j :: InBounds(width, height, i, j) ==> data[i][j] == empty
    ensures LongRuns(data, width, height, stop, InitialCuts(width, height)) == InitialCuts(width, height)
  {
    var cuts := InitialCuts(width, height);
    InitialCutsInGrid(width, height);
    forall c, k | c in cuts && 0 <= k < c.len
      ensures data[CellOf(c, k).0][CellOf(c, k).1] != stop
    {
      assert InBounds(width, height, CellOf(c, k).0, CellOf(c, k).1);
    }
    LongRunsOpen(data, width, height, stop, cuts);
  }
}
