/** Drawing a styled snapshot line (`put_snapshot_line`, `RunCursor`, grid.rs). */
module SnapshotDraw {
  import opened Text
  import opened Style
  import opened Cells
  import opened Rows
  import opened RenderGrids

  /** A style run over `len` bytes of a line's text. `link` is 0 for none, else a position counted from 1. */
  datatype StyledRun = StyledRun(len: nat, style: CellStyle, hidden: bool, link: nat)

  /** One cell of a line, at a byte offset of the line's text. */
  datatype LineCell = LineCell(offset: nat, text: string, width: nat)

  datatype SnapshotLine = SnapshotLine(cells: seq<LineCell>, runs: seq<StyledRun>, links: seq<Hyperlink>)
  {
    /** What `SnapshotLine::cells` gives: cells with text, at least one column wide, in text order. */
    ghost predicate Valid() {
      && (forall i :: 0 <= i < |cells| ==> cells[i].width >= 1 && cells[i].text != "")
      && (forall i, j :: 0 <= i < j < |cells| ==> cells[i].offset <= cells[j].offset)
    }
  }

  // ---- Runs ----

  function RunEnd(runs: seq<StyledRun>, k: nat): nat
    requires k <= |runs|
  {
    if k == 0 then 0 else RunEnd(runs, k - 1) + runs[k - 1].len
  }

  /** The run that contains byte `offset`: the first one that ends after it. */
  function RunIndex(runs: seq<StyledRun>, offset: nat): (k: nat)
    ensures k <= |runs|
  {
    if runs == [] || offset < runs[0].len then 0 else 1 + RunIndex(runs[1..], offset - runs[0].len)
  }

  lemma {:induction false} RunEndShift(runs: seq<StyledRun>, k: nat)
    requires 0 < k <= |runs|
    ensures RunEnd(runs, k) == runs[0].len + RunEnd(runs[1..], k - 1)
  {
    if k > 1 {
      RunEndShift(runs, k - 1);
      assert runs[1..][k - 2] == runs[k - 1];
    }
  }

  /** `RunIndex` is the run whose byte range holds the offset, skipping empty runs. */
  lemma {:induction false} RunIndexContains(runs: seq<StyledRun>, offset: nat)
    ensures (var k := RunIndex(runs, offset);
             RunEnd(runs, k) <= offset && (k < |runs| ==> offset < RunEnd(runs, k + 1)))
  {
    if runs != [] && offset >= runs[0].len {
      var k := RunIndex(runs, offset);
      RunIndexContains(runs[1..], offset - runs[0].len);
      RunEndShift(runs, k);
      if k < |runs| { RunEndShift(runs, k + 1); }
    }
  }

  lemma {:induction false} RunEndMonotone(runs: seq<StyledRun>, j: nat, k: nat)
    requires j <= k <= |runs|
    ensures RunEnd(runs, j) <= RunEnd(runs, k)
    decreases k
  {
    if j < k { RunEndMonotone(runs, j, k - 1); }
  }

  lemma RunIndexUnique(runs: seq<StyledRun>, offset: nat, k: nat)
    requires k <= |runs| && RunEnd(runs, k) <= offset && (k < |runs| ==> offset < RunEnd(runs, k + 1))
    ensures RunIndex(runs, offset) == k
  {
    var r := RunIndex(runs, offset);
    RunIndexContains(runs, offset);
    if r < k { RunEndMonotone(runs, r + 1, k); }
    if k < r { RunEndMonotone(runs, k + 1, r); }
  }

  function RunFor(runs: seq<StyledRun>, offset: nat): Option<StyledRun> {
    if RunIndex(runs, offset) < |runs| then Some(runs[RunIndex(runs, offset)]) else None
  }

  /** Walks the runs in step with a byte offset that only advances. */
  class RunCursor {
    const runs: seq<StyledRun>
    var index: nat
    var runEnd: nat
    ghost var last: nat

    ghost predicate Valid()
      reads this
    {
      && index <= |runs| && RunEnd(runs, index) <= last
      && (index < |runs| ==> runEnd == RunEnd(runs, index + 1))
    }

    constructor (runs: seq<StyledRun>)
      ensures Valid() && this.runs == runs && last == 0
    {
      this.runs := runs;
      index, last := 0, 0;
      runEnd := if runs == [] then 0 else runs[0].len;
    }

    /** The naive lookup from the line's start, as long as offsets do not go back. */
    method RunAt(offset: nat) returns (run: Option<StyledRun>)
      requires Valid() && last <= offset
      modifies this
      ensures Valid() && last == offset
      ensures run == RunFor(runs, offset)
    {
      last := offset;
      while index < |runs| && offset >= runEnd
        invariant Valid() && last == offset
      {
        index := index + 1;
        if index < |runs| {
          runEnd := runEnd + runs[index].len;
        }
      }
      RunIndexUnique(runs, offset, index);
      run := if index < |runs| then Some(runs[index]) else None;
    }
  }

  // ---- The line ----

  function LineWidth(cells: seq<LineCell>): nat {
    if cells == [] then 0 else LineWidth(cells[..|cells| - 1]) + cells[|cells| - 1].width
  }

  function LinkFor(line: SnapshotLine, run: Option<StyledRun>): Option<Hyperlink> {
    if run.Some? && 1 <= run.value.link <= |line.links| then Some(line.links[run.value.link - 1]) else None
  }

  /** The `n`th of the links, counted from one. */
  function NthLink(links: seq<Hyperlink>, n: nat): Option<Hyperlink> {
    if n == 0 || links == [] then None else if n == 1 then Some(links[0]) else NthLink(links[1..], n - 1)
  }

  /** A run's link number counts the line's links from one; 0, and a number past them, is no link. */
  lemma LinkForIsNth(line: SnapshotLine, run: StyledRun)
    ensures LinkFor(line, Some(run)) == NthLink(line.links, run.link)
  {
    NthIsBefore(line.links, run.link);
  }

  lemma {:induction false} NthIsBefore(links: seq<Hyperlink>, n: nat)
    ensures NthLink(links, n) == if 1 <= n <= |links| then Some(links[n - 1]) else None
  {
    if n > 1 && links != [] {
      NthIsBefore(links[1..], n - 1);
    }
  }

  function StyleFor(run: Option<StyledRun>): CellStyle {
    if run.Some? then run.value.style else PLAIN
  }

  /** One cell of the line drawn at column `x`: its text, or spaces when its run is hidden. */
  function DrawLineCell(u: Unicode, row: Row, x: nat, line: SnapshotLine, k: nat): (r: Row)
    requires |row| < U16_MAX && k < |line.cells| && line.cells[k].width >= 1
    ensures |r| == |row|
  {
    var cell := line.cells[k];
    var run := RunFor(line.runs, cell.offset);
    if run.Some? && run.value.hidden then
      if x >= |row| then row else PutText(u, row, x, Repeat(' ', cell.width), StyleFor(run), LinkFor(line, run))
    else if SatAdd(x, cell.width) <= |row| then
      PutCell(row, x, cell.text, StyleFor(run), cell.width, LinkFor(line, run))
    else row
  }

  /** The cells from the `k`th on, the `k`th at column `column` of the line. */
  function DrawCells(u: Unicode, row: Row, x: nat, budget: nat, line: SnapshotLine, k: nat,
                     column: nat): (r: (Row, nat))
    requires |row| < U16_MAX && k <= |line.cells| && line.Valid()
    ensures |r.0| == |row|
    decreases |line.cells| - k
  {
    if k == |line.cells| || SatAdd(column, line.cells[k].width) > budget then (row, column)
    else DrawCells(u, DrawLineCell(u, row, SatAdd(x, column), line, k), x,
                   budget, line, k + 1, SatAdd(column, line.cells[k].width))
  }

  function Budget(line: SnapshotLine, width: nat): nat {
    if LineWidth(line.cells) > width && width > 0 then width - 1 else width
  }

  /** The row after `put_snapshot_line`. */
  function DrawLine(u: Unicode, row: Row, x: nat, width: nat, line: SnapshotLine): (r: Row)
    requires |row| < U16_MAX && line.Valid()
    ensures |r| == |row|
  {
    if width == 0 || x >= |row| then row
    else
      var (drawn, column) := DrawCells(u, row, x, Budget(line, width), line, 0, 0);
      if LineWidth(line.cells) > width then PutText(u, drawn, SatAdd(x, column), "~", PLAIN, None) else drawn
  }

  /** `put_snapshot_line` on a grid. */
  method PutSnapshotLine(u: Unicode, grid: RenderGrid, x: nat, y: nat, width: nat, line: SnapshotLine)
    requires u.Valid() && grid.Valid() && line.Valid()
    modifies grid.cells
    ensures grid.Valid()
    ensures grid.Rows() == if y < grid.height
                               then old(grid.Rows())[y := DrawLine(u, old(grid.Rows())[y], x, width, line)]
                           else old(grid.Rows())
  {
    hide RowsOf, DrawCells, PutGraphemes, PutCell, WellFormed, LineWidth, RunFor;
    if width == 0 || y >= grid.height || x >= grid.width {
      return;
    }
    ghost var before := grid.Rows();
    var truncated := LineWidth(line.cells) > width;
    var budget := if truncated then width - 1 else width;
    var column := DrawCellsOn(u, grid, x, y, budget, line);
    if truncated {
      grid.PutChar(u, SatAdd(x, column), y, '~', PLAIN);
    }
  }

  method DrawCellsOn(u: Unicode, grid: RenderGrid, x: nat, y: nat, budget: nat,
                     line: SnapshotLine) returns (column: nat)
    requires u.Valid() && grid.Valid() && line.Valid() && y < grid.height && x < grid.width
    modifies grid.cells
    ensures grid.Valid()
    ensures (var r := DrawCells(u, old(grid.Rows())[y], x, budget, line, 0, 0);
             grid.Rows() == old(grid.Rows())[y := r.0] && column == r.1)
  {
    hide RowsOf, WellFormed, RunFor, LinkFor, StyleFor, DrawLineCell;
    ghost var before := grid.Rows();
    var runs := new RunCursor(line.runs);
    column := 0;
    var k := 0;
    while k < |line.cells|
      invariant k <= |line.cells| && grid.Valid() && runs.Valid() && fresh(runs) && runs.runs == line.runs
      invariant k < |line.cells| ==> runs.last <= line.cells[k].offset
      invariant grid.Rows() == before[y := grid.Rows()[y]]
      invariant DrawCells(u, grid.Rows()[y], x, budget, line, k, column)
             == DrawCells(u, before[y], x, budget, line, 0, 0)
    {
      var cell := line.cells[k];
      if SatAdd(column, cell.width) > budget {
        break;
      }
      var run := runs.RunAt(cell.offset);
      DrawCellOn(u, grid, SatAdd(x, column), y, line, k, run);
      column := SatAdd(column, cell.width);
      k := k + 1;
    }
  }

  method DrawCellOn(u: Unicode, grid: RenderGrid, drawX: nat, y: nat, line: SnapshotLine, k: nat,
                    run: Option<StyledRun>)
    requires u.Valid() && grid.Valid() && line.Valid() && y < grid.height && k < |line.cells|
    requires run == RunFor(line.runs, line.cells[k].offset)
    modifies grid.cells
    ensures grid.Valid()
    ensures grid.Rows() == old(grid.Rows())[y := DrawLineCell(u, old(grid.Rows())[y], drawX, line, k)]
  {
    hide RowsOf, WellFormed, RunFor, PutGraphemes, PutCell;
    var cell := line.cells[k];
    var style, link := StyleFor(run), LinkFor(line, run);
    if run.Some? && run.value.hidden {
      grid.PutStrLinked(u, drawX, y, Repeat(' ', cell.width), style, link);
      PutPastEnd(u, old(grid.Rows())[y], drawX, Repeat(' ', cell.width), style, link);
    } else if SatAdd(drawX, cell.width) <= grid.width {
      PutCellKeepsWellFormed(grid.Rows()[y], drawX, cell.text, style, cell.width, link);
      grid.DrawCell(drawX, y, cell.text, style, cell.width, link);
    }
  }

  lemma PutPastEnd(u: Unicode, row: Row, x: nat, text: string, style: CellStyle, link: Option<Hyperlink>)
    requires |row| < U16_MAX
    ensures x >= |row| ==> PutText(u, row, x, text, style, link) == row
  {
  }
}
