/** One frame (`frame_bytes`, `cursor_bytes`, `fit_width` in interactive.rs): replaying it on a host
    never scrolls, leaves no stale cell and puts the cursor where it belongs. */
module Frame {
  import opened Text
  import opened Style
  import opened Cells
  import opened Host
  import opened Screen
  import opened Render

  /** A rendered grid: its rows, all `width` cells long, and its cursor if it shows one. */
  datatype Grid = Grid(width: nat, rows: seq<seq<Cell>>, cursor: Option<GridCursor>)
  {
    ghost predicate Valid() {
      && (forall y :: 0 <= y < |rows| ==> |rows[y]| == width && WellFormed(rows[y]))
      && (cursor.Some? ==> cursor.value.x < width && cursor.value.y < |rows|)
    }
  }

  datatype Size = Size(width: nat, height: nat)

  // ---- fit_width ----

  function PrefixWidth(u: Unicode, text: string): nat {
    if text == [] then 0 else u.charWidth(text[0]) + PrefixWidth(u, text[1..])
  }

  /** How many characters of `text` fit `width` columns, `used` of which are taken. */
  function Fitting(u: Unicode, text: string, width: nat, used: nat): (n: nat)
    ensures n <= |text|
  {
    if text == [] || used + u.charWidth(text[0]) > width then 0
    else 1 + Fitting(u, text[1..], width, used + u.charWidth(text[0]))
  }

  /** The prefix is the longest one whose characters' widths fit. */
  lemma {:induction false} FittingIsLongest(u: Unicode, text: string, width: nat, used: nat)
    requires used <= width
    ensures (var n := Fitting(u, text, width, used);
             && used + PrefixWidth(u, text[..n]) <= width
             && (n < |text| ==> used + PrefixWidth(u, text[..n + 1]) > width))
  {
    if text != [] && used + u.charWidth(text[0]) <= width {
      var n := Fitting(u, text, width, used);
      FittingIsLongest(u, text[1..], width, used + u.charWidth(text[0]));
      assert text[..n][1..] == text[1..][..n - 1];
      if n < |text| { assert text[..n + 1][1..] == text[1..][..n]; }
    } else if text != [] {
      assert text[..1] == [text[0]] && text[..1][1..] == [];
    }
  }

  function FitWidth(u: Unicode, text: string, width: nat): string {
    if width == 0 then ""
    else
      var fitted := text[..Fitting(u, text, width, 0)];
      if u.width(fitted) < width then fitted + Repeat(' ', width - u.width(fitted)) else fitted
  }

  method ComputeFitWidth(u: Unicode, text: string, width: nat) returns (fitted: string)
    ensures fitted == FitWidth(u, text, width)
  {
    if width == 0 { return ""; }
    var n: nat, used: nat := 0, 0;
    fitted := "";
    while n < |text| && used + u.charWidth(text[n]) <= width
      invariant n <= |text| && fitted == text[..n]
      invariant Fitting(u, text, width, 0) == n + Fitting(u, text[n..], width, used)
    {
      assert text[n..][1..] == text[n + 1..];
      used := used + u.charWidth(text[n]);
      fitted := fitted + [text[n]];
      n := n + 1;
    }
    if u.width(fitted) < width {
      fitted := fitted + Repeat(' ', width - u.width(fitted));
    }
  }

  /** The status fills its row exactly when its text, as a whole, is no wider than the row. */
  lemma FitWidthFills(u: Unicode, text: string, width: nat)
    requires u.Valid() && width > 0
    ensures (var prefix := text[..Fitting(u, text, width, 0)];
             u.width(FitWidth(u, text, width)) == Max(width, u.width(prefix)))
  {
    var prefix := text[..Fitting(u, text, width, 0)];
    if u.width(prefix) < width {
      assert u.width(prefix + Repeat(' ', width - u.width(prefix))) == width;
    }
  }

  // ---- The frame ----

  /** `out` and the rows from `k` on, separated by newlines, erased to the edge when they end short. */
  function RowsFrom(u: Unicode, caps: HostCapabilities, grid: Grid, fills: bool, k: nat,
                    out: seq<ScreenCmd>): seq<ScreenCmd>
    requires k <= |grid.rows|
    decreases |grid.rows| - k
  {
    if k == |grid.rows| then out
    else
      var broken := if k > 0 then out + [NewLine] else out;
      var drawn := broken + [OnLine(RowCmds(u, caps, grid.rows[k]))];
      RowsFrom(u, caps, grid, fills, k + 1, if fills then drawn else drawn + [OnLine([El])])
  }

  function StatusCmds(u: Unicode, grid: Grid, size: Size, status: string, out: seq<ScreenCmd>): seq<ScreenCmd> {
    if size.height <= |grid.rows| then out
    else
      var text := FitWidth(u, status, size.width);
      var broken := if |grid.rows| > 0 then out + [NewLine] else out;
      var drawn := broken + [OnLine([Sgr([P(7)]), Write(text), Sgr([P(0)])])];
      if u.width(text) < size.width then drawn + [OnLine([El])] else drawn
  }

  /** The DECSCUSR number of a shape. */
  function ShapeCode(shape: CursorShape): nat {
    match shape
    case BlockCursor => 2
    case UnderlineCursor => 4
    case BeamCursor => 6
  }

  function CursorCmds(grid: Grid, size: Size, statusCursor: Option<nat>): seq<ScreenCmd> {
    if statusCursor.Some? && size.height > |grid.rows| then
      [Cup(size.height, SatAdd(Min(statusCursor.value, if size.width > 0 then size.width - 1 else 0), 1)),
       CursorStyle(ShapeCode(BeamCursor)), ShowCursor(true)]
    else if grid.cursor.Some? then
      var cursor := grid.cursor.value;
      [Cup(SatAdd(cursor.y, 1), SatAdd(cursor.x, 1)), CursorStyle(ShapeCode(cursor.shape)), ShowCursor(true)]
    else [ShowCursor(false)]
  }

  function DrawnRows(grid: Grid, size: Size): nat {
    if size.height > |grid.rows| then |grid.rows| + 1 else |grid.rows|
  }

  const OPENING: seq<ScreenCmd> := [Synchronized(true), ShowCursor(false), Cup(1, 1)]

  /** What a frame draws: a grid, the status line under it, and where the cursor is on that. */
  datatype View = View(grid: Grid, status: string, statusCursor: Option<nat>)

  /** A frame, with the commands `after` that panes send along after its drawing. */
  function FrameCmds(u: Unicode, caps: HostCapabilities, view: View, size: Size,
                     after: seq<ScreenCmd>): seq<ScreenCmd> {
    var rows := RowsFrom(u, caps, view.grid, view.grid.width >= size.width, 0, OPENING);
    var lines := StatusCmds(u, view.grid, size, view.status, rows);
    (if DrawnRows(view.grid, size) < size.height then lines + [Ed] else lines)
    + after + CursorCmds(view.grid, size, view.statusCursor) + [Synchronized(false)]
  }

  method FrameBytes(u: Unicode, caps: HostCapabilities, view: View, size: Size,
                    after: seq<ScreenCmd>) returns (frame: seq<ScreenCmd>)
    ensures frame == FrameCmds(u, caps, view, size, after)
  {
    hide RowCmds, FitWidth;
    var grid := view.grid;
    frame := OPENING;
    var fills := grid.width >= size.width;
    var index := 0;
    while index < |grid.rows|
      invariant index <= |grid.rows|
      invariant RowsFrom(u, caps, grid, fills, index, frame) == RowsFrom(u, caps, grid, fills, 0, OPENING)
    {
      if index > 0 {
        frame := frame + [NewLine];
      }
      var line := AnsiLine(u, caps, grid.rows[index]);
      frame := frame + [OnLine(line)];
      if !fills {
        frame := frame + [OnLine([El])];
      }
      index := index + 1;
    }
    var drawnRows := |grid.rows|;
    if size.height > |grid.rows| {
      var text := ComputeFitWidth(u, view.status, size.width);
      if |grid.rows| > 0 {
        frame := frame + [NewLine];
      }
      frame := frame + [OnLine([Sgr([P(7)]), Write(text), Sgr([P(0)])])];
      if u.width(text) < size.width {
        frame := frame + [OnLine([El])];
      }
      drawnRows := drawnRows + 1;
    }
    if drawnRows < size.height {
      frame := frame + [Ed];
    }
    frame := frame + after + CursorCmds(grid, size, view.statusCursor) + [Synchronized(false)];
  }
}
