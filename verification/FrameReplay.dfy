/** Frame replay: what the host's screen shows after a frame, whatever it showed before. */
module FrameReplay {
  import opened Text
  import opened Style
  import opened Cells
  import opened Host
  import opened Screen
  import opened Render
  import opened Replay
  import opened RowReplay
  import opened Frame
  import Swallow

  /** The screen row a grid row becomes: its picture, and nothing to the right of it. */
  function ScreenRow(h: Host, u: Unicode, caps: HostCapabilities, grid: Grid, width: nat, y: nat): seq<HostCell>
    requires y < |grid.rows|
  {
    Picture(h, u, caps, grid.rows[y], 0) + (if grid.width < width then Blanks(width - grid.width, None) else [])
  }

  const STATUS_PEN := Pen(PLAIN.(reverse := true), None)

  /** The status line: reversed, over the whole row. */
  function StatusRow(u: Unicode, status: string, width: nat): seq<HostCell>
    requires width > 0
  {
    [Glyph(FitWidth(u, status, width), STATUS_PEN)] + Tails(width - 1)
  }

  /** The host the frame is for draws every row of the grid admissibly and covers as many columns with
      the status line as Unicode measures it. */
  ghost predicate HostFor(h: Host, u: Unicode, grid: Grid, size: Size, status: string) {
    && (forall y :: 0 <= y < |grid.rows| ==> Admissible(h, u, grid.rows[y]))
    && h.advance(0, FitWidth(u, status, size.width)) == u.width(FitWidth(u, status, size.width))
  }

  /** A screen of the terminal's size showing anything. */
  ghost predicate AnyScreen(s: Screen, size: Size) {
    && s.Valid(size.width) && |s.rows| == size.height && !s.wrapped && !s.scrolled && s.pen == DEFAULT_PEN
    && forall y :: 0 <= y < |s.rows| ==> Edge(s.rows[y], 0)
  }

  /** After `k` rows of the grid. */
  ghost predicate Drawn(h: Host, u: Unicode, caps: HostCapabilities, grid: Grid, size: Size, k: nat, s0: Screen,
                        s: Screen)
    requires k <= |grid.rows|
  {
    && s.Valid(size.width) && |s.rows| == size.height && !s.wrapped && !s.scrolled && s.pen == DEFAULT_PEN
    && |s0.rows| == size.height && |grid.rows| <= size.height
    && (forall y :: 0 <= y < k ==> s.rows[y] == ScreenRow(h, u, caps, grid, size.width, y))
    && (forall y :: k <= y < size.height ==> s.rows[y] == s0.rows[y])
    && (if k == 0 then s.row == 0 && s.col == 0 else s.row == k - 1)
  }

  lemma {:induction false} RowDrawn(h: Host, u: Unicode, caps: HostCapabilities, grid: Grid, size: Size, k: nat,
                                    line: seq<HostCell>)
    requires u.Valid() && grid.Valid() && k < |grid.rows| && Admissible(h, u, grid.rows[k])
    requires grid.width <= size.width == |line| && Edge(line, 0)
    ensures (var r := Run(h, RowCmds(u, caps, grid.rows[k]), Line(line, 0, DEFAULT_PEN, false));
             && !r.overflow && r.pen == DEFAULT_PEN
             && (grid.width == size.width ==> r.cells == ScreenRow(h, u, caps, grid, size.width, k))
             && (grid.width < size.width ==>
                   && r.col == grid.width
                   && Step(h, El, r).cells == ScreenRow(h, u, caps, grid, size.width, k)))
  {
    hide Picture, Run, RowFrom, CellPicture, Admissible;
    RowReplays(h, u, caps, grid.rows[k], line);
    var r := Run(h, RowCmds(u, caps, grid.rows[k]), Line(line, 0, DEFAULT_PEN, false));
    var w := grid.width;
    if w == size.width {
      assert r.cells[..w] == r.cells;
    } else {
      ErasedTail(r.cells, w, size.width);
    }
  }

  lemma ErasedTail(cells: seq<HostCell>, w: nat, width: nat)
    requires w < width == |cells| && Edge(cells, w)
    ensures Overwrite(cells, w, Blanks(width - w, None)) == cells[..w] + Blanks(width - w, None)
  {
    assert cells[width..] == [];
  }

  /** One more row. */
  lemma {:induction false} RowsStep(h: Host, u: Unicode, caps: HostCapabilities, grid: Grid, size: Size, status: string,
                                    k: nat, out: seq<ScreenCmd>, s0: Screen)
    requires u.Valid() && grid.Valid() && HostFor(h, u, grid, size, status) && AnyScreen(s0, size)
    requires grid.width <= size.width && k < |grid.rows| <= size.height
    requires Drawn(h, u, caps, grid, size, k, s0, RunScreen(h, size.width, out, s0))
    ensures (var fills := grid.width >= size.width;
             var broken := if k > 0 then out + [NewLine] else out;
             var drawn := broken + [OnLine(RowCmds(u, caps, grid.rows[k]))];
             Drawn(h, u, caps, grid, size, k + 1, s0,
                   RunScreen(h, size.width, if fills then drawn else drawn + [OnLine([El])], s0)))
  {
    hide RunScreen, Run, RowCmds, ScreenRow, Admissible;
    var w := size.width;
    var broken := if k > 0 then out + [NewLine] else out;
    var drawn := broken + [OnLine(RowCmds(u, caps, grid.rows[k]))];
    if k > 0 { ScreenSnoc(h, w, out, NewLine, s0); }
    var s1 := RunScreen(h, w, broken, s0);
    assert s1.row == k && s1.col == 0 && s1.pen == DEFAULT_PEN && s1.rows[k] == s0.rows[k];
    RowDrawn(h, u, caps, grid, size, k, s1.rows[k]);
    ScreenSnoc(h, w, broken, OnLine(RowCmds(u, caps, grid.rows[k])), s0);
    var s2 := RunScreen(h, w, drawn, s0);
    if grid.width < w {
      ScreenSnoc(h, w, drawn, OnLine([El]), s0);
      Run1(h, El, s2.Current());
    }
  }

  lemma {:induction false} RowsReplay(h: Host, u: Unicode, caps: HostCapabilities, grid: Grid, size: Size,
                                      status: string, k: nat, out: seq<ScreenCmd>, s0: Screen)
    requires u.Valid() && grid.Valid() && HostFor(h, u, grid, size, status) && AnyScreen(s0, size)
    requires grid.width <= size.width && k <= |grid.rows| <= size.height
    requires Drawn(h, u, caps, grid, size, k, s0, RunScreen(h, size.width, out, s0))
    ensures Drawn(h, u, caps, grid, size, |grid.rows|, s0,
                  RunScreen(h, size.width, RowsFrom(u, caps, grid, grid.width >= size.width, k, out), s0))
    decreases |grid.rows| - k
  {
    hide RunScreen, RowCmds, Drawn, HostFor, AnyScreen;
    if k < |grid.rows| {
      RowsStep(h, u, caps, grid, size, status, k, out, s0);
      var broken := if k > 0 then out + [NewLine] else out;
      var drawn := broken + [OnLine(RowCmds(u, caps, grid.rows[k]))];
      RowsReplay(h, u, caps, grid, size, status, k + 1,
                 if grid.width >= size.width then drawn else drawn + [OnLine([El])], s0);
    }
  }

  // ---- The status line ----

  /** The text cut to the row, before padding, measures no wider than the row. */
  predicate StatusFits(u: Unicode, status: string, width: nat) {
    u.width(status[..Fitting(u, status, width, 0)]) <= width
  }

  lemma StatusWritten(h: Host, u: Unicode, status: string, width: nat, line: seq<HostCell>)
    requires u.Valid() && width > 0 && |line| == width && Edge(line, 0)
    requires h.advance(0, FitWidth(u, status, width)) == u.width(FitWidth(u, status, width))
    ensures (var text := FitWidth(u, status, width);
             var r := Run(h, [Sgr([P(7)]), Write(text), Sgr([P(0)])], Line(line, 0, DEFAULT_PEN, false));
             && r.overflow == !StatusFits(u, status, width)
             && u.width(text) >= width
             && (!r.overflow ==> r.cells == StatusRow(u, status, width) && r.col == width && r.pen == DEFAULT_PEN))
  {
    hide Run;
    var text := FitWidth(u, status, width);
    var s := Line(line, 0, DEFAULT_PEN, false);
    FitWidthFills(u, status, width);
    Run3(h, Sgr([P(7)]), Write(text), Sgr([P(0)]), s);
    Sgr1(PLAIN, P(7));
    var s1 := Step(h, Sgr([P(7)]), s);
    assert s1 == s.(pen := STATUS_PEN);
    Sgr1(STATUS_PEN.style, P(0));
    if StatusFits(u, status, width) {
      var put := StatusRow(u, status, width);
      assert line[width..] == [] && Overwrite(line, 0, put) == put;
    }
  }

  /** The cursor at the edge of a row full of text, erased to its end. */
  function EdgeErased(h: Host, row: seq<HostCell>): seq<HostCell>
    requires row != []
  {
    if h.erasesEdge then Overwrite(row, |row| - 1, [Blank(None)]) else row
  }

  /** Row `y` of the screen after a frame. */
  function FrameRow(h: Host, u: Unicode, caps: HostCapabilities, grid: Grid, size: Size, status: string,
                    y: nat): seq<HostCell>
    requires size.width > 0
  {
    if y < |grid.rows| then ScreenRow(h, u, caps, grid, size.width, y)
    else if y == |grid.rows| then
      var row := StatusRow(u, status, size.width);
      if DrawnRows(grid, size) < size.height then EdgeErased(h, row) else row
    else Blanks(size.width, None)
  }

  /** After the status line and the erase below it. */
  ghost predicate Filled(h: Host, u: Unicode, caps: HostCapabilities, grid: Grid, size: Size, status: string, s: Screen)
    requires size.width > 0
  {
    && s.Valid(size.width) && |s.rows| == size.height && !s.wrapped && !s.scrolled && s.pen == DEFAULT_PEN
    && forall y :: 0 <= y < size.height ==> s.rows[y] == FrameRow(h, u, caps, grid, size, status, y)
  }

  function BelowCmds(u: Unicode, grid: Grid, size: Size, status: string, out: seq<ScreenCmd>): seq<ScreenCmd> {
    var lines := StatusCmds(u, grid, size, status, out);
    if DrawnRows(grid, size) < size.height then lines + [Ed] else lines
  }

  lemma NoEdge(h: Host, row: seq<HostCell>, pen: Pen)
    requires row != [] && pen == DEFAULT_PEN
    ensures Step(h, El, Line(row, |row|, pen, false)).cells == EdgeErased(h, row)
  {
    assert Blanks(1, None) == [Blank(None)];
    assert Blanks(0, None) == [];
  }

  /** The status line and what is below it, when the status fits. */
  lemma BelowFits(h: Host, u: Unicode, caps: HostCapabilities, grid: Grid, size: Size, status: string,
                  out: seq<ScreenCmd>, s0: Screen)
    requires u.Valid() && grid.Valid() && HostFor(h, u, grid, size, status) && AnyScreen(s0, size)
    requires size.width > 0 && |grid.rows| <= size.height
    requires Drawn(h, u, caps, grid, size, |grid.rows|, s0, RunScreen(h, size.width, out, s0))
    requires |grid.rows| < size.height ==> StatusFits(u, status, size.width)
    ensures Filled(h, u, caps, grid, size, status, RunScreen(h, size.width, BelowCmds(u, grid, size, status, out), s0))
  {
    hide RunScreen, Run, ScreenRow, Admissible, FitWidth, StatusRow, EdgeErased;
    var w, n := size.width, |grid.rows|;
    if n < size.height {
      var text := FitWidth(u, status, w);
      var line := [Sgr([P(7)]), Write(text), Sgr([P(0)])];
      var broken := if n > 0 then out + [NewLine] else out;
      if n > 0 { ScreenSnoc(h, w, out, NewLine, s0); }
      var s1 := RunScreen(h, w, broken, s0);
      StatusWritten(h, u, status, w, s1.rows[n]);
      ScreenSnoc(h, w, broken, OnLine(line), s0);
      var s2 := RunScreen(h, w, broken + [OnLine(line)], s0);
      assert s2.rows[n] == StatusRow(u, status, w) && s2.row == n && s2.col == w && s2.pen == DEFAULT_PEN;
      if n + 1 < size.height {
        NoEdge(h, s2.rows[n], s2.pen);
        ScreenSnoc(h, w, broken + [OnLine(line)], Ed, s0);
      }
    }
  }

  // ---- The cursor ----

  /** Where a frame leaves the cursor, and in which shape, if it shows it. */
  datatype Place = Place(row: nat, col: nat, shape: CursorShape)

  function CursorPlace(grid: Grid, size: Size, statusCursor: Option<nat>): Option<Place>
    requires size.width > 0 && size.height > 0
  {
    if statusCursor.Some? && size.height > |grid.rows| then
      Some(Place(size.height - 1, Min(statusCursor.value, size.width - 1), BeamCursor))
    else if grid.cursor.Some? then Some(Place(grid.cursor.value.y, grid.cursor.value.x, grid.cursor.value.shape))
    else None
  }

  /** The steady cursors a host has by their DECSCUSR numbers; 0, 1, 3 and 5 blink. */
  function SteadyShape(code: nat): Option<CursorShape> {
    if code == 2 then Some(BlockCursor)
    else if code == 4 then Some(UnderlineCursor)
    else if code == 6 then Some(BeamCursor)
    else None
  }

  /** The cursor of `s` is at `place` in its shape, or hidden. */
  predicate CursorAt(s: Screen, place: Option<Place>) {
    && s.shown == place.Some?
    && (place.Some? ==>
          s.row == place.value.row && s.col == place.value.col && SteadyShape(s.style) == Some(place.value.shape))
  }

  lemma ShapeShown(shape: CursorShape)
    ensures SteadyShape(ShapeCode(shape)) == Some(shape)
  {
  }

  lemma CursorReplay(h: Host, grid: Grid, size: Size, statusCursor: Option<nat>, out: seq<ScreenCmd>, s0: Screen)
    requires grid.Valid() && s0.Valid(size.width) && |s0.rows| == size.height
    requires 0 < size.width <= U16_MAX && size.height <= U16_MAX
    requires grid.width <= size.width && |grid.rows| <= size.height
    ensures (var s := RunScreen(h, size.width, out, s0);
             var r := RunScreen(h, size.width, out + CursorCmds(grid, size, statusCursor) + [Synchronized(false)], s0);
             && r.rows == s.rows && r.pen == s.pen && r.wrapped == s.wrapped && r.scrolled == s.scrolled
             && CursorAt(r, CursorPlace(grid, size, statusCursor)))
  {
    hide RunScreen, ShapeCode, SteadyShape;
    ShapeShown(BeamCursor);
    if grid.cursor.Some? { ShapeShown(grid.cursor.value.shape); }
    var w := size.width;
    var cmds := CursorCmds(grid, size, statusCursor);
    ScreenSnoc(h, w, out + cmds, Synchronized(false), s0);
    if |cmds| == 3 {
      assert out + cmds == out + [cmds[0]] + [cmds[1]] + [cmds[2]];
      ScreenSnoc(h, w, out, cmds[0], s0);
      ScreenSnoc(h, w, out + [cmds[0]], cmds[1], s0);
      ScreenSnoc(h, w, out + [cmds[0]] + [cmds[1]], cmds[2], s0);
    } else {
      ScreenSnoc(h, w, out, cmds[0], s0);
      assert out + cmds == out + [cmds[0]];
    }
  }

  // ---- The frame ----

  lemma OpeningReplay(h: Host, u: Unicode, caps: HostCapabilities, grid: Grid, size: Size, s0: Screen)
    requires AnyScreen(s0, size) && |grid.rows| <= size.height && size.width > 0
    ensures Drawn(h, u, caps, grid, size, 0, s0, RunScreen(h, size.width, OPENING, s0))
  {
    hide RunScreen;
    var w := size.width;
    assert OPENING == [] + [Synchronized(true)] + [ShowCursor(false)] + [Cup(1, 1)];
    assert RunScreen(h, w, [], s0) == s0 by { NoScreenCmds(h, w, s0); }
    ScreenSnoc(h, w, [], Synchronized(true), s0);
    ScreenSnoc(h, w, [] + [Synchronized(true)], ShowCursor(false), s0);
    ScreenSnoc(h, w, [] + [Synchronized(true)] + [ShowCursor(false)], Cup(1, 1), s0);
  }

  lemma NoScreenCmds(h: Host, width: nat, s: Screen)
    requires s.Valid(width)
    ensures RunScreen(h, width, [], s) == s
  {
  }

  /** A view no larger than the terminal, on a host that is right for it. */
  ghost predicate Viewable(h: Host, u: Unicode, view: View, size: Size) {
    && view.grid.Valid() && HostFor(h, u, view.grid, size, view.status)
    && 0 < size.width <= U16_MAX && 0 < size.height <= U16_MAX
    && view.grid.width <= size.width && |view.grid.rows| <= size.height
  }

  /** The status line, where the view has one, fits its row. */
  predicate Fits(u: Unicode, view: View, size: Size) {
    |view.grid.rows| < size.height ==> StatusFits(u, view.status, size.width)
  }

  /** What the screen shows after a frame: every row drawn or erased, the cursor in its place, nothing wrapped or
      scrolled, and the pen put down. */
  ghost predicate Shows(h: Host, u: Unicode, caps: HostCapabilities, view: View, size: Size, s: Screen)
    requires size.width > 0 && size.height > 0
  {
    Filled(h, u, caps, view.grid, size, view.status, s) && CursorAt(s, CursorPlace(view.grid, size, view.statusCursor))
  }

  /** Frame replay: whatever the screen showed before. */
  lemma FrameReplays(h: Host, u: Unicode, caps: HostCapabilities, view: View, size: Size, s0: Screen)
    requires u.Valid() && Viewable(h, u, view, size) && Fits(u, view, size) && AnyScreen(s0, size)
    ensures (var r := RunScreen(h, size.width, FrameCmds(u, caps, view, size, []), s0);
             Shows(h, u, caps, view, size, r) && AnyScreen(r, size))
  {
    hide RunScreen, Drawn, HostFor, AnyScreen, FrameRow, RowsFrom, StatusCmds, CursorCmds, StatusFits, CursorAt;
    var grid := view.grid;
    OpeningReplay(h, u, caps, grid, size, s0);
    var rows := RowsFrom(u, caps, grid, grid.width >= size.width, 0, OPENING);
    RowsReplay(h, u, caps, grid, size, view.status, 0, OPENING, s0);
    BelowFits(h, u, caps, grid, size, view.status, rows, s0);
    SizeOf(s0, size);
    var below := BelowCmds(u, grid, size, view.status, rows);
    assert below + [] == below;
    CursorReplay(h, grid, size, view.statusCursor, below, s0);
    ShownIsScreen(h, u, caps, view, size, RunScreen(h, size.width, FrameCmds(u, caps, view, size, []), s0));
  }

  /** A frame leaves a screen the next one can be drawn over. */
  lemma ShownIsScreen(h: Host, u: Unicode, caps: HostCapabilities, view: View, size: Size, s: Screen)
    requires Viewable(h, u, view, size) && Filled(h, u, caps, view.grid, size, view.status, s)
    ensures AnyScreen(s, size)
  {
    hide HostFor, FrameRow;
    forall y | 0 <= y < size.height ensures Edge(s.rows[y], 0) {
      FrameRowStarts(h, u, caps, view.grid, size, view.status, y);
    }
  }

  lemma FrameRowStarts(h: Host, u: Unicode, caps: HostCapabilities, grid: Grid, size: Size, status: string, y: nat)
    requires grid.Valid() && size.width > 0
    ensures Edge(FrameRow(h, u, caps, grid, size, status, y), 0)
  {
    hide CellPicture, Picture, FitWidth;
    if y < |grid.rows| {
      if grid.rows[y] == [] {
        assert Picture(h, u, caps, grid.rows[y], 0) == [] by { NoPicture(h, u, caps); }
      } else {
        PictureStarts(h, u, caps, grid.rows[y]);
      }
    } else if y == |grid.rows| {
      var row := StatusRow(u, status, size.width);
      var last := size.width - 1;
      assert row[0].Glyph?;
      if last == 0 {
        assert Overwrite(row, 0, [Blank(None)])[0] == [Blank(None)][0];
      } else {
        Swallow.HealLeftKeeps(row[..last], 0);
        assert Overwrite(row, last, [Blank(None)])[0] == HealLeft(row[..last])[0];
      }
    }
  }

  lemma NoPicture(h: Host, u: Unicode, caps: HostCapabilities)
    ensures Picture(h, u, caps, [], 0) == []
  {
  }

  lemma PictureStarts(h: Host, u: Unicode, caps: HostCapabilities, cells: seq<Cell>)
    requires cells != []
    ensures (var row := Picture(h, u, caps, cells, 0); row != [] && !row[0].Tail?)
  {
    hide Drawn, CellWidth;
  }

  // ---- Frame after frame ----

  function RunFrames(h: Host, u: Unicode, caps: HostCapabilities, views: seq<View>, size: Size, s: Screen): (r: Screen)
    requires s.Valid(size.width)
    ensures r.Valid(size.width)
    decreases |views|
  {
    if views == [] then s
    else RunFrames(h, u, caps, views[1..], size, RunScreen(h, size.width, FrameCmds(u, caps, views[0], size, []), s))
  }

  /** However many frames are drawn one over the other, the screen shows the last one, and none of them scrolled. */
  lemma {:induction false} FramesReplay(h: Host, u: Unicode, caps: HostCapabilities, views: seq<View>, size: Size,
                                        s0: Screen)
    requires u.Valid() && AnyScreen(s0, size) && views != [] && size.width > 0 && size.height > 0
    requires forall k :: 0 <= k < |views| ==> Viewable(h, u, views[k], size) && Fits(u, views[k], size)
    ensures (var r := RunFrames(h, u, caps, views, size, s0);
             Shows(h, u, caps, views[|views| - 1], size, r) && AnyScreen(r, size))
    decreases |views|
  {
    hide RunScreen, FrameCmds, Shows, Fits, AnyScreen, HostFor, Grid.Valid;
    SizeOf(s0, size);
    assert Viewable(h, u, views[0], size);
    FrameReplays(h, u, caps, views[0], size, s0);
    var s1 := RunScreen(h, size.width, FrameCmds(u, caps, views[0], size, []), s0);
    var rest := views[1..];
    if rest == [] {
      assert RunFrames(h, u, caps, rest, size, s1) == s1;
    } else {
      assert rest[|rest| - 1] == views[|views| - 1];
      FramesReplay(h, u, caps, rest, size, s1);
    }
  }

  lemma SizeOf(s: Screen, size: Size)
    requires AnyScreen(s, size)
    ensures s.Valid(size.width) && |s.rows| == size.height
  {
  }

  /** A status that does not fit wraps, and as the last row it scrolls the screen. */
  lemma BelowOverflows(h: Host, u: Unicode, caps: HostCapabilities, grid: Grid, size: Size, status: string,
                       out: seq<ScreenCmd>, s0: Screen)
    requires u.Valid() && grid.Valid() && HostFor(h, u, grid, size, status) && AnyScreen(s0, size)
    requires size.width > 0 && |grid.rows| < size.height && !StatusFits(u, status, size.width)
    requires Drawn(h, u, caps, grid, size, |grid.rows|, s0, RunScreen(h, size.width, out, s0))
    ensures (var r := RunScreen(h, size.width, BelowCmds(u, grid, size, status, out), s0);
             r.wrapped && r.scrolled == (size.height == |grid.rows| + 1))
  {
    hide RunScreen, Run, ScreenRow, Admissible, FitWidth, StatusRow;
    var w, n := size.width, |grid.rows|;
    var text := FitWidth(u, status, w);
    var line := [Sgr([P(7)]), Write(text), Sgr([P(0)])];
    var broken := if n > 0 then out + [NewLine] else out;
    if n > 0 { ScreenSnoc(h, w, out, NewLine, s0); }
    var s1 := RunScreen(h, w, broken, s0);
    StatusWritten(h, u, status, w, s1.rows[n]);
    ScreenSnoc(h, w, broken, OnLine(line), s0);
    var s2 := RunScreen(h, w, broken + [OnLine(line)], s0);
    assert s2.wrapped && s2.scrolled == (n + 1 == size.height);
    if n + 1 < size.height {
      ScreenSnoc(h, w, broken + [OnLine(line)], Ed, s0);
    }
  }

  /** Exactly when a frame wraps, and when it scrolls: when a status row is drawn whose text, measured as
      a whole, is wider than the row; `fit_width` counts it character by character. */
  lemma FrameScrollsIff(h: Host, u: Unicode, caps: HostCapabilities, view: View, size: Size, s0: Screen)
    requires u.Valid() && Viewable(h, u, view, size) && AnyScreen(s0, size)
    ensures (var r := RunScreen(h, size.width, FrameCmds(u, caps, view, size, []), s0);
             var rows := |view.grid.rows|;
             && r.wrapped == (rows < size.height && !StatusFits(u, view.status, size.width))
             && r.scrolled == (rows + 1 == size.height && !StatusFits(u, view.status, size.width)))
  {
    hide RunScreen, Drawn, HostFor, AnyScreen, FrameRow, RowsFrom, StatusCmds, CursorCmds, StatusFits;
    var grid, status := view.grid, view.status;
    OpeningReplay(h, u, caps, grid, size, s0);
    var rows := RowsFrom(u, caps, grid, grid.width >= size.width, 0, OPENING);
    RowsReplay(h, u, caps, grid, size, status, 0, OPENING, s0);
    SizeOf(s0, size);
    var below := BelowCmds(u, grid, size, status, rows);
    assert below + [] == below;
    CursorReplay(h, grid, size, view.statusCursor, below, s0);
    if Fits(u, view, size) {
      BelowFits(h, u, caps, grid, size, status, rows, s0);
    } else {
      BelowOverflows(h, u, caps, grid, size, status, rows, s0);
    }
  }

  /** The status cursor is on the status row exactly when that is the last row of the screen. */
  lemma StatusCursorIff(h: Host, u: Unicode, caps: HostCapabilities, view: View, size: Size, s0: Screen)
    requires u.Valid() && Viewable(h, u, view, size) && Fits(u, view, size) && AnyScreen(s0, size)
    requires view.statusCursor.Some? && |view.grid.rows| < size.height
    ensures RunScreen(h, size.width, FrameCmds(u, caps, view, size, []), s0).row == |view.grid.rows|
       <==> |view.grid.rows| + 1 == size.height
  {
    hide RunScreen, FrameCmds, Fits, AnyScreen, HostFor, Filled;
    FrameReplays(h, u, caps, view, size, s0);
  }

  /** Such a text exists: a heart and the selector that makes it an emoji are one column and none as
      characters, and two columns together. */
  lemma EmojiStatusDoesNotFit(u: Unicode)
    requires u.charWidth('\U{2764}') == 1 && u.charWidth(EMOJI_PRESENTATION) == 0
    requires u.width(['\U{2764}', EMOJI_PRESENTATION]) == 2
    ensures !StatusFits(u, ['\U{2764}', EMOJI_PRESENTATION], 1)
  {
    var text := ['\U{2764}', EMOJI_PRESENTATION];
    var rest := [EMOJI_PRESENTATION];
    assert text[1..] == rest && rest[1..] == [];
    assert Fitting(u, rest, 1, 1) == 1 + Fitting(u, [], 1, 1);
    assert Fitting(u, text, 1, 0) == 1 + Fitting(u, rest, 1, 1);
    assert text[..2] == text;
  }

  /** After a frame the status row is whole, unless the screen below it was erased on a host that counts the cursor at
      the edge as still on the last column. */
  lemma StatusShownIff(h: Host, u: Unicode, caps: HostCapabilities, view: View, size: Size, s0: Screen)
    requires u.Valid() && Viewable(h, u, view, size) && Fits(u, view, size) && AnyScreen(s0, size)
    requires |view.grid.rows| < size.height
    ensures (var r := RunScreen(h, size.width, FrameCmds(u, caps, view, size, []), s0);
             r.rows[|view.grid.rows|] == StatusRow(u, view.status, size.width))
       <==> !(h.erasesEdge && |view.grid.rows| + 1 < size.height)
  {
    hide RunScreen, FrameCmds, Fits, AnyScreen, HostFor, StatusRow;
    FrameReplays(h, u, caps, view, size, s0);
    StatusRowErased(h, u, view.status, size.width);
  }

  /** The erased status row is not the row, and lacks its last column. */
  lemma StatusRowErased(h: Host, u: Unicode, status: string, width: nat)
    requires width > 0
    ensures (var row := StatusRow(u, status, width);
             |row| == width
             && (h.erasesEdge ==> EdgeErased(h, row) != row && EdgeErased(h, row)[width - 1] == Blank(None)))
  {
    var row := StatusRow(u, status, width);
    if h.erasesEdge {
      assert EdgeErased(h, row)[width - 1] == [Blank(None)][0];
      assert row[width - 1] != Blank(None);
    }
  }

  /** An empty status over two rows of one column, on a host that erases the edge. */
  const SMALL: Size := Size(1, 2)

  const EMPTY_VIEW: View := View(Grid(0, [], None), "", None)

  /** On such a host the status line's one column is blank after the frame, not reversed. */
  lemma LastColumnLost(u: Unicode, caps: HostCapabilities, s0: Screen)
    requires u.Valid() && u.width("") == 0 && AnyScreen(s0, SMALL)
    ensures (var h := Host((column, text) => 1, (a, b) => false, true);
             var r := RunScreen(h, 1, FrameCmds(u, caps, EMPTY_VIEW, SMALL, []), s0);
             Viewable(h, u, EMPTY_VIEW, SMALL) && r.rows[0] == [Blank(None)]
             && StatusRow(u, "", 1) == [Glyph(SPACE, STATUS_PEN)])
  {
    hide RunScreen, FrameCmds, AnyScreen;
    var h := Host((column, text) => 1, (a, b) => false, true);
    assert FitWidth(u, "", 1) == SPACE by { assert "" + Repeat(' ', 1) == SPACE; }
    FrameReplays(h, u, caps, EMPTY_VIEW, SMALL, s0);
    StatusRowErased(h, u, "", 1);
  }
}
