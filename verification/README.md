# Embers client, verified model

Embers is a terminal multiplexer. This project models the parts of its client that hold the most state and no I/O, and
proves what they are for. `dafny verify dfyconfig.toml` checks everything.

The model is split the way the client is:

* **Renderer.** `Rows` and `Grid` are the cell grid in which a wide character owns continuation cells, as an array that
  the drawing methods overwrite; `Painting` says what lines, filled rectangles and boxes look like on it, and
  `SnapshotDraw` draws a pane's line. `Render` and `Frame` compile rows and frames to terminal commands. `Host` and
  `Screen` are a small host terminal (CHA, ECH, EL, ED, SGR and OSC 8 on lines of cells). `Replay`, `RowReplay` and
  `FrameReplay` prove that running the output on it shows the grid, and `Swallow` exactly for which rows. The host may
  disagree with Unicode about odd text, may join neighbouring cells into one cluster, and may or may not erase the last
  column after a write that filled it. `Clustering` is the host that joins what Unicode makes one cluster.
* **PTY sizes.** `PtySizes` is one client's `PtySizeSync`; `PtyRuns` interleaves any number of clients that share
  buffers, each step being one client's user input, sync or failed request.
* **Copy mode and prompt.** `CopyText` states where words start and end on a buffer of lines, `Walker` holds the loops
  that find those places, `CopyMode` the motions and the view. `Editors` is the command prompt on characters, `Prompt`
  the same edits at byte offsets of UTF-8 text (`Utf8`, section 3 of RFC 3629).
* **Layout and targets.** `Layout` and `LayoutLaws` descend through active tabs and climb parent links; `Format`,
  `Decimal`, `Target` and `TargetPaths` expand formats and read targets.
* **Connection and host queries.** `Transport` keeps events in order around requests; `HostReplies` reads the host
  terminal's answers, `ReplyLaws` says what it makes of them, and `PendingQueries` tells the client's own from a pane's.
  `Hints` picks and labels matches.

Unicode's tables (widths, grapheme clusters as in section 3 of UAX #29, character classes) are a record of functions,
`Text.Unicode`; `Unicode.Valid` says what the proofs need of them. A snapshot is free of cycles when its nodes can be
ranked, and the ranking is a ghost argument. `LayoutLaws.TwoWindowsAreWellFormed`,
`Clustering.SeparateHostIsAdmissible` and `PendingQueries.FullAnswersAreInOrder` show that what the layout, replay and
reply theorems assume can be met.

## What the proofs found

* `joined_next` never looks for a cluster with an ASCII cell, but Unicode makes U+0600 and the digit after it one (a
  Prepend character). A host that clusters takes the digit into the cell before: the row `["\u{0600}", "5"]` ends as one
  cell with the cursor a column short (`NumberRowEnds`). `RowReplaysIff` says for every host exactly which rows are drawn
  right, `ClusteringHostDraws` and `TrustedRowIsDrawn` what that is for the clustering host.
* `fit_width` counts a status line character by character, but a text can measure wider as a whole (an emoji with its
  variation selector). Such a status wraps, and scrolls the screen when it is on the last row: `FrameScrollsIff` says
  exactly when, `EmojiStatusDoesNotFit` gives the text. The newlines of `frame_bytes` are placed so that a frame does not
  scroll.
* On a host that erases the last column after it was written, the ED after a full status line takes that column, exactly
  when the status is not on the last row (`StatusShownIff`; `LastColumnLost` is a screen on which it happens). The status
  cursor goes to the last row of the screen, which then is not the status row (`StatusCursorIff`).
* `request` keeps the events it drains in a local list. When the connection breaks after some came, they are neither
  delivered nor queued: `SocketTransport.Request` says exactly which are lost and when, `LosesEvent` loses one.
* A printed window number names its window again exactly when a base index is set or the window is the first
  (`PrintedWindowResolves`, `PrintedTargetResolves`); a printed path exactly when the session's name is one a path can carry
  (`PrintedPathParsesBack`).

## Model

| member | source | states |
|---|---|---|
| Render.JoinedNext | crates/embers-client/src/grid.rs:669-679 | the cell that forms one cluster with this one is the next lead, right behind its columns |
| Render.JoinedCells | crates/embers-client/src/grid.rs:659-668 | the loop collects the run of cells that each join the one before |
| RowReplay.JoinedLinks | crates/embers-client/src/grid.rs:659-679 | a run is maximal: only leads, each joined to the next, and the last joins nothing |
| RowReplay.RunLeads | crates/embers-client/src/grid.rs:511-537 | a run covers its columns: every lead up to its end is one of its parts |
| Render.JoinedEnds | crates/embers-client/src/grid.rs:517-526 | the end of a run is the end of its last cell |
| Render.RowWriter.WriteCell | crates/embers-client/src/grid.rs:624-633 | a cell appends its style transition, link and text, and the writer remembers the style and link set |
| Render.RowWriter.Finish | crates/embers-client/src/grid.rs:635-645 | the row's end closes an open link and resets a style |
| Render.AnsiLine | crates/embers-client/src/grid.rs:500-542 | the loop over a row emits the row's commands, joined runs right to left into erased columns |
| Style.ForHostShows | crates/embers-client/src/grid.rs:104-112 | the style a host is sent: every attribute as the cell has it, but the underline plain where the host has no underline styles and its color dropped where it has none; with both it is the cell's style |
| Text.WithoutControlsSieves | crates/embers-client/src/grid.rs:881-903 | a link target keeps exactly the characters that are no controls, in order |
| RowReplay.LinkIdSieves | crates/embers-client/src/grid.rs:881-903 | a link id keeps exactly those that are also no `:` and no `;` |
| Text.NarrowedSieves | crates/embers-client/src/grid.rs:692-731 | narrowed text keeps exactly the characters that do not ask for a wide form or join |
| Replay.DrawnIsFirst | crates/embers-client/src/grid.rs:692-720 | what is written is the first that measures no more than the cell's columns, and is no half of a flag in one: the text, the text narrowed, replacement characters |
| Replay.NarrowedRegional | crates/embers-client/src/grid.rs:692-731 | narrowing a text neither adds nor takes away a regional indicator |
| Replay.LimitFits | crates/embers-client/src/grid.rs:692-720 | whatever is written for odd text fits the cell's columns on every host that keeps to the text's measured width |
| Replay.StyleReplay | crates/embers-client/src/grid.rs:806-887 | interpreting a style transition leaves the host in exactly the style asked for, all attributes and colors |
| RowReplay.TextReplay | crates/embers-client/src/grid.rs:692-720 | a cell's text, trusted or odd, ends with the cursor behind the cell's columns and nothing spilled |
| RowReplay.LinkReplay | crates/embers-client/src/grid.rs:624-633 | the host's open link becomes the cell's own, or none |
| RowReplay.CellReplay | crates/embers-client/src/grid.rs:624-633 | one cell draws its picture into its own columns, in its style and link, and changes no column outside except a glyph it cuts |
| RowReplay.PartReplay | crates/embers-client/src/grid.rs:517-533 | a part of a run is written where nothing on its left is left to join, since the parts left of it are not written yet |
| RowReplay.NextClean | crates/embers-client/src/grid.rs:511-537 | behind a cell that joins nothing the next cell is not taken into it by the host |
| RowReplay.RowReplays | crates/embers-client/src/grid.rs:500-542 | row replay: for every well-formed row, capability set, previous line and host that covers the row's texts and swallows none of its cells, the row's columns show its picture, the cursor is behind it, the style is default and no link is open |
| RowReplay.CellInPicture | crates/embers-client/src/grid.rs:500-542 | in the picture every lead starts at its grid column with its text; its pen has the cell's colors and attributes, each by name, the underline plain and its color dropped only on a host without them, and its link without what would end the sequence; its other columns belong to it or are erased |
| Swallow.RowWrites | crates/embers-client/src/grid.rs:511-537 | wherever a row's commands go in between, a lead's text is written with the cursor back at its column, and nothing after it goes left |
| Swallow.RowFails | crates/embers-client/src/grid.rs:500-542 | the first cell whose neighbour the host takes in is never shown, whatever comes after |
| Swallow.RowReplaysIff | crates/embers-client/src/grid.rs:500-542 | for every host that covers the row's texts: the row is drawn right if and only if no cell swallows the next |
| Clustering.SeparateHostIsAdmissible | crates/embers-client/src/grid.rs:659-720 | a host that joins nothing meets the assumptions for every well-formed row |
| Clustering.ClusteringHostDraws | crates/embers-client/src/grid.rs:669-720 | the clustering host draws a row right, narrowed and replaced texts included, if and only if no lead clusters with an ASCII cell after it and drawing makes no cluster the texts do not make |
| Clustering.TrustedRowIsDrawn | crates/embers-client/src/grid.rs:669-679 | for a row of trusted text: if and only if no cell is followed by an ASCII cell it is one cluster with |
| Clustering.NumberRowFails | crates/embers-client/src/grid.rs:669-679 | the row of U+0600 and a digit is not drawn right on the clustering host |
| Clustering.NumberRowEnds | crates/embers-client/src/grid.rs:669-679 | it ends as one cell holding both, the next column as it was and the cursor a column short |
| Clustering.NumberTablesPrepend | crates/embers-client/src/grid.rs:669-679 | there are tables like Unicode's in which that pair is one cluster |
| Frame.FittingIsLongest | crates/embers-cli/src/interactive.rs:1523-1544 | the status keeps the longest prefix whose characters' widths fit |
| Frame.ComputeFitWidth | crates/embers-cli/src/interactive.rs:1523-1544 | the loop with its running width computes that prefix and its padding |
| Frame.FitWidthFills | crates/embers-cli/src/interactive.rs:1523-1544 | the padded text fills the row exactly when the prefix measures no wider than it |
| Frame.FrameBytes | crates/embers-cli/src/interactive.rs:1341-1392 | the frame's commands in order: home, rows with newlines and EL, status, ED, what panes send along, cursor and its shape |
| FrameReplay.RowsReplay | crates/embers-cli/src/interactive.rs:1341-1392 | after the rows, each screen row shows its grid row and nothing to its right |
| FrameReplay.CursorReplay | crates/embers-cli/src/interactive.rs:1394-1416 | the cursor ends on the last row of the screen, at the grid's cursor, or hidden, as the steady cursor of its shape, and no row changes |
| FrameReplay.StatusCursorIff | crates/embers-cli/src/interactive.rs:1394-1404 | the status cursor is on the status row if and only if that is the last row of the screen |
| FrameReplay.FrameReplays | crates/embers-cli/src/interactive.rs:1341-1416 | frame replay: whatever the screen showed, every row is drawn or erased, nothing wraps or scrolls, the cursor is in its place, the pen is put down and the screen is one the next frame can be drawn over |
| FrameReplay.FramesReplay | crates/embers-cli/src/interactive.rs:1341-1416 | over any sequence of frames the screen shows the last one, and none scrolled |
| FrameReplay.FrameScrollsIff | crates/embers-cli/src/interactive.rs:1341-1392 | exactly when a frame wraps and when it scrolls |
| FrameReplay.EmojiStatusDoesNotFit | crates/embers-cli/src/interactive.rs:1523-1544 | a status text that measures wider than the row it was cut to |
| FrameReplay.StatusShownIff | crates/embers-cli/src/interactive.rs:1368-1392 | after a frame, exactly when the screen's status row is whole |
| FrameReplay.LastColumnLost | crates/embers-cli/src/interactive.rs:1368-1392 | a screen and host on which a frame leaves the status row's last column blank |
| Rows.PutCellColumns | crates/embers-client/src/grid.rs:548-591 | a row after one cell is drawn, column by column |
| Rows.PutCellBlanksOnlyCutCells | crates/embers-client/src/grid.rs:548-563 | outside its columns an overwrite blanks exactly the wide groups it overlaps and leaves all else |
| Rows.PutCellKeepsWellFormed | crates/embers-client/src/grid.rs:548-591 | drawing a cell keeps rows well-formed |
| Rows.PutGraphemesKeepsWellFormed | crates/embers-client/src/grid.rs:241-270 | drawing text keeps rows well-formed |
| SnapshotLaws.TextPlaces | crates/embers-client/src/grid.rs:241-270 | text drawn: the most graphemes that fit, each at the sum of the widths before it; beside them only cut wide groups go blank |
| Rows.RestyleKeepsWellFormed | crates/embers-client/src/grid.rs:335-365 | restyling keeps continuations in their lead's style and link |
| Rows.RestyleWholeCells | crates/embers-client/src/grid.rs:335-365 | a cell is restyled exactly when its group has a column in the range; text, width and link stay |
| RenderGrids.RowChanged | crates/embers-client/src/grid.rs:593-596 | changing array cells of one row changes that row only |
| RenderGrids.RenderGrid.constructor | crates/embers-client/src/grid.rs:185-193 | a new grid has default cells and no cursor |
| RenderGrids.RenderGrid.Clear | crates/embers-client/src/grid.rs:195-198 | every cell becomes the fill and the cursor goes |
| RenderGrids.RenderGrid.SetCursor | crates/embers-client/src/grid.rs:212-215 | a cursor outside the grid is none |
| RenderGrids.RenderGrid.AnsiLinesFor | crates/embers-client/src/grid.rs:500-542 | one line of commands for each row |
| RenderGrids.RenderGrid.ClearOverlappingCells | crates/embers-client/src/grid.rs:548-563 | in place: the groups the columns overlap go blank, in that row only |
| RenderGrids.RenderGrid.SetCells | crates/embers-client/src/grid.rs:565-591 | in place: a lead and its continuations |
| RenderGrids.RenderGrid.PutStrLinked | crates/embers-client/src/grid.rs:241-270 | in place: graphemes while they fit, and the grid stays well-formed |
| RenderGrids.RenderGrid.RestyleRange | crates/embers-client/src/grid.rs:335-365 | in place: the range clamped to the grid and snapped outward to whole cells |
| RenderGrids.RenderGrid.DrawHLine | crates/embers-client/src/grid.rs:371-375 | in place: a character per column |
| RenderGrids.RenderGrid.DrawVLine | crates/embers-client/src/grid.rs:381-385 | in place: a character per row, and the grid stays well-formed |
| RenderGrids.RenderGrid.FillRect | crates/embers-client/src/grid.rs:387-398 | in place: a line for each row of the clipped rectangle |
| RenderGrids.RenderGrid.DrawBox | crates/embers-client/src/grid.rs:404-442 | in place: edges and corners of the clipped rectangle, and the grid stays well-formed |
| RenderGrids.ClipRect | crates/embers-client/src/grid.rs:444-465 | a clipped rectangle is non-empty and inside the grid |
| RenderGrids.ClipRectIs | crates/embers-client/src/grid.rs:444-465 | a cell is in the clipped rectangle if and only if it is in the rectangle and in the grid |
| Painting.HLineDraws | crates/embers-client/src/grid.rs:371-375 | a line of one-column characters is in its columns of its row; of all other cells only wide ones it cuts go blank |
| Painting.VLineDraws | crates/embers-client/src/grid.rs:381-385 | the same of a line down a column |
| Painting.FillDraws | crates/embers-client/src/grid.rs:387-398 | a filled rectangle holds the fill; beside it, in its own rows too, only cut wide cells go blank |
| Painting.BoxDraws | crates/embers-client/src/grid.rs:404-442 | a box has its corners, edges and sides where they belong, and inside and outside only cut wide cells go blank |
| SnapshotDraw.RunIndexContains | crates/embers-client/src/grid.rs:733-759 | the run at a byte offset is the one whose byte range holds it, empty runs skipped |
| SnapshotDraw.RunIndexUnique | crates/embers-client/src/grid.rs:733-759 | no other run does |
| SnapshotDraw.RunCursor.RunAt | crates/embers-client/src/grid.rs:750-759 | on offsets that do not go back the cursor gives the same run as a lookup from the start |
| SnapshotDraw.LinkForIsNth | crates/embers-client/src/grid.rs:307-309 | a run's link number counts the line's links from one; 0 and numbers past them are no link |
| SnapshotDraw.PutSnapshotLine | crates/embers-client/src/grid.rs:282-326 | in place: the row is redrawn with the line, other rows stay and the grid stays well-formed |
| SnapshotLaws.SpacesOver | crates/embers-client/src/grid.rs:303-313 | a hidden cell is as many blank cells as its width, up to the grid's edge |
| SnapshotLaws.DrawCellsPlaces | crates/embers-client/src/grid.rs:293-318 | the cells drawn are the longest prefix within the budget, each at the sum of the widths before it |
| SnapshotLaws.DrawLinePlaces | crates/embers-client/src/grid.rs:282-326 | snapshot drawing: all cells of a line that fits, else the most that leave a column for the one marker behind them, each in its column with its run's style and link; outside the drawn columns only cut wide groups go blank |
| PtySizes.PtySizeSync.NoteUserActivity | crates/embers-client/src/pty_sizes.rs:56-58 | user input makes the next sync reclaim |
| PtySizes.PtySizeSync.ResizeFailed | crates/embers-client/src/pty_sizes.rs:60-66 | a planned request becomes a failed one |
| PtySizes.PtySizeSync.Plan | crates/embers-client/src/pty_sizes.rs:70-95 | buffers the server lacks are forgotten, then the targets are planned |
| PtySizes.PtySizeSync.PlanAll | crates/embers-client/src/pty_sizes.rs:97-137 | the loop over targets: which are requested and the state it leaves |
| PtySizes.MatchesServerIff | crates/embers-client/src/pty_sizes.rs:139-149 | the server has the size if and only if the cells agree and, where its size has a whole pixel per cell both ways, the pixels do |
| PtySizes.WithCellReadsBack | crates/embers-core/src/geometry.rs:21-56 | a size given a cell size keeps its cells and tells that cell size again, as far as pixel counts reach; without one its pixels are unknown |
| PtySizes.TargetsAreResizable | crates/embers-client/src/pty_sizes.rs:80-93 | a target for each drawn leaf of a running PTY with room, in the order of the leaves, and no other |
| PtySizes.PlanFor | crates/embers-client/src/pty_sizes.rs:97-137 | over distinct targets each is planned as if alone; what is asked for its buffer is its wanted size once, or nothing |
| PtySizes.PlanElsewhere | crates/embers-client/src/pty_sizes.rs:97-137 | a buffer that is not drawn is not requested and keeps what was wanted and failed |
| PtyRuns.RunsAreConsistent | crates/embers-client/src/pty_sizes.rs:20-53 | over every run, failed and planned buffers are disjoint and wanted |
| PtyRuns.RequestIsPlanned | crates/embers-client/src/pty_sizes.rs:102-137 | a sync records exactly what it asks for, at its time and for the size the server had |
| PtyRuns.FailureStartsBackoff | crates/embers-client/src/pty_sizes.rs:60-66 | a failed request freezes the wanted size |
| PtyRuns.BackoffHolds | crates/embers-client/src/pty_sizes.rs:102-137 | however many events come before the retry is due, nothing is requested for the buffer and its wanted size stays |
| PtyRuns.DueRetry | crates/embers-client/src/pty_sizes.rs:102-137 | the first due sync that draws the buffer asks for its newest wanted size, unless the server has its columns, its rows and, where it knows pixels, its pixels |
| PtyRuns.StateIsHistory | crates/embers-client/src/pty_sizes.rs:20-53 | without failures a client's state is a function of the events it saw |
| PtyRuns.RequestIff | crates/embers-client/src/pty_sizes.rs:102-137 | exactly when a sync asks for a size, and which one, told from the events alone; after input, whenever the columns or rows differ, or the pixels where the server knows them |
| PtyRuns.NoSizeWar | crates/embers-client/src/pty_sizes.rs:13-18 | over any failure-free interleaving of any clients, with stale sizes too, requests number at most first draws, changes of a client's own size and syncs after input |
| PtyRuns.ReclaimTakesEffect | crates/embers-client/src/pty_sizes.rs:13-18 | with fresh sizes, after a sync that follows input the buffer has the columns and rows that client wants, and its pixels where the server knows pixels |
| PtyRuns.SizeStays | crates/embers-client/src/pty_sizes.rs:13-18 | without a further cause nobody resizes the buffer |
| PtyRuns.LastActiveClientWins | crates/embers-client/src/pty_sizes.rs:13-18 | the last active client gets those columns, rows and pixels, and they stay until another such cause |
| CopyText.CellIndex | crates/embers-client/src/copy_mode.rs:404-416 | the first cell that ends past the column, or the number of cells |
| CopyText.ClassesAre | crates/embers-client/src/copy_mode.rs:418-429 | a WORD is anything but blanks; a word is letters, digits, underscores and what is not ASCII, other visible ASCII being separators |
| CopyText.CellsAre | crates/embers-client/src/copy_mode.rs:371-402 | a line's cells are its clusters, each at the end of the one before |
| CopyText.PastEndIsLast | crates/embers-client/src/copy_mode.rs:505-511 | a position past the end of a line shows as its last cell |
| CopyText.PointPosition | crates/embers-client/src/copy_mode.rs:404-511 | the point of a position leads back to it |
| CopyText.PreviousOfNext | crates/embers-client/src/copy_mode.rs:514-586 | the stop before the next stop of a stop is that stop |
| CopyText.NextOfPrevious | crates/embers-client/src/copy_mode.rs:514-586 | and the other way round |
| CopyText.WordThereAndBack | crates/embers-client/src/copy_mode.rs:514-586 | `w` then `b` from a stop with a later one returns to it, through points on the screen |
| Walkers.Walker.Forward | crates/embers-client/src/copy_mode.rs:477-488 | one position on in the order of lines and cells; false only at the end |
| Walkers.Walker.Backward | crates/embers-client/src/copy_mode.rs:490-503 | one position back; false only at the start |
| Walkers.NextWordStart | crates/embers-client/src/copy_mode.rs:514-539 | the least stop after the cursor, or the last character when there is none |
| Walkers.NextWordEnd | crates/embers-client/src/copy_mode.rs:541-561 | the least word end after the cursor, or the last character |
| Walkers.PreviousWordStart | crates/embers-client/src/copy_mode.rs:563-586 | the greatest stop before the cursor, or the start of the buffer |
| Walkers.NextParagraph | crates/embers-client/src/copy_mode.rs:612-631 | the least blank line below that follows text, or the last character |
| Walkers.PreviousParagraph | crates/embers-client/src/copy_mode.rs:596-610 | the greatest blank line above that text follows, or the first line |
| Walkers.BlankLineIs | crates/embers-client/src/copy_mode.rs:588-592 | a line is blank if and only if all its characters are whitespace |
| CopyMode.RevealIsClosest | crates/embers-client/src/copy_mode.rs:153-173 | of the scroll positions inside the history that show the line, the one nearest to the old |
| CopyMode.ScreenLines | crates/embers-client/src/copy_mode.rs:185-283 | `H`, `M` and `L` do not scroll |
| CopyMode.ApplyMotion | crates/embers-client/src/copy_mode.rs:185-283 | a motion keeps the cursor in the buffer and in view and the view in the history. Up and down change the line by one, left and right the column, up to the edges; line, view and buffer motions reach the first, middle or last line they name; pages move cursor and view together; word, paragraph, indentation and end-of-line motions reach the place their specification names. Other than pages scroll no further than the cursor needs |
| CopyMode.ScrollMoves | crates/embers-client/src/copy_mode.rs:185-294 | where the motions that read no text go, and how pages scroll |
| CopyMode.ThereAndBack | crates/embers-client/src/copy_mode.rs:185-213 | up then down, or left then right, and the other way round, returns unless the first was held by an edge |
| CopyMode.PlacesStay | crates/embers-client/src/copy_mode.rs:96-128 | the motions a count does not repeat would not move again |
| CopyMode.RepeatMotion | crates/embers-client/src/configured_client.rs:4965-4985 | a counted motion is as many of those moves in a row, at least one, and only one of a motion to a place; it stops early only where the next would change nothing. Up and down go as many lines |
| CopyMode.RunMotions | crates/embers-client/src/copy_mode.rs:185-283 | and so does any sequence of them |
| Layout.FindWindow | crates/embers-cli/src/lib.rs:3312-3333 | the climb to the root's child, with its errors |
| Layout.FindRootTab | crates/embers-client/src/format.rs:292-301 | the climb to the first node a root tab shows |
| Layout.ActivatePath | crates/embers-cli/src/formats.rs:50-68 | the upward loop that activates tabs, in a copy of the snapshot |
| LayoutLaws.VisibleOk | crates/embers-cli/src/lib.rs:3843-3869 | the descent succeeds from every node of a well-formed snapshot |
| LayoutLaws.VisibleIs | crates/embers-cli/src/lib.rs:3843-3869 | a pane shows itself, a split the panes of all its children in their order, tabs those of the active one |
| LayoutLaws.VisibleIsUnder | crates/embers-cli/src/lib.rs:3843-3869 | every pane it finds is below the node |
| LayoutLaws.ClimbsAgree | crates/embers-cli/src/lib.rs:3312-3333 | from anywhere below a root tab both climbs end at that tab |
| LayoutLaws.DescendThenClimb | crates/embers-cli/src/lib.rs:3312-3333 | a pane visible under root tab i is mapped back to i and its child, by both climbs |
| LayoutLaws.WindowIsAbove | crates/embers-cli/src/lib.rs:3312-3333 | what `window_containing` answers is a root tab above the node |
| LayoutLaws.WindowErrors | crates/embers-cli/src/lib.rs:3312-3333 | the errors: not found for a root or node the snapshot lacks, malformed for a root without tabs |
| LayoutLaws.ActivateChangesOnlyAncestors | crates/embers-cli/src/formats.rs:50-68 | the tree stays well-formed and only tabs nodes above the pane switch, each to the child on the way |
| LayoutLaws.ActivateShows | crates/embers-cli/src/formats.rs:50-68 | after the climb every node above shows the pane |
| LayoutLaws.ActivationReachesPane | crates/embers-cli/src/formats.rs:50-68 | descending from the session root reaches the pane, and its window is the root's active tab |
| Decimal.DigitsRoundTrip | crates/embers-cli/src/target.rs:172-178 | a printed number is digits that read as it |
| Decimal.PrintedNumber | crates/embers-cli/src/target.rs:172-178 | ids and indices in range parse back |
| Format.ExpandFormat | crates/embers-client/src/format.rs:209-251 | the loop expands `##`, `#{name}`, short aliases and stray `#` |
| Format.ExpandEscaped | crates/embers-client/src/format.rs:209-251 | doubling every `#` and expanding is the identity |
| Format.ExpandVariable | crates/embers-client/src/format.rs:152-251 | a variable expands to its value, whatever follows |
| Format.ShortForms | crates/embers-client/src/format.rs:209-263 | `#S`, `#I`, `#W`, `#D` and `#T` are the session, window number and name, pane id and title; any other letter stays as it is |
| Format.ExpandUnclosed | crates/embers-client/src/format.rs:209-251 | a brace that is never closed, and a last `#`, stay as they are |
| Format.WindowVariables | crates/embers-client/src/format.rs:152-207 | the values of session and window variables |
| Format.PaneVariables | crates/embers-client/src/format.rs:152-207 | the values of pane variables |
| Format.PaneNumbers | crates/embers-client/src/format.rs:152-207 | the numbers of panes, nothing for one a pane lacks |
| Format.DeadStatus | crates/embers-client/src/format.rs:152-207 | the exit status of a dead pane, a sign and digits |
| Format.OtherVariables | crates/embers-client/src/format.rs:152-207 | user options are found behind `@`, unknown names expand to nothing |
| Target.PaneIdParsesBack | crates/embers-cli/src/target.rs:97-157 | an expanded `#{pane_id}` is a target for that pane's buffer |
| Target.WindowIdParsesBack | crates/embers-cli/src/target.rs:97-157 | an expanded `#{window_id}` is a target for that window |
| Target.SessionIdParsesBack | crates/embers-cli/src/target.rs:97-157 | an expanded `#{session_id}` is a path to that session |
| Target.PrintedPaneSplits | crates/embers-cli/src/target.rs:180-191 | the dot before a printed pane index is where the pane is split off |
| Target.PrintedPathParsesBack | crates/embers-cli/src/target.rs:97-250 | a printed path is its session, number and index again if and only if the name can be carried |
| Target.DefaultFormatParsesBack | crates/embers-cli/src/lib.rs:52 | so is the expansion of the default pane format |
| Target.PrintedWindowResolves | crates/embers-cli/src/target.rs:591-673 | the printed number resolves to the same position if and only if a base index is set or the position is 0 |
| Target.PrintedTargetResolves | crates/embers-cli/src/target.rs:591-673 | the default format of a pane of a window parses to its session and pane, and to a window that resolves to the same position if and only if a base index is set or it is the first |
| Target.NumberedWindowIs | crates/embers-cli/src/target.rs:640-668 | a number as a window: from the base index, or without one 0 and the count only, every number between being refused |
| Target.NeighboursAreCounted | crates/embers-cli/src/target.rs:602-625 | `+n` and `-n` count windows one by one from the current one and wrap |
| Target.NeighboursReturn | crates/embers-cli/src/target.rs:602-625 | as many back as on returns |
| Target.PlacesAre | crates/embers-cli/src/target.rs:614-630 | the first, last, current and numbered window |
| Target.ExactWindowIs | crates/embers-cli/src/target.rs:631-648 | an exact title is the one window that has it, with different errors for none and several |
| Target.NamedWindowIs | crates/embers-cli/src/target.rs:649-676 | a name is the one window with that title, or, when none has it, the one whose title starts with it |
| TargetPaths.PathParsesBack | crates/embers-cli/src/target.rs:97-250 | any path written out, of a session, window and pane by number, name or place, is read as that path |
| TargetPaths.PaneMayBeLeftOut | crates/embers-cli/src/target.rs:180-191 | a window's name may have dots: the pane is split off only where one could follow the last of them |
| TargetPaths.WindowWords | crates/embers-cli/src/target.rs:208-235 | the words and bare signs for windows are the same windows |
| TargetPaths.PaneWords | crates/embers-cli/src/target.rs:237-250 | `@` and `{active}` are the current pane |
| TargetPaths.BareTargets | crates/embers-cli/src/target.rs:97-157 | what a target without a colon is read as, by kind |
| Transport.SocketTransport.NoteEvent | crates/embers-client/src/socket_transport.rs:44-51 | a shutdown event sets the flag, nothing clears it |
| Transport.SocketTransport.Request | crates/embers-client/src/socket_transport.rs:72-111 | which response is answered, refused or missed, what is read and queued, and exactly which events are lost |
| Transport.SocketTransport.ReadFinalEvents | crates/embers-client/src/socket_transport.rs:53-68 | the events that had come before the connection closed are queued |
| Transport.SocketTransport.NextEvent | crates/embers-client/src/socket_transport.rs:113-122 | the oldest queued event, or the next on the wire |
| Transport.SocketTransport.ReadyEvent | crates/embers-client/src/socket_transport.rs:124-140 | the same, only with what has arrived |
| Transport.SocketTransport.ExactlyOnce | crates/embers-client/src/socket_transport.rs:72-140 | with none lost, delivered, queued and unread events are what the server sent, in order, and the flag is set if and only if a shutdown was read |
| Transport.LosesEvent | crates/embers-client/src/socket_transport.rs:83-109 | one event, then a broken connection: the event is lost |
| HostReplies.ParseReplies | crates/embers-client/src/host_terminal.rs:145-204 | the loop over any bytes, broken sequences included |
| HostReplies.ParseControl | crates/embers-client/src/host_terminal.rs:145-190 | a complete sequence in front is taken whole |
| HostReplies.ParseIsUnion | crates/embers-client/src/host_terminal.rs:145-204 | parsing complete sequences together is the union of parsing each alone |
| HostReplies.TermcapNamesReadBack | crates/embers-client/src/host_terminal.rs:223-231 | names encoded in hex of either case, with or without values, are read back |
| ReplyLaws.SaidIsReported | crates/embers-client/src/host_terminal.rs:145-204 | over any whole replies: the capabilities present are exactly those a readable reply lists as present, answered those and the absent ones, the version the last one sent |
| ReplyLaws.GarbledIff | crates/embers-client/src/host_terminal.rs:219-231 | a list of names is refused if and only if one of them cannot be read |
| ReplyLaws.HexDecodeIff | crates/embers-client/src/host_terminal.rs:464-471 | hex is read if and only if it is pairs of digits, a plus sign passing for the first of a pair |
| ReplyLaws.GraphicsReplyIff | crates/embers-client/src/host_terminal.rs:206-221 | a control string answers the graphics query if and only if the query's id is among its pairs |
| PendingQueries.PendingAttachQueries.constructor | crates/embers-client/src/host_terminal.rs:274-289 | nothing is outstanding after DA1, otherwise all that was not answered |
| PendingQueries.PendingAttachQueries.TakeReply | crates/embers-client/src/host_terminal.rs:299-347 | in place: what is claimed and what stays outstanding |
| PendingQueries.AfterIsRest | crates/embers-client/src/host_terminal.rs:274-289 | as sets of queries: the attach queries less those answered |
| PendingQueries.ClaimedIff | crates/embers-client/src/host_terminal.rs:299-347 | a whole reply in time is claimed if and only if every query it answers is outstanding, and takes those off, DA1 all |
| PendingQueries.ClaimShrinks | crates/embers-client/src/host_terminal.rs:299-347 | any bytes at any time: a claim shrinks what is outstanding, nothing grows it, nothing is claimed at the deadline or later |
| PendingQueries.AtMostFiveClaims | crates/embers-client/src/host_terminal.rs:250-347 | over any run after attaching at most five claims |
| PendingQueries.NothingIsClaimed | crates/embers-client/src/host_terminal.rs:299-347 | with nothing outstanding no run claims anything |
| PendingQueries.RepliesAreAttributed | crates/embers-client/src/host_terminal.rs:145-347 | cut in-order answers at any reply: each later one is claimed before the deadline, and nothing after DA1 |
| PendingQueries.FullAnswersAreInOrder | crates/embers-client/src/host_terminal.rs:115-116 | a host that answers every query does so in order, whatever its version and attributes, with the capabilities present or absent, in one reply or two and in either order |
| Utf8.EncodedChars | crates/embers-client/src/command_prompt.rs:472-477 | text is the encoding of its characters |
| Utf8.CharsOfEncoded | crates/embers-client/src/command_prompt.rs:472-477 | and encoded characters are read back |
| Utf8.SpliceIsReplace | crates/embers-client/src/command_prompt.rs:362-435 | replacing bytes between boundaries is replacing the characters between them |
| Prompt.CommandPrompt.ByteIndex | crates/embers-client/src/command_prompt.rs:472-477 | the byte where a character starts, always a character boundary |
| Prompt.CommandPrompt.Insert | crates/embers-client/src/command_prompt.rs:362-371 | the byte edit is the character edit; controls become spaces |
| Prompt.CommandPrompt.Backspace | crates/embers-client/src/command_prompt.rs:373-381 | the byte edit is the character edit |
| Prompt.CommandPrompt.Delete | crates/embers-client/src/command_prompt.rs:383-390 | the byte edit is the character edit |
| Prompt.CommandPrompt.KillToStart | crates/embers-client/src/command_prompt.rs:409-413 | the byte edit is the character edit |
| Prompt.CommandPrompt.KillToEnd | crates/embers-client/src/command_prompt.rs:416-419 | the byte edit is the character edit |
| Prompt.CommandPrompt.DeleteWord | crates/embers-client/src/command_prompt.rs:422-435 | from the last start of a non-blank run before the cursor |
| Prompt.CommandPrompt.HistoryUp | crates/embers-client/src/command_prompt.rs:438-450 | the previous entry, the line kept as the draft at the first step |
| Prompt.CommandPrompt.HistoryDown | crates/embers-client/src/command_prompt.rs:453-465 | the next entry, or the draft past the newest |
| Prompt.CommandPrompt.NextWordStart | crates/embers-client/src/command_prompt.rs:281-296 | the first word start after the cursor, or the end |
| Prompt.CommandPrompt.PreviousWordStart | crates/embers-client/src/command_prompt.rs:299-313 | the last word start before the cursor, or 0 |
| Prompt.CommandPrompt.NextWordEnd | crates/embers-client/src/command_prompt.rs:316-326 | the first word end after the cursor, or the last character |
| Prompt.CommandPrompt.WordEndFrom | crates/embers-client/src/command_prompt.rs:329-340 | the last character of the word |
| Prompt.CommandPrompt.ViCommand | crates/embers-client/src/command_prompt.rs:206-244 | each command key on bytes is the command on characters |
| Prompt.CommandPrompt.ViOperator | crates/embers-client/src/command_prompt.rs:249-265 | `dw` and `cw` cut the characters up to their motion's end |
| Prompt.CommandPrompt.ViKey | crates/embers-client/src/command_prompt.rs:156-197 | the vi table on bytes is the table on characters |
| Prompt.RecordHistory | crates/embers-client/src/command_prompt.rs:481-489 | the newest hundred lines, unless the line is blank or repeats the newest |
| Prompt.HistoryStaysTidy | crates/embers-client/src/command_prompt.rs:481-489 | over any session: at most a hundred lines, none blank, none twice in a row, the last line typed is the newest |
| Prompt.HistoryIsNewest | crates/embers-client/src/command_prompt.rs:481-489 | over any session: the history is the newest hundred of the lines that were not blank and no repeats |
| Editors.NextStart | crates/embers-client/src/command_prompt.rs:281-296 | the first word start from a position, none before it |
| Editors.PreviousStart | crates/embers-client/src/command_prompt.rs:299-313 | the last word start before a position |
| Editors.BackAfterWord | crates/embers-client/src/command_prompt.rs:281-313 | `b` undoes `w` from a word start with a later one |
| Editors.ViKeyKeeps | crates/embers-client/src/command_prompt.rs:151-197 | after a character key left in normal mode the cursor is on a character or at 0; a key not taken changes nothing but the pending operator |
| Editors.PromptKeys | crates/embers-client/src/configured_client.rs:4104-4136 | under any keys the cursor never passes the end and the history entry shown exists |
| Editors.NormalStaysOnCharacter | crates/embers-client/src/command_prompt.rs:268-274 | whatever was typed before, a character key left in normal mode leaves the cursor on a character or at 0 |
| Editors.BackspacesUndoInsert | crates/embers-client/src/command_prompt.rs:362-381 | as many backspaces as typed characters restore line and cursor |
| Editors.DeleteWordForward | crates/embers-client/src/command_prompt.rs:249-265 | `dw` at a word start takes off that word and its blanks and nothing else |
| Editors.ChangeWordCuts | crates/embers-client/src/command_prompt.rs:249-265 | `cw` on a word cuts to its end and inserts, on blanks it cuts what `dw` does; any other motion cuts nothing |
| Editors.DeleteWordTakesOne | crates/embers-client/src/command_prompt.rs:422-435 | deleting a word back takes one run of non-blanks and the blanks behind it |
| Editors.DeleteIsBackspaceAfter | crates/embers-client/src/command_prompt.rs:383-390 | delete is a backspace one character on |
| Editors.KillToStartIsBackspaces | crates/embers-client/src/command_prompt.rs:409-413 | killing to the start is as many backspaces as there are characters |
| Editors.KillToEndIsDeletes | crates/embers-client/src/command_prompt.rs:416-419 | killing to the end is as many deletes |
| Editors.HomeIsLefts | crates/embers-client/src/command_prompt.rs:393-406 | home is as many steps left |
| Editors.EndIsRights | crates/embers-client/src/command_prompt.rs:393-406 | end is as many steps right |
| Editors.TypingKeysAre | crates/embers-client/src/configured_client.rs:4104-4136 | a typed character is at the cursor; backspace, or left and delete, takes it off |
| Editors.ControlsAreSpaces | crates/embers-client/src/configured_client.rs:4104-4136 | a pasted control character is a space |
| Editors.MovingKeysAre | crates/embers-client/src/configured_client.rs:4104-4136 | the arrow, home, end, enter and escape keys, in steps |
| Editors.ControlKeysAre | crates/embers-client/src/configured_client.rs:4104-4136 | each control key is the key it stands for, or kills |
| Editors.ViMovesAre | crates/embers-client/src/command_prompt.rs:206-244 | `h`, `l`, `0` and `$` in steps |
| Editors.ViWordsAre | crates/embers-client/src/command_prompt.rs:206-244 | `w`, `b` and `e` by where words start and end |
| Editors.ViEditsAre | crates/embers-client/src/command_prompt.rs:206-244 | the edits and modes of the vi table; other keys do nothing |
| Editors.ViInsertsAre | crates/embers-client/src/command_prompt.rs:206-244 | `C`, `a`, `A` and `I` are `D`, `l`, `$` and `0`, then `i` |
| Editors.EscapeEndsTyping | crates/embers-client/src/command_prompt.rs:160-168 | escape from typing goes to normal mode one character left, and no other key is taken |
| Editors.CommandKeyIs | crates/embers-client/src/command_prompt.rs:169-175 | a command key is its command with the cursor put back onto the last character |
| Editors.OtherKeysAre | crates/embers-client/src/command_prompt.rs:176-196 | which other keys normal mode leaves to the prompt |
| Editors.UpsShow | crates/embers-client/src/command_prompt.rs:438-450 | n steps back show the nth newest entry or the oldest |
| Editors.DraftComesBack | crates/embers-client/src/command_prompt.rs:438-465 | going back any number of entries and forward past the newest restores the line typed |
| Hints.AssignLabels | crates/embers-client/src/hints.rs:52-73 | as many labels as matches, up to 27 times 27, one letter while they suffice |
| Hints.LabelsArePrefixFree | crates/embers-client/src/hints.rs:50-73 | labels are distinct and none starts another |
| Hints.SortedIsOrdered | crates/embers-client/src/hints.rs:91-92 | ranges are sorted by start, then longest first |
| Hints.KeepRanges | crates/embers-client/src/hints.rs:93-99 | the loop that skips a range starting inside the last kept one |
| Hints.KeptChooses | crates/embers-client/src/hints.rs:91-99 | kept matches are found ones and pairwise disjoint, and every dropped one starts inside a kept one that starts earlier, or with it and is no shorter |
| Hints.Scan | crates/embers-client/src/hints.rs:80-131 | the scan's nested loops give the labelled spans |
| Hints.SpanIsMatch | crates/embers-client/src/hints.rs:80-111 | every span shows a kept match of a visible line: its text, columns and line number |
| Hints.MatchIsShown | crates/embers-client/src/hints.rs:80-111 | every kept match is shown, in the order of lines and matches |
| Hints.HintsArePicked | crates/embers-client/src/hints.rs:112-131 | as many hints as labels reach, on the last spans, told apart by their labels, the last with the first label |

## Left out

- Escapes are data, not bytes: the host model starts from parsed commands, so control characters inside a cell's text
  (`replace_controls`) and the byte syntax of the escapes are not part of it.
- The host of the replay theorems covers trusted text as Unicode measures it and odd text in at most its measured width
  (two columns for a lone regional indicator), as `Replay.Covers` says. The status line is one glyph on the screen, as wide
  as it measures.
- Grids 65535 columns wide and lines wider than a u16, where saturating sums stop being exact, are excluded by
  preconditions.
- `style_for_run` and the colors of a run: a run carries the style it maps to. `lines`, `render` and `cell_style` of the
  grid only read it.
- FrameBytes: what a pane sends along after a frame is commands of the model, not arbitrary bytes; the frame theorems are
  about frames without any.
- The plan of the targets of a PTY sync draws each buffer once; the server grants every request, so a buffer has the last
  size anyone asked for.
- `jump`, `next_match_index`, `word_bounds`, `ClickTracker` and the pending count of copy mode: one-line searches and
  counters.
- Snapshots with cycles: the climbs are proved to end for snapshots whose links can be ranked. Pane geometry after
  `project` is not part of this model, nor are the lookups that need a server.
- User options and extra variables of a format are looked up in maps; where their values come from is not modelled.
- Concurrent callers of the transport: the order claim is for one sequential caller. Timeouts are an arbitrary number
  of events that arrive in time.
- The version reply is kept as bytes: decoding that replaces malformed UTF-8 is not modelled. `detect_host_capabilities`
  and `ends_with_device_attributes` are left out.
- The prompt's label, template and shell quoting, and the key decoder before it; a pasted key event carries text.
- Regular expressions: what the patterns find in a line is an input of `Hints.Scan`, as positions in characters.
- Sockets, the async runtime, threads, termios, signals and process spawning.
