/** What drawing a snapshot line means for a row: each cell in its column with its run's style, the
    longest prefix that fits, and a marker when the line is too wide. */
module SnapshotLaws {
  import opened Text
  import opened Style
  import opened Cells
  import opened Rows
  import opened SnapshotDraw

  /** `after` is `before` with the columns [c, e) redrawn: outside them, only the wide cells they cut
      went blank. */
  ghost predicate Over(before: Row, after: Row, c: nat, e: nat) {
    && |after| == |before| && c < e <= |before|
    && (forall i :: 0 <= i < c ==> after[i] == if GroupStart(before, c) <= i then DEFAULT_CELL else before[i])
    && (forall i :: e <= i < |before| ==> after[i] == if i < GroupEnd(before, e) then DEFAULT_CELL else before[i])
    && !after[c].continuation && (e < |before| ==> !after[e].continuation)
  }

  lemma PutCellOver(row: Row, x: nat, text: string, style: CellStyle, width: nat, link: Option<Hyperlink>)
    requires width >= 1 && x + width <= |row|
    ensures Over(row, PutCell(row, x, text, style, width, link), x, x + width)
  {
    PutCellColumns(row, x, text, style, width, link);
  }

  lemma OverOver(a: Row, b: Row, d: Row, c: nat, e: nat, f: nat)
    requires Over(a, b, c, e) && Over(b, d, e, f)
    ensures Over(a, d, c, f)
    ensures forall i :: c <= i < e ==> d[i] == b[i]
  {
    assert GroupStart(b, e) == e;
    forall i | f <= i < |a|
      ensures d[i] == if i < GroupEnd(a, f) then DEFAULT_CELL else a[i]
    {
      if f < GroupEnd(a, e) {
        SameGroupEnd(a, e, f);
        assert b[f] == DEFAULT_CELL;
        assert GroupEnd(b, f) == f;
      } else {
        SuffixGroupEnd(a, b, f);
      }
    }
    if f < |a| { assert !d[f].continuation; }
  }

  lemma {:induction false} SameGroupEnd(row: Row, e: nat, f: nat)
    requires e <= |row| && e <= f < GroupEnd(row, e)
    ensures GroupEnd(row, f) == GroupEnd(row, e)
  {
    var g, h := GroupEnd(row, e), GroupEnd(row, f);
    var _ := h < |row| && row[h].continuation;
    var _ := g < |row| && row[g].continuation;
  }

  lemma {:induction false} SuffixGroupEnd(a: Row, b: Row, f: nat)
    requires f <= |a| == |b| && forall i :: f <= i < |a| ==> a[i] == b[i]
    ensures GroupEnd(a, f) == GroupEnd(b, f)
    decreases |a| - f
  {
    if f < |a| && a[f].continuation { SuffixGroupEnd(a, b, f + 1); }
  }

  function Widths(u: Unicode, graphemes: seq<string>): nat {
    if graphemes == [] then 0 else u.GraphemeWidth(graphemes[0]) + Widths(u, graphemes[1..])
  }

  /** The `j`th grapheme is in its columns, behind those before it. */
  ghost predicate GraphemePlaced(u: Unicode, row: Row, x: nat, graphemes: seq<string>, j: nat, style: CellStyle,
                                 link: Option<Hyperlink>)
    requires j < |graphemes|
  {
    var c := x + Widths(u, graphemes[..j]);
    c + u.GraphemeWidth(graphemes[j]) <= |row|
    && forall i :: c <= i < c + u.GraphemeWidth(graphemes[j]) ==>
         row[i] == Cell(if i == c then graphemes[j] else "", style, i > c, link)
  }

  /** Text drawn from `x` on: the `n` graphemes that fit, side by side, and no more. */
  lemma {:induction false} TextPlaces(u: Unicode, row: Row, x: nat, graphemes: seq<string>, style: CellStyle,
                                      link: Option<Hyperlink>) returns (n: nat)
    requires |row| < U16_MAX && x <= |row|
    ensures n <= |graphemes| && (n < |graphemes| ==> x + Widths(u, graphemes[..n + 1]) > |row|)
    ensures (var r := PutGraphemes(u, row, x, graphemes, style, link);
             && (if n == 0 then r == row else Over(row, r, x, x + Widths(u, graphemes[..n])))
             && forall j :: 0 <= j < n ==> GraphemePlaced(u, r, x, graphemes, j, style, link))
    decreases |graphemes|
  {
    hide PutCell, Over, PutGraphemes, GraphemePlaced, Widths, Unicode.GraphemeWidth;
    FirstGrapheme(u, row, x, graphemes, style, link);
    n := 0;
    if graphemes != [] && x + u.GraphemeWidth(graphemes[0]) <= |row| {
      var w, rest := u.GraphemeWidth(graphemes[0]), graphemes[1..];
      var first := PutCell(row, x, graphemes[0], style, w, link);
      PutCellOver(row, x, graphemes[0], style, w, link);
      var m := TextPlaces(u, first, x + w, rest, style, link);
      var r := PutGraphemes(u, row, x, graphemes, style, link);
      FirstWidths(u, graphemes, m);
      if m < |rest| { FirstWidths(u, graphemes, m + 1); }
      n := m + 1;
      if m > 0 { OverOver(row, first, r, x, x + w, x + w + Widths(u, rest[..m])); }
      FirstPlaced(u, row, r, x, graphemes, style, link);
      forall j | 0 < j < n
        ensures GraphemePlaced(u, r, x, graphemes, j, style, link)
      {
        FirstWidths(u, graphemes, j - 1);
        LaterPlaced(u, r, x, graphemes, j, style, link);
      }
    }
  }

  /** What drawing the first grapheme, if it fits, leaves to draw. */
  lemma FirstGrapheme(u: Unicode, row: Row, x: nat, graphemes: seq<string>, style: CellStyle, link: Option<Hyperlink>)
    requires |row| < U16_MAX && x <= |row|
    ensures Widths(u, graphemes[..0]) == 0
    ensures graphemes != [] ==> Widths(u, graphemes[..1]) == u.GraphemeWidth(graphemes[0])
    ensures (var r := PutGraphemes(u, row, x, graphemes, style, link);
             if graphemes != [] && x + u.GraphemeWidth(graphemes[0]) <= |row|
             then var w := u.GraphemeWidth(graphemes[0]);
                  var first := PutCell(row, x, graphemes[0], style, w, link);
                  r == PutGraphemes(u, first, x + w, graphemes[1..], style, link)
             else r == row)
  {
    hide PutCell;
    if graphemes != [] { assert graphemes[..1][1..] == []; }
  }

  lemma FirstPlaced(u: Unicode, row: Row, r: Row, x: nat, graphemes: seq<string>, style: CellStyle,
                    link: Option<Hyperlink>)
    requires graphemes != [] && x + u.GraphemeWidth(graphemes[0]) <= |row| == |r|
    requires (var w := u.GraphemeWidth(graphemes[0]);
              var first := PutCell(row, x, graphemes[0], style, w, link);
              forall i :: x <= i < x + w ==> r[i] == first[i])
    ensures GraphemePlaced(u, r, x, graphemes, 0, style, link)
  {
    hide PutCell, Unicode.GraphemeWidth;
    PutCellColumns(row, x, graphemes[0], style, u.GraphemeWidth(graphemes[0]), link);
    assert Widths(u, graphemes[..0]) == 0;
  }

  lemma LaterPlaced(u: Unicode, r: Row, x: nat, graphemes: seq<string>, j: nat, style: CellStyle,
                    link: Option<Hyperlink>)
    requires 0 < j < |graphemes|
    requires Widths(u, graphemes[..j]) == u.GraphemeWidth(graphemes[0]) + Widths(u, graphemes[1..][..j - 1])
    requires GraphemePlaced(u, r, x + u.GraphemeWidth(graphemes[0]), graphemes[1..], j - 1, style, link)
    ensures GraphemePlaced(u, r, x, graphemes, j, style, link)
  {
    hide Widths, Unicode.GraphemeWidth;
  }

  lemma FirstWidths(u: Unicode, graphemes: seq<string>, n: nat)
    requires n < |graphemes|
    ensures Widths(u, graphemes[..n + 1]) == u.GraphemeWidth(graphemes[0]) + Widths(u, graphemes[1..][..n])
  {
    assert graphemes[..n + 1][1..] == graphemes[1..][..n];
  }

  lemma FirstSpace(u: Unicode, row: Row, x: nat, n: nat, style: CellStyle, link: Option<Hyperlink>)
    requires u.Valid() && |row| < U16_MAX && x < |row| && n >= 1
    ensures (var first := PutCell(row, x, SPACE, style, 1, link);
             var r := PutGraphemes(u, row, x, Repeat(SPACE, n), style, link);
             && r == PutGraphemes(u, first, x + 1, Repeat(SPACE, n - 1), style, link)
             && (n == 1 || x + 1 == |row| ==> r == first))
  {
    hide PutCell;
    var graphemes := Repeat(SPACE, n);
    assert graphemes[0] == SPACE && graphemes[1..] == Repeat(SPACE, n - 1) && u.width(SPACE) == 1;
  }

  /** Spaces drawn from `x` on: one cell each, up to the edge of the grid. */
  lemma {:induction false} SpacesOver(u: Unicode, row: Row, x: nat, n: nat, style: CellStyle, link: Option<Hyperlink>)
    requires u.Valid() && |row| < U16_MAX && x < |row| && n >= 1
    ensures (var e := Min(x + n, |row|);
             var r := PutGraphemes(u, row, x, Repeat(SPACE, n), style, link);
             Over(row, r, x, e) && forall i :: x <= i < e ==> r[i] == Cell(SPACE, style, false, link))
    decreases n
  {
    hide PutCell, Over, PutGraphemes;
    var first := PutCell(row, x, SPACE, style, 1, link);
    var r := PutGraphemes(u, row, x, Repeat(SPACE, n), style, link);
    FirstSpace(u, row, x, n, style, link);
    PutCellOver(row, x, SPACE, style, 1, link);
    PutCellColumns(row, x, SPACE, style, 1, link);
    if n > 1 && x + 1 < |row| {
      SpacesOver(u, first, x + 1, n - 1, style, link);
      OverOver(row, first, r, x, x + 1, Min(x + n, |row|));
    }
  }

  /** The cell is in its columns: its text in its run's style and link, or spaces when it is hidden. */
  ghost predicate Placed(line: SnapshotLine, k: nat, row: Row, c: nat)
    requires k < |line.cells| && line.cells[k].width >= 1 && c + line.cells[k].width <= |row|
  {
    var cell := line.cells[k];
    var run := RunFor(line.runs, cell.offset);
    var style := if run.Some? then run.value.style else PLAIN;
    var link := if run.Some? then NthLink(line.links, run.value.link) else None;
    forall i :: c <= i < c + cell.width ==>
      row[i] == if run.Some? && run.value.hidden then Cell(SPACE, style, false, link)
                else Cell(if i == c then cell.text else "", style, i > c, link)
  }

  lemma LineCellOver(u: Unicode, row: Row, x: nat, line: SnapshotLine, k: nat) returns (e: nat)
    requires u.Valid() && |row| < U16_MAX && k < |line.cells| && line.cells[k].width >= 1
    ensures (var r := DrawLineCell(u, row, x, line, k);
             && (if e == x then r == row && x + line.cells[k].width > |row| else Over(row, r, x, e))
             && x <= e <= x + line.cells[k].width
             && (e < x + line.cells[k].width ==> e >= |row| || e == x)
             && (x + line.cells[k].width <= |row| ==> e == x + line.cells[k].width && Placed(line, k, r, x)))
  {
    hide PutCell, PutGraphemes, Over, RunFor, LinkFor, NthLink;
    var cell := line.cells[k];
    var run := RunFor(line.runs, cell.offset);
    if run.Some? { LinkForIsNth(line, run.value); } else { NoRunNoLink(line); }
    if run.Some? && run.value.hidden {
      if x >= |row| { return x; }
      assert u.graphemes(Repeat(' ', cell.width)) == Repeat(SPACE, cell.width);
      SpacesOver(u, row, x, cell.width, StyleFor(run), LinkFor(line, run));
      e := Min(x + cell.width, |row|);
      OverBounds(row, DrawLineCell(u, row, x, line, k), x, e);
    } else if SatAdd(x, cell.width) <= |row| {
      PutCellOver(row, x, cell.text, StyleFor(run), cell.width, LinkFor(line, run));
      PutCellColumns(row, x, cell.text, StyleFor(run), cell.width, LinkFor(line, run));
      e := x + cell.width;
    } else {
      e := x;
    }
  }

  lemma NoRunNoLink(line: SnapshotLine)
    ensures LinkFor(line, None) == None && StyleFor(None) == PLAIN
  {
  }

  lemma OverBounds(before: Row, after: Row, c: nat, e: nat)
    requires Over(before, after, c, e)
    ensures |after| == |before| && c < e <= |before| && (e < |before| ==> !after[e].continuation)
  {
  }

  function Column(line: SnapshotLine, k: nat): nat
    requires k <= |line.cells|
  {
    LineWidth(line.cells[..k])
  }

  lemma ColumnNext(line: SnapshotLine, k: nat)
    requires k < |line.cells|
    ensures Column(line, k + 1) == Column(line, k) + line.cells[k].width
  {
    assert line.cells[..k + 1][..k] == line.cells[..k];
  }

  /** How many cells are drawn: the longest prefix within the budget. */
  function DrawnCount(line: SnapshotLine, budget: nat, k: nat): (n: nat)
    requires k <= |line.cells|
    ensures k <= n <= |line.cells|
    ensures n < |line.cells| ==> Column(line, n + 1) > budget
    ensures n > k ==> Column(line, n) <= budget
    decreases |line.cells| - k
  {
    if k == |line.cells| || Column(line, k + 1) > budget then k else DrawnCount(line, budget, k + 1)
  }

  /** The columns drawn so far: none, or everything from `x` up to `e`. */
  ghost predicate Progress(before: Row, row: Row, x: nat, e: nat, at: nat) {
    && |row| == |before| && x <= e <= at && (e < at ==> at > |before|)
    && (if e == x then row == before else Over(before, row, x, e))
  }

  lemma {:induction false} DrawCellsPlaces(u: Unicode, before: Row, row: Row, x: nat, budget: nat, line: SnapshotLine,
                                           k: nat, e: nat) returns (f: nat)
    requires u.Valid() && line.Valid() && |before| < U16_MAX && budget < U16_MAX && k <= |line.cells|
    requires x < |before| == |row|
    requires Column(line, k) <= budget && Progress(before, row, x, e, x + Column(line, k))
    requires forall j :: 0 <= j < k && x + Column(line, j + 1) <= |before| ==> CellPlaced(line, j, row, x)
    ensures (var (r, column) := DrawCells(u, row, x, budget, line, k, Column(line, k));
             var n := DrawnCount(line, budget, k);
             && column == Column(line, n)
             && Progress(before, r, x, f, x + column)
             && forall j :: 0 <= j < n && x + Column(line, j + 1) <= |before| ==> CellPlaced(line, j, r, x))
    decreases |line.cells| - k
  {
    hide DrawLineCell, Over, Column, CellPlaced, Progress;
    f := e;
    if k < |line.cells| {
      ColumnNext(line, k);
      if Column(line, k + 1) <= budget {
        var c := x + Column(line, k);
        var next := DrawLineCell(u, row, SatAdd(x, Column(line, k)), line, k);
        var e1 := OneMore(u, before, row, x, line, k, e);
        f := DrawCellsPlaces(u, before, next, x, budget, line, k + 1, e1);
      }
    }
  }

  ghost predicate CellPlaced(line: SnapshotLine, j: nat, row: Row, x: nat)
    requires j < |line.cells|
  {
    line.cells[j].width >= 1 && x + Column(line, j) + line.cells[j].width <= |row|
    && Placed(line, j, row, x + Column(line, j))
  }

  lemma OneMore(u: Unicode, before: Row, row: Row, x: nat, line: SnapshotLine, k: nat, e: nat) returns (e1: nat)
    requires u.Valid() && line.Valid() && |before| < U16_MAX && k < |line.cells| && x < |before|
    requires Progress(before, row, x, e, x + Column(line, k))
    requires forall j :: 0 <= j < k && x + Column(line, j + 1) <= |before| ==> CellPlaced(line, j, row, x)
    ensures (var next := DrawLineCell(u, row, SatAdd(x, Column(line, k)), line, k);
             && Progress(before, next, x, e1, x + Column(line, k + 1))
             && forall j :: 0 <= j <= k && x + Column(line, j + 1) <= |before| ==> CellPlaced(line, j, next, x))
  {
    hide DrawLineCell, Over, Column, Placed;
    ColumnNext(line, k);
    var c := x + Column(line, k);
    var next := DrawLineCell(u, row, SatAdd(x, Column(line, k)), line, k);
    if c >= |row| {
      e1 := e;
      var e2 := LineCellOver(u, row, SatAdd(x, Column(line, k)), line, k);
      assert next == row by { NoOver(row, next, SatAdd(x, Column(line, k)), e2); }
    } else {
      e1 := LineCellOver(u, row, c, line, k);
      if e1 == c {
        e1 := e;
      } else if e > x {
        OverOver(before, row, next, x, c, e1);
      }
    }
    forall j | 0 <= j <= k && x + Column(line, j + 1) <= |before|
      ensures CellPlaced(line, j, next, x)
    {
      if j < k {
        ColumnNext(line, j);
        assert CellPlaced(line, j, row, x);
        if next != row {
          ColumnOrder(line, j + 1, k);
          OverBounds(before, row, x, e);
          StillPlaced(line, j, row, next, x, c, e1);
        }
      }
    }
  }

  lemma NoOver(before: Row, after: Row, c: nat, e: nat)
    requires c >= |before|
    ensures !Over(before, after, c, e)
  {
  }

  lemma {:induction false} ColumnOrder(line: SnapshotLine, j: nat, k: nat)
    requires j <= k <= |line.cells|
    ensures Column(line, j) <= Column(line, k)
    decreases k
  {
    if j < k {
      ColumnNext(line, k - 1);
      ColumnOrder(line, j, k - 1);
    }
  }

  /** Drawing further right leaves a placed cell alone. */
  lemma StillPlaced(line: SnapshotLine, j: nat, before: Row, after: Row, x: nat, c: nat, e: nat)
    requires j < |line.cells| && CellPlaced(line, j, before, x) && Over(before, after, c, e)
    requires x + Column(line, j) + line.cells[j].width <= c && !before[c].continuation
    ensures CellPlaced(line, j, after, x)
  {
  }

  /** Snapshot drawing: the `n` cells drawn, each in its column, are all of a line that fits, and of a line too wide
      the most that leave a column for its marker, which follows them; outside the drawn columns only wide cells
      cut at their edges went blank. */
  lemma DrawLinePlaces(u: Unicode, row: Row, x: nat, width: nat, line: SnapshotLine) returns (e: nat, n: nat)
    requires u.Valid() && line.Valid() && |row| < U16_MAX && 0 < width < U16_MAX && x < |row| && u.width("~") == 1
    ensures n <= |line.cells|
    ensures LineWidth(line.cells) <= width ==> n == |line.cells|
    ensures LineWidth(line.cells) > width ==>
              n < |line.cells| && Column(line, n) + 1 <= width < Column(line, n + 1) + 1
    ensures (var r := DrawLine(u, row, x, width, line);
             && (forall j :: 0 <= j < n && x + Column(line, j + 1) <= |row| ==> CellPlaced(line, j, r, x))
             && (LineWidth(line.cells) > width && x + Column(line, n) < |row| ==>
                   r[x + Column(line, n)] == Cell("~", PLAIN, false, None))
             && x <= e <= x + width && (if e == x then r == row else Over(row, r, x, e)))
  {
    hide DrawCells, Over, Placed, LineWidth, PutGraphemes, PutCell;
    var budget := Budget(line, width);
    n := DrawnCount(line, budget, 0);
    NoColumn(line);
    WholeLine(line);
    var f := DrawCellsPlaces(u, row, row, x, budget, line, 0, x);
    var (drawn, column) := DrawCells(u, row, x, budget, line, 0, 0);
    e := f;
    if LineWidth(line.cells) > width {
      var at := SatAdd(x, column);
      if x + column < |row| {
        Tilde(u, drawn, at);
        var r := PutText(u, drawn, at, "~", PLAIN, None);
        e := at + 1;
        if f > x {
          OverBounds(row, drawn, x, f);
          OverOver(row, drawn, r, x, f, e);
        }
        forall j | 0 <= j < n && x + Column(line, j + 1) <= |row|
          ensures CellPlaced(line, j, r, x)
        {
          ColumnNext(line, j);
          ColumnOrder(line, j + 1, n);
          StillPlaced(line, j, drawn, r, x, at, e);
        }
      } else {
        PutPastEnd(u, drawn, at, "~", PLAIN, None);
      }
    } else {
      if n < |line.cells| { ColumnOrder(line, n + 1, |line.cells|); }
    }
  }

  lemma NoColumn(line: SnapshotLine)
    ensures Column(line, 0) == 0
  {
  }

  lemma WholeLine(line: SnapshotLine)
    ensures Column(line, |line.cells|) == LineWidth(line.cells)
  {
    assert line.cells[..|line.cells|] == line.cells;
  }

  lemma Tilde(u: Unicode, row: Row, x: nat)
    requires u.Valid() && |row| < U16_MAX && x < |row| && u.width("~") == 1
    ensures (var r := PutText(u, row, x, "~", PLAIN, None);
             Over(row, r, x, x + 1) && r[x] == Cell("~", PLAIN, false, None))
  {
    hide PutCell, Over;
    var graphemes := u.graphemes(['~']);
    assert graphemes == ["~"] && graphemes[1..] == [];
    var r := PutCell(row, x, "~", PLAIN, 1, None);
    assert PutGraphemes(u, r, x + 1, [], PLAIN, None) == r;
    assert PutGraphemes(u, row, x, graphemes, PLAIN, None) == r;
    PutCellOver(row, x, "~", PLAIN, 1, None);
    PutCellColumns(row, x, "~", PLAIN, 1, None);
  }
}
