/** The render grid: one array of cells, drawn over in place (grid.rs). Each method is proved against
    what it does to the rows, and every one keeps the rows well-formed. */
module RenderGrids {
  import opened Text
  import opened Style
  import opened Cells
  import opened Rows
  import Host
  import Render

  // ---- The rows of a cell array ----

  /** Where row `y` starts in the array. */
  function Offset(width: nat, y: nat): nat {
    if y == 0 then 0 else Offset(width, y - 1) + width
  }

  lemma {:induction false} OffsetOrder(width: nat, y: nat, z: nat)
    requires y < z
    ensures Offset(width, y) + width <= Offset(width, z)
  {
    if y + 1 < z { OffsetOrder(width, y, z - 1); }
  }

  function RowOf(cells: seq<Cell>, width: nat, height: nat, y: nat): (row: Row)
    requires |cells| == Offset(width, height) && y < height
    ensures |row| == width
  {
    OffsetOrder(width, y, height);
    cells[Offset(width, y)..Offset(width, y) + width]
  }

  function RowsOf(cells: seq<Cell>, width: nat, height: nat): (rows: seq<Row>)
    requires |cells| == Offset(width, height)
    ensures |rows| == height && forall y :: 0 <= y < height ==> rows[y] == RowOf(cells, width, height, y)
  {
    seq(height, y requires 0 <= y < height => RowOf(cells, width, height, y))
  }

  lemma RowCell(cells: seq<Cell>, width: nat, height: nat, y: nat)
    requires |cells| == Offset(width, height) && y < height
    ensures Offset(width, y) + width <= |cells|
    ensures |RowsOf(cells, width, height)[y]| == width
    ensures RowsOf(cells, width, height)[y] == cells[Offset(width, y)..Offset(width, y) + width]
  {
    OffsetOrder(width, y, height);
  }

  /** `after` is `before` with row `y` replaced by `row`. */
  ghost predicate Replaced(before: seq<Cell>, after: seq<Cell>, start: nat, row: Row) {
    && |before| == |after| && start + |row| <= |before|
    && (forall i :: 0 <= i < |before| && !(start <= i < start + |row|) ==> after[i] == before[i])
    && (forall i :: start <= i < start + |row| ==> after[i] == row[i - start])
  }

  /** Changing cells of one row only changes that row. */
  lemma RowChanged(before: seq<Cell>, after: seq<Cell>, width: nat, height: nat, y: nat, row: Row)
    requires |before| == |after| == Offset(width, height) && y < height && |row| == width
    requires Replaced(before, after, Offset(width, y), row)
    ensures RowsOf(after, width, height) == RowsOf(before, width, height)[y := row]
  {
    hide Replaced;
    forall z | 0 <= z < height
      ensures RowOf(after, width, height, z) == if z == y then row else RowOf(before, width, height, z)
    {
      OffsetOrder(width, z, height);
      if z < y { OffsetOrder(width, z, y); }
      if y < z { OffsetOrder(width, y, z); }
      ReplacedSlice(before, after, Offset(width, y), row, Offset(width, z), width);
    }
  }

  lemma ReplacedSlice(before: seq<Cell>, after: seq<Cell>, start: nat, row: Row, at: nat, width: nat)
    requires Replaced(before, after, start, row) && |row| == width && at + width <= |before|
    requires at + width <= start || start + width <= at || at == start
    ensures after[at..at + width] == if at == start then row else before[at..at + width]
  {
    if at != start {
      var a, b := after[at..at + width], before[at..at + width];
      assert forall i :: 0 <= i < width ==> a[i] == b[i];
    }
  }

  lemma ClearedRow(before: seq<Cell>, after: seq<Cell>, base: nat, row: Row, x: nat, w: nat)
    requires base + |row| <= |before| == |after| && before[base..base + |row|] == row && x < |row| && x + w <= |row|
    requires forall i :: 0 <= i < |before| ==>
      after[i] == if base + GroupStart(row, x) <= i < base + GroupEnd(row, x + w) then DEFAULT_CELL else before[i]
    ensures Replaced(before, after, base, ClearOverlapping(row, x, w))
  {
    hide GroupStart, GroupEnd;
    var r := ClearOverlapping(row, x, w);
    forall i | base <= i < base + |row|
      ensures after[i] == r[i - base]
    {
      assert row[i - base] == before[i];
    }
  }

  lemma WrittenRow(before: seq<Cell>, after: seq<Cell>, base: nat, row: Row, x: nat, text: string, style: CellStyle,
                   w: nat, link: Option<Hyperlink>)
    requires base + |row| <= |before| == |after| && before[base..base + |row|] == row && w >= 1 && x + w <= |row|
    requires forall i :: 0 <= i < |before| ==>
      after[i] == if i == base + x then Cell(text, style, false, link)
                  else if base + x < i < base + x + w then Cell("", style, true, link) else before[i]
    ensures Replaced(before, after, base, SetCell(row, x, text, style, w, link))
  {
    var r := SetCell(row, x, text, style, w, link);
    forall i | base <= i < base + |row|
      ensures after[i] == r[i - base]
    {
      assert row[i - base] == before[i];
    }
  }

  lemma RestyledRow(before: seq<Cell>, after: seq<Cell>, base: nat, row: Row, start: nat, end: nat,
                    f: CellStyle -> CellStyle)
    requires base + |row| <= |before| == |after| && before[base..base + |row|] == row && start < end <= |row|
    requires forall i :: 0 <= i < |before| ==>
      after[i] == if base + GroupStart(row, start) <= i < base + GroupEnd(row, end)
                  then before[i].(style := f(before[i].style)) else before[i]
    ensures Replaced(before, after, base, Restyle(row, start, end, f))
  {
    hide GroupStart, GroupEnd;
    var r := Restyle(row, start, end, f);
    forall i | base <= i < base + |row|
      ensures after[i] == r[i - base]
    {
      assert row[i - base] == before[i];
    }
  }

  // ---- What drawing does to the rows ----

  ghost predicate Shaped(rows: seq<Row>, width: nat, height: nat) {
    && width < U16_MAX && height <= U16_MAX && |rows| == height
    && forall y :: 0 <= y < height ==> |rows[y]| == width && WellFormed(rows[y])
  }

  function PutIn(u: Unicode, rows: seq<Row>, x: nat, y: nat, text: string, style: CellStyle,
                 link: Option<Hyperlink>): (r: seq<Row>)
    requires forall y :: 0 <= y < |rows| ==> |rows[y]| < U16_MAX
    ensures |r| == |rows| && forall y :: 0 <= y < |rows| ==> |r[y]| == |rows[y]|
  {
    if y >= |rows| then rows else rows[y := PutText(u, rows[y], x, text, style, link)]
  }

  /** `draw_hline_styled` from offset `k` on. */
  function HLine(u: Unicode, rows: seq<Row>, x: nat, y: nat, width: nat, ch: char, style: CellStyle,
                 k: nat): (r: seq<Row>)
    requires k <= width && forall y :: 0 <= y < |rows| ==> |rows[y]| < U16_MAX
    ensures |r| == |rows| && forall y :: 0 <= y < |rows| ==> |r[y]| == |rows[y]|
    decreases width - k
  {
    if k == width then rows
    else HLine(u, PutIn(u, rows, SatAdd(x, k), y, [ch], style, None), x, y, width, ch, style, k + 1)
  }

  function VLine(u: Unicode, rows: seq<Row>, x: nat, y: nat, height: nat, ch: char, style: CellStyle,
                 k: nat): (r: seq<Row>)
    requires k <= height && forall y :: 0 <= y < |rows| ==> |rows[y]| < U16_MAX
    ensures |r| == |rows| && forall y :: 0 <= y < |rows| ==> |r[y]| == |rows[y]|
    decreases height - k
  {
    if k == height then rows
    else VLine(u, PutIn(u, rows, x, SatAdd(y, k), [ch], style, None), x, y, height, ch, style, k + 1)
  }

  /** `fill_rect` of a clipped rectangle from row `k` on: a line per row. */
  function Fill(u: Unicode, rows: seq<Row>, x: nat, y: nat, width: nat, height: nat, ch: char, style: CellStyle,
                k: nat): (r: seq<Row>)
    requires k <= height && forall y :: 0 <= y < |rows| ==> |rows[y]| < U16_MAX
    ensures |r| == |rows| && forall y :: 0 <= y < |rows| ==> |r[y]| == |rows[y]|
    decreases height - k
  {
    if k == height then rows
    else Fill(u, HLine(u, rows, x, SatAdd(y, k), width, ch, style, 0), x, y, width, height, ch, style, k + 1)
  }

  datatype Border = Border(topLeft: char, topRight: char, bottomLeft: char, bottomRight: char,
                           horizontal: char, vertical: char)

  /** `draw_box_styled` of a clipped, non-empty rectangle. */
  function Box(u: Unicode, rows: seq<Row>, x: nat, y: nat, width: nat, height: nat, b: Border,
               style: CellStyle): (r: seq<Row>)
    requires width > 0 && height > 0 && forall y :: 0 <= y < |rows| ==> |rows[y]| < U16_MAX
    ensures |r| == |rows| && forall y :: 0 <= y < |rows| ==> |r[y]| == |rows[y]|
  {
    var right, bottom := SatAdd(x, width - 1), SatAdd(y, height - 1);
    var corners := PutIn(u, PutIn(u, PutIn(u, PutIn(u, rows, x, y, [b.topLeft], style, None),
                         right, y, [b.topRight], style, None), x, bottom, [b.bottomLeft], style, None),
                         right, bottom, [b.bottomRight], style, None);
    var sides := if width <= 2 then corners
                 else HLine(u, HLine(u, corners, SatAdd(x, 1), y, width - 2, b.horizontal, style, 0),
                            SatAdd(x, 1), bottom, width - 2, b.horizontal, style, 0);
    if height <= 2 then sides
    else VLine(u, VLine(u, sides, x, SatAdd(y, 1), height - 2, b.vertical, style, 0),
               right, SatAdd(y, 1), height - 2, b.vertical, style, 0)
  }

  lemma PutInKeepsShape(u: Unicode, rows: seq<Row>, width: nat, height: nat, x: nat, y: nat, text: string,
                        style: CellStyle, link: Option<Hyperlink>)
    requires u.Valid() && Shaped(rows, width, height)
    ensures Shaped(PutIn(u, rows, x, y, text, style, link), width, height)
  {
    hide WellFormed, PutGraphemes;
    if y < |rows| {
      PutGraphemesKeepsWellFormed(u, rows[y], x, u.graphemes(text), style, link);
    }
  }

  // ---- Rectangles ----

  datatype Rect = Rect(x: int, y: int, width: nat, height: nat)

  const I32_MIN: int := -0x8000_0000
  const I32_MAX: int := 0x7fff_ffff

  function ClampI32(v: int): int {
    if v < I32_MIN then I32_MIN else if v > I32_MAX then I32_MAX else v
  }

  /** The part of a rectangle inside a grid. */
  function ClipRect(rect: Rect, width: nat, height: nat): (r: Option<Rect>)
    ensures r.Some? ==> 0 <= r.value.x && 0 <= r.value.y && r.value.width > 0 && r.value.height > 0
                        && r.value.x + r.value.width <= width && r.value.y + r.value.height <= height
  {
    var left, top := Max(rect.x, 0), Max(rect.y, 0);
    var right := Min(ClampI32(rect.x + rect.width), width);
    var bottom := Min(ClampI32(rect.y + rect.height), height);
    if right <= left || bottom <= top then None
    else Some(Rect(left, top, right - left, bottom - top))
  }

  predicate InRect(rect: Rect, x: int, y: int) {
    rect.x <= x < rect.x + rect.width && rect.y <= y < rect.y + rect.height
  }

  /** Exactly the cells that are in the rectangle and in the grid: none of them is cut off, and no other is added. */
  lemma ClipRectIs(rect: Rect, width: nat, height: nat, x: int, y: int)
    requires width <= U16_MAX && height <= U16_MAX
    ensures (var clipped := ClipRect(rect, width, height);
             InRect(rect, x, y) && 0 <= x < width && 0 <= y < height
             <==> clipped.Some? && InRect(clipped.value, x, y))
  {
  }

  // ---- The grid ----

  class RenderGrid {
    const width: nat
    const height: nat
    const cells: array<Cell>
    var cursor: Option<GridCursor>

    ghost predicate Allocated() {
      cells.Length == Offset(width, height) && width < U16_MAX && height <= U16_MAX
    }

    ghost function Rows(): seq<Row>
      requires Allocated()
      reads cells
    {
      RowsOf(cells[..], width, height)
    }

    ghost predicate Valid()
      reads cells, this
    {
      && Allocated() && Shaped(Rows(), width, height)
      && (cursor.Some? ==> cursor.value.x < width && cursor.value.y < height)
    }

    constructor (width: nat, height: nat)
      requires width < U16_MAX && height <= U16_MAX
      ensures Valid() && fresh(cells) && this.width == width && this.height == height && cursor == None
      ensures forall y :: 0 <= y < height ==> Rows()[y] == Repeat(DEFAULT_CELL, width)
    {
      this.width, this.height := width, height;
      cells := new Cell[Offset(width, height)](_ => DEFAULT_CELL);
      cursor := None;
      new;
      forall y | 0 <= y < height
        ensures Rows()[y] == Repeat(DEFAULT_CELL, width)
      {
        RowCell(cells[..], width, height, y);
      }
    }

    method Clear(fill: char)
      requires Valid()
      modifies cells, this`cursor
      ensures Valid() && cursor == None
      ensures forall y :: 0 <= y < height ==> Rows()[y] == Repeat(Cell([fill], PLAIN, false, None), width)
    {
      cursor := None;
      var i := 0;
      while i < cells.Length
        invariant i <= cells.Length
        invariant cursor == None && forall j :: 0 <= j < i ==> cells[j] == Cell([fill], PLAIN, false, None)
      {
        cells[i] := Cell([fill], PLAIN, false, None);
        i := i + 1;
      }
      forall y | 0 <= y < height
        ensures Rows()[y] == Repeat(Cell([fill], PLAIN, false, None), width)
      {
        RowCell(cells[..], width, height, y);
      }
    }

    /** A cursor outside the grid is none. */
    method SetCursor(at: Option<GridCursor>)
      requires Valid()
      modifies this`cursor
      ensures Valid()
      ensures cursor == if at.Some? && at.value.x < width && at.value.y < height then at else None
    {
      cursor := if at.Some? && at.value.x < width && at.value.y < height then at else None;
    }

    /** `ansi_lines_for`. */
    method AnsiLinesFor(u: Unicode, caps: HostCapabilities) returns (lines: seq<seq<Host.Cmd>>)
      requires Valid()
      ensures |lines| == height && forall y :: 0 <= y < height ==> lines[y] == Render.RowCmds(u, caps, Rows()[y])
    {
      hide RowsOf, Offset, Render.RowCmds;
      lines := [];
      while |lines| < height
        invariant |lines| <= height && forall y :: 0 <= y < |lines| ==> lines[y] == Render.RowCmds(u, caps, Rows()[y])
      {
        RowCell(cells[..], width, height, |lines|);
        var start := Offset(width, |lines|);
        var line := Render.AnsiLine(u, caps, cells[start..start + width]);
        lines := lines + [line];
      }
    }

    /** The lead of the group that covers column `x` of the row at `base`. */
    method ScanLeft(base: nat, x: nat) returns (start: nat)
      requires base + width <= cells.Length && x < width
      ensures start == GroupStart(cells[base..base + width], x)
    {
      ghost var row := cells[base..base + width];
      start := x;
      while start > 0 && cells[base + start].continuation
        invariant 0 <= start <= x && GroupStart(row, start) == GroupStart(row, x)
      {
        assert row[start] == cells[base + start];
        start := start - 1;
      }
      assert row[start] == cells[base + start];
    }

    /** The end of the group that covers the column before `from`. */
    method ScanRight(base: nat, from: nat) returns (end: nat)
      requires base + width <= cells.Length && from <= width
      ensures end == GroupEnd(cells[base..base + width], from)
    {
      ghost var row := cells[base..base + width];
      end := from;
      while end < width && cells[base + end].continuation
        invariant from <= end <= width && GroupEnd(row, end) == GroupEnd(row, from)
      {
        assert row[end] == cells[base + end];
        end := end + 1;
      }
      if end < width { assert row[end] == cells[base + end]; }
    }

    method ClearOverlappingCells(x: nat, y: nat, w: nat)
      requires Allocated() && y < height && x < width && x + w <= width
      modifies cells
      ensures Rows() == old(Rows())[y := ClearOverlapping(old(Rows())[y], x, w)]
    {
      hide RowsOf, GroupStart, GroupEnd, Offset;
      RowCell(cells[..], width, height, y);
      ghost var before, row := cells[..], Rows()[y];
      var base := Offset(width, y);
      assert cells[base..base + width] == row;
      var start := ScanLeft(base, x);
      var end := ScanRight(base, x + w);
      var clear := start;
      while clear < end
        invariant start <= clear <= end
        invariant forall i :: 0 <= i < cells.Length ==>
          cells[i] == if base + start <= i < base + clear then DEFAULT_CELL else before[i]
      {
        cells[base + clear] := DEFAULT_CELL;
        clear := clear + 1;
      }
      ClearedRow(before, cells[..], base, row, x, w);
      RowChanged(before, cells[..], width, height, y, ClearOverlapping(row, x, w));
    }

    method SetCells(x: nat, y: nat, text: string, style: CellStyle, w: nat, link: Option<Hyperlink>)
      requires Allocated() && y < height && w >= 1 && x + w <= width
      modifies cells
      ensures Rows() == old(Rows())[y := SetCell(old(Rows())[y], x, text, style, w, link)]
    {
      hide RowsOf, Offset;
      RowCell(cells[..], width, height, y);
      ghost var before, row := cells[..], Rows()[y];
      var base := Offset(width, y);
      cells[base + x] := Cell(text, style, false, link);
      var offset := 1;
      while offset < w
        invariant 1 <= offset <= w
        invariant forall i :: 0 <= i < cells.Length ==>
          cells[i] == if i == base + x then Cell(text, style, false, link)
                      else if base + x < i < base + x + offset then Cell("", style, true, link) else before[i]
      {
        cells[base + (x + offset)] := Cell("", style, true, link);
        offset := offset + 1;
      }
      WrittenRow(before, cells[..], base, row, x, text, style, w, link);
      RowChanged(before, cells[..], width, height, y, SetCell(row, x, text, style, w, link));
    }

    method DrawCell(x: nat, y: nat, text: string, style: CellStyle, w: nat, link: Option<Hyperlink>)
      requires Allocated() && y < height && w >= 1 && x + w <= width
      modifies cells
      ensures Rows() == old(Rows())[y := PutCell(old(Rows())[y], x, text, style, w, link)]
    {
      ClearOverlappingCells(x, y, w);
      SetCells(x, y, text, style, w, link);
    }

    method PutStrLinked(u: Unicode, x: nat, y: nat, text: string, style: CellStyle, link: Option<Hyperlink>)
      requires u.Valid() && Valid()
      modifies cells
      ensures Valid() && Rows() == PutIn(u, old(Rows()), x, y, text, style, link)
    {
      PutInKeepsShape(u, Rows(), width, height, x, y, text, style, link);
      if y >= height || x >= width {
        return;
      }
      PutGraphemesOn(u, x, y, u.graphemes(text), style, link);
    }

    method PutGraphemesOn(u: Unicode, x: nat, y: nat, graphemes: seq<string>, style: CellStyle, link: Option<Hyperlink>)
      requires Allocated() && y < height
      modifies cells
      ensures Rows() == old(Rows())[y := PutGraphemes(u, old(Rows())[y], x, graphemes, style, link)]
    {
      hide PutCell, RowsOf, Offset;
      ghost var before := Rows();
      var pos: nat, k: nat := x, 0;
      while k < |graphemes|
        invariant k <= |graphemes|
        invariant Rows() == before[y := Rows()[y]] && |Rows()[y]| == width
        invariant PutGraphemes(u, Rows()[y], pos, graphemes[k..], style, link)
               == PutGraphemes(u, before[y], x, graphemes, style, link)
      {
        if pos >= width {
          break;
        }
        var w := u.GraphemeWidth(graphemes[k]);
        if SatAdd(pos, w) > width {
          break;
        }
        assert graphemes[k..][1..] == graphemes[k + 1..];
        DrawCell(pos, y, graphemes[k], style, w, link);
        pos := SatAdd(pos, w);
        k := k + 1;
      }
    }

    method PutChar(u: Unicode, x: nat, y: nat, ch: char, style: CellStyle)
      requires u.Valid() && Valid()
      modifies cells
      ensures Valid() && Rows() == PutIn(u, old(Rows()), x, y, [ch], style, None)
    {
      PutStrLinked(u, x, y, [ch], style, None);
    }

    /** Recolor the columns [start, end), counted from `x`, snapped outward to whole cells. */
    method RestyleRange(x: nat, y: nat, start: nat, end: nat, f: CellStyle -> CellStyle)
      requires Valid()
      modifies cells
      ensures Valid()
      ensures (var from, to := Min(SatAdd(x, start), width), Min(SatAdd(x, end), width);
               Rows() == if y >= height || start >= end || from >= to then old(Rows())
                         else old(Rows())[y := Restyle(old(Rows())[y], from, to, f)])
    {
      if y >= height || start >= end {
        return;
      }
      var absStart, absEnd := Min(SatAdd(x, start), width), Min(SatAdd(x, end), width);
      if absStart >= absEnd {
        return;
      }
      RestyleColumns(y, absStart, absEnd, f);
    }

    method RestyleColumns(y: nat, absStart: nat, absEnd: nat, f: CellStyle -> CellStyle)
      requires Valid() && y < height && absStart < absEnd <= width
      modifies cells
      ensures Valid() && Rows() == old(Rows())[y := Restyle(old(Rows())[y], absStart, absEnd, f)]
    {
      hide RowsOf, Offset, GroupStart, GroupEnd, WellFormed;
      RowCell(cells[..], width, height, y);
      ghost var before, row := cells[..], Rows()[y];
      RestyleKeepsWellFormed(row, absStart, absEnd, f);
      var base := Offset(width, y);
      assert cells[base..base + width] == row;
      var from := ScanLeft(base, absStart);
      var to := ScanRight(base, absEnd);
      var column := from;
      while column < to
        invariant from <= column <= to
        invariant forall i :: 0 <= i < cells.Length ==>
          cells[i] == if base + from <= i < base + column then before[i].(style := f(before[i].style)) else before[i]
      {
        cells[base + column] := cells[base + column].(style := f(cells[base + column].style));
        column := column + 1;
      }
      RestyledRow(before, cells[..], base, row, absStart, absEnd, f);
      RowChanged(before, cells[..], width, height, y, Restyle(row, absStart, absEnd, f));
    }

    method DrawHLine(u: Unicode, x: nat, y: nat, n: nat, ch: char, style: CellStyle)
      requires u.Valid() && Valid()
      modifies cells
      ensures Valid() && Rows() == HLine(u, old(Rows()), x, y, n, ch, style, 0)
    {
      hide RowsOf, PutIn;
      var offset := 0;
      while offset < n
        invariant offset <= n && Valid()
        invariant HLine(u, Rows(), x, y, n, ch, style, offset) == HLine(u, old(Rows()), x, y, n, ch, style, 0)
      {
        PutChar(u, SatAdd(x, offset), y, ch, style);
        offset := offset + 1;
      }
    }

    method DrawVLine(u: Unicode, x: nat, y: nat, n: nat, ch: char, style: CellStyle)
      requires u.Valid() && Valid()
      modifies cells
      ensures Valid() && Rows() == VLine(u, old(Rows()), x, y, n, ch, style, 0)
    {
      hide RowsOf, PutIn;
      var offset := 0;
      while offset < n
        invariant offset <= n && Valid()
        invariant VLine(u, Rows(), x, y, n, ch, style, offset) == VLine(u, old(Rows()), x, y, n, ch, style, 0)
      {
        PutChar(u, x, SatAdd(y, offset), ch, style);
        offset := offset + 1;
      }
    }

    method FillRect(u: Unicode, rect: Rect, fill: char, style: CellStyle)
      requires u.Valid() && Valid()
      modifies cells
      ensures Valid()
      ensures (var r := ClipRect(rect, width, height);
               Rows() == if r == None then old(Rows())
                         else Fill(u, old(Rows()), r.value.x, r.value.y, r.value.width, r.value.height, fill, style, 0))
    {
      hide RowsOf, HLine;
      var clipped := ClipRect(rect, width, height);
      if clipped == None {
        return;
      }
      var x, y, w, h := clipped.value.x, clipped.value.y, clipped.value.width, clipped.value.height;
      var row := 0;
      while row < h
        invariant row <= h && Valid()
        invariant Fill(u, Rows(), x, y, w, h, fill, style, row) == Fill(u, old(Rows()), x, y, w, h, fill, style, 0)
      {
        DrawHLine(u, x, SatAdd(y, row), w, fill, style);
        row := row + 1;
      }
    }

    method DrawBox(u: Unicode, rect: Rect, border: Border, style: CellStyle)
      requires u.Valid() && Valid()
      modifies cells
      ensures Valid()
      ensures (var r := ClipRect(rect, width, height);
               Rows() == if r == None then old(Rows())
                         else Box(u, old(Rows()), r.value.x, r.value.y, r.value.width, r.value.height, border, style))
    {
      hide RowsOf, PutIn, HLine, VLine;
      var clipped := ClipRect(rect, width, height);
      if clipped == None {
        return;
      }
      var x, y, w, h := clipped.value.x, clipped.value.y, clipped.value.width, clipped.value.height;
      var right, bottom := SatAdd(x, w - 1), SatAdd(y, h - 1);
      PutChar(u, x, y, border.topLeft, style);
      PutChar(u, right, y, border.topRight, style);
      PutChar(u, x, bottom, border.bottomLeft, style);
      PutChar(u, right, bottom, border.bottomRight, style);
      if w > 2 {
        DrawHLine(u, SatAdd(x, 1), y, w - 2, border.horizontal, style);
        DrawHLine(u, SatAdd(x, 1), bottom, w - 2, border.horizontal, style);
      }
      if h > 2 {
        DrawVLine(u, x, SatAdd(y, 1), h - 2, border.vertical, style);
        DrawVLine(u, right, SatAdd(y, 1), h - 2, border.vertical, style);
      }
    }
  }
}
