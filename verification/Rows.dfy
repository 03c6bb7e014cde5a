/** What drawing does to one row of a grid (grid.rs), and the laws it keeps. */
module Rows {
  import opened Text
  import opened Style
  import opened Cells

  type Row = seq<Cell>

  /** The lead cell of the group that covers column `x`. */
  function GroupStart(row: Row, x: nat): (start: nat)
    requires x < |row|
    ensures start <= x
    ensures start == 0 || !row[start].continuation
    ensures forall i :: start < i <= x ==> row[i].continuation
  {
    if x > 0 && row[x].continuation then GroupStart(row, x - 1) else x
  }

  /** The first column from `end` on that is no continuation. */
  function GroupEnd(row: Row, end: nat): (e: nat)
    requires end <= |row|
    ensures end <= e <= |row|
    ensures forall i :: end <= i < e ==> row[i].continuation
    ensures e < |row| ==> !row[e].continuation
  {
    end + Continuations(row, end)
  }

  /** The `width` columns from `x` on and every wide cell they cut go blank. */
  function ClearOverlapping(row: Row, x: nat, width: nat): (r: Row)
    requires x < |row| && x + width <= |row|
    ensures |r| == |row|
  {
    var start, end := GroupStart(row, x), GroupEnd(row, x + width);
    row[..start] + Repeat(DEFAULT_CELL, end - start) + row[end..]
  }

  function Group(text: string, style: CellStyle, width: nat, link: Option<Hyperlink>): Row
    requires width >= 1
  {
    [Cell(text, style, false, link)] + Repeat(Cell("", style, true, link), width - 1)
  }

  function SetCell(row: Row, x: nat, text: string, style: CellStyle, width: nat, link: Option<Hyperlink>): (r: Row)
    requires width >= 1 && x + width <= |row|
    ensures |r| == |row|
  {
    row[..x] + Group(text, style, width, link) + row[x + width..]
  }

  /** Draw one cell of `width` columns. */
  function PutCell(row: Row, x: nat, text: string, style: CellStyle, width: nat, link: Option<Hyperlink>): (r: Row)
    requires width >= 1 && x + width <= |row|
    ensures |r| == |row|
  {
    SetCell(ClearOverlapping(row, x, width), x, text, style, width, link)
  }

  /** The row after `PutCell`, column by column. */
  lemma PutCellColumns(row: Row, x: nat, text: string, style: CellStyle, width: nat, link: Option<Hyperlink>)
    requires width >= 1 && x + width <= |row|
    ensures (var r := PutCell(row, x, text, style, width, link);
             forall i :: 0 <= i < |row| ==>
               r[i] == if x <= i < x + width then Cell(if i == x then text else "", style, i > x, link)
                       else if GroupStart(row, x) <= i < GroupEnd(row, x + width) then DEFAULT_CELL
                       else row[i])
  {
    var cleared := ClearOverlapping(row, x, width);
    var start, end := GroupStart(row, x), GroupEnd(row, x + width);
    var r := PutCell(row, x, text, style, width, link);
    forall i | 0 <= i < |row|
      ensures r[i] == if x <= i < x + width then Cell(if i == x then text else "", style, i > x, link)
                       else if start <= i < end then DEFAULT_CELL
                       else row[i]
    {
      assert cleared[i] == if start <= i < end then DEFAULT_CELL else row[i];
    }
  }

  /** Whether the group that covers column `i` has columns in [x, x + width). */
  predicate Cut(row: Row, i: nat, x: nat, width: nat)
    requires i < |row|
  {
    var p := GroupStart(row, i);
    p < x + width && x < p + CellWidth(row, p)
  }

  /** Drawing a cell blanks the wide cells it cuts, and changes nothing else outside its columns. */
  lemma PutCellBlanksOnlyCutCells(row: Row, x: nat, text: string, style: CellStyle, width: nat, link: Option<Hyperlink>,
                                  i: nat)
    requires WellFormed(row) && width >= 1 && x + width <= |row| && i < |row| && !(x <= i < x + width)
    ensures (var r := PutCell(row, x, text, style, width, link);
             r[i] == if Cut(row, i, x, width) then DEFAULT_CELL else row[i])
  {
    PutCellColumns(row, x, text, style, width, link);
    var p, start, end := GroupStart(row, i), GroupStart(row, x), GroupEnd(row, x + width);
    assert CellOk(row, 0) && CellOk(row, p);
    assert start == 0 ==> CellOk(row, start);
    GroupStartUnique(row, i, p);
    if i < x {
      if start <= i { GroupStartUnique(row, i, start); }
      if p + CellWidth(row, p) <= x && start <= i { GroupCovers(row, p, x); }
      if p + CellWidth(row, p) > x { GroupCovers(row, p, x); }
    } else {
      if i < end { GroupCovers(row, p, i); }
      GroupCovers(row, p, i);
    }
  }

  /** The continuations between a lead and a column are what make it cover the column. */
  lemma GroupCovers(row: Row, p: nat, i: nat)
    requires p <= i < |row|
    ensures i < p + CellWidth(row, p) <==> forall j :: p < j <= i ==> row[j].continuation
  {
    if i >= p + CellWidth(row, p) {
      var n := p + CellWidth(row, p);
      assert !row[n].continuation && p < n <= i;
    }
  }

  lemma {:induction false} GroupStartUnique(row: Row, i: nat, p: nat)
    requires p <= i < |row| && (p == 0 || !row[p].continuation) && forall j :: p < j <= i ==> row[j].continuation
    ensures GroupStart(row, i) == p
  {
    var s := GroupStart(row, i);
    var _, _ := row[p].continuation, row[s].continuation;
  }

  lemma PutCellKeepsWellFormed(row: Row, x: nat, text: string, style: CellStyle, width: nat, link: Option<Hyperlink>)
    requires WellFormed(row) && width >= 1 && x + width <= |row| && text != ""
    ensures WellFormed(PutCell(row, x, text, style, width, link))
    ensures (var r := PutCell(row, x, text, style, width, link); x + width < |row| ==> !r[x + width].continuation)
  {
    PutCellColumns(row, x, text, style, width, link);
    var r := PutCell(row, x, text, style, width, link);
    var start, end := GroupStart(row, x), GroupEnd(row, x + width);
    forall i | 0 <= i < |r|
      ensures CellOk(r, i)
    {
      assert CellOk(row, i);
      if 0 < i {
        assert r[i - 1] == if x <= i - 1 < x + width then Cell(if i - 1 == x then text else "", style, i - 1 > x, link)
                           else if start <= i - 1 < end then DEFAULT_CELL else row[i - 1];
      }
    }
  }

  // ---- Text ----

  /** `put_str_linked` from column `x` on: graphemes while they fit. */
  function PutGraphemes(u: Unicode, row: Row, x: nat, graphemes: seq<string>, style: CellStyle,
                        link: Option<Hyperlink>): (r: Row)
    requires |row| < U16_MAX
    ensures |r| == |row|
    decreases |graphemes|
  {
    if graphemes == [] || x >= |row| then row
    else
      var width := u.GraphemeWidth(graphemes[0]);
      if SatAdd(x, width) > |row| then row
      else PutGraphemes(u, PutCell(row, x, graphemes[0], style, width, link), SatAdd(x, width),
                        graphemes[1..], style, link)
  }

  function PutText(u: Unicode, row: Row, x: nat, text: string, style: CellStyle, link: Option<Hyperlink>): (r: Row)
    requires |row| < U16_MAX
    ensures |r| == |row|
  {
    PutGraphemes(u, row, x, u.graphemes(text), style, link)
  }

  lemma {:induction false} PutGraphemesKeepsWellFormed(u: Unicode, row: Row, x: nat, graphemes: seq<string>,
                                                       style: CellStyle, link: Option<Hyperlink>)
    requires |row| < U16_MAX && WellFormed(row) && forall i :: 0 <= i < |graphemes| ==> graphemes[i] != ""
    ensures WellFormed(PutGraphemes(u, row, x, graphemes, style, link))
    decreases |graphemes|
  {
    hide PutCell, WellFormed;
    if graphemes != [] && x < |row| {
      var width := u.GraphemeWidth(graphemes[0]);
      if x + width <= |row| {
        PutCellKeepsWellFormed(row, x, graphemes[0], style, width, link);
        PutGraphemesKeepsWellFormed(u, PutCell(row, x, graphemes[0], style, width, link),
                                    SatAdd(x, width), graphemes[1..], style, link);
      }
    }
  }

  // ---- Restyling ----

  /** The columns [start, end) of the row restyled, snapped outward to whole cells. */
  function Restyle(row: Row, start: nat, end: nat, f: CellStyle -> CellStyle): (r: Row)
    requires start < end <= |row|
    ensures |r| == |row|
  {
    var from, to := GroupStart(row, start), GroupEnd(row, end);
    seq(|row|, i requires 0 <= i < |row| => if from <= i < to then row[i].(style := f(row[i].style)) else row[i])
  }

  lemma RestyleKeepsWellFormed(row: Row, start: nat, end: nat, f: CellStyle -> CellStyle)
    requires WellFormed(row) && start < end <= |row|
    ensures WellFormed(Restyle(row, start, end, f))
  {
    var r := Restyle(row, start, end, f);
    forall i | 0 <= i < |r|
      ensures CellOk(r, i)
    {
      assert CellOk(row, i);
    }
  }

  /** Restyling changes whole cells: the group of a column is restyled exactly when it has a column in
      the span, and text, links and widths stay. */
  lemma RestyleWholeCells(row: Row, start: nat, end: nat, f: CellStyle -> CellStyle, i: nat)
    requires WellFormed(row) && start < end <= |row| && i < |row|
    ensures Restyle(row, start, end, f)[i]
         == if Cut(row, i, start, end - start) then row[i].(style := f(row[i].style)) else row[i]
  {
    var p, from, to := GroupStart(row, i), GroupStart(row, start), GroupEnd(row, end);
    assert CellOk(row, 0) && CellOk(row, p);
    assert from == 0 ==> CellOk(row, from);
    GroupCovers(row, p, i);
    if start < |row| && p <= start { GroupCovers(row, p, start); }
    if from <= i && i <= start { GroupStartUnique(row, i, from); }
    if p <= to && to < |row| { GroupCovers(row, p, to); }
  }
}
