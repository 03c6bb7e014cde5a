/** The cells of a rendered row and the groups they form: a lead cell and the continuation cells of a
    wide one (grid.rs). */
module Cells {
  import opened Text
  import opened Style

  datatype Cell = Cell(text: string, style: CellStyle, continuation: bool, link: Option<Hyperlink>)

  datatype CursorShape = BlockCursor | UnderlineCursor | BeamCursor

  datatype GridCursor = GridCursor(x: nat, y: nat, shape: CursorShape)

  const DEFAULT_CELL := Cell(SPACE, PLAIN, false, None)

  /** No row starts inside a group, leads have text, and a continuation is an empty cell with its
      lead's style and link (it takes them from the cell before it). */
  ghost predicate WellFormed(row: seq<Cell>) {
    forall i :: 0 <= i < |row| ==> CellOk(row, i)
  }

  ghost predicate CellOk(row: seq<Cell>, i: nat)
    requires i < |row|
  {
    if row[i].continuation then
      i > 0 && row[i].text == "" && row[i].style == row[i - 1].style && row[i].link == row[i - 1].link
    else row[i].text != ""
  }

  /** How many continuation cells follow in a row from `i` on. */
  function Continuations(cells: seq<Cell>, i: nat): (n: nat)
    requires i <= |cells|
    ensures i + n <= |cells|
    ensures forall j :: i <= j < i + n ==> cells[j].continuation
    ensures i + n < |cells| ==> !cells[i + n].continuation
    decreases |cells| - i
  {
    if i < |cells| && cells[i].continuation then 1 + Continuations(cells, i + 1) else 0
  }

  /** How wide the group is whose lead is at `column`. */
  function CellWidth(cells: seq<Cell>, column: nat): (n: nat)
    requires column < |cells|
    ensures 1 <= n && column + n <= |cells|
    ensures column + n < |cells| ==> !cells[column + n].continuation
  {
    1 + Continuations(cells, column + 1)
  }
}
