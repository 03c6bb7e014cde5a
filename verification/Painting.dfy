/** What lines, filled rectangles and boxes of one-column characters look like on the grid (grid.rs). */
module Painting {
  import opened Text
  import opened Style
  import opened Cells
  import opened Rows
  import opened RenderGrids

  /** A picture: the cells that are drawn, by row and column. */
  type Picture = (int, int) -> Option<Cell>

  const NO_PICTURE: Picture := (z, i) => None

  /** Whether column `i` is part of a wide cell. */
  predicate Wide(row: Row, i: nat)
    requires i < |row|
  {
    row[i].continuation || (i + 1 < |row| && row[i + 1].continuation)
  }

  /** A column is drawn as the picture says, in a narrow cell, or is as it was; only a wide cell may have gone blank. */
  ghost predicate PaintedAt(before: Row, after: Row, want: Option<Cell>, i: nat)
    requires i < |before| == |after|
  {
    if want.Some? then after[i] == want.value && !Wide(after, i)
    else after[i] == before[i] || (after[i] == DEFAULT_CELL && Wide(before, i))
  }

  ghost predicate PaintedRow(before: Row, after: Row, picture: Picture, z: nat) {
    |before| == |after| && forall i :: 0 <= i < |before| ==> PaintedAt(before, after, picture(z, i), i)
  }

  /** `after` is `before` with the picture on it, where it is inside the grid. */
  ghost predicate Painted(before: seq<Row>, after: seq<Row>, picture: Picture) {
    |before| == |after| && forall z :: 0 <= z < |before| ==> PaintedRow(before[z], after[z], picture, z)
  }

  ghost predicate Same(a: Picture, b: Picture) {
    forall z, i :: a(z, i) == b(z, i)
  }

  lemma NothingPainted(rows: seq<Row>)
    ensures Painted(rows, rows, NO_PICTURE)
  {
  }

  lemma PaintedSame(before: seq<Row>, after: seq<Row>, a: Picture, b: Picture)
    requires Painted(before, after, a) && Same(a, b)
    ensures Painted(before, after, b)
  {
    hide PaintedAt;
    forall z | 0 <= z < |before| ensures PaintedRow(before[z], after[z], b, z) {
      assert PaintedRow(before[z], after[z], a, z);
      forall i | 0 <= i < |before[z]| ensures PaintedAt(before[z], after[z], b(z, i), i) {
        assert a(z, i) == b(z, i);
      }
    }
  }

  // ---- One character ----

  /** One character one column wide is one cell. */
  lemma OneCharCell(u: Unicode, row: Row, x: nat, ch: char, style: CellStyle)
    requires u.Valid() && |row| < U16_MAX && u.GraphemeWidth([ch]) == 1
    ensures PutText(u, row, x, [ch], style, None) == if x < |row| then PutCell(row, x, [ch], style, 1, None) else row
  {
    hide PutCell;
    var graphemes := u.graphemes([ch]);
    assert graphemes == [[ch]] && graphemes[0] == [ch] && graphemes[1..] == [];
    if x < |row| {
      var r := PutCell(row, x, [ch], style, 1, None);
      assert PutGraphemes(u, r, SatAdd(x, 1), [], style, None) == r;
      assert PutGraphemes(u, row, x, graphemes, style, None) == r;
    }
  }

  lemma CutIsWide(row: Row, i: nat, x: nat)
    requires i < |row| && x < |row| && i != x && Cut(row, i, x, 1)
    ensures Wide(row, i)
  {
  }

  /** The row after one cell: the cell, and blanks where a wide cell was cut. */
  lemma CellPainted(row: Row, x: nat, text: string, style: CellStyle)
    requires WellFormed(row) && x < |row| && text != ""
    ensures (var r := PutCell(row, x, text, style, 1, None);
             && |r| == |row| && r[x] == Cell(text, style, false, None) && !Wide(r, x)
             && forall i :: 0 <= i < |row| && i != x ==> r[i] == row[i] || (r[i] == DEFAULT_CELL && Wide(row, i)))
  {
    hide PutCell, Cut, WellFormed, Wide;
    var r := PutCell(row, x, text, style, 1, None);
    PutCellColumns(row, x, text, style, 1, None);
    PutCellKeepsWellFormed(row, x, text, style, 1, None);
    NotWide(r, x);
    forall i | 0 <= i < |row| && i != x ensures r[i] == row[i] || (r[i] == DEFAULT_CELL && Wide(row, i)) {
      PutCellBlanksOnlyCutCells(row, x, text, style, 1, None, i);
      if Cut(row, i, x, 1) { CutIsWide(row, i, x); }
    }
  }

  lemma NotWide(row: Row, i: nat)
    requires i < |row| && !row[i].continuation && (i + 1 < |row| ==> !row[i + 1].continuation)
    ensures !Wide(row, i)
  {
  }

  /** The picture with one more cell. */
  function WithCell(picture: Picture, y: nat, x: nat, cell: Cell): Picture {
    (z, i) => if z == y && i == x then Some(cell) else picture(z, i)
  }

  lemma CellPaintedAt(before: Row, mid: Row, after: Row, want: Option<Cell>, x: nat, i: nat)
    requires i < |before| == |mid| == |after| && x < |mid| && i != x && PaintedAt(before, mid, want, i)
    requires forall j :: 0 <= j < |mid| && j != x ==> after[j] == mid[j] || (after[j] == DEFAULT_CELL && Wide(mid, j))
    requires !after[x].continuation
    requires i + 1 < |before| && mid[i + 1].continuation && mid[i] == before[i] ==> before[i + 1] == mid[i + 1]
    ensures PaintedAt(before, after, want, i)
  {
  }

  /** A continuation in a painted row was there before. */
  lemma OldContinuation(before: Row, after: Row, picture: Picture, z: nat, i: nat)
    requires PaintedRow(before, after, picture, z) && i < |after| && after[i].continuation
    ensures before[i] == after[i]
  {
    assert PaintedAt(before, after, picture(z, i), i);
  }

  lemma RowPainted(before: Row, mid: Row, picture: Picture, z: nat, x: nat, text: string, style: CellStyle)
    requires PaintedRow(before, mid, picture, z) && WellFormed(mid) && x < |mid| && text != ""
    ensures (var after := PutCell(mid, x, text, style, 1, None);
             PaintedRow(before, after, WithCell(picture, z, x, Cell(text, style, false, None)), z))
  {
    hide PutCell, WellFormed, PaintedAt, Wide;
    var after := PutCell(mid, x, text, style, 1, None);
    var more := WithCell(picture, z, x, Cell(text, style, false, None));
    CellPainted(mid, x, text, style);
    forall i | 0 <= i < |before| ensures PaintedAt(before, after, more(z, i), i) {
      if i == x {
        DrawnPainted(before, after, Cell(text, style, false, None), x);
      } else {
        if i + 1 < |mid| && mid[i + 1].continuation { OldContinuation(before, mid, picture, z, i + 1); }
        CellPaintedAt(before, mid, after, picture(z, i), x, i);
      }
    }
  }

  lemma DrawnPainted(before: Row, after: Row, cell: Cell, x: nat)
    requires x < |before| == |after| && after[x] == cell && !Wide(after, x)
    ensures PaintedAt(before, after, Some(cell), x)
  {
  }

  /** One character of a picture. */
  lemma CharPainted(u: Unicode, before: seq<Row>, rows: seq<Row>, w: nat, h: nat, picture: Picture, x: nat, y: nat,
                    ch: char, style: CellStyle)
    requires u.Valid() && Shaped(rows, w, h) && Painted(before, rows, picture) && u.GraphemeWidth([ch]) == 1
    ensures (var r := PutIn(u, rows, x, y, [ch], style, None);
             Shaped(r, w, h) && Painted(before, r, WithCell(picture, y, x, Cell([ch], style, false, None))))
  {
    hide WellFormed, PutText, PutCell, PaintedAt;
    var r := PutIn(u, rows, x, y, [ch], style, None);
    var more := WithCell(picture, y, x, Cell([ch], style, false, None));
    PutInKeepsShape(u, rows, w, h, x, y, [ch], style, None);
    forall z | 0 <= z < |before| ensures PaintedRow(before[z], r[z], more, z) {
      assert PaintedRow(before[z], rows[z], picture, z);
      if z == y {
        OneCharCell(u, rows[y], x, ch, style);
        if x < w { RowPainted(before[y], rows[y], picture, y, x, [ch], style); }
      }
    }
  }

  // ---- Lines ----

  function WithHLine(picture: Picture, x: nat, y: nat, n: nat, cell: Cell): Picture {
    (z, i) => if z == y && x <= i < x + n then Some(cell) else picture(z, i)
  }

  function WithVLine(picture: Picture, x: nat, y: nat, n: nat, cell: Cell): Picture {
    (z, i) => if i == x && y <= z < y + n then Some(cell) else picture(z, i)
  }

  /** A point past what the grid can hold draws nothing. */
  lemma OffGrid(before: seq<Row>, rows: seq<Row>, w: nat, h: nat, a: Picture, b: Picture)
    requires Shaped(rows, w, h) && Painted(before, rows, a)
    requires forall z, i :: 0 <= z < h && 0 <= i < w ==> a(z, i) == b(z, i)
    ensures Painted(before, rows, b)
  {
    hide PaintedAt, WellFormed;
    forall z | 0 <= z < |before| ensures PaintedRow(before[z], rows[z], b, z) {
      assert PaintedRow(before[z], rows[z], a, z);
      forall i | 0 <= i < |before[z]| ensures PaintedAt(before[z], rows[z], b(z, i), i) {
        assert a(z, i) == b(z, i);
      }
    }
  }

  lemma {:induction false} HLinePainted(u: Unicode, before: seq<Row>, rows: seq<Row>, w: nat, h: nat, picture: Picture,
                                        x: nat, y: nat, n: nat, ch: char, style: CellStyle, k: nat)
    requires u.Valid() && Shaped(rows, w, h) && u.GraphemeWidth([ch]) == 1 && k <= n
    requires Painted(before, rows, WithHLine(picture, x, y, k, Cell([ch], style, false, None)))
    ensures (var r := HLine(u, rows, x, y, n, ch, style, k);
             Shaped(r, w, h) && Painted(before, r, WithHLine(picture, x, y, n, Cell([ch], style, false, None))))
    decreases n - k
  {
    hide Painted, PutIn, WellFormed;
    var cell := Cell([ch], style, false, None);
    if k < n {
      var at := SatAdd(x, k);
      var drawn := WithHLine(picture, x, y, k, cell);
      CharPainted(u, before, rows, w, h, drawn, at, y, ch, style);
      var next := PutIn(u, rows, at, y, [ch], style, None);
      OffGrid(before, next, w, h, WithCell(drawn, y, at, cell), WithHLine(picture, x, y, k + 1, cell));
      HLinePainted(u, before, next, w, h, picture, x, y, n, ch, style, k + 1);
    }
  }

  lemma {:induction false} VLinePainted(u: Unicode, before: seq<Row>, rows: seq<Row>, w: nat, h: nat, picture: Picture,
                                        x: nat, y: nat, n: nat, ch: char, style: CellStyle, k: nat)
    requires u.Valid() && Shaped(rows, w, h) && u.GraphemeWidth([ch]) == 1 && k <= n
    requires Painted(before, rows, WithVLine(picture, x, y, k, Cell([ch], style, false, None)))
    ensures (var r := VLine(u, rows, x, y, n, ch, style, k);
             Shaped(r, w, h) && Painted(before, r, WithVLine(picture, x, y, n, Cell([ch], style, false, None))))
    decreases n - k
  {
    hide Painted, PutIn, WellFormed;
    var cell := Cell([ch], style, false, None);
    if k < n {
      var at := SatAdd(y, k);
      var drawn := WithVLine(picture, x, y, k, cell);
      CharPainted(u, before, rows, w, h, drawn, x, at, ch, style);
      var next := PutIn(u, rows, x, at, [ch], style, None);
      OffGrid(before, next, w, h, WithCell(drawn, at, x, cell), WithVLine(picture, x, y, k + 1, cell));
      VLinePainted(u, before, next, w, h, picture, x, y, n, ch, style, k + 1);
    }
  }

  /** A horizontal line added to a picture. */
  lemma AddHLine(u: Unicode, before: seq<Row>, rows: seq<Row>, w: nat, h: nat, picture: Picture, x: nat, y: nat, n: nat,
                 ch: char, style: CellStyle)
    requires u.Valid() && Shaped(rows, w, h) && u.GraphemeWidth([ch]) == 1 && Painted(before, rows, picture)
    ensures (var r := HLine(u, rows, x, y, n, ch, style, 0);
             Shaped(r, w, h) && Painted(before, r, WithHLine(picture, x, y, n, Cell([ch], style, false, None))))
  {
    hide Painted, HLine;
    PaintedSame(before, rows, picture, WithHLine(picture, x, y, 0, Cell([ch], style, false, None)));
    HLinePainted(u, before, rows, w, h, picture, x, y, n, ch, style, 0);
  }

  lemma AddVLine(u: Unicode, before: seq<Row>, rows: seq<Row>, w: nat, h: nat, picture: Picture, x: nat, y: nat, n: nat,
                 ch: char, style: CellStyle)
    requires u.Valid() && Shaped(rows, w, h) && u.GraphemeWidth([ch]) == 1 && Painted(before, rows, picture)
    ensures (var r := VLine(u, rows, x, y, n, ch, style, 0);
             Shaped(r, w, h) && Painted(before, r, WithVLine(picture, x, y, n, Cell([ch], style, false, None))))
  {
    hide Painted, VLine;
    PaintedSame(before, rows, picture, WithVLine(picture, x, y, 0, Cell([ch], style, false, None)));
    VLinePainted(u, before, rows, w, h, picture, x, y, n, ch, style, 0);
  }

  /** A line of one-column characters is drawn in its columns of its row; of other cells only wide ones it cuts go
      blank. */
  lemma HLineDraws(u: Unicode, rows: seq<Row>, w: nat, h: nat, x: nat, y: nat, n: nat, ch: char, style: CellStyle)
    requires u.Valid() && Shaped(rows, w, h) && u.GraphemeWidth([ch]) == 1
    ensures Painted(rows, HLine(u, rows, x, y, n, ch, style, 0),
                    (z, i) => if z == y && x <= i < x + n then Some(Cell([ch], style, false, None)) else None)
  {
    hide Painted, HLine;
    NothingPainted(rows);
    AddHLine(u, rows, rows, w, h, NO_PICTURE, x, y, n, ch, style);
    PaintedSame(rows, HLine(u, rows, x, y, n, ch, style, 0),
                WithHLine(NO_PICTURE, x, y, n, Cell([ch], style, false, None)),
                (z, i) => if z == y && x <= i < x + n then Some(Cell([ch], style, false, None)) else None);
  }

  /** The same of a line down a column. */
  lemma VLineDraws(u: Unicode, rows: seq<Row>, w: nat, h: nat, x: nat, y: nat, n: nat, ch: char, style: CellStyle)
    requires u.Valid() && Shaped(rows, w, h) && u.GraphemeWidth([ch]) == 1
    ensures Painted(rows, VLine(u, rows, x, y, n, ch, style, 0),
                    (z, i) => if i == x && y <= z < y + n then Some(Cell([ch], style, false, None)) else None)
  {
    hide Painted, VLine;
    NothingPainted(rows);
    AddVLine(u, rows, rows, w, h, NO_PICTURE, x, y, n, ch, style);
    PaintedSame(rows, VLine(u, rows, x, y, n, ch, style, 0),
                WithVLine(NO_PICTURE, x, y, n, Cell([ch], style, false, None)),
                (z, i) => if i == x && y <= z < y + n then Some(Cell([ch], style, false, None)) else None);
  }

  // ---- Rectangles ----

  /** The cells of a rectangle's first `n` rows. */
  function Filling(x: nat, y: nat, width: nat, n: nat, cell: Cell): Picture {
    (z, i) => if y <= z < y + n && x <= i < x + width then Some(cell) else None
  }

  lemma {:induction false} FillPainted(u: Unicode, before: seq<Row>, rows: seq<Row>, w: nat, h: nat, x: nat, y: nat,
                                       width: nat, height: nat, ch: char, style: CellStyle, k: nat)
    requires u.Valid() && Shaped(rows, w, h) && u.GraphemeWidth([ch]) == 1 && k <= height
    requires Painted(before, rows, Filling(x, y, width, k, Cell([ch], style, false, None)))
    ensures Painted(before, Fill(u, rows, x, y, width, height, ch, style, k),
                    Filling(x, y, width, height, Cell([ch], style, false, None)))
    decreases height - k
  {
    hide Painted, HLine, WellFormed;
    var cell := Cell([ch], style, false, None);
    if k < height {
      var at := SatAdd(y, k);
      var filled := Filling(x, y, width, k, cell);
      AddHLine(u, before, rows, w, h, filled, x, at, width, ch, style);
      var next := HLine(u, rows, x, at, width, ch, style, 0);
      OffGrid(before, next, w, h, WithHLine(filled, x, at, width, cell), Filling(x, y, width, k + 1, cell));
      FillPainted(u, before, next, w, h, x, y, width, height, ch, style, k + 1);
    }
  }

  /** A filled rectangle: the fill in every cell of it, and beside it, in its own rows too, only wide cells it cuts go
      blank. */
  lemma FillDraws(u: Unicode, rows: seq<Row>, w: nat, h: nat, x: nat, y: nat, width: nat, height: nat, ch: char,
                  style: CellStyle)
    requires u.Valid() && Shaped(rows, w, h) && u.GraphemeWidth([ch]) == 1
    ensures Painted(rows, Fill(u, rows, x, y, width, height, ch, style, 0),
                    (z, i) => if y <= z < y + height && x <= i < x + width
                              then Some(Cell([ch], style, false, None)) else None)
  {
    hide Painted, Fill;
    var cell := Cell([ch], style, false, None);
    NothingPainted(rows);
    PaintedSame(rows, rows, NO_PICTURE, Filling(x, y, width, 0, cell));
    FillPainted(u, rows, rows, w, h, x, y, width, height, ch, style, 0);
    PaintedSame(rows, Fill(u, rows, x, y, width, height, ch, style, 0), Filling(x, y, width, height, cell),
                (z, i) => if y <= z < y + height && x <= i < x + width
                          then Some(Cell([ch], style, false, None)) else None);
  }

  // ---- Boxes ----

  /** The character of a box's border at row `z` and column `i`, if one is there. The lower right corners win where
      corners meet. */
  function BorderChar(x: nat, y: nat, width: nat, height: nat, b: Border, z: int, i: int): Option<char> {
    var right, bottom := x + width - 1, y + height - 1;
    if z == bottom && i == right then Some(b.bottomRight)
    else if z == bottom && i == x then Some(b.bottomLeft)
    else if z == y && i == right then Some(b.topRight)
    else if z == y && i == x then Some(b.topLeft)
    else if (z == y || z == bottom) && x < i < right then Some(b.horizontal)
    else if (i == x || i == right) && y < z < bottom then Some(b.vertical)
    else None
  }

  function BoxPicture(x: nat, y: nat, width: nat, height: nat, b: Border, style: CellStyle): Picture {
    (z, i) => match BorderChar(x, y, width, height, b, z, i)
      case None => None
      case Some(ch) => Some(Cell([ch], style, false, None))
  }

  predicate Narrow(u: Unicode, b: Border) {
    && u.GraphemeWidth([b.topLeft]) == 1 && u.GraphemeWidth([b.topRight]) == 1 && u.GraphemeWidth([b.bottomLeft]) == 1
    && u.GraphemeWidth([b.bottomRight]) == 1 && u.GraphemeWidth([b.horizontal]) == 1
    && u.GraphemeWidth([b.vertical]) == 1
  }

  function Corners(u: Unicode, rows: seq<Row>, x: nat, y: nat, right: nat, bottom: nat, b: Border,
                   style: CellStyle): (r: seq<Row>)
    requires forall y :: 0 <= y < |rows| ==> |rows[y]| < U16_MAX
    ensures |r| == |rows| && forall y :: 0 <= y < |rows| ==> |r[y]| == |rows[y]|
  {
    PutIn(u, PutIn(u, PutIn(u, PutIn(u, rows, x, y, [b.topLeft], style, None),
                   right, y, [b.topRight], style, None), x, bottom, [b.bottomLeft], style, None),
          right, bottom, [b.bottomRight], style, None)
  }

  function CornersPicture(x: nat, y: nat, right: nat, bottom: nat, b: Border, style: CellStyle): Picture {
    WithCell(WithCell(WithCell(WithCell(NO_PICTURE, y, x, Cell([b.topLeft], style, false, None)),
                               y, right, Cell([b.topRight], style, false, None)),
                      bottom, x, Cell([b.bottomLeft], style, false, None)),
             bottom, right, Cell([b.bottomRight], style, false, None))
  }

  lemma CornersDraw(u: Unicode, rows: seq<Row>, w: nat, h: nat, x: nat, y: nat, right: nat, bottom: nat, b: Border,
                    style: CellStyle)
    requires u.Valid() && Shaped(rows, w, h) && Narrow(u, b)
    ensures (var r := Corners(u, rows, x, y, right, bottom, b, style);
             Shaped(r, w, h) && Painted(rows, r, CornersPicture(x, y, right, bottom, b, style)))
  {
    hide Painted, PutIn, Unicode.GraphemeWidth, WellFormed;
    NothingPainted(rows);
    CharPainted(u, rows, rows, w, h, NO_PICTURE, x, y, b.topLeft, style);
    var p1 := WithCell(NO_PICTURE, y, x, Cell([b.topLeft], style, false, None));
    var r1 := PutIn(u, rows, x, y, [b.topLeft], style, None);
    CharPainted(u, rows, r1, w, h, p1, right, y, b.topRight, style);
    var p2 := WithCell(p1, y, right, Cell([b.topRight], style, false, None));
    var r2 := PutIn(u, r1, right, y, [b.topRight], style, None);
    CharPainted(u, rows, r2, w, h, p2, x, bottom, b.bottomLeft, style);
    var p3 := WithCell(p2, bottom, x, Cell([b.bottomLeft], style, false, None));
    var r3 := PutIn(u, r2, x, bottom, [b.bottomLeft], style, None);
    CharPainted(u, rows, r3, w, h, p3, right, bottom, b.bottomRight, style);
  }

  /** The two horizontal edges, when there is room between the corners. */
  function Edges(u: Unicode, rows: seq<Row>, x: nat, y: nat, bottom: nat, width: nat, ch: char,
                 style: CellStyle): (r: seq<Row>)
    requires forall y :: 0 <= y < |rows| ==> |rows[y]| < U16_MAX
    ensures |r| == |rows| && forall y :: 0 <= y < |rows| ==> |r[y]| == |rows[y]|
  {
    if width <= 2 then rows
    else HLine(u, HLine(u, rows, x + 1, y, width - 2, ch, style, 0), x + 1, bottom, width - 2, ch, style, 0)
  }

  function EdgesPicture(picture: Picture, x: nat, y: nat, bottom: nat, width: nat, cell: Cell): Picture {
    if width <= 2 then picture
    else WithHLine(WithHLine(picture, x + 1, y, width - 2, cell), x + 1, bottom, width - 2, cell)
  }

  lemma EdgesDraw(u: Unicode, before: seq<Row>, rows: seq<Row>, w: nat, h: nat, picture: Picture, x: nat, y: nat,
                  bottom: nat, width: nat, ch: char, style: CellStyle)
    requires u.Valid() && Shaped(rows, w, h) && u.GraphemeWidth([ch]) == 1 && Painted(before, rows, picture)
    ensures (var r := Edges(u, rows, x, y, bottom, width, ch, style);
             Shaped(r, w, h)
             && Painted(before, r, EdgesPicture(picture, x, y, bottom, width, Cell([ch], style, false, None))))
  {
    hide Painted, HLine, Unicode.GraphemeWidth, WellFormed, WithHLine;
    if width > 2 {
      var cell := Cell([ch], style, false, None);
      AddHLine(u, before, rows, w, h, picture, x + 1, y, width - 2, ch, style);
      AddHLine(u, before, HLine(u, rows, x + 1, y, width - 2, ch, style, 0), w, h,
               WithHLine(picture, x + 1, y, width - 2, cell), x + 1, bottom, width - 2, ch, style);
    }
  }

  /** The two sides. */
  function Sides(u: Unicode, rows: seq<Row>, x: nat, right: nat, y: nat, height: nat, ch: char,
                 style: CellStyle): (r: seq<Row>)
    requires forall y :: 0 <= y < |rows| ==> |rows[y]| < U16_MAX
    ensures |r| == |rows| && forall y :: 0 <= y < |rows| ==> |r[y]| == |rows[y]|
  {
    if height <= 2 then rows
    else VLine(u, VLine(u, rows, x, y + 1, height - 2, ch, style, 0), right, y + 1, height - 2, ch, style, 0)
  }

  function SidesPicture(picture: Picture, x: nat, right: nat, y: nat, height: nat, cell: Cell): Picture {
    if height <= 2 then picture
    else WithVLine(WithVLine(picture, x, y + 1, height - 2, cell), right, y + 1, height - 2, cell)
  }

  lemma SidesDraw(u: Unicode, before: seq<Row>, rows: seq<Row>, w: nat, h: nat, picture: Picture, x: nat, right: nat,
                  y: nat, height: nat, ch: char, style: CellStyle)
    requires u.Valid() && Shaped(rows, w, h) && u.GraphemeWidth([ch]) == 1 && Painted(before, rows, picture)
    ensures (var r := Sides(u, rows, x, right, y, height, ch, style);
             Shaped(r, w, h)
             && Painted(before, r, SidesPicture(picture, x, right, y, height, Cell([ch], style, false, None))))
  {
    hide Painted, VLine, Unicode.GraphemeWidth, WellFormed, WithVLine;
    if height > 2 {
      var cell := Cell([ch], style, false, None);
      AddVLine(u, before, rows, w, h, picture, x, y + 1, height - 2, ch, style);
      AddVLine(u, before, VLine(u, rows, x, y + 1, height - 2, ch, style, 0), w, h,
               WithVLine(picture, x, y + 1, height - 2, cell), right, y + 1, height - 2, ch, style);
    }
  }

  /** Corners, edges and sides are the box's border. */
  lemma BorderIsBox(x: nat, y: nat, width: nat, height: nat, b: Border, style: CellStyle)
    requires width > 0 && height > 0
    ensures (var right, bottom := x + width - 1, y + height - 1;
             Same(SidesPicture(EdgesPicture(CornersPicture(x, y, right, bottom, b, style), x, y, bottom, width,
                                            Cell([b.horizontal], style, false, None)),
                               x, right, y, height, Cell([b.vertical], style, false, None)),
                  BoxPicture(x, y, width, height, b, style)))
  {
  }

  /** A box inside the grid: its corners, edges and sides where they belong, and everything else, inside and outside,
      as it was but for wide cells the border cuts. */
  lemma BoxDraws(u: Unicode, rows: seq<Row>, w: nat, h: nat, x: nat, y: nat, width: nat, height: nat, b: Border,
                 style: CellStyle)
    requires u.Valid() && Shaped(rows, w, h) && Narrow(u, b)
    requires width > 0 && height > 0 && x + width <= w && y + height <= h
    ensures Painted(rows, Box(u, rows, x, y, width, height, b, style), BoxPicture(x, y, width, height, b, style))
  {
    hide Painted, PutIn, HLine, VLine, Unicode.GraphemeWidth, WellFormed, BoxPicture, CornersPicture, EdgesPicture,
         SidesPicture, Same;
    var right, bottom := SatAdd(x, width - 1), SatAdd(y, height - 1);
    var across, down := Cell([b.horizontal], style, false, None), Cell([b.vertical], style, false, None);
    var corners, p1 := Corners(u, rows, x, y, right, bottom, b, style), CornersPicture(x, y, right, bottom, b, style);
    CornersDraw(u, rows, w, h, x, y, right, bottom, b, style);
    EdgesDraw(u, rows, corners, w, h, p1, x, y, bottom, width, b.horizontal, style);
    var edges, p2 := Edges(u, corners, x, y, bottom, width, b.horizontal, style),
                     EdgesPicture(p1, x, y, bottom, width, across);
    SidesDraw(u, rows, edges, w, h, p2, x, right, y, height, b.vertical, style);
    BorderIsBox(x, y, width, height, b, style);
    PaintedSame(rows, Sides(u, edges, x, right, y, height, b.vertical, style),
                SidesPicture(p2, x, right, y, height, down),
                BoxPicture(x, y, width, height, b, style));
  }
}
