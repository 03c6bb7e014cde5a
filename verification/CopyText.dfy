/** The text copy mode walks over (copy_mode.rs): lines of cells, their classes, and what counts as a
    stop of a word motion. */
module CopyText {
  import opened Text

  /** A position on screen: a line of the buffer's history and a display column. */
  datatype SelectionPoint = SelectionPoint(line: nat, column: nat)

  datatype Cell = Cell(column: nat, width: nat, text: string)

  datatype CharClass = Blank | Separator | Word

  function IsAsciiPunctuation(ch: char): bool {
    '!' <= ch <= '/' || ':' <= ch <= '@' || '[' <= ch <= '`' || '{' <= ch <= '~'
  }

  function ClassOf(u: Unicode, text: string, spaceSeparated: bool): CharClass {
    if text == "" || u.whitespace(text[0]) then Blank
    else if !spaceSeparated && IsAsciiPunctuation(text[0]) && text[0] != '_' then Separator
    else Word
  }

  function CellsFrom(u: Unicode, graphemes: seq<string>, column: nat): (cells: seq<Cell>)
    ensures |cells| == |graphemes|
  {
    if graphemes == [] then []
    else
      var width := u.GraphemeWidth(graphemes[0]);
      [Cell(column, width, graphemes[0])] + CellsFrom(u, graphemes[1..], SatAdd(column, width))
  }

  function CellsOf(u: Unicode, line: string): seq<Cell> {
    CellsFrom(u, u.graphemes(line), 0)
  }

  predicate IsAsciiLetterOrDigit(ch: char) {
    '0' <= ch <= '9' || 'A' <= ch <= 'Z' || 'a' <= ch <= 'z'
  }

  /** What words are made of: a WORD of anything but blanks; a word of letters, digits, underscores and what is not
      ASCII, a run of other visible ASCII characters being one of its own. */
  lemma ClassesAre(u: Unicode, text: string)
    ensures ClassOf(u, text, true) == Blank <==> text == "" || u.whitespace(text[0])
    ensures ClassOf(u, text, false) == Blank <==> ClassOf(u, text, true) == Blank
    ensures ClassOf(u, text, true) != Separator
    ensures ClassOf(u, text, false) == Separator
       <==> ClassOf(u, text, true) == Word && '!' <= text[0] <= '~' && !IsAsciiLetterOrDigit(text[0]) && text[0] != '_'
  {
  }

  lemma {:induction false} CellsFollow(u: Unicode, graphemes: seq<string>, column: nat, i: nat)
    requires i < |graphemes|
    ensures (var cells := CellsFrom(u, graphemes, column);
             && cells[i].text == graphemes[i] && cells[i].width == u.GraphemeWidth(graphemes[i])
             && cells[i].column == if i == 0 then column else SatAdd(cells[i - 1].column, cells[i - 1].width))
    decreases i
  {
    if i > 0 { CellsFollow(u, graphemes[1..], SatAdd(column, u.GraphemeWidth(graphemes[0])), i - 1); }
  }

  /** The cell covering `column`, or the number of cells when it lies past the end. */
  function CellIndex(cells: seq<Cell>, column: nat): (i: nat)
    ensures i <= |cells|
    ensures i < |cells| ==> column < SatAdd(cells[i].column, cells[i].width)
    ensures forall j :: 0 <= j < i ==> column >= SatAdd(cells[j].column, cells[j].width)
  {
    if cells == [] || column < SatAdd(cells[0].column, cells[0].width) then 0 else 1 + CellIndex(cells[1..], column)
  }

  /** The buffer's text; lines beyond it read as empty. */
  datatype Doc = Doc(u: Unicode, lines: seq<string>, lastLine: nat, spaceSeparated: bool)
  {
    function LineText(line: nat): string {
      if line < |lines| then lines[line] else ""
    }

    function Cells(line: nat): seq<Cell> {
      CellsOf(u, LineText(line))
    }

    function Len(line: nat): nat {
      |Cells(line)|
    }

    /** The class of a position; past the last cell a line reads as blank. */
    function Class(line: nat, index: nat): CharClass {
      if index < Len(line) then ClassOf(u, Cells(line)[index].text, spaceSeparated) else Blank
    }

    ghost predicate Has(p: Pos) {
      p.line <= lastLine && p.index <= Len(p.line)
    }

    /** Where a word starts: a cell that begins a run of one class, or an empty line. */
    predicate IsStop(p: Pos) {
      && p.line <= lastLine
      && (if Len(p.line) == 0 then p.index == 0
          else p.index < Len(p.line) && Class(p.line, p.index) != Blank
               && (p.index == 0 || Class(p.line, p.index - 1) != Class(p.line, p.index)))
    }

    /** Where a word ends: a cell that ends a run of one class. */
    predicate IsRunEnd(p: Pos) {
      p.line <= lastLine && p.index < Len(p.line) && Class(p.line, p.index) != Blank
      && Class(p.line, p.index + 1) != Class(p.line, p.index)
    }

    /** The position past the last cell of the buffer. */
    function End(): Pos {
      Pos(lastLine, Len(lastLine))
    }

    /** The position shown on screen, moved onto the last cell when it is past it. */
    function PointOf(p: Pos): SelectionPoint {
      var cells := Cells(p.line);
      var index := Min(p.index, if |cells| > 0 then |cells| - 1 else 0);
      SelectionPoint(p.line, if index < |cells| then cells[index].column else 0)
    }

    /** The position under a point. */
    function PosOf(at: SelectionPoint): Pos {
      var line := Min(at.line, lastLine);
      Pos(line, CellIndex(Cells(line), at.column))
    }

    ghost predicate NextStop(from: Pos, p: Pos) {
      IsStop(p) && Before(from, p) && forall q :: IsStop(q) && Before(from, q) ==> !Before(q, p)
    }

    ghost predicate PreviousStop(from: Pos, p: Pos) {
      IsStop(p) && Before(p, from) && forall q :: IsStop(q) && Before(q, from) ==> !Before(p, q)
    }

    ghost predicate NextRunEnd(from: Pos, p: Pos) {
      IsRunEnd(p) && Before(from, p) && forall q :: IsRunEnd(q) && Before(from, q) ==> !Before(q, p)
    }
  }

  datatype Pos = Pos(line: nat, index: nat)

  predicate Before(p: Pos, q: Pos) {
    p.line < q.line || (p.line == q.line && p.index < q.index)
  }

  // ---- Laws of the specification ----

  /** A line's cells: one for each grapheme cluster of its text, as wide as it measures, each behind the one before;
      lines beyond the text have none. */
  lemma CellsAre(doc: Doc, line: nat, i: nat)
    requires doc.u.Valid()
    ensures (var graphemes := if line < |doc.lines| then doc.u.graphemes(doc.lines[line]) else [];
             var cells := doc.Cells(line);
             && |cells| == |graphemes|
             && (i < |cells| ==>
                   && cells[i].text == graphemes[i] && cells[i].width == doc.u.GraphemeWidth(cells[i].text)
                   && cells[i].column == if i == 0 then 0 else SatAdd(cells[i - 1].column, cells[i - 1].width)))
  {
    assert Repeat(' ', 0) == "" && Repeat(SPACE, 0) == [];
    var graphemes := doc.u.graphemes(doc.LineText(line));
    if i < |graphemes| { CellsFollow(doc.u, graphemes, 0, i); }
  }

  /** Past the end of a line is shown as its last cell, and an empty line as its first column. */
  lemma PastEndIsLast(doc: Doc, line: nat, index: nat)
    requires index >= doc.Len(line)
    ensures doc.Len(line) > 0 ==> doc.PointOf(Pos(line, index)) == doc.PointOf(Pos(line, doc.Len(line) - 1))
    ensures doc.Len(line) == 0 ==> doc.PointOf(Pos(line, index)) == SelectionPoint(line, 0)
  {
  }

  /** Back from the next word start is the stop one came from. */
  lemma PreviousOfNext(doc: Doc, p: Pos, q: Pos, r: Pos)
    requires doc.IsStop(p) && doc.NextStop(p, q) && doc.PreviousStop(q, r)
    ensures r == p
  {
  }

  /** And the other way round. */
  lemma NextOfPrevious(doc: Doc, p: Pos, q: Pos, r: Pos)
    requires doc.IsStop(p) && doc.PreviousStop(p, q) && doc.NextStop(q, r)
    ensures r == p
  {
  }

  lemma {:induction false} CellColumns(u: Unicode, graphemes: seq<string>, column: nat, i: nat, j: nat)
    requires i < j < |graphemes|
    ensures (var cells := CellsFrom(u, graphemes, column);
             SatAdd(cells[i].column, cells[i].width) <= cells[j].column && cells[j].column >= Min(column, U16_MAX))
    decreases j
  {
    var width := u.GraphemeWidth(graphemes[0]);
    if i > 0 {
      CellColumns(u, graphemes[1..], SatAdd(column, width), i - 1, j - 1);
    } else if j > 1 {
      CellColumns(u, graphemes[1..], SatAdd(column, width), 0, j - 1);
      FirstColumn(u, graphemes[1..], SatAdd(column, width), j - 1);
    }
  }

  lemma {:induction false} FirstColumn(u: Unicode, graphemes: seq<string>, column: nat, j: nat)
    requires j < |graphemes|
    ensures CellsFrom(u, graphemes, column)[j].column >= Min(column, U16_MAX)
    decreases j
  {
    if j > 0 { FirstColumn(u, graphemes[1..], SatAdd(column, u.GraphemeWidth(graphemes[0])), j - 1); }
  }

  /** Walking from the point of a position starts at that position, on lines narrower than a u16. */
  lemma PointPosition(doc: Doc, p: Pos)
    requires doc.Has(p) && (if doc.Len(p.line) == 0 then p.index == 0
                            else p.index < doc.Len(p.line) && doc.Cells(p.line)[p.index].column < U16_MAX)
    ensures doc.PosOf(doc.PointOf(p)) == p
  {
    var cells := doc.Cells(p.line);
    if cells != [] {
      var column := cells[p.index].column;
      var i := CellIndex(cells, column);
      var graphemes := doc.u.graphemes(doc.LineText(p.line));
      assert column < SatAdd(cells[p.index].column, cells[p.index].width) by { CellAt(doc.u, graphemes, 0, p.index); }
      if i < p.index { CellColumns(doc.u, graphemes, 0, i, p.index); }
    }
  }

  lemma {:induction false} CellAt(u: Unicode, graphemes: seq<string>, column: nat, i: nat)
    requires i < |graphemes|
    ensures CellsFrom(u, graphemes, column)[i].width >= 1
    ensures CellsFrom(u, graphemes, column)[i].text == graphemes[i]
    decreases i
  {
    if i > 0 { CellAt(u, graphemes[1..], SatAdd(column, u.GraphemeWidth(graphemes[0])), i - 1); }
  }

  /** `w` then `b` from a word start: if there is a later stop at all, the cursor is back on the cell it
      left, however the two motions fall back, on lines narrower than a u16. */
  lemma WordThereAndBack(doc: Doc, at: SelectionPoint, q: Pos, r: Pos)
    requires doc.IsStop(doc.PosOf(at))
    requires doc.NextStop(doc.PosOf(at), q)
    requires doc.Len(q.line) > 0 ==> doc.Cells(q.line)[q.index].column < U16_MAX
    requires || doc.PreviousStop(doc.PosOf(doc.PointOf(q)), r)
             || (r == Pos(0, 0) && forall s :: doc.IsStop(s) ==> !Before(s, doc.PosOf(doc.PointOf(q))))
    ensures r == doc.PosOf(at)
  {
    hide CellsOf, ClassOf, CellIndex;
    PointPosition(doc, q);
    PreviousOfNext(doc, doc.PosOf(at), q, r);
  }
}
