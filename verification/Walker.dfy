/** The walker over buffer text and the word motions (copy_mode.rs): each loop is proved to reach the
    stop its specification names. */
module Walkers {
  import opened Text
  import opened CopyText

  /** A position in the buffer, one past the end of its line included, with that line's cells at hand. */
  class Walker {
    const doc: Doc
    var line: nat
    var cells: seq<Cell>
    var index: nat

    ghost predicate Valid()
      reads this
    {
      line <= doc.lastLine && cells == doc.Cells(line) && index <= |cells|
    }

    ghost function At(): Pos
      reads this
    {
      Pos(line, index)
    }

    constructor (doc: Doc, at: SelectionPoint)
      ensures Valid() && this.doc == doc && At() == doc.PosOf(at)
    {
      this.doc := doc;
      line := Min(at.line, doc.lastLine);
      cells := doc.Cells(Min(at.line, doc.lastLine));
      index := CellIndex(doc.Cells(Min(at.line, doc.lastLine)), at.column);
    }

    function ClassAt(i: nat): (c: CharClass)
      requires Valid()
      reads this
      ensures c == doc.Class(line, i)
    {
      if i < |cells| then ClassOf(doc.u, cells[i].text, doc.spaceSeparated) else Blank
    }

    function Class(): CharClass
      requires Valid()
      reads this
    {
      ClassAt(index)
    }

    predicate OnEmptyLine()
      reads this
    {
      cells == []
    }

    method Load(line: nat)
      requires line <= doc.lastLine
      modifies this`line, this`cells
      ensures this.line == line && cells == doc.Cells(line)
    {
      this.line := line;
      cells := doc.Cells(line);
    }

    /** One position on; false, without moving, at the end of the buffer. */
    method Forward() returns (moved: bool)
      requires Valid()
      modifies this
      ensures Valid()
      ensures moved == (old(At()) != doc.End())
      ensures At() == if !moved then old(At())
                      else if old(index) < doc.Len(old(line)) then Pos(old(line), old(index) + 1)
                      else Pos(old(line) + 1, 0)
    {
      if index < |cells| {
        index := index + 1;
        moved := true;
      } else if line < doc.lastLine {
        Load(line + 1);
        index := 0;
        moved := true;
      } else {
        moved := false;
      }
    }

    /** One position back; false, without moving, at the start of the buffer. */
    method Backward() returns (moved: bool)
      requires Valid()
      modifies this
      ensures Valid()
      ensures moved == (old(At()) != Pos(0, 0))
      ensures At() == if !moved then old(At())
                      else if old(index) > 0 then Pos(old(line), old(index) - 1)
                      else Pos(old(line) - 1, doc.Len(old(line) - 1))
    {
      if index > 0 {
        index := index - 1;
        moved := true;
      } else if line > 0 {
        Load(line - 1);
        index := |cells|;
        moved := true;
      } else {
        moved := false;
      }
    }

    method Point() returns (point: SelectionPoint)
      requires Valid()
      ensures point == doc.PointOf(At())
    {
      var i := Min(index, if |cells| > 0 then |cells| - 1 else 0);
      point := SelectionPoint(line, if i < |cells| then cells[i].column else 0);
    }
  }

  /** No stop lies strictly between `from` and `p`. */
  ghost predicate NoStopBetween(doc: Doc, from: Pos, p: Pos) {
    forall q :: doc.IsStop(q) && Before(from, q) ==> !Before(q, p)
  }

  /** The position after `p`, which is not the buffer's end. */
  function After(doc: Doc, p: Pos): Pos {
    if p.index < doc.Len(p.line) then Pos(p.line, p.index + 1) else Pos(p.line + 1, 0)
  }

  /** Moving on from a position that is no stop passes none. */
  lemma PassStop(doc: Doc, from: Pos, p: Pos)
    requires doc.Has(p) && NoStopBetween(doc, from, p) && !(doc.IsStop(p) && Before(from, p))
    ensures NoStopBetween(doc, from, After(doc, p))
  {
    hide CellsOf, ClassOf;
  }

  lemma PassRunEnd(doc: Doc, from: Pos, p: Pos)
    requires doc.Has(p) && NoRunEndBetween(doc, from, p) && !(doc.IsRunEnd(p) && Before(from, p))
    ensures NoRunEndBetween(doc, from, After(doc, p))
  {
    hide CellsOf, ClassOf;
  }

  /** Moving back from a position that is no stop leaves none behind. */
  lemma PassStopBack(doc: Doc, p: Pos, from: Pos, before: Pos)
    requires doc.Has(p) && doc.Has(before) && NoStopAfter(doc, p, from) && !(doc.IsStop(p) && Before(p, from))
    requires After(doc, before) == p
    ensures NoStopAfter(doc, before, from)
  {
    hide CellsOf, ClassOf;
  }

  lemma NothingPassed(doc: Doc, from: Pos)
    requires doc.Has(from)
    ensures NoStopBetween(doc, from, After(doc, from)) && NoRunEndBetween(doc, from, After(doc, from))
  {
    hide CellsOf, ClassOf;
  }

  lemma StopReached(doc: Doc, from: Pos, p: Pos)
    requires doc.IsStop(p) && Before(from, p) && NoStopBetween(doc, from, p)
    ensures doc.NextStop(from, p)
  {
  }

  /** Nothing lies after the end of the buffer. */
  lemma NoStopLeft(doc: Doc, from: Pos)
    requires NoStopBetween(doc, from, doc.End()) && !(doc.IsStop(doc.End()) && Before(from, doc.End()))
    ensures forall q :: doc.IsStop(q) ==> !Before(from, q)
  {
    hide CellsOf, ClassOf;
  }

  // ---- Where the word motions go ----

  ghost predicate NextWordIs(doc: Doc, from: Pos, p: Pos) {
    doc.NextStop(from, p) || (p == doc.End() && forall q :: doc.IsStop(q) ==> !Before(from, q))
  }

  ghost predicate PreviousWordIs(doc: Doc, from: Pos, p: Pos) {
    doc.PreviousStop(from, p) || (p == Pos(0, 0) && forall q :: doc.IsStop(q) ==> !Before(q, from))
  }

  ghost predicate WordEndIs(doc: Doc, from: Pos, p: Pos) {
    doc.NextRunEnd(from, p) || (p == doc.End() && forall q :: doc.IsRunEnd(q) ==> !Before(from, q))
  }

  /** `to` shows the next word start after `from`. */
  ghost predicate AtNextWord(doc: Doc, from: SelectionPoint, to: SelectionPoint) {
    exists p :: NextWordIs(doc, doc.PosOf(from), p) && to == doc.PointOf(p)
  }

  ghost predicate AtPreviousWord(doc: Doc, from: SelectionPoint, to: SelectionPoint) {
    exists p :: PreviousWordIs(doc, doc.PosOf(from), p) && to == doc.PointOf(p)
  }

  ghost predicate AtWordEnd(doc: Doc, from: SelectionPoint, to: SelectionPoint) {
    exists p :: WordEndIs(doc, doc.PosOf(from), p) && to == doc.PointOf(p)
  }

  /** `w`, `W`: the least stop after the cursor, or else the last character. */
  method NextWordStart(doc: Doc, at: SelectionPoint) returns (point: SelectionPoint)
    ensures AtNextWord(doc, at, point) && point.line <= doc.lastLine
  {
    hide CellsOf, ClassOf, CellIndex, NoStopBetween;
    ghost var from := doc.PosOf(at);
    var walker := new Walker(doc, at);
    NothingPassed(doc, from);
    var start := walker.Class();
    var moved := walker.Forward();
    if !moved {
      NoStopAtEnd(doc, from);
      point := walker.Point();
      assert NextWordIs(doc, from, walker.At());
      return;
    }
    if start != Blank {
      while walker.Class() == start
        invariant walker.Valid() && walker.doc == doc && fresh(walker)
        invariant walker.line == from.line && from.index < walker.index
        invariant doc.Class(walker.line, walker.index - 1) == start
        invariant NoStopBetween(doc, from, walker.At())
        decreases |walker.cells| - walker.index
      {
        PassStop(doc, from, walker.At());
        moved := walker.Forward();
        if !moved {
          assert false; // a word ends at its line's end, where the position reads as blank
        }
      }
    }
    var found := SkipBlanks(walker, from);
    if found { StopReached(doc, from, walker.At()); } else { NoStopLeft(doc, from); }
    point := walker.Point();
    assert NextWordIs(doc, from, walker.At());
  }

  /** Past the blanks at the walker, up to a word or an empty line; false at the end of the buffer. */
  method SkipBlanks(walker: Walker, ghost from: Pos) returns (found: bool)
    requires walker.Valid() && Before(from, walker.At()) && NoStopBetween(walker.doc, from, walker.At())
    requires walker.Class() == Blank || walker.index == 0
             || walker.doc.Class(walker.line, walker.index - 1) != walker.Class()
    modifies walker
    ensures walker.Valid() && Before(from, walker.At()) && NoStopBetween(walker.doc, from, walker.At())
    ensures found ==> walker.doc.IsStop(walker.At())
    ensures !found ==> walker.At() == walker.doc.End() && !walker.doc.IsStop(walker.At())
  {
    hide CellsOf, ClassOf, CellIndex, NoStopBetween;
    found := true;
    // Stop on an empty line too.
    while found && walker.Class() == Blank && !walker.OnEmptyLine()
      invariant walker.Valid() && Before(from, walker.At()) && NoStopBetween(walker.doc, from, walker.At())
      invariant walker.Class() == Blank || walker.index == 0
                || walker.doc.Class(walker.line, walker.index - 1) != walker.Class()
      invariant !found ==> walker.At() == walker.doc.End() && !walker.doc.IsStop(walker.At())
      decreases walker.doc.lastLine - walker.line, |walker.cells| - walker.index, found
    {
      PassStop(walker.doc, from, walker.At());
      found := walker.Forward();
    }
  }

  lemma NoStopAtEnd(doc: Doc, from: Pos)
    requires from == doc.End()
    ensures forall q :: doc.IsStop(q) ==> !Before(from, q)
  {
    hide CellsOf, ClassOf;
  }

  lemma RunEndReached(doc: Doc, from: Pos, p: Pos)
    requires doc.IsRunEnd(p) && Before(from, p) && NoRunEndBetween(doc, from, p)
    ensures WordEndIs(doc, from, p)
  {
  }

  /** The end of the buffer reads as blank, so no word ends there or later. */
  lemma NoRunEndAtEnd(doc: Doc, from: Pos)
    requires from == doc.End()
    ensures WordEndIs(doc, from, doc.End())
  {
    hide CellsOf, ClassOf;
  }

  lemma NoRunEndLeft(doc: Doc, from: Pos)
    requires NoRunEndBetween(doc, from, doc.End())
    ensures WordEndIs(doc, from, doc.End())
  {
    hide CellsOf, ClassOf;
  }

  lemma WordEndShown(doc: Doc, at: SelectionPoint, p: Pos)
    requires WordEndIs(doc, doc.PosOf(at), p)
    ensures AtWordEnd(doc, at, doc.PointOf(p))
  {
    hide WordEndIs;
  }

  /** `e`, `E`: the least word end after the cursor, or else the last character. */
  method NextWordEnd(doc: Doc, at: SelectionPoint) returns (point: SelectionPoint)
    ensures AtWordEnd(doc, at, point) && point.line <= doc.lastLine
  {
    hide CellsOf, ClassOf, CellIndex, NoRunEndBetween, WordEndIs, AtWordEnd;
    ghost var from := doc.PosOf(at);
    var walker := new Walker(doc, at);
    NothingPassed(doc, from);
    var moved := walker.Forward();
    if !moved {
      NoRunEndAtEnd(doc, from);
      point := walker.Point();
      WordEndShown(doc, at, walker.At());
      return;
    }
    while walker.Class() == Blank
      invariant walker.Valid() && walker.doc == doc && fresh(walker)
      invariant Before(from, walker.At()) && NoRunEndBetween(doc, from, walker.At())
      decreases doc.lastLine - walker.line, |walker.cells| - walker.index
    {
      PassRunEnd(doc, from, walker.At());
      moved := walker.Forward();
      if !moved {
        NoRunEndLeft(doc, from);
        point := walker.Point();
        WordEndShown(doc, at, walker.At());
        return;
      }
    }
    ToWordEnd(walker, from);
    RunEndReached(doc, from, walker.At());
    point := walker.Point();
    WordEndShown(doc, at, walker.At());
  }

  /** To the last cell of the word at the walker. */
  method ToWordEnd(walker: Walker, ghost from: Pos)
    requires walker.Valid() && walker.Class() != Blank && Before(from, walker.At())
    requires NoRunEndBetween(walker.doc, from, walker.At())
    modifies walker
    ensures walker.Valid() && Before(from, walker.At()) && NoRunEndBetween(walker.doc, from, walker.At())
    ensures walker.doc.IsRunEnd(walker.At())
  {
    hide CellsOf, ClassOf, CellIndex, NoRunEndBetween;
    var word := walker.Class();
    while walker.ClassAt(walker.index + 1) == word
      invariant walker.Valid() && walker.Class() == word != Blank
      invariant Before(from, walker.At()) && NoRunEndBetween(walker.doc, from, walker.At())
      decreases |walker.cells| - walker.index
    {
      PassRunEnd(walker.doc, from, walker.At());
      walker.index := walker.index + 1;
    }
  }

  ghost predicate NoRunEndBetween(doc: Doc, from: Pos, p: Pos) {
    forall q :: doc.IsRunEnd(q) && Before(from, q) ==> !Before(q, p)
  }

  /** Nothing lies between a position and the one after it. */
  lemma NothingPassedBack(doc: Doc, before: Pos, from: Pos)
    requires doc.Has(from) && doc.Has(before) && After(doc, before) == from
    ensures NoStopAfter(doc, before, from)
  {
    hide CellsOf, ClassOf;
  }

  lemma StopReachedBack(doc: Doc, p: Pos, from: Pos)
    requires doc.IsStop(p) && Before(p, from) && NoStopAfter(doc, p, from)
    ensures doc.PreviousStop(from, p)
  {
  }

  lemma NoStopAbove(doc: Doc, from: Pos)
    requires from == Pos(0, 0) || (NoStopAfter(doc, Pos(0, 0), from) && !doc.IsStop(Pos(0, 0)))
    ensures forall q :: doc.IsStop(q) ==> !Before(q, from)
  {
    hide CellsOf, ClassOf;
  }

  /** `b`, `B`: the greatest stop before the cursor, or else the start of the buffer. */
  method PreviousWordStart(doc: Doc, at: SelectionPoint) returns (point: SelectionPoint)
    ensures AtPreviousWord(doc, at, point) && point.line <= doc.lastLine
  {
    hide CellsOf, ClassOf, CellIndex, NoStopAfter;
    ghost var from := doc.PosOf(at);
    var walker := new Walker(doc, at);
    var moved := walker.Backward();
    if !moved {
      NoStopAbove(doc, from);
      point := walker.Point();
      assert PreviousWordIs(doc, from, walker.At());
      return;
    }
    NothingPassedBack(doc, walker.At(), from);
    while walker.Class() == Blank && !walker.OnEmptyLine()
      invariant walker.Valid() && walker.doc == doc && fresh(walker)
      invariant Before(walker.At(), from) && NoStopAfter(doc, walker.At(), from)
      decreases walker.line, walker.index
    {
      ghost var p := walker.At();
      moved := walker.Backward();
      if !moved {
        NoStopAbove(doc, from);
        point := walker.Point();
        assert PreviousWordIs(doc, from, walker.At());
        return;
      }
      PassStopBack(doc, p, from, walker.At());
    }
    if walker.OnEmptyLine() {
      StopReachedBack(doc, walker.At(), from);
      point := walker.Point();
      assert PreviousWordIs(doc, from, walker.At());
      return;
    }
    var word := walker.Class();
    while walker.index > 0 && walker.ClassAt(walker.index - 1) == word
      invariant walker.Valid() && walker.doc == doc && fresh(walker) && walker.Class() == word != Blank
      invariant Before(walker.At(), from) && NoStopAfter(doc, walker.At(), from)
      decreases walker.index
    {
      PassStopBack(doc, walker.At(), from, Pos(walker.line, walker.index - 1));
      walker.index := walker.index - 1;
    }
    StopReachedBack(doc, walker.At(), from);
    point := walker.Point();
    assert PreviousWordIs(doc, from, walker.At());
  }

  /** Every stop before `from` is at `p` or before it. */
  ghost predicate NoStopAfter(doc: Doc, p: Pos, from: Pos) {
    forall q :: doc.IsStop(q) && Before(q, from) ==> !Before(p, q)
  }

  // ---- Paragraphs ----

  predicate AllWhitespace(u: Unicode, text: string) {
    forall i :: 0 <= i < |text| ==> u.whitespace(text[i])
  }

  /** Whether a line separates paragraphs. */
  predicate IsBlankLine(doc: Doc, line: nat) {
    AllWhitespace(doc.u, doc.LineText(line))
  }

  /** A line is blank unless it has a character that is no whitespace; so is any line beyond the text. */
  lemma BlankLineIs(doc: Doc, line: nat)
    ensures !IsBlankLine(doc, line)
       <==> line < |doc.lines| && exists ch :: ch in doc.lines[line] && !doc.u.whitespace(ch)
  {
  }

  /** A blank line above which text ends. */
  predicate EndsParagraph(doc: Doc, line: nat) {
    line > 0 && IsBlankLine(doc, line) && !IsBlankLine(doc, line - 1)
  }

  /** A blank line below which text begins. */
  predicate StartsParagraph(doc: Doc, line: nat) {
    IsBlankLine(doc, line) && !IsBlankLine(doc, line + 1)
  }

  /** The least blank line below `from` that follows text, or else the last character. */
  ghost predicate AtNextParagraph(doc: Doc, from: SelectionPoint, to: SelectionPoint) {
    if exists l :: from.line < l <= doc.lastLine && EndsParagraph(doc, l)
    then from.line < to.line <= doc.lastLine && EndsParagraph(doc, to.line) && to.column == 0
         && forall l :: from.line < l < to.line ==> !EndsParagraph(doc, l)
    else to == doc.PointOf(doc.End())
  }

  /** The greatest blank line above `from` that text follows, or else the first line. */
  ghost predicate AtPreviousParagraph(doc: Doc, from: SelectionPoint, to: SelectionPoint) {
    && to.column == 0
    && if exists l :: 0 <= l < from.line && StartsParagraph(doc, l)
       then to.line < from.line && StartsParagraph(doc, to.line)
            && forall l :: to.line < l < from.line ==> !StartsParagraph(doc, l)
       else to.line == 0
  }

  /** `}`. */
  method NextParagraph(doc: Doc, cursor: SelectionPoint) returns (point: SelectionPoint)
    requires cursor.line <= doc.lastLine
    ensures AtNextParagraph(doc, cursor, point) && point.line <= doc.lastLine
  {
    hide AllWhitespace, CellsOf;
    var line := cursor.line;
    while line < doc.lastLine && IsBlankLine(doc, line)
      invariant cursor.line <= line <= doc.lastLine
      invariant forall l :: cursor.line <= l < line ==> IsBlankLine(doc, l)
    {
      line := line + 1;
    }
    ghost var text := line;
    while line < doc.lastLine
      invariant text <= line <= doc.lastLine
      invariant forall l :: cursor.line < l <= text ==> !EndsParagraph(doc, l)
      invariant forall l :: text <= l <= line && text < doc.lastLine ==> !IsBlankLine(doc, l)
    {
      line := line + 1;
      if IsBlankLine(doc, line) {
        assert EndsParagraph(doc, line);
        return SelectionPoint(line, 0);
      }
    }
    var cells := doc.Cells(doc.lastLine);
    point := SelectionPoint(doc.lastLine, if |cells| > 0 then cells[|cells| - 1].column else 0);
  }

  /** `{`. */
  method PreviousParagraph(doc: Doc, cursor: SelectionPoint) returns (point: SelectionPoint)
    ensures AtPreviousParagraph(doc, cursor, point) && point.line <= cursor.line
  {
    hide AllWhitespace;
    var line := cursor.line;
    while line > 0 && IsBlankLine(doc, line)
      invariant 0 <= line <= cursor.line
      invariant forall l :: line < l <= cursor.line ==> IsBlankLine(doc, l)
    {
      line := line - 1;
    }
    ghost var text := line;
    while line > 0
      invariant 0 <= line <= text
      invariant forall l :: text <= l < cursor.line && text > 0 ==> !StartsParagraph(doc, l)
      invariant forall l :: line <= l <= text && text > 0 ==> !IsBlankLine(doc, l)
    {
      line := line - 1;
      if IsBlankLine(doc, line) {
        assert StartsParagraph(doc, line);
        return SelectionPoint(line, 0);
      }
    }
    point := SelectionPoint(0, 0);
  }
}
