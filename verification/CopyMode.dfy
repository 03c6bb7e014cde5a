/** Copy-mode motions and the view they scroll (copy_mode.rs). */
module CopyMode {
  import opened Text
  import opened CopyText
  import opened Walkers

  datatype Motion =
    | Left | Right | Up | Down
    | NextWord | PreviousWord | WordEnd
    | NextSpace | PreviousSpace | SpaceEnd
    | StartOfLine | BackToIndentation | EndOfLine
    | HistoryTop | HistoryBottom | TopLine | MiddleLine | BottomLine
    | ParagraphUp | ParagraphDown
    | HalfPageUp | HalfPageDown | PageUp | PageDown

  /** A view into a buffer of `total` lines: `rows` of them from `top` on, `cols` columns wide. */
  datatype Viewport = Viewport(top: nat, rows: nat, total: nat, cols: nat)
  {
    function LastLine(): nat {
      if total > 0 then total - 1 else 0
    }

    function BottomTop(): nat {
      if total > rows then total - rows else 0
    }

    /** Scrolls from `top` no further than `line` needs. */
    function Reveal(top: nat, line: nat): nat {
      var height := Max(rows, 1);
      var shown := if line < top then line
                   else if line >= top + height then line - (height - 1)
                   else top;
      Min(shown, BottomTop())
    }

    /** A line of the buffer; an empty buffer has one. */
    predicate HasLine(line: nat) {
      line == 0 || line < total
    }

    /** A scroll position inside the history: no further than where the view holds the last line at its end. */
    predicate Scrolled(top: nat) {
      top == 0 || top + rows <= total
    }

    predicate Shows(top: nat, line: nat) {
      top <= line < top + Max(rows, 1)
    }
  }

  /** A line of the buffer is revealed by the valid scroll position that shows it and is nearest to the
      old one. */
  lemma RevealIsClosest(v: Viewport, top: nat, line: nat, other: nat)
    requires v.HasLine(line)
    ensures v.Scrolled(v.Reveal(top, line)) && v.Shows(v.Reveal(top, line), line)
    ensures v.Scrolled(other) && v.Shows(other, line) ==>
              (if v.Reveal(top, line) >= top then v.Reveal(top, line) - top else top - v.Reveal(top, line))
              <= (if other >= top then other - top else top - other)
  {
  }

  /** Lines a page has, or half a page: at least one. */
  function PageDelta(half: bool, rows: nat): (delta: nat)
    ensures delta >= 1 && (!half && rows >= 1 ==> delta == rows)
    ensures half && rows >= 2 ==> rows - 1 <= 2 * delta <= rows
    ensures rows <= 1 ==> delta == 1
  {
    if half then Max(Max(rows, 1) / 2, 1) else Max(rows, 1)
  }

  function FirstNonBlank(doc: Doc, cells: seq<Cell>): nat {
    if cells == [] then 0
    else if ClassOf(doc.u, cells[0].text, true) != Blank then cells[0].column
    else FirstNonBlank(doc, cells[1..])
  }

  /** Where the cursor of a valid view is: on a line of the buffer that the view shows. */
  ghost predicate Valid(v: Viewport, cursor: SelectionPoint) {
    v.Scrolled(v.top) && v.HasLine(cursor.line) && v.Shows(v.top, cursor.line)
  }

  predicate IsText(doc: Doc, cell: Cell) {
    ClassOf(doc.u, cell.text, true) != Blank
  }

  /** The first cell of the cursor's line that is not blank, or column 0. */
  ghost predicate AtIndentation(doc: Doc, from: SelectionPoint, to: SelectionPoint) {
    var cells := doc.Cells(from.line);
    && to.line == from.line
    && if i :| 0 <= i < |cells| && IsText(doc, cells[i])
       then exists k :: 0 <= k < |cells| && IsText(doc, cells[k]) && to.column == cells[k].column
                        && forall j :: 0 <= j < k ==> !IsText(doc, cells[j])
       else to.column == 0
  }

  /** The last cell of the cursor's line, or column 0 of an empty one. */
  ghost predicate AtLineEnd(doc: Doc, from: SelectionPoint, to: SelectionPoint) {
    var cells := doc.Cells(from.line);
    to == SelectionPoint(from.line, if cells == [] then 0 else cells[|cells| - 1].column)
  }

  lemma {:induction false} FirstNonBlankIs(doc: Doc, cells: seq<Cell>)
    ensures (exists k :: 0 <= k < |cells| && IsText(doc, cells[k]) && FirstNonBlank(doc, cells) == cells[k].column
                         && forall j :: 0 <= j < k ==> !IsText(doc, cells[j]))
         || (FirstNonBlank(doc, cells) == 0 && forall j :: 0 <= j < |cells| ==> !IsText(doc, cells[j]))
  {
    if cells != [] {
      if IsText(doc, cells[0]) {
        assert FirstNonBlank(doc, cells) == cells[0].column;
      } else {
        var rest := cells[1..];
        FirstNonBlankIs(doc, rest);
        if k :| 0 <= k < |rest| && IsText(doc, rest[k]) && FirstNonBlank(doc, rest) == rest[k].column
                && forall j :: 0 <= j < k ==> !IsText(doc, rest[j]) {
          assert cells[k + 1] == rest[k];
          forall j | 0 <= j < k + 1 ensures !IsText(doc, cells[j]) {
            if j > 0 { assert cells[j] == rest[j - 1]; }
          }
        } else {
          forall j | 0 <= j < |cells| ensures !IsText(doc, cells[j]) {
            if j > 0 { assert cells[j] == rest[j - 1]; }
          }
        }
      }
    }
  }

  /** Where a motion that reads text goes. */
  ghost predicate TextMoved(doc: Doc, motion: Motion, from: SelectionPoint, to: SelectionPoint) {
    && (motion.NextWord? || motion.NextSpace? ==> AtNextWord(doc, from, to))
    && (motion.PreviousWord? || motion.PreviousSpace? ==> AtPreviousWord(doc, from, to))
    && (motion.WordEnd? || motion.SpaceEnd? ==> AtWordEnd(doc, from, to))
    && (motion.ParagraphDown? ==> AtNextParagraph(doc, from, to))
    && (motion.ParagraphUp? ==> AtPreviousParagraph(doc, from, to))
    && (motion.BackToIndentation? ==> AtIndentation(doc, from, to))
    && (motion.EndOfLine? ==> AtLineEnd(doc, from, to))
  }

  /** The motions that read text. */
  method TextMotion(doc: Doc, motion: Motion, cursor: SelectionPoint) returns (moved: SelectionPoint)
    requires ReadsText(motion) && cursor.line <= doc.lastLine
    ensures moved.line <= doc.lastLine && TextMoved(doc, motion, cursor, moved)
  {
    hide CellsOf, ClassOf, CellIndex, IsBlankLine, AtNextWord, AtPreviousWord, AtWordEnd, AtNextParagraph,
         AtPreviousParagraph, FirstNonBlank;
    if motion.NextWord? || motion.NextSpace? {
      moved := NextWordStart(doc, cursor);
    } else if motion.PreviousWord? || motion.PreviousSpace? {
      moved := PreviousWordStart(doc, cursor);
    } else if motion.WordEnd? || motion.SpaceEnd? {
      moved := NextWordEnd(doc, cursor);
    } else if motion.BackToIndentation? {
      FirstNonBlankIs(doc, doc.Cells(cursor.line));
      moved := cursor.(column := FirstNonBlank(doc, doc.Cells(cursor.line)));
    } else if motion.ParagraphUp? {
      moved := PreviousParagraph(doc, cursor);
    } else if motion.ParagraphDown? {
      moved := NextParagraph(doc, cursor);
    } else {
      var cells := doc.Cells(cursor.line);
      moved := cursor.(column := if |cells| > 0 then cells[|cells| - 1].column else 0);
    }
  }

  predicate ReadsText(motion: Motion) {
    match motion
    case NextWord | PreviousWord | WordEnd | NextSpace | PreviousSpace | SpaceEnd => true
    case BackToIndentation | EndOfLine | ParagraphUp | ParagraphDown => true
    case _ => false
  }

  /** The motions that do not read text: the cursor they move to and the scroll position they ask for. */
  function Scroll(motion: Motion, cursor: SelectionPoint, v: Viewport): (SelectionPoint, nat) {
    match motion
    case Left => (cursor.(column := if cursor.column > 0 then cursor.column - 1 else 0), v.top)
    case Right => (cursor.(column := Min(SatAdd(cursor.column, 1), if v.cols > 0 then v.cols - 1 else 0)), v.top)
    case Up => (cursor.(line := if cursor.line > 0 then cursor.line - 1 else 0), v.top)
    case Down => (cursor.(line := Min(cursor.line + 1, v.LastLine())), v.top)
    case StartOfLine => (cursor.(column := 0), v.top)
    case HistoryTop => (SelectionPoint(0, 0), v.top)
    case HistoryBottom => (SelectionPoint(v.LastLine(), 0), v.top)
    case TopLine => (SelectionPoint(v.top, 0), v.top)
    case MiddleLine => (SelectionPoint(Min(v.top + (Max(v.rows, 1) - 1) / 2, v.LastLine()), 0), v.top)
    case BottomLine => (SelectionPoint(Min(v.top + (Max(v.rows, 1) - 1), v.LastLine()), 0), v.top)
    case HalfPageUp | PageUp =>
      var delta := PageDelta(motion.HalfPageUp?, v.rows);
      (cursor.(line := if cursor.line > delta then cursor.line - delta else 0),
       if v.top > delta then v.top - delta else 0)
    case HalfPageDown | PageDown =>
      var delta := PageDelta(motion.HalfPageDown?, v.rows);
      (cursor.(line := Min(cursor.line + delta, v.LastLine())), Min(v.top + delta, v.BottomTop()))
    case _ => (cursor, v.top)
  }

  /** Motions that do not read text keep the view valid. */
  lemma ScrollKeepsValid(motion: Motion, cursor: SelectionPoint, v: Viewport)
    requires Valid(v, cursor)
    ensures v.HasLine(Scroll(motion, cursor, v).0.line)
  {
  }

  /** One line up or down, or one column left or right, as far as the buffer and the view's columns go. */
  ghost predicate StepMoved(motion: Motion, v: Viewport, from: SelectionPoint, to: SelectionPoint) {
    && (motion.Up? || motion.Down? ==> to.column == from.column)
    && (motion.Up? ==> if from.line > 0 then to.line + 1 == from.line else to.line == 0)
    && (motion.Down? ==> if v.HasLine(from.line + 1) then to.line == from.line + 1 else to.line == from.line)
    && (motion.Left? || motion.Right? ==> to.line == from.line)
    && (motion.Left? ==> if from.column > 0 then to.column + 1 == from.column else to.column == 0)
    && (motion.Right? && v.cols <= U16_MAX ==>
          if from.column + 1 < v.cols then to.column == from.column + 1
          else to.column == if v.cols > 0 then v.cols - 1 else 0)
  }

  /** The start of the line, of the buffer's first or last line, or of a line of the view. */
  ghost predicate LineStartMoved(motion: Motion, v: Viewport, from: SelectionPoint, to: SelectionPoint) {
    var height := if v.rows > 0 then v.rows else 1;
    && (motion.StartOfLine? || motion.HistoryTop? || motion.HistoryBottom? || OfView(motion) ==> to.column == 0)
    && (motion.StartOfLine? ==> to.line == from.line)
    && (motion.HistoryTop? ==> v.HasLine(to.line) && forall l: nat | v.HasLine(l) :: to.line <= l)
    && (motion.HistoryBottom? ==> v.HasLine(to.line) && forall l: nat | v.HasLine(l) :: l <= to.line)
    && (OfView(motion) ==> v.HasLine(to.line) && v.Shows(v.top, to.line))
    && (motion.TopLine? ==> to.line == v.top)
    && (motion.BottomLine? ==> forall l: nat | v.HasLine(l) && v.Shows(v.top, l) :: l <= to.line)
    && (motion.MiddleLine? ==>
          var above, below := to.line - v.top, v.top + height - 1 - to.line;
          if v.HasLine(to.line + 1) then above <= below <= above + 1 else above <= below)
  }

  predicate OfView(motion: Motion) {
    motion.TopLine? || motion.MiddleLine? || motion.BottomLine?
  }

  predicate OfPage(motion: Motion) {
    motion.HalfPageUp? || motion.PageUp? || motion.HalfPageDown? || motion.PageDown?
  }

  /** Page motions move the cursor by a page and the view along with it, as far as the buffer goes. */
  ghost predicate PageMoved(motion: Motion, v: Viewport, from: SelectionPoint, to: SelectionPoint, top: nat) {
    OfPage(motion) ==>
      var d := PageDelta(motion.HalfPageUp? || motion.HalfPageDown?, v.rows);
      && to.column == from.column
      && (motion.HalfPageUp? || motion.PageUp? ==>
            && (if from.line >= d then to.line + d == from.line else to.line == 0)
            && (v.rows > 0 ==> if v.top >= d then top + d == v.top else top == 0))
      && (motion.HalfPageDown? || motion.PageDown? ==>
            && (if v.HasLine(from.line + d) then to.line == from.line + d
                else v.HasLine(to.line) && !v.HasLine(to.line + 1))
            && (v.rows > 0 ==>
                  if v.Scrolled(v.top + d) then top == v.top + d else v.Scrolled(top) && !v.Scrolled(top + 1)))
  }

  /** Other motions scroll no further than to show the new cursor. */
  ghost predicate ScrolledTo(motion: Motion, v: Viewport, to: SelectionPoint, top: nat) {
    !OfPage(motion) ==> forall other: nat | v.Scrolled(other) && v.Shows(other, to.line) ::
        (if top >= v.top then top - v.top else v.top - top)
        <= (if other >= v.top then other - v.top else v.top - other)
  }

  /** What one motion does: where the cursor goes, and which scroll position shows it. */
  ghost predicate Moved(u: Unicode, motion: Motion, v: Viewport, lines: seq<string>, from: SelectionPoint,
                        to: SelectionPoint, top: nat) {
    && Valid(v.(top := top), to)
    && TextMoved(Doc(u, lines, v.LastLine(), motion.NextSpace? || motion.PreviousSpace? || motion.SpaceEnd?), motion,
                 from, to)
    && StepMoved(motion, v, from, to) && LineStartMoved(motion, v, from, to)
    && PageMoved(motion, v, from, to, top) && ScrolledTo(motion, v, to, top)
  }

  lemma StepsMove(motion: Motion, cursor: SelectionPoint, v: Viewport)
    requires Valid(v, cursor)
    ensures (var (moved, asked) := Scroll(motion, cursor, v);
             v.HasLine(moved.line) && (!OfPage(motion) ==> asked == v.top) && StepMoved(motion, v, cursor, moved))
  {
  }

  lemma LineStartsMove(motion: Motion, cursor: SelectionPoint, v: Viewport)
    requires Valid(v, cursor)
    ensures LineStartMoved(motion, v, cursor, Scroll(motion, cursor, v).0)
  {
  }

  lemma PagesMove(motion: Motion, cursor: SelectionPoint, v: Viewport)
    requires Valid(v, cursor)
    ensures (var (moved, asked) := Scroll(motion, cursor, v);
             PageMoved(motion, v, cursor, moved, v.Reveal(asked, moved.line)))
  {
    hide PageDelta;
  }

  /** Where the motions that do not read text go. */
  lemma ScrollMoves(motion: Motion, cursor: SelectionPoint, v: Viewport)
    requires Valid(v, cursor)
    ensures (var (moved, asked) := Scroll(motion, cursor, v);
             && v.HasLine(moved.line) && (!OfPage(motion) ==> asked == v.top)
             && StepMoved(motion, v, cursor, moved) && LineStartMoved(motion, v, cursor, moved)
             && PageMoved(motion, v, cursor, moved, v.Reveal(asked, moved.line)))
  {
    hide Scroll, StepMoved, LineStartMoved, PageMoved;
    StepsMove(motion, cursor, v);
    LineStartsMove(motion, cursor, v);
    PagesMove(motion, cursor, v);
  }

  /** Motions that read text are none of the others. */
  lemma TextIsOther(motion: Motion, v: Viewport, cursor: SelectionPoint, moved: SelectionPoint, top: nat)
    requires ReadsText(motion)
    ensures StepMoved(motion, v, cursor, moved) && LineStartMoved(motion, v, cursor, moved)
            && PageMoved(motion, v, cursor, moved, top)
  {
  }

  lemma RevealScrolls(motion: Motion, v: Viewport, moved: SelectionPoint)
    requires v.HasLine(moved.line)
    ensures ScrolledTo(motion, v, moved, v.Reveal(v.top, moved.line))
  {
    forall other: nat | v.Scrolled(other) && v.Shows(other, moved.line)
      ensures (var top := v.Reveal(v.top, moved.line);
               (if top >= v.top then top - v.top else v.top - top)
               <= (if other >= v.top then other - v.top else v.top - other))
    {
      RevealIsClosest(v, v.top, moved.line, other);
    }
  }

  /** A line or column there and back, unless the edge of the buffer or the view holds the first of the two. */
  lemma ThereAndBack(motion: Motion, v: Viewport, a: SelectionPoint, b: SelectionPoint, c: SelectionPoint)
    requires motion.Up? || motion.Down? || motion.Left? || motion.Right?
    requires v.cols <= U16_MAX && v.HasLine(a.line) && (a.column == 0 || a.column < v.cols) && a != b
    requires StepMoved(motion, v, a, b) && StepMoved(Opposite(motion), v, b, c)
    ensures c == a
  {
  }

  function Opposite(motion: Motion): Motion {
    match motion
    case Up => Down
    case Down => Up
    case Left => Right
    case Right => Left
    case _ => motion
  }

  /** `H`, `M` and `L` do not scroll. */
  lemma ScreenLines(motion: Motion, cursor: SelectionPoint, v: Viewport)
    requires Valid(v, cursor) && OfView(motion)
    ensures (var moved := Scroll(motion, cursor, v).0; v.Reveal(v.top, moved.line) == v.top)
  {
  }

  /** One motion: the cursor it moves to and the scroll position it leaves. */
  method ApplyMotion(u: Unicode, motion: Motion, cursor: SelectionPoint, v: Viewport, lines: seq<string>)
    returns (moved: SelectionPoint, top: nat)
    requires Valid(v, cursor)
    ensures Moved(u, motion, v, lines, cursor, moved, top)
    ensures OfView(motion) ==> top == v.top
  {
    hide CellsOf, AtNextWord, AtPreviousWord, AtWordEnd, AtNextParagraph, AtPreviousParagraph, AtIndentation, AtLineEnd,
         Scroll, StepMoved, LineStartMoved, PageMoved, ScrolledTo, TextMoved, Viewport.Reveal;
    top := v.top;
    if ReadsText(motion) {
      var doc := Doc(u, lines, v.LastLine(), motion.NextSpace? || motion.PreviousSpace? || motion.SpaceEnd?);
      moved := TextMotion(doc, motion, cursor);
    } else {
      ScrollMoves(motion, cursor, v);
      moved, top := Scroll(motion, cursor, v).0, Scroll(motion, cursor, v).1;
    }
    RevealIsClosest(v, top, moved.line, 0);
    RevealScrolls(motion, v, moved);
    ghost var asked := top;
    top := v.Reveal(top, moved.line);
    if ReadsText(motion) {
      TextIsOther(motion, v, cursor, moved, top);
    } else {
      NoTextMoved(u, motion, v, lines, cursor, moved);
    }
    if OfView(motion) { ScreenLines(motion, cursor, v); }
    if OfPage(motion) { PageScrollsItself(motion, v, moved, top); }
  }

  lemma NoTextMoved(u: Unicode, motion: Motion, v: Viewport, lines: seq<string>, from: SelectionPoint,
                    to: SelectionPoint)
    requires !ReadsText(motion)
    ensures forall big :: TextMoved(Doc(u, lines, v.LastLine(), big), motion, from, to)
  {
  }

  lemma PageScrollsItself(motion: Motion, v: Viewport, moved: SelectionPoint, top: nat)
    requires OfPage(motion)
    ensures ScrolledTo(motion, v, moved, top)
  {
  }

  /** A count multiplies these motions; the others go to a fixed place. */
  predicate Repeats(motion: Motion) {
    match motion
    case StartOfLine | BackToIndentation | EndOfLine => false
    case HistoryTop | HistoryBottom | TopLine | MiddleLine | BottomLine => false
    case _ => true
  }

  /** Motions to a place of the line, the view or the buffer. */
  ghost predicate GoesToPlace(motion: Motion) {
    motion.StartOfLine? || motion.BackToIndentation? || motion.EndOfLine? || motion.HistoryTop? || motion.HistoryBottom?
    || OfView(motion)
  }

  /** To move to a place twice is to move there once: nothing is lost by not repeating these motions. */
  lemma PlacesStay(u: Unicode, motion: Motion, v: Viewport, lines: seq<string>, a: SelectionPoint, b: SelectionPoint,
                   c: SelectionPoint, top: nat, again: nat)
    requires GoesToPlace(motion) && (OfView(motion) ==> top == v.top)
    requires Moved(u, motion, v, lines, a, b, top) && Moved(u, motion, v.(top := top), lines, b, c, again)
    ensures c == b && again == top
  {
    hide ClassOf, CellsOf, ScrolledTo, LineStartMoved, PageMoved, StepMoved, AtIndentation, AtLineEnd;
    var doc := Doc(u, lines, v.LastLine(), false);
    if motion.BackToIndentation? { OneIndentation(doc, a, b, c); }
    assert c == b by { hide Moved; PlaceAgain(motion, v, doc, top, a, b, c); }
    ScrolledAlready(motion, v, c, top, again);
  }

  lemma PlaceAgain(motion: Motion, v: Viewport, doc: Doc, top: nat, a: SelectionPoint, b: SelectionPoint,
                   c: SelectionPoint)
    requires GoesToPlace(motion) && (OfView(motion) ==> top == v.top)
    requires LineStartMoved(motion, v, a, b) && LineStartMoved(motion, v.(top := top), b, c)
    requires motion.BackToIndentation? ==> b == c
    requires motion.EndOfLine? ==> AtLineEnd(doc, a, b) && AtLineEnd(doc, b, c)
    ensures c == b
  {
    hide CellsOf;
    var w := v.(top := top);
    assert OfView(motion) ==> w == v;
    assert v.HasLine(c.line) == w.HasLine(c.line) && v.HasLine(b.line) == w.HasLine(b.line);
    assert OfView(motion) ==> v.Shows(v.top, c.line) && v.Shows(v.top, b.line);
  }

  lemma OneIndentation(doc: Doc, a: SelectionPoint, b: SelectionPoint, c: SelectionPoint)
    requires AtIndentation(doc, a, b) && AtIndentation(doc, b, c)
    ensures b == c
  {
    hide IsText;
  }

  lemma ScrolledAlready(motion: Motion, v: Viewport, to: SelectionPoint, top: nat, again: nat)
    requires !OfPage(motion) && v.Scrolled(top) && v.Shows(top, to.line)
    requires ScrolledTo(motion, v.(top := top), to, again)
    ensures again == top
  {
    assert v.(top := top).Scrolled(top) && v.(top := top).Shows(top, to.line);
  }

  /** Cursor and scroll position after each repetition. */
  ghost predicate Walked(u: Unicode, motion: Motion, v: Viewport, lines: seq<string>,
                         path: seq<(SelectionPoint, nat)>) {
    forall i :: 0 <= i < |path| - 1 ==> StepOf(u, motion, v, lines, path, i)
  }

  ghost predicate StepOf(u: Unicode, motion: Motion, v: Viewport, lines: seq<string>, path: seq<(SelectionPoint, nat)>,
                         i: nat)
    requires i + 1 < |path|
  {
    Moved(u, motion, v.(top := path[i].1), lines, path[i].0, path[i + 1].0, path[i + 1].1)
  }

  /** A motion with its count: so many repetitions, at least one, and only one of a motion to a place; fewer when
      the next would change nothing. `path` has every stage on the way. */
  method RepeatMotion(u: Unicode, motion: Motion, count: nat, cursor: SelectionPoint, v: Viewport, lines: seq<string>)
    returns (moved: SelectionPoint, top: nat, ghost path: seq<(SelectionPoint, nat)>)
    requires Valid(v, cursor)
    ensures Valid(v.(top := top), moved)
    ensures path != [] && path[0] == (cursor, v.top) && path[|path| - 1] == (moved, top)
    ensures Walked(u, motion, v, lines, path)
    ensures (var steps := if GoesToPlace(motion) || count == 0 then 1 else count;
             |path| - 1 == steps
             || (|path| - 1 < steps && Moved(u, motion, v.(top := top), lines, moved, moved, top)))
    ensures motion.Up? && count >= 1 ==>
              moved == cursor.(line := if cursor.line >= count then cursor.line - count else 0)
    ensures motion.Down? && count >= 1 && v.HasLine(cursor.line + count) ==>
              moved == cursor.(line := cursor.line + count)
  {
    hide Moved, Walked, ClassOf, CellsOf;
    var repeat := if Repeats(motion) then Max(count, 1) else 1;
    moved, top := cursor, v.top;
    path := [(cursor, v.top)];
    NotWalked(u, motion, v, lines, path[0]);
    var i := 0;
    while i < repeat
      invariant i <= repeat && Valid(v.(top := top), moved)
      invariant |path| == i + 1 && path[0] == (cursor, v.top) && path[i] == (moved, top)
      invariant Walked(u, motion, v, lines, path)
      invariant motion.Up? ==> moved == cursor.(line := if cursor.line >= i then cursor.line - i else 0)
      invariant motion.Down? && v.HasLine(cursor.line + i) ==> moved == cursor.(line := cursor.line + i)
    {
      var next, nextTop := ApplyMotion(u, motion, moved, v.(top := top), lines);
      MovedParts(u, motion, v.(top := top), lines, moved, next, nextTop);
      if next == moved && nextTop == top {
        break;
      }
      WalkedOn(u, motion, v, lines, path, next, nextTop);
      path := path + [(next, nextTop)];
      moved, top := next, nextTop;
      i := i + 1;
    }
  }

  lemma NotWalked(u: Unicode, motion: Motion, v: Viewport, lines: seq<string>, start: (SelectionPoint, nat))
    ensures Walked(u, motion, v, lines, [start])
  {
  }

  lemma WalkedOn(u: Unicode, motion: Motion, v: Viewport, lines: seq<string>, path: seq<(SelectionPoint, nat)>,
                 to: SelectionPoint, top: nat)
    requires path != [] && Walked(u, motion, v, lines, path)
    requires (var (from, at) := path[|path| - 1]; Moved(u, motion, v.(top := at), lines, from, to, top))
    ensures Walked(u, motion, v, lines, path + [(to, top)])
  {
    hide Moved;
    var longer := path + [(to, top)];
    forall i | 0 <= i < |longer| - 1 ensures StepOf(u, motion, v, lines, longer, i) {
      if i < |path| - 1 { assert StepOf(u, motion, v, lines, path, i); }
    }
  }

  lemma MovedParts(u: Unicode, motion: Motion, v: Viewport, lines: seq<string>, from: SelectionPoint,
                   to: SelectionPoint, top: nat)
    requires Moved(u, motion, v, lines, from, to, top)
    ensures Valid(v.(top := top), to) && StepMoved(motion, v, from, to)
  {
  }

  /** A sequence of motions, each with its count. */
  method RunMotions(u: Unicode, motions: seq<(Motion, nat)>, cursor: SelectionPoint, v: Viewport, lines: seq<string>)
    returns (moved: SelectionPoint, top: nat)
    requires Valid(v, cursor)
    ensures Valid(v.(top := top), moved)
  {
    moved, top := cursor, v.top;
    for i := 0 to |motions|
      invariant Valid(v.(top := top), moved)
    {
      ghost var path;
      moved, top, path := RepeatMotion(u, motions[i].0, motions[i].1, moved, v.(top := top), lines);
    }
  }
}
