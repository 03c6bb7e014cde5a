/** The command prompt's line editor on the bytes of its line (command_prompt.rs). */
module Prompt {
  import opened Text
  import opened Utf8
  import opened Editors

  /** Most command lines the prompt remembers. */
  const PROMPT_HISTORY_LIMIT: nat := 100

  predicate AllText(history: seq<Bytes>) {
    forall i :: 0 <= i < |history| ==> IsText(history[i])
  }

  /** The history as characters. */
  function Texts(history: seq<Bytes>): (texts: seq<string>)
    requires AllText(history)
    ensures |texts| == |history|
  {
    seq(|history|, i requires 0 <= i < |history| => Chars(history[i]))
  }

  /** The bytes of a line after the characters between two positions are replaced. */
  lemma Spliced(bytes: Bytes, from: nat, to: nat, s: string)
    requires IsText(bytes) && from <= to <= |Chars(bytes)|
    ensures (var (text, a, b) := (Chars(bytes), Boundary(Chars(bytes), from), Boundary(Chars(bytes), to));
             IsCharBoundary(bytes, a) && IsCharBoundary(bytes, b) && a <= b
             && (var after := bytes[..a] + EncodeAll(s) + bytes[b..];
                 IsText(after) && Chars(after) == Replaced(text, from, to, s)))
  {
    hide IsText, Chars, EncodeAll, Boundary;
    EncodedChars(bytes);
    var text := Chars(bytes);
    CutAt(text, from);
    CutAt(text, to);
    SpliceIsReplace(text, from, to, s);
    CharsOfEncoded(Replaced(text, from, to, s));
  }

  lemma NoText()
    ensures IsText([]) && Chars([]) == "" && EncodeAll("") == []
  {
  }

  datatype Closing = Open | Commit | Cancel

  class CommandPrompt {
    const unicode: Unicode
    /** A string: UTF-8 text. */
    var input: Bytes
    /** Counts characters. */
    var cursor: nat
    var vi: Option<Vi>
    var historyIndex: Option<nat>
    var draft: Bytes

    predicate Valid()
      reads this
    {
      IsText(input) && IsText(draft) && cursor <= |Chars(input)|
    }

    /** The prompt with its line as characters. */
    function State(): Editor
      reads this
      requires Valid()
    {
      Editor(Chars(input), cursor, vi, historyIndex, Chars(draft))
    }

    /** `new`, and `with_vi_keys` when the prompt uses them. */
    constructor (unicode: Unicode, initial: Bytes, viKeys: bool)
      requires IsText(initial)
      ensures Valid() && this.unicode == unicode
      ensures State() == Editor(Chars(initial), |Chars(initial)|,
                                if viKeys then Some(Vi(Inserting, None)) else None, None, "")
    {
      this.unicode := unicode;
      input, cursor := initial, |Chars(initial)|;
      vi := if viKeys then Some(Vi(Inserting, None)) else None;
      historyIndex, draft := None, [];
      NoText();
    }

    /** `byte_index`: the byte where a character starts, or the end; always a character boundary. */
    method ByteIndex(chars: nat) returns (at: nat)
      requires IsText(input)
      ensures at == Boundary(Chars(input), if chars <= |Chars(input)| then chars else |Chars(input)|)
      ensures IsCharBoundary(input, at)
    {
      hide IsText, Chars, EncodeAll, Boundary, Encode;
      ghost var text := Chars(input);
      EncodedChars(input);
      StartsAtZero(text);
      var n := 0;
      at := 0;
      CutAt(text, 0);
      while n < chars && at < |input|
        invariant n <= chars && n <= |text| && at == Boundary(text, n) && IsCharBoundary(input, at)
        invariant at < |input| <==> n < |text|
        decreases |input| - at
      {
        CutAt(text, n);
        BoundaryAfter(text, n);
        at := at + SizeFrom(input[at]);
        n := n + 1;
        CutAt(text, n);
      }
    }

    /** `String::replace_range`. */
    method ReplaceRange(from: nat, to: nat, with: Bytes)
      requires from <= to && IsCharBoundary(input, from) && IsCharBoundary(input, to)
      modifies `input
      ensures input == old(input)[..from] + with + old(input)[to..]
    {
      input := input[..from] + with + input[to..];
    }

    method Insert(text: Bytes)
      requires Valid() && IsText(text)
      modifies `input, `cursor
      ensures Valid() && State() == Editors.Insert(old(State()), Chars(text))
    {
      hide IsText, Chars, EncodeAll, Boundary, IsCharBoundary;
      var at := ByteIndex(cursor);
      var plain := Plain(Chars(text));
      Spliced(input, cursor, cursor, plain);
      ReplaceRange(at, at, EncodeAll(plain));
      cursor := cursor + |plain|;
    }

    method Backspace()
      requires Valid()
      modifies `input, `cursor
      ensures Valid() && State() == Editors.Backspace(old(State()))
    {
      hide IsText, Chars, Boundary, IsCharBoundary, EncodeAll;
      if cursor == 0 {
        return;
      }
      var start := ByteIndex(cursor - 1);
      var end := ByteIndex(cursor);
      Spliced(input, cursor - 1, cursor, "");
      NoText();
      ReplaceRange(start, end, []);
      cursor := cursor - 1;
    }

    method Delete()
      requires Valid()
      modifies `input
      ensures Valid() && State() == Editors.Delete(old(State()))
    {
      hide IsText, Chars, Boundary, IsCharBoundary, EncodeAll;
      if cursor >= |Chars(input)| {
        return;
      }
      var start := ByteIndex(cursor);
      var end := ByteIndex(cursor + 1);
      Spliced(input, cursor, cursor + 1, "");
      NoText();
      ReplaceRange(start, end, []);
    }

    method Left()
      requires Valid()
      modifies `cursor
      ensures Valid() && State() == Editors.Left(old(State()))
    {
      cursor := if cursor == 0 then 0 else cursor - 1;
    }

    method Right()
      requires Valid()
      modifies `cursor
      ensures Valid() && State() == Editors.Right(old(State()))
    {
      cursor := Min(cursor + 1, |Chars(input)|);
    }

    method Home()
      requires Valid()
      modifies `cursor
      ensures Valid() && State() == Editors.Home(old(State()))
    {
      cursor := 0;
    }

    method End()
      requires Valid()
      modifies `cursor
      ensures Valid() && State() == Editors.End(old(State()))
    {
      cursor := |Chars(input)|;
    }

    method KillToStart()
      requires Valid()
      modifies `input, `cursor
      ensures Valid() && State() == Editors.KillToStart(old(State()))
    {
      hide IsText, Chars, Boundary, EncodeAll;
      var end := ByteIndex(cursor);
      Spliced(input, 0, cursor, "");
      StartsAtZero(Chars(input));
      NoText();
      ghost var text := Chars(input);
      assert Replaced(text, 0, cursor, "") == text[cursor..];
      assert input[..0] == [];
      ReplaceRange(0, end, []);
      cursor := 0;
    }

    method KillToEnd()
      requires Valid()
      modifies `input
      ensures Valid() && State() == Editors.KillToEnd(old(State()))
    {
      hide IsText, Chars, EncodeAll;
      var start := ByteIndex(cursor);
      ghost var text := Chars(input);
      EncodedChars(input);
      CutAt(text, cursor);
      CharsOfEncoded(text[..cursor]);
      input := input[..start];
    }

    method DeleteWord()
      requires Valid()
      modifies `input, `cursor
      ensures Valid() && State() == Editors.DeleteWord(unicode, old(State()))
    {
      hide IsText, Chars, Boundary, IsCharBoundary, EncodeAll;
      var chars := Chars(input);
      var start: nat := cursor;
      while start > 0 && unicode.whitespace(chars[start - 1])
        invariant start <= cursor
        invariant forall k :: start <= k < cursor ==> unicode.whitespace(chars[k])
      {
        start := start - 1;
      }
      ghost var blank: nat := start;
      while start > 0 && !unicode.whitespace(chars[start - 1])
        invariant start <= blank
        invariant forall k :: start <= k < blank ==> !unicode.whitespace(chars[k])
      {
        start := start - 1;
      }
      BigStartFound(unicode, chars, start, blank, cursor);
      var from := ByteIndex(start);
      var to := ByteIndex(cursor);
      Spliced(input, start, cursor, "");
      NoText();
      ReplaceRange(from, to, []);
      cursor := start;
    }

    method SetInput(text: Bytes)
      requires IsText(text)
      modifies `input, `cursor
      ensures input == text && cursor == |Chars(text)|
    {
      cursor := |Chars(text)|;
      input := text;
    }

    method HistoryUp(history: seq<Bytes>)
      requires Valid() && AllText(history) && State().Valid(Texts(history))
      modifies `input, `cursor, `historyIndex, `draft
      ensures Valid() && State() == Editors.HistoryUp(old(State()), Texts(history))
    {
      hide IsText, Chars;
      var next: nat;
      if historyIndex == None {
        if history == [] {
          return;
        }
        draft := input;
        next := |history| - 1;
      } else if historyIndex.value == 0 {
        return;
      } else {
        next := historyIndex.value - 1;
      }
      historyIndex := Some(next);
      SetInput(history[next]);
    }

    method HistoryDown(history: seq<Bytes>)
      requires Valid() && AllText(history) && State().Valid(Texts(history))
      modifies `input, `cursor, `historyIndex, `draft
      ensures Valid() && State() == Editors.HistoryDown(old(State()), Texts(history))
    {
      NoText();
      hide IsText, Chars;
      if historyIndex == None {
        return;
      }
      var index := historyIndex.value;
      if index + 1 < |history| {
        historyIndex := Some(index + 1);
        SetInput(history[index + 1]);
      } else {
        historyIndex := None;
        var text := draft;
        draft := [];
        SetInput(text);
      }
    }

    // ---- Vi keys ----

    /** `next_word_start`. */
    method NextWordStart() returns (index: nat)
      requires Valid()
      ensures index == WordRight(unicode, State().text, cursor)
    {
      hide IsText, Chars;
      var chars := Chars(input);
      index := cursor;
      if index < |chars| && ClassOf(unicode, chars[index]) != Blank {
        var class_ := ClassOf(unicode, chars[index]);
        while index < |chars| && ClassOf(unicode, chars[index]) == class_
          invariant cursor <= index <= |chars|
          invariant forall k :: cursor <= k < index ==> ClassOf(unicode, chars[k]) == class_
        {
          index := index + 1;
        }
      }
      ghost var run := index;
      while index < |chars| && ClassOf(unicode, chars[index]) == Blank
        invariant run <= index <= |chars|
        invariant forall k :: run <= k < index ==> ClassOf(unicode, chars[k]) == Blank
      {
        index := index + 1;
      }
      assert forall k :: cursor < k < index ==> !IsStart(unicode, chars, k);
      assert cursor < index < |chars| ==> IsStart(unicode, chars, index);
    }

    /** `previous_word_start`. */
    method PreviousWordStart() returns (index: nat)
      requires Valid()
      ensures index == PreviousStart(unicode, State().text, cursor)
    {
      hide IsText, Chars;
      var chars := Chars(input);
      index := Min(cursor, |chars|);
      while index > 0 && ClassOf(unicode, chars[index - 1]) == Blank
        invariant index <= cursor
        invariant forall k :: index <= k < cursor ==> ClassOf(unicode, chars[k]) == Blank
      {
        index := index - 1;
      }
      if index == 0 {
        assert forall k :: 0 <= k < cursor ==> !IsStart(unicode, chars, k);
        return;
      }
      var class_ := ClassOf(unicode, chars[index - 1]);
      ghost var run := index;
      while index > 0 && ClassOf(unicode, chars[index - 1]) == class_
        invariant index <= run
        invariant index == run || ClassOf(unicode, chars[index]) == class_
        invariant forall k :: index <= k < run ==> ClassOf(unicode, chars[k]) == class_
      {
        index := index - 1;
      }
      assert IsStart(unicode, chars, index);
      assert forall k :: index < k < cursor ==> !IsStart(unicode, chars, k);
    }

    /** `word_end_from`, at a character of a word. */
    method WordEndFrom(index: nat) returns (end: nat)
      requires Valid() && index < |State().text| && ClassOf(unicode, State().text[index]) != Blank
      ensures end == NextEnd(unicode, State().text, index) < |State().text|
    {
      hide IsText, Chars;
      var chars := Chars(input);
      var class_ := ClassOf(unicode, chars[index]);
      end := index;
      while end + 1 < |chars| && ClassOf(unicode, chars[end + 1]) == class_
        invariant index <= end < |chars|
        invariant forall k :: index <= k <= end ==> ClassOf(unicode, chars[k]) == class_
      {
        end := end + 1;
      }
      assert IsEnd(unicode, chars, end);
      assert forall k :: index <= k < end ==> !IsEnd(unicode, chars, k);
    }

    /** `next_word_end`. */
    method NextWordEnd() returns (end: nat)
      requires Valid()
      ensures end == WordEnd(unicode, State().text, cursor)
    {
      hide IsText, Chars;
      var chars := Chars(input);
      var index := cursor + 1;
      while index < |chars| && ClassOf(unicode, chars[index]) == Blank
        invariant cursor < index
        invariant forall k :: cursor < k < index && k < |chars| ==> ClassOf(unicode, chars[k]) == Blank
      {
        index := index + 1;
      }
      assert forall k :: cursor < k < index ==> !IsEnd(unicode, chars, k);
      if index >= |chars| {
        return if |chars| == 0 then 0 else |chars| - 1;
      }
      end := WordEndFrom(index);
    }

    method SetVi(mode: ViMode)
      modifies `vi
      ensures vi == Some(Vi(mode, None))
    {
      vi := Some(Vi(mode, None));
    }

    method ViCommand(ch: char, history: seq<Bytes>)
      requires Valid() && AllText(history) && State().Valid(Texts(history))
      modifies this
      ensures Valid() && State() == Editors.ViCommand(unicode, old(State()), ch, Texts(history))
    {
      hide IsText, Chars, Editors.HistoryUp, Editors.HistoryDown, Editors.KillToEnd, WordRight, WordEnd;
      match ch {
        case 'h' => Left();
        case 'l' => Right();
        case '0' => Home();
        case '$' => End();
        case 'w' => cursor := NextWordStart();
        case 'b' => cursor := PreviousWordStart();
        case 'e' => cursor := NextWordEnd();
        case 'x' => Delete();
        case 'D' => KillToEnd();
        case 'C' => KillToEnd(); SetVi(Inserting);
        case 'i' => SetVi(Inserting);
        case 'a' => Right(); SetVi(Inserting);
        case 'A' => End(); SetVi(Inserting);
        case 'I' => Home(); SetVi(Inserting);
        case 'k' => HistoryUp(history);
        case 'j' => HistoryDown(history);
        case 'd' => vi := Some(Vi(Normal, Some(ch)));
        case 'c' => vi := Some(Vi(Normal, Some(ch)));
        case _ =>
      }
    }

    method ViOperator(operator: char, motion: char)
      requires Valid()
      modifies `vi, `input
      ensures Valid() && State() == Editors.ViOperator(unicode, old(State()), operator, motion)
    {
      hide IsText, Chars, Boundary, IsCharBoundary, EncodeAll, WordRight;
      SetVi(Normal);
      if motion != 'w' {
        return;
      }
      var end: nat;
      var chars := Chars(input);
      if operator == 'c' && cursor < |chars| && !unicode.whitespace(chars[cursor]) {
        end := WordEndFrom(cursor);
        end := end + 1;
      } else {
        end := NextWordStart();
      }
      assert end == OperatorEnd(unicode, chars, cursor, operator);
      var from := ByteIndex(cursor);
      var to := ByteIndex(end);
      Spliced(input, cursor, end, "");
      NoText();
      ReplaceRange(from, to, []);
      if operator == 'c' {
        SetVi(Inserting);
      }
    }

    method ClampNormalCursor()
      requires Valid()
      modifies `cursor
      ensures Valid() && State() == Clamped(old(State()))
    {
      hide IsText, Chars;
      if vi.Some? && vi.value.mode == Normal {
        cursor := Min(cursor, if |Chars(input)| == 0 then 0 else |Chars(input)| - 1);
      }
    }

    /** `vi_key`. */
    method ViKey(key: KeyEvent, history: seq<Bytes>) returns (taken: bool)
      requires Valid() && AllText(history) && State().Valid(Texts(history))
      modifies this
      ensures Valid() && (State(), taken) == Editors.ViKey(unicode, old(State()), key, Texts(history))
    {
      hide IsText, Chars, Editors.ViCommand, Editors.ViOperator, Clamped;
      if vi == None {
        return false;
      }
      if vi.value.mode == Inserting {
        if key != Escape {
          return false;
        }
        SetVi(Normal);
        Left();
        return true;
      }
      if key.Char? {
        if vi.value.pending.Some? {
          ViOperator(vi.value.pending.value, key.ch);
        } else {
          ViCommand(key.ch, history);
        }
        ClampNormalCursor();
        return true;
      }
      SetVi(Normal);
      return !LeftToPrompt(key);
    }
  }

  lemma StartsAtZero(text: string)
    ensures Boundary(text, 0) == 0
  {
  }

  /** Skipping blanks and then the rest of a run leads to the last big start. */
  lemma BigStartFound(u: Unicode, t: string, start: nat, blank: nat, i: nat)
    requires start <= blank <= i <= |t| && (start == 0 || u.whitespace(t[start - 1]))
    requires forall k :: blank <= k < i ==> u.whitespace(t[k])
    requires forall k :: start <= k < blank ==> !u.whitespace(t[k])
    requires blank == start ==> start == 0
    ensures start == PreviousBigStart(u, t, i)
  {
    forall k | start < k < i ensures !IsBigStart(u, t, k) {
      if k < blank {
        assert !u.whitespace(t[k - 1]);
      }
    }
    if start > 0 {
      assert IsBigStart(u, t, start);
    }
  }

  // ---- The history ----

  predicate IsBlank(u: Unicode, line: string) {
    forall i :: 0 <= i < |line| ==> u.whitespace(line[i])
  }

  /** The history after `line`: its newest hundred lines, unless `line` is blank or repeats the newest. */
  function Recorded(u: Unicode, history: seq<Bytes>, line: Bytes): (r: seq<Bytes>)
    requires IsText(line)
  {
    if IsBlank(u, Chars(line)) || (history != [] && history[|history| - 1] == line) then history
    else
      var all := history + [line];
      all[|all| - Min(|all|, PROMPT_HISTORY_LIMIT)..]
  }

  /** `record_history`. */
  method RecordHistory(u: Unicode, history: seq<Bytes>, line: Bytes) returns (after: seq<Bytes>)
    requires IsText(line)
    ensures after == Recorded(u, history, line)
  {
    after := history;
    if IsBlank(u, Chars(line)) || (history != [] && history[|history| - 1] == line) {
      return;
    }
    after := after + [line];
    ghost var all := after;
    while |after| > PROMPT_HISTORY_LIMIT
      invariant |after| <= |all| && after == all[|all| - |after|..] && |after| >= Min(|all|, PROMPT_HISTORY_LIMIT)
    {
      after := after[1..];
    }
  }

  function RecordAll(u: Unicode, history: seq<Bytes>, lines: seq<Bytes>): seq<Bytes>
    requires AllText(lines)
  {
    if lines == [] then history else Recorded(u, RecordAll(u, history, lines[..|lines| - 1]), lines[|lines| - 1])
  }

  predicate NoRepeats(history: seq<Bytes>) {
    forall i :: 1 <= i < |history| ==> history[i - 1] != history[i]
  }

  /** Over any session: at most a hundred lines, none blank, no line twice in a row, and the last line typed that was
      not blank is the newest. */
  lemma {:induction false} HistoryStaysTidy(u: Unicode, lines: seq<Bytes>)
    requires AllText(lines)
    ensures (var history := RecordAll(u, [], lines);
             |history| <= PROMPT_HISTORY_LIMIT && AllText(history) && NoRepeats(history)
             && (forall i :: 0 <= i < |history| ==> !IsBlank(u, Chars(history[i])) && history[i] in lines)
             && (lines != [] && !IsBlank(u, Chars(lines[|lines| - 1]))
                 ==> history != [] && history[|history| - 1] == lines[|lines| - 1]))
    decreases |lines|
  {
    hide IsText, Chars, IsBlank;
    if lines != [] {
      HistoryStaysTidy(u, lines[..|lines| - 1]);
    }
  }

  /** The lines of a session without blank ones and repeats. */
  function Tidied(u: Unicode, lines: seq<Bytes>): seq<Bytes>
    requires AllText(lines)
  {
    if lines == [] then []
    else
      var before, last := Tidied(u, lines[..|lines| - 1]), lines[|lines| - 1];
      if IsBlank(u, Chars(last)) || (before != [] && before[|before| - 1] == last) then before else before + [last]
  }

  /** Over any session: the history is the newest hundred of those lines, or all of them while there are fewer. */
  lemma {:induction false} HistoryIsNewest(u: Unicode, lines: seq<Bytes>)
    requires AllText(lines)
    ensures (var (history, tidied) := (RecordAll(u, [], lines), Tidied(u, lines));
             && |history| == (if |tidied| < PROMPT_HISTORY_LIMIT then |tidied| else PROMPT_HISTORY_LIMIT)
             && history == tidied[|tidied| - |history|..])
    decreases |lines|
  {
    hide IsText, Chars, IsBlank;
    if lines != [] {
      HistoryIsNewest(u, lines[..|lines| - 1]);
    }
  }
}
