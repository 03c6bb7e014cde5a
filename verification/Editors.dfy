/** What the command prompt's edits do to a line of characters (command_prompt.rs). */
module Editors {
  import opened Text

  datatype CharClass = Blank | Word | Punctuation

  function ClassOf(u: Unicode, ch: char): CharClass {
    if u.whitespace(ch) then Blank else if u.alphanumeric(ch) || ch == '_' then Word else Punctuation
  }

  // ---- Words ----

  /** Blanks separate words; a word is of letters, digits and underscores, or of none of them. */
  lemma ClassesAre(u: Unicode, a: char, b: char)
    ensures ClassOf(u, a) == Blank <==> u.whitespace(a)
    ensures !u.whitespace(a) && !u.whitespace(b) ==>
              (ClassOf(u, a) == ClassOf(u, b) <==> (u.alphanumeric(a) || a == '_') == (u.alphanumeric(b) || b == '_'))
  {
  }

  /** A character that starts a word: a run of word characters, or one of other non-blank characters. */
  predicate IsStart(u: Unicode, t: string, i: nat) {
    i < |t| && ClassOf(u, t[i]) != Blank && (i == 0 || ClassOf(u, t[i - 1]) != ClassOf(u, t[i]))
  }

  predicate IsEnd(u: Unicode, t: string, i: nat) {
    i < |t| && ClassOf(u, t[i]) != Blank && (i + 1 == |t| || ClassOf(u, t[i + 1]) != ClassOf(u, t[i]))
  }

  /** A character that starts a run of anything but whitespace. */
  predicate IsBigStart(u: Unicode, t: string, i: nat) {
    i < |t| && !u.whitespace(t[i]) && (i == 0 || u.whitespace(t[i - 1]))
  }

  /** The first word start from `i` on, or the end. */
  function NextStart(u: Unicode, t: string, i: nat): (r: nat)
    requires i <= |t|
    ensures i <= r <= |t| && (r == |t| || IsStart(u, t, r))
    ensures forall k :: i <= k < r ==> !IsStart(u, t, k)
    decreases |t| - i
  {
    if i == |t| || IsStart(u, t, i) then i else NextStart(u, t, i + 1)
  }

  /** The last word start before `i`, or 0. */
  function PreviousStart(u: Unicode, t: string, i: nat): (r: nat)
    requires i <= |t|
    ensures r <= i && (r == 0 || (r < i && IsStart(u, t, r)))
    ensures forall k :: r < k < i ==> !IsStart(u, t, k)
  {
    if i == 0 then 0 else if IsStart(u, t, i - 1) then i - 1 else PreviousStart(u, t, i - 1)
  }

  /** The first word end from `i` on, or the end of the line. */
  function NextEnd(u: Unicode, t: string, i: nat): (r: nat)
    requires i <= |t|
    ensures i <= r <= |t| && (r == |t| || IsEnd(u, t, r))
    ensures forall k :: i <= k < r ==> !IsEnd(u, t, k)
    decreases |t| - i
  {
    if i == |t| || IsEnd(u, t, i) then i else NextEnd(u, t, i + 1)
  }

  /** The last start of a non-whitespace run before `i`, or 0. */
  function PreviousBigStart(u: Unicode, t: string, i: nat): (r: nat)
    requires i <= |t|
    ensures r <= i && (r == 0 || (r < i && IsBigStart(u, t, r)))
    ensures forall k :: r < k < i ==> !IsBigStart(u, t, k)
  {
    if i == 0 then 0 else if IsBigStart(u, t, i - 1) then i - 1 else PreviousBigStart(u, t, i - 1)
  }

  /** `b` undoes `w` from the start of a word, whenever there is a later one. */
  lemma BackAfterWord(u: Unicode, t: string, i: nat)
    requires IsStart(u, t, i) && NextStart(u, t, i + 1) < |t|
    ensures PreviousStart(u, t, NextStart(u, t, i + 1)) == i
  {
    var next := NextStart(u, t, i + 1);
    var back := PreviousStart(u, t, next);
    assert !(i < back < next);
  }

  // ---- The line ----

  datatype ViMode = Inserting | Normal

  datatype Vi = Vi(mode: ViMode, pending: Option<char>)

  /** A `CommandPrompt` with its line as characters. */
  datatype Editor = Editor(text: string, cursor: nat, vi: Option<Vi>, historyIndex: Option<nat>, draft: string)
  {
    predicate Valid(history: seq<string>) {
      cursor <= |text| && (historyIndex.Some? ==> historyIndex.value < |history|)
    }

    predicate InNormal() {
      vi.Some? && vi.value.mode == Normal
    }

    /** On a character, or at the start of an empty line. */
    predicate OnCharacter() {
      cursor < |text| || cursor == 0
    }

    function InMode(mode: ViMode): Editor {
      this.(vi := Some(Vi(mode, None)))
    }
  }

  /** Typed text on one line: controls become spaces. */
  function Plain(s: string): (r: string)
    ensures |r| == |s| && forall i :: 0 <= i < |s| ==> r[i] == if IsControl(s[i]) then ' ' else s[i]
  {
    seq(|s|, i requires 0 <= i < |s| => if IsControl(s[i]) then ' ' else s[i])
  }

  /** The line with `s` in place of what is between two cursor positions. */
  function Replaced(t: string, from: nat, to: nat, s: string): string
    requires from <= to <= |t|
  {
    t[..from] + s + t[to..]
  }

  function Insert(e: Editor, s: string): Editor
    requires e.cursor <= |e.text|
  {
    e.(text := Replaced(e.text, e.cursor, e.cursor, Plain(s)), cursor := e.cursor + |s|)
  }

  function Backspace(e: Editor): Editor
    requires e.cursor <= |e.text|
  {
    if e.cursor == 0 then e else e.(text := Replaced(e.text, e.cursor - 1, e.cursor, ""), cursor := e.cursor - 1)
  }

  function Delete(e: Editor): Editor
    requires e.cursor <= |e.text|
  {
    if e.cursor == |e.text| then e else e.(text := Replaced(e.text, e.cursor, e.cursor + 1, ""))
  }

  function Left(e: Editor): Editor {
    e.(cursor := if e.cursor == 0 then 0 else e.cursor - 1)
  }

  function Right(e: Editor): Editor
    requires e.cursor <= |e.text|
  {
    e.(cursor := if e.cursor == |e.text| then e.cursor else e.cursor + 1)
  }

  function Home(e: Editor): Editor {
    e.(cursor := 0)
  }

  function End(e: Editor): Editor {
    e.(cursor := |e.text|)
  }

  function KillToStart(e: Editor): Editor
    requires e.cursor <= |e.text|
  {
    e.(text := e.text[e.cursor..], cursor := 0)
  }

  function KillToEnd(e: Editor): Editor
    requires e.cursor <= |e.text|
  {
    e.(text := e.text[..e.cursor])
  }

  function DeleteWord(u: Unicode, e: Editor): Editor
    requires e.cursor <= |e.text|
  {
    var start := PreviousBigStart(u, e.text, e.cursor);
    e.(text := Replaced(e.text, start, e.cursor, ""), cursor := start)
  }

  function Show(e: Editor, text: string): Editor {
    e.(text := text, cursor := |text|)
  }

  /** Back in the history; the first step keeps the line as the draft. */
  function HistoryUp(e: Editor, history: seq<string>): Editor
    requires e.Valid(history)
  {
    match e.historyIndex
    case None =>
      if history == [] then e
      else Show(e.(draft := e.text, historyIndex := Some(|history| - 1)), history[|history| - 1])
    case Some(index) =>
      if index == 0 then e else Show(e.(historyIndex := Some(index - 1)), history[index - 1])
  }

  /** Forward in the history; past the newest entry the draft comes back. */
  function HistoryDown(e: Editor, history: seq<string>): Editor
    requires e.Valid(history)
  {
    match e.historyIndex
    case None => e
    case Some(index) =>
      if index + 1 < |history| then Show(e.(historyIndex := Some(index + 1)), history[index + 1])
      else Show(e.(historyIndex := None, draft := ""), e.draft)
  }

  // ---- Vi keys ----

  /** Where `w` goes. */
  function WordRight(u: Unicode, t: string, i: nat): (r: nat)
    requires i <= |t|
    ensures i <= r <= |t|
  {
    if i == |t| then i else NextStart(u, t, i + 1)
  }

  /** Where `e` goes: the next word end, or the last character. */
  function WordEnd(u: Unicode, t: string, i: nat): (r: nat)
    requires i <= |t|
    ensures r < |t| || (r == 0 && t == "")
  {
    var end := if i == |t| then |t| else NextEnd(u, t, i + 1);
    if end == |t| && end > 0 then end - 1 else end
  }

  function ViCommand(u: Unicode, e: Editor, ch: char, history: seq<string>): (r: Editor)
    requires e.Valid(history)
    ensures r.Valid(history) && (e.vi.Some? ==> r.vi.Some?)
  {
    if ch == 'h' then Left(e)
    else if ch == 'l' then Right(e)
    else if ch == '0' then Home(e)
    else if ch == '$' then End(e)
    else if ch == 'w' then e.(cursor := WordRight(u, e.text, e.cursor))
    else if ch == 'b' then e.(cursor := PreviousStart(u, e.text, e.cursor))
    else if ch == 'e' then e.(cursor := WordEnd(u, e.text, e.cursor))
    else if ch == 'x' then Delete(e)
    else if ch == 'D' then KillToEnd(e)
    else if ch == 'C' then KillToEnd(e).InMode(Inserting)
    else if ch == 'i' then e.InMode(Inserting)
    else if ch == 'a' then Right(e).InMode(Inserting)
    else if ch == 'A' then End(e).InMode(Inserting)
    else if ch == 'I' then Home(e).InMode(Inserting)
    else if ch == 'k' then HistoryUp(e, history)
    else if ch == 'j' then HistoryDown(e, history)
    else if ch == 'd' || ch == 'c' then e.(vi := Some(Vi(Normal, Some(ch))))
    else e
  }

  /** How far `dw` or `cw` reaches. */
  function OperatorEnd(u: Unicode, t: string, i: nat, operator: char): (end: nat)
    requires i <= |t|
    ensures i <= end <= |t|
  {
    if operator == 'c' && i < |t| && !u.whitespace(t[i]) then (LastOfWord(u, t, i); NextEnd(u, t, i) + 1)
    else WordRight(u, t, i)
  }

  function ViOperator(u: Unicode, e: Editor, operator: char, motion: char): (r: Editor)
    requires e.cursor <= |e.text|
    ensures r.cursor == e.cursor <= |r.text| && r.vi.Some? && r.historyIndex == e.historyIndex
  {
    var normal := e.InMode(Normal);
    if motion != 'w' then normal
    else
      var cut := normal.(text := Replaced(e.text, e.cursor, OperatorEnd(u, e.text, e.cursor, operator), ""));
      if operator == 'c' then cut.InMode(Inserting) else cut
  }

  function Clamped(e: Editor): Editor {
    if e.InNormal() && e.cursor >= |e.text| then e.(cursor := if |e.text| == 0 then 0 else |e.text| - 1) else e
  }

  /** A word that has started ends on the line. */
  lemma {:induction false} LastOfWord(u: Unicode, t: string, i: nat)
    requires i < |t| && ClassOf(u, t[i]) != Blank
    ensures NextEnd(u, t, i) < |t|
    decreases |t| - i
  {
    if !IsEnd(u, t, i) {
      LastOfWord(u, t, i + 1);
    }
  }

  /** The keys the prompt tells apart; `Pasted` is a key event of raw bytes, as text. */
  datatype KeyEvent =
    | Char(ch: char) | Pasted(text: string) | Enter | Escape | Ctrl(ch: char)
    | LeftKey | RightKey | UpKey | DownKey | HomeKey | EndKey | BackspaceKey | DeleteKey | OtherKey

  /** The keys normal mode leaves to the default prompt keys. */
  predicate LeftToPrompt(key: KeyEvent) {
    key in {Enter, Escape, Ctrl('c'), Ctrl('g'), LeftKey, RightKey,
            UpKey, DownKey, HomeKey, EndKey, BackspaceKey, DeleteKey}
  }

  /** `vi_key`: the line afterwards, and whether the vi table took the key. */
  function ViKey(u: Unicode, e: Editor, key: KeyEvent, history: seq<string>): (r: (Editor, bool))
    requires e.Valid(history)
    ensures r.0.Valid(history)
  {
    match e.vi
    case None => (e, false)
    case Some(vi) =>
      if vi.mode == Inserting then
        if key.Escape? then (Left(e.InMode(Normal)), true) else (e, false)
      else if key.Char? then
        (Clamped(match vi.pending
                 case Some(operator) => ViOperator(u, e, operator, key.ch)
                 case None => ViCommand(u, e, key.ch, history)), true)
      else (e.InMode(Normal), !LeftToPrompt(key))
  }

  /** After any character key that leaves normal mode on, the cursor is on a character or at 0; a key the table does
      not take changes neither the line nor the cursor. */
  lemma ViKeyKeeps(u: Unicode, e: Editor, key: KeyEvent, history: seq<string>)
    requires e.Valid(history)
    ensures (var (after, taken) := ViKey(u, e, key, history);
             (key.Char? && e.InNormal() ==> taken && (after.InNormal() ==> after.OnCharacter()))
             && (!taken ==> after == e || after == e.InMode(Normal))
             && (after.vi.Some? <==> e.vi.Some?))
  {
    hide ViCommand, ViOperator;
  }

  /** Escape from typing goes to normal mode, one character to the left; any other key is typed. */
  lemma EscapeEndsTyping(u: Unicode, e: Editor, key: KeyEvent, history: seq<string>)
    requires e.Valid(history) && e.vi.Some? && e.vi.value.mode == Inserting
    ensures ViKey(u, e, key, history)
         == if key == Escape
            then (e.(cursor := if e.cursor > 0 then e.cursor - 1 else 0, vi := Some(Vi(Normal, None))), true)
            else (e, false)
  {
    hide ViCommand, ViOperator;
  }

  /** A command key in normal mode does what the command does, except that the cursor goes back onto the last
      character when it would stay behind it. */
  lemma CommandKeyIs(u: Unicode, e: Editor, ch: char, history: seq<string>)
    requires e.Valid(history) && e.vi == Some(Vi(Normal, None))
    ensures (var after, command := ViKey(u, e, Char(ch), history).0, ViCommand(u, e, ch, history);
             && (command.OnCharacter() || !command.InNormal() ==> after == command)
             && (!command.OnCharacter() && command.InNormal() ==>
                   after == command.(cursor := after.cursor) && after.cursor + 1 == |command.text|))
  {
    hide ViCommand, ViOperator;
  }

  /** A key behind `d` or `c` is its motion. */
  lemma MotionKeyIs(u: Unicode, e: Editor, operator: char, ch: char, history: seq<string>)
    requires e.Valid(history) && e.vi == Some(Vi(Normal, Some(operator)))
    ensures (var after, cut := ViKey(u, e, Char(ch), history).0, ViOperator(u, e, operator, ch);
             && (cut.OnCharacter() || !cut.InNormal() ==> after == cut)
             && (!cut.OnCharacter() && cut.InNormal() ==>
                   after == cut.(cursor := after.cursor) && after.cursor + 1 == |cut.text|))
  {
    hide ViCommand, ViOperator;
  }

  /** The other keys in normal mode: those that move, edit, close or cancel are the prompt's, the rest do nothing. */
  lemma OtherKeysAre(u: Unicode, e: Editor, key: KeyEvent, history: seq<string>)
    requires e.Valid(history) && e.InNormal() && !key.Char?
    ensures ViKey(u, e, key, history).0 == e.(vi := Some(Vi(Normal, None)))
    ensures ViKey(u, e, key, history).1
       <==> key.Pasted? || key.OtherKey? || (key.Ctrl? && key.ch != 'c' && key.ch != 'g')
  {
    hide ViCommand, ViOperator;
  }

  // ---- The prompt over a run of keys ----

  datatype Outcome = Editing(editor: Editor) | Committed(line: string) | Cancelled

  /** `handle_prompt_key`. */
  function PromptKey(u: Unicode, e: Editor, key: KeyEvent, history: seq<string>): (o: Outcome)
    requires e.Valid(history)
    ensures o.Editing? ==> o.editor.Valid(history)
  {
    var (next, taken) := ViKey(u, e, key, history);
    if taken then Editing(next)
    else
      match key
      case Enter => Committed(next.text)
      case Escape => Cancelled
      case Char(ch) => Editing(Insert(next, [ch]))
      case Pasted(text) => Editing(Insert(next, text))
      case BackspaceKey => Editing(Backspace(next))
      case DeleteKey => Editing(Delete(next))
      case LeftKey => Editing(Left(next))
      case RightKey => Editing(Right(next))
      case HomeKey => Editing(Home(next))
      case EndKey => Editing(End(next))
      case UpKey => Editing(HistoryUp(next, history))
      case DownKey => Editing(HistoryDown(next, history))
      case Ctrl(ch) =>
        if ch == 'c' || ch == 'g' then Cancelled
        else Editing(
          if ch == 'h' then Backspace(next)
          else if ch == 'd' then Delete(next)
          else if ch == 'b' then Left(next)
          else if ch == 'f' then Right(next)
          else if ch == 'a' then Home(next)
          else if ch == 'e' then End(next)
          else if ch == 'u' then KillToStart(next)
          else if ch == 'k' then KillToEnd(next)
          else if ch == 'w' then DeleteWord(u, next)
          else if ch == 'p' then HistoryUp(next, history)
          else if ch == 'n' then HistoryDown(next, history)
          else next)
      case OtherKey => Editing(next)
  }

  /** A prompt under any keys until it closes: the cursor never passes the end and the history entry shown exists. */
  function PromptKeys(u: Unicode, e: Editor, keys: seq<KeyEvent>, history: seq<string>): (o: Outcome)
    requires e.Valid(history)
    ensures o.Editing? ==> o.editor.Valid(history)
    decreases |keys|
  {
    if keys == [] then Editing(e)
    else
      var o := PromptKey(u, e, keys[0], history);
      if o.Editing? then PromptKeys(u, o.editor, keys[1..], history) else o
  }

  /** In vi normal mode, whatever was typed before: the last key being a character, the cursor is on a character. */
  lemma {:induction false} NormalStaysOnCharacter(u: Unicode, e: Editor, keys: seq<KeyEvent>, ch: char,
                                                  history: seq<string>)
    requires e.Valid(history)
    ensures (var before := PromptKeys(u, e, keys, history);
             var after := PromptKeys(u, e, keys + [Char(ch)], history);
             before.Editing? && before.editor.InNormal()
             ==> after.Editing? && (after.editor.InNormal() ==> after.editor.OnCharacter()))
    decreases |keys|
  {
    hide ViKey;
    if keys == [] {
      ViKeyKeeps(u, e, Char(ch), history);
      assert keys + [Char(ch)] == [Char(ch)];
      assert [Char(ch)][1..] == [];
    } else {
      assert (keys + [Char(ch)])[1..] == keys[1..] + [Char(ch)];
      var o := PromptKey(u, e, keys[0], history);
      if o.Editing? {
        NormalStaysOnCharacter(u, o.editor, keys[1..], ch, history);
      }
    }
  }

  // ---- What one edit undoes ----

  function Backspaces(e: Editor, n: nat): Editor
    requires n <= e.cursor <= |e.text|
    decreases n
  {
    if n == 0 then e else Backspaces(Backspace(e), n - 1)
  }

  /** As many backspaces as characters typed take them off again. */
  lemma {:induction false} BackspacesUndoInsert(e: Editor, s: string)
    requires e.cursor <= |e.text|
    ensures Backspaces(Insert(e, s), |s|) == e
  {
    if s == "" {
      assert Replaced(e.text, e.cursor, e.cursor, "") == e.text;
    } else {
      var shorter := s[..|s| - 1];
      assert Backspace(Insert(e, s)).text == Insert(e, shorter).text;
      BackspacesUndoInsert(e, shorter);
    }
  }

  // ---- Edits in terms of one another ----

  function Lefts(e: Editor, n: nat): (r: Editor)
    ensures r.text == e.text
  {
    if n == 0 then e else Left(Lefts(e, n - 1))
  }

  function Rights(e: Editor, n: nat): (r: Editor)
    requires e.cursor <= |e.text|
    ensures r.cursor <= |r.text| && r.text == e.text
  {
    if n == 0 then e else Right(Rights(e, n - 1))
  }

  function Deletes(e: Editor, n: nat): (r: Editor)
    requires e.cursor <= |e.text|
    ensures r.cursor <= |r.text|
  {
    if n == 0 then e else Delete(Deletes(e, n - 1))
  }

  /** A step left or right is one character, up to the ends, and a step back undoes it. */
  lemma StepsUndo(e: Editor)
    requires e.cursor <= |e.text|
    ensures e.cursor < |e.text| ==> Right(e).cursor == e.cursor + 1 && Left(Right(e)) == e
    ensures e.cursor > 0 ==> Left(e).cursor + 1 == e.cursor && Right(Left(e)) == e
    ensures e.cursor == |e.text| ==> Right(e) == e
    ensures e.cursor == 0 ==> Left(e) == e
  {
  }

  /** Delete takes off the character under the cursor: what a backspace behind it would. */
  lemma DeleteIsBackspaceAfter(e: Editor)
    requires e.cursor <= |e.text|
    ensures Delete(e) == if e.cursor < |e.text| then Backspace(Right(e)) else e
  {
  }

  /** Home and End are as many steps as it takes. */
  lemma {:induction false} HomeIsLefts(e: Editor, n: nat)
    requires n <= e.cursor
    ensures Lefts(e, n) == e.(cursor := e.cursor - n)
    ensures n == e.cursor ==> Lefts(e, n) == Home(e)
  {
    if n > 0 { HomeIsLefts(e, n - 1); }
  }

  lemma {:induction false} EndIsRights(e: Editor, n: nat)
    requires e.cursor + n <= |e.text|
    ensures Rights(e, n) == e.(cursor := e.cursor + n)
    ensures e.cursor + n == |e.text| ==> Rights(e, n) == End(e)
  {
    if n > 0 { EndIsRights(e, n - 1); }
  }

  /** Killing to the start is as many backspaces as there are characters before the cursor. */
  lemma {:induction false} KillToStartIsBackspaces(e: Editor)
    requires e.cursor <= |e.text|
    ensures Backspaces(e, e.cursor) == KillToStart(e)
    decreases e.cursor
  {
    if e.cursor > 0 {
      KillToStartIsBackspaces(Backspace(e));
      assert Backspace(e).text[e.cursor - 1..] == e.text[e.cursor..];
    } else {
      assert e.text[0..] == e.text;
    }
  }

  /** Killing to the end is as many deletes as there are characters from the cursor on. */
  lemma {:induction false} KillToEndIsDeletes(e: Editor, n: nat)
    requires e.cursor + n <= |e.text|
    ensures Deletes(e, n) == e.(text := e.text[..e.cursor] + e.text[e.cursor + n..])
    ensures e.cursor + n == |e.text| ==> Deletes(e, n) == KillToEnd(e)
  {
    if n == 0 {
      assert e.text[..e.cursor] + e.text[e.cursor..] == e.text;
    } else {
      KillToEndIsDeletes(e, n - 1);
      var before := e.text[..e.cursor] + e.text[e.cursor + (n - 1)..];
      assert Replaced(before, e.cursor, e.cursor + 1, "") == e.text[..e.cursor] + e.text[e.cursor + n..];
    }
  }

  /** `w` before the cursor goes: from the start of a run of non-blanks, which with the blanks behind it is all that
      goes, blanks being all the rest. */
  lemma DeleteWordTakesOne(u: Unicode, e: Editor)
    requires e.cursor <= |e.text|
    ensures (var after := DeleteWord(u, e);
             && after.text == e.text[..after.cursor] + e.text[e.cursor..] && after.cursor <= e.cursor
             && (forall k :: after.cursor < k < e.cursor ==> !IsBigStart(u, e.text, k))
             && (after.cursor > 0 ==> after.cursor < e.cursor && IsBigStart(u, e.text, after.cursor)))
  {
    var start := PreviousBigStart(u, e.text, e.cursor);
    assert Replaced(e.text, start, e.cursor, "") == e.text[..start] + e.text[e.cursor..];
  }

  // ---- Keys in terms of one another ----

  lemma NoViKey(u: Unicode, e: Editor, key: KeyEvent, history: seq<string>)
    requires e.Valid(history) && e.vi == None
    ensures ViKey(u, e, key, history) == (e, false)
  {
  }

  /** The line with a character typed at the cursor. */
  function Typed(e: Editor, ch: char): (typed: Editor)
    requires e.cursor <= |e.text|
    ensures e.cursor < typed.cursor <= |typed.text| && typed.vi == e.vi && typed.historyIndex == e.historyIndex
  {
    e.(text := e.text[..e.cursor] + [ch] + e.text[e.cursor..], cursor := e.cursor + 1)
  }

  /** Typing a character, and pasting it, puts it at the cursor, and backspace, or a step left and delete, takes it
      off again. */
  lemma TypingKeysAre(u: Unicode, e: Editor, ch: char, history: seq<string>)
    requires e.Valid(history) && e.vi == None && !IsControl(ch)
    ensures PromptKey(u, e, Char(ch), history) == Editing(Typed(e, ch))
    ensures PromptKey(u, e, Pasted([ch]), history) == Editing(Typed(e, ch))
    ensures PromptKey(u, Typed(e, ch), BackspaceKey, history) == Editing(e)
    ensures PromptKey(u, Typed(e, ch), LeftKey, history) == Editing(Typed(e, ch).(cursor := e.cursor))
    ensures PromptKey(u, Typed(e, ch).(cursor := e.cursor), DeleteKey, history) == Editing(e)
  {
    hide ViKey, Insert, Backspace, Delete, Left, Typed;
    TypedUndone(e, ch);
    var typed := Typed(e, ch);
    NoViKey(u, e, Char(ch), history);
    NoViKey(u, e, Pasted([ch]), history);
    NoViKey(u, typed, BackspaceKey, history);
    NoViKey(u, typed, LeftKey, history);
    NoViKey(u, typed.(cursor := e.cursor), DeleteKey, history);
  }

  /** A control character pasted is a space typed. */
  lemma ControlsAreSpaces(u: Unicode, e: Editor, ch: char, history: seq<string>)
    requires e.Valid(history) && e.vi == None && IsControl(ch)
    ensures PromptKey(u, e, Pasted([ch]), history) == PromptKey(u, e, Char(' '), history)
  {
    hide ViKey;
    NoViKey(u, e, Pasted([ch]), history);
    NoViKey(u, e, Char(' '), history);
    assert Plain([ch]) == Plain([' ']);
  }

  /** Keys that move or close: home and end are as many steps as it takes, up and down steps in the history. */
  function MovingKey(e: Editor, key: KeyEvent, history: seq<string>): Option<Outcome>
    requires e.Valid(history)
  {
    match key
    case LeftKey => Some(Editing(Lefts(e, 1)))
    case RightKey => Some(Editing(Rights(e, 1)))
    case HomeKey => Some(Editing(Lefts(e, e.cursor)))
    case EndKey => Some(Editing(Rights(e, |e.text| - e.cursor)))
    case UpKey => Some(Editing(Ups(e, 1, history)))
    case DownKey => Some(Editing(Downs(e, 1, history)))
    case Enter => Some(Committed(e.text))
    case Escape => Some(Cancelled)
    case _ => None
  }

  lemma MovingKeysAre(u: Unicode, e: Editor, key: KeyEvent, history: seq<string>)
    requires e.Valid(history) && e.vi == None
    ensures MovingKey(e, key, history).Some? ==> PromptKey(u, e, key, history) == MovingKey(e, key, history).value
  {
    hide ViKey, HistoryUp, HistoryDown, Home, End, Left, Right, Lefts, Rights, Ups, Downs;
    HomeIsLefts(e, e.cursor);
    EndIsRights(e, |e.text| - e.cursor);
    OneStep(e, history);
    NoViKey(u, e, key, history);
  }

  lemma OneStep(e: Editor, history: seq<string>)
    requires e.Valid(history)
    ensures Ups(e, 1, history) == HistoryUp(e, history) && Downs(e, 1, history) == HistoryDown(e, history)
    ensures Deletes(e, 1) == Delete(e) && Rights(e, 1) == Right(e) && Lefts(e, 1) == Left(e)
  {
    hide HistoryUp, HistoryDown, Delete, Right, Left;
    assert Ups(e, 0, history) == e && Downs(e, 0, history) == e && Deletes(e, 0) == e;
    assert Rights(e, 0) == e && Lefts(e, 0) == e;
  }

  /** The key a control key stands for. */
  function StandsFor(ch: char): Option<KeyEvent> {
    match ch
    case 'h' => Some(BackspaceKey)
    case 'd' => Some(DeleteKey)
    case 'b' => Some(LeftKey)
    case 'f' => Some(RightKey)
    case 'a' => Some(HomeKey)
    case 'e' => Some(EndKey)
    case 'p' => Some(UpKey)
    case 'n' => Some(DownKey)
    case 'c' | 'g' => Some(Escape)
    case _ => None
  }

  /** What a control key does: what the key it stands for does, or it kills: `u` what is before the cursor, `k` what
      is after it, `w` the word before it. */
  function ControlKey(u: Unicode, e: Editor, ch: char, history: seq<string>): Outcome
    requires e.Valid(history)
  {
    match StandsFor(ch)
    case Some(key) => PromptKey(u, e, key, history)
    case None =>
      Editing(if ch == 'u' then Backspaces(e, e.cursor)
              else if ch == 'k' then Deletes(e, |e.text| - e.cursor)
              else if ch == 'w' then DeleteWord(u, e)
              else e)
  }

  lemma ControlKeysAre(u: Unicode, e: Editor, ch: char, history: seq<string>)
    requires e.Valid(history) && e.vi == None
    ensures PromptKey(u, e, Ctrl(ch), history) == ControlKey(u, e, ch, history)
  {
    hide ViKey, Insert, Backspace, Delete, Left, Right, Home, End, HistoryUp, HistoryDown, DeleteWord, KillToStart,
         KillToEnd, Backspaces, Deletes;
    KillToStartIsBackspaces(e);
    KillToEndIsDeletes(e, |e.text| - e.cursor);
    NoViKey(u, e, Ctrl(ch), history);
    if StandsFor(ch).Some? { NoViKey(u, e, StandsFor(ch).value, history); }
  }

  lemma TypedUndone(e: Editor, ch: char)
    requires e.cursor <= |e.text| && !IsControl(ch)
    ensures Insert(e, [ch]) == Typed(e, ch)
    ensures Backspace(Typed(e, ch)) == e
    ensures Left(Typed(e, ch)) == Typed(e, ch).(cursor := e.cursor)
    ensures Delete(Typed(e, ch).(cursor := e.cursor)) == e
  {
    var typed := Typed(e, ch);
    assert Plain([ch]) == [ch];
    assert Backspaces(typed, 1) == Backspaces(Backspace(typed), 0);
    BackspacesUndoInsert(e, [ch]);
    DeleteIsBackspaceAfter(Left(typed));
  }

  /** The moves of vi's normal mode, by the steps they repeat. */
  function ViMove(e: Editor, ch: char): Editor
    requires e.cursor <= |e.text|
  {
    match ch
    case 'h' => Lefts(e, 1)
    case 'l' => Rights(e, 1)
    case '0' => Lefts(e, e.cursor)
    case '$' => Rights(e, |e.text| - e.cursor)
    case _ => e
  }

  lemma ViMovesAre(u: Unicode, e: Editor, ch: char, history: seq<string>)
    requires e.Valid(history) && ch in {'h', 'l', '0', '$'}
    ensures ViCommand(u, e, ch, history) == ViMove(e, ch)
  {
    hide HistoryUp, HistoryDown, NextStart, PreviousStart, NextEnd, WordRight, WordEnd, KillToEnd, Delete, Left, Right,
         Home, End, Lefts, Rights;
    OneStep(e, history);
    HomeIsLefts(e, e.cursor);
    EndIsRights(e, |e.text| - e.cursor);
  }

  /** Its word moves, by where words start and end. */
  lemma ViWordsAre(u: Unicode, e: Editor, history: seq<string>)
    requires e.Valid(history)
    ensures (var w := ViCommand(u, e, 'w', history);
             && w == e.(cursor := w.cursor)
             && (w.cursor == |e.text| || (e.cursor < w.cursor && IsStart(u, e.text, w.cursor)))
             && forall k :: e.cursor < k < w.cursor ==> !IsStart(u, e.text, k))
    ensures (var b := ViCommand(u, e, 'b', history);
             && b == e.(cursor := b.cursor)
             && (b.cursor == 0 || (b.cursor < e.cursor && IsStart(u, e.text, b.cursor)))
             && forall k :: b.cursor < k < e.cursor ==> !IsStart(u, e.text, k))
    ensures (var end := ViCommand(u, e, 'e', history);
             && end == e.(cursor := end.cursor)
             && (e.text == "" || end.cursor == |e.text| - 1 || (e.cursor < end.cursor && IsEnd(u, e.text, end.cursor)))
             && forall k :: e.cursor < k < end.cursor ==> !IsEnd(u, e.text, k))
  {
    hide HistoryUp, HistoryDown, NextStart, PreviousStart, NextEnd, IsStart, IsEnd, KillToEnd, Delete, Left, Right;
  }

  /** Its edits and modes, by the prompt's edits; a key that is none of its commands does nothing. */
  function ViEdit(e: Editor, ch: char, history: seq<string>): Editor
    requires e.Valid(history)
  {
    match ch
    case 'x' => Deletes(e, 1)
    case 'D' => Deletes(e, |e.text| - e.cursor)
    case 'i' => e.(vi := Some(Vi(Inserting, None)))
    case 'k' => Ups(e, 1, history)
    case 'j' => Downs(e, 1, history)
    case 'd' => e.(vi := Some(Vi(Normal, Some('d'))))
    case 'c' => e.(vi := Some(Vi(Normal, Some('c'))))
    case _ => e
  }

  lemma ViEditsAre(u: Unicode, e: Editor, ch: char, history: seq<string>)
    requires e.Valid(history) && ch !in {'h', 'l', '0', '$', 'w', 'b', 'e', 'C', 'a', 'A', 'I'}
    ensures ViCommand(u, e, ch, history) == ViEdit(e, ch, history)
  {
    hide HistoryUp, HistoryDown, NextStart, PreviousStart, NextEnd, WordRight, WordEnd, KillToEnd, Delete, Deletes, Ups,
         Downs, Left, Right, Home, End;
    OneStep(e, history);
    KillToEndIsDeletes(e, |e.text| - e.cursor);
  }

  /** `C`, `a`, `A` and `I` are `D`, `l`, `$` and `0`, then `i`. */
  lemma ViInsertsAre(u: Unicode, e: Editor, history: seq<string>)
    requires e.Valid(history)
    ensures ViCommand(u, e, 'C', history) == ViCommand(u, ViCommand(u, e, 'D', history), 'i', history)
    ensures ViCommand(u, e, 'a', history) == ViCommand(u, ViCommand(u, e, 'l', history), 'i', history)
    ensures ViCommand(u, e, 'A', history) == ViCommand(u, ViCommand(u, e, '$', history), 'i', history)
    ensures ViCommand(u, e, 'I', history) == ViCommand(u, ViCommand(u, e, '0', history), 'i', history)
  {
    hide HistoryUp, HistoryDown, NextStart, PreviousStart, NextEnd, WordRight, WordEnd, Delete;
  }

  /** `cw` on a word cuts to the word's end and goes on inserting; on blanks it cuts what `dw` does. */
  lemma ChangeWordCuts(u: Unicode, e: Editor)
    requires e.cursor < |e.text|
    ensures (var after := ViOperator(u, e, 'c', 'w');
             exists end :: e.cursor < end <= |e.text| && after.text == e.text[..e.cursor] + e.text[end..]
                           && after.cursor == e.cursor && after.vi == Some(Vi(Inserting, None))
                           && (if u.whitespace(e.text[e.cursor])
                               then after.text == ViOperator(u, e, 'd', 'w').text
                               else IsEnd(u, e.text, end - 1)
                                    && forall k :: e.cursor <= k < end - 1 ==> !IsEnd(u, e.text, k)))
    ensures forall motion, operator | motion != 'w' :: ViOperator(u, e, operator, motion) == e.InMode(Normal)
  {
    var end := OperatorEnd(u, e.text, e.cursor, 'c');
    if !u.whitespace(e.text[e.cursor]) { LastOfWord(u, e.text, e.cursor); }
    assert Replaced(e.text, e.cursor, end, "") == e.text[..e.cursor] + e.text[end..];
  }

  /** `dw` at a word start with a later one takes off one word and its blanks, and nothing else. */
  lemma DeleteWordForward(u: Unicode, e: Editor)
    requires IsStart(u, e.text, e.cursor) && NextStart(u, e.text, e.cursor + 1) < |e.text|
    ensures (var after := ViOperator(u, e, 'd', 'w');
             var next := NextStart(u, e.text, e.cursor + 1);
             after.text == e.text[..e.cursor] + e.text[next..] && after.text[after.cursor] == e.text[next]
             && PreviousStart(u, e.text, next) == e.cursor)
  {
    BackAfterWord(u, e.text, e.cursor);
    assert Replaced(e.text, e.cursor, NextStart(u, e.text, e.cursor + 1), "")
        == e.text[..e.cursor] + e.text[NextStart(u, e.text, e.cursor + 1)..];
  }

  // ---- Browsing the history ----

  function Ups(e: Editor, n: nat, history: seq<string>): (r: Editor)
    requires e.Valid(history)
    ensures r.Valid(history)
  {
    if n == 0 then e else HistoryUp(Ups(e, n - 1, history), history)
  }

  function Downs(e: Editor, n: nat, history: seq<string>): (r: Editor)
    requires e.Valid(history)
    ensures r.Valid(history)
  {
    if n == 0 then e else HistoryDown(Downs(e, n - 1, history), history)
  }

  /** `n` steps back show the entry `n` from the newest, or the oldest, and keep the line typed. */
  lemma {:induction false} UpsShow(e: Editor, n: nat, history: seq<string>)
    requires e.Valid(history) && e.historyIndex == None && history != [] && n > 0
    ensures (var index := if n <= |history| then |history| - n else 0;
             Ups(e, n, history) == Show(e.(draft := e.text, historyIndex := Some(index)), history[index]))
  {
    if n > 1 {
      UpsShow(e, n - 1, history);
    } else {
      assert Ups(e, 0, history) == e;
    }
  }

  lemma {:induction false} DownsShow(e: Editor, n: nat, history: seq<string>)
    requires e.Valid(history) && e.historyIndex.Some? && e.historyIndex.value + n < |history| && n > 0
    ensures (var index := e.historyIndex.value + n;
             Downs(e, n, history) == Show(e.(historyIndex := Some(index)), history[index]))
  {
    if n > 1 {
      DownsShow(e, n - 1, history);
    } else {
      assert Downs(e, 0, history) == e;
    }
  }

  /** Going back any number of entries and forward past the newest restores the line as it was typed. */
  lemma DraftComesBack(e: Editor, n: nat, history: seq<string>)
    requires e.Valid(history) && e.historyIndex == None && n > 0
    ensures (var after := Downs(Ups(e, n, history), if n <= |history| then n else |history|, history);
             after.text == e.text && after.historyIndex == None && after.vi == e.vi
             && (history != [] ==> after.cursor == |e.text|))
  {
    if history == [] {
      NoHistory(e, n);
    } else {
      UpsShow(e, n, history);
      var up := Ups(e, n, history);
      var steps := if n <= |history| then n else |history|;
      if steps > 1 {
        DownsShow(up, steps - 1, history);
      } else {
        assert Downs(up, 0, history) == up;
      }
    }
  }

  lemma {:induction false} NoHistory(e: Editor, n: nat)
    requires e.Valid([]) && e.historyIndex == None
    ensures Ups(e, n, []) == e
  {
    if n > 0 {
      NoHistory(e, n - 1);
    }
  }
}
