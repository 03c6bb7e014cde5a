/** Paths of sessions, windows and panes written out, and read back (target.rs). */
module TargetPaths {
  import opened Text
  import opened Decimal
  import opened Format
  import opened Target

  /** How each part of a path is written. */
  function PrintedSession(session: SessionSpec): string {
    match session
    case CurrentSession => ""
    case SessionId(id) => "$" + Digits(id)
    case ExactSession(name) => "=" + name
    case NamedSession(name) => name
  }

  function PrintedWindow(window: WindowSpec): string {
    match window
    case CurrentWindow => ""
    case WindowNode(id) => "@" + Digits(id)
    case ExactWindow(name) => "=" + name
    case NamedWindow(name) => name
    case Start => "^"
    case End => "$"
    case Next(offset) => "+" + Digits(offset)
    case Previous(offset) => "-" + Digits(offset)
  }

  function PrintedPane(pane: PaneSpec): string {
    match pane
    case CurrentPane => ""
    case PaneIndex(index) => Digits(index)
    case PaneBuffer(buffer) => "%" + Digits(buffer)
  }

  /** What can be written so: numbers in range, and names no other form is written as. */
  predicate SessionFits(session: SessionSpec) {
    match session
    case CurrentSession => true
    case SessionId(id) => id < U64_BOUND
    case ExactSession(name) => ':' !in name
    case NamedSession(name) => PlainName(name)
  }

  predicate WindowFits(window: WindowSpec) {
    match window
    case CurrentWindow | ExactWindow(_) | Start | End => true
    case WindowNode(id) => id < U64_BOUND
    case NamedWindow(name) =>
      name != "" && name[0] !in {'+', '-', '@', '='}
      && name !in {"^", "$", "{start}", "{end}", "{current}", "{next}", "{previous}"}
    case Next(offset) => offset < U32_BOUND
    case Previous(offset) => offset < U32_BOUND
  }

  predicate PaneFits(pane: PaneSpec) {
    match pane
    case CurrentPane => true
    case PaneIndex(index) => index < U64_BOUND
    case PaneBuffer(buffer) => buffer < U64_BOUND
  }

  lemma SessionParsesBack(session: SessionSpec)
    requires SessionFits(session)
    ensures ParseSession(PrintedSession(session)) == Ok(session)
    ensures ':' !in PrintedSession(session)
    ensures PrintedSession(session) != "" ==> PrintedSession(session)[0] !in {'%', '@'}
  {
    hide Digits, ParseId;
    match session
    case CurrentSession =>
    case SessionId(id) =>
      PrintedNumber(id, 0);
      DigitsRoundTrip(id);
      assert ("$" + Digits(id))[1..] == Digits(id);
      forall i | 0 <= i < |Digits(id)| ensures Digits(id)[i] != ':' { assert IsDigit(Digits(id)[i]); }
    case ExactSession(name) => assert ("=" + name)[1..] == name;
    case NamedSession(name) =>
  }

  lemma MarkedDigits(mark: string, n: nat)
    requires |mark| == 1
    ensures (var raw := mark + Digits(n); |raw| > 1 && raw[0] == mark[0] && raw[1..] == Digits(n) && IsDigit(raw[1]))
    ensures Digits(n) != ""
  {
    DigitsRoundTrip(n);
    assert IsDigit(Digits(n)[0]);
  }

  lemma WindowParsesBack(window: WindowSpec)
    requires WindowFits(window)
    ensures ParseWindow(PrintedWindow(window)) == Ok(window)
  {
    hide Digits, ParseId, ParseUnsigned;
    match window
    case CurrentWindow =>
    case Start =>
    case End =>
    case NamedWindow(name) =>
    case ExactWindow(name) =>
      assert ("=" + name)[0] == '=' && ("=" + name)[1..] == name;
    case WindowNode(id) =>
      MarkedDigits("@", id);
      PrintedNumber(id, 0);
    case Next(offset) =>
      MarkedDigits("+", offset);
      PrintedNumber(offset, U32_BOUND);
    case Previous(offset) =>
      MarkedDigits("-", offset);
      PrintedNumber(offset, U32_BOUND);
  }

  /** The words for windows, and signs alone, are the same windows. */
  lemma WindowWords()
    ensures ParseWindow("@") == ParseWindow("{current}") == Ok(CurrentWindow)
    ensures ParseWindow("{start}") == Ok(Start) && ParseWindow("{end}") == Ok(End)
    ensures ParseWindow("+") == ParseWindow("{next}") == ParseWindow(PrintedWindow(Next(1)))
    ensures ParseWindow("-") == ParseWindow("{previous}") == ParseWindow(PrintedWindow(Previous(1)))
  {
    hide Digits, ParseUnsigned;
    WindowParsesBack(Next(1));
    WindowParsesBack(Previous(1));
    assert "+"[1..] == "" && "-"[1..] == "";
  }

  lemma PaneWords()
    ensures ParsePane("@") == ParsePane("{active}") == ParsePane(PrintedPane(CurrentPane))
  {
  }

  lemma PaneParsesBack(pane: PaneSpec)
    requires PaneFits(pane)
    ensures ParsePane(PrintedPane(pane)) == Ok(pane)
    ensures '.' !in PrintedPane(pane) && ':' !in PrintedPane(pane)
    ensures (var raw := PrintedPane(pane);
             raw == "" || ParseId(raw).Some? || (raw[0] == '%' && ParseId(raw[1..]).Some?))
  {
    hide Digits, ParseId;
    match pane
    case CurrentPane =>
    case PaneIndex(index) =>
      PrintedNumber(index, 0);
      DigitsRoundTrip(index);
      DigitsAreAPane(Digits(index));
      forall i | 0 <= i < |Digits(index)| ensures Digits(index)[i] !in {'.', ':'} { assert IsDigit(Digits(index)[i]); }
    case PaneBuffer(buffer) =>
      MarkedDigits("%", buffer);
      PrintedNumber(buffer, 0);
      DigitsRoundTrip(buffer);
      forall i | 0 <= i < |Digits(buffer)| ensures Digits(buffer)[i] !in {'.', ':'} {
        assert IsDigit(Digits(buffer)[i]);
      }
  }

  lemma LastDot(window: string, pane: string)
    requires '.' !in pane
    requires pane == "" || ParseId(pane).Some? || (pane[0] == '%' && ParseId(pane[1..]).Some?)
    ensures SplitPane(window + "." + pane) == (window, Some(pane))
  {
    hide ParseId;
    var raw := window + "." + pane;
    var dot := LastIndexOf(raw, '.');
    assert raw[|window|] == '.' && '.' in raw;
    forall i | |window| < i < |raw| ensures raw[i] != '.' { assert raw[i] == pane[i - |window| - 1]; }
    assert raw[dot + 1..] == pane && raw[..dot] == window;
  }

  lemma FirstColon(session: string, rest: string)
    requires ':' !in session
    ensures (var raw := session + ":" + rest;
             IndexOf(raw, ':') == |session| && raw[..|session|] == session && raw[|session| + 1..] == rest)
  {
    var raw := session + ":" + rest;
    assert raw[|session|] == ':';
    forall i | 0 <= i < |session| ensures raw[i] != ':' { assert raw[i] == session[i]; }
  }

  /** Any path written out is read as that path: sessions, windows and panes by number, name or place. */
  lemma PathParsesBack(session: SessionSpec, window: WindowSpec, pane: PaneSpec)
    requires SessionFits(session) && WindowFits(window) && PaneFits(pane)
    ensures Parse(PrintedSession(session) + ":" + (PrintedWindow(window) + "." + PrintedPane(pane)), Pane)
         == Ok(Path(session, window, pane))
    ensures Parse(PrintedSession(session) + ":" + PrintedWindow(window), Window)
         == Ok(Path(session, window, CurrentPane))
  {
    hide ParseSession, ParseWindow, ParsePane, SplitPane, PrintedSession, PrintedWindow, PrintedPane, ParseId, IndexOf,
         SessionFits, WindowFits, PaneFits;
    SessionParsesBack(session);
    WindowParsesBack(window);
    PaneParsesBack(pane);
    LastDot(PrintedWindow(window), PrintedPane(pane));
    FirstColon(PrintedSession(session), PrintedWindow(window) + "." + PrintedPane(pane));
    FirstColon(PrintedSession(session), PrintedWindow(window));
  }

  lemma NoColonIn(raw: string)
    requires ':' !in raw
    ensures IndexOf(raw, ':') == |raw|
  {
  }

  lemma DigitsHaveNoColon(s: string)
    requires AllDigits(s)
    ensures ':' !in s
  {
    assert !IsDigit(':');
  }

  /** What a target without a colon is read as: a session where one is asked for; a pane of the current window behind a
      dot, and a node by its number, where a pane is; else a word that may name a window or a session. */
  lemma BareTargets(session: SessionSpec, pane: PaneSpec, node: nat, name: string)
    requires SessionFits(session) && PaneFits(pane) && node < U64_BOUND
    requires PlainName(name) && WindowFits(NamedWindow(name))
    ensures Parse(PrintedSession(session), Session) == Ok(Path(session, CurrentWindow, CurrentPane))
    ensures Parse("." + PrintedPane(pane), Pane) == Ok(Path(CurrentSession, CurrentWindow, pane))
    ensures Parse(Digits(node), Pane) == Ok(Node(node))
    ensures Parse(name, Window) == Ok(Word(NamedWindow(name), NamedSession(name)))
  {
    hide ParseWindow, ParsePane, SplitPane, Digits, ParseId, IndexOf, WindowFits;
    SessionParsesBack(session);
    NoColonIn(PrintedSession(session));
    PaneParsesBack(pane);
    NoColonIn("." + PrintedPane(pane));
    assert ("." + PrintedPane(pane))[1..] == PrintedPane(pane);
    DigitsRoundTrip(node);
    PrintedNumber(node, 0);
    assert IsDigit(Digits(node)[0]);
    DigitsHaveNoColon(Digits(node));
    NoColonIn(Digits(node));
    WindowParsesBack(NamedWindow(name));
    NoColonIn(name);
  }

  /** What no pane is written as: a name may have it behind a dot. */
  predicate NoPane(tail: string) {
    tail != "" && ParseId(tail) == None && (tail[0] == '%' ==> ParseId(tail[1..]) == None)
  }

  /** A path without a pane, where one could follow: the window's name may have dots, if what is behind the last one
      could be no pane. */
  lemma PaneMayBeLeftOut(session: SessionSpec, window: WindowSpec, head: string, tail: string)
    requires SessionFits(session) && WindowFits(window)
    requires (PrintedWindow(window) == head + "." + tail && '.' !in tail && NoPane(tail))
             || '.' !in PrintedWindow(window)
    ensures Parse(PrintedSession(session) + ":" + PrintedWindow(window), Pane) == Ok(Path(session, window, CurrentPane))
  {
    hide ParseSession, ParseWindow, ParsePane, SplitPane, PrintedSession, PrintedWindow, ParseId, IndexOf, SessionFits,
         WindowFits, NoPane;
    SessionParsesBack(session);
    WindowParsesBack(window);
    FirstColon(PrintedSession(session), PrintedWindow(window));
    if '.' !in PrintedWindow(window) {
      NoDot(PrintedWindow(window));
    } else {
      DotInName(head, tail);
    }
  }

  lemma NoDot(raw: string)
    requires '.' !in raw
    ensures SplitPane(raw) == (raw, None)
  {
    hide ParseId;
  }

  lemma DotInName(head: string, tail: string)
    requires '.' !in tail && NoPane(tail)
    ensures SplitPane(head + "." + tail) == (head + "." + tail, None)
  {
    hide ParseId;
    var raw := head + "." + tail;
    var dot := LastIndexOf(raw, '.');
    assert raw[|head|] == '.' && '.' in raw;
    forall i | |head| < i < |raw| ensures raw[i] != '.' { assert raw[i] == tail[i - |head| - 1]; }
    assert dot == |head| && raw[dot + 1..] == tail;
  }
}
