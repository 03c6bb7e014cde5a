/** tmux target syntax (target.rs) and how window numbers resolve (lib.rs, numbering.rs). */
module Target {
  import opened Text
  import opened Decimal
  import opened Layout
  import opened Format

  datatype TargetKind = Session | Window | Pane

  datatype SessionSpec = CurrentSession | SessionId(id: nat) | ExactSession(name: string) | NamedSession(name: string)

  datatype WindowSpec =
    | CurrentWindow | WindowNode(id: nat) | ExactWindow(name: string) | NamedWindow(name: string)
    | Start | End | Next(offset: nat) | Previous(offset: nat)

  datatype PaneSpec = CurrentPane | PaneIndex(index: nat) | PaneBuffer(buffer: nat)

  datatype Target =
    | Buffer(buffer: nat)
    | WindowId(node: nat)
    | Node(node: nat)
    | Path(session: SessionSpec, window: WindowSpec, pane: PaneSpec)
    | Word(window: WindowSpec, session: SessionSpec)

  datatype TargetError = Invalid | Unknown | Conflict

  predicate StartsWith(s: string, ch: char) {
    s != "" && s[0] == ch
  }

  /** The position of the last `ch`, or the length without one. */
  function LastIndexOf(s: string, ch: char): (i: nat)
    ensures i <= |s|
    ensures i < |s| ==> s[i] == ch
    ensures forall j :: i < j < |s| ==> s[j] != ch
    ensures i == |s| ==> ch !in s
  {
    if s == "" then 0
    else if s[|s| - 1] == ch then |s| - 1
    else
      var i := LastIndexOf(s[..|s| - 1], ch);
      if i == |s| - 1 then |s| else i
  }

  /** `window.pane`, split at the last dot only when a pane follows it. */
  function SplitPane(raw: string): (string, Option<string>) {
    var dot := LastIndexOf(raw, '.');
    if dot == |raw| then (raw, None)
    else
      var pane := raw[dot + 1..];
      if pane == "" || ParseId(pane).Some? || (pane[0] == '%' && ParseId(pane[1..]).Some?)
      then (raw[..dot], Some(pane)) else (raw, None)
  }

  function ParseSession(raw: string): Result<SessionSpec, TargetError> {
    if raw == "" then Ok(CurrentSession)
    else if raw[0] == '$' then
      match ParseId(raw[1..])
      case Some(id) => Ok(SessionId(id))
      case None => Err(Invalid)
    else if raw[0] == '=' then Ok(ExactSession(raw[1..]))
    else Ok(NamedSession(raw))
  }

  function ParseOffset(rest: string): Option<nat> {
    if rest == "" then Some(1) else ParseUnsigned(rest, U32_BOUND)
  }

  function ParseWindow(raw: string): Result<WindowSpec, TargetError> {
    if raw == "" || raw == "@" || raw == "{current}" then Ok(CurrentWindow)
    else if raw == "^" || raw == "{start}" then Ok(Start)
    else if raw == "$" || raw == "{end}" then Ok(End)
    else if raw == "{next}" then Ok(Next(1))
    else if raw == "{previous}" then Ok(Previous(1))
    else if raw[0] == '+' then
      match ParseOffset(raw[1..])
      case Some(n) => Ok(Next(n))
      case None => Err(Invalid)
    else if raw[0] == '-' then
      match ParseOffset(raw[1..])
      case Some(n) => Ok(Previous(n))
      case None => Err(Invalid)
    else if raw[0] == '@' then
      match ParseId(raw[1..])
      case Some(id) => Ok(WindowNode(id))
      case None => Err(Invalid)
    else if raw[0] == '=' then Ok(ExactWindow(raw[1..]))
    else Ok(NamedWindow(raw))
  }

  function ParsePane(raw: string): Result<PaneSpec, TargetError> {
    if raw == "" || raw == "@" || raw == "{active}" then Ok(CurrentPane)
    else if raw[0] == '%' then
      match ParseId(raw[1..])
      case Some(id) => Ok(PaneBuffer(id))
      case None => Err(Invalid)
    else
      match ParseId(raw)
      case Some(index) => Ok(PaneIndex(index))
      case None => Err(Invalid)
  }

  function PathOf(session: Result<SessionSpec, TargetError>, window: Result<WindowSpec, TargetError>,
                  pane: Result<PaneSpec, TargetError>)
    : Result<Target, TargetError>
  {
    if session.Err? then Err(session.error)
    else if window.Err? then Err(window.error)
    else if pane.Err? then Err(pane.error)
    else Ok(Path(session.value, window.value, pane.value))
  }

  function Parse(raw: string, kind: TargetKind): Result<Target, TargetError> {
    if StartsWith(raw, '%') then
      match ParseId(raw[1..])
      case Some(id) => Ok(Buffer(id))
      case None => Err(Invalid)
    else if StartsWith(raw, '@') && |raw| > 1 then
      match ParseId(raw[1..])
      case Some(id) => Ok(WindowId(id))
      case None => Err(Invalid)
    else if IndexOf(raw, ':') < |raw| then
      var colon := IndexOf(raw, ':');
      var rest := raw[colon + 1..];
      var (window, pane) := if kind.Pane? then SplitPane(rest) else (rest, None);
      PathOf(ParseSession(raw[..colon]), ParseWindow(window),
             if pane == None then Ok(CurrentPane) else ParsePane(pane.value))
    else if StartsWith(raw, '$') && |raw| > 1 then PathOf(ParseSession(raw), Ok(CurrentWindow), Ok(CurrentPane))
    else if kind.Session? then PathOf(ParseSession(raw), Ok(CurrentWindow), Ok(CurrentPane))
    else if kind.Pane? && StartsWith(raw, '.') then PathOf(Ok(CurrentSession), Ok(CurrentWindow), ParsePane(raw[1..]))
    else if kind.Pane? && ParseId(raw).Some? then Ok(Node(ParseId(raw).value))
    else if kind.Pane? && SplitPane(raw).1.Some? then
      PathOf(Ok(CurrentSession), ParseWindow(SplitPane(raw).0), ParsePane(SplitPane(raw).1.value))
    else
      match ParseWindow(raw)
      case Err(error) => Err(error)
      case Ok(window) =>
        if window.NamedWindow? || window.ExactWindow? then
          match ParseSession(raw)
          case Err(error) => Err(error)
          case Ok(session) => Ok(Word(window, session))
        else Ok(Path(CurrentSession, window, CurrentPane))
  }

  // ---- Window numbers ----

  function WindowNumber(position: nat, base: Option<nat>): nat {
    position + (if base == None then 0 else base.value)
  }

  function WindowPosition(number: nat, count: nat, base: nat): Option<nat> {
    if number < base || number - base >= count then None else Some(number - base)
  }

  /** The positions of the tabs with a title. */
  function Titled(tabs: seq<TabRecord>, title: string, exact: bool, k: nat): (r: seq<nat>)
    requires k <= |tabs|
    ensures forall i :: 0 <= i < |r| ==> r[i] < |tabs|
    decreases |tabs| - k
  {
    if k == |tabs| then []
    else (if (if exact then tabs[k].title == title else title <= tabs[k].title) then [k] else [])
         + Titled(tabs, title, exact, k + 1)
  }

  /** `resolve_window_index` of a selector. */
  function ResolveWindowIndex(tabs: seq<TabRecord>, selector: string, base: Option<nat>): Result<nat, TargetError> {
    if base.Some? && ParseUnsigned(selector, U64_BOUND).Some? then
      match WindowPosition(ParseUnsigned(selector, U64_BOUND).value, |tabs|, base.value)
      case Some(position) => Ok(position)
      case None => Err(Unknown)
    else if ParseUnsigned(selector, U32_BOUND).Some? then
      var index := ParseUnsigned(selector, U32_BOUND).value;
      if index < |tabs| && 0 < index then Err(Invalid)
      else if index < |tabs| then Ok(index)
      else if 0 < index && index - 1 < |tabs| then Ok(index - 1)
      else Err(Unknown)
    else
      var matches := Titled(tabs, selector, true, 0);
      if |matches| == 1 then Ok(matches[0]) else if matches == [] then Err(Unknown) else Err(Conflict)
  }

  /** `window_in`: the root tab a window target names. */
  function WindowIn(tabs: seq<TabRecord>, active: nat, spec: WindowSpec, base: Option<nat>,
                    current: Option<nat>): Result<nat, TargetError> {
    var count := |tabs|;
    var here := if current == None then active else current.value;
    var index: Result<nat, TargetError> :=
      match spec
      case CurrentWindow => Ok(here)
      case Start => if count > 0 then Ok(0) else Err(Unknown)
      case End => if count > 0 then Ok(count - 1) else Err(Unknown)
      case Next(offset) => if count > 0 then Ok((here + offset % count) % count) else Err(Unknown)
      case Previous(offset) => if count > 0 then Ok((here + count - offset % count) % count) else Err(Unknown)
      case WindowNode(id) => if TabOf(tabs, id) < count then Ok(TabOf(tabs, id)) else Err(Unknown)
      case ExactWindow(name) =>
        var matches := Titled(tabs, name, true, 0);
        if |matches| == 1 then Ok(matches[0]) else if matches == [] then Err(Unknown) else Err(Conflict)
      case NamedWindow(name) =>
        var resolved := ResolveWindowIndex(tabs, name, base);
        if resolved == Err(Unknown) && ParseUnsigned(name, U64_BOUND) == None then
          var matches := Titled(tabs, name, false, 0);
          if |matches| == 1 then Ok(matches[0]) else if matches == [] then Err(Unknown) else Err(Conflict)
        else resolved;
    if index.Ok? && index.value >= count then Err(Unknown) else index
  }

  // ---- Windows next to one another ----

  /** `n` windows on, one at a time, the first after the last. */
  function StepsOn(count: nat, here: nat, n: nat): (i: nat)
    requires here < count
    ensures i < count
  {
    if n == 0 then here
    else
      var i := StepsOn(count, here, n - 1);
      if i + 1 == count then 0 else i + 1
  }

  /** `n` windows back, the last before the first. */
  function StepsBack(count: nat, here: nat, n: nat): (i: nat)
    requires here < count
    ensures i < count
  {
    if n == 0 then here
    else
      var i := StepsBack(count, here, n - 1);
      if i == 0 then count - 1 else i - 1
  }

  lemma Wrap(a: nat, count: nat)
    requires count > 0
    ensures (a + 1) % count == if a % count + 1 == count then 0 else a % count + 1
  {
    var q, r := a / count, a % count;
    assert a == count * q + r;
    if r + 1 == count {
      assert a + 1 == count * (q + 1);
      OneRemainder(count, q + 1, 0, a + 1);
    } else {
      OneRemainder(count, q, r + 1, a + 1);
    }
  }

  /** Division leaves the one remainder below the divisor. */
  lemma OneRemainder(count: nat, q: int, r: nat, a: int)
    requires r < count && a == count * q + r
    ensures a % count == r
  {
    var d := a / count - q;
    assert count * (a / count) + a % count == a;
    assert count * d == count * (a / count) - count * q;
    assert count * d == count + count * (d - 1) == count * (d + 1) - count;
  }

  lemma {:induction false} StepsOnIs(count: nat, here: nat, n: nat)
    requires here < count
    ensures StepsOn(count, here, n) == (here + n % count) % count
  {
    if n == 0 {
      OneRemainder(count, 0, 0, 0);
      OneRemainder(count, 0, here, here);
    } else {
      StepsOnIs(count, here, n - 1);
      Wrap(n - 1, count);
      var r := (n - 1) % count;
      Wrap(here + r, count);
      if r + 1 == count {
        OneRemainder(count, 1, here, here + count);
        OneRemainder(count, 0, here, here);
      }
    }
  }

  lemma {:induction false} OnAndBack(count: nat, here: nat, n: nat)
    requires here < count
    ensures StepsBack(count, StepsOn(count, here, n), n) == here
  {
    if n > 0 {
      OnAndBack(count, here, n - 1);
      BackFirst(count, StepsOn(count, here, n), n);
    }
  }

  lemma {:induction false} BackFirst(count: nat, here: nat, n: nat)
    requires here < count && n > 0
    ensures StepsBack(count, here, n) == StepsBack(count, StepsBack(count, here, 1), n - 1)
  {
    if n > 1 {
      BackFirst(count, here, n - 1);
    } else {
      assert StepsBack(count, here, 0) == here;
    }
  }

  lemma WrapBack(a: nat, count: nat)
    requires count > 0 && a > 0
    ensures (a - 1) % count == if a % count == 0 then count - 1 else a % count - 1
  {
    Wrap(a - 1, count);
  }

  lemma {:induction false} StepsBackIs(count: nat, here: nat, n: nat)
    requires here < count
    ensures StepsBack(count, here, n) == (here + count - n % count) % count
  {
    OneRemainder(count, 1, here, here + count);
    if n == 0 {
      OneRemainder(count, 0, 0, 0);
    } else {
      StepsBackIs(count, here, n - 1);
      Wrap(n - 1, count);
      BackOnce(count, here, (n - 1) % count, n % count);
    }
  }

  lemma BackOnce(count: nat, here: nat, r: nat, s: nat)
    requires here < count && r < count && s == if r + 1 == count then 0 else r + 1
    ensures (var i := (here + count - r) % count;
             (here + count - s) % count == if i == 0 then count - 1 else i - 1)
  {
    WrapBack(here + count - r, count);
    if r + 1 == count {
      OneRemainder(count, 1, here, here + count);
      OneRemainder(count, 0, here, here);
    }
  }

  /** Windows ahead and behind are counted one by one from the current one, or the active one without, and wrap. */
  lemma NeighboursAreCounted(tabs: seq<TabRecord>, active: nat, n: nat, base: Option<nat>, current: Option<nat>)
    requires (if current == None then active else current.value) < |tabs|
    ensures (var here := if current == None then active else current.value;
             && WindowIn(tabs, active, Next(n), base, current) == Ok(StepsOn(|tabs|, here, n))
             && WindowIn(tabs, active, Previous(n), base, current) == Ok(StepsBack(|tabs|, here, n)))
  {
    hide Titled;
    var here := if current == None then active else current.value;
    StepsOnIs(|tabs|, here, n);
    StepsBackIs(|tabs|, here, n);
  }

  /** As many windows ahead as back return. */
  lemma NeighboursReturn(tabs: seq<TabRecord>, active: nat, n: nat, base: Option<nat>, here: nat)
    requires here < |tabs|
    ensures (var there := WindowIn(tabs, active, Next(n), base, Some(here));
             there.Ok? && WindowIn(tabs, active, Previous(n), base, Some(there.value)) == Ok(here))
  {
    hide WindowIn;
    NeighboursAreCounted(tabs, active, n, base, Some(here));
    NeighboursAreCounted(tabs, active, n, base, Some(StepsOn(|tabs|, here, n)));
    OnAndBack(|tabs|, here, n);
  }

  /** The other ways to name a window by where it is. */
  lemma PlacesAre(tabs: seq<TabRecord>, active: nat, base: Option<nat>, current: Option<nat>, node: nat, i: nat)
    ensures WindowIn(tabs, active, Start, base, current) == Ok(i) <==> i == 0 < |tabs|
    ensures WindowIn(tabs, active, End, base, current) == Ok(i) <==> i + 1 == |tabs|
    ensures WindowIn(tabs, active, CurrentWindow, base, current) == Ok(i)
       <==> i < |tabs| && i == if current == None then active else current.value
    ensures WindowIn(tabs, active, WindowNode(node), base, current) == Ok(i)
       <==> i < |tabs| && tabs[i].child == node && forall j :: 0 <= j < i ==> tabs[j].child != node
  {
    hide Titled;
  }

  // ---- Windows by name ----

  predicate HasTitle(tab: TabRecord, title: string, exact: bool) {
    if exact then tab.title == title else title <= tab.title
  }

  lemma TitledNext(tabs: seq<TabRecord>, title: string, exact: bool, k: nat)
    requires k < |tabs|
    ensures Titled(tabs, title, exact, k)
         == (if HasTitle(tabs[k], title, exact) then [k] else []) + Titled(tabs, title, exact, k + 1)
  {
  }

  /** Positions from `k` on of windows with the title, in order. */
  ghost predicate InOrder(tabs: seq<TabRecord>, title: string, exact: bool, k: nat, r: seq<nat>) {
    && (forall i :: 0 <= i < |r| ==> k <= r[i] < |tabs| && HasTitle(tabs[r[i]], title, exact))
    && (forall i, j :: 0 <= i < j < |r| ==> r[i] < r[j])
  }

  lemma {:induction false} TitledHave(tabs: seq<TabRecord>, title: string, exact: bool, k: nat)
    requires k <= |tabs|
    ensures InOrder(tabs, title, exact, k, Titled(tabs, title, exact, k))
    decreases |tabs| - k
  {
    hide HasTitle;
    if k < |tabs| {
      TitledHave(tabs, title, exact, k + 1);
      TitledNext(tabs, title, exact, k);
    }
  }

  lemma {:induction false} TitledAll(tabs: seq<TabRecord>, title: string, exact: bool, k: nat, i: nat)
    requires k <= i < |tabs| && HasTitle(tabs[i], title, exact)
    ensures i in Titled(tabs, title, exact, k)
    decreases |tabs| - k
  {
    hide HasTitle;
    TitledNext(tabs, title, exact, k);
    hide Titled;
    if i == k {
      assert Titled(tabs, title, exact, k)[0] == i;
    } else {
      TitledAll(tabs, title, exact, k + 1, i);
    }
  }

  /** Exactly one window has such a title, and it is at `i`. */
  predicate OnlyOne(tabs: seq<TabRecord>, title: string, exact: bool, i: nat) {
    && i < |tabs| && HasTitle(tabs[i], title, exact)
    && forall j :: 0 <= j < |tabs| && HasTitle(tabs[j], title, exact) ==> j == i
  }

  predicate NoneHas(tabs: seq<TabRecord>, title: string, exact: bool) {
    forall j :: 0 <= j < |tabs| ==> !HasTitle(tabs[j], title, exact)
  }

  /** One match is the answer, no match and several are errors. */
  lemma TitledOnly(tabs: seq<TabRecord>, title: string, exact: bool, i: nat)
    ensures (var r := Titled(tabs, title, exact, 0);
             && (r == [] <==> NoneHas(tabs, title, exact)) && (r == [i] <==> OnlyOne(tabs, title, exact, i)))
  {
    hide HasTitle, Titled, OnlyOne, NoneHas;
    TitledHave(tabs, title, exact, 0);
    forall j: nat | j < |tabs| && HasTitle(tabs[j], title, exact) ensures j in Titled(tabs, title, exact, 0) {
      TitledAll(tabs, title, exact, 0, j);
    }
    OneOf(tabs, title, exact, i, Titled(tabs, title, exact, 0));
  }

  lemma OneOf(tabs: seq<TabRecord>, title: string, exact: bool, i: nat, r: seq<nat>)
    requires InOrder(tabs, title, exact, 0, r)
    requires forall j: nat :: j < |tabs| && HasTitle(tabs[j], title, exact) ==> j in r
    ensures r == [] <==> NoneHas(tabs, title, exact)
    ensures r == [i] <==> OnlyOne(tabs, title, exact, i)
  {
    hide HasTitle;
    if r != [] { assert HasTitle(tabs[r[0]], title, exact); }
    if |r| > 1 {
      assert r[0] < r[1];
      assert HasTitle(tabs[r[1]], title, exact);
    }
  }

  /** A window by its exact title: the one that has it; an error when none has, and another when several have. */
  lemma ExactWindowIs(tabs: seq<TabRecord>, active: nat, name: string, base: Option<nat>, current: Option<nat>, i: nat)
    ensures (var found := WindowIn(tabs, active, ExactWindow(name), base, current);
             && (found == Ok(i) <==> OnlyOne(tabs, name, true, i))
             && (found == Err(Unknown) <==> NoneHas(tabs, name, true))
             && (found.Err? ==> found.error in {Unknown, Conflict}))
  {
    hide Titled, OnlyOne, NoneHas;
    TitledOnly(tabs, name, true, i);
    var r := Titled(tabs, name, true, 0);
    if |r| == 1 { assert r == [r[0]]; }
  }

  /** A name that is no number: the one window with that title; when none has it, the one whose title starts with
      it. */
  lemma NamedWindowIs(tabs: seq<TabRecord>, active: nat, name: string, base: Option<nat>, current: Option<nat>, i: nat)
    requires ParseUnsigned(name, U32_BOUND) == None && ParseUnsigned(name, U64_BOUND) == None
    ensures WindowIn(tabs, active, NamedWindow(name), base, current) == Ok(i)
       <==> OnlyOne(tabs, name, true, i) || (NoneHas(tabs, name, true) && OnlyOne(tabs, name, false, i))
  {
    hide Titled, OnlyOne, NoneHas, ParseUnsigned;
    TitledOnly(tabs, name, true, i);
    TitledOnly(tabs, name, false, i);
    var r, s := Titled(tabs, name, true, 0), Titled(tabs, name, false, 0);
    if |r| == 1 { assert r == [r[0]]; }
    if |s| == 1 { assert s == [s[0]]; }
  }

  // ---- Printed targets parse back ----

  lemma IdVariables(context: FormatContext)
    ensures context.Expansion("pane_id") == Prefixed("%", context.bufferId)
    ensures context.Expansion("window_id") == Prefixed("@", context.windowId)
    ensures context.Expansion("session_id") == Prefixed("$", context.sessionId)
  {
    hide Prefixed, Digits;
  }

  lemma PathVariables(context: FormatContext)
    ensures context.Expansion("session_name") == context.sessionName
    ensures context.Expansion("window_index") == Digits(context.windowIndex)
    ensures context.Expansion("pane_index") == Prefixed("", context.paneIndex)
  {
    hide Prefixed, Digits;
  }

  /** A mark and a printed id read as that mark and that id. */
  lemma MarkedId(mark: string, id: nat)
    requires |mark| == 1 && id < U64_BOUND
    ensures (var raw := Prefixed(mark, Some(id));
             |raw| > 1 && raw[0] == mark[0] && raw[1..] == Digits(id)
             && ParseId(raw[1..]) == Some(id) && AllDigits(raw[1..]))
  {
    hide Digits, Value;
    PrintedNumber(id, 0);
    DigitsRoundTrip(id);
  }

  lemma PaneIdParsesBack(context: FormatContext, buffer: nat, kind: TargetKind)
    requires context.bufferId == Some(buffer) && buffer < U64_BOUND
    ensures Parse(Expand(context, "#{pane_id}"), kind) == Ok(Buffer(buffer))
  {
    hide Expand, Prefixed, Digits, ParseId, FormatContext.Expansion;
    OneVariable(context, "pane_id");
    assert "#{" + "pane_id" + "}" == "#{pane_id}";
    IdVariables(context);
    MarkedId("%", buffer);
  }

  lemma {:induction false} WindowIdParsesBack(context: FormatContext, node: nat, kind: TargetKind)
    requires context.windowId == Some(node) && node < U64_BOUND
    ensures Parse(Expand(context, "#{window_id}"), kind) == Ok(WindowId(node))
  {
    hide Expand, Prefixed, Digits, ParseId, FormatContext.Expansion;
    OneVariable(context, "window_id");
    assert "#{" + "window_id" + "}" == "#{window_id}";
    IdVariables(context);
    MarkedId("@", node);
  }

  lemma SessionIdParsesBack(context: FormatContext, session: nat, kind: TargetKind)
    requires context.sessionId == Some(session) && session < U64_BOUND
    ensures Parse(Expand(context, "#{session_id}"), kind) == Ok(Path(SessionId(session), CurrentWindow, CurrentPane))
  {
    hide Expand, Prefixed, Digits, ParseId, FormatContext.Expansion;
    OneVariable(context, "session_id");
    assert "#{" + "session_id" + "}" == "#{session_id}";
    IdVariables(context);
    MarkedId("$", session);
    NoColon(Prefixed("$", Some(session)));
  }

  lemma NoColon(raw: string)
    requires raw != "" && AllDigits(raw[1..]) && raw[0] != ':'
    ensures IndexOf(raw, ':') == |raw|
  {
    forall i | 0 <= i < |raw| ensures raw[i] != ':' {
      if i > 0 { assert raw[i] == raw[1..][i - 1] && IsDigit(raw[1..][i - 1]); }
    }
  }

  lemma OneVariable(context: FormatContext, name: string)
    requires '}' !in name
    ensures Expand(context, "#{" + name + "}") == context.Expansion(name)
  {
    hide FormatContext.Expansion;
    ExpandVariable(context, name, "");
    assert "#{" + name + "}" + "" == "#{" + name + "}";
    assert context.Expansion(name) + "" == context.Expansion(name);
  }

  function Variable(name: string): string {
    "#{" + name + "}"
  }

  /** The format of a pane's path when a command is given none. */
  const DEFAULT_PANE_FORMAT: string :=
    Variable("session_name") + ":" + Variable("window_index") + "." + Variable("pane_index")

  lemma DefaultFormatExpands(context: FormatContext)
    ensures Expand(context, DEFAULT_PANE_FORMAT)
         == PrintedPath(context.sessionName, context.windowIndex, context.paneIndex)
  {
    hide Expand, Digits, Prefixed, FormatContext.Expansion;
    PathVariables(context);
    PathExpands(context, "session_name", "window_index", "pane_index");
  }

  lemma PathExpands(context: FormatContext, a: string, b: string, c: string)
    requires '}' !in a && '}' !in b && '}' !in c
    ensures Expand(context, Variable(a) + ":" + Variable(b) + "." + Variable(c))
         == context.Expansion(a) + ":" + context.Expansion(b) + "." + context.Expansion(c)
  {
    hide Expand, FormatContext.Expansion;
    var last := Variable(c);
    OneVariable(context, c);
    var dotted := ['.'] + last;
    ExpandCharacter(context, '.', last);
    ExpandVariable(context, b, dotted);
    var window := Variable(b) + dotted;
    ExpandCharacter(context, ':', window);
    ExpandVariable(context, a, [':'] + window);
    Regroup(Variable(a), ":", Variable(b), ".", last);
    Regroup(context.Expansion(a), ":", context.Expansion(b), ".", context.Expansion(c));
  }

  lemma Regroup(a: string, b: string, c: string, d: string, e: string)
    ensures a + b + c + d + e == a + (b + (c + (d + e)))
  {
  }

  /** The names a printed path keeps: not empty, without a colon, and not starting like another form. */
  predicate PlainName(name: string) {
    name != "" && ':' !in name && name[0] !in {'%', '@', '$', '='}
  }

  /** The dot before a printed pane index is the last one. */
  lemma PrintedPaneSplits(window: string, pane: string)
    requires AllDigits(window) && AllDigits(pane) && (pane != "" ==> ParseId(pane).Some?)
    ensures SplitPane(window + "." + pane) == (window, Some(pane))
  {
    var raw := window + "." + pane;
    var dot := LastIndexOf(raw, '.');
    assert raw[|window|] == '.' && '.' in raw;
    forall i | |window| < i < |raw| ensures raw[i] != '.' {
      assert raw[i] == pane[i - |window| - 1] && IsDigit(pane[i - |window| - 1]);
    }
    assert dot == |window|;
    assert raw[dot + 1..] == pane && raw[..dot] == window;
  }

  lemma DigitsAreAWindowName(s: string)
    requires s != "" && AllDigits(s)
    ensures ParseWindow(s) == Ok(NamedWindow(s))
  {
    assert IsDigit(s[0]);
  }

  function PrintedPath(name: string, window: nat, pane: Option<nat>): string {
    name + ":" + Digits(window) + "." + Prefixed("", pane)
  }

  function PanePart(pane: Option<nat>): PaneSpec {
    if pane == None then CurrentPane else PaneIndex(pane.value)
  }

  /** A printed path is the name, the number and the index again exactly when the session's name is one
      a path can carry. */
  lemma PrintedPathParsesBack(name: string, window: nat, pane: Option<nat>)
    requires pane.Some? ==> pane.value < U64_BOUND
    ensures Parse(PrintedPath(name, window, pane), Pane)
         == Ok(Path(NamedSession(name), NamedWindow(Digits(window)), PanePart(pane)))
       <==> PlainName(name)
  {
    hide SplitPane, ParseWindow;
    var w, p := Digits(window), Prefixed("", pane);
    var rest := w + "." + p;
    var raw := PrintedPath(name, window, pane);
    assert raw == name + ":" + rest && raw[|name|] == ':';
    DigitsRoundTrip(window);
    DigitsAreAWindowName(w);
    if pane.Some? { PrintedNumber(pane.value, 0); DigitsRoundTrip(pane.value); }
    assert ParsePane(p) == Ok(PanePart(pane)) by { PaneParses(pane); }
    PrintedPaneSplits(w, p);
    var colon := IndexOf(raw, ':');
    assert colon <= |name|;
    if ':' in name {
      var i :| 0 <= i < |name| && name[i] == ':';
      assert raw[i] == ':';
      assert colon < |name|;
    } else {
      forall i | 0 <= i < |name| ensures raw[i] != ':' { assert raw[i] == name[i]; }
      assert raw[..colon] == name && raw[colon + 1..] == rest;
    }
  }

  lemma DigitsAreAPane(p: string)
    requires p != "" && IsDigit(p[0])
    ensures ParsePane(p) == (match ParseId(p) case Some(index) => Ok(PaneIndex(index)) case None => Err(Invalid))
  {
    hide ParseId;
    assert "@"[0] == '@' && "{active}"[0] == '{';
    assert p != "@" && p != "{active}";
  }

  lemma PaneParses(pane: Option<nat>)
    requires pane.Some? ==> pane.value < U64_BOUND
    ensures ParsePane(Prefixed("", pane)) == Ok(PanePart(pane))
  {
    hide Digits, ParseId;
    if pane.Some? {
      assert "" + Digits(pane.value) == Digits(pane.value);
      PrintedNumber(pane.value, 0);
      DigitsRoundTrip(pane.value);
      DigitsAreAPane(Digits(pane.value));
    }
  }

  /** The default format of a pane parses back to its session's name, its window's number and its index. */
  lemma DefaultFormatParsesBack(context: FormatContext)
    requires context.paneIndex.Some? ==> context.paneIndex.value < U64_BOUND
    ensures Parse(Expand(context, DEFAULT_PANE_FORMAT), Pane)
         == Ok(Path(NamedSession(context.sessionName), NamedWindow(Digits(context.windowIndex)),
                    PanePart(context.paneIndex)))
       <==> PlainName(context.sessionName)
  {
    hide Expand, Parse;
    DefaultFormatExpands(context);
    PrintedPathParsesBack(context.sessionName, context.windowIndex, context.paneIndex);
  }

  /** A printed window number names its window again exactly when a base index is set or the window is
      the first one: without one, a number that two windows could have is refused. */
  lemma PrintedWindowResolves(tabs: seq<TabRecord>, active: nat, position: nat, base: Option<nat>, current: Option<nat>)
    requires position < |tabs| < U32_BOUND && (base.Some? ==> base.value < U32_BOUND)
    ensures WindowIn(tabs, active, NamedWindow(Digits(WindowNumber(position, base))), base, current) == Ok(position)
       <==> base.Some? || position == 0
  {
    hide Titled, Digits, ParseUnsigned;
    var number := WindowNumber(position, base);
    PrintedNumber(number, U64_BOUND);
    PrintedNumber(number, U32_BOUND);
  }

  /** A number as a window: counted from the base index where one is set. Without one, 0 is the first window and the
      number of windows the last; one between is a different window counted from 0 and from 1, and is refused. */
  lemma NumberedWindowIs(tabs: seq<TabRecord>, active: nat, number: nat, base: Option<nat>, current: Option<nat>)
    requires number < U32_BOUND && |tabs| > 0
    ensures (var found := WindowIn(tabs, active, NamedWindow(Digits(number)), base, current);
             && (base.Some? ==>
                   && (base.value <= number < base.value + |tabs| ==> found == Ok(number - base.value))
                   && (!(base.value <= number < base.value + |tabs|) ==> found == Err(Unknown)))
             && (base == None ==>
                   && (number == 0 ==> found == Ok(0)) && (number == |tabs| ==> found == Ok(|tabs| - 1))
                   && (0 < number < |tabs| ==> found == Err(Invalid))
                   && (number > |tabs| ==> found == Err(Unknown))))
  {
    hide Titled, Digits, ParseUnsigned;
    PrintedNumber(number, U64_BOUND);
    PrintedNumber(number, U32_BOUND);
  }

  /** The default format of a pane of window `position` names that session, window and pane again: the target it
      parses to resolves to the same position exactly when a base index is set or the window is the first. */
  lemma PrintedTargetResolves(context: FormatContext, tabs: seq<TabRecord>, active: nat, position: nat,
                              base: Option<nat>, current: Option<nat>)
    requires position < |tabs| < U32_BOUND && (base.Some? ==> base.value < U32_BOUND)
    requires context.windowIndex == WindowNumber(position, base) && PlainName(context.sessionName)
    requires context.paneIndex.Some? ==> context.paneIndex.value < U64_BOUND
    ensures (var target := Parse(Expand(context, DEFAULT_PANE_FORMAT), Pane);
             && target.Ok? && target.value.Path? && target.value.session == NamedSession(context.sessionName)
             && target.value.pane == PanePart(context.paneIndex)
             && (WindowIn(tabs, active, target.value.window, base, current) == Ok(position)
                 <==> base.Some? || position == 0))
  {
    hide Expand, Parse, WindowIn, Digits;
    DefaultFormatParsesBack(context);
    PrintedWindowResolves(tabs, active, position, base, current);
  }
}
