/** The format language (format.rs). */
module Format {
  import opened Text
  import opened Decimal

  /** What is known of a pane, its window and its session when a format is expanded. */
  datatype FormatContext = FormatContext(
    sessionName: string, sessionId: Option<nat>, sessionWindows: nat,
    windowIndex: nat, windowName: string, windowId: Option<nat>, windowActive: bool, windowPanes: nat,
    paneId: Option<nat>, paneTitle: string, currentPath: string, currentCommand: string, paneHost: string,
    bufferId: Option<nat>, paneIndex: Option<nat>, paneActive: bool, panePid: Option<nat>,
    paneWidth: nat, paneHeight: nat, paneDead: bool, deadStatus: Option<int>,
    userOptions: map<string, string>, extra: map<string, string>)
  {
    /** The value of a variable by its long name, if it is one. */
    function Lookup(name: string): Option<string> {
      if name != "" && name[0] == '@' then Some(if name[1..] in userOptions then userOptions[name[1..]] else "")
      else if name == "session_name" then Some(sessionName)
      else if name == "window_index" then Some(Digits(windowIndex))
      else if name == "window_name" then Some(windowName)
      else if name == "pane_id" then Some(Prefixed("%", bufferId))
      else if name == "node_id" then Some(Prefixed("", paneId))
      else if name == "pane_title" then Some(paneTitle)
      else if name == "pane_current_path" then Some(currentPath)
      else if name == "pane_current_command" then Some(currentCommand)
      else if name == "pane_host" then Some(paneHost)
      else if name == "session_id" then Some(Prefixed("$", sessionId))
      else if name == "window_id" then Some(Prefixed("@", windowId))
      else if name == "window_active" then Some(Flag(windowActive))
      else if name == "window_panes" then Some(Digits(windowPanes))
      else if name == "session_windows" then Some(Digits(sessionWindows))
      else if name == "buffer_id" then Some(Prefixed("", bufferId))
      else if name == "pane_index" then Some(Prefixed("", paneIndex))
      else if name == "pane_active" then Some(Flag(paneActive))
      else if name == "pane_pid" then Some(Prefixed("", panePid))
      else if name == "pane_width" then Some(Digits(paneWidth))
      else if name == "pane_height" then Some(Digits(paneHeight))
      else if name == "pane_dead" then Some(Flag(paneDead))
      else if name == "pane_dead_status" then
        Some(if deadStatus == None then ""
             else if deadStatus.value < 0 then "-" + Digits(-deadStatus.value) else Digits(deadStatus.value))
      else if name in extra then Some(extra[name])
      else None
    }

    /** What a variable expands to; an unknown one to nothing. */
    function Expansion(name: string): string {
      match Lookup(name)
      case Some(value) => value
      case None => ""
    }
  }

  function Prefixed(prefix: string, id: Option<nat>): string {
    if id == None then "" else prefix + Digits(id.value)
  }

  function Flag(value: bool): string {
    if value then "1" else "0"
  }

  function ShortAlias(ch: char): Option<string> {
    match ch
    case 'S' => Some("session_name")
    case 'I' => Some("window_index")
    case 'W' => Some("window_name")
    case 'D' => Some("pane_id")
    case 'T' => Some("pane_title")
    case _ => None
  }

  /** The position of the first `ch`, or the length without one. */
  function IndexOf(s: string, ch: char): (i: nat)
    ensures i <= |s|
    ensures i < |s| ==> s[i] == ch
    ensures forall j :: 0 <= j < i ==> s[j] != ch
  {
    if s == "" || s[0] == ch then 0 else 1 + IndexOf(s[1..], ch)
  }

  function Expand(context: FormatContext, t: string): string
    decreases |t|
  {
    if t == "" then ""
    else if t[0] != '#' then [t[0]] + Expand(context, t[1..])
    else if |t| == 1 then "#"
    else if t[1] == '#' then "#" + Expand(context, t[2..])
    else if t[1] == '{' then
      var end := IndexOf(t[2..], '}');
      if end < |t| - 2 then context.Expansion(t[2..2 + end]) + Expand(context, t[end + 3..])
      else t
    else
      match ShortAlias(t[1])
      case Some(name) => context.Expansion(name) + Expand(context, t[2..])
      case None => "#" + Expand(context, t[1..])
  }

  /** What `Expand` does at position `i`, as text to write and a position to go on from. */
  function Piece(context: FormatContext, t: string, i: nat): (r: (string, nat))
    requires i < |t|
    ensures i < r.1 <= |t|
  {
    if t[i] != '#' then ([t[i]], i + 1)
    else if i + 1 == |t| then ("#", i + 1)
    else if t[i + 1] == '#' then ("#", i + 2)
    else if t[i + 1] == '{' then
      var end := i + 2 + IndexOf(t[i + 2..], '}');
      if end < |t| then (context.Expansion(t[i + 2..end]), end + 1) else ("#{" + t[i + 2..], |t|)
    else
      match ShortAlias(t[i + 1])
      case Some(name) => (context.Expansion(name), i + 2)
      case None => ("#", i + 1)
  }

  lemma ExpandPiece(context: FormatContext, t: string, i: nat)
    requires i < |t|
    ensures (var (text, next) := Piece(context, t, i);
             Expand(context, t[i..]) == text + Expand(context, t[next..]))
  {
    hide FormatContext.Expansion;
    var rest := t[i..];
    var (text, next) := Piece(context, t, i);
    assert rest[next - i..] == t[next..];
    if t[i] == '#' && i + 1 < |t| && t[i + 1] == '{' {
      assert rest[2..] == t[i + 2..];
      var end := IndexOf(t[i + 2..], '}');
      if end < |rest| - 2 {
        assert rest[2..2 + end] == t[i + 2..i + 2 + end];
      } else {
        assert rest == text;
      }
    }
  }

  /** `expand_format`. */
  method ExpandFormat(template: string, context: FormatContext) returns (output: string)
    ensures output == Expand(context, template)
  {
    hide Expand, FormatContext.Expansion;
    output := "";
    var i := 0;
    while i < |template|
      invariant i <= |template|
      invariant output + Expand(context, template[i..]) == Expand(context, template)
    {
      ghost var was, at := output, i;
      ExpandPiece(context, template, i);
      if template[i] != '#' {
        output := output + [template[i]];
        i := i + 1;
      } else if i + 1 == |template| {
        output := output + "#";
        i := i + 1;
      } else if template[i + 1] == '#' {
        output := output + "#";
        i := i + 2;
      } else if template[i + 1] == '{' {
        var end := FindEnd(template, i + 2);
        var name := template[i + 2..end];
        if end < |template| {
          output := output + context.Expansion(name);
          i := end + 1;
        } else {
          assert name == template[at + 2..];
          output := output + ("#{" + name);
          i := end;
        }
      } else {
        var alias := ShortAlias(template[i + 1]);
        if alias.Some? {
          output := output + context.Expansion(alias.value);
          i := i + 2;
        } else {
          output := output + "#";
          i := i + 1;
        }
      }
      assert (output, i) == (was + Piece(context, template, at).0, Piece(context, template, at).1);
      Assoc(was, Piece(context, template, at).0, Expand(context, template[i..]));
    }
    ExpandNothing(context, template);
  }

  lemma ExpandNothing(context: FormatContext, t: string)
    ensures Expand(context, t[|t|..]) == ""
  {
  }

  /** The position of the next closing brace, or the end. */
  method FindEnd(template: string, from: nat) returns (end: nat)
    requires from <= |template|
    ensures end == from + IndexOf(template[from..], '}')
  {
    end := from;
    while end < |template| && template[end] != '}'
      invariant from <= end <= |template|
      invariant IndexOf(template[from..], '}') == end - from + IndexOf(template[end..], '}')
    {
      assert template[end..][1..] == template[end + 1..];
      end := end + 1;
    }
  }

  lemma NameEnd(rest: string, n: nat)
    requires 2 + n <= |rest|
    requires forall j :: 2 <= j < 2 + n ==> rest[j] != '}'
    requires 2 + n < |rest| ==> rest[2 + n] == '}'
    ensures IndexOf(rest[2..], '}') == n
  {
    var s := rest[2..];
    forall j | 0 <= j < n ensures s[j] != '}' { assert s[j] == rest[2 + j]; }
    if n < |s| { assert s[n] == rest[2 + n]; }
  }

  // ---- Laws ----

  /** A text with every `#` doubled. */
  function Escaped(s: string): string {
    if s == "" then "" else (if s[0] == '#' then "##" else [s[0]]) + Escaped(s[1..])
  }

  /** Escaping is what expansion undoes. */
  lemma {:induction false} ExpandEscaped(context: FormatContext, s: string)
    ensures Expand(context, Escaped(s)) == s
  {
    if s != "" {
      ExpandEscaped(context, s[1..]);
      var t := Escaped(s);
      if s[0] == '#' {
        assert t[2..] == Escaped(s[1..]);
        assert "#" + s[1..] == s;
      } else {
        assert t[1..] == Escaped(s[1..]);
        assert [s[0]] + s[1..] == s;
      }
    }
  }

  /** A variable expands to its value, whatever follows it. */
  lemma ExpandVariable(context: FormatContext, name: string, rest: string)
    requires '}' !in name
    ensures Expand(context, "#{" + name + "}" + rest) == context.Expansion(name) + Expand(context, rest)
  {
    hide FormatContext.Expansion;
    var t := "#{" + name + "}" + rest;
    assert t[0] == '#' && t[1] == '{' && t[2 + |name|] == '}';
    forall j | 2 <= j < 2 + |name| ensures t[j] != '}' {
      assert t[j] == name[j - 2];
    }
    NameEnd(t, |name|);
    assert t[2..2 + |name|] == name && t[|name| + 3..] == rest;
  }

  /** A character that is no `#` stands for itself. */
  lemma ExpandCharacter(context: FormatContext, ch: char, rest: string)
    requires ch != '#'
    ensures Expand(context, [ch] + rest) == [ch] + Expand(context, rest)
  {
    assert ([ch] + rest)[1..] == rest;
  }

  /** What `#` and a letter expand to: the variables the one-letter forms are short for, other letters as they are. */
  function ShortForm(context: FormatContext, ch: char): string {
    match ch
    case 'S' => context.sessionName
    case 'I' => Digits(context.windowIndex)
    case 'W' => context.windowName
    case 'D' => if context.bufferId == None then "" else "%" + Digits(context.bufferId.value)
    case 'T' => context.paneTitle
    case _ => ['#', ch]
  }

  lemma ShortForms(context: FormatContext, ch: char, rest: string)
    requires ch != '#' && ch != '{'
    ensures Expand(context, ['#', ch] + rest) == ShortForm(context, ch) + Expand(context, rest)
  {
    hide Digits, FormatContext.Expansion;
    var t := ['#', ch] + rest;
    assert t[2..] == rest && t[1..] == [ch] + rest;
    ShortNames(context);
    if ShortAlias(ch) == None { ExpandCharacter(context, ch, rest); }
  }

  lemma ShortNames(context: FormatContext)
    ensures context.Expansion("session_name") == context.sessionName
    ensures context.Expansion("window_index") == Digits(context.windowIndex)
    ensures context.Expansion("window_name") == context.windowName
    ensures context.Expansion("pane_id")
         == if context.bufferId == None then "" else "%" + Digits(context.bufferId.value)
    ensures context.Expansion("pane_title") == context.paneTitle
  {
    hide Digits;
  }

  /** The variables of sessions and windows. */
  lemma WindowVariables(context: FormatContext)
    ensures context.Expansion("session_name") == context.sessionName
    ensures context.Expansion("session_windows") == Digits(context.sessionWindows)
    ensures context.Expansion("window_index") == Digits(context.windowIndex)
    ensures context.Expansion("window_name") == context.windowName
    ensures context.Expansion("window_panes") == Digits(context.windowPanes)
    ensures context.windowActive ==> context.Expansion("window_active") == "1"
    ensures !context.windowActive ==> context.Expansion("window_active") == "0"
  {
    hide Digits, Prefixed;
  }

  /** The variables of panes. */
  lemma PaneVariables(context: FormatContext)
    ensures context.Expansion("pane_title") == context.paneTitle && context.Expansion("pane_host") == context.paneHost
    ensures context.Expansion("pane_current_path") == context.currentPath
    ensures context.Expansion("pane_current_command") == context.currentCommand
    ensures context.Expansion("pane_width") == Digits(context.paneWidth)
    ensures context.Expansion("pane_height") == Digits(context.paneHeight)
  {
    hide Digits, Prefixed, Flag;
  }

  lemma PaneFlags(context: FormatContext)
    ensures context.Expansion("pane_active") == if context.paneActive then "1" else "0"
    ensures context.Expansion("pane_dead") == if context.paneDead then "1" else "0"
  {
    hide Digits, Prefixed;
  }

  /** The numbers of panes; one a pane lacks expands to nothing. */
  lemma PaneNumbers(context: FormatContext)
    ensures context.Expansion("node_id") == if context.paneId == None then "" else Digits(context.paneId.value)
    ensures context.Expansion("buffer_id") == if context.bufferId == None then "" else Digits(context.bufferId.value)
    ensures context.Expansion("pane_pid") == if context.panePid == None then "" else Digits(context.panePid.value)
    ensures context.Expansion("pane_index") == if context.paneIndex == None then "" else Digits(context.paneIndex.value)
  {
    hide Digits, Prefixed, Flag;
    NoPrefix(context.paneId);
    NoPrefix(context.bufferId);
    NoPrefix(context.panePid);
    NoPrefix(context.paneIndex);
  }

  lemma NoPrefix(id: Option<nat>)
    ensures Prefixed("", id) == if id == None then "" else Digits(id.value)
  {
    hide Digits;
  }

  /** What a user set is found behind `@`, and a name no one knows expands to nothing. */
  lemma OtherVariables(context: FormatContext, name: string)
    ensures context.Expansion("@" + name) == if name in context.userOptions then context.userOptions[name] else ""
    ensures name == "" || name[0] == '#' ==>
              context.Expansion(name) == if name in context.extra then context.extra[name] else ""
  {
    assert ("@" + name)[1..] == name;
  }

  /** The status a dead pane exited with, a sign and digits; nothing while it has none. */
  lemma DeadStatus(context: FormatContext)
    ensures (var shown := context.Expansion("pane_dead_status");
             match context.deadStatus
             case None => shown == ""
             case Some(status) =>
               if status >= 0 then AllDigits(shown) && Value(shown) == status
               else shown[..1] == "-" && AllDigits(shown[1..]) && Value(shown[1..]) == -status)
  {
    hide Digits, Prefixed, Flag, Value;
    if context.deadStatus.Some? {
      var status := context.deadStatus.value;
      DigitsRoundTrip(if status < 0 then -status else status);
      if status < 0 { assert ("-" + Digits(-status))[1..] == Digits(-status); }
    }
  }

  /** A brace that is never closed, and a last `#`, stay as they are. */
  lemma ExpandUnclosed(context: FormatContext, rest: string)
    requires '}' !in rest
    ensures Expand(context, "#{" + rest) == "#{" + rest && Expand(context, "#") == "#"
  {
    var t := "#{" + rest;
    assert t[2..] == rest;
  }
}
