/** The host's screen: rows of cells, a cursor, and the commands that move between rows. ED is that of
    section 8.3.39 of ECMA-48, CUP that of section 8.3.21. */
module Screen {
  import opened Text
  import opened Host

  /** A frame is commands for the cursor's line and commands that move between lines. */
  datatype ScreenCmd =
    | OnLine(cmds: seq<Cmd>)
    | NewLine
    | Cup(line: nat, column: nat)
    | Ed
    | CursorStyle(code: nat)
    | ShowCursor(visible: bool)
    | Synchronized(begin: bool)

  datatype Screen = Screen(
    rows: seq<seq<HostCell>>,
    row: nat,
    col: nat,
    pen: Pen,
    style: nat,
    shown: bool,
    wrapped: bool,
    scrolled: bool)
  {
    ghost predicate Valid(width: nat) {
      row < |rows| && col <= width && forall y :: 0 <= y < |rows| ==> |rows[y]| == width
    }

    /** The cursor's line. */
    function Current(): Line
      requires row < |rows|
    {
      Line(rows[row], col, pen, false)
    }
  }

  /** The cursor goes to the start of the next row; below the last one the screen scrolls. */
  function Down(s: Screen, width: nat): (r: Screen)
    requires s.Valid(width)
    ensures r.Valid(width) && |r.rows| == |s.rows|
  {
    if s.row + 1 < |s.rows| then s.(row := s.row + 1, col := 0)
    else s.(rows := s.rows[1..] + [Blanks(width, s.pen.style.bg)], col := 0, scrolled := true)
  }

  function StepScreen(h: Host, width: nat, cmd: ScreenCmd, s: Screen): (r: Screen)
    requires s.Valid(width)
    ensures r.Valid(width) && |r.rows| == |s.rows|
    ensures (s.scrolled ==> r.scrolled) && (s.wrapped ==> r.wrapped)
  {
    match cmd
    case OnLine(cmds) =>
      var line := Run(h, cmds, s.Current());
      if line.overflow then Down(s, width).(wrapped := true)
      else s.(rows := s.rows[s.row := line.cells], col := line.col, pen := line.pen)
    case NewLine => Down(s, width)
    case Cup(line, column) =>
      s.(row := Min(Max(line, 1), |s.rows|) - 1, col := Min(Max(column, 1), Max(width, 1)) - 1)
    case Ed =>
      var line := Step(h, El, s.Current());
      s.(rows := s.rows[..s.row] + [line.cells] + Repeat(Blanks(width, s.pen.style.bg), |s.rows| - s.row - 1))
    case CursorStyle(code) => s.(style := code)
    case ShowCursor(visible) => s.(shown := visible)
    case Synchronized(_) => s
  }

  function RunScreen(h: Host, width: nat, cmds: seq<ScreenCmd>, s: Screen): (r: Screen)
    requires s.Valid(width)
    ensures r.Valid(width) && |r.rows| == |s.rows|
    ensures (s.scrolled ==> r.scrolled) && (s.wrapped ==> r.wrapped)
    decreases |cmds|
  {
    if cmds == [] then s else RunScreen(h, width, cmds[1..], StepScreen(h, width, cmds[0], s))
  }

  lemma {:induction false} ScreenConcat(h: Host, width: nat, a: seq<ScreenCmd>, b: seq<ScreenCmd>, s: Screen)
    requires s.Valid(width)
    ensures RunScreen(h, width, a + b, s) == RunScreen(h, width, b, RunScreen(h, width, a, s))
    decreases |a|
  {
    hide StepScreen;
    if a == [] {
      assert a + b == b;
    } else {
      assert (a + b)[1..] == a[1..] + b;
      ScreenConcat(h, width, a[1..], b, StepScreen(h, width, a[0], s));
    }
  }

  /** One more command at the end. */
  lemma ScreenSnoc(h: Host, width: nat, a: seq<ScreenCmd>, cmd: ScreenCmd, s: Screen)
    requires s.Valid(width)
    ensures RunScreen(h, width, a + [cmd], s) == StepScreen(h, width, cmd, RunScreen(h, width, a, s))
  {
    hide StepScreen;
    ScreenConcat(h, width, a, [cmd], s);
    assert [cmd][1..] == [];
  }
}
