/** The host terminal: the control functions the renderer writes and what they do to a line of cells.
    CHA, ECH, EL and SGR are those of sections 8.3.9, 8.3.38, 8.3.41 and 8.3.117 of ECMA-48.
    OSC 8 sets the hyperlink of the text that follows. */
module Host {
  import opened Text
  import opened Style

  // ---- Commands that stay on the cursor's line ----

  /** One SGR parameter: its colon-separated sub-parameters, `None` for an empty one. */
  type Param = seq<Option<nat>>

  datatype Cmd =
    | Write(text: string)
    | Cha(column: nat)
    | Ech(count: nat)
    | El
    | Sgr(params: seq<Param>)
    | Osc8(id: string, uri: string)

  function P(n: nat): Param { [Some(n)] }

  /** The link the host has open. */
  datatype HostLink = HostLink(id: string, uri: string)

  datatype Pen = Pen(style: CellStyle, link: Option<HostLink>)

  const DEFAULT_PEN := Pen(PLAIN, None)

  /** A column of the host's screen: erased (in the background color the erase used), the start of a
      glyph, or a further column of a wide one. */
  datatype HostCell = Blank(bg: Option<TerminalColor>) | Glyph(text: string, pen: Pen) | Tail

  /** A host: how far it moves for a text at a column, which texts it joins into one cluster when they
      are drawn side by side, and whether an erase with the cursor held at the right edge takes the
      column just written. Hosts disagree on all three. */
  datatype Host = Host(
    advance: (nat, string) -> nat,
    joins: (string, string) -> bool,
    erasesEdge: bool)

  datatype Line = Line(cells: seq<HostCell>, col: nat, pen: Pen, overflow: bool)
  {
    predicate Valid() { col <= |cells| }
  }

  // ---- SGR ----

  function ColorOf(params: seq<Param>): Option<TerminalColor>
  {
    if |params| >= 5 && params[1] == P(2) && IsByte(params[2]) && IsByte(params[3]) && IsByte(params[4]) then
      Some(Rgb(params[2][0].value, params[3][0].value, params[4][0].value))
    else if |params| >= 3 && params[1] == P(5) && IsByte(params[2]) then Some(Indexed(params[2][0].value))
    else None
  }

  predicate IsByte(p: Param) { |p| == 1 && p[0].Some? && p[0].value < 256 }

  function UnderlineOf(n: nat): Underline {
    match n
    case 1 => Single
    case 2 => Double
    case 3 => Curly
    case 4 => Dotted
    case 5 => Dashed
    case _ => NoUnderline
  }

  /** The underline color `58:2::r:g:b` or `58:5:n` names. */
  function UnderlineColorOf(p: Param): Option<TerminalColor> {
    if |p| == 6 && p[1] == Some(2) && IsByte([p[3]]) && IsByte([p[4]]) && IsByte([p[5]]) then
      Some(Rgb(p[3].value, p[4].value, p[5].value))
    else if |p| == 3 && p[1] == Some(5) && IsByte([p[2]]) then Some(Indexed(p[2].value))
    else None
  }

  function ApplySgr(style: CellStyle, params: seq<Param>): CellStyle
    decreases |params|
  {
    if params == [] then style
    else if params[0] == P(38) then
      var color := ColorOf(params);
      if color == None then style
      else ApplySgr(style.(fg := color), params[if color.value.Rgb? then 5 else 3..])
    else if params[0] == P(48) then
      var color := ColorOf(params);
      if color == None then style
      else ApplySgr(style.(bg := color), params[if color.value.Rgb? then 5 else 3..])
    else ApplySgr(ApplyParam(style, params[0]), params[1..])
  }

  function ApplyParam(style: CellStyle, p: Param): CellStyle {
    if p == P(0) then PLAIN
    else if p == P(1) then style.(bold := true)
    else if p == P(2) then style.(dim := true)
    else if p == P(3) then style.(italic := true)
    else if p == P(4) then style.(underline := Single)
    else if |p| == 2 && p[0] == Some(4) && p[1].Some? then style.(underline := UnderlineOf(p[1].value))
    else if p == P(5) then style.(blink := true)
    else if p == P(7) then style.(reverse := true)
    else if p == P(9) then style.(strikeout := true)
    else if |p| > 1 && p[0] == Some(58) then
      var color := UnderlineColorOf(p);
      if color == None then style else style.(underlineColor := color)
    else style
  }

  // ---- Writing and erasing columns ----

  function Tails(n: nat): seq<HostCell> { Repeat(Tail, n) }

  function Blanks(n: nat, bg: Option<TerminalColor>): seq<HostCell> { Repeat(Blank(bg), n) }

  /** A line whose last glyph lost its right part: that glyph goes blank. */
  function HealLeft(cells: seq<HostCell>): (r: seq<HostCell>)
    ensures |r| == |cells|
  {
    if cells == [] then []
    else
      var last := |cells| - 1;
      match cells[last]
      case Blank(_) => cells
      case Glyph(_, _) => cells[..last] + [Blank(None)]
      case Tail => HealLeft(cells[..last]) + [Blank(None)]
  }

  /** A rest of a line whose first glyph lost its left part: what is left of it goes blank. */
  function HealRight(cells: seq<HostCell>): (r: seq<HostCell>)
    ensures |r| == |cells|
    ensures cells != [] ==> !r[0].Tail?
    ensures cells != [] && !cells[0].Tail? ==> r == cells
  {
    if cells != [] && cells[0].Tail? then [Blank(None)] + HealRight(cells[1..]) else cells
  }

  /** `cells` with `put` over the columns from `at` on. Glyphs cut in two go blank. */
  function Overwrite(cells: seq<HostCell>, at: nat, put: seq<HostCell>): (r: seq<HostCell>)
    requires at + |put| <= |cells|
    ensures |r| == |cells|
  {
    if put == [] then cells
    else
      (if cells[at].Tail? then HealLeft(cells[..at]) else cells[..at]) + put + HealRight(cells[at + |put|..])
  }

  /** The column of the glyph that covers the column left of `col`, if one does. */
  function LeftGlyph(cells: seq<HostCell>, col: nat): (r: Option<nat>)
    requires col <= |cells|
    ensures r.Some? ==> r.value < col && cells[r.value].Glyph?
  {
    if col == 0 then None
    else match cells[col - 1]
      case Blank(_) => None
      case Glyph(_, _) => Some(col - 1)
      case Tail => LeftGlyph(cells, col - 1)
  }

  /** Whether the host takes `text`, written at `col`, into the glyph on its left. */
  predicate Merges(h: Host, cells: seq<HostCell>, col: nat, text: string)
    requires col <= |cells|
  {
    var left := LeftGlyph(cells, col);
    left.Some? && h.joins(cells[left.value].text, text)
  }

  /** The first column an erase takes when it starts at `col`. */
  function EraseFrom(h: Host, cells: seq<HostCell>, col: nat): (r: nat)
    requires col <= |cells|
    ensures r <= |cells|
  {
    if col == |cells| && col > 0 && h.erasesEdge then col - 1 else col
  }

  /** One command that stays on the cursor's line. A text that does not fit sets `overflow`. */
  function Step(h: Host, cmd: Cmd, s: Line): (r: Line)
    requires s.Valid()
    ensures r.Valid() && |r.cells| == |s.cells|
    ensures s.overflow ==> r.overflow
  {
    match cmd
    case Write(text) =>
      if Merges(h, s.cells, s.col, text) then
        var left := LeftGlyph(s.cells, s.col).value;
        s.(cells := s.cells[left := Glyph(s.cells[left].text + text, s.cells[left].pen)])
      else
        var a := h.advance(s.col, text);
        if a == 0 then s
        else if s.col + a > |s.cells| then s.(overflow := true)
        else s.(cells := Overwrite(s.cells, s.col, [Glyph(text, s.pen)] + Tails(a - 1)), col := s.col + a)
    case Cha(column) =>
      s.(col := Min(Max(column, 1), Max(|s.cells|, 1)) - 1)
    case Ech(count) =>
      var from := EraseFrom(h, s.cells, s.col);
      s.(cells := Overwrite(s.cells, from, Blanks(Min(count, |s.cells| - from), s.pen.style.bg)))
    case El =>
      var from := EraseFrom(h, s.cells, s.col);
      s.(cells := Overwrite(s.cells, from, Blanks(|s.cells| - from, s.pen.style.bg)))
    case Sgr(params) => s.(pen := s.pen.(style := ApplySgr(s.pen.style, params)))
    case Osc8(id, uri) => s.(pen := s.pen.(link := if uri == "" then None else Some(HostLink(id, uri))))
  }

  function Run(h: Host, cmds: seq<Cmd>, s: Line): (r: Line)
    requires s.Valid()
    ensures r.Valid() && |r.cells| == |s.cells|
    ensures s.overflow ==> r.overflow
    decreases |cmds|
  {
    if cmds == [] then s else Run(h, cmds[1..], Step(h, cmds[0], s))
  }

  lemma {:induction false} RunConcat(h: Host, a: seq<Cmd>, b: seq<Cmd>, s: Line)
    requires s.Valid()
    ensures Run(h, a + b, s) == Run(h, b, Run(h, a, s))
    decreases |a|
  {
    if a == [] {
      assert a + b == b;
    } else {
      assert (a + b)[1..] == a[1..] + b;
      RunConcat(h, a[1..], b, Step(h, a[0], s));
    }
  }

  lemma Run1(h: Host, cmd: Cmd, s: Line)
    requires s.Valid()
    ensures Run(h, [cmd], s) == Step(h, cmd, s)
  {
    assert [cmd][1..] == [];
  }
}
