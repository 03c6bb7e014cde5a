/** The renderer as a compiler: a row of cells becomes commands for the host terminal, and replaying
    those commands on any admissible host draws exactly the row (grid.rs). */
module Render {
  import opened Text
  import opened Style
  import opened Cells
  import opened Host

  // ---- Grapheme clusters that span cells ----

  /** The next lead, if its text continues the cluster of the lead at `column`. */
  function JoinedNext(u: Unicode, cells: seq<Cell>, column: nat): (r: Option<nat>)
    requires column < |cells|
    ensures r.Some? ==> r.value == column + CellWidth(cells, column) < |cells|
  {
    var next := column + CellWidth(cells, column);
    if next < |cells| && !IsAscii(cells[next].text) && u.OneCluster(cells[column].text + cells[next].text)
    then Some(next) else None
  }

  /** The run from `column` on: leads each of which continues its predecessor's cluster. */
  function Joined(u: Unicode, cells: seq<Cell>, column: nat): (r: seq<nat>)
    requires column < |cells|
    ensures |r| >= 1 && r[0] == column
    ensures forall i :: 0 <= i < |r| ==> column <= r[i] < |cells|
    decreases |cells| - column
  {
    match JoinedNext(u, cells, column)
    case None => [column]
    case Some(next) => [column] + Joined(u, cells, next)
  }

  /** The first column after a joined run. */
  function RunEnd(u: Unicode, cells: seq<Cell>, column: nat): (end: nat)
    requires column < |cells|
    ensures column + CellWidth(cells, column) <= end <= |cells|
    decreases |cells| - column
  {
    match JoinedNext(u, cells, column)
    case None => column + CellWidth(cells, column)
    case Some(next) => RunEnd(u, cells, next)
  }

  lemma {:induction false} JoinedEnds(u: Unicode, cells: seq<Cell>, column: nat)
    requires column < |cells|
    ensures (var joined := Joined(u, cells, column);
             joined[|joined| - 1] + CellWidth(cells, joined[|joined| - 1]) == RunEnd(u, cells, column))
    decreases |cells| - column
  {
    hide CellWidth, JoinedNext;
    var next := JoinedNext(u, cells, column);
    if next.Some? {
      JoinedEnds(u, cells, next.value);
      var rest := Joined(u, cells, next.value);
      assert Joined(u, cells, column)[|rest|] == rest[|rest| - 1];
    }
  }

  // ---- Commands ----

  /** Whether the renderer trusts the host to cover the cell's columns with its text. */
  predicate Trusted(u: Unicode, text: string, width: nat) {
    u.GraphemeWidth(text) == width && !Regional(text)
  }

  /** The text written for a cell `width` columns wide. */
  function Drawn(u: Unicode, text: string, width: nat): string {
    if text == "" then SPACE
    else if Trusted(u, text, width) then text
    else if Regional(text) && width < 2 then [REPLACEMENT]
    else if u.GraphemeWidth(text) <= width then text
    else if u.GraphemeWidth(Narrowed(text)) <= width then Narrowed(text)
    else Repeat(REPLACEMENT, width)
  }

  function TextCmds(u: Unicode, text: string, column: nat, width: nat): seq<Cmd> {
    if text == "" || Trusted(u, text, width) then [Write(Drawn(u, text, width))]
    else [Ech(width), Write(Drawn(u, text, width)), Cha(column + width + 1)]
  }

  function Opt(present: bool, param: Param): seq<Cmd> {
    if present then [Sgr([param])] else []
  }

  function ColorCmds(code: nat, color: Option<TerminalColor>): seq<Cmd> {
    match color
    case None => []
    case Some(Rgb(r, g, b)) => [Sgr([P(code), P(2), P(r), P(g), P(b)])]
    case Some(Indexed(n)) => [Sgr([P(code), P(5), P(n)])]
  }

  function UnderlineCmds(underline: Underline): seq<Cmd> {
    match underline
    case NoUnderline => []
    case Single => [Sgr([P(4)])]
    case Double => [Sgr([[Some(4), Some(2)]])]
    case Curly => [Sgr([[Some(4), Some(3)]])]
    case Dotted => [Sgr([[Some(4), Some(4)]])]
    case Dashed => [Sgr([[Some(4), Some(5)]])]
  }

  function UnderlineColorCmds(color: Option<TerminalColor>): seq<Cmd> {
    match color
    case None => []
    case Some(Rgb(r, g, b)) => [Sgr([[Some(58), Some(2), None, Some(r), Some(g), Some(b)]])]
    case Some(Indexed(n)) => [Sgr([[Some(58), Some(5), Some(n)]])]
  }

  function FlagCmds(to: CellStyle): seq<Cmd> {
    [Sgr([P(0)])] + Opt(to.bold, P(1)) + Opt(to.dim, P(2)) + Opt(to.italic, P(3)) + UnderlineCmds(to.underline)
    + Opt(to.blink, P(5)) + Opt(to.reverse, P(7)) + Opt(to.strikeout, P(9))
  }

  function StyleTransition(from: CellStyle, to: CellStyle): seq<Cmd> {
    if from == to then []
    else FlagCmds(to) + ColorCmds(38, to.fg) + ColorCmds(48, to.bg) + UnderlineColorCmds(to.underlineColor)
  }

  function LinkId(link: Hyperlink): string {
    match link.id
    case None => ""
    case Some(id) => LinkIdChars(WithoutControls(id))
  }

  function LinkIdChars(id: string): string {
    if id == [] then []
    else (if id[0] == ':' || id[0] == ';' then [] else [id[0]]) + LinkIdChars(id[1..])
  }

  function HyperlinkCmds(link: Option<Hyperlink>): seq<Cmd> {
    match link
    case None => [Osc8("", "")]
    case Some(link) => [Osc8(LinkId(link), WithoutControls(link.uri))]
  }

  /** What a row writer has set on the host. */
  datatype Writer = Writer(style: CellStyle, link: Option<Hyperlink>)

  const FRESH := Writer(PLAIN, None)

  function AfterCell(caps: HostCapabilities, cell: Cell, w: Writer): Writer {
    Writer(cell.style.ForHost(caps), if caps.hyperlinks then cell.link else w.link)
  }

  /** `out` and the commands that draw one cell. */
  function CellCmds(u: Unicode, caps: HostCapabilities, cell: Cell, column: nat, width: nat, w: Writer,
                    out: seq<Cmd>): seq<Cmd> {
    out + StyleTransition(w.style, cell.style.ForHost(caps))
    + (if caps.hyperlinks && cell.link != w.link then HyperlinkCmds(cell.link) else [])
    + TextCmds(u, cell.text, column, width)
  }

  function FinishCmds(w: Writer, out: seq<Cmd>): seq<Cmd> {
    out + (if w.link.Some? then HyperlinkCmds(None) else []) + (if w.style != PLAIN then [Sgr([P(0)])] else [])
  }

  /** `out` and the first `k` parts of a joined run, last one first. */
  function PartsCmds(u: Unicode, caps: HostCapabilities, cells: seq<Cell>, parts: seq<nat>, k: nat, w: Writer,
                     out: seq<Cmd>): seq<Cmd>
    requires k <= |parts| && forall i :: 0 <= i < |parts| ==> parts[i] < |cells|
  {
    if k == 0 then out
    else
      var part := parts[k - 1];
      PartsCmds(u, caps, cells, parts, k - 1, AfterCell(caps, cells[part], w),
                CellCmds(u, caps, cells[part], part, CellWidth(cells, part), w, out + [Cha(part + 1)]))
  }

  function AfterParts(caps: HostCapabilities, cells: seq<Cell>, parts: seq<nat>, k: nat, w: Writer): Writer
    requires k <= |parts| && forall i :: 0 <= i < |parts| ==> parts[i] < |cells|
  {
    if k == 0 then w else AfterParts(caps, cells, parts, k - 1, AfterCell(caps, cells[parts[k - 1]], w))
  }

  /** `out`, the commands for the cells from `column` on, and the end of the row. */
  function RowFrom(u: Unicode, caps: HostCapabilities, cells: seq<Cell>, column: nat, w: Writer,
                   out: seq<Cmd>): seq<Cmd>
    requires column <= |cells|
    decreases |cells| - column
  {
    if column == |cells| then FinishCmds(w, out)
    else if cells[column].continuation then RowFrom(u, caps, cells, column + 1, w, out)
    else if JoinedNext(u, cells, column) == None then
      var width := CellWidth(cells, column);
      RowFrom(u, caps, cells, column + width, AfterCell(caps, cells[column], w),
              CellCmds(u, caps, cells[column], column, width, w, out))
    else
      var parts := Joined(u, cells, column);
      var end := RunEnd(u, cells, column);
      RowFrom(u, caps, cells, end, AfterParts(caps, cells, parts, |parts|, w),
              PartsCmds(u, caps, cells, parts, |parts|, w, out + [Cha(column + 1), Ech(end - column)]) + [Cha(end + 1)])
  }

  function RowCmds(u: Unicode, caps: HostCapabilities, cells: seq<Cell>): seq<Cmd> {
    RowFrom(u, caps, cells, 0, FRESH, [])
  }

  // ---- The renderer's own loops ----

  /** Collects a row's commands, with the style and link they have left on the host. */
  class RowWriter {
    const host: HostCapabilities
    var output: seq<Cmd>
    var style: CellStyle
    var link: Option<Hyperlink>

    constructor (host: HostCapabilities)
      ensures this.host == host && output == [] && State() == FRESH
    {
      this.host, output, style, link := host, [], PLAIN, None;
    }

    ghost function State(): Writer
      reads this
    {
      Writer(style, link)
    }

    method WriteCell(u: Unicode, cell: Cell, column: nat, width: nat)
      modifies this
      ensures output == CellCmds(u, host, cell, column, width, old(State()), old(output))
      ensures State() == AfterCell(host, cell, old(State()))
    {
      var shown := cell.style.ForHost(host);
      output := output + StyleTransition(style, shown);
      style := shown;
      if host.hyperlinks && cell.link != link {
        link := cell.link;
        output := output + HyperlinkCmds(link);
      }
      output := output + TextCmds(u, cell.text, column, width);
    }

    method Push(cmds: seq<Cmd>)
      modifies this`output
      ensures output == old(output) + cmds
    {
      output := output + cmds;
    }

    method Finish() returns (cmds: seq<Cmd>)
      ensures cmds == FinishCmds(State(), output)
    {
      cmds := output;
      if link.Some? {
        cmds := cmds + HyperlinkCmds(None);
      }
      if style != PLAIN {
        cmds := cmds + [Sgr([P(0)])];
      }
    }
  }

  method JoinedCells(u: Unicode, cells: seq<Cell>, column: nat) returns (joined: seq<nat>)
    requires column < |cells|
    ensures joined == Joined(u, cells, column)
  {
    joined := [column];
    ghost var before: seq<nat> := [];
    var last := column;
    var next := JoinedNext(u, cells, column);
    while next.Some?
      invariant joined == before + [last] && last < |cells|
      invariant next == JoinedNext(u, cells, last)
      invariant before + Joined(u, cells, last) == Joined(u, cells, column)
      decreases |cells| - last
    {
      Assoc(before, [last], Joined(u, cells, next.value));
      before, last := joined, next.value;
      joined := joined + [next.value];
      next := JoinedNext(u, cells, last);
    }
  }

  method WriteParts(u: Unicode, writer: RowWriter, cells: seq<Cell>, parts: seq<nat>)
    requires forall i :: 0 <= i < |parts| ==> parts[i] < |cells|
    modifies writer
    ensures writer.output == PartsCmds(u, writer.host, cells, parts, |parts|, old(writer.State()), old(writer.output))
    ensures writer.State() == AfterParts(writer.host, cells, parts, |parts|, old(writer.State()))
  {
    hide CellCmds;
    var k := |parts|;
    while k > 0
      invariant 0 <= k <= |parts|
      invariant PartsCmds(u, writer.host, cells, parts, k, writer.State(), writer.output)
             == PartsCmds(u, writer.host, cells, parts, |parts|, old(writer.State()), old(writer.output))
      invariant AfterParts(writer.host, cells, parts, k, writer.State())
             == AfterParts(writer.host, cells, parts, |parts|, old(writer.State()))
    {
      var part := parts[k - 1];
      writer.Push([Cha(part + 1)]);
      writer.WriteCell(u, cells[part], part, CellWidth(cells, part));
      k := k - 1;
    }
  }

  /** How `RowFrom` goes on after each kind of cell. */
  lemma RowStep(u: Unicode, caps: HostCapabilities, cells: seq<Cell>, column: nat, w: Writer, out: seq<Cmd>)
    requires column < |cells| && !cells[column].continuation
    ensures JoinedNext(u, cells, column) == None ==>
      RowFrom(u, caps, cells, column, w, out)
      == RowFrom(u, caps, cells, column + CellWidth(cells, column), AfterCell(caps, cells[column], w),
                 CellCmds(u, caps, cells[column], column, CellWidth(cells, column), w, out))
    ensures JoinedNext(u, cells, column) != None ==>
      var parts, end := Joined(u, cells, column), RunEnd(u, cells, column);
      RowFrom(u, caps, cells, column, w, out)
      == RowFrom(u, caps, cells, end, AfterParts(caps, cells, parts, |parts|, w),
                 PartsCmds(u, caps, cells, parts, |parts|, w, out + [Cha(column + 1), Ech(end - column)])
                 + [Cha(end + 1)])
  {
    hide CellCmds, PartsCmds, AfterParts, JoinedNext, CellWidth, Joined, RunEnd;
  }

  lemma RowSkip(u: Unicode, caps: HostCapabilities, cells: seq<Cell>, column: nat, w: Writer, out: seq<Cmd>)
    requires column <= |cells|
    ensures column == |cells| ==> RowFrom(u, caps, cells, column, w, out) == FinishCmds(w, out)
    ensures column < |cells| && cells[column].continuation ==>
      RowFrom(u, caps, cells, column, w, out) == RowFrom(u, caps, cells, column + 1, w, out)
  {
    hide CellCmds, PartsCmds, AfterParts, JoinedNext, CellWidth, Joined, RunEnd;
  }

  /** One row of `ansi_lines_for`. */
  method AnsiLine(u: Unicode, caps: HostCapabilities, cells: seq<Cell>) returns (line: seq<Cmd>)
    ensures line == RowCmds(u, caps, cells)
  {
    hide CellCmds, PartsCmds, AfterParts, FinishCmds, RowFrom, JoinedNext, CellWidth, Joined, RunEnd;
    var writer := new RowWriter(caps);
    var column := 0;
    while column < |cells|
      invariant column <= |cells| && writer.host == caps && fresh(writer)
      invariant RowFrom(u, caps, cells, column, writer.State(), writer.output) == RowCmds(u, caps, cells)
    {
      RowSkip(u, caps, cells, column, writer.State(), writer.output);
      if cells[column].continuation {
        column := column + 1;
      } else if JoinedNext(u, cells, column) == None {
        RowStep(u, caps, cells, column, writer.State(), writer.output);
        var width := CellWidth(cells, column);
        writer.WriteCell(u, cells[column], column, width);
        column := column + width;
      } else {
        RowStep(u, caps, cells, column, writer.State(), writer.output);
        JoinedEnds(u, cells, column);
        var joined := JoinedCells(u, cells, column);
        var end := joined[|joined| - 1] + CellWidth(cells, joined[|joined| - 1]);
        writer.Push([Cha(column + 1), Ech(end - column)]);
        WriteParts(u, writer, cells, joined);
        writer.Push([Cha(end + 1)]);
        column := end;
      }
    }
    RowSkip(u, caps, cells, column, writer.State(), writer.output);
    line := writer.Finish();
  }
}
