/** Replaying a rendered row on a host draws the row: every cell in its own columns, in its own style
    and link, whatever the host makes of odd text and whichever neighbours it would join. */
module Replay {
  import opened Text
  import opened Style
  import opened Cells
  import opened Host
  import opened Render

  // ---- What a row should look like ----

  function ShownLink(link: Option<Hyperlink>): Option<HostLink> {
    match link
    case None => None
    case Some(link) =>
      var uri := WithoutControls(link.uri);
      if uri == "" then None else Some(HostLink(LinkId(link), uri))
  }

  function PenFor(caps: HostCapabilities, cell: Cell): Pen {
    Pen(cell.style.ForHost(caps), if caps.hyperlinks then ShownLink(cell.link) else None)
  }

  /** What a host leaves in `width` erased columns for a text it takes `a` columns for. */
  function GlyphPicture(a: nat, text: string, pen: Pen, width: nat): seq<HostCell> {
    if a == 0 then Blanks(width, pen.style.bg)
    else [Glyph(text, pen)] + Tails(a - 1) + (if a < width then Blanks(width - a, pen.style.bg) else [])
  }

  /** A cell's columns: its text over as many as the host takes for it, the rest erased. */
  function CellPicture(h: Host, u: Unicode, caps: HostCapabilities, cells: seq<Cell>, c: nat): seq<HostCell>
    requires c < |cells|
  {
    var width := CellWidth(cells, c);
    var text := Drawn(u, cells[c].text, width);
    GlyphPicture(h.advance(c, text), text, PenFor(caps, cells[c]), width)
  }

  /** The row from the lead cell at `c` on. */
  function Picture(h: Host, u: Unicode, caps: HostCapabilities, cells: seq<Cell>, c: nat): seq<HostCell>
    requires c <= |cells|
    decreases |cells| - c
  {
    if c == |cells| then [] else CellPicture(h, u, caps, cells, c) + Picture(h, u, caps, cells, c + CellWidth(cells, c))
  }

  // ---- Which hosts the renderer is for ----

  /** The most columns Unicode lets a host take for `text`: two for a lone regional indicator. */
  function Limit(u: Unicode, text: string): nat {
    if Regional(text) then Max(2, u.GraphemeWidth(text)) else u.GraphemeWidth(text)
  }

  /** The host covers text it is trusted with as the grid does; odd text it may draw in any number of columns up to
      its limit. */
  ghost predicate CoversAt(h: Host, u: Unicode, cells: seq<Cell>, c: nat)
    requires c < |cells|
  {
    var width := CellWidth(cells, c);
    var text := Drawn(u, cells[c].text, width);
    if u.GraphemeWidth(cells[c].text) == width && !Regional(cells[c].text) then h.advance(c, text) == width
    else h.advance(c, text) <= Limit(u, text)
  }

  ghost predicate Covers(h: Host, u: Unicode, cells: seq<Cell>) {
    forall c :: 0 <= c < |cells| && !cells[c].continuation ==> CoversAt(h, u, cells, c)
  }

  /** The host takes the next cell's text into this cell, and the renderer does not keep the two apart: this cell's
      text reaches the next cell, they are in no run, and the host joins them. */
  predicate Swallows(h: Host, u: Unicode, cells: seq<Cell>, c: nat)
    requires c < |cells|
  {
    var width := CellWidth(cells, c);
    var text := Drawn(u, cells[c].text, width);
    && c + width < |cells| && JoinedNext(u, cells, c) == None && h.advance(c, text) == width
    && h.joins(text, Drawn(u, cells[c + width].text, CellWidth(cells, c + width)))
  }

  /** What a row needs of a host: it covers the row's texts and no cell swallows the next. */
  ghost predicate Admissible(h: Host, u: Unicode, cells: seq<Cell>) {
    forall c :: 0 <= c < |cells| && !cells[c].continuation ==> AdmissibleAt(h, u, cells, c)
  }

  ghost predicate AdmissibleAt(h: Host, u: Unicode, cells: seq<Cell>, c: nat)
    requires c < |cells|
  {
    CoversAt(h, u, cells, c) && !Swallows(h, u, cells, c)
  }

  lemma NarrowedRegional(text: string)
    ensures Regional(Narrowed(text)) <==> Regional(text)
  {
    NarrowedSieves(text);
    var narrowed := Narrowed(text);
    var at :| KeptAt(text, narrowed, at, NotJoiner) && Everything(text, at, NotJoiner);
    if Regional(narrowed) {
      var i :| 0 <= i < |narrowed| && IsRegionalIndicator(narrowed[i]);
      assert IsRegionalIndicator(text[at[i]]);
    }
    if Regional(text) {
      var j :| 0 <= j < |text| && IsRegionalIndicator(text[j]);
      assert NotJoiner(text[j]);
      var i :| 0 <= i < |at| && at[i] == j;
      assert IsRegionalIndicator(narrowed[i]);
    }
  }

  /** Whether a text may be written into `width` columns: it measures no more, and is no half of a flag in one. */
  ghost predicate MayWrite(u: Unicode, text: string, width: nat) {
    u.GraphemeWidth(text) <= width && !(width == 1 && Regional(text))
  }

  /** What is written for a cell is the first of three that may be: its text, the text narrowed, and replacement
      characters for all its columns. */
  lemma DrawnIsFirst(u: Unicode, text: string, width: nat) returns (narrowed: string)
    requires u.Valid() && text != "" && 1 <= width <= U16_MAX
    ensures Sieved(text, narrowed, NotJoiner) && MayWrite(u, Repeat(REPLACEMENT, width), width)
    ensures Drawn(u, text, width) == if MayWrite(u, text, width) then text
                                     else if MayWrite(u, narrowed, width) then narrowed
                                     else Repeat(REPLACEMENT, width)
  {
    NarrowedSieves(text);
    NarrowedRegional(text);
    narrowed := Narrowed(text);
    assert u.width(Repeat(REPLACEMENT, width)) == width;
    assert [REPLACEMENT] == Repeat(REPLACEMENT, 1);
  }

  /** Whatever is written for an odd cell fits the cell on every admissible host. */
  lemma LimitFits(u: Unicode, text: string, width: nat)
    requires u.Valid() && text != "" && width >= 1 && !Trusted(u, text, width)
    ensures Limit(u, Drawn(u, text, width)) <= width
  {
    NarrowedRegional(text);
    assert u.width(Repeat(REPLACEMENT, width)) == width;
    assert [REPLACEMENT] == Repeat(REPLACEMENT, 1);
    assert u.width(Repeat(REPLACEMENT, 1)) == 1;
  }

  // ---- Styles and links ----

  lemma Sgr1(style: CellStyle, p: Param)
    requires p != P(38) && p != P(48)
    ensures ApplySgr(style, [p]) == ApplyParam(style, p)
  {
    assert [p][1..] == [];
  }

  function WithStyle(s: Line, style: CellStyle): Line {
    s.(pen := s.pen.(style := style))
  }

  lemma FlagsReplay(h: Host, to: CellStyle, s: Line)
    requires s.Valid()
    ensures Run(h, FlagCmds(to), s)
         == WithStyle(s, to.(fg := None, bg := None, underlineColor := None))
  {
    hide Run, Step, ApplyParam;
    var c3 := [Sgr([P(0)])] + Opt(to.bold, P(1)) + Opt(to.dim, P(2)) + Opt(to.italic, P(3));
    var t3 := PLAIN.(bold := to.bold, dim := to.dim, italic := to.italic);
    HeadFlags(h, to, s);
    var t4 := t3.(underline := to.underline);
    RunConcat(h, c3, UnderlineCmds(to.underline), s);
    UnderlineReplay(h, to.underline, WithStyle(s, t3));
    TailFlags(h, to, s, c3 + UnderlineCmds(to.underline), t4);
  }

  lemma HeadFlags(h: Host, to: CellStyle, s: Line)
    requires s.Valid()
    ensures Run(h, [Sgr([P(0)])] + Opt(to.bold, P(1)) + Opt(to.dim, P(2)) + Opt(to.italic, P(3)), s)
         == WithStyle(s, PLAIN.(bold := to.bold, dim := to.dim, italic := to.italic))
  {
    hide Run, Step;
    var c0 := [Sgr([P(0)])];
    Run1Sgr(h, P(0), s);
    var t1 := PLAIN.(bold := to.bold);
    FlagStep(h, c0, to.bold, P(1), s, PLAIN, t1);
    var t2 := t1.(dim := to.dim);
    FlagStep(h, c0 + Opt(to.bold, P(1)), to.dim, P(2), s, t1, t2);
    FlagStep(h, c0 + Opt(to.bold, P(1)) + Opt(to.dim, P(2)), to.italic, P(3), s, t2, t2.(italic := to.italic));
  }

  lemma TailFlags(h: Host, to: CellStyle, s: Line, c4: seq<Cmd>, t4: CellStyle)
    requires s.Valid() && Run(h, c4, s) == WithStyle(s, t4)
    requires !t4.blink && !t4.reverse && !t4.strikeout
    ensures Run(h, c4 + Opt(to.blink, P(5)) + Opt(to.reverse, P(7)) + Opt(to.strikeout, P(9)), s)
         == WithStyle(s, t4.(blink := to.blink, reverse := to.reverse, strikeout := to.strikeout))
  {
    hide Run, Step;
    var t5 := t4.(blink := to.blink);
    FlagStep(h, c4, to.blink, P(5), s, t4, t5);
    var t6 := t5.(reverse := to.reverse);
    FlagStep(h, c4 + Opt(to.blink, P(5)), to.reverse, P(7), s, t5, t6);
    FlagStep(h, c4 + Opt(to.blink, P(5)) + Opt(to.reverse, P(7)), to.strikeout, P(9), s, t6,
             t6.(strikeout := to.strikeout));
  }

  lemma Run1Sgr(h: Host, p: Param, s: Line)
    requires s.Valid() && p != P(38) && p != P(48)
    ensures Run(h, [Sgr([p])], s) == WithStyle(s, ApplyParam(s.pen.style, p))
  {
    Run1(h, Sgr([p]), s);
    Sgr1(s.pen.style, p);
  }

  lemma FlagStep(h: Host, before: seq<Cmd>, present: bool, p: Param, s: Line, style: CellStyle, next: CellStyle)
    requires s.Valid() && p != P(38) && p != P(48) && Run(h, before, s) == WithStyle(s, style)
    requires next == if present then ApplyParam(style, p) else style
    ensures Run(h, before + Opt(present, p), s) == WithStyle(s, next)
  {
    RunConcat(h, before, Opt(present, p), s);
    if present { Run1Sgr(h, p, WithStyle(s, style)); }
  }

  lemma UnderlineReplay(h: Host, underline: Underline, s: Line)
    requires s.Valid() && s.pen.style.underline == NoUnderline
    ensures Run(h, UnderlineCmds(underline), s) == WithStyle(s, s.pen.style.(underline := underline))
  {
    match underline
    case NoUnderline =>
    case Single => Run1Sgr(h, P(4), s);
    case Double => Run1Sgr(h, [Some(4), Some(2)], s);
    case Curly => Run1Sgr(h, [Some(4), Some(3)], s);
    case Dotted => Run1Sgr(h, [Some(4), Some(4)], s);
    case Dashed => Run1Sgr(h, [Some(4), Some(5)], s);
  }

  lemma ColorReplay(h: Host, code: nat, color: Option<TerminalColor>, s: Line)
    requires s.Valid() && (code == 38 || code == 48)
    ensures Run(h, ColorCmds(code, color), s)
         == WithStyle(s, if color.None? then s.pen.style
                         else if code == 38 then s.pen.style.(fg := color) else s.pen.style.(bg := color))
  {
    match color
    case None =>
    case Some(Rgb(r, g, b)) =>
      var ps := [P(code), P(2), P(r), P(g), P(b)];
      Run1(h, Sgr(ps), s);
      assert ColorOf(ps) == color && ps[5..] == [] && ps[0] == P(code);
      assert P(48)[0] != P(38)[0];
      assert ApplySgr(s.pen.style, ps) == if code == 38 then s.pen.style.(fg := color) else s.pen.style.(bg := color);
    case Some(Indexed(n)) =>
      var ps := [P(code), P(5), P(n)];
      Run1(h, Sgr(ps), s);
      assert ColorOf(ps) == color && ps[3..] == [] && ps[0] == P(code);
      assert P(48)[0] != P(38)[0];
      assert ApplySgr(s.pen.style, ps) == if code == 38 then s.pen.style.(fg := color) else s.pen.style.(bg := color);
  }

  lemma UnderlineColorReplay(h: Host, color: Option<TerminalColor>, s: Line)
    requires s.Valid()
    ensures Run(h, UnderlineColorCmds(color), s)
         == WithStyle(s, if color.None? then s.pen.style else s.pen.style.(underlineColor := color))
  {
    match color
    case None =>
    case Some(Rgb(r, g, b)) =>
      var p := [Some(58), Some(2), None, Some(r), Some(g), Some(b)];
      assert UnderlineColorOf(p) == color;
      Run1Sgr(h, p, s);
    case Some(Indexed(n)) =>
      var p := [Some(58), Some(5), Some(n)];
      assert |p| == 3 && IsByte([p[2]]) && UnderlineColorOf(p) == color;
      assert ApplyParam(s.pen.style, p) == s.pen.style.(underlineColor := color);
      Run1Sgr(h, p, s);

  }

  /** The style transition leaves the host in exactly the style asked for. */
  lemma StyleReplay(h: Host, from: CellStyle, to: CellStyle, s: Line)
    requires s.Valid() && s.pen.style == from
    ensures Run(h, StyleTransition(from, to), s) == WithStyle(s, to)
  {
    if from != to {
      hide Run, Step, FlagCmds, ColorCmds, UnderlineColorCmds;
      FlagsReplay(h, to, s);
      var c1, c2, c3 := FlagCmds(to), ColorCmds(38, to.fg), ColorCmds(48, to.bg);
      RunConcat(h, c1, c2, s);
      var s1 := Run(h, c1, s);
      ColorReplay(h, 38, to.fg, s1);
      RunConcat(h, c1 + c2, c3, s);
      var s2 := Run(h, c2, s1);
      ColorReplay(h, 48, to.bg, s2);
      RunConcat(h, c1 + c2 + c3, UnderlineColorCmds(to.underlineColor), s);
      var s3 := Run(h, c3, s2);
      UnderlineColorReplay(h, to.underlineColor, s3);
    }
  }
}
