/** Exactly which rows a host draws right: those in which it takes no cell's text into the cell before. */
module Swallow {
  import opened Text
  import opened Style
  import opened Cells
  import opened Host
  import opened Render
  import opened Replay
  import opened RowReplay

  // ---- Commands that stay right of a column ----

  predicate StaysFrom(cmd: Cmd, n: nat) {
    !cmd.El? && (cmd.Cha? ==> cmd.column > n)
  }

  /** A command that moves no cursor and writes no text. */
  predicate Still(cmd: Cmd) {
    cmd.Sgr? || cmd.Osc8? || cmd.Ech?
  }

  /** `all` is `out` with commands after it that stay from column `n` on. */
  ghost predicate Extends(out: seq<Cmd>, all: seq<Cmd>, n: nat) {
    out <= all && forall i :: |out| <= i < |all| ==> StaysFrom(all[i], n)
  }

  ghost predicate AllStill(cmds: seq<Cmd>) {
    forall i :: 0 <= i < |cmds| ==> Still(cmds[i])
  }

  lemma ExtendsTrans(a: seq<Cmd>, b: seq<Cmd>, c: seq<Cmd>, n: nat)
    requires Extends(a, b, n) && Extends(b, c, n)
    ensures Extends(a, c, n)
  {
    forall i | |a| <= i < |c| ensures StaysFrom(c[i], n) {
      if i < |b| { assert c[i] == b[i]; }
    }
  }

  lemma StillConcat(a: seq<Cmd>, b: seq<Cmd>)
    requires AllStill(a) && AllStill(b)
    ensures AllStill(a + b)
  {
  }

  lemma ExtendsStill(out: seq<Cmd>, more: seq<Cmd>, n: nat)
    requires AllStill(more)
    ensures Extends(out, out + more, n)
  {
    forall i | |out| <= i < |out + more| ensures StaysFrom((out + more)[i], n) {
      assert Still(more[i - |out|]);
    }
  }

  lemma FlagsAreStill(to: CellStyle)
    ensures AllStill(FlagCmds(to))
  {
    var c3 := [Sgr([P(0)])] + Opt(to.bold, P(1)) + Opt(to.dim, P(2)) + Opt(to.italic, P(3));
    var c4 := c3 + UnderlineCmds(to.underline);
    var c5 := c4 + Opt(to.blink, P(5));
    StillConcat(c3, UnderlineCmds(to.underline));
    hide UnderlineCmds;
    StillConcat(c4, Opt(to.blink, P(5)));
    StillConcat(c5, Opt(to.reverse, P(7)));
    StillConcat(c5 + Opt(to.reverse, P(7)), Opt(to.strikeout, P(9)));
  }

  lemma ColorsAreStill(to: CellStyle)
    ensures AllStill(ColorCmds(38, to.fg)) && AllStill(ColorCmds(48, to.bg))
    ensures AllStill(UnderlineColorCmds(to.underlineColor))
  {
  }

  lemma StyleIsStill(from: CellStyle, to: CellStyle)
    ensures AllStill(StyleTransition(from, to))
  {
    FlagsAreStill(to);
    ColorsAreStill(to);
    hide FlagCmds, ColorCmds, UnderlineColorCmds, AllStill;
    var flags, fg, bg := FlagCmds(to), ColorCmds(38, to.fg), ColorCmds(48, to.bg);
    StillConcat(flags, fg);
    StillConcat(flags + fg, bg);
    StillConcat(flags + fg + bg, UnderlineColorCmds(to.underlineColor));
    NothingIsStill();
  }

  lemma NothingIsStill()
    ensures AllStill([])
  {
  }

  lemma LinkIsStill(link: Option<Hyperlink>)
    ensures AllStill(HyperlinkCmds(link))
  {
  }

  /** The commands a cell writes before its text, and what it writes. */
  lemma CellWrites(u: Unicode, caps: HostCapabilities, cell: Cell, p: nat, width: nat, w: Writer, out: seq<Cmd>)
    returns (still: seq<Cmd>)
    ensures AllStill(still)
    ensures (var all := CellCmds(u, caps, cell, p, width, w, out);
             var written := out + still + [Write(Drawn(u, cell.text, width))];
             Extends(written, all, p) && Extends(out, all, p))
  {
    hide Drawn, StyleTransition, HyperlinkCmds;
    var style := StyleTransition(w.style, cell.style.ForHost(caps));
    var link := if caps.hyperlinks && cell.link != w.link then HyperlinkCmds(cell.link) else [];
    StyleIsStill(w.style, cell.style.ForHost(caps));
    LinkIsStill(cell.link);
    StillConcat(style, link);
    var text := [Write(Drawn(u, cell.text, width))];
    var all := CellCmds(u, caps, cell, p, width, w, out);
    Assoc(out, style, link);
    if cell.text == "" || Trusted(u, cell.text, width) {
      still := style + link;
      assert all == out + still + text;
    } else {
      StillConcat(style + link, [Ech(width)]);
      still := style + link + [Ech(width)];
      assert all == out + still + text + [Cha(p + width + 1)];
    }
    ExtendsStill(out, still, p);
    ExtendsTrans(out, out + still, out + still + text, p);
    ExtendsTrans(out, out + still + text, all, p);
  }

  lemma {:induction false} PartsExtend(u: Unicode, caps: HostCapabilities, cells: seq<Cell>, parts: seq<nat>, k: nat,
                                       w: Writer, out: seq<Cmd>, n: nat)
    requires k <= |parts| && forall i :: 0 <= i < |parts| ==> n <= parts[i] < |cells|
    ensures Extends(out, PartsCmds(u, caps, cells, parts, k, w, out), n)
  {
    hide CellCmds;
    if k > 0 {
      var p := parts[k - 1];
      var next := CellCmds(u, caps, cells[p], p, CellWidth(cells, p), w, out + [Cha(p + 1)]);
      var _ := CellWrites(u, caps, cells[p], p, CellWidth(cells, p), w, out + [Cha(p + 1)]);
      ExtendsTrans(out, out + [Cha(p + 1)], next, n);
      PartsExtend(u, caps, cells, parts, k - 1, AfterCell(caps, cells[p], w), next, n);
      ExtendsTrans(out, next, PartsCmds(u, caps, cells, parts, k, w, out), n);
    }
  }

  /** A row from column `n` on stays there. */
  lemma {:induction false} RowExtends(u: Unicode, caps: HostCapabilities, cells: seq<Cell>, column: nat, w: Writer,
                                      out: seq<Cmd>, n: nat)
    requires n <= column <= |cells|
    ensures Extends(out, RowFrom(u, caps, cells, column, w, out), n)
    decreases |cells| - column
  {
    hide CellCmds, PartsCmds, JoinedNext, Joined, RunEnd, CellWidth, RowFrom, AfterParts;
    RowSkip(u, caps, cells, column, w, out);
    var all := RowFrom(u, caps, cells, column, w, out);
    if column == |cells| {
    } else if cells[column].continuation {
      RowExtends(u, caps, cells, column + 1, w, out, n);
    } else {
      RowStep(u, caps, cells, column, w, out);
      if JoinedNext(u, cells, column) == None {
        var width := CellWidth(cells, column);
        var next := CellCmds(u, caps, cells[column], column, width, w, out);
        var _ := CellWrites(u, caps, cells[column], column, width, w, out);
        RowExtends(u, caps, cells, column + width, AfterCell(caps, cells[column], w), next, n);
        ExtendsTrans(out, next, all, n);
      } else {
        var parts, end := Joined(u, cells, column), RunEnd(u, cells, column);
        var erased := out + [Cha(column + 1), Ech(end - column)];
        var drawn := PartsCmds(u, caps, cells, parts, |parts|, w, erased);
        PartsExtend(u, caps, cells, parts, |parts|, w, erased, n);
        ExtendsTrans(out, erased, drawn, n);
        ExtendsTrans(out, drawn, drawn + [Cha(end + 1)], n);
        RowExtends(u, caps, cells, end, AfterParts(caps, cells, parts, |parts|, w), drawn + [Cha(end + 1)], n);
        ExtendsTrans(out, drawn + [Cha(end + 1)], all, n);
      }
    }
  }

  // ---- Where a cell's text is written ----

  /** `pre` ends with the cursor at column `n`, wherever the commands after `out` went in between. */
  ghost predicate BackAt(out: seq<Cmd>, pre: seq<Cmd>, k: nat, n: nat) {
    && |out| <= k <= |pre| && Extends(out, pre, n) && (k == |out| || pre[k - 1] == Cha(n + 1))
    && forall i :: k <= i < |pre| ==> Still(pre[i])
  }

  lemma PlainWrites(u: Unicode, caps: HostCapabilities, cells: seq<Cell>, n: nat, w: Writer, out: seq<Cmd>)
    returns (pre: seq<Cmd>, k: nat)
    requires n < |cells|
    ensures BackAt(out, pre, k, n)
    ensures Extends(pre + [Write(Drawn(u, cells[n].text, CellWidth(cells, n)))],
                    CellCmds(u, caps, cells[n], n, CellWidth(cells, n), w, out), n)
  {
    var still := CellWrites(u, caps, cells[n], n, CellWidth(cells, n), w, out);
    ExtendsStill(out, still, n);
    pre, k := out + still, |out|;
  }

  /** The last part a run writes is its first cell, back at that cell's column. */
  lemma {:induction false} PartsWrite(u: Unicode, caps: HostCapabilities, cells: seq<Cell>, parts: seq<nat>, k: nat,
                                      w: Writer, out: seq<Cmd>, n: nat)
    returns (pre: seq<Cmd>, back: nat)
    requires 0 < k <= |parts| && (forall i :: 0 <= i < |parts| ==> n <= parts[i] < |cells|) && parts[0] == n
    ensures BackAt(out, pre, back, n) && back > |out|
    ensures Extends(pre + [Write(Drawn(u, cells[n].text, CellWidth(cells, n)))],
                    PartsCmds(u, caps, cells, parts, k, w, out), n)
  {
    hide CellCmds, Drawn, CellWidth;
    var p := parts[k - 1];
    var moved := out + [Cha(p + 1)];
    var next := CellCmds(u, caps, cells[p], p, CellWidth(cells, p), w, moved);
    if k == 1 {
      pre, back := PlainWrites(u, caps, cells, n, w, moved);
      assert PartsCmds(u, caps, cells, parts, k, w, out) == next;
      ExtendsTrans(out, moved, pre, n);
      assert pre[|out|] == Cha(n + 1);
    } else {
      var _ := CellWrites(u, caps, cells[p], p, CellWidth(cells, p), w, moved);
      ExtendsTrans(out, moved, next, n);
      pre, back := PartsWrite(u, caps, cells, parts, k - 1, AfterCell(caps, cells[p], w), next, n);
      ExtendsTrans(out, next, pre, n);
    }
  }

  /** In a row from lead `n` on, its text is written at column `n`. */
  lemma RowWrites(u: Unicode, caps: HostCapabilities, cells: seq<Cell>, n: nat, w: Writer, out: seq<Cmd>)
    returns (pre: seq<Cmd>, back: nat)
    requires n < |cells| && !cells[n].continuation
    ensures BackAt(out, pre, back, n)
    ensures Extends(pre + [Write(Drawn(u, cells[n].text, CellWidth(cells, n)))], RowFrom(u, caps, cells, n, w, out), n)
  {
    hide CellCmds, PartsCmds, JoinedNext, Joined, RunEnd, CellWidth, RowFrom, AfterParts, Drawn, AfterCell;
    RowStep(u, caps, cells, n, w, out);
    var all := RowFrom(u, caps, cells, n, w, out);
    var text := [Write(Drawn(u, cells[n].text, CellWidth(cells, n)))];
    if JoinedNext(u, cells, n) == None {
      var next := CellCmds(u, caps, cells[n], n, CellWidth(cells, n), w, out);
      pre, back := PlainWrites(u, caps, cells, n, w, out);
      RowExtends(u, caps, cells, n + CellWidth(cells, n), AfterCell(caps, cells[n], w), next, n);
      ExtendsTrans(pre + text, next, all, n);
    } else {
      var parts, end := Joined(u, cells, n), RunEnd(u, cells, n);
      var erased := out + [Cha(n + 1), Ech(end - n)];
      var drawn := PartsCmds(u, caps, cells, parts, |parts|, w, erased);
      pre, back := PartsWrite(u, caps, cells, parts, |parts|, w, erased, n);
      ExtendsTrans(out, erased, pre, n);
      ExtendsTrans(pre + text, drawn, drawn + [Cha(end + 1)], n);
      RowExtends(u, caps, cells, end, AfterParts(caps, cells, parts, |parts|, w), drawn + [Cha(end + 1)], n);
      ExtendsTrans(pre + text, drawn + [Cha(end + 1)], all, n);
    }
  }

  // ---- A text once taken in stays so ----

  /** Left of column `n` the line is `base`, except that the glyph at `c`, which reaches `n`, may have grown. */
  ghost predicate Grown(base: seq<HostCell>, c: nat, s: Line) {
    var n := |base|;
    && c < n <= s.col && s.Valid() && n < |s.cells| && !s.cells[n].Tail?
    && base[c].Glyph? && s.cells[c].Glyph? && base[c].text <= s.cells[c].text
    && (forall i :: c < i < n ==> base[i].Tail?)
    && (forall i :: 0 <= i < n && i != c ==> s.cells[i] == base[i])
  }

  lemma {:induction false} HealLeftKeeps(cells: seq<HostCell>, n: nat)
    requires n < |cells| && !cells[n].Tail?
    ensures (forall i :: 0 <= i < n ==> HealLeft(cells)[i] == cells[i]) && !HealLeft(cells)[n].Tail?
  {
    var last := |cells| - 1;
    if cells[last].Tail? {
      HealLeftKeeps(cells[..last], n);
    }
  }

  lemma OverwriteGrown(base: seq<HostCell>, c: nat, s: Line, at: nat, put: seq<HostCell>)
    requires Grown(base, c, s) && |base| <= at && at + |put| <= |s.cells| && (put != [] ==> !put[0].Tail?)
    ensures Grown(base, c, s.(cells := Overwrite(s.cells, at, put)))
    ensures Overwrite(s.cells, at, put)[c] == s.cells[c]
  {
    var n := |base|;
    if put != [] {
      var left := if s.cells[at].Tail? then HealLeft(s.cells[..at]) else s.cells[..at];
      if s.cells[at].Tail? {
        HealLeftKeeps(s.cells[..at], n);
      }
      var after := Overwrite(s.cells, at, put);
      assert after == left + put + HealRight(s.cells[at + |put|..]);
      assert forall i :: 0 <= i < at ==> after[i] == left[i];
      assert at == n ==> after[n] == put[0];
    }
  }

  /** Nothing right of a column that no glyph reaches over joins left of it. */
  lemma {:induction false} LeftGlyphFrom(cells: seq<HostCell>, col: nat, n: nat)
    requires n < col <= |cells| && !cells[n].Tail?
    ensures LeftGlyph(cells, col).Some? ==> LeftGlyph(cells, col).value >= n
  {
    if cells[col - 1].Tail? {
      LeftGlyphFrom(cells, col - 1, n);
    }
  }

  lemma {:induction false} LeftGlyphOver(cells: seq<HostCell>, col: nat, c: nat)
    requires c < col <= |cells| && cells[c].Glyph? && forall i :: c < i < col ==> cells[i].Tail?
    ensures LeftGlyph(cells, col) == Some(c)
  {
    if col - 1 > c {
      LeftGlyphOver(cells, col - 1, c);
    }
  }

  /** A grown glyph stays, and only grows. */
  lemma StepGrown(h: Host, cmd: Cmd, base: seq<HostCell>, c: nat, s: Line)
    requires Grown(base, c, s) && StaysFrom(cmd, |base|)
    ensures Grown(base, c, Step(h, cmd, s)) && |Step(h, cmd, s).cells[c].text| >= |s.cells[c].text|
  {
    hide Overwrite, LeftGlyph;
    var n := |base|;
    match cmd
    case Write(text) =>
      if Merges(h, s.cells, s.col, text) {
        if s.col > n { LeftGlyphFrom(s.cells, s.col, n); } else { LeftGlyphOver(s.cells, n, c); }
      } else {
        var a := h.advance(s.col, text);
        if a > 0 && s.col + a <= |s.cells| {
          OverwriteGrown(base, c, s, s.col, [Glyph(text, s.pen)] + Tails(a - 1));
        }
      }
    case Ech(count) =>
      var from := EraseFrom(h, s.cells, s.col);
      OverwriteGrown(base, c, s, from, Blanks(Min(count, |s.cells| - from), s.pen.style.bg));
    case Cha(_) =>
    case El =>
    case Sgr(_) =>
    case Osc8(_, _) =>
  }

  lemma {:induction false} RunGrown(h: Host, cmds: seq<Cmd>, base: seq<HostCell>, c: nat, s: Line)
    requires Grown(base, c, s) && forall i :: 0 <= i < |cmds| ==> StaysFrom(cmds[i], |base|)
    ensures Grown(base, c, Run(h, cmds, s)) && |Run(h, cmds, s).cells[c].text| >= |s.cells[c].text|
    decreases |cmds|
  {
    hide Grown, StaysFrom, Step;
    if cmds != [] {
      StepGrown(h, cmds[0], base, c, s);
      GrownFacts(base, c, s);
      GrownFacts(base, c, Step(h, cmds[0], s));
      RunGrown(h, cmds[1..], base, c, Step(h, cmds[0], s));
    }
  }

  lemma GrownFacts(base: seq<HostCell>, c: nat, s: Line)
    requires Grown(base, c, s)
    ensures s.Valid() && c < |s.cells| && s.cells[c].Glyph?
  {
  }

  lemma ExtendsRun(h: Host, out: seq<Cmd>, all: seq<Cmd>, base: seq<HostCell>, c: nat, s0: Line)
    requires s0.Valid() && Extends(out, all, |base|) && Grown(base, c, Run(h, out, s0))
    ensures (var s, r := Run(h, out, s0), Run(h, all, s0); Grown(base, c, r) && |r.cells[c].text| >= |s.cells[c].text|)
  {
    hide Grown, StaysFrom, Run;
    var more := all[|out|..];
    assert all == out + more;
    RunConcat(h, out, more, s0);
    forall i | 0 <= i < |more| ensures StaysFrom(more[i], |base|) {
      assert more[i] == all[|out| + i];
    }
    RunGrown(h, more, base, c, Run(h, out, s0));
  }

  lemma {:induction false} StillRun(h: Host, cmds: seq<Cmd>, s: Line)
    requires s.Valid() && AllStill(cmds)
    ensures Run(h, cmds, s).col == s.col
    decreases |cmds|
  {
    if cmds != [] {
      assert Still(cmds[0]);
      StillRun(h, cmds[1..], Step(h, cmds[0], s));
    }
  }

  /** The cursor is at `n` where the text at `n` is written. */
  lemma BackRun(h: Host, out: seq<Cmd>, pre: seq<Cmd>, k: nat, n: nat, s0: Line)
    requires s0.Valid() && BackAt(out, pre, k, n) && n < |s0.cells| && Run(h, out, s0).col == n
    ensures Run(h, pre, s0).col == n
  {
    hide Run;
    assert pre == pre[..k] + pre[k..];
    RunConcat(h, pre[..k], pre[k..], s0);
    StillRun(h, pre[k..], Run(h, pre[..k], s0));
    if k == |out| {
      assert pre[..k] == out;
    } else {
      assert pre[..k] == pre[..k - 1] + [Cha(n + 1)];
      RunConcat(h, pre[..k - 1], [Cha(n + 1)], s0);
      Run1(h, Cha(n + 1), Run(h, pre[..k - 1], s0));
    }
  }

  /** A text written where the host joins it to the glyph before goes into that glyph. */
  lemma WriteGrows(h: Host, text: string, base: seq<HostCell>, c: nat, s: Line)
    requires Grown(base, c, s) && s.col == |base| && text != "" && h.joins(base[c].text, text)
    ensures Grown(base, c, Step(h, Write(text), s)) && |Step(h, Write(text), s).cells[c].text| > |base[c].text|
  {
    hide LeftGlyph;
    StepGrown(h, Write(text), base, c, s);
    LeftGlyphOver(s.cells, s.col, c);
    if |s.cells[c].text| == |base[c].text| {
      assert s.cells[c].text == base[c].text;
    }
  }

  /** From the lead at `n` on, with the cell left of it on the host reaching `n` and joining it: the glyph left of it
      ends up with more than its own text. */
  lemma SwallowedForGood(h: Host, u: Unicode, caps: HostCapabilities, cells: seq<Cell>, n: nat, w: Writer,
                         out: seq<Cmd>, s0: Line, base: seq<HostCell>, c: nat)
    requires s0.Valid() && n < |cells| && !cells[n].continuation && |base| == n
    requires Grown(base, c, Run(h, out, s0)) && Run(h, out, s0).col == n
    requires (var text := Drawn(u, cells[n].text, CellWidth(cells, n)); text != "" && h.joins(base[c].text, text))
    ensures (var r := Run(h, RowFrom(u, caps, cells, n, w, out), s0);
             c < |r.cells| && r.cells[c].Glyph? && |r.cells[c].text| > |base[c].text|)
  {
    hide Run, RowFrom, Drawn, Grown, Step, StaysFrom, CellWidth;
    var text := Drawn(u, cells[n].text, CellWidth(cells, n));
    var all := RowFrom(u, caps, cells, n, w, out);
    var pre, back := RowWrites(u, caps, cells, n, w, out);
    ExtendsRun(h, out, pre, base, c, s0);
    var s := Run(h, pre, s0);
    SameLength(h, out, base, c, s0);
    BackRun(h, out, pre, back, n, s0);
    WriteGrows(h, text, base, c, s);
    RunConcat(h, pre, [Write(text)], s0);
    Run1(h, Write(text), s);
    GrownFacts(base, c, Step(h, Write(text), s));
    ExtendsRun(h, pre + [Write(text)], all, base, c, s0);
    GrownFacts(base, c, Run(h, all, s0));
  }

  lemma SameLength(h: Host, out: seq<Cmd>, base: seq<HostCell>, c: nat, s0: Line)
    requires s0.Valid() && Grown(base, c, Run(h, out, s0))
    ensures |base| < |s0.cells|
  {
    hide Run;
  }

  // ---- A row cut between two groups ----

  lemma WidthCut(cells: seq<Cell>, n: nat, p: nat)
    requires p < n < |cells| && !cells[n].continuation
    ensures CellWidth(cells[..n], p) == CellWidth(cells, p) && p + CellWidth(cells, p) <= n
  {
    ContinuationsCut(cells, n, p + 1);
  }

  lemma {:induction false} ContinuationsCut(cells: seq<Cell>, n: nat, i: nat)
    requires i <= n < |cells| && !cells[n].continuation
    ensures Continuations(cells[..n], i) == Continuations(cells, i) && i + Continuations(cells, i) <= n
    decreases n - i
  {
    if i < n && cells[i].continuation {
      ContinuationsCut(cells, n, i + 1);
    }
  }

  /** The cell at `c` ends the first part of the row and joins nothing. */
  predicate EndsAt(u: Unicode, cells: seq<Cell>, c: nat, n: nat) {
    c < n < |cells| && !cells[c].continuation && !cells[n].continuation && c + CellWidth(cells, c) == n
    && JoinedNext(u, cells, c) == None
  }

  /** Leads before the cut are at `c` or before it. */
  lemma LeadBefore(u: Unicode, cells: seq<Cell>, c: nat, n: nat, p: nat)
    requires EndsAt(u, cells, c, n) && p < n && !cells[p].continuation
    ensures p <= c
  {
    hide JoinedNext;
  }

  lemma NextCut(u: Unicode, cells: seq<Cell>, c: nat, n: nat, p: nat)
    requires EndsAt(u, cells, c, n) && p < n && !cells[p].continuation
    ensures JoinedNext(u, cells[..n], p) == JoinedNext(u, cells, p)
    ensures JoinedNext(u, cells, p).Some? ==> JoinedNext(u, cells, p).value < n
  {
    WidthCut(cells, n, p);
    LeadBefore(u, cells, c, n, p);
    var next := p + CellWidth(cells, p);
    hide CellWidth;
    if next == n && p < c {
      WidthCut(cells, c, p);
    }
  }

  lemma {:induction false} JoinedCut(u: Unicode, cells: seq<Cell>, c: nat, n: nat, p: nat)
    requires EndsAt(u, cells, c, n) && p < n && !cells[p].continuation
    ensures Joined(u, cells[..n], p) == Joined(u, cells, p) && RunEnd(u, cells[..n], p) == RunEnd(u, cells, p) <= n
    ensures forall i :: 0 <= i < |Joined(u, cells, p)| ==> Joined(u, cells, p)[i] < n
    decreases n - p
  {
    hide JoinedNext, CellWidth, EndsAt;
    NextCut(u, cells, c, n, p);
    EndsFacts(u, cells, c, n);
    WidthCut(cells, n, p);
    var next := JoinedNext(u, cells, p);
    if next.Some? {
      JoinedCut(u, cells, c, n, next.value);
    }
  }

  lemma EndsFacts(u: Unicode, cells: seq<Cell>, c: nat, n: nat)
    requires EndsAt(u, cells, c, n)
    ensures c < n < |cells| && !cells[n].continuation
  {
  }

  lemma {:induction false} PartsCut(u: Unicode, caps: HostCapabilities, cells: seq<Cell>, n: nat, parts: seq<nat>,
                                    k: nat, w: Writer, out: seq<Cmd>)
    requires n < |cells| && !cells[n].continuation && k <= |parts| && forall i :: 0 <= i < |parts| ==> parts[i] < n
    ensures PartsCmds(u, caps, cells[..n], parts, k, w, out) == PartsCmds(u, caps, cells, parts, k, w, out)
    ensures AfterParts(caps, cells[..n], parts, k, w) == AfterParts(caps, cells, parts, k, w)
  {
    hide CellCmds, CellWidth;
    if k > 0 {
      var p := parts[k - 1];
      WidthCut(cells, n, p);
      PartsCut(u, caps, cells, n, parts, k - 1, AfterCell(caps, cells[p], w),
               CellCmds(u, caps, cells[p], p, CellWidth(cells, p), w, out + [Cha(p + 1)]));
    }
  }

  /** The commands of a row reach the cut, and the row up to the cut is those commands and its end. */
  lemma {:induction false} RowCut(u: Unicode, caps: HostCapabilities, cells: seq<Cell>, column: nat, c: nat, n: nat,
                                  w: Writer, out: seq<Cmd>)
    returns (w1: Writer, out1: seq<Cmd>)
    requires EndsAt(u, cells, c, n) && column <= n
    ensures RowFrom(u, caps, cells, column, w, out) == RowFrom(u, caps, cells, n, w1, out1)
    ensures RowFrom(u, caps, cells[..n], column, w, out) == FinishCmds(w1, out1)
    decreases n - column
  {
    hide CellCmds, PartsCmds, JoinedNext, Joined, RunEnd, CellWidth, RowFrom, AfterParts, FinishCmds, EndsAt, AfterCell;
    EndsFacts(u, cells, c, n);
    var cut := cells[..n];
    RowSkip(u, caps, cells, column, w, out);
    RowSkip(u, caps, cut, column, w, out);
    if column == n {
      w1, out1 := w, out;
    } else if cells[column].continuation {
      w1, out1 := RowCut(u, caps, cells, column + 1, c, n, w, out);
    } else {
      RowStep(u, caps, cells, column, w, out);
      RowStep(u, caps, cut, column, w, out);
      WidthCut(cells, n, column);
      NextCut(u, cells, c, n, column);
      var width := CellWidth(cells, column);
      if JoinedNext(u, cells, column) == None {
        w1, out1 := RowCut(u, caps, cells, column + width, c, n, AfterCell(caps, cells[column], w),
                           CellCmds(u, caps, cells[column], column, width, w, out));
      } else {
        JoinedCut(u, cells, c, n, column);
        var parts, end := Joined(u, cells, column), RunEnd(u, cells, column);
        var erased := out + [Cha(column + 1), Ech(end - column)];
        PartsCut(u, caps, cells, n, parts, |parts|, w, erased);
        w1, out1 := RowCut(u, caps, cells, end, c, n, AfterParts(caps, cells, parts, |parts|, w),
                           PartsCmds(u, caps, cells, parts, |parts|, w, erased) + [Cha(end + 1)]);
      }
    }
  }

  // ---- Exactly which rows are drawn right ----

  predicate SwallowsAt(h: Host, u: Unicode, cells: seq<Cell>, c: nat) {
    c < |cells| && !cells[c].continuation && Swallows(h, u, cells, c)
  }

  lemma {:induction false} FirstSwallow(h: Host, u: Unicode, cells: seq<Cell>, d: nat) returns (c: nat)
    requires SwallowsAt(h, u, cells, d)
    ensures c <= d && SwallowsAt(h, u, cells, c) && forall p :: 0 <= p < c ==> !SwallowsAt(h, u, cells, p)
  {
    hide SwallowsAt;
    c := d;
    if p :| 0 <= p < d && SwallowsAt(h, u, cells, p) {
      c := FirstSwallow(h, u, cells, p);
    }
  }

  lemma SwallowEnds(h: Host, u: Unicode, cells: seq<Cell>, c: nat)
    requires SwallowsAt(h, u, cells, c)
    ensures EndsAt(u, cells, c, c + CellWidth(cells, c))
  {
  }

  lemma CutAt(h: Host, u: Unicode, cells: seq<Cell>, c: nat, p: nat)
    requires SwallowsAt(h, u, cells, c) && p < c + CellWidth(cells, c) && !cells[p].continuation
    requires CoversAt(h, u, cells, p)
    requires p < c ==> !SwallowsAt(h, u, cells, p)
    ensures AdmissibleAt(h, u, cells[..c + CellWidth(cells, c)], p) && p <= c
  {
    hide Drawn, JoinedNext, CellWidth;
    var n := c + CellWidth(cells, c);
    var next := p + CellWidth(cells, p);
    SwallowEnds(h, u, cells, c);
    EndsFacts(u, cells, c, n);
    WidthCut(cells, n, p);
    NextCut(u, cells, c, n, p);
    LeadBefore(u, cells, c, n, p);
    if next < n {
      WidthCut(cells, n, next);
    }
  }

  lemma CutIsWellFormed(cells: seq<Cell>, n: nat)
    requires WellFormed(cells) && n <= |cells|
    ensures WellFormed(cells[..n])
  {
    forall i | 0 <= i < n ensures CellOk(cells[..n], i) {
      assert CellOk(cells, i);
    }
  }

  /** Up to the first cell that swallows the next the row is one the host is right for. */
  lemma CutIsAdmissible(h: Host, u: Unicode, cells: seq<Cell>, c: nat)
    requires WellFormed(cells) && Covers(h, u, cells) && SwallowsAt(h, u, cells, c)
    requires forall p :: 0 <= p < c ==> !SwallowsAt(h, u, cells, p)
    ensures (var n := c + CellWidth(cells, c); WellFormed(cells[..n]) && Admissible(h, u, cells[..n]))
  {
    hide WellFormed, CoversAt, AdmissibleAt, Swallows, CellWidth;
    var n := c + CellWidth(cells, c);
    CutIsWellFormed(cells, n);
    forall p | 0 <= p < n && !cells[..n][p].continuation ensures AdmissibleAt(h, u, cells[..n], p) {
      assert CoversAt(h, u, cells, p);
      CutAt(h, u, cells, c, p);
    }
  }

  /** The line up to the first such cell, and what is on it there. */
  lemma CutIsShown(h: Host, u: Unicode, caps: HostCapabilities, cells: seq<Cell>, line: seq<HostCell>, c: nat)
    requires u.Valid() && WellFormed(cells) && Covers(h, u, cells) && |cells| <= |line| && Edge(line, 0)
    requires SwallowsAt(h, u, cells, c) && forall p :: 0 <= p < c ==> !SwallowsAt(h, u, cells, p)
    ensures (var n := c + CellWidth(cells, c);
             var r := Run(h, RowCmds(u, caps, cells[..n]), Line(line, 0, DEFAULT_PEN, false));
             && n < |cells| && r.col == n && Edge(r.cells, n)
             && r.cells[c] == Glyph(Drawn(u, cells[c].text, CellWidth(cells, c)), PenFor(caps, cells[c]))
             && forall i :: c < i < n ==> r.cells[i].Tail?)
  {
    hide Run, RowFrom, Picture, CellPicture, Drawn, WellFormed, Admissible, Covers, Swallows, CellWidth, Shown, RowCmds;
    var n := c + CellWidth(cells, c);
    SwallowEnds(h, u, cells, c);
    EndsFacts(u, cells, c, n);
    WidthCut(cells, n, c);
    CutIsAdmissible(h, u, cells, c);
    RowReplays(h, u, caps, cells[..n], line);
    RowsShownBy(h, u, caps, cells[..n], line, c);
    SwallowAdvance(h, u, cells, c);
    var r := Run(h, RowCmds(u, caps, cells[..n]), Line(line, 0, DEFAULT_PEN, false));
    GlyphColumns(h, u, caps, cells[..n], c, r.cells);
  }

  /** The row's commands have come to the cell behind `c`: the rest of them, and the line `s` they start from. */
  ghost predicate Reached(u: Unicode, caps: HostCapabilities, cells: seq<Cell>, c: nat, w: Writer, out: seq<Cmd>,
                          s: Line)
    requires c < |cells|
  {
    var n := c + CellWidth(cells, c);
    && RowCmds(u, caps, cells) == RowFrom(u, caps, cells, n, w, out)
    && n <= |s.cells| && s.col == n && Grown(s.cells[..n], c, s)
    && s.cells[c].text == Drawn(u, cells[c].text, CellWidth(cells, c))
  }

  lemma ReachesSwallow(h: Host, u: Unicode, caps: HostCapabilities, cells: seq<Cell>, line: seq<HostCell>, c: nat)
    returns (w: Writer, out: seq<Cmd>)
    requires u.Valid() && WellFormed(cells) && Covers(h, u, cells) && |cells| <= |line| && Edge(line, 0)
    requires SwallowsAt(h, u, cells, c) && forall p :: 0 <= p < c ==> !SwallowsAt(h, u, cells, p)
    ensures Reached(u, caps, cells, c, w, out, Run(h, out, Line(line, 0, DEFAULT_PEN, false)))
  {
    hide Run, RowFrom, Drawn, FinishCmds, WellFormed, Covers, Swallows, CellWidth, Grown, JoinedNext;
    var n := c + CellWidth(cells, c);
    SwallowEnds(h, u, cells, c);
    EndsFacts(u, cells, c, n);
    w, out := RowCut(u, caps, cells, 0, c, n, FRESH, []);
    CutIsShown(h, u, caps, cells, line, c);
    var s0 := Line(line, 0, DEFAULT_PEN, false);
    FinishMoves(h, w, out, s0);
    SwallowAdvance(h, u, cells, c);
    GrownHere(Run(h, out, s0), c, n);
  }

  /** A glyph that reaches the cursor and has not grown yet. */
  lemma GrownHere(s: Line, c: nat, n: nat)
    requires c < n == s.col && s.Valid() && n < |s.cells| && Edge(s.cells, n)
    requires s.cells[c].Glyph? && forall i :: c < i < n ==> s.cells[i].Tail?
    ensures Grown(s.cells[..n], c, s)
  {
  }

  lemma SwallowAdvance(h: Host, u: Unicode, cells: seq<Cell>, c: nat)
    requires SwallowsAt(h, u, cells, c)
    ensures (var width := CellWidth(cells, c);
             h.advance(c, Drawn(u, cells[c].text, width)) == width && !cells[c].continuation)
  {
  }

  lemma SwallowJoins(h: Host, u: Unicode, cells: seq<Cell>, c: nat)
    requires u.Valid() && WellFormed(cells) && SwallowsAt(h, u, cells, c)
    ensures (var n := c + CellWidth(cells, c);
             n < |cells| && !cells[n].continuation
             && (var text := Drawn(u, cells[n].text, CellWidth(cells, n));
                 text != "" && h.joins(Drawn(u, cells[c].text, CellWidth(cells, c)), text)))
  {
    hide Drawn;
    var n := c + CellWidth(cells, c);
    assert CellOk(cells, n);
    DrawnIsText(u, cells[n].text, CellWidth(cells, n));
  }

  /** The end of a row only puts the pen down. */
  lemma FinishMoves(h: Host, w: Writer, out: seq<Cmd>, s0: Line)
    requires s0.Valid()
    ensures (var s, r := Run(h, out, s0), Run(h, FinishCmds(w, out), s0); r.cells == s.cells && r.col == s.col)
  {
    hide Run;
    var s := Run(h, out, s0);
    var closed := if w.link.Some? then HyperlinkCmds(None) else [];
    var reset := if w.style != PLAIN then [Sgr([P(0)])] else [];
    RunConcat(h, out, closed, s0);
    var s1 := Run(h, closed, s);
    assert s1.cells == s.cells && s1.col == s.col by {
      if w.link.Some? { LinkReplay(h, None, s); } else { RunNone(h, s); }
    }
    RunConcat(h, out + closed, reset, s0);
    if w.style != PLAIN { Run1(h, Sgr([P(0)]), s1); } else { RunNone(h, s1); }
  }

  /** A replayed row shows each of its cells. */
  lemma {:induction false} RowsShownBy(h: Host, u: Unicode, caps: HostCapabilities, cells: seq<Cell>,
                                       line: seq<HostCell>, c: nat)
    requires u.Valid() && WellFormed(cells) && Admissible(h, u, cells) && |cells| <= |line| && Edge(line, 0)
    requires c < |cells| && !cells[c].continuation
    ensures Shown(h, u, caps, cells, c, Run(h, RowCmds(u, caps, cells), Line(line, 0, DEFAULT_PEN, false)).cells)
  {
    hide Run, RowFrom, Shown, Picture, CellPicture, CoversAt, Swallows, Merges;
    RowReplays(h, u, caps, cells, line);
    var r := Run(h, RowCmds(u, caps, cells), Line(line, 0, DEFAULT_PEN, false));
    assert CellOk(cells, 0);
    assert ColumnsAre(r.cells, 0, Picture(h, u, caps, cells, 0)) by {
      assert Picture(h, u, caps, cells, 0) == r.cells[..|cells|];
    }
    forall p | 0 <= p < |cells| && !cells[p].continuation ensures CoversAt(h, u, cells, p) {
      assert AdmissibleAt(h, u, cells, p);
    }
    PictureOf(h, u, caps, cells, 0, c, r.cells);
  }

  /** A shown cell whose text covers all its columns. */
  lemma GlyphColumns(h: Host, u: Unicode, caps: HostCapabilities, cells: seq<Cell>, c: nat, line: seq<HostCell>)
    requires c < |cells| <= |line| && Shown(h, u, caps, cells, c, line)
    requires h.advance(c, Drawn(u, cells[c].text, CellWidth(cells, c))) == CellWidth(cells, c)
    ensures line[c] == Glyph(Drawn(u, cells[c].text, CellWidth(cells, c)), PenFor(caps, cells[c]))
    ensures forall i :: c < i < c + CellWidth(cells, c) ==> line[i].Tail?
  {
    hide Drawn;
  }

  /** Every lead writes something. */
  lemma DrawnIsText(u: Unicode, text: string, width: nat)
    requires u.Valid() && width > 0 && text != ""
    ensures Drawn(u, text, width) != ""
  {
    assert |Repeat(REPLACEMENT, width)| == width;
    if Narrowed(text) == "" {
      assert u.GraphemeWidth(text) == 1;
    }
  }

  /** Exactly when a row is drawn right on a host that covers its texts: when the host takes no cell's text into the
      cell before it. The first cell it takes in is never shown. */
  lemma RowReplaysIff(h: Host, u: Unicode, caps: HostCapabilities, cells: seq<Cell>, line: seq<HostCell>)
    requires u.Valid() && WellFormed(cells) && Covers(h, u, cells) && |cells| <= |line| && Edge(line, 0)
    ensures Run(h, RowCmds(u, caps, cells), Line(line, 0, DEFAULT_PEN, false)).cells[..|cells|]
         == Picture(h, u, caps, cells, 0)
       <==> forall c :: 0 <= c < |cells| ==> !SwallowsAt(h, u, cells, c)
  {
    hide Run, RowFrom, Picture, Drawn, Grown, CoversAt, WellFormed;
    if d :| 0 <= d < |cells| && SwallowsAt(h, u, cells, d) {
      var c := FirstSwallow(h, u, cells, d);
      RowFails(h, u, caps, cells, line, c);
    } else {
      forall c | 0 <= c < |cells| && !cells[c].continuation ensures AdmissibleAt(h, u, cells, c) {
        assert !SwallowsAt(h, u, cells, c) && CoversAt(h, u, cells, c);
      }
      RowReplays(h, u, caps, cells, line);
    }
  }

  lemma RowFails(h: Host, u: Unicode, caps: HostCapabilities, cells: seq<Cell>, line: seq<HostCell>, c: nat)
    requires u.Valid() && WellFormed(cells) && Covers(h, u, cells) && |cells| <= |line| && Edge(line, 0)
    requires SwallowsAt(h, u, cells, c) && forall p :: 0 <= p < c ==> !SwallowsAt(h, u, cells, p)
    ensures Run(h, RowCmds(u, caps, cells), Line(line, 0, DEFAULT_PEN, false)).cells[..|cells|]
         != Picture(h, u, caps, cells, 0)
  {
    hide Run, RowFrom, Picture, Drawn, Grown, CoversAt, WellFormed, Covers, JoinedNext;
    var n := c + CellWidth(cells, c);
    var s0 := Line(line, 0, DEFAULT_PEN, false);
    var w, out := ReachesSwallow(h, u, caps, cells, line, c);
    SwallowAdvance(h, u, cells, c);
    var s := Run(h, out, s0);
    SwallowJoins(h, u, cells, c);
    SwallowedForGood(h, u, caps, cells, n, w, out, s0, s.cells[..n], c);
    CellInPicture(h, u, caps, cells, c);
  }
}
