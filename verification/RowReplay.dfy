/** The row replay theorem: replaying `RowCmds` on an admissible host leaves exactly `Picture`. */
module RowReplay {
  import opened Text
  import opened Style
  import opened Cells
  import opened Host
  import opened Render
  import opened Replay

  // ---- Columns ----

  /** No glyph reaches over `col` from the left. */
  predicate Edge(cells: seq<HostCell>, col: nat) {
    col < |cells| ==> !cells[col].Tail?
  }

  /** `new` is `old` with `pic` drawn at `at`. Right of it only a glyph that was cut may have changed. */
  ghost predicate Draws(old_: seq<HostCell>, new_: seq<HostCell>, at: nat, pic: seq<HostCell>) {
    && |new_| == |old_| && at + |pic| <= |old_|
    && (forall i :: 0 <= i < at ==> new_[i] == old_[i])
    && (forall i :: at <= i < at + |pic| ==> new_[i] == pic[i - at])
    && Edge(new_, at + |pic|)
    && (Edge(old_, at + |pic|) ==> forall i :: at + |pic| <= i < |old_| ==> new_[i] == old_[i])
  }

  lemma OverwriteDraws(cells: seq<HostCell>, at: nat, put: seq<HostCell>)
    requires put != [] && at + |put| <= |cells| && Edge(cells, at)
    ensures Draws(cells, Overwrite(cells, at, put), at, put)
  {
    var end := at + |put|;
    var rest := HealRight(cells[end..]);
    var r := Overwrite(cells, at, put);
    assert r == cells[..at] + put + rest;
    if end < |cells| {
      assert r[end] == rest[0];
    }
    if Edge(cells, end) {
      assert rest == cells[end..];
    }
  }

  /** Drawing a narrower picture inside a blanked stretch. */
  lemma DrawsInside(c0: seq<HostCell>, c1: seq<HostCell>, c2: seq<HostCell>, at: nat, glyph: seq<HostCell>,
                    bg: Option<TerminalColor>, width: nat)
    requires 0 < |glyph| < width
    requires Draws(c0, c1, at, Blanks(width, bg)) && Draws(c1, c2, at, glyph)
    ensures Draws(c0, c2, at, glyph + Blanks(width - |glyph|, bg))
  {
    assert c1[at + |glyph|] == Blank(bg);
    assert Edge(c1, at + |glyph|);
  }

  lemma DrawsOver(c0: seq<HostCell>, c1: seq<HostCell>, c2: seq<HostCell>, at: nat, a: seq<HostCell>, b: seq<HostCell>)
    requires |a| == |b| && Draws(c0, c1, at, a) && Draws(c1, c2, at, b)
    ensures Draws(c0, c2, at, b)
  {
  }

  lemma {:induction false} LeftGlyphPrefix(a: seq<HostCell>, b: seq<HostCell>, col: nat)
    requires col <= |a| && col <= |b| && (forall i :: 0 <= i < col ==> a[i] == b[i])
    ensures LeftGlyph(a, col) == LeftGlyph(b, col)
    ensures LeftGlyph(a, col).Some? ==> a[LeftGlyph(a, col).value] == b[LeftGlyph(a, col).value]
  {
    if col > 0 && a[col - 1].Tail? {
      LeftGlyphPrefix(a, b, col - 1);
    }
  }

  lemma MergesPrefix(h: Host, a: seq<HostCell>, b: seq<HostCell>, col: nat, text: string)
    requires col <= |a| && col <= |b| && (forall i :: 0 <= i < col ==> a[i] == b[i])
    ensures Merges(h, a, col, text) == Merges(h, b, col, text)
  {
    LeftGlyphPrefix(a, b, col);
  }

  lemma {:induction false} LeftThroughTails(cells: seq<HostCell>, c: nat, n: nat)
    requires 1 <= n && c + n <= |cells| && cells[c].Glyph?
    requires forall i :: c < i < c + n ==> cells[i].Tail?
    ensures LeftGlyph(cells, c + n) == Some(c)
    decreases n
  {
    if n > 1 { LeftThroughTails(cells, c, n - 1); }
  }

  // ---- One cell ----

  ghost predicate PenMatches(caps: HostCapabilities, w: Writer, pen: Pen) {
    pen.style == w.style && pen.link == ShownLink(w.link) && (!caps.hyperlinks ==> w.link == None)
  }

  /** The host's cursor is at `col`, or held at the last column by the edge of the screen. */
  predicate At(s: Line, col: nat) {
    s.col == col || (col == |s.cells| && col == s.col + 1)
  }

  lemma PictureWidth(h: Host, u: Unicode, caps: HostCapabilities, cells: seq<Cell>, c: nat)
    requires c < |cells| && u.Valid() && WellFormed(cells) && !cells[c].continuation && CoversAt(h, u, cells, c)
    ensures |CellPicture(h, u, caps, cells, c)| == CellWidth(cells, c)
    ensures h.advance(c, Drawn(u, cells[c].text, CellWidth(cells, c))) <= CellWidth(cells, c)
  {
    var width := CellWidth(cells, c);
    assert CellOk(cells, c);
    if !Trusted(u, cells[c].text, width) {
      LimitFits(u, cells[c].text, width);
    }
  }

  /** Text written into columns erased for it. */
  lemma ErasedReplay(h: Host, text: string, c: nat, width: nat, s: Line, s1: Line)
    requires s.Valid() && s1.Valid() && s1.col == c && s1.pen == s.pen && 0 < width && Edge(s.cells, c)
    requires Draws(s.cells, s1.cells, c, Blanks(width, s.pen.style.bg))
    requires h.advance(c, text) <= width && !Merges(h, s.cells, c, text)
    ensures (var s2 := Step(h, Write(text), s1);
             && Draws(s.cells, s2.cells, c, GlyphPicture(h.advance(c, text), text, s.pen, width))
             && s2.pen == s.pen && s2.overflow == s1.overflow)
  {
    hide Overwrite, Merges;
    var a, bg := h.advance(c, text), s.pen.style.bg;
    MergesPrefix(h, s.cells, s1.cells, c, text);
    assert s1.cells[c] == Blank(bg);
    var s2 := Step(h, Write(text), s1);
    if a > 0 {
      var glyph := [Glyph(text, s.pen)] + Tails(a - 1);
      OverwriteDraws(s1.cells, c, glyph);
      if a < width {
        DrawsInside(s.cells, s1.cells, s2.cells, c, glyph, bg, width);
      } else {
        DrawsOver(s.cells, s1.cells, s2.cells, c, Blanks(width, bg), glyph);
        assert glyph + [] == glyph;
      }
    }
  }

  /** Erase, write, move on: odd text stays in the cell's columns. */
  lemma OddReplay(h: Host, text: string, c: nat, width: nat, s: Line)
    requires s.Valid() && s.col == c && 0 < width && c + width <= |s.cells| && Edge(s.cells, c)
    requires h.advance(c, text) <= width && !Merges(h, s.cells, c, text)
    ensures (var r := Run(h, [Ech(width), Write(text), Cha(c + width + 1)], s);
             && Draws(s.cells, r.cells, c, GlyphPicture(h.advance(c, text), text, s.pen, width))
             && At(r, c + width) && r.pen == s.pen && r.overflow == s.overflow)
  {
    hide Overwrite, Draws, GlyphPicture, Merges;
    Run3(h, Ech(width), Write(text), Cha(c + width + 1), s);
    OverwriteDraws(s.cells, c, Blanks(width, s.pen.style.bg));
    ErasedReplay(h, text, c, width, s, Step(h, Ech(width), s));
  }

  lemma Run3(h: Host, a: Cmd, b: Cmd, c: Cmd, s: Line)
    requires s.Valid()
    ensures Run(h, [a, b, c], s) == Step(h, c, Step(h, b, Step(h, a, s)))
  {
    hide Step;
    assert [a, b, c][1..] == [b, c];
    assert [b, c][1..] == [c];
    Run1(h, c, Step(h, b, Step(h, a, s)));
  }

  /** Text the host covers as many columns with as the cell has, written without more ado. */
  lemma TrustedReplay(h: Host, text: string, c: nat, width: nat, s: Line)
    requires s.Valid() && s.col == c && Edge(s.cells, c) && !Merges(h, s.cells, c, text)
    requires 0 < width == h.advance(c, text) && c + width <= |s.cells|
    ensures (var r := Run(h, [Write(text)], s);
             && Draws(s.cells, r.cells, c, GlyphPicture(width, text, s.pen, width))
             && At(r, c + width) && r.pen == s.pen && r.overflow == s.overflow)
  {
    hide Run, Overwrite, Merges;
    Run1(h, Write(text), s);
    var glyph := [Glyph(text, s.pen)] + Tails(width - 1);
    OverwriteDraws(s.cells, c, glyph);
    assert glyph + [] == glyph;
  }

  /** The text commands of a cell draw its picture and put the cursor behind it. */
  lemma TextReplay(h: Host, u: Unicode, caps: HostCapabilities, cells: seq<Cell>, c: nat, s: Line)
    requires c < |cells| && u.Valid() && WellFormed(cells) && !cells[c].continuation && AdmissibleAt(h, u, cells, c)
    requires s.Valid() && s.col == c && |cells| <= |s.cells| && Edge(s.cells, c) && s.pen == PenFor(caps, cells[c])
    requires !Merges(h, s.cells, c, Drawn(u, cells[c].text, CellWidth(cells, c)))
    ensures (var r := Run(h, TextCmds(u, cells[c].text, c, CellWidth(cells, c)), s);
             && |CellPicture(h, u, caps, cells, c)| == CellWidth(cells, c)
             && Draws(s.cells, r.cells, c, CellPicture(h, u, caps, cells, c))
             && At(r, c + CellWidth(cells, c)) && r.pen == s.pen && r.overflow == s.overflow)
  {
    hide Run, Draws, Merges, GlyphPicture, CellWidth, Limit, Swallows, Drawn;
    var width := CellWidth(cells, c);
    var text := Drawn(u, cells[c].text, width);
    PictureWidth(h, u, caps, cells, c);
    assert CellOk(cells, c);
    if Trusted(u, cells[c].text, width) {
      TrustedReplay(h, text, c, width, s);
    } else {
      OddReplay(h, text, c, width, s);
    }
  }

  lemma LinkReplay(h: Host, link: Option<Hyperlink>, s: Line)
    requires s.Valid()
    ensures Run(h, HyperlinkCmds(link), s) == s.(pen := s.pen.(link := ShownLink(link)))
  {
    match link
    case None => Run1(h, Osc8("", ""), s);
    case Some(l) => Run1(h, Osc8(LinkId(l), WithoutControls(l.uri)), s);
  }

  /** What a row needs of the host before the cell at `c`. */
  ghost predicate Ready(h: Host, u: Unicode, caps: HostCapabilities, cells: seq<Cell>, c: nat, w: Writer, s: Line)
    requires c < |cells|
  {
    && s.Valid() && |cells| <= |s.cells| && s.col == c && Edge(s.cells, c) && PenMatches(caps, w, s.pen)
    && !Merges(h, s.cells, c, Drawn(u, cells[c].text, CellWidth(cells, c)))
  }

  lemma CellReplay(h: Host, u: Unicode, caps: HostCapabilities, cells: seq<Cell>, c: nat, w: Writer, out: seq<Cmd>,
                   s0: Line)
    requires c < |cells| && u.Valid() && WellFormed(cells) && !cells[c].continuation && AdmissibleAt(h, u, cells, c)
    requires s0.Valid() && Ready(h, u, caps, cells, c, w, Run(h, out, s0))
    ensures (var s := Run(h, out, s0);
             var r := Run(h, CellCmds(u, caps, cells[c], c, CellWidth(cells, c), w, out), s0);
             && |CellPicture(h, u, caps, cells, c)| == CellWidth(cells, c)
             && Draws(s.cells, r.cells, c, CellPicture(h, u, caps, cells, c))
             && At(r, c + CellWidth(cells, c)) && PenMatches(caps, AfterCell(caps, cells[c], w), r.pen)
             && r.overflow == s.overflow)
  {
    hide Run, StyleTransition, HyperlinkCmds, TextCmds, Draws, CellPicture, Merges, Drawn;
    var s, cell := Run(h, out, s0), cells[c];
    var styled := StyleTransition(w.style, cell.style.ForHost(caps));
    RunConcat(h, out, styled, s0);
    StyleReplay(h, w.style, cell.style.ForHost(caps), s);
    var s1 := WithStyle(s, cell.style.ForHost(caps));
    var linked := if caps.hyperlinks && cell.link != w.link then HyperlinkCmds(cell.link) else [];
    RunConcat(h, out + styled, linked, s0);
    var s2 := s1.(pen := PenFor(caps, cell));
    assert Run(h, linked, s1) == s2 by {
      if caps.hyperlinks && cell.link != w.link {
        LinkReplay(h, cell.link, s1);
      } else {
        RunNone(h, s1);
      }
    }
    RunConcat(h, out + styled + linked, TextCmds(u, cell.text, c, CellWidth(cells, c)), s0);
    TextReplay(h, u, caps, cells, c, s2);
  }

  lemma RunNone(h: Host, s: Line)
    requires s.Valid()
    ensures Run(h, [], s) == s
  {
  }

  // ---- Joined runs ----

  /** The line shows the cell at `p` as its picture. */
  ghost predicate Shown(h: Host, u: Unicode, caps: HostCapabilities, cells: seq<Cell>, p: nat, line: seq<HostCell>)
    requires p < |cells| <= |line|
  {
    var pic := CellPicture(h, u, caps, cells, p);
    |pic| == CellWidth(cells, p) && forall i :: p <= i < p + |pic| ==> line[i] == pic[i - p]
  }

  lemma {:induction false} JoinedLinks(u: Unicode, cells: seq<Cell>, column: nat)
    requires column < |cells| && !cells[column].continuation
    ensures (var parts := Joined(u, cells, column);
             && (forall j :: 0 <= j < |parts| ==> !cells[parts[j]].continuation)
             && (forall j :: 0 <= j < |parts| - 1 ==> JoinedNext(u, cells, parts[j]) == Some(parts[j + 1]))
             && JoinedNext(u, cells, parts[|parts| - 1]) == None)
    decreases |cells| - column
  {
    hide CellWidth;
    var next := JoinedNext(u, cells, column);
    if next.Some? {
      JoinedLinks(u, cells, next.value);
      var rest := Joined(u, cells, next.value);
      var parts := Joined(u, cells, column);
      assert parts == [column] + rest;
      forall j | 0 <= j < |parts| - 1
        ensures JoinedNext(u, cells, parts[j]) == Some(parts[j + 1])
      {
        if j > 0 { assert parts[j] == rest[j - 1] && parts[j + 1] == rest[j]; }
      }
    }
  }

  /** Where the columns end that the first `k` parts of the run at `column` are for. */
  function PartsEnd(u: Unicode, cells: seq<Cell>, column: nat, k: nat): nat
    requires column < |cells| && k <= |Joined(u, cells, column)|
  {
    if k == |Joined(u, cells, column)| then RunEnd(u, cells, column) else Joined(u, cells, column)[k]
  }

  lemma PartEnds(u: Unicode, cells: seq<Cell>, column: nat, k: nat)
    requires column < |cells| && !cells[column].continuation && 0 < k <= |Joined(u, cells, column)|
    ensures (var p := Joined(u, cells, column)[k - 1];
             !cells[p].continuation && PartsEnd(u, cells, column, k) == p + CellWidth(cells, p))
  {
    JoinedLinks(u, cells, column);
    JoinedEnds(u, cells, column);
  }

  /** Before the first `k` parts are written: their columns are blank, the rest of the run is drawn. */
  ghost predicate PartsReady(h: Host, u: Unicode, caps: HostCapabilities, cells: seq<Cell>, column: nat, k: nat,
                             w: Writer, s: Line)
    requires column < |cells| && k <= |Joined(u, cells, column)|
  {
    && s.Valid() && |cells| <= |s.cells| && PenMatches(caps, w, s.pen)
    && (forall i :: column <= i < PartsEnd(u, cells, column, k) && i < |s.cells| ==> s.cells[i].Blank?)
    && Edge(s.cells, PartsEnd(u, cells, column, k))
    && !Merges(h, s.cells, column, Drawn(u, cells[column].text, CellWidth(cells, column)))
  }

  lemma PartClean(h: Host, u: Unicode, caps: HostCapabilities, cells: seq<Cell>, column: nat, k: nat, w: Writer,
                  s: Line)
    requires column < |cells| && !cells[column].continuation
    requires 0 < k <= |Joined(u, cells, column)| && PartsReady(h, u, caps, cells, column, k, w, s)
    ensures (var p := Joined(u, cells, column)[k - 1];
             Edge(s.cells, p) && !Merges(h, s.cells, p, Drawn(u, cells[p].text, CellWidth(cells, p))))
  {
    hide Joined, RunEnd, Drawn, CellWidth, PenMatches;
    var p := Joined(u, cells, column)[k - 1];
    PartEnds(u, cells, column, k);
    if k > 1 {
      PartLeft(u, cells, column, k);
      assert s.cells[p - 1].Blank?;
    }
  }

  lemma ShownKept(h: Host, u: Unicode, caps: HostCapabilities, cells: seq<Cell>, p: nat, a: seq<HostCell>,
                  b: seq<HostCell>)
    requires p < |cells| <= |a| && |a| == |b| && Shown(h, u, caps, cells, p, a)
    requires forall i :: p <= i < p + CellWidth(cells, p) ==> a[i] == b[i]
    ensures Shown(h, u, caps, cells, p, b)
  {
  }

  lemma DrawnShown(h: Host, u: Unicode, caps: HostCapabilities, cells: seq<Cell>, p: nat, a: seq<HostCell>,
                   b: seq<HostCell>)
    requires p < |cells| <= |a| && |CellPicture(h, u, caps, cells, p)| == CellWidth(cells, p)
    requires Draws(a, b, p, CellPicture(h, u, caps, cells, p))
    ensures Shown(h, u, caps, cells, p, b)
  {
  }

  lemma PictureStart(h: Host, u: Unicode, caps: HostCapabilities, cells: seq<Cell>, p: nat)
    requires p < |cells| && |CellPicture(h, u, caps, cells, p)| > 0
    ensures !CellPicture(h, u, caps, cells, p)[0].Tail?
  {
  }

  /** One part of a run: written into blank columns, it has nothing on its left to join. */
  lemma PartReplay(h: Host, u: Unicode, caps: HostCapabilities, cells: seq<Cell>, column: nat, k: nat, w: Writer,
                   out: seq<Cmd>, s0: Line)
    requires column < |cells| && u.Valid() && WellFormed(cells) && !cells[column].continuation
    requires Admissible(h, u, cells)
    requires 0 < k <= |Joined(u, cells, column)| && s0.Valid()
    requires PartsReady(h, u, caps, cells, column, k, w, Run(h, out, s0))
    ensures (var p := Joined(u, cells, column)[k - 1];
             var s := Run(h, out, s0);
             var r := Run(h, CellCmds(u, caps, cells[p], p, CellWidth(cells, p), w, out + [Cha(p + 1)]), s0);
             && |CellPicture(h, u, caps, cells, p)| == CellWidth(cells, p)
             && Draws(s.cells, r.cells, p, CellPicture(h, u, caps, cells, p))
             && Edge(s.cells, p + CellWidth(cells, p))
             && PartsReady(h, u, caps, cells, column, k - 1, AfterCell(caps, cells[p], w), r)
             && r.overflow == s.overflow)
  {
    hide Run, CellCmds, CellPicture, Drawn, CellWidth, Joined, RunEnd, PenMatches, AfterCell, Merges, WellFormed,
         Continuations;
    var p := Joined(u, cells, column)[k - 1];
    PartEnds(u, cells, column, k);
    var s := Run(h, out, s0);
    RunConcat(h, out, [Cha(p + 1)], s0);
    Run1(h, Cha(p + 1), s);
    var s1 := s.(col := p);
    assert Run(h, out + [Cha(p + 1)], s0) == s1;
    PartClean(h, u, caps, cells, column, k, w, s);
    CellReplay(h, u, caps, cells, p, w, out + [Cha(p + 1)], s0);
    var r := Run(h, CellCmds(u, caps, cells[p], p, CellWidth(cells, p), w, out + [Cha(p + 1)]), s0);
    assert PartsEnd(u, cells, column, k - 1) == p;
    PictureStart(h, u, caps, cells, p);
    assert Edge(r.cells, p);
    MergesPrefix(h, s.cells, r.cells, column, Drawn(u, cells[column].text, CellWidth(cells, column)));
  }

  lemma {:induction false} PartLeft(u: Unicode, cells: seq<Cell>, column: nat, k: nat)
    requires column < |cells| && !cells[column].continuation && 1 < k <= |Joined(u, cells, column)|
    ensures column < Joined(u, cells, column)[k - 1]
    decreases k
  {
    JoinedLinks(u, cells, column);
    if k > 2 { PartLeft(u, cells, column, k - 1); }
  }

  /** The first `k` parts of a run, written right to left, are all shown, and nothing else changes. */
  lemma {:induction false} PartsReplay(h: Host, u: Unicode, caps: HostCapabilities, cells: seq<Cell>, column: nat,
                                       k: nat, w: Writer, out: seq<Cmd>, s0: Line)
    requires column < |cells| && u.Valid() && WellFormed(cells) && !cells[column].continuation
    requires Admissible(h, u, cells)
    requires k <= |Joined(u, cells, column)| && s0.Valid()
    requires PartsReady(h, u, caps, cells, column, k, w, Run(h, out, s0))
    ensures (var parts := Joined(u, cells, column);
             var s, r := Run(h, out, s0), Run(h, PartsCmds(u, caps, cells, parts, k, w, out), s0);
             && (forall i :: 0 <= i < column ==> r.cells[i] == s.cells[i])
             && (forall i :: PartsEnd(u, cells, column, k) <= i < |s.cells| ==> r.cells[i] == s.cells[i])
             && (forall j :: 0 <= j < k ==> Shown(h, u, caps, cells, parts[j], r.cells))
             && PenMatches(caps, AfterParts(caps, cells, parts, k, w), r.pen)
             && r.overflow == s.overflow)
    decreases k
  {
    hide Run, CellCmds, CellPicture, Drawn, CellWidth, Merges, Joined, RunEnd, PenMatches, AfterCell, WellFormed, Shown,
         Admissible, AdmissibleAt;
    if k > 0 {
      var parts := Joined(u, cells, column);
      var p := parts[k - 1];
      PartEnds(u, cells, column, k);
      PartReplay(h, u, caps, cells, column, k, w, out, s0);
      var next := CellCmds(u, caps, cells[p], p, CellWidth(cells, p), w, out + [Cha(p + 1)]);
      PartsReplay(h, u, caps, cells, column, k - 1, AfterCell(caps, cells[p], w), next, s0);
      var s, mid := Run(h, out, s0), Run(h, next, s0);
      var r := Run(h, PartsCmds(u, caps, cells, parts, k, w, out), s0);
      assert r == Run(h, PartsCmds(u, caps, cells, parts, k - 1, AfterCell(caps, cells[p], w), next), s0);
      DrawnShown(h, u, caps, cells, p, s.cells, mid.cells);
      ShownKept(h, u, caps, cells, p, mid.cells, r.cells);
    }
  }

  lemma LeadOfGroup(cells: seq<Cell>, p: nat, q: nat)
    requires p < |cells| && p <= q < p + CellWidth(cells, p) && !cells[q].continuation
    ensures p == q
  {
  }

  /** The parts of a run are all the lead cells it covers. */
  lemma {:induction false} RunLeads(u: Unicode, cells: seq<Cell>, column: nat, q: nat)
    requires column <= q < |cells| && q < RunEnd(u, cells, column) && !cells[q].continuation
    ensures q in Joined(u, cells, column)
    decreases |cells| - column
  {
    if q < column + CellWidth(cells, column) {
      LeadOfGroup(cells, column, q);
    } else {
      RunLeads(u, cells, JoinedNext(u, cells, column).value, q);
    }
  }

  // ---- The row ----

  /** A cell that does not join the next one leaves it nothing to join on the host either. */
  lemma NextClean(h: Host, u: Unicode, caps: HostCapabilities, cells: seq<Cell>, p: nat, line: seq<HostCell>)
    requires p < |cells| <= |line| && Shown(h, u, caps, cells, p, line) && AdmissibleAt(h, u, cells, p)
    requires JoinedNext(u, cells, p) == None
    requires h.advance(p, Drawn(u, cells[p].text, CellWidth(cells, p))) <= CellWidth(cells, p)
    ensures (var n := p + CellWidth(cells, p);
             n < |cells| ==> !Merges(h, line, n, Drawn(u, cells[n].text, CellWidth(cells, n))))
  {
    hide Drawn, JoinedNext;
    var width := CellWidth(cells, p);
    var text := Drawn(u, cells[p].text, width);
    var a := h.advance(p, text);
    if p + width < |cells| {
      if a == 0 || a < width {
        assert line[p + width - 1].Blank?;
      } else {
        assert line[p] == Glyph(text, PenFor(caps, cells[p]));
        LeftThroughTails(line, p, width);
      }
    }
  }

  /** After a group that ends at `next`: everything from `column` on is shown, and the host is ready for
      the next group. */
  ghost predicate GroupDone(h: Host, u: Unicode, caps: HostCapabilities, cells: seq<Cell>, column: nat, next: nat,
                            w: Writer, s: Line, r: Line)
    requires s.Valid() && r.Valid() && |s.cells| == |r.cells| && column <= next <= |cells| <= |s.cells|
  {
    && (forall i :: 0 <= i < column ==> r.cells[i] == s.cells[i])
    && (forall p :: column <= p < next && !cells[p].continuation ==> Shown(h, u, caps, cells, p, r.cells))
    && PenMatches(caps, w, r.pen) && r.overflow == s.overflow && At(r, next) && Edge(r.cells, next)
    && (next < |cells| ==> !cells[next].continuation && Ready(h, u, caps, cells, next, w, r))
  }

  lemma PlainReplay(h: Host, u: Unicode, caps: HostCapabilities, cells: seq<Cell>, c: nat, w: Writer, out: seq<Cmd>,
                    s0: Line)
    requires c < |cells| && u.Valid() && WellFormed(cells) && !cells[c].continuation && Admissible(h, u, cells)
    requires s0.Valid() && JoinedNext(u, cells, c) == None
    requires Ready(h, u, caps, cells, c, w, Run(h, out, s0))
    ensures GroupDone(h, u, caps, cells, c, c + CellWidth(cells, c), AfterCell(caps, cells[c], w), Run(h, out, s0),
                      Run(h, CellCmds(u, caps, cells[c], c, CellWidth(cells, c), w, out), s0))
  {
    hide Run, CellCmds, CellPicture, Drawn, JoinedNext, PenMatches, AfterCell, Merges, Shown, WellFormed, CoversAt,
         Swallows, CellWidth;
    assert AdmissibleAt(h, u, cells, c);
    var s, r := Run(h, out, s0), Run(h, CellCmds(u, caps, cells[c], c, CellWidth(cells, c), w, out), s0);
    var next := c + CellWidth(cells, c);
    CellReplay(h, u, caps, cells, c, w, out, s0);
    DrawnShown(h, u, caps, cells, c, s.cells, r.cells);
    LastClean(h, u, caps, cells, c, r.cells);
    forall p | c <= p < next && !cells[p].continuation
      ensures Shown(h, u, caps, cells, p, r.cells)
    {
      LeadOfGroup(cells, c, p);
    }
  }

  /** `Ech` over the run's columns leaves them blank and everything left of them alone. */
  lemma RunErase(h: Host, u: Unicode, caps: HostCapabilities, cells: seq<Cell>, c: nat, w: Writer, out: seq<Cmd>,
                 s0: Line)
    requires c < |cells| && !cells[c].continuation && s0.Valid()
    requires Ready(h, u, caps, cells, c, w, Run(h, out, s0))
    ensures (var parts, end := Joined(u, cells, c), RunEnd(u, cells, c);
             var s := Run(h, out, s0);
             var r := Run(h, out + [Cha(c + 1), Ech(end - c)], s0);
             && PartsReady(h, u, caps, cells, c, |parts|, w, r) && r.overflow == s.overflow
             && forall i :: 0 <= i < c ==> r.cells[i] == s.cells[i])
  {
    hide Run, Drawn, Overwrite, Merges, PenMatches, Joined, CellWidth, RunEnd;
    var end := RunEnd(u, cells, c);
    var s := Run(h, out, s0);
    RunConcat(h, out, [Cha(c + 1), Ech(end - c)], s0);
    Run2(h, Cha(c + 1), Ech(end - c), s);
    OverwriteDraws(s.cells, c, Blanks(end - c, s.pen.style.bg));
    var r := Step(h, Ech(end - c), s);
    assert Step(h, Cha(c + 1), s) == s;
    MergesPrefix(h, s.cells, r.cells, c, Drawn(u, cells[c].text, CellWidth(cells, c)));
  }

  lemma Run2(h: Host, a: Cmd, b: Cmd, s: Line)
    requires s.Valid()
    ensures Run(h, [a, b], s) == Step(h, b, Step(h, a, s))
  {
    hide Step;
    assert [a, b][1..] == [b];
    Run1(h, b, Step(h, a, s));
  }

  function RunOut(u: Unicode, caps: HostCapabilities, cells: seq<Cell>, c: nat, w: Writer, out: seq<Cmd>): seq<Cmd>
    requires c < |cells|
  {
    var parts, end := Joined(u, cells, c), RunEnd(u, cells, c);
    PartsCmds(u, caps, cells, parts, |parts|, w, out + [Cha(c + 1), Ech(end - c)]) + [Cha(end + 1)]
  }

  /** Erased, then written right to left: the run's parts are shown, and the cursor goes behind it. */
  lemma RunDrawn(h: Host, u: Unicode, caps: HostCapabilities, cells: seq<Cell>, c: nat, w: Writer, out: seq<Cmd>,
                 s0: Line)
    requires c < |cells| && u.Valid() && WellFormed(cells) && !cells[c].continuation && Admissible(h, u, cells)
    requires s0.Valid() && Ready(h, u, caps, cells, c, w, Run(h, out, s0))
    ensures (var parts, end := Joined(u, cells, c), RunEnd(u, cells, c);
             var s, r := Run(h, out, s0), Run(h, RunOut(u, caps, cells, c, w, out), s0);
             && (forall i :: 0 <= i < c ==> r.cells[i] == s.cells[i])
             && (forall j :: 0 <= j < |parts| ==> Shown(h, u, caps, cells, parts[j], r.cells))
             && PenMatches(caps, AfterParts(caps, cells, parts, |parts|, w), r.pen) && r.overflow == s.overflow
             && At(r, end) && Edge(r.cells, end))
  {
    hide Run, PartsCmds, Drawn, JoinedNext, PenMatches, AfterParts, Merges, Shown, WellFormed, RunEnd, Joined,
         Admissible;
    var parts, end := Joined(u, cells, c), RunEnd(u, cells, c);
    RunErase(h, u, caps, cells, c, w, out, s0);
    var erased := out + [Cha(c + 1), Ech(end - c)];
    PartsReplay(h, u, caps, cells, c, |parts|, w, erased, s0);
    var drawn := PartsCmds(u, caps, cells, parts, |parts|, w, erased);
    var s2 := Run(h, drawn, s0);
    RunConcat(h, drawn, [Cha(end + 1)], s0);
    Run1(h, Cha(end + 1), s2);
  }

  /** With a run's parts shown, all its leads are, and the cell after it has nothing to join. */
  lemma RunShown(h: Host, u: Unicode, caps: HostCapabilities, cells: seq<Cell>, c: nat, line: seq<HostCell>)
    requires c < |cells| <= |line| && u.Valid() && WellFormed(cells) && !cells[c].continuation
    requires Admissible(h, u, cells)
    requires forall j :: 0 <= j < |Joined(u, cells, c)| ==> Shown(h, u, caps, cells, Joined(u, cells, c)[j], line)
    ensures forall p :: c <= p < RunEnd(u, cells, c) && !cells[p].continuation ==> Shown(h, u, caps, cells, p, line)
    ensures (var end := RunEnd(u, cells, c);
             end < |cells| ==> !cells[end].continuation
                               && !Merges(h, line, end, Drawn(u, cells[end].text, CellWidth(cells, end))))
  {
    hide Shown, Drawn, JoinedNext, RunEnd, Joined, Merges, WellFormed, Admissible, CellWidth;
    forall p | c <= p < RunEnd(u, cells, c) && !cells[p].continuation
      ensures Shown(h, u, caps, cells, p, line)
    {
      RunLeads(u, cells, c, p);
    }
    RunLast(u, cells, c);
    var last := Joined(u, cells, c)[|Joined(u, cells, c)| - 1];
    LastClean(h, u, caps, cells, last, line);
  }

  lemma {:induction false} LastClean(h: Host, u: Unicode, caps: HostCapabilities, cells: seq<Cell>, p: nat,
                                     line: seq<HostCell>)
    requires p < |cells| <= |line| && u.Valid() && WellFormed(cells) && !cells[p].continuation
    requires Admissible(h, u, cells)
    requires Shown(h, u, caps, cells, p, line) && JoinedNext(u, cells, p) == None
    ensures (var n := p + CellWidth(cells, p);
             n < |cells| ==> !Merges(h, line, n, Drawn(u, cells[n].text, CellWidth(cells, n))))
  {
    hide Shown, Drawn, JoinedNext, Merges, WellFormed, CellPicture, CoversAt, Swallows;
    assert AdmissibleAt(h, u, cells, p);
    PictureWidth(h, u, caps, cells, p);
    NextClean(h, u, caps, cells, p, line);
  }

  lemma RunReplay(h: Host, u: Unicode, caps: HostCapabilities, cells: seq<Cell>, c: nat, w: Writer, out: seq<Cmd>,
                  s0: Line)
    requires c < |cells| && u.Valid() && WellFormed(cells) && !cells[c].continuation && Admissible(h, u, cells)
    requires s0.Valid() && Ready(h, u, caps, cells, c, w, Run(h, out, s0))
    ensures (var parts := Joined(u, cells, c);
             GroupDone(h, u, caps, cells, c, RunEnd(u, cells, c), AfterParts(caps, cells, parts, |parts|, w),
                       Run(h, out, s0), Run(h, RunOut(u, caps, cells, c, w, out), s0)))
  {
    hide Run, RunOut, CellPicture, Drawn, JoinedNext, PenMatches, AfterParts, Merges, Shown, WellFormed, RunEnd, Joined,
         Admissible, CellWidth;
    RunDrawn(h, u, caps, cells, c, w, out, s0);
    RunShown(h, u, caps, cells, c, Run(h, RunOut(u, caps, cells, c, w, out), s0).cells);
  }

  lemma RunLast(u: Unicode, cells: seq<Cell>, c: nat)
    requires c < |cells| && !cells[c].continuation
    ensures (var parts := Joined(u, cells, c);
             var last := parts[|parts| - 1];
             && !cells[last].continuation && JoinedNext(u, cells, last) == None
             && RunEnd(u, cells, c) == last + CellWidth(cells, last)
             && (RunEnd(u, cells, c) < |cells| ==> !cells[RunEnd(u, cells, c)].continuation))
  {
    hide JoinedNext;
    JoinedLinks(u, cells, c);
    JoinedEnds(u, cells, c);
  }

  lemma FinishReplay(h: Host, caps: HostCapabilities, w: Writer, out: seq<Cmd>, s0: Line)
    requires s0.Valid() && PenMatches(caps, w, Run(h, out, s0).pen)
    ensures Run(h, FinishCmds(w, out), s0) == Run(h, out, s0).(pen := DEFAULT_PEN)
  {
    hide Run;
    var closed := if w.link.Some? then HyperlinkCmds(None) else [];
    var reset := if w.style != PLAIN then [Sgr([P(0)])] else [];
    var s := Run(h, out, s0);
    RunConcat(h, out, closed, s0);
    var s1 := s.(pen := s.pen.(link := None));
    assert Run(h, closed, s) == s1 by {
      if w.link.Some? { LinkReplay(h, None, s); } else { RunNone(h, s); }
    }
    RunConcat(h, out + closed, reset, s0);
    if w.style != PLAIN { Run1Sgr(h, P(0), s1); } else { RunNone(h, s1); }
  }

  /** From a lead cell on: every cell of the row is shown, and the row ends with the pen put down. */
  lemma {:induction false} RowFromReplay(h: Host, u: Unicode, caps: HostCapabilities, cells: seq<Cell>, c: nat,
                                         w: Writer, out: seq<Cmd>, s0: Line)
    requires c <= |cells| && u.Valid() && WellFormed(cells) && Admissible(h, u, cells) && s0.Valid()
    requires |cells| <= |s0.cells|
    requires PenMatches(caps, w, Run(h, out, s0).pen) && At(Run(h, out, s0), c) && Edge(Run(h, out, s0).cells, c)
    requires c < |cells| ==> !cells[c].continuation && Ready(h, u, caps, cells, c, w, Run(h, out, s0))
    ensures (var s, r := Run(h, out, s0), Run(h, RowFrom(u, caps, cells, c, w, out), s0);
             && (forall i :: 0 <= i < c ==> r.cells[i] == s.cells[i])
             && (forall p :: c <= p < |cells| && !cells[p].continuation ==> Shown(h, u, caps, cells, p, r.cells))
             && At(r, |cells|) && Edge(r.cells, |cells|) && r.pen == DEFAULT_PEN && r.overflow == s.overflow)
    decreases |cells| - c
  {
    hide Run, RowFrom, Ready, PenMatches, Shown, WellFormed, CellCmds, PartsCmds, FinishCmds, Joined, RunEnd,
         JoinedNext, AfterParts, AfterCell, CellPicture, Admissible;
    RowSkip(u, caps, cells, c, w, out);
    if c == |cells| {
      FinishReplay(h, caps, w, out, s0);
    } else {
      RowStep(u, caps, cells, c, w, out);
      var s := Run(h, out, s0);
      var next, w1, out1;
      if JoinedNext(u, cells, c) == None {
        PlainReplay(h, u, caps, cells, c, w, out, s0);
        next, w1, out1 := c + CellWidth(cells, c), AfterCell(caps, cells[c], w),
          CellCmds(u, caps, cells[c], c, CellWidth(cells, c), w, out);
      } else {
        RunReplay(h, u, caps, cells, c, w, out, s0);
        next, w1, out1 := RunEnd(u, cells, c), AfterParts(caps, cells, Joined(u, cells, c), |Joined(u, cells, c)|, w),
          RunOut(u, caps, cells, c, w, out);
      }
      RowFromReplay(h, u, caps, cells, next, w1, out1, s0);
      var mid, r := Run(h, out1, s0), Run(h, RowFrom(u, caps, cells, c, w, out), s0);
      forall p | c <= p < |cells| && !cells[p].continuation
        ensures Shown(h, u, caps, cells, p, r.cells)
      {
        if p < next {
          GroupEnds(cells, p, next);
          ShownKept(h, u, caps, cells, p, mid.cells, r.cells);
        }
      }
    }
  }

  /** A group that starts before a lead cell ends before it. */
  lemma GroupEnds(cells: seq<Cell>, p: nat, next: nat)
    requires p < next <= |cells| && (next < |cells| ==> !cells[next].continuation)
    ensures p + CellWidth(cells, p) <= next
  {
    if next < p + CellWidth(cells, p) {
      LeadOfGroup(cells, p, next);
    }
  }

  ghost predicate ColumnsAre(line: seq<HostCell>, at: nat, pic: seq<HostCell>) {
    at + |pic| <= |line| && forall i :: at <= i < at + |pic| ==> line[i] == pic[i - at]
  }

  lemma ColumnsConcat(line: seq<HostCell>, at: nat, a: seq<HostCell>, b: seq<HostCell>)
    ensures ColumnsAre(line, at, a + b) <==> ColumnsAre(line, at, a) && ColumnsAre(line, at + |a|, b)
  {
    if ColumnsAre(line, at, a + b) {
      forall i | at <= i < at + |a| ensures line[i] == a[i - at] {
        assert (a + b)[i - at] == a[i - at];
      }
      forall i | at + |a| <= i < at + |a| + |b| ensures line[i] == b[i - (at + |a|)] {
        assert (a + b)[i - at] == b[i - (at + |a|)];
      }
    }
  }

  lemma ShownColumns(h: Host, u: Unicode, caps: HostCapabilities, cells: seq<Cell>, p: nat, line: seq<HostCell>)
    requires p < |cells| <= |line|
    ensures Shown(h, u, caps, cells, p, line)
       <==> |CellPicture(h, u, caps, cells, p)| == CellWidth(cells, p)
            && ColumnsAre(line, p, CellPicture(h, u, caps, cells, p))
  {
    hide CellPicture;
  }

  /** A line shows every cell of a row from `c` on just when its columns are the row's picture. */
  lemma {:induction false} PictureShown(h: Host, u: Unicode, caps: HostCapabilities, cells: seq<Cell>, c: nat,
                                        line: seq<HostCell>)
    requires c <= |cells| <= |line| && (c < |cells| ==> !cells[c].continuation)
    requires forall p :: c <= p < |cells| && !cells[p].continuation ==> Shown(h, u, caps, cells, p, line)
    ensures |Picture(h, u, caps, cells, c)| == |cells| - c
    ensures ColumnsAre(line, c, Picture(h, u, caps, cells, c))
    decreases |cells| - c
  {
    hide CellPicture, Shown, ColumnsAre;
    if c < |cells| {
      var n := c + CellWidth(cells, c);
      PictureShown(h, u, caps, cells, n, line);
      ShownColumns(h, u, caps, cells, c, line);
      ColumnsConcat(line, c, CellPicture(h, u, caps, cells, c), Picture(h, u, caps, cells, n));
    } else {
      assert ColumnsAre(line, c, []) by { NoColumns(line, c); }
    }
  }

  lemma NoColumns(line: seq<HostCell>, at: nat)
    requires at <= |line|
    ensures ColumnsAre(line, at, [])
  {
  }

  /** Row replay: on every admissible host, replaying a well-formed row from the first column, over
      whatever the line showed before, leaves the row's picture in its columns, the cursor behind it,
      the pen at its defaults and no link open. */
  lemma RowReplays(h: Host, u: Unicode, caps: HostCapabilities, cells: seq<Cell>, line: seq<HostCell>)
    requires u.Valid() && WellFormed(cells) && Admissible(h, u, cells)
    requires |cells| <= |line| && Edge(line, 0)
    ensures (var r := Run(h, RowCmds(u, caps, cells), Line(line, 0, DEFAULT_PEN, false));
             && r.cells[..|cells|] == Picture(h, u, caps, cells, 0)
             && At(r, |cells|) && Edge(r.cells, |cells|) && r.pen == DEFAULT_PEN && !r.overflow)
  {
    hide Run, RowFrom, Shown, Picture, CellPicture, AdmissibleAt, Merges;
    var s0 := Line(line, 0, DEFAULT_PEN, false);
    RunNone(h, s0);
    NothingLeft(h, u, cells, line);
    if cells != [] { assert CellOk(cells, 0); }
    RowFromReplay(h, u, caps, cells, 0, FRESH, [], s0);
    var r := Run(h, RowCmds(u, caps, cells), s0);
    PictureShown(h, u, caps, cells, 0, r.cells);
    assert r.cells[..|cells|] == Picture(h, u, caps, cells, 0);
  }

  lemma NothingLeft(h: Host, u: Unicode, cells: seq<Cell>, line: seq<HostCell>)
    ensures cells != [] ==> !Merges(h, line, 0, Drawn(u, cells[0].text, CellWidth(cells, 0)))
  {
  }

  /** What an id may hold: no control characters, and none that delimit parameters. */
  predicate InLinkId(ch: char) {
    !IsControl(ch) && ch != ':' && ch != ';'
  }

  /** A link is shown by what its target and id hold without the characters that would end the sequence early. */
  ghost predicate ShowsLink(caps: HostCapabilities, link: Option<Hyperlink>, shown: Option<HostLink>) {
    if !caps.hyperlinks || link == None || (forall ch :: ch in link.value.uri ==> IsControl(ch)) then shown == None
    else
      && shown.Some? && Sieved(link.value.uri, shown.value.uri, NotControl)
      && (link.value.id == None ==> shown.value.id == "")
      && (link.value.id.Some? ==> Sieved(link.value.id.value, shown.value.id, InLinkId))
  }

  lemma {:induction false} LinkIdSieves(id: string)
    ensures Sieved(id, LinkIdChars(WithoutControls(id)), InLinkId)
  {
    if id == [] {
      SievedNone(InLinkId);
    } else {
      LinkIdSieves(id[1..]);
      SievedMore(id, LinkIdChars(WithoutControls(id[1..])), InLinkId);
      LinkIdStep(id);
    }
  }

  lemma LinkIdStep(id: string)
    requires id != ""
    ensures LinkIdChars(WithoutControls(id))
         == (if InLinkId(id[0]) then [id[0]] else []) + LinkIdChars(WithoutControls(id[1..]))
  {
    var rest := WithoutControls(id[1..]);
    if !IsControl(id[0]) {
      assert ([id[0]] + rest)[1..] == rest;
    } else {
      assert WithoutControls(id) == rest;
    }
  }

  lemma NothingSieved(text: string, out: string, keep: char -> bool)
    requires Sieved(text, out, keep)
    ensures out == "" <==> forall ch :: ch in text ==> !keep(ch)
  {
    var at :| KeptAt(text, out, at, keep);
    if out != "" { assert text[at[0]] in text; }
  }

  /** What a host shows of a cell's link. */
  lemma ShownLinkShows(caps: HostCapabilities, link: Option<Hyperlink>)
    ensures ShowsLink(caps, link, if caps.hyperlinks then ShownLink(link) else None)
  {
    hide Sieved, WithoutControls, LinkIdChars, IsControl;
    if link.Some? {
      WithoutControlsSieves(link.value.uri);
      NothingSieved(link.value.uri, WithoutControls(link.value.uri), NotControl);
      if link.value.id.Some? { LinkIdSieves(link.value.id.value); }
    }
  }

  /** What the picture says of one cell: its first column shows its text in its style and link, if the
      host draws the text at all, and its other columns belong to that glyph or are erased. */
  lemma CellInPicture(h: Host, u: Unicode, caps: HostCapabilities, cells: seq<Cell>, p: nat)
    requires u.Valid() && WellFormed(cells) && Covers(h, u, cells)
    requires p < |cells| && !cells[p].continuation
    ensures (var width := CellWidth(cells, p);
             var text := Drawn(u, cells[p].text, width);
             var row := Picture(h, u, caps, cells, 0);
             && |row| == |cells|
             && (h.advance(p, text) == 0 ==> row[p] == Blank(cells[p].style.bg))
             && (h.advance(p, text) > 0 ==>
                   row[p].Glyph? && row[p].text == text && ShowsStyle(caps, cells[p].style, row[p].pen.style)
                   && ShowsLink(caps, cells[p].link, row[p].pen.link)
                   && (caps == HostCapabilities(true, true, true) ==> row[p].pen.style == cells[p].style))
             && forall i :: p < i < p + width ==>
                  row[i] == if i - p < h.advance(p, text) then Tail else Blank(cells[p].style.bg))
  {
    hide Drawn, CellPicture, Picture, ColumnsAre, Shown, ShownLink, ShowsStyle, CellStyle.ForHost;
    ForHostShows(caps, cells[p].style);
    ShownLinkShows(caps, cells[p].link);
    var row := Picture(h, u, caps, cells, 0);
    assert CellOk(cells, 0);
    PictureLength(h, u, caps, cells, 0);
    WholeColumns(row);
    PictureOf(h, u, caps, cells, 0, p, row);
    CellShown(h, u, caps, cells, p, row);
  }

  lemma WholeColumns(line: seq<HostCell>)
    ensures ColumnsAre(line, 0, line)
  {
  }

  lemma CellShown(h: Host, u: Unicode, caps: HostCapabilities, cells: seq<Cell>, p: nat, line: seq<HostCell>)
    requires p < |cells| <= |line| && Shown(h, u, caps, cells, p, line)
    ensures (var width := CellWidth(cells, p);
             var text := Drawn(u, cells[p].text, width);
             && line[p] == (if h.advance(p, text) == 0 then Blank(cells[p].style.bg)
                           else Glyph(text, PenFor(caps, cells[p])))
             && forall i :: p < i < p + width ==>
                  line[i] == if i - p < h.advance(p, text) then Tail else Blank(cells[p].style.bg))
  {
    hide Drawn;
  }

  lemma {:induction false} PictureLength(h: Host, u: Unicode, caps: HostCapabilities, cells: seq<Cell>, c: nat)
    requires u.Valid() && WellFormed(cells) && Covers(h, u, cells)
    requires c <= |cells| && (c < |cells| ==> !cells[c].continuation)
    ensures |Picture(h, u, caps, cells, c)| == |cells| - c
    decreases |cells| - c
  {
    hide CellPicture, CoversAt, WellFormed;
    if c < |cells| {
      assert CoversAt(h, u, cells, c);
      PictureWidth(h, u, caps, cells, c);
      PictureLength(h, u, caps, cells, c + CellWidth(cells, c));
    }
  }

  lemma {:induction false} PictureOf(h: Host, u: Unicode, caps: HostCapabilities, cells: seq<Cell>, c: nat, p: nat,
                                     line: seq<HostCell>)
    requires u.Valid() && WellFormed(cells) && Covers(h, u, cells) && |cells| <= |line|
    requires c <= p < |cells| && !cells[c].continuation && !cells[p].continuation
    requires ColumnsAre(line, c, Picture(h, u, caps, cells, c))
    ensures Shown(h, u, caps, cells, p, line)
    decreases |cells| - c
  {
    hide CellPicture, CoversAt, WellFormed, Shown, ColumnsAre;
    assert CoversAt(h, u, cells, c);
    PictureWidth(h, u, caps, cells, c);
    var n := c + CellWidth(cells, c);
    ColumnsConcat(line, c, CellPicture(h, u, caps, cells, c), Picture(h, u, caps, cells, n));
    ShownColumns(h, u, caps, cells, c, line);
    if p < n {
      LeadOfGroup(cells, c, p);
    } else {
      PictureOf(h, u, caps, cells, n, p, line);
    }
  }
}
