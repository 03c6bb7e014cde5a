/** Hosts that draw grapheme clusters: which rows they draw right, and one they do not. */
module Clustering {
  import opened Text
  import opened Style
  import opened Cells
  import opened Host
  import opened Render
  import opened Replay
  import opened RowReplay
  import opened Swallow

  /** A host that draws every text in its limit of columns, joining texts as `joins` says. */
  function LimitHost(u: Unicode, joins: (string, string) -> bool, erasesEdge: bool): Host {
    Host((column, text) => Limit(u, text), joins, erasesEdge)
  }

  /** It covers the texts of every row. */
  lemma LimitHostCovers(u: Unicode, joins: (string, string) -> bool, erasesEdge: bool, cells: seq<Cell>)
    requires u.Valid() && WellFormed(cells)
    ensures Covers(LimitHost(u, joins, erasesEdge), u, cells)
  {
    forall c | 0 <= c < |cells| && !cells[c].continuation
      ensures CoversAt(LimitHost(u, joins, erasesEdge), u, cells, c) {
      assert CellOk(cells, c);
    }
  }

  /** A host that joins nothing qualifies for every row. */
  lemma SeparateHostIsAdmissible(u: Unicode, cells: seq<Cell>, erasesEdge: bool)
    requires u.Valid() && WellFormed(cells)
    ensures Admissible(LimitHost(u, (a, b) => false, erasesEdge), u, cells)
  {
    var h := LimitHost(u, (a, b) => false, erasesEdge);
    LimitHostCovers(u, (a, b) => false, erasesEdge, cells);
    forall c | 0 <= c < |cells| && !cells[c].continuation ensures AdmissibleAt(h, u, cells, c) {
      assert CoversAt(h, u, cells, c);
    }
  }

  /** The host that joins what Unicode makes one cluster. */
  function ClusteringHost(u: Unicode, erasesEdge: bool): Host {
    LimitHost(u, (a, b) => u.OneCluster(a + b), erasesEdge)
  }

  /** What is drawn for the lead at `c` covers the lead's columns and is one cluster with what is drawn next to it. */
  predicate DrawnTogether(u: Unicode, cells: seq<Cell>, c: nat)
    requires c < |cells|
  {
    var width := CellWidth(cells, c);
    var text := Drawn(u, cells[c].text, width);
    && c + width < |cells| && Limit(u, text) == width
    && u.OneCluster(text + Drawn(u, cells[c + width].text, CellWidth(cells, c + width)))
  }

  /** The lead at `c` clusters with an ASCII cell after it, which the renderer never puts in a run. */
  predicate ClustersWithAscii(u: Unicode, cells: seq<Cell>, c: nat)
    requires c < |cells|
  {
    DrawnTogether(u, cells, c) && IsAscii(cells[c + CellWidth(cells, c)].text)
  }

  /** The texts drawn for the lead at `c` and the one after it are one cluster, but the cells' own texts are not. */
  predicate DrawingClusters(u: Unicode, cells: seq<Cell>, c: nat)
    requires c < |cells|
  {
    DrawnTogether(u, cells, c) && !u.OneCluster(cells[c].text + cells[c + CellWidth(cells, c)].text)
  }

  /** The clustering host draws a row right, narrowed and replaced texts included, exactly when no lead clusters with an
      ASCII cell after it and drawing makes no cluster that the texts do not make. */
  lemma ClusteringHostDraws(u: Unicode, caps: HostCapabilities, cells: seq<Cell>, erasesEdge: bool, line: seq<HostCell>)
    requires u.Valid() && WellFormed(cells) && |cells| <= |line| && Edge(line, 0)
    ensures (var h := ClusteringHost(u, erasesEdge);
             Run(h, RowCmds(u, caps, cells), Line(line, 0, DEFAULT_PEN, false)).cells[..|cells|]
             == Picture(h, u, caps, cells, 0))
       <==> forall c :: 0 <= c < |cells| && !cells[c].continuation ==>
              !ClustersWithAscii(u, cells, c) && !DrawingClusters(u, cells, c)
  {
    hide Run, RowCmds, Picture, Drawn, WellFormed, Covers, CellWidth, Limit;
    var h := ClusteringHost(u, erasesEdge);
    LimitHostCovers(u, (a, b) => u.OneCluster(a + b), erasesEdge, cells);
    RowReplaysIff(h, u, caps, cells, line);
    forall c | 0 <= c < |cells| && !cells[c].continuation
      ensures SwallowsAt(h, u, cells, c) <==> ClustersWithAscii(u, cells, c) || DrawingClusters(u, cells, c)
    {
    }
  }

  /** A row of texts the renderer writes as they are, in exactly their columns. */
  predicate AllTrusted(u: Unicode, cells: seq<Cell>) {
    forall c :: 0 <= c < |cells| && !cells[c].continuation ==>
      cells[c].text != "" && u.GraphemeWidth(cells[c].text) == CellWidth(cells, c) && !Regional(cells[c].text)
  }

  /** For such a row: exactly when no cell is followed by an ASCII cell it is one cluster with. */
  lemma TrustedRowIsDrawn(u: Unicode, caps: HostCapabilities, cells: seq<Cell>, erasesEdge: bool, line: seq<HostCell>)
    requires u.Valid() && WellFormed(cells) && AllTrusted(u, cells) && |cells| <= |line| && Edge(line, 0)
    ensures (var h := ClusteringHost(u, erasesEdge);
             Run(h, RowCmds(u, caps, cells), Line(line, 0, DEFAULT_PEN, false)).cells[..|cells|]
             == Picture(h, u, caps, cells, 0))
       <==> forall c :: 0 <= c < |cells| && !cells[c].continuation && c + CellWidth(cells, c) < |cells| ==>
              (var next := cells[c + CellWidth(cells, c)].text; !(IsAscii(next) && u.OneCluster(cells[c].text + next)))
  {
    hide Run, RowCmds, Picture, WellFormed, CellWidth, ClustersWithAscii, DrawingClusters, AllTrusted;
    ClusteringHostDraws(u, caps, cells, erasesEdge, line);
    forall c | 0 <= c < |cells| && !cells[c].continuation
      ensures !DrawingClusters(u, cells, c)
      ensures c + CellWidth(cells, c) < |cells| ==>
                (var next := cells[c + CellWidth(cells, c)].text;
                 ClustersWithAscii(u, cells, c) <==> IsAscii(next) && u.OneCluster(cells[c].text + next))
      ensures c + CellWidth(cells, c) >= |cells| ==> !ClustersWithAscii(u, cells, c)
    {
      TrustedTogether(u, cells, c);
    }
  }

  lemma TrustedTogether(u: Unicode, cells: seq<Cell>, c: nat)
    requires AllTrusted(u, cells) && c < |cells| && !cells[c].continuation
    ensures !DrawingClusters(u, cells, c)
    ensures c + CellWidth(cells, c) < |cells| ==>
              (var next := cells[c + CellWidth(cells, c)].text;
               ClustersWithAscii(u, cells, c) <==> IsAscii(next) && u.OneCluster(cells[c].text + next))
    ensures c + CellWidth(cells, c) >= |cells| ==> !ClustersWithAscii(u, cells, c)
  {
    hide CellWidth;
  }

  // ---- A row that is not drawn right ----

  /** U+0600, which makes a cluster with the character after it. */
  const NUMBER_SIGN: string := "\U{0600}"

  const SIGNED: string := "\U{0600}5"

  function NumberRow(): seq<Cell> {
    [Cell(NUMBER_SIGN, PLAIN, false, None), Cell("5", PLAIN, false, None)]
  }

  /** Tables in which the number sign and the digit after it are one cluster, as Unicode's are. */
  ghost predicate Prepends(u: Unicode) {
    u.Valid() && u.width(NUMBER_SIGN) == 1 && u.width("5") == 1 && u.OneCluster(SIGNED)
  }

  lemma NumberRowWidths()
    ensures CellWidth(NumberRow(), 0) == 1 && CellWidth(NumberRow(), 1) == 1
  {
    assert Continuations(NumberRow(), 1) == 0 && Continuations(NumberRow(), 2) == 0;
  }

  lemma OneColumn(u: Unicode, text: string)
    requires u.width(text) == 1 && |text| == 1 && !IsRegionalIndicator(text[0])
    ensures Trusted(u, text, 1)
  {
  }

  lemma NumberRowIsTrusted(u: Unicode)
    requires Prepends(u)
    ensures WellFormed(NumberRow()) && AllTrusted(u, NumberRow())
    ensures CellWidth(NumberRow(), 0) == 1 && CellWidth(NumberRow(), 1) == 1
  {
    hide CellWidth, Trusted;
    NumberRowWidths();
    OneColumn(u, NUMBER_SIGN);
    OneColumn(u, "5");
  }

  /** The clustering host takes the digit into the number sign's cell: the row is never drawn right. */
  lemma NumberRowFails(u: Unicode, caps: HostCapabilities, erasesEdge: bool, line: seq<HostCell>)
    requires Prepends(u) && 2 <= |line| && Edge(line, 0)
    ensures (var h := ClusteringHost(u, erasesEdge);
             Run(h, RowCmds(u, caps, NumberRow()), Line(line, 0, DEFAULT_PEN, false)).cells[..2]
             != Picture(h, u, caps, NumberRow(), 0))
  {
    hide Run, RowCmds, Picture, WellFormed, AllTrusted, CellWidth, Unicode.OneCluster, ClusteringHost;
    var row := NumberRow();
    NumberRowIsTrusted(u);
    TrustedRowIsDrawn(u, caps, row, erasesEdge, line);
    assert row[0].text + row[0 + CellWidth(row, 0)].text == SIGNED;
    DigitIsAscii();
  }

  lemma PlainCell(u: Unicode, caps: HostCapabilities, text: string, column: nat, out: seq<Cmd>)
    requires text != "" && Trusted(u, text, 1)
    ensures CellCmds(u, caps, Cell(text, PLAIN, false, None), column, 1, FRESH, out) == out + [Write(text)]
    ensures AfterCell(caps, Cell(text, PLAIN, false, None), FRESH) == FRESH
  {
    hide Trusted;
  }

  lemma NumberRowCmds(u: Unicode, caps: HostCapabilities)
    requires Prepends(u)
    ensures RowCmds(u, caps, NumberRow()) == [Write(NUMBER_SIGN), Write("5")]
  {
    hide CellCmds, PartsCmds, Joined, RunEnd, CellWidth, RowFrom, AfterParts, AfterCell, Trusted;
    var row := NumberRow();
    NumberRowIsTrusted(u);
    DigitIsAscii();
    OneColumn(u, NUMBER_SIGN);
    OneColumn(u, "5");
    PlainCell(u, caps, NUMBER_SIGN, 0, []);
    PlainCell(u, caps, "5", 1, [Write(NUMBER_SIGN)]);
    assert JoinedNext(u, row, 0) == None && JoinedNext(u, row, 1) == None;
    hide JoinedNext;
    RowStep(u, caps, row, 0, FRESH, []);
    assert [] + [Write(NUMBER_SIGN)] == [Write(NUMBER_SIGN)];
    RowStep(u, caps, row, 1, FRESH, [Write(NUMBER_SIGN)]);
    assert [Write(NUMBER_SIGN)] + [Write("5")] == [Write(NUMBER_SIGN), Write("5")];
    RowSkip(u, caps, row, 2, FRESH, [Write(NUMBER_SIGN), Write("5")]);
  }

  /** A character written at the start of a line. */
  lemma FirstWrite(h: Host, text: string, line: seq<HostCell>)
    requires 2 <= |line| && Edge(line, 0) && Edge(line, 1) && h.advance(0, text) == 1
    ensures Step(h, Write(text), Line(line, 0, DEFAULT_PEN, false))
         == Line([Glyph(text, DEFAULT_PEN)] + line[1..], 1, DEFAULT_PEN, false)
  {
    var put := [Glyph(text, DEFAULT_PEN)];
    assert put + Tails(0) == put;
    assert Overwrite(line, 0, put) == put + line[1..] by {
      assert line[..0] + put + HealRight(line[1..]) == put + line[1..];
    }
  }

  /** A character the host joins to the one at the start of the line. */
  lemma SecondWrite(h: Host, a: string, b: string, rest: seq<HostCell>)
    requires h.joins(a, b)
    ensures Step(h, Write(b), Line([Glyph(a, DEFAULT_PEN)] + rest, 1, DEFAULT_PEN, false))
         == Line([Glyph(a + b, DEFAULT_PEN)] + rest, 1, DEFAULT_PEN, false)
  {
    var cells := [Glyph(a, DEFAULT_PEN)] + rest;
    assert LeftGlyph(cells, 1) == Some(0);
    assert cells[0 := Glyph(a + b, DEFAULT_PEN)] == [Glyph(a + b, DEFAULT_PEN)] + rest;
  }

  /** Where it ends: one cell with both characters, the cursor a column short, and the next column as it was. */
  lemma NumberRowEnds(u: Unicode, caps: HostCapabilities, erasesEdge: bool, line: seq<HostCell>)
    requires Prepends(u) && 2 <= |line| && Edge(line, 0) && Edge(line, 1)
    ensures (var r := Run(ClusteringHost(u, erasesEdge), RowCmds(u, caps, NumberRow()),
                          Line(line, 0, DEFAULT_PEN, false));
             r.cells[0] == Glyph(SIGNED, DEFAULT_PEN) && r.cells[1] == line[1] && r.col == 1)
  {
    hide RowCmds, Run, Step, Unicode.Valid;
    var h := ClusteringHost(u, erasesEdge);
    var s0 := Line(line, 0, DEFAULT_PEN, false);
    var a, b := [Write(NUMBER_SIGN)], [Write("5")];
    NumberRowCmds(u, caps);
    assert a + b == [Write(NUMBER_SIGN), Write("5")];
    OneColumn(u, NUMBER_SIGN);
    FirstWrite(h, NUMBER_SIGN, line);
    RunConcat(h, a, b, s0);
    Run1(h, Write(NUMBER_SIGN), s0);
    assert NUMBER_SIGN + "5" == SIGNED;
    SecondWrite(h, NUMBER_SIGN, "5", line[1..]);
    Run1(h, Write("5"), Line([Glyph(NUMBER_SIGN, DEFAULT_PEN)] + line[1..], 1, DEFAULT_PEN, false));
  }

  lemma DigitIsAscii()
    ensures IsAscii("5")
  {
  }

  function Singles(text: string): seq<string> {
    seq(|text|, i requires 0 <= i < |text| => [text[i]])
  }

  /** The smallest such tables: every character its own cluster and one column wide, but for that pair
      and for the two marks that take no column. */
  function NumberTables(): Unicode {
    Unicode(text => |Narrowed(text)|, ch => 1, text => if text == SIGNED then [SIGNED] else Singles(text),
            ch => ch == ' ', ch => false)
  }

  lemma {:induction false} NarrowedConcat(a: string, b: string)
    ensures Narrowed(a + b) == Narrowed(a) + Narrowed(b)
  {
    if a == "" {
      assert a + b == b;
    } else {
      assert (a + b)[1..] == a[1..] + b;
      NarrowedConcat(a[1..], b);
    }
  }

  lemma {:induction false} NarrowedPlain(s: string)
    requires forall i :: 0 <= i < |s| ==> s[i] != EMOJI_PRESENTATION && s[i] != ZERO_WIDTH_JOINER
    ensures Narrowed(s) == s
  {
    if s != "" {
      NarrowedPlain(s[1..]);
    }
  }

  lemma NumberTablesPrepend()
    ensures Prepends(NumberTables())
  {
    var u := NumberTables();
    forall text, i | 0 <= i < |u.graphemes(text)| ensures u.graphemes(text)[i] != [] {
    }
    forall n: nat ensures u.graphemes(Repeat(' ', n)) == Repeat(SPACE, n) {
      var spaces := Repeat(' ', n);
      if n > 0 { assert spaces[0] != SIGNED[0]; }
      assert spaces != SIGNED;
      assert Singles(spaces) == Repeat(SPACE, n);
    }
    forall ch: char ensures u.graphemes([ch]) == [[ch]] {
      assert |[ch]| != |SIGNED|;
    }
    forall n: nat ensures u.width(Repeat(REPLACEMENT, n)) == n {
      NarrowedPlain(Repeat(REPLACEMENT, n));
    }
    forall text, n: nat ensures u.width(text + Repeat(' ', n)) == u.width(text) + n {
      NarrowedConcat(text, Repeat(' ', n));
      NarrowedPlain(Repeat(' ', n));
    }
    NarrowedPlain(SPACE);
    NarrowedPlain(NUMBER_SIGN);
    NarrowedPlain("5");
  }
}
