/** Hint labels and the choice between overlapping matches (hints.rs). */
module Hints {
  import opened Text

  // ---- Labels ----

  const ALPHABET: string := "asdfghjkl;qwertyuiopzxcvbnm"

  const LETTERS: nat := 27

  /** Label `k` of `count`: one letter while they suffice, else two. */
  function Label(count: nat, k: nat): string
    requires k < count && k < LETTERS * LETTERS
  {
    if count <= LETTERS then [ALPHABET[k]] else [ALPHABET[k / LETTERS], ALPHABET[k % LETTERS]]
  }

  /** How many labels `count` matches get. */
  function LabelCount(count: nat): nat {
    if count <= LETTERS * LETTERS then count else LETTERS * LETTERS
  }

  function Labels(count: nat): (labels: seq<string>)
    ensures |labels| == LabelCount(count)
  {
    seq(LabelCount(count), k requires 0 <= k < LabelCount(count) => Label(count, k))
  }

  /** `assign_labels`. */
  method AssignLabels(count: nat) returns (labels: seq<string>)
    ensures labels == Labels(count)
  {
    hide Label;
    labels := [];
    if count <= LETTERS {
      while |labels| < count
        invariant |labels| <= count
        invariant forall k :: 0 <= k < |labels| ==> labels[k] == Label(count, k)
      {
        OneLetter(count, |labels|);
        labels := labels + [[ALPHABET[|labels|]]];
      }
    } else {
      for first := 0 to LETTERS
        invariant |labels| == first * LETTERS < count
        invariant forall k :: 0 <= k < |labels| ==> labels[k] == Label(count, k)
      {
        for second := 0 to LETTERS
          invariant |labels| == first * LETTERS + second <= LETTERS * LETTERS && |labels| < count
          invariant forall k :: 0 <= k < |labels| ==> labels[k] == Label(count, k)
        {
          TwoLetters(count, first, second);
          labels := labels + [[ALPHABET[first], ALPHABET[second]]];
          if |labels| == count {
            return;
          }
        }
      }
    }
  }

  lemma OneLetter(count: nat, k: nat)
    requires k < count <= LETTERS
    ensures Label(count, k) == [ALPHABET[k]]
  {
  }

  lemma TwoLetters(count: nat, first: nat, second: nat)
    requires LETTERS < count && first < LETTERS && second < LETTERS && first * LETTERS + second < count
    ensures first * LETTERS + second < LETTERS * LETTERS
    ensures Label(count, first * LETTERS + second) == [ALPHABET[first], ALPHABET[second]]
  {
    assert (first * LETTERS + second) / LETTERS == first;
  }

  lemma LettersDiffer(i: nat, j: nat)
    requires i < j < LETTERS
    ensures ALPHABET[i] != ALPHABET[j]
  {
    assert |ALPHABET| == LETTERS;
  }

  /** The labels are distinct, and none is the start of another, so a label typed picks one hint. */
  lemma LabelsArePrefixFree(count: nat, i: nat, j: nat)
    requires i < LabelCount(count) && j < LabelCount(count) && i != j
    ensures Labels(count)[i] != Labels(count)[j] && !(Labels(count)[i] <= Labels(count)[j])
  {
    var (a, b) := if i < j then (i, j) else (j, i);
    if count <= LETTERS {
      LettersDiffer(a, b);
    } else if a / LETTERS != b / LETTERS {
      LettersDiffer(a / LETTERS, b / LETTERS);
    } else if a % LETTERS < b % LETTERS {
      LettersDiffer(a % LETTERS, b % LETTERS);
    }
  }

  // ---- Matches ----

  /** Where a match starts and ends in its line. */
  datatype Range = Range(start: nat, end: nat)

  predicate Before(a: Range, b: Range) {
    a.start < b.start || (a.start == b.start && a.end >= b.end)
  }

  predicate Ordered(ranges: seq<Range>) {
    forall i, j :: 0 <= i < j < |ranges| ==> Before(ranges[i], ranges[j])
  }

  function Inserted(r: Range, ranges: seq<Range>): (s: seq<Range>)
    ensures multiset(s) == multiset(ranges) + multiset{r}
  {
    if ranges == [] || Before(r, ranges[0]) then [r] + ranges
    else
      assert ranges == [ranges[0]] + ranges[1..];
      [ranges[0]] + Inserted(r, ranges[1..])
  }

  lemma {:induction false} InsertedIsOrdered(r: Range, ranges: seq<Range>)
    requires Ordered(ranges)
    ensures Ordered(Inserted(r, ranges))
  {
    if ranges != [] && !Before(r, ranges[0]) {
      var rest := ranges[1..];
      InsertedIsOrdered(r, rest);
      var tail := Inserted(r, rest);
      forall i | 0 <= i < |tail| ensures Before(ranges[0], tail[i]) {
        assert tail[i] in multiset(rest) + multiset{r};
      }
    }
  }

  /** `sort_by_key`: earliest start first, then longest. */
  function Sorted(ranges: seq<Range>): (s: seq<Range>)
    ensures multiset(s) == multiset(ranges)
  {
    if ranges == [] then []
    else
      assert ranges == [ranges[0]] + ranges[1..];
      Inserted(ranges[0], Sorted(ranges[1..]))
  }

  lemma {:induction false} SortedIsOrdered(ranges: seq<Range>)
    ensures Ordered(Sorted(ranges))
  {
    if ranges != [] {
      SortedIsOrdered(ranges[1..]);
      InsertedIsOrdered(ranges[0], Sorted(ranges[1..]));
    }
  }

  /** The choice so far, then the rest in order: each that does not start inside the last kept. */
  function KeepFrom(kept: seq<Range>, ranges: seq<Range>): seq<Range>
    decreases |ranges|
  {
    if ranges == [] then kept
    else if kept != [] && ranges[0].start < kept[|kept| - 1].end then KeepFrom(kept, ranges[1..])
    else KeepFrom(kept + [ranges[0]], ranges[1..])
  }

  function Kept(ranges: seq<Range>): seq<Range> {
    KeepFrom([], Sorted(ranges))
  }

  /** The loop over the sorted ranges of a line. */
  method KeepRanges(ranges: seq<Range>) returns (kept: seq<Range>)
    ensures kept == Kept(ranges)
  {
    var sorted := Sorted(ranges);
    kept := [];
    assert sorted[0..] == sorted;
    for i := 0 to |sorted|
      invariant KeepFrom(kept, sorted[i..]) == Kept(ranges)
    {
      assert sorted[i..][1..] == sorted[i + 1..];
      if !(kept != [] && sorted[i].start < kept[|kept| - 1].end) {
        kept := kept + [sorted[i]];
      }
    }
  }

  /** Each ends before the next starts. */
  predicate Disjoint(kept: seq<Range>) {
    forall i, j :: 0 <= i < j < |kept| ==> kept[i].end <= kept[j].start
  }

  /** `r` starts inside one of `kept` that starts earlier, or starts with it and is no shorter. */
  predicate Covered(r: Range, kept: seq<Range>) {
    exists i :: 0 <= i < |kept| && CoveredBy(r, kept[i])
  }

  predicate CoveredBy(r: Range, k: Range) {
    r.start < k.end && (k.start < r.start || (k.start == r.start && k.end >= r.end))
  }

  predicate AllValid(ranges: seq<Range>) {
    forall i :: 0 <= i < |ranges| ==> ranges[i].start <= ranges[i].end
  }

  lemma {:induction false} KeepFromChooses(kept: seq<Range>, ranges: seq<Range>)
    requires AllValid(kept) && AllValid(ranges) && Disjoint(kept) && Ordered(ranges)
    requires forall i, j :: 0 <= i < |kept| && 0 <= j < |ranges| ==> Before(kept[i], ranges[j])
    ensures (var all := KeepFrom(kept, ranges);
             AllValid(all) && Disjoint(all) && kept <= all
             && (forall r :: r in all ==> r in kept || r in ranges)
             && (forall r :: r in ranges ==> r in all || Covered(r, all)))
    decreases |ranges|
  {
    if ranges != [] {
      var r, rest := ranges[0], ranges[1..];
      assert ranges == [r] + rest;
      if kept != [] && r.start < kept[|kept| - 1].end {
        KeepFromChooses(kept, rest);
        assert Covered(r, KeepFrom(kept, rest)) by { assert KeepFrom(kept, rest)[|kept| - 1] == kept[|kept| - 1]; }
      } else {
        var more := kept + [r];
        forall i | 0 <= i < |kept| ensures kept[i].end <= r.start {
          assert kept[i].end <= kept[|kept| - 1].end;
        }
        KeepFromChooses(more, rest);
        assert KeepFrom(more, rest)[|kept|] == r;
      }
    }
  }

  /** The kept matches of a line are among those found and pairwise disjoint, and a dropped one starts inside a kept
      one that starts no later, and is no longer than it when they start together. */
  lemma KeptChooses(ranges: seq<Range>)
    requires AllValid(ranges)
    ensures Disjoint(Kept(ranges))
    ensures forall r :: r in Kept(ranges) ==> r in ranges
    ensures forall r :: r in ranges ==> r in Kept(ranges) || Covered(r, Kept(ranges))
  {
    hide KeepFrom, Before, Covered;
    var sorted := Sorted(ranges);
    SortedIsOrdered(ranges);
    forall r ensures r in sorted <==> r in ranges {
      assert r in multiset(sorted) <==> r in multiset(ranges);
    }
    assert AllValid(sorted) by {
      forall i | 0 <= i < |sorted| ensures sorted[i].start <= sorted[i].end {
        assert sorted[i] in ranges;
      }
    }
    KeepFromChooses([], sorted);
  }

  // ---- Hints ----

  /** A visible line and what each pattern finds in it, in the order of the patterns. */
  datatype ScannedLine = ScannedLine(text: string, found: seq<seq<Range>>)
  {
    predicate Valid() {
      forall i, k :: 0 <= i < |found| && 0 <= k < |found[i]| ==> found[i][k].start <= found[i][k].end <= |text|
    }
  }

  datatype Span = Span(line: nat, startColumn: nat, endColumn: nat, text: string)

  datatype Hint = Hint(keys: string, span: Span)

  const U64_MAX: nat := 0xffff_ffff_ffff_ffff

  function Joined(found: seq<seq<Range>>): seq<Range> {
    if found == [] then [] else Joined(found[..|found| - 1]) + found[|found| - 1]
  }

  predicate Within(r: Range, text: string) {
    r.start <= r.end <= |text|
  }

  function SpanOf(u: Unicode, line: nat, text: string, r: Range): Span
    requires Within(r, text)
  {
    var start := u.width(text[..r.start]);
    var end := start + u.width(text[r.start..r.end]);
    Span(line, Min(start, U16_MAX), Min(end, U16_MAX), text[r.start..r.end])
  }

  function SpansOf(u: Unicode, line: nat, text: string, ranges: seq<Range>): (spans: seq<Span>)
    requires forall i :: 0 <= i < |ranges| ==> Within(ranges[i], text)
    ensures |spans| == |ranges|
  {
    seq(|ranges|, i requires 0 <= i < |ranges| => SpanOf(u, line, text, ranges[i]))
  }

  lemma {:induction false} JoinedWithin(found: seq<seq<Range>>, text: string)
    requires ScannedLine(text, found).Valid()
    ensures forall r :: r in Joined(found) ==> Within(r, text)
    ensures AllValid(Joined(found))
  {
    if found != [] {
      JoinedWithin(found[..|found| - 1], text);
      forall r | r in found[|found| - 1] ensures Within(r, text) {
      }
    }
  }

  lemma KeptWithin(line: ScannedLine)
    requires line.Valid()
    ensures forall i :: 0 <= i < |Kept(Joined(line.found))| ==> Within(Kept(Joined(line.found))[i], line.text)
  {
    hide Kept, Joined, Within;
    JoinedWithin(line.found, line.text);
    KeptChooses(Joined(line.found));
  }

  /** The absolute number of visible line `row`. */
  function LineNumber(top: nat, row: nat): nat {
    if top + row <= U64_MAX then top + row else U64_MAX
  }

  /** The kept spans of the first `n` lines. */
  function SpansThrough(u: Unicode, lines: seq<ScannedLine>, n: nat, top: nat): seq<Span>
    requires n <= |lines| && forall i :: 0 <= i < |lines| ==> lines[i].Valid()
  {
    if n == 0 then []
    else
      var line := lines[n - 1];
      KeptWithin(line);
      SpansThrough(u, lines, n - 1, top) + SpansOf(u, LineNumber(top, n - 1), line.text, Kept(Joined(line.found)))
  }

  /** The hints of a scan: the last label to the first of as many last spans as there are labels. */
  function Labelled(spans: seq<Span>): (hints: seq<Hint>)
    ensures |hints| == LabelCount(|spans|)
  {
    var labels := Labels(|spans|);
    seq(|labels|, i requires 0 <= i < |labels| => Hint(labels[|labels| - 1 - i], spans[|spans| - |labels| + i]))
  }

  /** `scan`. */
  method Scan(u: Unicode, lines: seq<ScannedLine>, top: nat) returns (hints: seq<Hint>)
    requires top <= U64_MAX && forall i :: 0 <= i < |lines| ==> lines[i].Valid()
    ensures hints == Labelled(SpansThrough(u, lines, |lines|, top))
  {
    hide Kept, Joined, Labels, ScannedLine.Valid;
    var spans: seq<Span> := [];
    for row := 0 to |lines|
      invariant spans == SpansThrough(u, lines, row, top)
    {
      var line := lines[row];
      var ranges := AllFound(line.found);
      var kept := KeepRanges(ranges);
      KeptWithin(line);
      var added: seq<Span> := [];
      for i := 0 to |kept|
        invariant |added| == i
        invariant forall k :: 0 <= k < i ==> added[k] == SpanOf(u, LineNumber(top, row), line.text, kept[k])
      {
        added := added + [SpanOf(u, LineNumber(top, row), line.text, kept[i])];
      }
      spans := spans + added;
    }
    var labels := AssignLabels(|spans|);
    var skip := |spans| - |labels|;
    hints := seq(|labels|, i requires 0 <= i < |labels| => Hint(labels[|labels| - 1 - i], spans[skip + i]));
  }

  /** Every pattern's matches, pattern by pattern. */
  method AllFound(found: seq<seq<Range>>) returns (ranges: seq<Range>)
    ensures ranges == Joined(found)
  {
    ranges := [];
    for i := 0 to |found|
      invariant ranges == Joined(found[..i])
    {
      assert found[..i + 1][..i] == found[..i];
      ranges := ranges + found[i];
    }
    assert found[..|found|] == found;
  }

  /** Whatever is found: as many hints as labels reach, on the last spans, with distinct prefix-free labels of which
      the last hint has the first. */
  lemma HintsArePicked(spans: seq<Span>)
    ensures (var hints := Labelled(spans);
             |hints| == Min(|spans|, LETTERS * LETTERS)
             && (forall i :: 0 <= i < |hints| ==> hints[i].span == spans[|spans| - |hints| + i])
             && (forall i, j :: 0 <= i < |hints| && 0 <= j < |hints| && i != j ==> !(hints[i].keys <= hints[j].keys))
             && (hints != [] ==> hints[|hints| - 1].keys == Labels(|spans|)[0]))
  {
    hide Labels;
    var hints := Labelled(spans);
    forall i, j | 0 <= i < |hints| && 0 <= j < |hints| && i != j ensures !(hints[i].keys <= hints[j].keys) {
      LabelsArePrefixFree(|spans|, |hints| - 1 - i, |hints| - 1 - j);
    }
  }

  // ---- What a scan shows ----

  /** A match of line `row` as a span: its text, from the column where it starts to the one where it ends, on the
      line's number in the history. */
  ghost predicate Shows(u: Unicode, lines: seq<ScannedLine>, top: nat, row: nat, r: Range, span: Span) {
    && row < |lines| && Within(r, lines[row].text)
    && (top + row <= U64_MAX ==> span.line == top + row)
    && span.text == lines[row].text[r.start..r.end]
    && (u.width(lines[row].text[..r.start]) <= U16_MAX ==> span.startColumn == u.width(lines[row].text[..r.start]))
    && (u.width(lines[row].text[..r.end]) <= U16_MAX && Additive(u, lines[row].text, r) ==>
          span.endColumn == u.width(lines[row].text[..r.end]))
    && span.startColumn <= span.endColumn <= U16_MAX
  }

  /** The text up to the end of a match measures what its two parts do. */
  ghost predicate Additive(u: Unicode, text: string, r: Range)
    requires Within(r, text)
  {
    u.width(text[..r.end]) == u.width(text[..r.start]) + u.width(text[r.start..r.end])
  }

  lemma SpanShows(u: Unicode, lines: seq<ScannedLine>, top: nat, row: nat, r: Range)
    requires row < |lines| && Within(r, lines[row].text)
    ensures Shows(u, lines, top, row, r, SpanOf(u, LineNumber(top, row), lines[row].text, r))
  {
  }

  /** Whether a match of a line is kept, as `KeptChooses` has it. */
  ghost predicate IsKept(lines: seq<ScannedLine>, row: nat, r: Range) {
    row < |lines| && r in Kept(Joined(lines[row].found))
  }

  /** Every span shows a kept match. */
  lemma {:induction false} SpanIsMatch(u: Unicode, lines: seq<ScannedLine>, n: nat, top: nat, i: nat)
    returns (row: nat, r: Range)
    requires n <= |lines| && forall j :: 0 <= j < |lines| ==> lines[j].Valid()
    requires i < |SpansThrough(u, lines, n, top)|
    ensures row < n && IsKept(lines, row, r) && Shows(u, lines, top, row, r, SpansThrough(u, lines, n, top)[i])
  {
    hide Kept, Joined, SpanOf, Shows, ScannedLine.Valid;
    var before := SpansThrough(u, lines, n - 1, top);
    if i < |before| {
      row, r := SpanIsMatch(u, lines, n - 1, top, i);
    } else {
      KeptWithin(lines[n - 1]);
      row, r := n - 1, Kept(Joined(lines[n - 1].found))[i - |before|];
      SpanShows(u, lines, top, row, r);
    }
  }

  /** Every kept match is shown by a span, in the order of lines, and of the matches of a line. */
  lemma {:induction false} MatchIsShown(u: Unicode, lines: seq<ScannedLine>, n: nat, top: nat, row: nat, k: nat)
    returns (i: nat)
    requires n <= |lines| && row < n && forall j :: 0 <= j < |lines| ==> lines[j].Valid()
    requires k < |Kept(Joined(lines[row].found))|
    ensures i == |SpansThrough(u, lines, row, top)| + k < |SpansThrough(u, lines, n, top)|
    ensures Shows(u, lines, top, row, Kept(Joined(lines[row].found))[k], SpansThrough(u, lines, n, top)[i])
  {
    hide Kept, Joined, SpanOf, Shows, ScannedLine.Valid;
    if row < n - 1 {
      i := MatchIsShown(u, lines, n - 1, top, row, k);
    } else {
      KeptWithin(lines[row]);
      i := |SpansThrough(u, lines, row, top)| + k;
      SpanShows(u, lines, top, row, Kept(Joined(lines[row].found))[k]);
    }
  }
}
