/** Shared vocabulary: optional values, results, and the Unicode tables the client consults. */
module Text {

  datatype Option<+T> = None | Some(value: T)

  datatype Result<+T, +E> = Ok(value: T) | Err(error: E)

  const U16_MAX: nat := 65535

  /** `u16::saturating_add`. */
  function SatAdd(a: nat, b: nat): nat {
    if a + b < U16_MAX then a + b else U16_MAX
  }

  function Min(a: int, b: int): int {
    if a < b then a else b
  }

  function Max(a: int, b: int): int {
    if a < b then b else a
  }

  function Repeat<T>(x: T, n: nat): (s: seq<T>)
    ensures |s| == n && forall i :: 0 <= i < n ==> s[i] == x
  {
    seq(n, i => x)
  }

  lemma Assoc<T>(a: seq<T>, b: seq<T>, c: seq<T>)
    ensures a + b + c == a + (b + c)
  {
  }

  const SPACE: string := " "
  /** U+FFFD. */
  const REPLACEMENT: char := '\U{FFFD}'
  /** Variation selector 16. */
  const EMOJI_PRESENTATION: char := '\U{FE0F}'
  const ZERO_WIDTH_JOINER: char := '\U{200D}'

  predicate IsRegionalIndicator(ch: char) {
    '\U{1F1E6}' <= ch <= '\U{1F1FF}'
  }

  predicate Regional(text: string) {
    exists i :: 0 <= i < |text| && IsRegionalIndicator(text[i])
  }

  predicate IsAscii(text: string) {
    forall i :: 0 <= i < |text| ==> text[i] < '\U{80}'
  }

  /** Unicode's control characters (category Cc). */
  predicate IsControl(ch: char) {
    ch < ' ' || '\U{7F}' <= ch <= '\U{9F}'
  }

  ghost predicate KeptAt(text: string, out: string, at: seq<nat>, keep: char -> bool) {
    && |at| == |out| && (forall i, j :: 0 <= i < j < |at| ==> at[i] < at[j])
    && (forall i :: 0 <= i < |at| ==> at[i] < |text| && out[i] == text[at[i]] && keep(out[i]))
  }

  ghost predicate Everything(text: string, at: seq<nat>, keep: char -> bool) {
    forall j: nat :: j < |text| && keep(text[j]) ==> j in at
  }

  /** `out` is `text` without the characters that are not kept, in order. */
  ghost predicate Sieved(text: string, out: string, keep: char -> bool) {
    exists at :: KeptAt(text, out, at, keep) && Everything(text, at, keep)
  }

  function Later(at: seq<nat>): (r: seq<nat>)
    ensures |r| == |at| && forall i :: 0 <= i < |at| ==> r[i] == at[i] + 1
  {
    seq(|at|, i requires 0 <= i < |at| => at[i] + 1)
  }

  lemma SievedNone(keep: char -> bool)
    ensures Sieved("", "", keep)
  {
    assert KeptAt("", "", [], keep) && Everything("", [], keep);
  }

  lemma SievedMore(text: string, out: string, keep: char -> bool)
    requires text != "" && Sieved(text[1..], out, keep)
    ensures Sieved(text, (if keep(text[0]) then [text[0]] else []) + out, keep)
  {
    hide KeptAt, Everything;
    var at :| KeptAt(text[1..], out, at, keep) && Everything(text[1..], at, keep);
    KeptMore(text, out, at, keep);
    EverythingMore(text, at, keep);
  }

  lemma KeptMore(text: string, out: string, at: seq<nat>, keep: char -> bool)
    requires text != "" && KeptAt(text[1..], out, at, keep)
    ensures (var (first, position) := if keep(text[0]) then ([text[0]], [0]) else ([], []);
             KeptAt(text, first + out, position + Later(at), keep))
  {
  }

  lemma EverythingMore(text: string, at: seq<nat>, keep: char -> bool)
    requires text != "" && Everything(text[1..], at, keep)
    ensures Everything(text, (if keep(text[0]) then [0] else []) + Later(at), keep)
  {
    var first: seq<nat> := if keep(text[0]) then [0] else [];
    forall j: nat | j < |text| && keep(text[j])
      ensures j in first + Later(at)
    {
      if j > 0 {
        assert text[j] == text[1..][j - 1];
        var i :| 0 <= i < |at| && at[i] == j - 1;
        assert (first + Later(at))[|first| + i] == j;
      }
    }
  }

  predicate NotControl(ch: char) {
    !IsControl(ch)
  }

  lemma {:induction false} WithoutControlsSieves(text: string)
    ensures Sieved(text, WithoutControls(text), NotControl)
  {
    if text == [] {
      SievedNone(NotControl);
    } else {
      WithoutControlsSieves(text[1..]);
      SievedMore(text, WithoutControls(text[1..]), NotControl);
    }
  }

  function WithoutControls(text: string): string {
    if text == [] then []
    else (if IsControl(text[0]) then [] else [text[0]]) + WithoutControls(text[1..])
  }

  /** `text` without the two characters that ask for, or glue together, wide emoji forms. */
  function Narrowed(text: string): string {
    if text == [] then []
    else (if text[0] == EMOJI_PRESENTATION || text[0] == ZERO_WIDTH_JOINER then [] else [text[0]])
         + Narrowed(text[1..])
  }

  predicate NotJoiner(ch: char) {
    ch != EMOJI_PRESENTATION && ch != ZERO_WIDTH_JOINER
  }

  lemma {:induction false} NarrowedSieves(text: string)
    ensures Sieved(text, Narrowed(text), NotJoiner)
  {
    if text == [] {
      SievedNone(NotJoiner);
    } else {
      NarrowedSieves(text[1..]);
      SievedMore(text, Narrowed(text[1..]), NotJoiner);
    }
  }

  /** The Unicode tables the client links in: string and character widths, the split of a text
      into extended grapheme clusters (section 3 of UAX #29), and two character properties.
      They are parameters of the model. */
  datatype Unicode = Unicode(
    width: string -> nat,
    charWidth: char -> nat,
    graphemes: string -> seq<string>,
    whitespace: char -> bool,
    alphanumeric: char -> bool)
  {
    /** Columns a cluster covers as one cell: its width, at least one. */
    function GraphemeWidth(text: string): (w: nat)
      ensures 1 <= w <= U16_MAX
      ensures width(text) == 0 ==> w == 1
      ensures 1 <= width(text) <= U16_MAX ==> w == width(text)
    {
      Min(Max(width(text), 1), U16_MAX)
    }

    predicate OneCluster(text: string) {
      |graphemes(text)| <= 1
    }

    /** What the renderer needs of the tables. */
    ghost predicate Valid() {
      && (forall text, i :: 0 <= i < |graphemes(text)| ==> graphemes(text)[i] != [])
      && (forall n: nat :: graphemes(Repeat(' ', n)) == Repeat(SPACE, n))
      && (forall n: nat :: width(Repeat(REPLACEMENT, n)) == n)
      && (forall ch: char :: graphemes([ch]) == [[ch]])
      && width(SPACE) == 1
      && (forall text :: Narrowed(text) == [] ==> width(text) <= 1)
      && (forall text, n: nat :: width(text + Repeat(' ', n)) == width(text) + n)
    }
  }
}
