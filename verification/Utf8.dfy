/** UTF-8 (section 3 of RFC 3629): encoding characters, and which byte strings are text. */
module Utf8 {
  import opened Text

  type Byte = b: int | 0 <= b < 256

  type Bytes = seq<Byte>

  predicate Tail(b: Byte) {
    0x80 <= b <= 0xbf
  }

  /** How many bytes the character that starts with `b` takes. */
  function SizeFrom(b: Byte): (n: nat)
    ensures 1 <= n <= 4
  {
    if b < 0xc0 then 1 else if b < 0xe0 then 2 else if b < 0xf0 then 3 else 4
  }

  function Encode(ch: char): (s: Bytes)
    ensures 1 <= |s| <= 4 && |s| == SizeFrom(s[0])
    ensures !Tail(s[0]) && forall i :: 1 <= i < |s| ==> Tail(s[i])
  {
    var c := ch as int;
    if c < 0x80 then [c]
    else if c < 0x800 then [0xc0 + c / 0x40, 0x80 + c % 0x40]
    else if c < 0x10000 then [0xe0 + c / 0x1000, 0x80 + c / 0x40 % 0x40, 0x80 + c % 0x40]
    else [0xf0 + c / 0x40000, 0x80 + c / 0x1000 % 0x40, 0x80 + c / 0x40 % 0x40, 0x80 + c % 0x40]
  }

  function EncodeAll(text: string): Bytes {
    if text == "" then [] else Encode(text[0]) + EncodeAll(text[1..])
  }

  /** Whether `bytes` starts with a character, in the ranges of the standard's grammar. */
  predicate StartsWithChar(bytes: Bytes) {
    bytes != [] &&
    var b := bytes[0];
    if b < 0x80 then true
    else if 0xc2 <= b <= 0xdf then |bytes| >= 2 && Tail(bytes[1])
    else if 0xe0 <= b <= 0xef then
      |bytes| >= 3 && Tail(bytes[1]) && Tail(bytes[2])
      && (b == 0xe0 ==> bytes[1] >= 0xa0) && (b == 0xed ==> bytes[1] <= 0x9f)
    else if 0xf0 <= b <= 0xf4 then
      |bytes| >= 4 && Tail(bytes[1]) && Tail(bytes[2]) && Tail(bytes[3])
      && (b == 0xf0 ==> bytes[1] >= 0x90) && (b == 0xf4 ==> bytes[1] <= 0x8f)
    else false
  }

  predicate IsText(bytes: Bytes)
    decreases |bytes|
  {
    bytes == [] || (StartsWithChar(bytes) && SizeFrom(bytes[0]) <= |bytes| && IsText(bytes[SizeFrom(bytes[0])..]))
  }

  lemma {:induction false} EncodeConcat(a: string, b: string)
    ensures EncodeAll(a + b) == EncodeAll(a) + EncodeAll(b)
  {
    if a == "" {
      assert a + b == b;
    } else {
      assert (a + b)[1..] == a[1..] + b;
      EncodeConcat(a[1..], b);
      Assoc(Encode(a[0]), EncodeAll(a[1..]), EncodeAll(b));
    }
  }

  lemma EncodeIsChar(ch: char, rest: Bytes)
    ensures StartsWithChar(Encode(ch) + rest)
  {
    var s := Encode(ch);
    var c := ch as int;
    var all := s + rest;
    assert forall i :: 0 <= i < |s| ==> all[i] == s[i];
  }

  /** Encoded text is text. */
  lemma {:induction false} EncodedIsText(text: string)
    ensures IsText(EncodeAll(text))
  {
    if text != "" {
      var s := Encode(text[0]);
      EncodedIsText(text[1..]);
      EncodeIsChar(text[0], EncodeAll(text[1..]));
      assert (s + EncodeAll(text[1..]))[|s|..] == EncodeAll(text[1..]);
    }
  }

  /** The code of the character `bytes` starts with. */
  function Code(bytes: Bytes): (c: int)
    requires StartsWithChar(bytes)
    ensures 0 <= c < 0xd800 || 0xe000 <= c < 0x11_0000
  {
    var b: int := bytes[0];
    if b < 0x80 then b
    else
      var b1: int := bytes[1] - 0x80;
      if b < 0xe0 then (b - 0xc0) * 0x40 + b1
      else
        var b2: int := bytes[2] - 0x80;
        if b < 0xf0 then (b - 0xe0) * 0x1000 + b1 * 0x40 + b2
        else
          var b3: int := bytes[3] - 0x80;
          (b - 0xf0) * 0x40000 + b1 * 0x1000 + b2 * 0x40 + b3
  }

  /** A character read back from its bytes, whatever follows them. */
  lemma CodeOfEncode(ch: char, rest: Bytes)
    ensures StartsWithChar(Encode(ch) + rest) && Code(Encode(ch) + rest) == ch as int
  {
    EncodeIsChar(ch, rest);
    var s := Encode(ch);
    var all := s + rest;
    assert all[0] == s[0];
    if |s| > 1 { assert all[1] == s[1]; }
    if |s| > 2 { assert all[2] == s[2]; }
    if |s| > 3 { assert all[3] == s[3]; }
    Groups(ch as int);
  }

  lemma Groups(c: int)
    requires 0 <= c
    ensures c == c / 0x40 * 0x40 + c % 0x40
    ensures c == c / 0x1000 * 0x1000 + c / 0x40 % 0x40 * 0x40 + c % 0x40
    ensures c == c / 0x40000 * 0x40000 + c / 0x1000 % 0x40 * 0x1000 + c / 0x40 % 0x40 * 0x40 + c % 0x40
  {
    assert c / 0x40 / 0x40 == c / 0x1000;
    assert c / 0x1000 / 0x40 == c / 0x40000;
  }

  /** The characters of a text, as `str::chars` gives them. */
  function Chars(bytes: Bytes): string
    requires IsText(bytes)
    decreases |bytes|
  {
    if bytes == [] then "" else [Code(bytes) as char] + Chars(bytes[SizeFrom(bytes[0])..])
  }

  /** Reading encoded text gives the text. */
  lemma {:induction false} CharsOfEncoded(text: string)
    ensures IsText(EncodeAll(text)) && Chars(EncodeAll(text)) == text
  {
    EncodedIsText(text);
    if text != "" {
      var s, rest := Encode(text[0]), EncodeAll(text[1..]);
      CharsOfEncoded(text[1..]);
      CodeOfEncode(text[0], rest);
      assert (s + rest)[|s|..] == rest && (s + rest)[0] == s[0];
      assert [text[0]] + text[1..] == text;
    }
  }

  /** A character's bytes are the only ones that read as it. */
  lemma EncodeOfCode(bytes: Bytes)
    requires StartsWithChar(bytes)
    ensures SizeFrom(bytes[0]) <= |bytes| && Encode(Code(bytes) as char) == bytes[..SizeFrom(bytes[0])]
  {
    var n := SizeFrom(bytes[0]);
    var b0: int := bytes[0];
    if n == 2 {
      Digits2(b0 - 0xc0, bytes[1] - 0x80);
    } else if n == 3 {
      Digits3(b0 - 0xe0, bytes[1] - 0x80, bytes[2] - 0x80);
    } else if n == 4 {
      Digits4(b0 - 0xf0, bytes[1] - 0x80, bytes[2] - 0x80, bytes[3] - 0x80);
    }
  }

  lemma Digits2(a: int, b: int)
    requires 0 <= b < 0x40
    ensures (var c := a * 0x40 + b; c / 0x40 == a && c % 0x40 == b)
  {
  }

  lemma Digits3(a: int, b: int, d: int)
    requires 0 <= b < 0x40 && 0 <= d < 0x40
    ensures (var c := a * 0x1000 + b * 0x40 + d; c / 0x1000 == a && c / 0x40 % 0x40 == b && c % 0x40 == d)
  {
    Digits2(a * 0x40 + b, d);
    Digits2(a, b);
  }

  lemma Digits4(a: int, b: int, d: int, e: int)
    requires 0 <= b < 0x40 && 0 <= d < 0x40 && 0 <= e < 0x40
    ensures (var c := a * 0x40000 + b * 0x1000 + d * 0x40 + e;
             c / 0x40000 == a && c / 0x1000 % 0x40 == b && c / 0x40 % 0x40 == d && c % 0x40 == e)
  {
    Digits2(a * 0x1000 + b * 0x40 + d, e);
    Digits3(a, b, d);
  }

  /** A text is the encoding of its characters. */
  lemma {:induction false} EncodedChars(bytes: Bytes)
    requires IsText(bytes)
    ensures EncodeAll(Chars(bytes)) == bytes
    decreases |bytes|
  {
    hide StartsWithChar, Code, Encode;
    if bytes != [] {
      var n := SizeFrom(bytes[0]);
      EncodeOfCode(bytes);
      EncodedChars(bytes[n..]);
      var text := Chars(bytes);
      assert text[0] == Code(bytes) as char && text[1..] == Chars(bytes[n..]);
      assert bytes == bytes[..n] + bytes[n..];
    }
  }

  /** Where the character `n` of `text` starts in its bytes. */
  function Boundary(text: string, n: nat): nat
    requires n <= |text|
  {
    |EncodeAll(text[..n])|
  }

  /** `str::is_char_boundary`. */
  predicate IsCharBoundary(bytes: Bytes, at: nat) {
    at <= |bytes| && (at == |bytes| || !Tail(bytes[at]))
  }

  lemma CutAt(text: string, n: nat)
    requires n <= |text|
    ensures (var (bytes, at) := (EncodeAll(text), Boundary(text, n));
             IsCharBoundary(bytes, at) && bytes[..at] == EncodeAll(text[..n]) && bytes[at..] == EncodeAll(text[n..])
             && (at < |bytes| <==> n < |text|) && (n < |text| ==> SizeFrom(bytes[at]) == |Encode(text[n])|))
  {
    EncodeConcat(text[..n], text[n..]);
    assert text == text[..n] + text[n..];
    if n < |text| {
      assert EncodeAll(text[n..]) == Encode(text[n]) + EncodeAll(text[n + 1..]) by {
        assert text[n..][1..] == text[n + 1..];
      }
    }
  }

  lemma BoundaryAfter(text: string, n: nat)
    requires n < |text|
    ensures Boundary(text, n + 1) == Boundary(text, n) + |Encode(text[n])|
  {
    assert text[..n + 1] == text[..n] + [text[n]];
    EncodeConcat(text[..n], [text[n]]);
    assert EncodeAll([text[n]]) == Encode(text[n]) + [];
  }

  lemma {:induction false} BoundariesAscend(text: string, a: nat, b: nat)
    requires a <= b <= |text|
    ensures Boundary(text, a) <= Boundary(text, b)
  {
    if a < b {
      BoundariesAscend(text, a, b - 1);
      BoundaryAfter(text, b - 1);
    }
  }

  /** Putting text in place of the bytes between two boundaries is
      putting it in place of the characters between them. */
  lemma SpliceIsReplace(text: string, from: nat, to: nat, s: string)
    requires from <= to <= |text|
    ensures (var (bytes, a, b) := (EncodeAll(text), Boundary(text, from), Boundary(text, to));
             a <= b <= |bytes| && bytes[..a] + EncodeAll(s) + bytes[b..] == EncodeAll(text[..from] + s + text[to..]))
  {
    CutAt(text, from);
    CutAt(text, to);
    BoundariesAscend(text, from, to);
    EncodeConcat(text[..from] + s, text[to..]);
    EncodeConcat(text[..from], s);
  }
}
