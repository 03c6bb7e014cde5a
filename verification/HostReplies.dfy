/** What the host terminal answers when the client attaches, and telling those replies from ones to
    panes' queries (host_terminal.rs). */
module HostReplies {
  import opened Text
  import opened Utf8

  const ESC: Byte := 0x1b
  /** The string terminator, `ESC \`. */
  const ST: Bytes := [0x1b, 0x5c]
  const VERSION_MARK: Bytes := [0x3e, 0x7c] // >|
  const PRESENT_MARK: Bytes := [0x31, 0x2b, 0x72] // 1+r
  const ABSENT_MARK: Bytes := [0x30, 0x2b, 0x72] // 0+r
  const SEMICOLON: Byte := 0x3b
  const EQUALS: Byte := 0x3d
  const COMMA: Byte := 0x2c
  const QUESTION: Byte := 0x3f
  /** `i=1162691154`, the image id of the client's own graphics query. */
  const GRAPHICS_ID: Bytes := [0x69, 0x3d, 0x31, 0x31, 0x36, 0x32, 0x36, 0x39, 0x31, 0x31, 0x35, 0x34]
  const SMULX: Bytes := [0x53, 0x6d, 0x75, 0x6c, 0x78]
  const SETULC: Bytes := [0x53, 0x65, 0x74, 0x75, 0x6c, 0x63]

  // ---- Reading the bodies ----

  /** The text before the first `sep`. */
  function Before(s: Bytes, sep: Byte): Bytes {
    if s == [] || s[0] == sep then [] else [s[0]] + Before(s[1..], sep)
  }

  /** What follows the first `sep`, if there is one. */
  function AfterFirst(s: Bytes, sep: Byte): (r: Option<Bytes>)
    ensures r.Some? ==> |r.value| < |s|
  {
    if s == [] then None else if s[0] == sep then Some(s[1..]) else AfterFirst(s[1..], sep)
  }

  /** `slice::split` by a byte. */
  function Split(s: Bytes, sep: Byte): (parts: seq<Bytes>)
    ensures parts != []
    decreases |s|
  {
    match AfterFirst(s, sep)
    case None => [Before(s, sep)]
    case Some(rest) => [Before(s, sep)] + Split(rest, sep)
  }

  function HexDigit(b: Byte): Option<nat> {
    if 0x30 <= b <= 0x39 then Some(b - 0x30)
    else if 0x41 <= b <= 0x46 then Some(b - 0x41 + 10)
    else if 0x61 <= b <= 0x66 then Some(b - 0x61 + 10)
    else None
  }

  /** `u8::from_str_radix` of two digits; a plus sign may stand for the first. */
  function HexByte(a: Byte, b: Byte): Option<Byte> {
    match (HexDigit(a), HexDigit(b))
    case (Some(x), Some(y)) => Some(16 * x + y)
    case (None, Some(y)) => if a == 0x2b then Some(y) else None
    case _ => None
  }

  function HexDecode(s: Bytes): Option<Bytes> {
    if s == [] then Some([])
    else if |s| == 1 then None
    else
      match (HexByte(s[0], s[1]), HexDecode(s[2..]))
      case (Some(b), Some(rest)) => Some([b] + rest)
      case _ => None
  }

  /** Each entry's name, read from its hex; no names at all when one entry's is not hex or not text. */
  function Names(entries: seq<Bytes>): Option<seq<Bytes>> {
    if entries == [] then Some([])
    else
      match (HexDecode(Before(entries[0], EQUALS)), Names(entries[1..]))
      case (Some(name), Some(rest)) => if IsText(name) then Some([name] + rest) else None
      case _ => None
  }

  function TermcapReplyNames(entries: Bytes): Option<seq<Bytes>> {
    Names(Split(entries, SEMICOLON))
  }

  /** Whether an APC body answers the client's graphics query. */
  predicate IsGraphicsQueryReply(body: Bytes) {
    body != [] && body[0] == 0x47 && GRAPHICS_ID in Split(Before(body[1..], SEMICOLON), COMMA)
  }

  /** Present and absent termcap replies: the bytes after the mark. */
  function TermcapBody(body: Bytes): Option<Bytes> {
    if PRESENT_MARK <= body || ABSENT_MARK <= body then Some(body[3..]) else None
  }

  function ToSet<T>(s: seq<T>): set<T> {
    set x | x in s
  }

  // ---- What the replies say ----

  datatype Replies = Replies(
    version: Option<Bytes>,
    termcaps: set<Bytes>,
    answered: set<Bytes>,
    graphics: bool,
    deviceAttributes: bool)

  const NONE: Replies := Replies(None, {}, {}, false, false)

  function AddDcs(r: Replies, body: Bytes): Replies {
    if VERSION_MARK <= body then r.(version := Some(body[2..]))
    else if PRESENT_MARK <= body then
      match TermcapReplyNames(body[3..])
      case None => r
      case Some(names) => r.(answered := r.answered + ToSet(names), termcaps := r.termcaps + ToSet(names))
    else if ABSENT_MARK <= body then
      match TermcapReplyNames(body[3..])
      case None => r
      case Some(names) => r.(answered := r.answered + ToSet(names))
    else r
  }

  function AddApc(r: Replies, body: Bytes): Replies {
    if IsGraphicsQueryReply(body) then r.(graphics := true) else r
  }

  function AddCsi(r: Replies, body: Bytes, final: Byte): Replies {
    if final == 0x63 && body != [] && body[0] == QUESTION then r.(deviceAttributes := true) else r
  }

  /** The position of the next string terminator. */
  function FindSt(s: Bytes): (n: Option<nat>)
    ensures n.Some? ==> n.value + 2 <= |s|
  {
    if |s| < 2 then None
    else if s[0] == 0x1b && s[1] == 0x5c then Some(0)
    else match FindSt(s[1..])
      case None => None
      case Some(n) => Some(n + 1)
  }

  /** The position of the next byte that ends a CSI sequence. */
  function FindFinal(s: Bytes): (n: Option<nat>)
    ensures n.Some? ==> n.value < |s|
  {
    if s == [] then None
    else if 0x40 <= s[0] <= 0x7e then Some(0)
    else match FindFinal(s[1..])
      case None => None
      case Some(n) => Some(n + 1)
  }

  /** `HostReplies::parse` of the rest of what the host sent. */
  function ParseRest(s: Bytes, r: Replies): Replies
    decreases |s|
  {
    if s == [] then r
    else if s[0] != ESC || |s| == 1 then ParseRest(s[1..], r)
    else if s[1] == 0x50 then
      match FindSt(s[2..])
      case None => r
      case Some(n) => ParseRest(s[n + 4..], AddDcs(r, s[2..n + 2]))
    else if s[1] == 0x5f then
      match FindSt(s[2..])
      case None => r
      case Some(n) => ParseRest(s[n + 4..], AddApc(r, s[2..n + 2]))
    else if s[1] == 0x5b then
      match FindFinal(s[2..])
      case None => r
      case Some(n) => ParseRest(s[n + 3..], AddCsi(r, s[2..n + 2], s[n + 2]))
    else ParseRest(s[1..], r)
  }

  function Parse(s: Bytes): Replies {
    ParseRest(s, NONE)
  }

  /** One step of the loop: where it goes on and what it has found. */
  function ParseStep(s: Bytes, i: nat, r: Replies): (next: Option<(nat, Replies)>)
    requires i < |s|
    ensures next.Some? ==> i < next.value.0 <= |s|
  {
    if s[i] != ESC || i + 1 == |s| then Some((i + 1, r))
    else if s[i + 1] == 0x50 then
      match FindSt(s[i + 2..])
      case None => None
      case Some(n) => Some((i + n + 4, AddDcs(r, s[i + 2..i + n + 2])))
    else if s[i + 1] == 0x5f then
      match FindSt(s[i + 2..])
      case None => None
      case Some(n) => Some((i + n + 4, AddApc(r, s[i + 2..i + n + 2])))
    else if s[i + 1] == 0x5b then
      match FindFinal(s[i + 2..])
      case None => None
      case Some(n) => Some((i + n + 3, AddCsi(r, s[i + 2..i + n + 2], s[i + n + 2])))
    else Some((i + 1, r))
  }

  lemma ParseStepIsRest(s: Bytes, i: nat, r: Replies)
    requires i < |s|
    ensures (match ParseStep(s, i, r)
             case None => ParseRest(s[i..], r) == r
             case Some((next, after)) => ParseRest(s[i..], r) == ParseRest(s[next..], after))
  {
    hide AddDcs, AddApc, AddCsi, FindSt, FindFinal;
    var rest := s[i..];
    assert rest[1..] == s[i + 1..];
    if i + 1 < |s| {
      assert rest[2..] == s[i + 2..];
      match FindSt(s[i + 2..]) {
        case None =>
        case Some(n) => assert rest[n + 4..] == s[i + n + 4..] && rest[2..n + 2] == s[i + 2..i + n + 2];
      }
      match FindFinal(s[i + 2..]) {
        case None =>
        case Some(n) =>
          assert rest[n + 3..] == s[i + n + 3..] && rest[2..n + 2] == s[i + 2..i + n + 2];
          assert rest[n + 2] == s[i + n + 2];
      }
    }
  }

  /** `HostReplies::parse`. */
  method ParseReplies(bytes: Bytes) returns (replies: Replies)
    ensures replies == Parse(bytes)
  {
    hide ParseRest, AddDcs, AddApc, AddCsi, FindSt, FindFinal;
    replies := NONE;
    var index := 0;
    assert bytes[0..] == bytes;
    while index < |bytes|
      invariant index <= |bytes|
      invariant ParseRest(bytes[index..], replies) == Parse(bytes)
    {
      ParseStepIsRest(bytes, index, replies);
      if bytes[index] != ESC || index + 1 == |bytes| {
        index := index + 1;
      } else if bytes[index + 1] == 0x50 {
        var length := FindSt(bytes[index + 2..]);
        if length == None { return; }
        replies := AddDcs(replies, bytes[index + 2..index + length.value + 2]);
        index := index + length.value + 4;
      } else if bytes[index + 1] == 0x5f {
        var length := FindSt(bytes[index + 2..]);
        if length == None { return; }
        replies := AddApc(replies, bytes[index + 2..index + length.value + 2]);
        index := index + length.value + 4;
      } else if bytes[index + 1] == 0x5b {
        var length := FindFinal(bytes[index + 2..]);
        if length == None { return; }
        replies := AddCsi(replies, bytes[index + 2..index + length.value + 2], bytes[index + length.value + 2]);
        index := index + length.value + 3;
      } else {
        index := index + 1;
      }
    }
    ParseNothing(bytes, replies);
  }

  lemma ParseNothing(s: Bytes, r: Replies)
    ensures ParseRest(s[|s|..], r) == r
  {
  }

  // ---- Complete control sequences ----

  datatype Control = Dcs(body: Bytes) | Apc(body: Bytes) | Csi(body: Bytes, final: Byte)
  {
    /** A complete sequence: nothing in its body ends it early. */
    predicate Complete() {
      match this
      case Dcs(body) => ESC !in body
      case Apc(body) => ESC !in body
      case Csi(body, final) => 0x40 <= final <= 0x7e && forall i :: 0 <= i < |body| ==> !(0x40 <= body[i] <= 0x7e)
    }

    function Encoded(): Bytes {
      match this
      case Dcs(body) => [0x1b, 0x50] + body + ST
      case Apc(body) => [0x1b, 0x5f] + body + ST
      case Csi(body, final) => [0x1b, 0x5b] + body + [final]
    }
  }

  function Add(r: Replies, c: Control): Replies {
    match c
    case Dcs(body) => AddDcs(r, body)
    case Apc(body) => AddApc(r, body)
    case Csi(body, final) => AddCsi(r, body, final)
  }

  function EncodedAll(controls: seq<Control>): Bytes {
    if controls == [] then [] else controls[0].Encoded() + EncodedAll(controls[1..])
  }

  lemma {:induction false} FindStAt(body: Bytes, rest: Bytes)
    requires ESC !in body
    ensures FindSt(body + ST + rest) == Some(|body|)
  {
    var s := body + ST + rest;
    if body != [] {
      assert s[0] == body[0] && s[1..] == body[1..] + ST + rest;
      FindStAt(body[1..], rest);
    }
  }

  lemma {:induction false} FindFinalAt(body: Bytes, final: Byte, rest: Bytes)
    requires 0x40 <= final <= 0x7e && forall i :: 0 <= i < |body| ==> !(0x40 <= body[i] <= 0x7e)
    ensures FindFinal(body + [final] + rest) == Some(|body|)
  {
    var s := body + [final] + rest;
    if body != [] {
      assert s[0] == body[0] && s[1..] == body[1..] + [final] + rest;
      FindFinalAt(body[1..], final, rest);
    }
  }

  /** One turn of the loop on a control string that `kind` introduces. */
  lemma ParseString(kind: Byte, body: Bytes, rest: Bytes, r: Replies)
    requires ESC !in body && (kind == 0x50 || kind == 0x5f)
    ensures (var s := [0x1b, kind] + body + ST + rest;
             ParseRest(s, r) == ParseRest(rest, if kind == 0x50 then AddDcs(r, body) else AddApc(r, body)))
  {
    hide AddDcs, AddApc, AddCsi, FindSt, FindFinal;
    var s := [0x1b, kind] + body + ST + rest;
    FindStAt(body, rest);
    assert s[2..] == body + ST + rest;
    assert s[|body| + 4..] == rest;
    assert s[2..|body| + 2] == body;
  }

  /** A complete sequence in front is taken whole. */
  lemma ParseControl(c: Control, rest: Bytes, r: Replies)
    requires c.Complete()
    ensures ParseRest(c.Encoded() + rest, r) == ParseRest(rest, Add(r, c))
  {
    hide ParseRest, AddDcs, AddApc, AddCsi, FindSt, FindFinal;
    match c
    case Dcs(body) =>
      ParseString(0x50, body, rest, r);
    case Apc(body) =>
      ParseString(0x5f, body, rest, r);
    case Csi(body, final) =>
      var s := [0x1b, 0x5b] + body + [final] + rest;
      FindFinalAt(body, final, rest);
      assert s[2..] == body + [final] + rest;
      assert s[|body| + 3..] == rest && s[2..|body| + 2] == body && s[|body| + 2] == final;
      ParseStepIsRest(s, 0, r);
      assert s[0..] == s;
  }

  /** What two sets of replies say together; a later version replaces an earlier one. */
  function Union(a: Replies, b: Replies): Replies {
    Replies(if b.version.Some? then b.version else a.version, a.termcaps + b.termcaps, a.answered + b.answered,
            a.graphics || b.graphics, a.deviceAttributes || b.deviceAttributes)
  }

  lemma AddIsUnion(r: Replies, c: Control)
    ensures Add(r, c) == Union(r, Add(NONE, c))
  {
    hide TermcapReplyNames, IsGraphicsQueryReply;
  }

  lemma ParseAlone(c: Control)
    requires c.Complete()
    ensures Parse(c.Encoded()) == Add(NONE, c)
  {
    ParseControl(c, [], NONE);
    assert c.Encoded() + [] == c.Encoded();
  }

  function UnionAll(r: Replies, controls: seq<Control>): Replies
    decreases |controls|
  {
    if controls == [] then r else UnionAll(Union(r, Parse(controls[0].Encoded())), controls[1..])
  }

  /** Parsing complete sequences together is the union of parsing each alone. */
  lemma {:induction false} ParseIsUnion(controls: seq<Control>, r: Replies)
    requires forall i :: 0 <= i < |controls| ==> controls[i].Complete()
    ensures ParseRest(EncodedAll(controls), r) == UnionAll(r, controls)
  {
    hide ParseRest, Parse, Add, Union;
    if controls == [] {
      ParseNothing([], r);
    } else {
      ParseControl(controls[0], EncodedAll(controls[1..]), r);
      AddIsUnion(r, controls[0]);
      ParseAlone(controls[0]);
      ParseIsUnion(controls[1..], Add(r, controls[0]));
    }
  }

  // ---- Replies to XTGETTCAP ----

  function HexOfDigit(d: nat, upper: bool): (b: Byte)
    requires d < 16
    ensures HexDigit(b) == Some(d) && b != SEMICOLON && b != EQUALS && b != ESC
  {
    if d < 10 then 0x30 + d else if upper then 0x41 + d - 10 else 0x61 + d - 10
  }

  /** The hex of a name, in either case. */
  function Hex(s: Bytes, upper: bool): Bytes {
    if s == [] then [] else [HexOfDigit(s[0] / 16, upper), HexOfDigit(s[0] % 16, upper)] + Hex(s[1..], upper)
  }

  /** An entry: a name in hex, then nothing or `=` and a value. */
  datatype Entry = Entry(name: Bytes, upper: bool, value: Option<Bytes>)
  {
    predicate Valid() {
      IsText(name) && (value.Some? ==> SEMICOLON !in value.value && ESC !in value.value)
    }

    function Encoded(): Bytes {
      Hex(name, upper) + if value.Some? then [EQUALS] + value.value else []
    }
  }

  function EntriesEncoded(entries: seq<Entry>): Bytes
    requires entries != []
  {
    if |entries| == 1 then entries[0].Encoded() else entries[0].Encoded() + [SEMICOLON] + EntriesEncoded(entries[1..])
  }

  function EntryNames(entries: seq<Entry>): seq<Bytes> {
    if entries == [] then [] else [entries[0].name] + EntryNames(entries[1..])
  }

  lemma {:induction false} HexDecodes(s: Bytes, upper: bool)
    ensures HexDecode(Hex(s, upper)) == Some(s)
    ensures SEMICOLON !in Hex(s, upper) && EQUALS !in Hex(s, upper) && ESC !in Hex(s, upper)
  {
    if s != [] {
      HexDecodes(s[1..], upper);
      assert Hex(s, upper)[2..] == Hex(s[1..], upper);
      assert s == [s[0]] + s[1..];
    }
  }

  lemma {:induction false} BeforeFirst(head: Bytes, sep: Byte, rest: Bytes)
    requires sep !in head && (rest == [] || rest[0] == sep)
    ensures Before(head + rest, sep) == head
    ensures AfterFirst(head + rest, sep) == if rest == [] then None else Some(rest[1..])
  {
    if head == [] {
      assert head + rest == rest;
    } else {
      assert (head + rest)[1..] == head[1..] + rest;
      BeforeFirst(head[1..], sep, rest);
    }
  }

  /** The names of a well-formed reply are read back from it, in either case of hex, whatever the values. */
  lemma {:induction false} TermcapNamesReadBack(entries: seq<Entry>)
    requires entries != [] && forall i :: 0 <= i < |entries| ==> entries[i].Valid()
    ensures TermcapReplyNames(EntriesEncoded(entries)) == Some(EntryNames(entries))
  {
    var entry, encoded := entries[0], entries[0].Encoded();
    HexDecodes(entry.name, entry.upper);
    BeforeFirst(Hex(entry.name, entry.upper), EQUALS, if entry.value.Some? then [EQUALS] + entry.value.value else []);
    if |entries| == 1 {
      BeforeFirst(encoded, SEMICOLON, []);
      assert encoded + [] == encoded;
      assert Split(encoded, SEMICOLON) == [encoded];
      assert Names([encoded][1..]) == Some([]);
      assert Names([encoded]) == Some([entry.name] + []);
      assert EntryNames(entries) == [entry.name] + [];
    } else {
      var rest := EntriesEncoded(entries[1..]);
      BeforeFirst(encoded, SEMICOLON, [SEMICOLON] + rest);
      Assoc(encoded, [SEMICOLON], rest);
      assert ([SEMICOLON] + rest)[1..] == rest;
      TermcapNamesReadBack(entries[1..]);
      assert Split(EntriesEncoded(entries), SEMICOLON) == [encoded] + Split(rest, SEMICOLON);
    }
  }

  lemma {:induction false} EntriesAreWhole(entries: seq<Entry>)
    requires entries != [] && forall i :: 0 <= i < |entries| ==> entries[i].Valid()
    ensures ESC !in EntriesEncoded(entries)
  {
    HexDecodes(entries[0].name, entries[0].upper);
    if |entries| > 1 {
      EntriesAreWhole(entries[1..]);
    }
  }

  /** The mark of a termcap reply: the capabilities are present, or absent. */
  function Mark(present: bool): Bytes {
    if present then PRESENT_MARK else ABSENT_MARK
  }

  lemma {:induction false} TermcapIsWhole(present: bool, entries: seq<Entry>)
    requires entries != [] && forall i :: 0 <= i < |entries| ==> entries[i].Valid()
    ensures Dcs(Mark(present) + EntriesEncoded(entries)).Complete()
  {
    hide EntriesEncoded, Entry.Valid;
    EntriesAreWhole(entries);
  }

  lemma MarkedBody(present: bool, rest: Bytes)
    ensures (var body := Mark(present) + rest; !(VERSION_MARK <= body) && TermcapBody(body) == Some(rest))
  {
    var body := Mark(present) + rest;
    assert body[3..] == rest && body[0] == Mark(present)[0];
  }
}
