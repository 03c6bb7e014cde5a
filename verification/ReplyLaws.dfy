/** What the client takes the host to have said, in terms of the replies as hosts write them
    (host_terminal.rs). */
module ReplyLaws {
  import opened Text
  import opened Utf8
  import opened HostReplies

  /** A reply: the host's version, capabilities that are present or absent, such a list with a name that cannot be
      read, or any other sequence. */
  datatype Said =
    | Version(text: Bytes)
    | Capabilities(present: bool, entries: seq<Entry>)
    | Garbled(present: bool, list: Bytes)
    | Other(control: Control)
  {
    ghost predicate Valid() {
      match this
      case Version(text) => ESC !in text
      case Capabilities(_, entries) => entries != [] && forall i :: 0 <= i < |entries| ==> entries[i].Valid()
      case Garbled(_, list) => ESC !in list && TermcapReplyNames(list) == None
      case Other(control) => control.Complete() && (control.Dcs? ==> !Marked(control.body))
    }

    function Control(): Control
      requires Valid()
    {
      match this
      case Version(text) => Dcs(VERSION_MARK + text)
      case Capabilities(present, entries) => Dcs(Mark(present) + EntriesEncoded(entries))
      case Garbled(present, list) => Dcs(Mark(present) + list)
      case Other(control) => control
    }

    /** The reply lists the capability, as present or as absent. */
    ghost predicate Lists(name: Bytes, asPresent: bool) {
      Capabilities? && present == asPresent && exists k :: 0 <= k < |entries| && entries[k].name == name
    }
  }

  predicate Marked(body: Bytes) {
    VERSION_MARK <= body || PRESENT_MARK <= body || ABSENT_MARK <= body
  }

  ghost predicate AllValid(said: seq<Said>) {
    forall i :: 0 <= i < |said| ==> said[i].Valid()
  }

  /** What the host sends. */
  function Controls(said: seq<Said>): (controls: seq<Control>)
    requires AllValid(said)
    ensures |controls| == |said|
  {
    if said == [] then [] else [said[0].Control()] + Controls(said[1..])
  }

  ghost predicate ListedBy(said: seq<Said>, name: Bytes, asPresent: bool) {
    exists i :: 0 <= i < |said| && said[i].Lists(name, asPresent)
  }

  /** The last version among the replies. */
  function LastVersion(said: seq<Said>): Option<Bytes> {
    if said == [] then None
    else
      var last := said[|said| - 1];
      if last.Version? then Some(last.text) else LastVersion(said[..|said| - 1])
  }

  ghost predicate AnswersGraphics(said: seq<Said>) {
    exists i :: 0 <= i < |said| && said[i].Other? && said[i].control.Apc? && IsGraphicsQueryReply(said[i].control.body)
  }

  ghost predicate AnswersAttributes(said: seq<Said>) {
    exists i :: 0 <= i < |said| && said[i].Other? && said[i].control.Csi? && said[i].control.final == 0x63
                && said[i].control.body != [] && said[i].control.body[0] == QUESTION
  }

  lemma {:induction false} NameListed(entries: seq<Entry>, name: Bytes)
    ensures name in ToSet(EntryNames(entries)) <==> exists k :: 0 <= k < |entries| && entries[k].name == name
  {
    if entries != [] {
      NameListed(entries[1..], name);
      if k :| 0 <= k < |entries[1..]| && entries[1..][k].name == name {
        assert entries[k + 1].name == name;
      }
      if k :| 0 <= k < |entries| && entries[k].name == name {
        assert k > 0 ==> entries[1..][k - 1].name == name;
      }
    }
  }

  lemma SaidIsWhole(said: Said)
    requires said.Valid()
    ensures said.Control().Complete()
  {
    if said.Capabilities? { TermcapIsWhole(said.present, said.entries); }
  }

  /** One reply changes what it is about. */
  lemma SaidAdds(said: Said, r: Replies, name: Bytes)
    requires said.Valid()
    ensures (var after := Add(r, said.Control());
             && after.version == (if said.Version? then Some(said.text) else r.version)
             && (name in after.termcaps <==> name in r.termcaps || said.Lists(name, true))
             && (name in after.answered <==>
                   name in r.answered || said.Lists(name, true) || said.Lists(name, false))
             && after.graphics == (r.graphics || AnswersGraphics([said]))
             && after.deviceAttributes == (r.deviceAttributes || AnswersAttributes([said])))
  {
    hide TermcapReplyNames, IsGraphicsQueryReply, EntriesEncoded, Entry.Valid;
    assert [said][0] == said;
    match said
    case Version(text) =>
      assert (VERSION_MARK + text)[2..] == text;
    case Capabilities(present, entries) =>
      MarkedBody(present, EntriesEncoded(entries));
      TermcapNamesReadBack(entries);
      NameListed(entries, name);
    case Garbled(present, list) =>
      MarkedBody(present, list);
    case Other(_) =>
  }

  lemma FirstSaid(said: seq<Said>, name: Bytes)
    requires said != []
    ensures forall present :: ListedBy(said, name, present)
                         <==> said[0].Lists(name, present) || ListedBy(said[1..], name, present)
    ensures AnswersGraphics(said) <==> AnswersGraphics([said[0]]) || AnswersGraphics(said[1..])
    ensures AnswersAttributes(said) <==> AnswersAttributes([said[0]]) || AnswersAttributes(said[1..])
  {
    hide Said.Lists, IsGraphicsQueryReply;
    var rest := said[1..];
    assert said == [said[0]] + rest;
    assert forall i :: 0 <= i < |rest| ==> rest[i] == said[i + 1];
    assert forall i :: 1 <= i < |said| ==> said[i] == rest[i - 1];
  }

  lemma {:induction false} FirstVersion(said: seq<Said>)
    requires said != []
    ensures LastVersion(said) == match LastVersion(said[1..])
                                 case Some(text) => Some(text)
                                 case None => if said[0].Version? then Some(said[0].text) else None
    decreases |said|
  {
    var before := said[..|said| - 1];
    if |said| > 1 {
      assert said[1..][..|said| - 2] == before[1..];
      FirstVersion(before);
    }
  }

  lemma {:induction false} SaidIsRead(said: seq<Said>, r: Replies, name: Bytes)
    requires AllValid(said)
    ensures (var after := ParseRest(EncodedAll(Controls(said)), r);
             && after.version == (if LastVersion(said).Some? then LastVersion(said) else r.version)
             && (name in after.termcaps <==> name in r.termcaps || ListedBy(said, name, true))
             && (name in after.answered <==>
                   name in r.answered || ListedBy(said, name, true) || ListedBy(said, name, false))
             && after.graphics == (r.graphics || AnswersGraphics(said))
             && after.deviceAttributes == (r.deviceAttributes || AnswersAttributes(said)))
    decreases |said|
  {
    hide ParseRest, Add, Said.Lists, Said.Valid, Said.Control, AnswersGraphics, AnswersAttributes, ListedBy;
    if said == [] {
      ParseNothing([], r);
      NothingSaid(name);
    } else {
      var control := said[0].Control();
      SaidIsWhole(said[0]);
      ParseControl(control, EncodedAll(Controls(said[1..])), r);
      SaidAdds(said[0], r, name);
      SaidIsRead(said[1..], Add(r, control), name);
      FirstSaid(said, name);
      FirstVersion(said);
    }
  }

  lemma NothingSaid(name: Bytes)
    ensures !ListedBy([], name, true) && !ListedBy([], name, false) && !AnswersGraphics([]) && !AnswersAttributes([])
  {
  }

  /** Whatever a host sends in whole sequences: the capabilities it is taken to have are exactly those a readable
      reply lists as present, answered are those and the absent ones, and its version is the last one sent. */
  lemma SaidIsReported(said: seq<Said>, name: Bytes)
    requires AllValid(said)
    ensures (var r := Parse(EncodedAll(Controls(said)));
             && r.version == LastVersion(said)
             && (name in r.termcaps <==> ListedBy(said, name, true))
             && (name in r.answered <==> ListedBy(said, name, true) || ListedBy(said, name, false))
             && (r.graphics <==> AnswersGraphics(said)) && (r.deviceAttributes <==> AnswersAttributes(said)))
  {
    hide ParseRest, ListedBy, AnswersGraphics, AnswersAttributes;
    SaidIsRead(said, NONE, name);
  }

  // ---- Lists ----

  function Joined(parts: seq<Bytes>, sep: Byte): Bytes
    requires parts != []
  {
    if |parts| == 1 then parts[0] else parts[0] + [sep] + Joined(parts[1..], sep)
  }

  /** Parts without the separator are split where they were joined. */
  lemma {:induction false} SplitJoined(parts: seq<Bytes>, sep: Byte)
    requires parts != [] && forall i :: 0 <= i < |parts| ==> sep !in parts[i]
    ensures Split(Joined(parts, sep), sep) == parts
    decreases |parts|
  {
    if |parts| == 1 {
      BeforeFirst(parts[0], sep, []);
      assert parts[0] + [] == parts[0];
    } else {
      var rest := Joined(parts[1..], sep);
      BeforeFirst(parts[0], sep, [sep] + rest);
      Assoc(parts[0], [sep], rest);
      assert ([sep] + rest)[1..] == rest;
      SplitJoined(parts[1..], sep);
    }
  }

  predicate ReadableName(entry: Bytes) {
    HexDecode(Before(entry, EQUALS)).Some? && IsText(HexDecode(Before(entry, EQUALS)).value)
  }

  /** One name that cannot be read spoils a whole list. */
  lemma {:induction false} GarbledIff(entries: seq<Bytes>)
    requires entries != [] && forall i :: 0 <= i < |entries| ==> SEMICOLON !in entries[i]
    ensures TermcapReplyNames(Joined(entries, SEMICOLON)) == None
       <==> exists i :: 0 <= i < |entries| && !ReadableName(entries[i])
  {
    hide HexDecode, IsText;
    SplitJoined(entries, SEMICOLON);
    NamesIff(entries);
  }

  lemma {:induction false} NamesIff(entries: seq<Bytes>)
    ensures Names(entries) == None <==> exists i :: 0 <= i < |entries| && !ReadableName(entries[i])
  {
    hide HexDecode, IsText;
    if entries != [] {
      NamesIff(entries[1..]);
      if i :| 0 <= i < |entries[1..]| && !ReadableName(entries[1..][i]) {
        assert !ReadableName(entries[i + 1]);
      }
      if i :| 0 <= i < |entries| && !ReadableName(entries[i]) {
        assert i > 0 ==> !ReadableName(entries[1..][i - 1]);
      }
    }
  }

  /** Hex must come in pairs of digits (a plus sign passes for the first of a pair). */
  lemma {:induction false} HexDecodeIff(s: Bytes)
    ensures HexDecode(s).Some?
       <==> |s| % 2 == 0 && forall i :: 0 <= i < |s| ==>
              HexDigit(s[i]).Some? || (i % 2 == 0 && s[i] == 0x2b)
    decreases |s|
  {
    if |s| >= 2 {
      HexDecodeIff(s[2..]);
      assert forall i :: 2 <= i < |s| ==> s[i] == s[2..][i - 2];
    }
  }

  /** An APC answers the graphics query when its control data, before the first semicolon, has the query's id
      among its pairs. */
  lemma GraphicsReplyIff(pairs: seq<Bytes>, rest: Bytes)
    requires pairs != [] && forall i :: 0 <= i < |pairs| ==> COMMA !in pairs[i] && SEMICOLON !in pairs[i]
    requires rest == [] || rest[0] == SEMICOLON
    ensures IsGraphicsQueryReply([0x47] + (Joined(pairs, COMMA) + rest)) <==> GRAPHICS_ID in pairs
  {
    var body := [0x47] + (Joined(pairs, COMMA) + rest);
    assert body[1..] == Joined(pairs, COMMA) + rest;
    JoinedWithout(pairs, COMMA, SEMICOLON);
    BeforeFirst(Joined(pairs, COMMA), SEMICOLON, rest);
    SplitJoined(pairs, COMMA);
  }

  lemma {:induction false} JoinedWithout(parts: seq<Bytes>, sep: Byte, other: Byte)
    requires parts != [] && sep != other && forall i :: 0 <= i < |parts| ==> other !in parts[i]
    ensures other !in Joined(parts, sep)
    decreases |parts|
  {
    if |parts| > 1 {
      JoinedWithout(parts[1..], sep, other);
    }
  }
}
