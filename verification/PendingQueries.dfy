/** Telling the client's replies from a pane's: the attach queries still unanswered (host_terminal.rs). */
module PendingQueries {
  import opened Text
  import opened Utf8
  import opened HostReplies

  /** One question of `HOST_QUERIES`. */
  datatype Query = Version | Termcap(name: Bytes) | Graphics | DeviceAttributes

  const ATTACH: set<Query> := {Version, Termcap(SMULX), Termcap(SETULC), Graphics, DeviceAttributes}

  /** A `PendingAttachQueries` as a value. */
  datatype Pending = Pending(
    version: bool,
    termcaps: set<Bytes>,
    graphics: bool,
    deviceAttributes: bool,
    until: Option<nat>)
  {
    predicate IsEmpty() {
      !version && termcaps == {} && !graphics && !deviceAttributes
    }

    /** The queries a reply is still expected for. */
    function Outstanding(): set<Query> {
      (if version then {Version} else {}) + (set name | name in termcaps :: Termcap(name))
      + (if graphics then {Graphics} else {}) + (if deviceAttributes then {DeviceAttributes} else {})
    }
  }

  const NOTHING: Pending := Pending(false, {}, false, false, None)

  /** `PendingAttachQueries::after`. */
  function After(replies: Replies, until: nat): Pending {
    if replies.deviceAttributes then NOTHING
    else Pending(replies.version.None?, {SMULX, SETULC} - replies.answered, !replies.graphics, true, Some(until))
  }

  // ---- What a reply answers ----

  predicate IsParameter(b: Byte) {
    0x30 <= b <= 0x39 || b == SEMICOLON
  }

  function Termcaps(names: seq<Bytes>): set<Query> {
    set name | name in names :: Termcap(name)
  }

  /** The queries a control sequence answers, whoever asked them. */
  function AnsweredBy(c: Control): set<Query> {
    match c
    case Dcs(body) =>
      if VERSION_MARK <= body then {Version}
      else (
        match TermcapBody(body)
        case None => {}
        case Some(entries) =>
          match TermcapReplyNames(entries)
          case None => {}
          case Some(names) => Termcaps(names)
      )
    case Apc(body) => if IsGraphicsQueryReply(body) then {Graphics} else {}
    case Csi(body, final) =>
      if final == 0x63 && body != [] && body[0] == QUESTION && forall i :: 1 <= i < |body| ==> IsParameter(body[i])
      then {DeviceAttributes} else {}
  }

  /** The queries that were answered in what attaching read. */
  function Known(r: Replies): set<Query> {
    (if r.version.Some? then {Version} else {}) + (set name | name in r.answered :: Termcap(name))
    + (if r.graphics then {Graphics} else {}) + (if r.deviceAttributes then {DeviceAttributes} else {})
  }

  /** Reading a reply adds what it answers. */
  lemma AddIsKnown(r: Replies, c: Control)
    requires AnsweredBy(c) != {}
    ensures Known(Add(r, c)) == Known(r) + AnsweredBy(c)
  {
    hide TermcapReplyNames, IsGraphicsQueryReply;
    var after := Add(r, c);
    match c
    case Apc(_) =>
    case Csi(_, _) =>
    case Dcs(body) =>
      if !(VERSION_MARK <= body) {
        var names := TermcapReplyNames(body[3..]);
        assert after.answered == r.answered + ToSet(names.value);
        forall name ensures Termcap(name) in Known(after) <==> Termcap(name) in Known(r) + AnsweredBy(c) {
        }
      }
  }

  lemma AfterIsRest(r: Replies, until: nat)
    ensures After(r, until).Outstanding() == if DeviceAttributes in Known(r) then {} else ATTACH - Known(r)
  {
  }

  // ---- Taking a reply ----

  /** Whether `reply` is a control string that `kind` introduces. */
  predicate Wrapped(reply: Bytes, kind: Byte) {
    |reply| >= 4 && reply[..2] == [0x1b, kind] && reply[|reply| - 2..] == ST
  }

  predicate IsDeviceAttributes(reply: Bytes) {
    |reply| >= 4 && reply[..3] == [0x1b, 0x5b, QUESTION] && reply[|reply| - 1] == 0x63
    && forall i :: 3 <= i < |reply| - 1 ==> IsParameter(reply[i])
  }

  predicate Expired(p: Pending, now: nat) {
    p.until.Some? && now >= p.until.value
  }

  /** Names all expected, then struck off. */
  function TakeTermcaps(p: Pending, body: Bytes): (Pending, bool) {
    match TermcapBody(body)
    case None => (p, false)
    case Some(entries) =>
      match TermcapReplyNames(entries)
      case None => (p, false)
      case Some(names) =>
        if ToSet(names) <= p.termcaps then (p.(termcaps := p.termcaps - ToSet(names)), true) else (p, false)
  }

  /** `take_reply`, on what is left at its time. */
  function TakeBefore(p: Pending, reply: Bytes): (Pending, bool) {
    if p.IsEmpty() then (p, false)
    else if Wrapped(reply, 0x5f) then
      if IsGraphicsQueryReply(reply[2..|reply| - 2]) then (p.(graphics := false), p.graphics) else (p, false)
    else if Wrapped(reply, 0x50) then
      var body := reply[2..|reply| - 2];
      if VERSION_MARK <= body then (p.(version := false), p.version) else TakeTermcaps(p, body)
    else if IsDeviceAttributes(reply) && p.deviceAttributes then (NOTHING, true)
    else (p, false)
  }

  /** `PendingAttachQueries::take_reply`: what is outstanding afterwards, and whether the reply was claimed. */
  function Take(p: Pending, reply: Bytes, now: nat): (Pending, bool) {
    TakeBefore(if Expired(p, now) then NOTHING else p, reply)
  }

  class PendingAttachQueries {
    var version: bool
    var termcaps: set<Bytes>
    var graphics: bool
    var deviceAttributes: bool
    var until: Option<nat>

    function State(): Pending
      reads this
    {
      Pending(version, termcaps, graphics, deviceAttributes, until)
    }

    constructor (replies: Replies, deadline: nat)
      ensures State() == After(replies, deadline)
    {
      if replies.deviceAttributes {
        version, termcaps, graphics, deviceAttributes, until := false, {}, false, false, None;
      } else {
        version := replies.version.None?;
        termcaps := set name | name in {SMULX, SETULC} && name !in replies.answered;
        graphics, deviceAttributes, until := !replies.graphics, true, Some(deadline);
      }
    }

    method Clear()
      modifies this
      ensures State() == NOTHING
    {
      version, termcaps, graphics, deviceAttributes, until := false, {}, false, false, None;
    }

    /** Strike off the names of a termcap reply, unless one of them is not expected. */
    method TakeNames(names: seq<Bytes>) returns (claimed: bool)
      modifies `termcaps
      ensures claimed == (ToSet(names) <= old(termcaps))
      ensures termcaps == if claimed then old(termcaps) - ToSet(names) else old(termcaps)
    {
      if exists name | name in names :: name !in termcaps {
        return false;
      }
      var i := 0;
      while i < |names|
        invariant i <= |names|
        invariant termcaps == old(termcaps) - ToSet(names[..i])
      {
        assert ToSet(names[..i + 1]) == ToSet(names[..i]) + {names[i]};
        termcaps := termcaps - {names[i]};
        i := i + 1;
      }
      assert names[..i] == names;
      return true;
    }

    method TakeReply(reply: Bytes, now: nat) returns (claimed: bool)
      modifies this
      ensures (State(), claimed) == Take(old(State()), reply, now)
    {
      hide TermcapReplyNames, IsGraphicsQueryReply;
      if until.Some? && now >= until.value {
        Clear();
      }
      if State().IsEmpty() {
        return false;
      }
      if Wrapped(reply, 0x5f) {
        claimed := IsGraphicsQueryReply(reply[2..|reply| - 2]) && graphics;
        if IsGraphicsQueryReply(reply[2..|reply| - 2]) {
          graphics := false;
        }
        return;
      }
      if Wrapped(reply, 0x50) {
        var body := reply[2..|reply| - 2];
        if VERSION_MARK <= body {
          claimed, version := version, false;
          return;
        }
        if !(PRESENT_MARK <= body || ABSENT_MARK <= body) {
          return false;
        }
        var names := TermcapReplyNames(body[3..]);
        if names == None {
          return false;
        }
        claimed := TakeNames(names.value);
        return;
      }
      if IsDeviceAttributes(reply) && deviceAttributes {
        Clear();
        return true;
      }
      return false;
    }
  }

  // ---- Claims as sets of queries ----

  lemma NamesAreNonempty(entries: Bytes)
    ensures TermcapReplyNames(entries).Some? ==> TermcapReplyNames(entries).value != []
  {
  }

  lemma ProperlySmaller<T>(a: set<T>, b: set<T>)
    requires a < b
    ensures |a| < |b|
  {
    assert b == a + (b - a);
    assert b - a != {};
    assert |b| == |a| + |b - a|;
  }

  /** Any reply at any time: a claim takes at least one query off the outstanding ones, and nothing adds one. */
  lemma ClaimShrinks(p: Pending, reply: Bytes, now: nat)
    ensures (var (after, claimed) := Take(p, reply, now);
             after.Outstanding() <= p.Outstanding()
             && (claimed ==> after.Outstanding() < p.Outstanding() && (p.until == None || now < p.until.value)))
  {
    hide TermcapReplyNames, IsGraphicsQueryReply;
    if !Expired(p, now) && Wrapped(reply, 0x50) {
      var body := reply[2..|reply| - 2];
      if TermcapBody(body).Some? {
        NamesAreNonempty(body[3..]);
        var names := TermcapReplyNames(body[3..]);
        if names.Some? && ToSet(names.value) <= p.termcaps {
          assert names.value[0] in ToSet(names.value);
          assert Termcap(names.value[0]) in p.Outstanding();
        }
      }
    }
  }

  /** Replies that arrive one after another, each at its time: which of them are claimed. */
  function Claims(p: Pending, replies: seq<(Bytes, nat)>): (claims: seq<bool>)
    ensures |claims| == |replies|
    decreases |replies|
  {
    if replies == [] then []
    else
      var (after, claimed) := Take(p, replies[0].0, replies[0].1);
      [claimed] + Claims(after, replies[1..])
  }

  function Left(p: Pending, replies: seq<(Bytes, nat)>): Pending
    decreases |replies|
  {
    if replies == [] then p else Left(Take(p, replies[0].0, replies[0].1).0, replies[1..])
  }

  function Count(claims: seq<bool>): nat {
    if claims == [] then 0 else (if claims[0] then 1 else 0) + Count(claims[1..])
  }

  lemma {:induction false} ClaimsAreBounded(p: Pending, replies: seq<(Bytes, nat)>)
    ensures Count(Claims(p, replies)) + |Left(p, replies).Outstanding()| <= |p.Outstanding()|
    decreases |replies|
  {
    hide Take, Pending.Outstanding;
    if replies != [] {
      var (after, claimed) := Take(p, replies[0].0, replies[0].1);
      ClaimShrinks(p, replies[0].0, replies[0].1);
      if after.Outstanding() < p.Outstanding() {
        ProperlySmaller(after.Outstanding(), p.Outstanding());
      } else {
        assert after.Outstanding() == p.Outstanding();
      }
      ClaimsAreBounded(after, replies[1..]);
      assert Claims(p, replies) == [claimed] + Claims(after, replies[1..]);
      assert Claims(p, replies)[1..] == Claims(after, replies[1..]);
      assert Left(p, replies) == Left(after, replies[1..]);
    }
  }

  lemma FiveQueries()
    ensures |ATTACH| == 5
  {
    assert |SMULX| != |SETULC|;
    var one := {Version, Termcap(SMULX)};
    var two := {Termcap(SETULC), Graphics, DeviceAttributes};
    assert one !! two && ATTACH == one + two;
  }

  /** Over any run after attaching, whatever was read and whatever arrives: at most five claims. */
  lemma AtMostFiveClaims(read: Replies, until: nat, replies: seq<(Bytes, nat)>)
    ensures Count(Claims(After(read, until), replies)) <= 5
  {
    hide After, Pending.Outstanding, Known, Claims, Count, Left;
    AfterIsRest(read, until);
    var p := After(read, until);
    ClaimsAreBounded(p, replies);
    FiveQueries();
    if p.Outstanding() < ATTACH {
      ProperlySmaller(p.Outstanding(), ATTACH);
    }
  }

  /** Once nothing is outstanding nothing is claimed. */
  lemma {:induction false} NothingIsClaimed(p: Pending, replies: seq<(Bytes, nat)>)
    requires p.Outstanding() == {}
    ensures forall i :: 0 <= i < |replies| ==> !Claims(p, replies)[i]
    ensures Left(p, replies).Outstanding() == {}
    decreases |replies|
  {
    hide Take;
    if replies != [] {
      ClaimShrinks(p, replies[0].0, replies[0].1);
      NothingIsClaimed(Take(p, replies[0].0, replies[0].1).0, replies[1..]);
    }
  }

  /** A whole reply before the deadline is claimed exactly when every query it answers is outstanding; a claimed
      reply takes those queries off, and DA1 all of them. */
  lemma ClaimedIff(p: Pending, c: Control, now: nat)
    requires c.Complete() && AnsweredBy(c) != {} && !Expired(p, now)
    ensures (var (after, claimed) := Take(p, c.Encoded(), now);
             (claimed <==> AnsweredBy(c) <= p.Outstanding())
             && after.Outstanding() == (if !claimed then p.Outstanding()
                                        else if DeviceAttributes in AnsweredBy(c) then {}
                                        else p.Outstanding() - AnsweredBy(c)))
  {
    hide TermcapReplyNames, IsGraphicsQueryReply;
    var reply := c.Encoded();
    match c
    case Apc(body) => WrapsBody(0x5f, body);
    case Dcs(body) =>
      WrapsBody(0x50, body);
      if !(VERSION_MARK <= body) {
        ClaimedTermcaps(p, body);
      }
    case Csi(body, final) =>
      assert reply[..2] == [0x1b, 0x5b] && reply[1] == 0x5b;
      assert !Wrapped(reply, 0x5f) && !Wrapped(reply, 0x50);
      assert reply[2] == body[0] && reply[..3] == [0x1b, 0x5b, QUESTION];
      assert reply[|reply| - 1] == final;
      forall i | 3 <= i < |reply| - 1 ensures IsParameter(reply[i]) {
        assert reply[i] == body[i - 2];
      }
  }

  lemma WrapsBody(kind: Byte, body: Bytes)
    ensures (var reply := [0x1b, kind] + body + ST;
             Wrapped(reply, kind) && reply[2..|reply| - 2] == body && (forall k :: k != kind ==> !Wrapped(reply, k)))
  {
    var reply := [0x1b, kind] + body + ST;
    assert reply[..2] == [0x1b, kind];
  }

  lemma ClaimedTermcaps(p: Pending, body: Bytes)
    requires !(VERSION_MARK <= body) && AnsweredBy(Dcs(body)) != {}
    ensures (var (after, claimed) := TakeTermcaps(p, body);
             (claimed <==> AnsweredBy(Dcs(body)) <= p.Outstanding())
             && after.Outstanding() == if claimed then p.Outstanding() - AnsweredBy(Dcs(body)) else p.Outstanding())
  {
    hide TermcapReplyNames;
    var names := TermcapReplyNames(body[3..]).value;
    forall name ensures name in p.termcaps <==> Termcap(name) in p.Outstanding() {
    }
    forall name ensures name in ToSet(names) <==> Termcap(name) in AnsweredBy(Dcs(body)) {
    }
    if ToSet(names) <= p.termcaps {
      forall q | q in AnsweredBy(Dcs(body)) ensures q in p.Outstanding() {
        assert q.name in ToSet(names);
      }
    } else {
      var name :| name in ToSet(names) && name !in p.termcaps;
      assert Termcap(name) in AnsweredBy(Dcs(body));
    }
  }

  // ---- A host that answers in order ----

  function AllAnswers(controls: seq<Control>): set<Query> {
    if controls == [] then {} else AnsweredBy(controls[0]) + AllAnswers(controls[1..])
  }

  /** A host's answers to the attach queries: whole replies, each to queries of ours that no other reply answers, and
      nothing after the DA1 reply. A host may leave queries unanswered and may answer termcaps together or apart. */
  ghost predicate InOrder(controls: seq<Control>) {
    controls == [] ||
    (var c := controls[0];
     c.Complete() && AnsweredBy(c) != {} && AnsweredBy(c) <= ATTACH && AnsweredBy(c) !! AllAnswers(controls[1..])
     && (DeviceAttributes in AnsweredBy(c) ==> controls[1..] == [])
     && InOrder(controls[1..]))
  }

  lemma {:induction false} ReadIsKnown(controls: seq<Control>, r: Replies)
    requires InOrder(controls)
    ensures Known(ParseRest(EncodedAll(controls), r)) == Known(r) + AllAnswers(controls)
    decreases |controls|
  {
    hide ParseRest, Add, Known, AnsweredBy, Control.Complete;
    if controls == [] {
      ParseNothing([], r);
    } else {
      ParseControl(controls[0], EncodedAll(controls[1..]), r);
      AddIsKnown(r, controls[0]);
      ReadIsKnown(controls[1..], Add(r, controls[0]));
    }
  }

  lemma ParsedIsKnown(controls: seq<Control>)
    requires InOrder(controls)
    ensures Known(Parse(EncodedAll(controls))) == AllAnswers(controls)
  {
    hide ParseRest, AllAnswers;
    ReadIsKnown(controls, NONE);
  }

  lemma AfterUntil(r: Replies, until: nat)
    ensures After(r, until).until == Some(until) || After(r, until).until == None
  {
  }

  lemma {:induction false} InOrderSplits(a: seq<Control>, b: seq<Control>)
    requires InOrder(a + b)
    ensures InOrder(a) && InOrder(b)
    ensures AllAnswers(a + b) == AllAnswers(a) + AllAnswers(b) && AllAnswers(a) !! AllAnswers(b)
    ensures DeviceAttributes in AllAnswers(a) ==> b == []
    decreases |a|
  {
    hide AnsweredBy, Control.Complete;
    if a == [] {
      assert a + b == b;
    } else {
      assert (a + b)[1..] == a[1..] + b;
      InOrderSplits(a[1..], b);
    }
  }

  lemma {:induction false} AnswersAreOurs(controls: seq<Control>)
    requires InOrder(controls)
    ensures AllAnswers(controls) <= ATTACH
    decreases |controls|
  {
    hide AnsweredBy, Control.Complete;
    if controls != [] {
      AnswersAreOurs(controls[1..]);
    }
  }

  /** The replies of `controls`, at their times. */
  function Arriving(controls: seq<Control>, times: seq<nat>): (replies: seq<(Bytes, nat)>)
    requires |times| == |controls|
  {
    seq(|controls|, i requires 0 <= i < |controls| => (controls[i].Encoded(), times[i]))
  }

  lemma {:induction false} AllClaimed(p: Pending, controls: seq<Control>, times: seq<nat>, until: nat)
    requires InOrder(controls) && AllAnswers(controls) <= p.Outstanding() && (p.until == Some(until) || p.until == None)
    requires |times| == |controls| && forall i :: 0 <= i < |times| ==> times[i] < until
    ensures forall i :: 0 <= i < |controls| ==> Claims(p, Arriving(controls, times))[i]
    ensures Left(p, Arriving(controls, times)).Outstanding()
         == if DeviceAttributes in AllAnswers(controls) then {} else p.Outstanding() - AllAnswers(controls)
    decreases |controls|
  {
    hide Take, AnsweredBy, Control.Complete, Pending.Outstanding;
    if controls != [] {
      var c, now := controls[0], times[0];
      var (after, claimed) := Take(p, c.Encoded(), now);
      ClaimedIff(p, c, now);
      UntilStays(p, c.Encoded(), now);
      var replies := Arriving(controls, times);
      assert replies[1..] == Arriving(controls[1..], times[1..]);
      AllClaimed(after, controls[1..], times[1..], until);
    }
  }

  lemma UntilStays(p: Pending, reply: Bytes, now: nat)
    ensures Take(p, reply, now).0.until == p.until || Take(p, reply, now).0.until == None
  {
    hide TermcapReplyNames, IsGraphicsQueryReply;
  }

  /** Cut a host's answers anywhere between two replies: attaching reads the first part, and of what comes before
      the deadline every later answer is the client's, and nothing is once the DA1 reply has been among them. */
  lemma RepliesAreAttributed(controls: seq<Control>, cut: nat, times: seq<nat>, until: nat, more: seq<(Bytes, nat)>)
    requires InOrder(controls) && cut <= |controls|
    requires |times| == |controls| - cut && forall i :: 0 <= i < |times| ==> times[i] < until
    ensures (var pending := After(Parse(EncodedAll(controls[..cut])), until);
             var late := Arriving(controls[cut..], times);
             (forall i :: 0 <= i < |late| ==> Claims(pending, late)[i])
             && (DeviceAttributes in AllAnswers(controls)
                 ==> forall i :: 0 <= i < |more| ==> !Claims(Left(pending, late), more)[i]))
  {
    hide Parse, Take, AnsweredBy, Control.Complete, Known, After, Pending.Outstanding;
    var (read, rest) := (controls[..cut], controls[cut..]);
    assert controls == read + rest;
    InOrderSplits(read, rest);
    AnswersAreOurs(rest);
    var replies := Parse(EncodedAll(read));
    ParsedIsKnown(read);
    AfterIsRest(replies, until);
    AfterUntil(replies, until);
    var pending := After(replies, until);
    AllClaimed(pending, rest, times, until);
    if DeviceAttributes in AllAnswers(controls) {
      NothingIsClaimed(Left(pending, Arriving(rest, times)), more);
    }
  }

  /** `Gi=1162691154;`: how an answer to the graphics query starts. */
  const GRAPHICS_REPLY: Bytes := [0x47] + GRAPHICS_ID + [SEMICOLON]

  lemma GraphicsReplies(message: Bytes)
    ensures IsGraphicsQueryReply(GRAPHICS_REPLY + message)
  {
    var body := GRAPHICS_REPLY + message;
    assert body[1..] == GRAPHICS_ID + ([SEMICOLON] + message);
    BeforeFirst(GRAPHICS_ID, SEMICOLON, [SEMICOLON] + message);
    BeforeFirst(GRAPHICS_ID, COMMA, []);
    assert GRAPHICS_ID + [] == GRAPHICS_ID;
    assert Split(GRAPHICS_ID, COMMA)[0] == GRAPHICS_ID;
  }

  lemma VersionReply(version: Bytes)
    requires ESC !in version
    ensures (var c := Dcs(VERSION_MARK + version); c.Complete() && AnsweredBy(c) == {Version})
  {
  }

  lemma {:induction false} TermcapReply(present: bool, entries: seq<Entry>)
    requires entries != [] && forall i :: 0 <= i < |entries| ==> entries[i].Valid()
    ensures (var c := Dcs(Mark(present) + EntriesEncoded(entries));
             c.Complete() && AnsweredBy(c) == Termcaps(EntryNames(entries)))
  {
    hide EntriesEncoded, Entry.Valid, TermcapReplyNames, EntryNames, Termcaps, Control.Complete, Mark, TermcapBody;
    TermcapIsWhole(present, entries);
    TermcapNamesReadBack(entries);
    MarkedBody(present, EntriesEncoded(entries));
  }

  lemma OneTermcap(entry: Entry)
    ensures Termcaps(EntryNames([entry])) == {Termcap(entry.name)}
  {
    assert EntryNames([entry]) == [entry.name] + EntryNames([]);
  }

  lemma TwoTermcaps(a: Entry, b: Entry)
    ensures Termcaps(EntryNames([a, b])) == {Termcap(a.name), Termcap(b.name)}
  {
    assert [a, b][1..] == [b];
    assert EntryNames([b]) == [b.name] + EntryNames([]);
    assert EntryNames([a, b]) == [a.name] + [b.name];
  }

  lemma GraphicsReply(message: Bytes)
    requires ESC !in message
    ensures (var c := Apc(GRAPHICS_REPLY + message); c.Complete() && AnsweredBy(c) == {Graphics})
  {
    hide IsGraphicsQueryReply;
    GraphicsReplies(message);
  }

  lemma DeviceReply(attributes: Bytes)
    requires forall i :: 0 <= i < |attributes| ==> 0x30 <= attributes[i] <= 0x39 || attributes[i] == SEMICOLON
    ensures (var c := Csi([QUESTION] + attributes, 0x63); c.Complete() && AnsweredBy(c) == {DeviceAttributes})
  {
    var body := [QUESTION] + attributes;
    assert forall i :: 1 <= i < |body| ==> body[i] == attributes[i - 1];
  }

  lemma InOrderBefore(c: Control, rest: seq<Control>)
    requires c.Complete() && AnsweredBy(c) != {} && AnsweredBy(c) <= ATTACH && InOrder(rest)
    requires AnsweredBy(c) !! AllAnswers(rest) && (DeviceAttributes in AnsweredBy(c) ==> rest == [])
    ensures InOrder([c] + rest) && AllAnswers([c] + rest) == AnsweredBy(c) + AllAnswers(rest)
  {
    hide AnsweredBy, Control.Complete;
    assert ([c] + rest)[1..] == rest;
  }

  /** The termcap replies of a host that answers for both capabilities: in one reply, in either order, or in one reply
      each; what it has it reports as present, anything else as absent. */
  datatype TermcapAnswers =
    | Together(present: bool, first: Entry, second: Entry)
    | Apart(firstPresent: bool, first: Entry, secondPresent: bool, second: Entry)
  {
    predicate Valid() {
      first.Valid() && second.Valid() && {first.name, second.name} == {SMULX, SETULC}
    }

    /** The replies, before `rest`. */
    function Before(rest: seq<Control>): seq<Control> {
      match this
      case Together(present, first, second) => [Dcs(Mark(present) + EntriesEncoded([first, second]))] + rest
      case Apart(firstPresent, first, secondPresent, second) =>
        [Dcs(Mark(firstPresent) + EntriesEncoded([first]))]
        + ([Dcs(Mark(secondPresent) + EntriesEncoded([second]))] + rest)
    }
  }

  lemma TermcapsInOrder(answers: TermcapAnswers, rest: seq<Control>)
    requires answers.Valid() && InOrder(rest) && AllAnswers(rest) !! {Termcap(SMULX), Termcap(SETULC)}
    ensures InOrder(answers.Before(rest))
    ensures AllAnswers(answers.Before(rest)) == {Termcap(SMULX), Termcap(SETULC)} + AllAnswers(rest)
  {
    hide AnsweredBy, Control.Complete, EntriesEncoded, Entry.Valid, EntryNames, InOrder, AllAnswers, Mark, Termcaps;
    assert |SMULX| != |SETULC|;
    match answers
    case Together(present, first, second) =>
      TermcapReply(present, [first, second]);
      TwoTermcaps(first, second);
      InOrderBefore(Dcs(Mark(present) + EntriesEncoded([first, second])), rest);
    case Apart(firstPresent, first, secondPresent, second) =>
      TermcapReply(secondPresent, [second]);
      OneTermcap(second);
      InOrderBefore(Dcs(Mark(secondPresent) + EntriesEncoded([second])), rest);
      TermcapReply(firstPresent, [first]);
      OneTermcap(first);
      InOrderBefore(Dcs(Mark(firstPresent) + EntriesEncoded([first])),
                    [Dcs(Mark(secondPresent) + EntriesEncoded([second]))] + rest);
  }

  /** A host that answers everything answers in order, with any version, capabilities, graphics message and
      attributes. */
  lemma FullAnswersAreInOrder(version: Bytes, termcaps: TermcapAnswers, message: Bytes, attributes: Bytes)
    requires ESC !in version && ESC !in message
    requires forall i :: 0 <= i < |attributes| ==> 0x30 <= attributes[i] <= 0x39 || attributes[i] == SEMICOLON
    requires termcaps.Valid()
    ensures (var rest := [Apc(GRAPHICS_REPLY + message)] + ([Csi([QUESTION] + attributes, 0x63)] + []);
             var all := [Dcs(VERSION_MARK + version)] + termcaps.Before(rest);
             InOrder(all) && AllAnswers(all) == ATTACH)
  {
    VersionReply(version);
    GraphicsReply(message);
    DeviceReply(attributes);
    hide *;
    AllInOrder(Dcs(VERSION_MARK + version), termcaps, Apc(GRAPHICS_REPLY + message),
               Csi([QUESTION] + attributes, 0x63));
  }

  lemma AllInOrder(c0: Control, termcaps: TermcapAnswers, c2: Control, c3: Control)
    requires c0.Complete() && c2.Complete() && c3.Complete() && termcaps.Valid()
    requires AnsweredBy(c0) == {Version} && AnsweredBy(c2) == {Graphics} && AnsweredBy(c3) == {DeviceAttributes}
    ensures (var all := [c0] + termcaps.Before([c2] + ([c3] + []));
             InOrder(all) && AllAnswers(all) == ATTACH)
  {
    hide AnsweredBy, Control.Complete, InOrder, AllAnswers, TermcapAnswers.Before, TermcapAnswers.Valid;
    NoAnswers();
    InOrderBefore(c3, []);
    InOrderBefore(c2, [c3] + []);
    TermcapsInOrder(termcaps, [c2] + ([c3] + []));
    InOrderBefore(c0, termcaps.Before([c2] + ([c3] + [])));
  }

  lemma NoAnswers()
    ensures InOrder([]) && AllAnswers([]) == {}
  {
  }
}
