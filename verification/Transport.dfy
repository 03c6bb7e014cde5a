/** The socket transport (socket_transport.rs): replies and pushed events share one connection, and every
    event is delivered exactly once, in order, whichever call happened to read it. */
module Transport {
  import opened Text

  datatype Event = Notice(id: nat) | ServerShutdown

  /** What arrives on the connection: an event, a response (which may name the request it answers), or an
      error of the connection itself. */
  datatype Item = Pushed(event: Event) | Response(requestId: Option<nat>) | Broken

  datatype Outcome = Answered(requestId: Option<nat>) | Mismatched | Closed | Failed

  /** The events among the items. */
  function Events(items: seq<Item>): seq<Event> {
    if items == [] then []
    else (if items[0].Pushed? then [items[0].event] else []) + Events(items[1..])
  }

  lemma {:induction false} EventsConcat(a: seq<Item>, b: seq<Item>)
    ensures Events(a + b) == Events(a) + Events(b)
  {
    if a == [] {
      assert a + b == b;
    } else {
      assert (a + b)[1..] == a[1..] + b;
      EventsConcat(a[1..], b);
      Assoc(if a[0].Pushed? then [a[0].event] else [], Events(a[1..]), Events(b));
    }
  }

  /** How many events come before the first item that is none. */
  function Leading(items: seq<Item>): (n: nat)
    ensures n <= |items|
    ensures forall i :: 0 <= i < n ==> items[i].Pushed?
    ensures n < |items| ==> !items[n].Pushed?
  {
    if items != [] && items[0].Pushed? then 1 + Leading(items[1..]) else 0
  }

  lemma {:induction false} EventsOfLeading(items: seq<Item>, n: nat)
    requires n <= |items| && forall i :: 0 <= i < n ==> items[i].Pushed?
    ensures |Events(items[..n])| == n && forall i :: 0 <= i < n ==> Events(items[..n])[i] == items[i].event
  {
    if n > 0 {
      assert items[..n][1..] == items[1..][..n - 1];
      EventsOfLeading(items[1..], n - 1);
    }
  }

  /** One caller's end of the connection. `wire` is what the server sent or will send and nobody read yet;
      after it the connection is closed. */
  class SocketTransport {
    var wire: seq<Item>
    var queued: seq<Event>
    var shutdown: bool
    ghost var read: seq<Item>
    ghost var delivered: seq<Event>
    ghost var lost: seq<Event>

    /** Everything the server sent. */
    ghost function Sent(): seq<Item>
      reads this
    {
      read + wire
    }

    /** Every event read is delivered, queued or lost, and the flag says whether a shutdown was read. */
    ghost predicate Valid()
      reads this
    {
      && (lost == [] ==> delivered + queued == Events(read))
      && (shutdown <==> ServerShutdown in Events(read))
    }

    constructor (wire: seq<Item>)
      ensures Valid() && this.wire == wire && Sent() == wire
      ensures delivered == [] && queued == [] && lost == [] && !shutdown
    {
      this.wire, queued, shutdown := wire, [], false;
      read, delivered, lost := [], [], [];
    }

    /** Exactly once, in order: what was delivered, what is queued and what is still on the wire are the
        events the server sent. */
    lemma ExactlyOnce()
      requires Valid() && lost == []
      ensures delivered + queued + Events(wire) == Events(Sent())
      ensures shutdown <==> ServerShutdown in delivered + queued
    {
      EventsConcat(read, wire);
    }

    /** The next item of the connection, or none once it is closed. */
    method Recv() returns (item: Option<Item>)
      modifies this`wire, this`read
      ensures Sent() == old(Sent())
      ensures item == if old(wire) == [] then None else Some(old(wire)[0])
      ensures wire == (if old(wire) == [] then [] else old(wire)[1..])
      ensures read == if item == None then old(read) else old(read) + [item.value]
    {
      if wire == [] {
        item := None;
      } else {
        item := Some(wire[0]);
        read, wire := read + [wire[0]], wire[1..];
      }
    }

    method NoteEvent(event: Event)
      modifies this`shutdown
      ensures shutdown == (old(shutdown) || event == ServerShutdown)
    {
      if event == ServerShutdown {
        shutdown := true;
      }
    }

    /** `k` events of what was on the wire were read, and `drained` holds them. */
    ghost predicate Reading(start: seq<Item>, before: seq<Item>, k: nat, drained: seq<Event>)
      reads this
    {
      && k <= Leading(before) && wire == before[k..] && read == start + before[..k]
      && drained == Events(before[..k]) && (shutdown <==> ServerShutdown in Events(read))
    }

    /** Receive once more while only events have come, noting an event. */
    method RecvNoted(ghost start: seq<Item>, ghost before: seq<Item>, ghost k: nat,
                     ghost drained: seq<Event>) returns (item: Option<Item>)
      requires Reading(start, before, k, drained)
      modifies this`wire, this`read, this`shutdown
      ensures item == if k == |before| then None else Some(before[k])
      ensures item.Some? && item.value.Pushed? ==> Reading(start, before, k + 1, drained + [item.value.event])
      ensures !(item.Some? && item.value.Pushed?) ==>
        && k == Leading(before) && Events(read) == Events(start) + drained && read + wire == start + before
        && wire == (if k < |before| then before[k + 1..] else [])
        && (shutdown <==> ServerShutdown in Events(read))
    {
      hide Events, Leading;
      Take(start, before, k);
      EventsConcat(start, before[..k]);
      item := Recv();
      if item.Some? && item.value.Pushed? {
        NoteEvent(item.value.event);
      }
    }

    /** Send a request and wait for its response, queueing the events that arrive before it. `sendFails`
        is whether the write fails, `waits` how many events arrive in time after that. */
    method Request(requestId: nat, sendFails: bool, waits: nat) returns (outcome: Outcome)
      requires Valid() && lost == []
      modifies this
      ensures Valid() && Sent() == old(Sent()) && delivered == old(delivered)
      // Nothing is lost, unless the connection broke after events were read for this request.
      ensures lost == (if !sendFails && BreaksAfterEvents(old(wire))
                       then Events(old(wire)[..Leading(old(wire))]) else [])
      ensures lost == [] <==> sendFails || !BreaksAfterEvents(old(wire))
      ensures lost != [] ==> queued == old(queued)
      // Exactly the items up to the response are read.
      ensures (var n := Leading(old(wire));
               !sendFails ==> wire == if n < |old(wire)| then old(wire)[n + 1..] else [])
      // The first item that is no event decides: a response that names no request, or this one, is its answer.
      ensures !sendFails ==> outcome == OutcomeOf(old(wire), requestId) && Decides(old(wire), requestId, outcome)
      ensures sendFails ==> outcome == Failed
    {
      hide Events, Leading, BreaksAfterEvents, OutcomeOf, Decides;
      if sendFails {
        ReadFinalEvents(waits);
        return Failed;
      }
      ghost var before, start := wire, read;
      OutcomeDecides(before, requestId);
      ghost var k: nat := 0;
      var drained: seq<Event> := [];
      NothingRead(start, before);
      while true
        invariant Reading(start, before, k, drained)
        invariant queued == old(queued) && delivered == old(delivered) && lost == []
        decreases Leading(before) - k
      {
        var item := RecvNoted(start, before, k, drained);
        EndsWith(before, k, item, requestId);
        if item == None {
          outcome := Closed;
          break;
        } else if item.value.Broken? {
          lost := drained;
          return Failed;
        } else if item.value.Pushed? {
          drained := drained + [item.value.event];
          k := k + 1;
        } else {
          outcome := if item.value.requestId.Some? && item.value.requestId.value != requestId
                     then Mismatched else Answered(item.value.requestId);
          break;
        }
      }
      Assoc(delivered, queued, drained);
      queued := queued + drained;
    }

    /** After a failed write: queue the events that had arrived before the connection closed. Whatever
        ends the events is read and dropped, as no request waits for it. */
    method ReadFinalEvents(waits: nat)
      requires Valid() && lost == []
      modifies this
      ensures Valid() && Sent() == old(Sent()) && delivered == old(delivered) && lost == []
      ensures queued == old(queued) + Events(old(wire)[..Min(waits, Leading(old(wire)))])
    {
      hide Events, Leading;
      ghost var before, start := wire, read;
      var events: seq<Event> := [];
      var k: nat := 0;
      var open := true;
      NothingRead(start, before);
      while open && k < waits
        invariant k <= waits && k <= Leading(before) && events == Events(before[..k])
        invariant open ==> Reading(start, before, k, events)
        invariant !open ==> k == Leading(before)
        invariant Events(read) == Events(start) + events && read + wire == start + before
        invariant shutdown <==> ServerShutdown in Events(read)
        invariant queued == old(queued) && delivered == old(delivered) && lost == []
        decreases open, Leading(before) - k
      {
        var item := RecvNoted(start, before, k, events);
        if item == None || !item.value.Pushed? {
          open := false;
        } else {
          events := events + [item.value.event];
          k := k + 1;
          EventsConcat(start, before[..k]);
          Take(start, before, k);
        }
      }
      Assoc(delivered, queued, events);
      queued := queued + events;
    }

    /** The next event: the oldest queued one, or else the next item of the connection. */
    method NextEvent() returns (event: Option<Event>)
      requires Valid() && lost == []
      modifies this
      ensures Valid() && Sent() == old(Sent()) && lost == []
      ensures delivered == old(delivered) + (if event == None then [] else [event.value])
      ensures event == if old(queued) != [] then Some(old(queued)[0])
                       else if old(wire) != [] && old(wire)[0].Pushed? then Some(old(wire)[0].event) else None
    {
      hide Events, Leading;
      if queued != [] {
        event := Some(queued[0]);
        delivered, queued := delivered + [queued[0]], queued[1..];
        return;
      }
      ghost var before, start := wire, read;
      NothingRead(start, before);
      var item := RecvNoted(start, before, 0, []);
      if item == None || !item.value.Pushed? {
        return None;
      }
      Take(start, before, 0);
      event := Some(item.value.event);
      delivered := delivered + [item.value.event];
    }

    /** Like `NextEvent`, but only with what has arrived. */
    method ReadyEvent(arrived: bool) returns (event: Option<Event>)
      requires Valid() && lost == []
      modifies this
      ensures Valid() && Sent() == old(Sent()) && lost == []
      ensures delivered == old(delivered) + (if event == None then [] else [event.value])
      ensures event == if old(queued) != [] then Some(old(queued)[0])
                       else if arrived && old(wire) != [] && old(wire)[0].Pushed?
                         then Some(old(wire)[0].event) else None
      ensures old(queued) == [] && !arrived ==> wire == old(wire)
    {
      if queued == [] && !arrived {
        return None;
      }
      event := NextEvent();
    }
  }

  lemma NothingRead(start: seq<Item>, before: seq<Item>)
    ensures start + before[..0] == start && before[0..] == before && Events(before[..0]) == []
  {
  }

  lemma OneItem(item: Item)
    ensures Events([item]) == if item.Pushed? then [item.event] else []
  {
    assert [item][1..] == [];
  }

  /** Reading one more item. */
  lemma Take(start: seq<Item>, before: seq<Item>, k: nat)
    requires k <= |before|
    ensures start + before[..k] + before[k..] == start + before
    ensures k < |before| ==>
      && before[k..][0] == before[k] && before[k..][1..] == before[k + 1..]
      && start + before[..k] + [before[k]] == start + before[..k + 1]
      && Events(before[..k + 1]) ==
         (if before[k].Pushed? then Events(before[..k]) + [before[k].event] else Events(before[..k]))
      && Events(start + before[..k + 1])
         == (if before[k].Pushed? then Events(start + before[..k]) + [before[k].event] else Events(start + before[..k]))
  {
    hide Events;
    assert before[..k] + before[k..] == before;
    assert start + before[..k] + before[k..] == start + before;
    if k < |before| {
      assert before[..k + 1] == before[..k] + [before[k]];
      assert start + before[..k + 1] == start + before[..k] + [before[k]];
      EventsConcat(before[..k], [before[k]]);
      EventsConcat(start + before[..k], [before[k]]);
      OneItem(before[k]);
    }
  }

  /** The connection breaks while a request waits, after events that came for it. */
  predicate BreaksAfterEvents(wire: seq<Item>) {
    Leading(wire) > 0 && Leading(wire) < |wire| && wire[Leading(wire)].Broken?
  }

  /** What a request gets from the first item that is no event. */
  function OutcomeOf(wire: seq<Item>, requestId: nat): Outcome {
    if Leading(wire) == |wire| then Closed
    else match wire[Leading(wire)]
      case Broken => Failed
      case Response(id) => if id.Some? && id.value != requestId then Mismatched else Answered(id)
      case Pushed(_) => Failed
  }

  ghost predicate Decides(wire: seq<Item>, requestId: nat, outcome: Outcome) {
    var n := Leading(wire);
    && (n == |wire| <==> outcome == Closed)
    && (n < |wire| && wire[n].Broken? <==> outcome == Failed)
    && (n < |wire| && wire[n].Response? && wire[n].requestId in {None, Some(requestId)} <==> outcome.Answered?)
    && (outcome.Answered? ==> outcome.requestId == wire[n].requestId)
  }

  lemma OutcomeDecides(wire: seq<Item>, requestId: nat)
    ensures Decides(wire, requestId, OutcomeOf(wire, requestId))
  {
  }

  /** What the first item that is no event decides. */
  lemma EndsWith(before: seq<Item>, k: nat, item: Option<Item>, requestId: nat)
    requires k <= |before| && item == (if k == |before| then None else Some(before[k]))
    ensures k == Leading(before) ==>
              && BreaksAfterEvents(before) == (item.Some? && item.value.Broken? && k > 0)
              && (Events(before[..k]) == [] <==> k == 0)
              && OutcomeOf(before, requestId)
                 == (match item
                     case None => Closed
                     case Some(Response(id)) => if id.Some? && id.value != requestId then Mismatched else Answered(id)
                     case Some(_) => Failed)
  {
    hide Events;
    if k == Leading(before) {
      EventsOfLeading(before, k);
    }
  }

  /** An event is lost: one event arrives for a request, then the connection breaks. */
  method LosesEvent(event: Event, requestId: nat) returns (transport: SocketTransport, outcome: Outcome)
    ensures outcome == Failed && transport.Sent() == [Pushed(event), Broken] && transport.wire == []
    ensures transport.delivered == [] && transport.queued == [] && transport.lost == [event]
  {
    BreaksAfterOne(event);
    transport := new SocketTransport([Pushed(event), Broken]);
    outcome := transport.Request(requestId, false, 0);
    assert transport.delivered == [] && transport.lost == [event];
  }

  lemma BreaksAfterOne(event: Event)
    ensures (var wire := [Pushed(event), Broken];
             Leading(wire) == 1 && BreaksAfterEvents(wire) && Events(wire[..1]) == [event])
  {
    var wire := [Pushed(event), Broken];
    assert wire[1..] == [Broken] && wire[..1] == [Pushed(event)];
    assert Leading([Broken]) == 0;
    OneItem(Pushed(event));
  }
}
