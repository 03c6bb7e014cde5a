/** Runs of several clients that share PTYs: when resizes are asked for, seen from the events alone. */
module PtyRuns {
  import opened Text
  import opened PtySizes

  /** What happens to a client: user input, a sync of the buffers it draws among those the server has,
      or the failure of a request its last sync planned. */
  datatype Event = Activity | Plan(known: set<BufferId>, targets: seq<Target>, now: nat) | Failed(buffer: BufferId)

  function Apply(s: Sync, e: Event): Sync {
    match e
    case Activity => s.(reclaim := true)
    case Plan(known, targets, now) => PlanTargets(Retain(s, known), targets, now).0
    case Failed(buffer) => Fail(s, buffer)
  }

  function RequestsOf(s: Sync, e: Event): Requests {
    match e
    case Plan(known, targets, now) => PlanTargets(Retain(s, known), targets, now).1
    case _ => []
  }

  function Run(s: Sync, run: seq<Event>): Sync {
    if run == [] then s else Apply(Run(s, run[..|run| - 1]), run[|run| - 1])
  }

  /** A sync draws each buffer once, and only buffers the server has. */
  ghost predicate Sound(e: Event) {
    e.Plan? ==> Distinct(e.targets) && forall i :: 0 <= i < |e.targets| ==> e.targets[i].buffer in e.known
  }

  ghost predicate SoundRun(run: seq<Event>) {
    forall k :: 0 <= k < |run| ==> Sound(run[k])
  }

  /** The target a sync has for `b`. */
  function TargetFor(targets: seq<Target>, b: BufferId): (t: Target)
    requires Draws(targets, b)
    ensures t in targets && t.buffer == b
  {
    if targets[0].buffer == b then targets[0] else TargetFor(targets[1..], b)
  }

  lemma PlanDrawn(s: Sync, e: Event, b: BufferId)
    requires e.Plan? && Sound(e) && Draws(e.targets, b)
    ensures (var t := TargetFor(e.targets, b);
             var alone := Retain(s, e.known).(reclaim := false, planned := map[]);
             && b in e.known
             && SameFor(b, Apply(s, e), PlanOne(alone, s.reclaim, t, e.now)) && !Apply(s, e).reclaim
             && SizesFor(RequestsOf(s, e), b) == (if Requested(alone, s.reclaim, t, e.now) then [t.wanted] else []))
  {
    var t := TargetFor(e.targets, b);
    var i :| 0 <= i < |e.targets| && e.targets[i] == t;
    PlanFor(Retain(s, e.known), e.targets, e.now, i);
  }

  /** A sync records what it asks for, at its time and for the size the server had, and nothing else. */
  lemma RequestIsPlanned(s: Sync, e: Event, b: BufferId)
    requires e.Plan? && Sound(e) && Draws(e.targets, b)
    ensures (var planned := Apply(s, e).planned;
             && (b in planned <==> SizesFor(RequestsOf(s, e), b) != [])
             && (b in planned ==>
                   planned[b].serverSize == TargetFor(e.targets, b).current && planned[b].plannedAt == e.now))
  {
    PlanDrawn(s, e, b);
  }

  // ---- Invariants of every run ----

  /** Failed and planned requests are about buffers whose size was wanted, and no buffer is both. */
  ghost predicate Consistent(s: Sync) {
    && s.failed.Keys !! s.planned.Keys
    && s.failed.Keys <= s.wanted.Keys && s.planned.Keys <= s.wanted.Keys
  }

  lemma {:induction false} PlanKeepsConsistent(s: Sync, reclaim: bool, targets: seq<Target>, k: nat, now: nat,
                                               out: Requests)
    requires k <= |targets| && Consistent(s) && Distinct(targets)
    requires forall i :: k <= i < |targets| ==> targets[i].buffer !in s.planned
    ensures Consistent(PlanFrom(s, reclaim, targets, k, now, out).0)
    decreases |targets| - k
  {
    if k < |targets| {
      var t := targets[k];
      PlanKeepsConsistent(PlanOne(s, reclaim, t, now), reclaim, targets, k + 1, now,
                          if Requested(s, reclaim, t, now) then out + [(t.buffer, t.wanted)] else out);
    }
  }

  lemma {:induction false} RunsAreConsistent(run: seq<Event>)
    requires SoundRun(run)
    ensures Consistent(Run(START, run))
  {
    if run != [] {
      var before, e := run[..|run| - 1], run[|run| - 1];
      RunsAreConsistent(before);
      var s := Run(START, before);
      match e
      case Activity =>
      case Failed(_) =>
      case Plan(known, targets, now) =>
        assert Sound(e);
        PlanKeepsConsistent(Retain(s, known).(reclaim := false, planned := map[]), s.reclaim, targets, 0, now, []);
    }
  }

  // ---- Backoff ----

  /** A request for `b`, planned when the server reported `attempt.serverSize`, failed; `size` was wanted. */
  ghost predicate BackingOff(s: Sync, b: BufferId, attempt: Attempt, size: PtySize) {
    && b in s.failed && s.failed[b] == attempt && b !in s.planned
    && b in s.wanted && s.wanted[b] == size
  }

  /** Events while the retry is not due: the server keeps the buffer and, where a sync draws it, still
      reports the size it had. */
  ghost predicate EarlyFor(e: Event, b: BufferId, attempt: Attempt) {
    e.Plan? ==> && b in e.known && e.now < attempt.plannedAt + RETRY_INTERVAL
                && (Draws(e.targets, b) ==> TargetFor(e.targets, b).current == attempt.serverSize)
  }

  lemma FailureStartsBackoff(s: Sync, b: BufferId)
    requires Consistent(s) && b in s.planned
    ensures BackingOff(Fail(s, b), b, s.planned[b], s.wanted[b])
  {
  }

  lemma EarlyEventsWait(s: Sync, e: Event, b: BufferId, attempt: Attempt, size: PtySize)
    requires Sound(e) && BackingOff(s, b, attempt, size) && EarlyFor(e, b, attempt)
    ensures BackingOff(Apply(s, e), b, attempt, size) && SizesFor(RequestsOf(s, e), b) == []
  {
    if e.Plan? {
      if Draws(e.targets, b) {
        PlanDrawn(s, e, b);
      } else {
        PlanElsewhere(Retain(s, e.known), e.targets, e.now, b);
      }
    }
  }

  /** Requests for `b` over a run from state `s`. */
  function RunRequests(s: Sync, run: seq<Event>, b: BufferId): nat {
    if run == [] then 0
    else RunRequests(s, run[..|run| - 1], b) + |SizesFor(RequestsOf(Run(s, run[..|run| - 1]), run[|run| - 1]), b)|
  }

  /** Backoff: however many events come before the retry is due, no request for the buffer is planned
      and the size wanted for it stays the one that failed. */
  lemma {:induction false} BackoffHolds(s: Sync, run: seq<Event>, b: BufferId, attempt: Attempt, size: PtySize)
    requires SoundRun(run) && BackingOff(s, b, attempt, size)
    requires forall k :: 0 <= k < |run| ==> EarlyFor(run[k], b, attempt)
    ensures BackingOff(Run(s, run), b, attempt, size) && RunRequests(s, run, b) == 0
  {
    if run != [] {
      var before, e := run[..|run| - 1], run[|run| - 1];
      BackoffHolds(s, before, b, attempt, size);
      EarlyEventsWait(Run(s, before), e, b, attempt, size);
    }
  }

  /** The first sync that draws the buffer once the retry is due sends the size wanted by then, unless the
      server has it (the cells, and the pixels where the server knows pixels); a server size that changed
      meanwhile stands unless this client's own size changed or its user acted. */
  lemma DueRetry(s: Sync, e: Event, b: BufferId, attempt: Attempt, size: PtySize)
    requires e.Plan? && Sound(e) && BackingOff(s, b, attempt, size) && Draws(e.targets, b)
    ensures (var t := TargetFor(e.targets, b);
             var asked := SizesFor(RequestsOf(s, e), b);
             var after := Apply(s, e);
             && (t.current == attempt.serverSize && e.now >= attempt.plannedAt + RETRY_INTERVAL ==>
                   asked == if Differs(t.current, t.wanted) then [t.wanted] else [])
             && (t.current != attempt.serverSize ==>
                   asked == if (if s.reclaim then Differs(t.current, t.wanted) else t.wanted != size)
                            then [t.wanted] else [])
             && (!(t.current == attempt.serverSize && e.now < attempt.plannedAt + RETRY_INTERVAL) ==>
                   b !in after.failed && b in after.wanted && after.wanted[b] == t.wanted))
  {
    var t := TargetFor(e.targets, b);
    MatchesServerIff(t.current, t.wanted);
    PlanDrawn(s, e, b);
  }

  // ---- Several clients ----

  /** Client `client` sees `event`. */
  datatype Step = Step(client: nat, event: Event)

  /** The events of one client. */
  function EventsOf(history: seq<Step>, client: nat): seq<Event> {
    if history == [] then []
    else
      var last := history[|history| - 1];
      EventsOf(history[..|history| - 1], client) + (if last.client == client then [last.event] else [])
  }

  function StateOf(history: seq<Step>, client: nat): Sync {
    Run(START, EventsOf(history, client))
  }

  /** The size the client last drew `b` at since the server has the buffer. */
  function LastDrawn(history: seq<Step>, client: nat, b: BufferId): Option<PtySize> {
    if history == [] then None
    else
      var before, last := history[..|history| - 1], history[|history| - 1];
      if last.client == client && last.event.Plan? && b !in last.event.known then None
      else if last.client == client && last.event.Plan? && Draws(last.event.targets, b)
      then Some(TargetFor(last.event.targets, b).wanted)
      else LastDrawn(before, client, b)
  }

  /** Whether the client's user acted since its last sync. */
  predicate InputSince(history: seq<Step>, client: nat) {
    if history == [] then false
    else
      var before, last := history[..|history| - 1], history[|history| - 1];
      if last.client == client && last.event.Activity? then true
      else if last.client == client && last.event.Plan? then false
      else InputSince(before, client)
  }

  ghost predicate FailureFree(history: seq<Step>) {
    forall k :: 0 <= k < |history| ==> !history[k].event.Failed? && Sound(history[k].event)
  }

  /** A failure-free client's state is a function of the events it saw. */
  lemma {:induction false} StateIsHistory(history: seq<Step>, client: nat, b: BufferId)
    requires FailureFree(history)
    ensures (var s := StateOf(history, client);
             && s.failed == map[] && s.reclaim == InputSince(history, client)
             && (b in s.wanted <==> LastDrawn(history, client, b).Some?)
             && (b in s.wanted ==> s.wanted[b] == LastDrawn(history, client, b).value))
  {
    if history != [] {
      var before, last := history[..|history| - 1], history[|history| - 1];
      StateIsHistory(before, client, b);
      var s := StateOf(before, client);
      if last.client == client {
        var events := EventsOf(history, client);
        assert events[..|events| - 1] == EventsOf(before, client);
        assert StateOf(history, client) == Apply(s, last.event);
        if last.event.Plan? {
          assert Sound(last.event);
          NoFailures(s, last.event);
          if Draws(last.event.targets, b) {
            PlanDrawn(s, last.event, b);
          } else {
            PlanElsewhere(Retain(s, last.event.known), last.event.targets, last.event.now, b);
          }
        }
      } else {
        assert EventsOf(history, client) == EventsOf(before, client);
      }
    }
  }

  lemma NoFailures(s: Sync, e: Event)
    requires e.Plan? && Sound(e) && s.failed == map[]
    ensures Apply(s, e).failed == map[]
  {
    var after := Apply(s, e);
    forall b ensures b !in after.failed {
      if Draws(e.targets, b) { PlanDrawn(s, e, b); } else { PlanElsewhere(Retain(s, e.known), e.targets, e.now, b); }
    }
  }

  /** The sizes the step after `history` asks for `b`. */
  function StepSizes(history: seq<Step>, step: Step, b: BufferId): seq<PtySize> {
    SizesFor(RequestsOf(StateOf(history, step.client), step.event), b)
  }

  /** Why a client would ask for a size of `b`: it never drew the buffer, it now wants another size, or
      its user acted. What other clients did is no reason. */
  predicate Cause(history: seq<Step>, step: Step, b: BufferId) {
    && step.event.Plan? && Draws(step.event.targets, b)
    && (|| LastDrawn(history, step.client, b) == None
        || LastDrawn(history, step.client, b) != Some(TargetFor(step.event.targets, b).wanted)
        || InputSince(history, step.client))
  }

  /** Exactly when a failure-free client asks for a size, and which, told from the events alone. */
  lemma RequestIff(history: seq<Step>, step: Step, b: BufferId)
    requires FailureFree(history) && step.event.Plan? && Sound(step.event)
    ensures StepSizes(history, step, b)
         == if !Draws(step.event.targets, b) then []
            else
              var t, drawn := TargetFor(step.event.targets, b), LastDrawn(history, step.client, b);
              if (if drawn == None then t.current != t.wanted
                  else if InputSince(history, step.client) then Differs(t.current, t.wanted)
                  else drawn.value != t.wanted) then [t.wanted] else []
  {
    StateIsHistory(history, step.client, b);
    var s := StateOf(history, step.client);
    if Draws(step.event.targets, b) {
      var t := TargetFor(step.event.targets, b);
      MatchesServerIff(t.current, t.wanted);
      PlanDrawn(s, step.event, b);
    } else {
      PlanElsewhere(Retain(s, step.event.known), step.event.targets, step.event.now, b);
    }
  }

  function CountRequests(history: seq<Step>, b: BufferId): nat {
    if history == [] then 0
    else
      var before := history[..|history| - 1];
      CountRequests(before, b) + |StepSizes(before, history[|history| - 1], b)|
  }

  function CountCauses(history: seq<Step>, b: BufferId): nat {
    if history == [] then 0
    else
      var before := history[..|history| - 1];
      CountCauses(before, b) + (if Cause(before, history[|history| - 1], b) then 1 else 0)
  }

  /** No size war: over any failure-free interleaving of any number of clients, whatever sizes the server
      reports to whom, a buffer is resized at most once for each first draw, change of a client's own
      size or sync after user input. */
  lemma {:induction false} NoSizeWar(history: seq<Step>, b: BufferId)
    requires FailureFree(history)
    ensures CountRequests(history, b) <= CountCauses(history, b)
  {
    if history != [] {
      var before, last := history[..|history| - 1], history[|history| - 1];
      NoSizeWar(before, b);
      if last.event.Plan? {
        assert Sound(last.event);
        RequestIff(before, last, b);
      }
    }
  }

  // ---- A server that reports fresh sizes ----

  /** The buffer's size after every request was granted: the last size anyone asked for. */
  function ServerSize(history: seq<Step>, b: BufferId, initial: PtySize): PtySize {
    if history == [] then initial
    else
      var before := history[..|history| - 1];
      var asked := StepSizes(before, history[|history| - 1], b);
      if asked == [] then ServerSize(before, b, initial) else asked[|asked| - 1]
  }

  /** Each sync sees the size the buffer has. */
  ghost predicate Fresh(history: seq<Step>, b: BufferId, initial: PtySize) {
    forall k :: 0 <= k < |history| && history[k].event.Plan? && Draws(history[k].event.targets, b) ==>
      TargetFor(history[k].event.targets, b).current == ServerSize(history[..k], b, initial)
  }

  /** After a sync that follows its user's input, the buffer has the columns and rows that client wants, and
      all of its size where the server knows pixels. */
  lemma ReclaimTakesEffect(history: seq<Step>, step: Step, b: BufferId, initial: PtySize)
    requires FailureFree(history + [step]) && Fresh(history + [step], b, initial)
    requires step.event.Plan? && Draws(step.event.targets, b) && InputSince(history, step.client)
    ensures (var size, wanted := ServerSize(history + [step], b, initial), TargetFor(step.event.targets, b).wanted;
             size.cols == wanted.cols && size.rows == wanted.rows && (WholePixels(size) ==> size == wanted))
  {
    var all := history + [step];
    assert all[..|history|] == history && all[|history|] == step;
    forall k | 0 <= k < |history| ensures !history[k].event.Failed? && Sound(history[k].event) {
      assert all[k] == history[k];
    }
    RequestIff(history, step, b);
  }

  lemma QuietStep(history: seq<Step>, step: Step, b: BufferId)
    requires FailureFree(history) && Sound(step.event) && !Cause(history, step, b)
    ensures StepSizes(history, step, b) == []
  {
    if step.event.Plan? { RequestIff(history, step, b); }
  }

  /** Without a further cause, nobody resizes the buffer again. */
  lemma {:induction false} SizeStays(history: seq<Step>, more: seq<Step>, b: BufferId, initial: PtySize)
    requires FailureFree(history + more)
    requires forall k :: 0 <= k < |more| ==> !Cause(history + more[..k], more[k], b)
    ensures ServerSize(history + more, b, initial) == ServerSize(history, b, initial)
    ensures CountRequests(history + more, b) == CountRequests(history, b)
    decreases |more|
  {
    hide Cause, StepSizes, Sound;
    var all := history + more;
    if more == [] {
      assert all == history;
    } else {
      var n := |more| - 1;
      var before := history + more[..n];
      assert all[..|all| - 1] == before && all[|all| - 1] == more[n];
      forall k | 0 <= k < |before| ensures !before[k].event.Failed? && Sound(before[k].event) {
        assert before[k] == all[k];
      }
      assert Sound(all[|all| - 1].event) && !all[|all| - 1].event.Failed?;
      forall k | 0 <= k < n ensures !Cause(history + more[..n][..k], more[..n][k], b) {
        assert more[..n][..k] == more[..k];
      }
      SizeStays(history, more[..n], b, initial);
      QuietStep(before, more[n], b);
    }
  }

  /** The last active client wins and keeps the buffer: the size it reclaims stays until some client
      first draws the buffer, wants another size, or syncs after its own user's input. */
  lemma {:induction false} LastActiveClientWins(history: seq<Step>, step: Step, more: seq<Step>, b: BufferId,
                                                initial: PtySize)
    requires FailureFree(history + [step] + more) && Fresh(history + [step], b, initial)
    requires step.event.Plan? && Draws(step.event.targets, b) && InputSince(history, step.client)
    requires forall k :: 0 <= k < |more| ==> !Cause(history + [step] + more[..k], more[k], b)
    ensures (var size := ServerSize(history + [step] + more, b, initial);
             var wanted := TargetFor(step.event.targets, b).wanted;
             size.cols == wanted.cols && size.rows == wanted.rows && (WholePixels(size) ==> size == wanted))
  {
    var first, all := history + [step], history + [step] + more;
    forall k | 0 <= k < |first| ensures !first[k].event.Failed? && Sound(first[k].event) {
      assert first[k] == all[k];
    }
    ReclaimTakesEffect(history, step, b, initial);
    SizeStays(first, more, b, initial);
  }
}
