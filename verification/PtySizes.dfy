/** Which PTY resizes one client asks for (pty_sizes.rs). */
module PtySizes {
  import opened Text

  type BufferId = nat

  datatype CellSize = CellSize(width: nat, height: nat)

  datatype PtySize = PtySize(cols: nat, rows: nat, pixelWidth: nat, pixelHeight: nat)
  {
    /** Pixels per cell, unless a side has no cells or no whole pixel each. */
    function Cell(): Option<CellSize> {
      if cols == 0 || rows == 0 then None
      else if pixelWidth / cols > 0 && pixelHeight / rows > 0 then Some(CellSize(pixelWidth / cols, pixelHeight / rows))
      else None
    }

    /** The same columns and rows, with as many pixels as cells of size `cell` take. */
    function WithCell(cell: Option<CellSize>): PtySize {
      var (w, h) := if cell.Some? then (cell.value.width, cell.value.height) else (0, 0);
      this.(pixelWidth := Min(cols * w, U16_MAX), pixelHeight := Min(rows * h, U16_MAX))
    }
  }

  /** A size with at least one whole pixel for every cell, both ways. */
  ghost predicate WholePixels(size: PtySize) {
    0 < size.cols <= size.pixelWidth && 0 < size.rows <= size.pixelHeight
  }

  /** The server's size will not do: other cells, or other pixels where the server knows pixels. */
  ghost predicate Differs(current: PtySize, wanted: PtySize) {
    || current.cols != wanted.cols || current.rows != wanted.rows
    || (WholePixels(current) && (current.pixelWidth != wanted.pixelWidth || current.pixelHeight != wanted.pixelHeight))
  }

  lemma DivPositive(a: nat, b: nat)
    requires b > 0
    ensures a / b > 0 <==> a >= b
  {
  }

  /** `matches_server`. */
  predicate MatchesServer(current: PtySize, wanted: PtySize) {
    if current.Cell() == None then current.cols == wanted.cols && current.rows == wanted.rows
    else current == wanted
  }

  /** The server has the size exactly when the cells agree and, where it knows pixels, the pixels do. */
  lemma MatchesServerIff(current: PtySize, wanted: PtySize)
    ensures MatchesServer(current, wanted) <==> !Differs(current, wanted)
  {
    if current.cols > 0 { DivPositive(current.pixelWidth, current.cols); }
    if current.rows > 0 { DivPositive(current.pixelHeight, current.rows); }
  }

  /** A size given a cell size keeps its cells and tells that cell size again, up to the width of a pixel count. */
  lemma WithCellReadsBack(size: PtySize, cell: CellSize)
    ensures (var sized := size.WithCell(Some(cell));
             && sized.cols == size.cols && sized.rows == size.rows
             && (size.cols > 0 && size.rows > 0 && cell.width > 0 && cell.height > 0
                 && size.cols * cell.width <= U16_MAX && size.rows * cell.height <= U16_MAX
                 ==> sized.Cell() == Some(cell))
             && (size.cols * cell.width > U16_MAX ==> sized.pixelWidth == U16_MAX)
             && (size.rows * cell.height > U16_MAX ==> sized.pixelHeight == U16_MAX))
    ensures size.WithCell(None) == size.(pixelWidth := 0, pixelHeight := 0) && size.WithCell(None).Cell() == None
  {
    if size.cols > 0 && size.rows > 0 {
      TimesOver(size.cols, cell.width);
      TimesOver(size.rows, cell.height);
    }
  }

  /** Division gives the one quotient with a remainder below the divisor. */
  lemma OneQuotient(n: nat, k: int, q: int, r: nat)
    requires n * k == n * q + r && r < n
    ensures q == k
  {
    var d := k - q;
    assert n * d == r by { assert n * d == n * k - n * q; }
    Products(n, d);
  }

  lemma Products(n: nat, d: int)
    ensures d >= 1 ==> n * d >= n
    ensures d <= -1 ==> n * d + n <= 0
  {
    assert n * d == n + n * (d - 1) == n * (d + 1) - n;
  }

  lemma TimesOver(n: nat, k: nat)
    requires n > 0
    ensures n * k / n == k
  {
    var product := n * k;
    OneQuotient(n, k, product / n, product % n);
  }

  /** Milliseconds between retries of a failed request. */
  const RETRY_INTERVAL: nat := 1000

  datatype Attempt = Attempt(serverSize: PtySize, plannedAt: nat)

  /** A resizable buffer a sync draws: the size wanted for it and the size the server reports. */
  datatype Target = Target(buffer: BufferId, wanted: PtySize, current: PtySize)

  datatype Sync = Sync(
    wanted: map<BufferId, PtySize>,
    reclaim: bool,
    planned: map<BufferId, Attempt>,
    failed: map<BufferId, Attempt>)

  const START := Sync(map[], false, map[], map[])

  type Requests = seq<(BufferId, PtySize)>

  // ---- One sync ----

  /** A failed request that must wait: the server still has the size it had, and too little time passed. */
  predicate Waiting(s: Sync, t: Target, now: nat) {
    t.buffer in s.failed && s.failed[t.buffer].serverSize == t.current
    && now < s.failed[t.buffer].plannedAt + RETRY_INTERVAL
  }

  predicate Due(s: Sync, t: Target, now: nat) {
    t.buffer in s.failed && s.failed[t.buffer].serverSize == t.current
    && now >= s.failed[t.buffer].plannedAt + RETRY_INTERVAL
  }

  predicate Changed(s: Sync, reclaim: bool, retry: bool, t: Target) {
    if t.buffer !in s.wanted then t.current != t.wanted
    else if !reclaim && !retry then s.wanted[t.buffer] != t.wanted
    else !MatchesServer(t.current, t.wanted)
  }

  function PlanOne(s: Sync, reclaim: bool, t: Target, now: nat): Sync {
    if Waiting(s, t, now) then s
    else
      var changed := Changed(s, reclaim, Due(s, t, now), t);
      s.(failed := s.failed - {t.buffer},
         wanted := s.wanted[t.buffer := t.wanted],
         planned := if changed then s.planned[t.buffer := Attempt(t.current, now)] else s.planned)
  }

  predicate Requested(s: Sync, reclaim: bool, t: Target, now: nat) {
    !Waiting(s, t, now) && Changed(s, reclaim, Due(s, t, now), t)
  }

  /** The targets from the `k`th on. */
  function PlanFrom(s: Sync, reclaim: bool, targets: seq<Target>, k: nat, now: nat, out: Requests): (Sync, Requests)
    requires k <= |targets|
    decreases |targets| - k
  {
    if k == |targets| then (s, out)
    else
      var t := targets[k];
      PlanFrom(PlanOne(s, reclaim, t, now), reclaim, targets, k + 1, now,
               if Requested(s, reclaim, t, now) then out + [(t.buffer, t.wanted)] else out)
  }

  function PlanTargets(s: Sync, targets: seq<Target>, now: nat): (Sync, Requests) {
    PlanFrom(s.(reclaim := false, planned := map[]), s.reclaim, targets, 0, now, [])
  }

  /** Buffers the server no longer has are forgotten. */
  function Retain(s: Sync, known: set<BufferId>): Sync {
    s.(wanted := map b | b in s.wanted && b in known :: s.wanted[b],
       failed := map b | b in s.failed && b in known :: s.failed[b])
  }

  function Fail(s: Sync, buffer: BufferId): Sync {
    if buffer in s.planned
    then s.(planned := s.planned - {buffer}, failed := s.failed[buffer := s.planned[buffer]])
    else s
  }

  // ---- What a sync draws ----

  datatype Buffer = Buffer(pty: bool, running: bool, size: PtySize)

  /** A leaf of the presentation: its buffer and the PTY size of its area, if it has room for one. */
  datatype Leaf = Leaf(buffer: BufferId, size: Option<PtySize>)

  function Targets(buffers: map<BufferId, Buffer>, leaves: seq<Leaf>, cell: Option<CellSize>): seq<Target> {
    if leaves == [] then []
    else
      var leaf := leaves[0];
      var rest := Targets(buffers, leaves[1..], cell);
      if leaf.buffer in buffers && buffers[leaf.buffer].pty && buffers[leaf.buffer].running && leaf.size.Some?
      then [Target(leaf.buffer, leaf.size.value.WithCell(cell), buffers[leaf.buffer].size)] + rest
      else rest
  }

  /** The leaf shows a running PTY in an area with room for one. */
  ghost predicate Resizable(buffers: map<BufferId, Buffer>, leaf: Leaf) {
    leaf.size.Some? && leaf.buffer in buffers && buffers[leaf.buffer] == Buffer(true, true, buffers[leaf.buffer].size)
  }

  /** One target for each resizable leaf, in the order of the leaves. */
  lemma {:induction false} TargetsAreResizable(buffers: map<BufferId, Buffer>, leaves: seq<Leaf>, more: seq<Leaf>,
                                               leaf: Leaf, cell: Option<CellSize>)
    ensures Targets(buffers, leaves + more, cell) == Targets(buffers, leaves, cell) + Targets(buffers, more, cell)
    ensures Targets(buffers, [], cell) == []
    ensures (var one := Targets(buffers, [leaf], cell);
             if Resizable(buffers, leaf)
             then one == [Target(leaf.buffer, leaf.size.value.WithCell(cell), buffers[leaf.buffer].size)]
             else one == [])
  {
    if leaves == [] {
      assert leaves + more == more;
    } else {
      assert (leaves + more)[1..] == leaves[1..] + more;
      TargetsAreResizable(buffers, leaves[1..], more, leaf, cell);
    }
  }

  class PtySizeSync {
    var wanted: map<BufferId, PtySize>
    var reclaim: bool
    var planned: map<BufferId, Attempt>
    var failed: map<BufferId, Attempt>

    ghost function State(): Sync
      reads this
    {
      Sync(wanted, reclaim, planned, failed)
    }

    constructor ()
      ensures State() == START
    {
      wanted, reclaim, planned, failed := map[], false, map[], map[];
    }

    method NoteUserActivity()
      modifies this
      ensures State() == old(State()).(reclaim := true)
    {
      reclaim := true;
    }

    method ResizeFailed(buffer: BufferId)
      modifies this
      ensures State() == Fail(old(State()), buffer)
    {
      if buffer in planned {
        var attempt := planned[buffer];
        planned := planned - {buffer};
        failed := failed[buffer := attempt];
      }
    }

    /** The resizes to request for what the presentation draws. */
    method Plan(buffers: map<BufferId, Buffer>, leaves: seq<Leaf>, cell: Option<CellSize>,
                now: nat) returns (resizes: Requests)
      modifies this
      ensures (State(), resizes) == PlanTargets(Retain(old(State()), buffers.Keys), Targets(buffers, leaves, cell), now)
    {
      wanted := map b | b in wanted && b in buffers :: wanted[b];
      failed := map b | b in failed && b in buffers :: failed[b];
      resizes := PlanAll(Targets(buffers, leaves, cell), now);
    }

    method PlanAll(targets: seq<Target>, now: nat) returns (resizes: Requests)
      modifies this
      ensures (State(), resizes) == PlanTargets(old(State()), targets, now)
    {
      var taken := reclaim;
      reclaim := false;
      planned := map[];
      resizes := [];
      var k := 0;
      while k < |targets|
        invariant k <= |targets|
        invariant PlanFrom(State(), taken, targets, k, now, resizes) == PlanTargets(old(State()), targets, now)
      {
        ghost var before := State();
        var t := targets[k];
        k := k + 1;
        var retry := false;
        if t.buffer in failed {
          var failure := failed[t.buffer];
          if failure.serverSize != t.current {
            failed := failed - {t.buffer};
          } else if now < failure.plannedAt + RETRY_INTERVAL {
            continue;
          } else {
            failed := failed - {t.buffer};
            retry := true;
          }
        }
        var changed;
        if t.buffer in wanted {
          changed := if !taken && !retry then wanted[t.buffer] != t.wanted else !MatchesServer(t.current, t.wanted);
        } else {
          changed := t.current != t.wanted;
        }
        wanted := wanted[t.buffer := t.wanted];
        if changed {
          planned := planned[t.buffer := Attempt(t.current, now)];
          resizes := resizes + [(t.buffer, t.wanted)];
        }
        assert failed == before.failed - {t.buffer};
        assert State() == PlanOne(before, taken, t, now);
      }
    }
  }

  // ---- One buffer at a time ----

  ghost predicate Distinct(targets: seq<Target>) {
    forall i, j :: 0 <= i < j < |targets| ==> targets[i].buffer != targets[j].buffer
  }

  predicate Draws(targets: seq<Target>, b: BufferId) {
    exists i :: 0 <= i < |targets| && targets[i].buffer == b
  }

  /** What a state says about one buffer. */
  ghost predicate SameFor(b: BufferId, s: Sync, t: Sync) {
    && (b in s.wanted <==> b in t.wanted) && (b in s.wanted ==> s.wanted[b] == t.wanted[b])
    && (b in s.failed <==> b in t.failed) && (b in s.failed ==> s.failed[b] == t.failed[b])
    && (b in s.planned <==> b in t.planned) && (b in s.planned ==> s.planned[b] == t.planned[b])
  }

  lemma PlanOneElsewhere(s: Sync, reclaim: bool, t: Target, now: nat, b: BufferId)
    requires t.buffer != b
    ensures SameFor(b, PlanOne(s, reclaim, t, now), s)
  {
  }

  /** Targets for other buffers do not touch `b`. */
  lemma {:induction false} PlanFromElsewhere(s: Sync, reclaim: bool, targets: seq<Target>, k: nat, now: nat,
                                             out: Requests, b: BufferId)
    requires k <= |targets| && forall i :: k <= i < |targets| ==> targets[i].buffer != b
    ensures (var (r, requests) := PlanFrom(s, reclaim, targets, k, now, out);
             && SameFor(b, r, s) && out <= requests
             && forall i :: |out| <= i < |requests| ==> requests[i].0 != b)
    decreases |targets| - k
  {
    hide PlanOne, Requested;
    if k < |targets| {
      PlanOneElsewhere(s, reclaim, targets[k], now, b);
      var t := targets[k];
      var next := if Requested(s, reclaim, t, now) then out + [(t.buffer, t.wanted)] else out;
      PlanFromElsewhere(PlanOne(s, reclaim, t, now), reclaim, targets, k + 1, now, next, b);
      var requests := PlanFrom(s, reclaim, targets, k, now, out).1;
      forall i | |out| <= i < |requests|
        ensures requests[i].0 != b
      {
        if i < |next| { assert requests[i] == next[i]; }
      }
    }
  }

  /** The sizes a plan asks for `b`, in order. */
  function SizesFor(requests: Requests, b: BufferId): seq<PtySize> {
    if requests == [] then []
    else
      var last := requests[|requests| - 1];
      SizesFor(requests[..|requests| - 1], b) + (if last.0 == b then [last.1] else [])
  }

  lemma {:induction false} NoMoreRequests(out: Requests, requests: Requests, b: BufferId)
    requires out <= requests && forall i :: |out| <= i < |requests| ==> requests[i].0 != b
    ensures SizesFor(requests, b) == SizesFor(out, b)
    decreases |requests|
  {
    if |out| < |requests| {
      NoMoreRequests(out, requests[..|requests| - 1], b);
    } else {
      assert out == requests;
    }
  }

  /** A plan over distinct targets treats each target as if it were alone: it asks for the wanted size, at most
      once. */
  lemma PlanFor(s: Sync, targets: seq<Target>, now: nat, i: nat)
    requires Distinct(targets) && i < |targets|
    ensures (var t := targets[i];
             var (r, requests) := PlanTargets(s, targets, now);
             var alone := s.(reclaim := false, planned := map[]);
             && SameFor(t.buffer, r, PlanOne(alone, s.reclaim, t, now)) && !r.reclaim
             && SizesFor(requests, t.buffer) == (if Requested(alone, s.reclaim, t, now) then [t.wanted] else []))
  {
    var alone := s.(reclaim := false, planned := map[]);
    PlanForFrom(alone, s.reclaim, targets, 0, now, [], i);
  }

  /** A plan for one buffer only depends on what the state says about it. */
  lemma SamePlan(s: Sync, s2: Sync, reclaim: bool, t: Target, now: nat)
    requires SameFor(t.buffer, s, s2)
    ensures Requested(s, reclaim, t, now) == Requested(s2, reclaim, t, now)
    ensures SameFor(t.buffer, PlanOne(s, reclaim, t, now), PlanOne(s2, reclaim, t, now))
  {
  }

  lemma PlanOneReclaim(s: Sync, reclaim: bool, t: Target, now: nat)
    ensures PlanOne(s, reclaim, t, now).reclaim == s.reclaim
  {
  }

  lemma {:induction false} PlanForFrom(s: Sync, reclaim: bool, targets: seq<Target>, k: nat, now: nat, out: Requests,
                                       i: nat)
    requires Distinct(targets) && k <= i < |targets| && !s.reclaim
    ensures (var t := targets[i];
             var (r, requests) := PlanFrom(s, reclaim, targets, k, now, out);
             && SameFor(t.buffer, r, PlanOne(s, reclaim, t, now)) && !r.reclaim
             && SizesFor(requests, t.buffer)
                == SizesFor(out, t.buffer) + (if Requested(s, reclaim, t, now) then [t.wanted] else []))
    decreases |targets| - k
  {
    hide PlanOne, Requested;
    var t, b := targets[k], targets[i].buffer;
    var next := if Requested(s, reclaim, t, now) then out + [(t.buffer, t.wanted)] else out;
    assert SizesFor(next, b)
           == SizesFor(out, b) + (if Requested(s, reclaim, t, now) && t.buffer == b then [t.wanted] else []) by {
      if Requested(s, reclaim, t, now) { assert next[..|next| - 1] == out; }
    }
    PlanOneReclaim(s, reclaim, t, now);
    if k == i {
      PlanFromElsewhere(PlanOne(s, reclaim, t, now), reclaim, targets, k + 1, now, next, b);
      KeepsReclaim(PlanOne(s, reclaim, t, now), reclaim, targets, k + 1, now, next);
      NoMoreRequests(next, PlanFrom(s, reclaim, targets, k, now, out).1, b);
    } else {
      PlanOneElsewhere(s, reclaim, t, now, b);
      SamePlan(PlanOne(s, reclaim, t, now), s, reclaim, targets[i], now);
      PlanForFrom(PlanOne(s, reclaim, t, now), reclaim, targets, k + 1, now, next, i);
    }
  }

  lemma {:induction false} KeepsReclaim(s: Sync, reclaim: bool, targets: seq<Target>, k: nat, now: nat, out: Requests)
    requires k <= |targets|
    ensures PlanFrom(s, reclaim, targets, k, now, out).0.reclaim == s.reclaim
    decreases |targets| - k
  {
    if k < |targets| {
      var t := targets[k];
      KeepsReclaim(PlanOne(s, reclaim, t, now), reclaim, targets, k + 1, now,
                   if Requested(s, reclaim, t, now) then out + [(t.buffer, t.wanted)] else out);
    }
  }

  /** A buffer the plan does not draw keeps what was wanted and what failed. */
  lemma PlanElsewhere(s: Sync, targets: seq<Target>, now: nat, b: BufferId)
    requires !Draws(targets, b)
    ensures (var (r, requests) := PlanTargets(s, targets, now);
             SameFor(b, r, s.(planned := map[])) && !r.reclaim && SizesFor(requests, b) == [])
  {
    var alone := s.(reclaim := false, planned := map[]);
    PlanFromElsewhere(alone, s.reclaim, targets, 0, now, [], b);
    KeepsReclaim(alone, s.reclaim, targets, 0, now, []);
    NoMoreRequests([], PlanTargets(s, targets, now).1, b);
  }
}
