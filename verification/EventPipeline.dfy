/** The bounded event pipeline: producers, a bounded channel, one bridge thread
    with one event in hand, a bounded buffer, and clients that poll it. */
module EventPipeline {
  import opened Prelude

  const CAPACITY: nat := 8192
  const MAX_EVENTS: nat := 10000
  const POLL_BATCH: nat := 2000
  const ERROR_PRIORITY: int := 3

  datatype Event =
    | JobFinished(job: nat)
    | PointStatus(point: nat)
    | JobMessage(job: nat, priority: int)
    | LogLine(line: nat, priority: int)
    | BarUpdate(job: nat)

  predicate IsCritical(e: Event) {
    match e
    case JobFinished(_) => true
    case PointStatus(_) => true
    case JobMessage(_, priority) => priority >= ERROR_PRIORITY
    case LogLine(_, priority) => priority >= ERROR_PRIORITY
    case BarUpdate(_) => false
  }

  // ── Sequences of events ───────────────────────────────────────────────────

  /** The critical events, in order. */
  function Critical(s: seq<Event>): seq<Event> {
    if s == [] then []
    else Critical(s[..|s| - 1]) + if IsCritical(s[|s| - 1]) then [s[|s| - 1]] else []
  }

  /** `a` can be had from `b` by leaving events out. */
  ghost predicate Subsequence(a: seq<Event>, b: seq<Event>)
    decreases |b|
  {
    if a == [] then true
    else if b == [] then false
    else if a[|a| - 1] == b[|b| - 1] && Subsequence(a[..|a| - 1], b[..|b| - 1]) then true
    else Subsequence(a, b[..|b| - 1])
  }

  function Without(s: seq<Event>, i: nat): seq<Event>
    requires i < |s|
  {
    s[..i] + s[i + 1..]
  }

  lemma {:induction false} CriticalConcat(a: seq<Event>, b: seq<Event>)
    ensures Critical(a + b) == Critical(a) + Critical(b)
  {
    if b == [] {
      assert a + b == a;
    } else {
      CriticalConcat(a, b[..|b| - 1]);
      assert (a + b)[..|a + b| - 1] == a + b[..|b| - 1];
    }
  }

  lemma CriticalWithout(s: seq<Event>, i: nat)
    requires i < |s| && !IsCritical(s[i])
    ensures Critical(Without(s, i)) == Critical(s)
  {
    hide Critical;
    var mid := [s[i]];
    assert s == s[..i] + mid + s[i + 1..];
    CriticalConcat(s[..i] + mid, s[i + 1..]);
    CriticalConcat(s[..i], mid);
    CriticalConcat(s[..i], s[i + 1..]);
    CriticalNone(s[i]);
  }

  lemma CriticalNone(e: Event)
    requires !IsCritical(e)
    ensures Critical([e]) == []
  {
  }

  lemma {:induction false} SubsequenceRefl(a: seq<Event>)
    ensures Subsequence(a, a)
  {
    if a != [] { SubsequenceRefl(a[..|a| - 1]); }
  }

  lemma {:induction false} SubsequenceWithout(a: seq<Event>, b: seq<Event>, i: nat)
    requires Subsequence(a, b) && i < |a|
    ensures Subsequence(Without(a, i), b)
    decreases |b|
  {
    var a', b' := a[..|a| - 1], b[..|b| - 1];
    if a[|a| - 1] == b[|b| - 1] && Subsequence(a', b') {
      if i == |a| - 1 {
        assert Without(a, i) == a';
        SubsequenceWeaken(a', b);
      } else {
        SubsequenceWithout(a', b', i);
        assert Without(a, i)[..|a| - 2] == Without(a', i);
      }
    } else {
      SubsequenceWithout(a, b', i);
      SubsequenceWeaken(Without(a, i), b);
    }
  }

  lemma SubsequenceWeaken(a: seq<Event>, b: seq<Event>)
    requires b != [] && Subsequence(a, b[..|b| - 1])
    ensures Subsequence(a, b)
  {
  }

  lemma SubsequenceAppend(a: seq<Event>, b: seq<Event>, e: Event)
    requires Subsequence(a, b)
    ensures Subsequence(a + [e], b + [e])
  {
    assert (a + [e])[..|a|] == a && (b + [e])[..|b|] == b;
  }

  lemma {:induction false} SubsequencePrefix(a: seq<Event>, b: seq<Event>, n: nat)
    requires n <= |a| && Subsequence(a, b)
    ensures Subsequence(a[..n], b)
    decreases |a|
  {
    if n < |a| {
      SubsequenceWithout(a, b, |a| - 1);
      assert Without(a, |a| - 1) == a[..|a| - 1];
      SubsequencePrefix(a[..|a| - 1], b, n);
      assert a[..|a| - 1][..n] == a[..n];
    } else {
      assert a[..n] == a;
    }
  }

  // ── The pipeline as a step system ─────────────────────────────────────────

  /** `accepted` and `delivered` record what the channel took and polls gave. */
  datatype Pipe = Pipe(accepted: seq<Event>, channel: seq<Event>, pending: Option<Event>,
                       buffer: seq<Event>, delivered: seq<Event>)
  {
    function InHand(): seq<Event> { if pending.Some? then [pending.value] else [] }

    /** Everything the pipeline holds or has delivered, oldest first. */
    function Line(): seq<Event> { delivered + buffer + InHand() + channel }
  }

  datatype Step = Send(e: Event) | Receive | Offer | Poll

  /** Index of the oldest telemetry event, or the length if there is none. */
  function FirstTelemetry(buffer: seq<Event>, from: nat): (i: nat)
    requires from <= |buffer|
    ensures from <= i <= |buffer|
    ensures i < |buffer| ==> !IsCritical(buffer[i])
    ensures forall k :: from <= k < i ==> IsCritical(buffer[k])
    decreases |buffer| - from
  {
    if from == |buffer| || !IsCritical(buffer[from]) then from else FirstTelemetry(buffer, from + 1)
  }

  /** A critical send blocks while the channel is full. */
  predicate Enabled(p: Pipe, step: Step) {
    match step
    case Send(e) => IsCritical(e) ==> |p.channel| < CAPACITY
    case Receive => p.pending.None? && p.channel != []
    case Offer => p.pending.Some?
    case Poll => true
  }

  function Next(p: Pipe, step: Step): Pipe
    requires Enabled(p, step)
  {
    match step
    case Send(e) =>
      if |p.channel| < CAPACITY then p.(accepted := p.accepted + [e], channel := p.channel + [e]) else p
    case Receive => p.(pending := Some(p.channel[0]), channel := p.channel[1..])
    case Offer =>
      var i := FirstTelemetry(p.buffer, 0);
      if |p.buffer| < MAX_EVENTS then p.(buffer := p.buffer + [p.pending.value], pending := None)
      else if i < |p.buffer| then p.(buffer := Without(p.buffer, i) + [p.pending.value], pending := None)
      else if !IsCritical(p.pending.value) then p.(pending := None)
      else p
    case Poll =>
      var n := Min(|p.buffer|, POLL_BATCH);
      p.(buffer := p.buffer[n..], delivered := p.delivered + p.buffer[..n])
  }

  ghost predicate Inv(p: Pipe) {
    && |p.channel| <= CAPACITY && |p.buffer| <= MAX_EVENTS
    && Critical(p.Line()) == Critical(p.accepted)
    && Subsequence(p.Line(), p.accepted)
  }

  const EMPTY := Pipe([], [], None, [], [])

  /** An event dropped from the middle of the line. */
  lemma DropFromLine(p: Pipe, next: Pipe, i: nat)
    requires Inv(p) && i < |p.Line()| && !IsCritical(p.Line()[i])
    requires next.Line() == Without(p.Line(), i) && next.accepted == p.accepted
    requires next.channel == p.channel && |next.buffer| <= MAX_EVENTS
    ensures Inv(next)
  {
    CriticalWithout(p.Line(), i);
    SubsequenceWithout(p.Line(), p.accepted, i);
  }

  lemma SendKeeps(p: Pipe, e: Event)
    requires Inv(p) && |p.channel| < CAPACITY
    ensures Inv(p.(accepted := p.accepted + [e], channel := p.channel + [e]))
  {
    var t := p.(accepted := p.accepted + [e], channel := p.channel + [e]);
    assert t.Line() == p.Line() + [e];
    CriticalConcat(p.Line(), [e]);
    CriticalConcat(p.accepted, [e]);
    SubsequenceAppend(p.Line(), p.accepted, e);
  }

  lemma OfferKeeps(p: Pipe)
    requires Inv(p) && p.pending.Some?
    ensures Inv(Next(p, Offer))
  {
    hide Critical, Subsequence, IsCritical;
    var t := Next(p, Offer);
    var i := FirstTelemetry(p.buffer, 0);
    var d := |p.delivered|;
    if |p.buffer| < MAX_EVENTS {
      assert t.Line() == p.Line();
    } else if i < |p.buffer| {
      BufferedDropped(p, i);
      DropFromLine(p, t, d + i);
    } else if !IsCritical(p.pending.value) {
      PendingDropped(p);
      DropFromLine(p, t, d + |p.buffer|);
    }
  }

  lemma BufferedDropped(p: Pipe, i: nat)
    requires p.pending.Some? && i < |p.buffer|
    ensures var t, at := p.(buffer := Without(p.buffer, i) + [p.pending.value], pending := None), |p.delivered| + i;
            at < |p.Line()| && p.Line()[at] == p.buffer[i] && t.Line() == Without(p.Line(), at)
  {
  }

  lemma PendingDropped(p: Pipe)
    requires p.pending.Some?
    ensures var at := |p.delivered| + |p.buffer|;
            && at < |p.Line()| && p.Line()[at] == p.pending.value
            && p.(pending := None).Line() == Without(p.Line(), at)
  {
  }

  lemma InvStep(p: Pipe, step: Step)
    requires Inv(p) && Enabled(p, step)
    ensures Inv(Next(p, step))
  {
    match step
    case Send(e) => if |p.channel| < CAPACITY { SendKeeps(p, e); }
    case Receive => assert Next(p, step).Line() == p.Line();
    case Offer => OfferKeeps(p);
    case Poll => assert Next(p, step).Line() == p.Line();
  }

  ghost predicate ValidRun(p: Pipe, run: seq<Step>)
    decreases |run|
  {
    run == [] || (Enabled(p, run[0]) && ValidRun(Next(p, run[0]), run[1..]))
  }

  ghost function Final(p: Pipe, run: seq<Step>): Pipe
    requires ValidRun(p, run)
    decreases |run|
  {
    if run == [] then p else Final(Next(p, run[0]), run[1..])
  }

  /** In every state of every run: the critical events delivered, buffered, in
      hand and queued are, in this order, exactly the critical events accepted;
      what clients see is a subsequence of what was accepted; nothing overflows. */
  lemma {:induction false} CriticalEventsSurvive(p: Pipe, run: seq<Step>)
    requires Inv(p) && ValidRun(p, run)
    ensures var t := Final(p, run);
            && Inv(t)
            && Critical(t.delivered + t.buffer + t.InHand() + t.channel) == Critical(t.accepted)
            && Subsequence(t.delivered + t.buffer, t.accepted)
            && |t.buffer| <= MAX_EVENTS
    decreases |run|
  {
    if run != [] {
      InvStep(p, run[0]);
      CriticalEventsSurvive(Next(p, run[0]), run[1..]);
    } else {
      var seen := p.delivered + p.buffer;
      SubsequencePrefix(p.Line(), p.accepted, |seen|);
      assert p.Line()[..|seen|] == seen;
    }
  }

  /** Once everything is drained, clients have received every critical event
      exactly once and in order. */
  lemma DrainedMeansDelivered(run: seq<Step>)
    requires ValidRun(EMPTY, run)
    requires var t := Final(EMPTY, run); t.channel == [] && t.pending.None? && t.buffer == []
    ensures var t := Final(EMPTY, run); Critical(t.delivered) == Critical(t.accepted)
  {
    CriticalEventsSurvive(EMPTY, run);
    var t := Final(EMPTY, run);
    assert t.Line() == t.delivered;
  }

  ghost predicate NeverFull(p: Pipe, run: seq<Step>)
    requires ValidRun(p, run)
    decreases |run|
  {
    run == [] || ((run[0].Offer? ==> |p.buffer| < MAX_EVENTS) && NeverFull(Next(p, run[0]), run[1..]))
  }

  lemma NothingLostStep(p: Pipe, step: Step)
    requires p.Line() == p.accepted && Enabled(p, step) && (step.Offer? ==> |p.buffer| < MAX_EVENTS)
    ensures Next(p, step).Line() == Next(p, step).accepted
  {
    var t := Next(p, step);
    match step
    case Send(e) => if |p.channel| < CAPACITY { assert t.Line() == p.Line() + [e]; }
    case _ => assert t.Line() == p.Line();
  }

  /** Telemetry that the channel took is only ever lost to a full buffer. */
  lemma {:induction false} NothingLostBelowCapacity(p: Pipe, run: seq<Step>)
    requires p.Line() == p.accepted && ValidRun(p, run) && NeverFull(p, run)
    ensures Final(p, run).Line() == Final(p, run).accepted
    decreases |run|
  {
    if run != [] {
      NothingLostStep(p, run[0]);
      NothingLostBelowCapacity(Next(p, run[0]), run[1..]);
    }
  }

  /** A critical event waits exactly while the buffer is full of critical
      events, and one poll lets it in. */
  lemma PollUnblocks(p: Pipe)
    requires p.pending.Some? && |p.buffer| <= MAX_EVENTS
    ensures Next(p, Offer).pending.Some? <==>
              && |p.buffer| == MAX_EVENTS && IsCritical(p.pending.value)
              && forall k :: 0 <= k < |p.buffer| ==> IsCritical(p.buffer[k])
    ensures var t := Next(Next(p, Poll), Offer);
            && t.pending.None? && t.buffer != [] && t.buffer[|t.buffer| - 1] == p.pending.value
  {
  }

  /** A full buffer gives up its oldest telemetry for what comes in, whatever that is. */
  lemma OldestTelemetryGoes(p: Pipe, a: seq<Event>, e: Event, b: seq<Event>)
    requires p.pending.Some? && |p.buffer| == MAX_EVENTS && p.buffer == a + [e] + b
    requires !IsCritical(e) && forall x <- a :: IsCritical(x)
    ensures Next(p, Offer) == p.(buffer := a + b + [p.pending.value], pending := None)
  {
    var i := FirstTelemetry(p.buffer, 0);
    assert p.buffer[|a|] == e;
    assert forall k :: 0 <= k < |a| ==> p.buffer[k] == a[k];
    assert i == |a|;
    assert Without(p.buffer, i) == a + b;
  }

  /** Telemetry that meets a buffer full of critical events is dropped. */
  lemma SaturatedDropsTelemetry(p: Pipe)
    requires p.pending.Some? && |p.buffer| == MAX_EVENTS && !IsCritical(p.pending.value)
    requires forall x <- p.buffer :: IsCritical(x)
    ensures Next(p, Offer) == p.(pending := None)
  {
    assert FirstTelemetry(p.buffer, 0) == |p.buffer|;
  }

  /** Ends of jobs and states of points are critical, and messages and log lines from
      the error priority on; progress never is. */
  lemma CriticalKinds(e: Event)
    ensures IsCritical(e) <==>
              e.JobFinished? || e.PointStatus? || ((e.JobMessage? || e.LogLine?) && e.priority >= 3)
  {
  }

  /** The critical projection of critical events is all of them. */
  lemma {:induction false} CriticalAll(s: seq<Event>)
    requires forall e <- s :: IsCritical(e)
    ensures Critical(s) == s
  {
    if s != [] {
      var n := |s| - 1;
      assert s == s[..n] + [s[n]] && s[n] in s;
      CriticalAll(s[..n]);
    }
  }

  /** Work left for bridge and clients. */
  function Work(p: Pipe): nat { 3 * |p.channel| + 2 * |p.InHand()| + |p.buffer| }

  /** Backpressure never deadlocks: from every state the bridge and polling clients
      can empty the pipeline without any further event being sent. */
  lemma Drains(p: Pipe) returns (run: seq<Step>)
    ensures ValidRun(p, run) && forall k :: 0 <= k < |run| ==> !run[k].Send?
    ensures var t := Final(p, run);
            && t.channel == [] && t.pending.None? && t.buffer == [] && t.accepted == p.accepted
    decreases Work(p), 0
  {
    if p.buffer != [] {
      run := DrainAfter(p, Poll);
    } else if p.pending.Some? {
      run := DrainAfter(p, Offer);
    } else if p.channel != [] {
      run := DrainAfter(p, Receive);
    } else {
      run := [];
    }
  }

  lemma DrainAfter(p: Pipe, step: Step) returns (run: seq<Step>)
    requires Enabled(p, step) && !step.Send? && Work(Next(p, step)) < Work(p)
    ensures ValidRun(p, run) && forall k :: 0 <= k < |run| ==> !run[k].Send?
    ensures var t := Final(p, run);
            && t.channel == [] && t.pending.None? && t.buffer == [] && t.accepted == p.accepted
    decreases Work(Next(p, step)), 1
  {
    var rest := Drains(Next(p, step));
    run := [step] + rest;
    assert run[1..] == rest;
  }

  /** And then every critical event accepted so far has been delivered. */
  lemma EverythingCanBeDelivered(p: Pipe) returns (run: seq<Step>)
    requires Inv(p)
    ensures ValidRun(p, run) && (forall k :: 0 <= k < |run| ==> !run[k].Send?)
    ensures Critical(Final(p, run).delivered) == Critical(p.accepted)
  {
    run := Drains(p);
    CriticalEventsSurvive(p, run);
    var t := Final(p, run);
    assert t.Line() == t.delivered;
  }

  // ── The bridge thread and its callers ─────────────────────────────────────

  class EventBridge {
    var channel: seq<Event>
    var pending: Option<Event>
    var events: seq<Event>
    ghost var accepted: seq<Event>
    ghost var delivered: seq<Event>

    ghost function State(): Pipe
      reads this
    {
      Pipe(accepted, channel, pending, events, delivered)
    }

    constructor ()
      ensures State() == EMPTY
    {
      channel, pending, events := [], None, [];
      accepted, delivered := [], [];
    }

    /** Returns once the event is in the channel, or at once with `false` for
        telemetry that finds it full. */
    method Send(e: Event) returns (sent: bool)
      requires Enabled(State(), Step.Send(e)) && Inv(State())
      modifies this
      ensures State() == Next(old(State()), Step.Send(e)) && Inv(State())
      ensures sent == (old(|channel|) < CAPACITY) && (IsCritical(e) ==> sent)
      ensures channel == (if sent then old(channel) + [e] else old(channel)) && events == old(events)
    {
      InvStep(State(), Step.Send(e));
      sent := |channel| < CAPACITY;
      if sent {
        channel := channel + [e];
        accepted := accepted + [e];
      }
    }

    method Receive()
      requires Enabled(State(), Step.Receive) && Inv(State())
      modifies this
      ensures State() == Next(old(State()), Step.Receive) && Inv(State())
      ensures pending == Some(old(channel)[0]) && channel == old(channel)[1..] && events == old(events)
    {
      InvStep(State(), Step.Receive);
      pending := Some(channel[0]);
      channel := channel[1..];
    }

    /** One turn of the bridge's inner loop; `done` when it takes the next event. */
    method Offer() returns (done: bool)
      requires Enabled(State(), Step.Offer) && Inv(State())
      modifies this
      ensures State() == Next(old(State()), Step.Offer) && Inv(State())
      ensures done == pending.None? && channel == old(channel)
      ensures old(|events|) < MAX_EVENTS ==> done && events == old(events) + [old(pending).value]
    {
      InvStep(State(), Step.Offer);
      if |events| < MAX_EVENTS {
        events := events + [pending.value];
        pending := None;
      } else {
        var index := 0;
        while index < |events| && IsCritical(events[index])
          invariant 0 <= index <= |events|
          invariant FirstTelemetry(events, 0) == FirstTelemetry(events, index)
        {
          index := index + 1;
        }
        if index < |events| {
          events := events[..index] + events[index + 1..];
          events := events + [pending.value];
          pending := None;
        } else if !IsCritical(pending.value) {
          pending := None;
        }
      }
      done := pending.None?;
    }

    method Poll() returns (batch: seq<Event>)
      requires Inv(State())
      modifies this
      ensures State() == Next(old(State()), Step.Poll) && Inv(State())
      ensures delivered == old(delivered) + batch && |batch| <= POLL_BATCH
      ensures batch + events == old(events) && |batch| == Min(|old(events)|, POLL_BATCH)
      ensures channel == old(channel) && pending == old(pending)
    {
      InvStep(State(), Step.Poll);
      var n := Min(|events|, POLL_BATCH);
      batch := events[..n];
      events := events[n..];
      delivered := delivered + batch;
    }
  }
}
