/** How high the counter can go, and what a write that never commits leaves
    behind. */
module QuotaLimit {
  import opened Prelude
  import opened QuotaMachine
  import opened QuotaConservation
  import Naming

  // ── The limit ─────────────────────────────────────────────────────────────

  predicate OpFits(limit: nat, op: Op) {
    && op.staged <= U64_MAX && op.counted <= U64_MAX
    && (op.phase in {CommitMark, Renaming, Falling, Retrying, Undoing} ==> op.counted <= limit)
  }

  ghost predicate Bounded(s: State) {
    && s.limit <= U64_MAX
    && (forall p :: p in s.files ==> s.files[p] <= U64_MAX)
    && (forall i :: 0 <= i < |s.ops| ==> OpFits(s.limit, s.ops[i]))
    && (s.cell.Full? ==> s.cell.bytes <= Max(s.loaded, s.limit) + s.undone)
  }

  lemma ActKeepsFits(s: State, op: Op, a: Action)
    requires CanAct(s, op, a) && OpFits(s.limit, op) && s.limit <= U64_MAX
    requires forall p :: p in s.files ==> s.files[p] <= U64_MAX
    ensures OpFits(s.limit, ActOp(s, op, a))
    ensures forall p :: p in ActFiles(s.files, op, a) ==> ActFiles(s.files, op, a)[p] <= U64_MAX
  {
  }

  lemma LandedBound(s: State, op: Op, a: Action, bound: nat)
    requires Lands(s, op, a) && OpFits(s.limit, op)
    requires s.limit <= bound && s.cell.bytes <= bound
    ensures Wanted(op) <= bound + if op.phase == Undoing then SatSub(op.prior, op.counted) else 0
  {
  }

  lemma BoundedStep(s: State, step: Step)
    requires Bounded(s) && Enabled(s, step)
    ensures Bounded(Next(s, step))
  {
    if step.Act? {
      var op := s.ops[step.i];
      ActKeepsFits(s, op, step.action);
      if Lands(s, op, step.action) {
        LandedBound(s, op, step.action, Max(s.loaded, s.limit) + s.undone);
      }
    }
  }

  /** In every run, under any interleaving, spurious failure, reset or crash, the
      counter stays at most the larger of its loaded value and the limit, plus
      the shrink undone by rollbacks since the load. */
  lemma {:induction false} LimitHolds(s: State, run: seq<Step>)
    requires Bounded(s) && ValidRun(s, run)
    ensures var t := Final(s, run);
            Bounded(t) && (t.cell.Full? ==> t.cell.bytes <= Max(t.loaded, t.limit) + t.undone)
    decreases |run|
  {
    if run != [] {
      BoundedStep(s, run[0]);
      LimitHolds(Next(s, run[0]), run[1..]);
    }
  }

  /** The step lands a rollback that gives back more than it takes. */
  predicate Regrows(s: State, step: Step)
    requires Enabled(s, step)
  {
    step.Act? && var op := s.ops[step.i];
    Lands(s, op, step.action) && op.phase == Undoing && op.prior > op.counted
  }

  ghost predicate NeverRegrows(s: State, run: seq<Step>)
    requires ValidRun(s, run)
    decreases |run|
  {
    run == [] || (!Regrows(s, run[0]) && NeverRegrows(Next(s, run[0]), run[1..]))
  }

  /** Without such a rollback the limit is never exceeded, unless the id was
      already over it when it was loaded. */
  lemma {:induction false} LimitNeverExceeded(s: State, run: seq<Step>)
    requires Bounded(s) && s.undone == 0 && ValidRun(s, run) && NeverRegrows(s, run)
    ensures var t := Final(s, run); t.undone == 0 && (t.cell.Full? ==> t.cell.bytes <= Max(t.loaded, t.limit))
    decreases |run|
  {
    if run != [] {
      BoundedStep(s, run[0]);
      LimitNeverExceeded(Next(s, run[0]), run[1..]);
    }
  }

  lemma InitBounded(limit: nat, files: Files, persisted: nat)
    requires limit <= U64_MAX && forall p :: p in files ==> files[p] <= U64_MAX
    ensures Bounded(Init(limit, files, persisted)) && Inv(Init(limit, files, persisted), true, true)
  {
  }

  /** So from any start of a server the bound holds in every state it reaches. */
  lemma LimitFromStart(limit: nat, files: Files, persisted: nat, run: seq<Step>)
    requires limit <= U64_MAX && forall p :: p in files ==> files[p] <= U64_MAX
    requires ValidRun(Init(limit, files, persisted), run)
    ensures var t := Final(Init(limit, files, persisted), run);
            t.cell.Full? ==> t.cell.bytes <= Max(t.loaded, limit) + t.undone
  {
    InitBounded(limit, files, persisted);
    LimitHolds(Init(limit, files, persisted), run);
    SameLimit(Init(limit, files, persisted), run);
  }

  lemma {:induction false} SameLimit(s: State, run: seq<Step>)
    requires ValidRun(s, run)
    ensures Final(s, run).limit == s.limit
    decreases |run|
  {
    if run != [] {
      SameLimit(Next(s, run[0]), run[1..]);
    }
  }

  // ── Staging isolation ─────────────────────────────────────────────────────

  /** The temp path of a write: the target, the clock, and a number that one process
      never uses twice. */
  function StagingPath(path: Path, nanos: nat, n: nat): Path {
    path + ".quota-tmp" + "-" + Naming.Decimal(nanos) + "-" + Naming.Decimal(n)
  }

  /** No two operations stage at one path, and none at its target. */
  lemma StagingPathsDiffer(path: Path, nanos: nat, n: nat, other: Path, later: nat, m: nat)
    ensures StagingPath(path, nanos, n) == StagingPath(other, later, m) <==> path == other && nanos == later && n == m
    ensures StagingPath(path, nanos, n) != path
  {
    if StagingPath(path, nanos, n) == StagingPath(other, later, m) {
      NoDashIn(nanos);
      NoDashIn(n);
      NoDashIn(later);
      NoDashIn(m);
      var a, b := path + ".quota-tmp", other + ".quota-tmp";
      Naming.AfterLastDash(a + "-" + Naming.Decimal(nanos), Naming.Decimal(n),
                           b + "-" + Naming.Decimal(later), Naming.Decimal(m));
      Naming.AfterLastDash(a, Naming.Decimal(nanos), b, Naming.Decimal(later));
      Naming.ValueOfDecimal(nanos);
      Naming.ValueOfDecimal(n);
      Naming.ValueOfDecimal(later);
      Naming.ValueOfDecimal(m);
      assert a[..|a| - 10] == path && b[..|b| - 10] == other;
    }
    assert |StagingPath(path, nanos, n)| > |path|;
  }

  lemma NoDashIn(n: nat)
    ensures '-' !in Naming.Decimal(n)
  {
    Naming.DecimalDigits(n);
  }

  predicate Uncommitted(phase: Phase) {
    phase in {Staging, Closed, Counted, Committing, Rejected, Aborted}
  }

  lemma CommittedStaysCommitted(s: State, step: Step, i: nat)
    requires Enabled(s, step) && !step.Crash? && i < |s.ops| && !Uncommitted(s.ops[i].phase)
    ensures i < |Next(s, step).ops| && !Uncommitted(Next(s, step).ops[i].phase)
  {
  }

  ghost predicate ActsHarmlessly(s: State, run: seq<Step>, i: nat)
    requires ValidRun(s, run)
    decreases |run|
  {
    run == [] ||
    (var t := Next(s, run[0]);
     && (run[0].Act? && run[0].i == i ==> t.files == s.files && Counter(t) == Counter(s))
     && ActsHarmlessly(t, run[1..], i))
  }

  predicate CrashFree(run: seq<Step>) { forall k :: 0 <= k < |run| ==> !run[k].Crash? }

  lemma {:induction false} CommittedForever(s: State, run: seq<Step>, i: nat)
    requires ValidRun(s, run) && CrashFree(run) && i < |s.ops| && !Uncommitted(s.ops[i].phase)
    ensures i < |Final(s, run).ops| && !Uncommitted(Final(s, run).ops[i].phase)
    decreases |run|
  {
    if run != [] {
      CommittedStaysCommitted(s, run[0], i);
      CommittedForever(Next(s, run[0]), run[1..], i);
    }
  }

  /** A write or copy that ends rejected or aborted did nothing, in any of its
      steps and whatever ran in between, to the real paths or to the counter. */
  lemma {:induction false} RejectedWritesLeaveNoTrace(s: State, run: seq<Step>, i: nat)
    requires ValidRun(s, run) && CrashFree(run)
    requires i < |Final(s, run).ops| && Final(s, run).ops[i].phase in {Rejected, Aborted}
    ensures ActsHarmlessly(s, run, i)
    decreases |run|
  {
    if run != [] {
      var t := Next(s, run[0]);
      RejectedWritesLeaveNoTrace(t, run[1..], i);
      if run[0].Act? && run[0].i == i && !Uncommitted(t.ops[i].phase) {
        CommittedForever(t, run[1..], i);
      }
    }
  }
}
