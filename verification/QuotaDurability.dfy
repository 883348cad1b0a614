/** The dirty flag and the background sync task: no change of the counter is
    forgotten, and what reaches the tracker is always a value of the past. */
module QuotaDurability {
  import opened QuotaMachine
  import opened QuotaConservation

  // ── No lost update ────────────────────────────────────────────────────────

  /** Some thread has changed the counter and is about to set the flag. */
  ghost predicate MarkPending(s: State) {
    s.resets > 0 || exists i :: 0 <= i < |s.ops| && s.ops[i].Marking()
  }

  /** Why the current value will reach, or has reached, the tracker. */
  ghost predicate Accounted(s: State) {
    s.cell.Full? ==>
      || s.cell.dirty
      || MarkPending(s)
      || s.sync.Swapped?
      || (s.sync.Holding? && s.sync.value == s.cell.bytes)
      || s.sync.Remark?
      || (s.sync.Idle? && s.persisted == s.cell.bytes)
  }

  lemma MarkSurvives(s: State, step: Step)
    requires Enabled(s, step) && s.cell.Full? && MarkPending(s) && !step.Crash?
    ensures var t := Next(s, step); MarkPending(t) || (t.cell.Full? && t.cell.dirty)
  {
    var t := Next(s, step);
    if s.resets == 0 {
      var i :| 0 <= i < |s.ops| && s.ops[i].Marking();
      if step.Act? && step.i == i {
        assert step.action.MarkDirty?;
      } else {
        assert t.ops[i] == s.ops[i];
      }
    }
  }

  lemma AccountedStep(s: State, step: Step)
    requires Accounted(s) && CellOk(s) && Enabled(s, step)
    ensures Accounted(Next(s, step)) && CellOk(Next(s, step))
  {
    var t := Next(s, step);
    if step.Act? && Lands(s, s.ops[step.i], step.action) {
      assert t.ops[step.i].Marking();
    } else if s.cell.Full? && MarkPending(s) && !step.Crash? {
      MarkSurvives(s, step);
    }
  }

  /** In every reachable state, whatever failed or crashed on the way, the
      current value is accounted for. */
  lemma {:induction false} NoLostUpdate(s: State, run: seq<Step>)
    requires Accounted(s) && CellOk(s) && ValidRun(s, run)
    ensures Accounted(Final(s, run)) && CellOk(Final(s, run))
    decreases |run|
  {
    if run != [] {
      AccountedStep(s, run[0]);
      NoLostUpdate(Next(s, run[0]), run[1..]);
    }
  }

  /** One undisturbed, successful tick after the last mark makes the tracker
      equal to the counter. */
  lemma TickFlushes(s: State)
    requires Accounted(s) && s.cell.Full? && s.sync.Idle? && !MarkPending(s)
    ensures var run := if s.cell.dirty then [SyncSwap, SyncRead, SyncStore] else [SyncSwap];
            && ValidRun(s, run)
            && Final(s, run).persisted == Final(s, run).cell.bytes == s.cell.bytes
            && Final(s, run).sync.Idle?
  {
    var s1 := Next(s, SyncSwap);
    if s.cell.dirty {
      var run := [SyncSwap, SyncRead, SyncStore];
      var s2 := Next(s1, SyncRead);
      var s3 := Next(s2, SyncStore);
      assert run[1..] == [SyncRead, SyncStore] && run[1..][1..] == [SyncStore];
      assert Final(s3, []) == s3 && Final(s2, [SyncStore]) == s3 && Final(s1, run[1..]) == s3;
    } else {
      assert Final(s1, []) == s1;
    }
  }

  /** A tick whose store fails, with or without effect, leaves the id dirty for the
      next one. */
  lemma FailedTick(s: State, wrote: bool)
    requires s.cell.Full? && s.cell.dirty && s.sync.Idle?
    ensures var run := [SyncSwap, SyncRead, SyncFail(wrote), SyncRemark];
            && ValidRun(s, run) && Final(s, run).cell == s.cell && Final(s, run).sync.Idle?
            && Final(s, run).persisted == if wrote then s.cell.bytes else s.persisted
  {
    var s1 := Next(s, SyncSwap);
    var s2 := Next(s1, SyncRead);
    var s3 := Next(s2, SyncFail(wrote));
    var s4 := Next(s3, SyncRemark);
    assert s4.cell == s.cell && s4.sync.Idle? && s4.persisted == if wrote then s.cell.bytes else s.persisted;
    hide ValidRun, Final;
    EmptyRun(s4);
    Prepend(s3, SyncRemark, s4, [], s4);
    Prepend(s2, SyncFail(wrote), s3, [SyncRemark] + [], s4);
    Prepend(s1, SyncRead, s2, [SyncFail(wrote)] + ([SyncRemark] + []), s4);
    Prepend(s, SyncSwap, s1, [SyncRead] + ([SyncFail(wrote)] + ([SyncRemark] + [])), s4);
    assert [SyncSwap] + ([SyncRead] + ([SyncFail(wrote)] + ([SyncRemark] + [])))
        == [SyncSwap, SyncRead, SyncFail(wrote), SyncRemark];
  }

  // ── Durable values are values of the past ─────────────────────────────────

  ghost predicate Recorded(s: State) {
    && 0 <= s.durableAt < |s.history| && s.history[s.durableAt] == s.persisted
    && (s.cell.Full? ==> s.history[|s.history| - 1] == s.cell.bytes)
    && (s.sync.Holding? ==>
          && s.cell.Full? && s.durableAt <= s.sync.at < |s.history|
          && s.history[s.sync.at] == s.sync.value)
  }

  lemma RecordedStep(s: State, step: Step)
    requires Recorded(s) && CellOk(s) && Enabled(s, step)
    ensures var t := Next(s, step);
            && Recorded(t) && CellOk(t)
            && s.history <= t.history && s.durableAt <= t.durableAt
            && (step.FinishLoad? ==> t.cell.bytes == t.loaded == s.persisted == s.history[s.durableAt])
  {
  }

  /** Whatever the tracker holds is a value the counter had, and successive
      syncs move only forward in the counter's history, restarts included. */
  lemma {:induction false} DurableValuesFollowHistory(s: State, run: seq<Step>)
    requires Recorded(s) && CellOk(s) && ValidRun(s, run)
    ensures var t := Final(s, run);
            && Recorded(t) && CellOk(t)
            && s.history <= t.history && s.durableAt <= t.durableAt
            && t.persisted == t.history[t.durableAt]
    decreases |run|
  {
    if run != [] {
      RecordedStep(s, run[0]);
      DurableValuesFollowHistory(Next(s, run[0]), run[1..]);
    }
  }

  function Loads(run: seq<Step>): nat {
    if run == [] then 0 else (if run[0].FinishLoad? then 1 else 0) + Loads(run[1..])
  }

  /** However many callers race for the first touch, a server that does not
      restart loads the id at most once, and not at all once it has a bucket. */
  lemma {:induction false} LoadedAtMostOnce(s: State, run: seq<Step>)
    requires ValidRun(s, run) && forall k :: 0 <= k < |run| ==> !run[k].Crash?
    ensures Loads(run) <= if s.cell.Full? then 0 else 1
    decreases |run|
  {
    if run != [] {
      LoadedAtMostOnce(Next(s, run[0]), run[1..]);
    }
  }

  /** Nothing but the sync task writes to the tracker. */
  lemma {:induction false} TrackerOnlyBySync(s: State, run: seq<Step>)
    requires ValidRun(s, run) && forall k :: 0 <= k < |run| ==> !run[k].SyncStore? && run[k] != SyncFail(true)
    ensures Final(s, run).persisted == s.persisted
    decreases |run|
  {
    if run != [] {
      TrackerOnlyBySync(Next(s, run[0]), run[1..]);
    }
  }

  lemma InitDurable(limit: nat, files: Files, persisted: nat)
    ensures var s := Init(limit, files, persisted); Accounted(s) && Recorded(s) && CellOk(s)
  {
  }

  /** So from any start of a server, in every state it reaches, the current value is
      accounted for and the tracker holds one that the counter had. */
  lemma DurableFromStart(limit: nat, files: Files, persisted: nat, run: seq<Step>)
    requires ValidRun(Init(limit, files, persisted), run)
    ensures var t := Final(Init(limit, files, persisted), run);
            Accounted(t) && 0 <= t.durableAt < |t.history| && t.persisted == t.history[t.durableAt]
  {
    var s := Init(limit, files, persisted);
    InitDurable(limit, files, persisted);
    NoLostUpdate(s, run);
    DurableValuesFollowHistory(s, run);
  }
}
