/** What a whole write, copy, delete or rename comes to: over any run, and for an
    operation whose steps nothing comes between. */
module QuotaOutcomes {
  import opened Prelude
  import opened QuotaMachine
  import opened QuotaConservation
  import opened QuotaLimit

  // ── Which paths are taken ─────────────────────────────────────────────────

  /** Only operations in flight take paths: theirs, and a copy its source, which others
      may read as well. */
  lemma TakenIff(s: State, op: Op, p: Path)
    ensures Stable(s.(ops := []), p) && Free(s.(ops := []), p)
    ensures var ended := op.phase in {Finished, Rejected, Aborted, RolledBack, Credited, Lost};
            && (Stable(With(s, op), p) <==> Stable(s, p) && (ended || op.path != p))
            && (Free(With(s, op), p) <==> Free(s, p) && (ended || (op.path != p && op.kind != Copy(p))))
  {
    var t := With(s, op);
    var n := |s.ops|;
    assert t.ops[n] == op && forall k :: 0 <= k < n ==> t.ops[k] == s.ops[k];
    if Stable(t, p) {
      forall k | 0 <= k < n
        ensures !s.ops[k].Targets(p)
      {
        assert !t.ops[k].Targets(p);
      }
    }
    if Free(t, p) {
      forall k | 0 <= k < n
        ensures !s.ops[k].Reads(p)
      {
        assert !t.ops[k].Reads(p);
      }
    }
  }

  // ── What was written is what is staged and what arrives ───────────────────

  /** Bytes that operation i has been handed over a run. */
  function Handed(run: seq<Step>, i: nat): nat {
    if run == [] then 0
    else Handed(run[..|run| - 1], i)
         + (var last := run[|run| - 1]; if last.Act? && last.i == i && last.action.Chunk? then last.action.n else 0)
  }

  /** A run but for its last step. */
  lemma {:induction false} LastStep(s: State, run: seq<Step>)
    requires ValidRun(s, run) && run != []
    ensures var n := |run| - 1;
            && ValidRun(s, run[..n]) && Enabled(Final(s, run[..n]), run[n])
            && Final(s, run) == Next(Final(s, run[..n]), run[n])
    decreases |run|
  {
    hide Enabled, Next;
    var n := |run| - 1;
    if n > 0 {
      LastStep(Next(s, run[0]), run[1..]);
      assert run[1..][..n - 1] == run[..n][1..];
    } else {
      assert run[..0] == [] && run[1..] == [];
    }
  }

  predicate WriteOf(op: Op, path: Path, bytes: nat) {
    op.kind == Write && op.path == path && op.staged == bytes && op.counted == bytes
  }

  /** Over any run, whatever else happens: a write has staged, and asks the quota for,
      all the bytes it was handed. */
  lemma {:induction false} StagedIsHanded(s: State, path: Path, run: seq<Step>)
    requires Enabled(s, BeginWrite(path)) && ValidRun(Next(s, BeginWrite(path)), run) && CrashFree(run)
    ensures var t := Final(Next(s, BeginWrite(path)), run);
            |s.ops| < |t.ops| && WriteOf(t.ops[|s.ops|], path, Handed(run, |s.ops|))
    decreases |run|
  {
    if run != [] {
      var n := |run| - 1;
      LastStep(Next(s, BeginWrite(path)), run);
      StagedIsHanded(s, path, run[..n]);
      WriteStep(Final(Next(s, BeginWrite(path)), run[..n]), run[n], |s.ops|, path, Handed(run[..n], |s.ops|));
    }
  }

  lemma OpStays(s: State, step: Step, i: nat)
    requires Enabled(s, step) && !step.Crash? && i < |s.ops| && !(step.Act? && step.i == i)
    ensures i < |Next(s, step).ops| && Next(s, step).ops[i] == s.ops[i]
  {
  }

  lemma OpActs(s: State, i: nat, a: Action)
    requires Enabled(s, Act(i, a))
    ensures i < |s.ops| && CanAct(s, s.ops[i], a)
    ensures i < |Next(s, Act(i, a)).ops| && Next(s, Act(i, a)).ops[i] == ActOp(s, s.ops[i], a)
  {
  }

  lemma WriteStep(s: State, step: Step, i: nat, path: Path, bytes: nat)
    requires Enabled(s, step) && !step.Crash? && i < |s.ops| && WriteOf(s.ops[i], path, bytes)
    ensures var t := Next(s, step);
            var more := if step.Act? && step.i == i && step.action.Chunk? then step.action.n else 0;
            i < |t.ops| && WriteOf(t.ops[i], path, bytes + more)
  {
    if step.Act? && step.i == i {
      OpActs(s, i, step.action);
    } else {
      OpStays(s, step, i);
    }
    hide Next, Enabled;
  }

  /** When its rename takes effect, reported or not, the object at its path has
      exactly those bytes. */
  lemma WrittenArrives(s: State, path: Path, run: seq<Step>, last: Step)
    requires Enabled(s, BeginWrite(path)) && ValidRun(Next(s, BeginWrite(path)), run) && CrashFree(run)
    requires Enabled(Final(Next(s, BeginWrite(path)), run), last)
    requires last.Act? && last.i == |s.ops| && (last.action.RenameTry? || last.action.RenameRetry?)
    ensures var t := Final(Next(s, BeginWrite(path)), run);
            Next(t, last).files
            == if last.action.answer.Failed? then t.files else t.files[path := Handed(run, |s.ops|)]
  {
    StagedIsHanded(s, path, run);
  }

  /** A copy has staged what its source held when the copy was closed. */
  lemma {:induction false} StagedIsSource(s: State, i: nat, run: seq<Step>)
    requires Enabled(s, Act(i, CloseStage)) && s.ops[i].kind.Copy?
    requires ValidRun(Next(s, Act(i, CloseStage)), run) && CrashFree(run)
    ensures var t := Final(Next(s, Act(i, CloseStage)), run);
            && i < |t.ops| && t.ops[i].kind == s.ops[i].kind && t.ops[i].path == s.ops[i].path
            && t.ops[i].phase != Staging && t.ops[i].staged == SizeOf(s.files, s.ops[i].kind.from)
    decreases |run|
  {
    if run != [] {
      var n := |run| - 1;
      LastStep(Next(s, Act(i, CloseStage)), run);
      StagedIsSource(s, i, run[..n]);
      CopyStep(Final(Next(s, Act(i, CloseStage)), run[..n]), run[n], i);
    }
  }

  lemma CopyStep(s: State, step: Step, i: nat)
    requires Enabled(s, step) && !step.Crash? && i < |s.ops| && s.ops[i].kind.Copy? && s.ops[i].phase != Staging
    ensures var t := Next(s, step);
            && i < |t.ops| && t.ops[i].kind == s.ops[i].kind && t.ops[i].path == s.ops[i].path
            && t.ops[i].phase != Staging && t.ops[i].staged == s.ops[i].staged
  {
    if step.Act? && step.i == i {
      OpActs(s, i, step.action);
    } else {
      OpStays(s, step, i);
    }
    hide Next, Enabled;
  }

  // ── Who may touch a path ──────────────────────────────────────────────────

  /** The only steps that change what is at a path: a rename or a fallback of the
      write or copy onto it, its deletion, and a user's rename. */
  predicate Touches(s: State, step: Step, p: Path)
    requires Enabled(s, step)
  {
    || (step.UserRename? && (step.from == p || step.to == p))
    || (step.Act? && s.ops[step.i].path == p
        && (step.action.RenameTry? || step.action.FallRemove? || step.action.RenameRetry? || step.action.ApplyDelete?))
  }

  predicate SameAt(a: Files, b: Files, p: Path) { (p in a <==> p in b) && SizeOf(a, p) == SizeOf(b, p) }

  lemma OthersStay(s: State, step: Step, p: Path)
    requires Enabled(s, step) && !Touches(s, step, p)
    ensures SameAt(s.files, Next(s, step).files, p)
  {
  }

  /** A user's rename moves the object. */
  lemma RenameMoves(s: State, from: Path, to: Path)
    requires Free(s, from) && Free(s, to) && from != to && from in s.files
    ensures Enabled(s, UserRename(from, to))
    ensures var t := Next(s, UserRename(from, to));
            && from !in t.files && to in t.files && t.files[to] == s.files[from] && Counter(t) == Counter(s)
  {
  }

  /** An operation that is over stays as it is. */
  lemma {:induction false} OverIsOver(s: State, run: seq<Step>, i: nat)
    requires ValidRun(s, run) && CrashFree(run) && i < |s.ops| && s.ops[i].Over()
    ensures i < |Final(s, run).ops| && Final(s, run).ops[i] == s.ops[i]
    decreases |run|
  {
    if run != [] {
      if run[0].Act? && run[0].i == i {
        OpActs(s, i, run[0].action);
      } else {
        OpStays(s, run[0], i);
      }
      OverIsOver(Next(s, run[0]), run[1..], i);
    }
  }

  /** Size is only credited once the delete batch is closed, and a closed batch has no
      delete still to be done. */
  predicate Creditable(s: State, op: Op) {
    op.kind.Delete? ==> && (op.phase in {Crediting, CreditMark, Credited} ==> op.kind.batch in s.closed)
                        && (op.kind.batch in s.closed ==> op.phase != Queued)
  }

  lemma {:induction false} CreditFollowsBatch(s: State, run: seq<Step>)
    requires ValidRun(s, run) && forall i :: 0 <= i < |s.ops| ==> Creditable(s, s.ops[i])
    ensures forall i :: 0 <= i < |Final(s, run).ops| ==> Creditable(Final(s, run), Final(s, run).ops[i])
    decreases |run|
  {
    if run != [] {
      forall i | 0 <= i < |Next(s, run[0]).ops|
        ensures Creditable(Next(s, run[0]), Next(s, run[0]).ops[i])
      {
        CreditStep(s, run[0], i);
      }
      CreditFollowsBatch(Next(s, run[0]), run[1..]);
    }
  }

  /** From any start of a server: while one size of a batch is credited, no other
      object of that batch still waits for its deletion. */
  lemma CreditWaitsForBatch(limit: nat, files: Files, persisted: nat, run: seq<Step>, i: nat, k: nat)
    requires ValidRun(Init(limit, files, persisted), run)
    requires var ops := Final(Init(limit, files, persisted), run).ops;
             && i < |ops| && k < |ops| && ops[i].kind.Delete? && ops[k].kind == ops[i].kind
             && ops[i].phase in {Crediting, CreditMark, Credited}
    ensures Final(Init(limit, files, persisted), run).ops[k].phase != Queued
  {
    CreditFollowsBatch(Init(limit, files, persisted), run);
  }

  lemma CreditStep(s: State, step: Step, i: nat)
    requires Enabled(s, step) && i < |Next(s, step).ops|
    requires forall k :: 0 <= k < |s.ops| ==> Creditable(s, s.ops[k])
    ensures Creditable(Next(s, step), Next(s, step).ops[i])
  {
    if step.Crash? || i >= |s.ops| {
      FreshNotCredited(s, step, i);
      hide Next, Enabled;
    } else {
      assert Creditable(s, s.ops[i]);
      ClosedStays(s, step);
      if step.Act? && step.i == i {
        OpActs(s, i, step.action);
      } else {
        OpStays(s, step, i);
      }
      hide Next, Enabled;
    }
  }

  lemma FreshNotCredited(s: State, step: Step, i: nat)
    requires Enabled(s, step) && (step.Crash? || i >= |s.ops|) && i < |Next(s, step).ops|
    ensures var op := Next(s, step).ops[i];
            && op.phase in {Staging, Queued} && (op.kind.Delete? <==> op.phase == Queued)
            && (op.kind.Delete? ==> op.kind.batch !in Next(s, step).closed)
  {
  }

  lemma ClosedStays(s: State, step: Step)
    requires Enabled(s, step) && !step.Crash?
    ensures s.closed <= Next(s, step).closed
    ensures forall k :: 0 <= k < |s.ops| && s.ops[k].kind.Delete? && s.ops[k].phase == Queued
                        && s.ops[k].kind.batch !in s.closed
                        ==> s.ops[k].kind.batch !in Next(s, step).closed
  {
  }

  // ── Operations that nothing comes between ─────────────────────────────────

  /** A state with one more operation, whose steps are the only ones taken. */
  function With(s: State, op: Op): State { s.(ops := s.ops + [op]) }

  function Acts(i: nat, actions: seq<Action>): (run: seq<Step>)
    ensures |run| == |actions|
  {
    seq(|actions|, k requires 0 <= k < |actions| => Act(i, actions[k]))
  }

  /** The actions are possible one after the other and lead from one to the other;
      `s` and `t` are the states without the operation. */
  ghost predicate Leads(s: State, op: Op, actions: seq<Action>, t: State, done: Op) {
    && ValidRun(With(s, op), Acts(|s.ops|, actions))
    && Final(With(s, op), Acts(|s.ops|, actions)) == With(t, done)
    && t.ops == s.ops
  }

  /** What an action does to everything but the operation. */
  function Around(s: State, op: Op, a: Action): State
    requires CanAct(s, op, a)
  {
    s.(files := ActFiles(s.files, op, a), cell := ActCell(s, op, a),
       history := if Lands(s, op, a) then s.history + [Wanted(op)] else s.history,
       undone := if Lands(s, op, a) && op.phase == Undoing then s.undone + SatSub(op.prior, op.counted) else s.undone)
  }

  lemma NothingMore(s: State, op: Op)
    ensures Leads(s, op, [], s, op)
  {
  }

  lemma OneAction(s: State, op: Op, a: Action)
    requires CanAct(s, op, a)
    ensures Enabled(With(s, op), Act(|s.ops|, a))
    ensures Next(With(s, op), Act(|s.ops|, a)) == With(Around(s, op, a), ActOp(s, op, a))
  {
    var w := With(s, op);
    assert w.ops[|s.ops| := ActOp(s, op, a)] == s.ops + [ActOp(s, op, a)];
  }

  /** The action is possible and does this. */
  predicate Moves(s: State, op: Op, a: Action, t: State, done: Op) {
    CanAct(s, op, a) && Around(s, op, a) == t && ActOp(s, op, a) == done
  }

  lemma LeadsOn(s: State, op: Op, a: Action, mid: State, changed: Op, actions: seq<Action>, t: State, done: Op)
    requires Moves(s, op, a, mid, changed) && Leads(mid, changed, actions, t, done)
    ensures Leads(s, op, [a] + actions, t, done)
  {
    hide CanAct, ActOp, Around, Enabled, Next;
    OneAction(s, op, a);
    assert mid.ops == s.ops by { SameOps(s, op, a); }
    var run := Acts(|s.ops|, [a] + actions);
    assert run == [Act(|s.ops|, a)] + Acts(|s.ops|, actions);
    assert run[1..] == Acts(|s.ops|, actions);
  }

  lemma LastMove(s: State, op: Op, a: Action, t: State, done: Op)
    requires Moves(s, op, a, t, done)
    ensures Leads(s, op, [a], t, done)
  {
    hide Moves, Leads;
    NothingMore(t, done);
    LeadsOn(s, op, a, t, done, [], t, done);
    assert [a] + [] == [a];
  }

  lemma SameOps(s: State, op: Op, a: Action)
    requires CanAct(s, op, a)
    ensures Around(s, op, a).ops == s.ops
  {
  }

  /** A write, copy or delete in the given phase. */
  function InPhase(kind: Kind, path: Path, phase: Phase, bytes: nat, prior: nat, seen: Option<nat>): Op {
    var staged := if kind.Delete? then 0 else bytes;
    Op(kind, path, phase, staged, staged, prior, false, false, seen)
  }

  /** The total that an exchange asks for, held within 64 bits. */
  function NewTotal(held: nat, prior: nat, bytes: nat): nat
    requires prior <= held
  {
    Min(held - prior + bytes, U64_MAX)
  }

  lemma MoveLoad(s: State, op: Op)
    requires op.InLoop() && op.seen.None? && s.cell.Full?
    ensures Moves(s, op, LoadCounter, s, op.(seen := Some(s.cell.bytes)))
  {
  }

  lemma MoveRefused(s: State, op: Op)
    requires op.phase == Committing && s.cell.Full? && op.seen == Some(s.cell.bytes) && op.prior <= s.cell.bytes
    requires NewTotal(s.cell.bytes, op.prior, op.counted) > s.limit
    ensures Moves(s, op, Exchange(false), s, op.(phase := Rejected, seen := None))
  {
  }

  /** The state around an operation whose exchange gave the counter this total. */
  function Landed(s: State, op: Op, total: nat, dirty: bool): State {
    s.(cell := Full(total, dirty), history := s.history + [total],
       undone := if op.phase == Undoing then s.undone + SatSub(op.prior, op.counted) else s.undone)
  }

  lemma MoveLands(s: State, op: Op)
    requires op.InLoop() && s.cell.Full? && op.seen == Some(s.cell.bytes) && op.Sub() <= s.cell.bytes
    requires NewTotal(s.cell.bytes, op.Sub(), op.Add()) <= LimitOf(s.limit, op)
    ensures Moves(s, op, Exchange(false), Landed(s, op, NewTotal(s.cell.bytes, op.Sub(), op.Add()), s.cell.dirty),
                  op.(phase := op.Landed(), seen := None))
  {
  }

  lemma MoveMark(s: State, op: Op)
    requires op.Marking() && s.cell.Full?
    ensures Moves(s, op, MarkDirty, s.(cell := Full(s.cell.bytes, true)), op.(phase := op.AfterMark()))
  {
  }

  /** One exchange from load to mark, undisturbed and not refused. */
  lemma ExchangeAlone(s: State, op: Op)
    requires op.InLoop() && op.seen.None? && s.cell.Full? && op.Sub() <= s.cell.bytes
    requires NewTotal(s.cell.bytes, op.Sub(), op.Add()) <= LimitOf(s.limit, op)
    ensures var mark := op.(phase := op.Landed());
            Leads(s, op, [LoadCounter, Exchange(false), MarkDirty],
                  Landed(s, op, NewTotal(s.cell.bytes, op.Sub(), op.Add()), true), mark.(phase := mark.AfterMark()))
  {
    var loaded, mark := op.(seen := Some(s.cell.bytes)), op.(phase := op.Landed());
    var total := NewTotal(s.cell.bytes, op.Sub(), op.Add());
    var mid, t := Landed(s, op, total, s.cell.dirty), Landed(s, op, total, true);
    var done := mark.(phase := mark.AfterMark());
    assert loaded.(phase := loaded.Landed(), seen := None) == mark;
    hide Leads, Moves;
    MoveLoad(s, op);
    MoveLands(s, loaded);
    MoveMark(mid, mark);
    LastMove(mid, mark, MarkDirty, t, done);
    LeadsOn(s, loaded, Exchange(false), mid, mark, [MarkDirty], t, done);
    LeadsOn(s, op, LoadCounter, s, loaded, [Exchange(false)] + [MarkDirty], t, done);
    assert [LoadCounter] + ([Exchange(false)] + [MarkDirty]) == [LoadCounter, Exchange(false), MarkDirty];
  }

  /** The exchange of a write or copy, undisturbed: refused exactly when the new total
      is over the limit, and then nothing has changed. */
  lemma CommitAlone(s: State, kind: Kind, path: Path, bytes: nat, prior: nat)
    requires !kind.Delete? && s.cell.Full? && prior <= s.cell.bytes
    ensures var total := NewTotal(s.cell.bytes, prior, bytes);
            var op := InPhase(kind, path, Committing, bytes, prior, None);
            if total > s.limit
            then Leads(s, op, [LoadCounter, Exchange(false)], s, op.(phase := Rejected))
            else Leads(s, op, [LoadCounter, Exchange(false), MarkDirty],
                       s.(cell := Full(total, true), history := s.history + [total]), op.(phase := Renaming))
  {
    var total := NewTotal(s.cell.bytes, prior, bytes);
    var op := InPhase(kind, path, Committing, bytes, prior, None);
    var loaded := op.(seen := Some(s.cell.bytes));
    hide Leads, Moves;
    if total > s.limit {
      MoveLoad(s, op);
      MoveRefused(s, loaded);
      LastMove(s, loaded, Exchange(false), s, op.(phase := Rejected));
      LeadsOn(s, op, LoadCounter, s, loaded, [Exchange(false)], s, op.(phase := Rejected));
      assert [LoadCounter] + [Exchange(false)] == [LoadCounter, Exchange(false)];
    } else {
      ExchangeAlone(s, op);
    }
  }

  lemma {:induction false} LeadsJoin(s: State, op: Op, first: seq<Action>, mid: State, changed: Op,
                                     then_: seq<Action>, t: State, done: Op)
    requires Leads(s, op, first, mid, changed) && Leads(mid, changed, then_, t, done)
    ensures Leads(s, op, first + then_, t, done)
  {
    var i := |s.ops|;
    assert Acts(i, first + then_) == Acts(i, first) + Acts(i, then_);
    RunsJoin(With(s, op), Acts(i, first), Acts(i, then_));
  }

  lemma {:induction false} RunsJoin(s: State, first: seq<Step>, then_: seq<Step>)
    requires ValidRun(s, first) && ValidRun(Final(s, first), then_)
    ensures ValidRun(s, first + then_) && Final(s, first + then_) == Final(Final(s, first), then_)
    decreases |first|
  {
    hide Enabled, Next;
    if first == [] {
      assert first + then_ == then_;
    } else {
      RunsJoin(Next(s, first[0]), first[1..], then_);
      assert (first + then_)[1..] == first[1..] + then_;
    }
  }

  function Sum(chunks: seq<nat>): nat { if chunks == [] then 0 else chunks[0] + Sum(chunks[1..]) }

  function Chunks(chunks: seq<nat>): seq<Action> {
    if chunks == [] then [] else [Chunk(chunks[0])] + Chunks(chunks[1..])
  }

  function Staged(path: Path, bytes: nat): Op { InPhase(Write, path, Staging, bytes, 0, None) }

  lemma {:induction false} ChunksAlone(s: State, path: Path, before: nat, chunks: seq<nat>)
    requires before + Sum(chunks) <= U64_MAX
    ensures Leads(s, Staged(path, before), Chunks(chunks), s, Staged(path, before + Sum(chunks)))
    decreases chunks
  {
    hide Leads, Moves;
    if chunks == [] {
      NothingMore(s, Staged(path, before));
    } else {
      MoveChunk(s, path, before, chunks[0]);
      ChunksAlone(s, path, before + chunks[0], chunks[1..]);
      LeadsOn(s, Staged(path, before), Chunk(chunks[0]), s, Staged(path, before + chunks[0]),
              Chunks(chunks[1..]), s, Staged(path, before + Sum(chunks)));
    }
  }

  lemma MoveChunk(s: State, path: Path, before: nat, n: nat)
    requires before + n <= U64_MAX
    ensures Moves(s, Staged(path, before), Chunk(n), s, Staged(path, before + n))
  {
  }

  lemma MoveClose(s: State, op: Op)
    requires op.phase == Staging
    ensures Moves(s, op, CloseStage, s,
                  op.(phase := Closed, staged := if op.kind.Copy? then SizeOf(s.files, op.kind.from) else op.staged))
    ensures Moves(s, op, AbortStage, s, op.(phase := Aborted))
  {
  }

  lemma MoveSizes(s: State, op: Op)
    ensures op.phase == Closed && op.kind.Copy? ==>
              Moves(s, op, SizeSource(true), s, op.(phase := Counted, counted := SizeOf(s.files, op.kind.from)))
    ensures op.phase == (if op.kind.Copy? then Counted else Closed) ==>
              Moves(s, op, SizeTarget(true), s,
                    op.(phase := Committing, prior := SizeOf(s.files, op.path), seen := None))
  {
  }

  lemma CloseAlone(s: State, path: Path, bytes: nat)
    ensures Leads(s, Staged(path, bytes), [CloseStage, SizeTarget(true)],
                  s, InPhase(Write, path, Committing, bytes, SizeOf(s.files, path), None))
    ensures Leads(s, Staged(path, bytes), [AbortStage], s, InPhase(Write, path, Aborted, bytes, 0, None))
  {
    var staged, closed := Staged(path, bytes), InPhase(Write, path, Closed, bytes, 0, None);
    var sized := InPhase(Write, path, Committing, bytes, SizeOf(s.files, path), None);
    hide Leads, Moves;
    MoveClose(s, staged);
    MoveSizes(s, closed);
    LastMove(s, closed, SizeTarget(true), s, sized);
    LeadsOn(s, staged, CloseStage, s, closed, [SizeTarget(true)], s, sized);
    assert [CloseStage] + [SizeTarget(true)] == [CloseStage, SizeTarget(true)];
    LastMove(s, staged, AbortStage, s, InPhase(Write, path, Aborted, bytes, 0, None));
  }

  lemma StageCopyAlone(s: State, from: Path, to: Path)
    ensures Leads(s, FreshOp(Copy(from), to, Staging, 0), [CloseStage, SizeSource(true), SizeTarget(true)],
                  s, InPhase(Copy(from), to, Committing, SizeOf(s.files, from), SizeOf(s.files, to), None))
  {
    var n := SizeOf(s.files, from);
    var started := FreshOp(Copy(from), to, Staging, 0);
    var closed := started.(phase := Closed, staged := n);
    var sized := InPhase(Copy(from), to, Committing, n, SizeOf(s.files, to), None);
    hide Leads, Moves;
    MoveClose(s, started);
    SizesAlone(s, closed);
    LeadsOn(s, started, CloseStage, s, closed, [SizeSource(true), SizeTarget(true)], s, sized);
    assert [CloseStage] + [SizeSource(true), SizeTarget(true)] == [CloseStage, SizeSource(true), SizeTarget(true)];
  }

  lemma SizesAlone(s: State, op: Op)
    requires op.phase == Closed && op.kind.Copy?
    ensures Leads(s, op, [SizeSource(true), SizeTarget(true)], s,
                  op.(phase := Committing, counted := SizeOf(s.files, op.kind.from),
                      prior := SizeOf(s.files, op.path), seen := None))
  {
    var counted := op.(phase := Counted, counted := SizeOf(s.files, op.kind.from));
    var sized := counted.(phase := Committing, prior := SizeOf(s.files, op.path), seen := None);
    hide Leads, Moves;
    MoveSizes(s, op);
    MoveSizes(s, counted);
    LastMove(s, counted, SizeTarget(true), s, sized);
    LeadsOn(s, op, SizeSource(true), s, counted, [SizeTarget(true)], s, sized);
    assert [SizeSource(true)] + [SizeTarget(true)] == [SizeSource(true), SizeTarget(true)];
  }

  lemma MoveRename(s: State, op: Op)
    requires !op.placed && !op.removed && op.seen.None?
    ensures op.phase == Renaming ==>
              && Moves(s, op, RenameTry(Done), s.(files := s.files[op.path := op.staged]), op.(phase := Finished))
              && Moves(s, op, RenameTry(Failed), s, op.(phase := Falling))
    ensures op.phase == Falling ==>
              && Moves(s, op, FallRemove(true), s.(files := s.files - {op.path}),
                       op.(phase := Retrying, removed := true))
              && Moves(s, op, FallRemove(false), s, op.(phase := Retrying))
  {
  }

  lemma MoveRetry(s: State, op: Op)
    requires op.phase == Retrying && !op.placed && op.seen.None?
    ensures Moves(s, op, RenameRetry(Done), s.(files := s.files[op.path := op.staged]), op.(phase := Finished))
    ensures Moves(s, op, RenameRetry(Failed), s, op.(phase := Undoing))
  {
  }

  /** The first rename works; or it is refused, the target is removed, and the second
      one works. Either way the object is in place. */
  lemma PlaceAlone(s: State, kind: Kind, path: Path, bytes: nat, prior: nat)
    requires !kind.Delete?
    ensures var op := InPhase(kind, path, Renaming, bytes, prior, None);
            var t := s.(files := s.files[path := bytes]);
            && Leads(s, op, [RenameTry(Done)], t, op.(phase := Finished))
            && Leads(s, op, [RenameTry(Failed), FallRemove(true), RenameRetry(Done)], t,
                     op.(phase := Finished, removed := true))
  {
    var op := InPhase(kind, path, Renaming, bytes, prior, None);
    DoneAlone(s, op);
    FallenAlone(s, op);
    hide Leads;
  }

  lemma DoneAlone(s: State, op: Op)
    requires op.phase == Renaming && !op.placed && !op.removed && op.seen.None?
    ensures Leads(s, op, [RenameTry(Done)], s.(files := s.files[op.path := op.staged]), op.(phase := Finished))
  {
    hide Leads, Moves;
    MoveRename(s, op);
    LastMove(s, op, RenameTry(Done), s.(files := s.files[op.path := op.staged]), op.(phase := Finished));
  }

  lemma FallenAlone(s: State, op: Op)
    requires op.phase == Renaming && op.seen.None? && !op.placed && !op.removed
    ensures Leads(s, op, [RenameTry(Failed), FallRemove(true), RenameRetry(Done)],
                  s.(files := s.files[op.path := op.staged]), op.(phase := Finished, removed := true))
  {
    var t, failed := s.(files := s.files[op.path := op.staged]), op.(phase := Falling);
    hide Leads, Moves;
    FallbackAlone(s, failed);
    MoveRename(s, op);
    LeadsOn(s, op, RenameTry(Failed), s, failed, [FallRemove(true), RenameRetry(Done)],
            t, op.(phase := Finished, removed := true));
    assert [RenameTry(Failed)] + [FallRemove(true), RenameRetry(Done)]
        == [RenameTry(Failed), FallRemove(true), RenameRetry(Done)];
  }

  lemma FallbackAlone(s: State, op: Op)
    requires op.phase == Falling && op.seen.None? && !op.placed && !op.removed
    ensures Leads(s, op, [FallRemove(true), RenameRetry(Done)], s.(files := s.files[op.path := op.staged]),
                  op.(phase := Finished, removed := true))
  {
    var gone, retry := s.(files := s.files - {op.path}), op.(phase := Retrying, removed := true);
    var t, done := s.(files := s.files[op.path := op.staged]), op.(phase := Finished, removed := true);
    assert (s.files - {op.path})[op.path := op.staged] == s.files[op.path := op.staged];
    hide Leads, Moves;
    MoveRename(s, op);
    MoveRetry(gone, retry);
    LastMove(gone, retry, RenameRetry(Done), t, done);
    LeadsOn(s, op, FallRemove(true), gone, retry, [RenameRetry(Done)], t, done);
    assert [FallRemove(true)] + [RenameRetry(Done)] == [FallRemove(true), RenameRetry(Done)];
  }

  /** Nothing works: the object is not in place and the counter is as before. */
  lemma RollbackAlone(s: State, kind: Kind, path: Path, bytes: nat, prior: nat)
    requires !kind.Delete? && s.cell.Full? && bytes <= s.cell.bytes && s.cell.bytes - bytes + prior <= U64_MAX
    ensures var op := InPhase(kind, path, Renaming, bytes, prior, None);
            var total := s.cell.bytes - bytes + prior;
            Leads(s, op, [RenameTry(Failed), FallRemove(false), RenameRetry(Failed)]
                         + [LoadCounter, Exchange(false), MarkDirty],
                  s.(cell := Full(total, true), history := s.history + [total],
                     undone := s.undone + SatSub(prior, bytes)),
                  op.(phase := RolledBack))
  {
    var op := InPhase(kind, path, Renaming, bytes, prior, None);
    var undoing := op.(phase := Undoing);
    var total := s.cell.bytes - bytes + prior;
    hide Leads;
    RenamesFail(s, op);
    ExchangeAlone(s, undoing);
    assert NewTotal(s.cell.bytes, undoing.Sub(), undoing.Add()) == total;
    LeadsJoin(s, op, [RenameTry(Failed), FallRemove(false), RenameRetry(Failed)], s, undoing,
              [LoadCounter, Exchange(false), MarkDirty], Landed(s, undoing, total, true), op.(phase := RolledBack));
  }

  lemma RenamesFail(s: State, op: Op)
    requires op.phase == Renaming && op.seen.None? && !op.placed && !op.removed
    ensures Leads(s, op, [RenameTry(Failed), FallRemove(false), RenameRetry(Failed)], s, op.(phase := Undoing))
  {
    var failed, retry, undoing := op.(phase := Falling), op.(phase := Retrying), op.(phase := Undoing);
    hide Leads, Moves;
    MoveRename(s, op);
    MoveRename(s, failed);
    MoveRetry(s, retry);
    LastMove(s, retry, RenameRetry(Failed), s, undoing);
    LeadsOn(s, failed, FallRemove(false), s, retry, [RenameRetry(Failed)], s, undoing);
    LeadsOn(s, op, RenameTry(Failed), s, failed, [FallRemove(false)] + [RenameRetry(Failed)], s, undoing);
    assert [RenameTry(Failed)] + ([FallRemove(false)] + [RenameRetry(Failed)])
        == [RenameTry(Failed), FallRemove(false), RenameRetry(Failed)];
  }

  // ── Whole operations ──────────────────────────────────────────────────────

  /** Every action of an undisturbed write or copy after its staging. */
  function Rest(accepted: bool): seq<Action> {
    if accepted then [LoadCounter, Exchange(false), MarkDirty] + [RenameTry(Done)] else [LoadCounter, Exchange(false)]
  }

  /** The object is in place and counted. */
  function Placed(s: State, path: Path, bytes: nat, total: nat): State {
    s.(files := s.files[path := bytes], cell := Full(total, true), history := s.history + [total])
  }

  lemma CommitAndPlace(s: State, kind: Kind, path: Path, bytes: nat)
    requires !kind.Delete? && s.cell.Full? && SizeOf(s.files, path) <= s.cell.bytes
    ensures var prior := SizeOf(s.files, path);
            var total := NewTotal(s.cell.bytes, prior, bytes);
            var op := InPhase(kind, path, Committing, bytes, prior, None);
            if total <= s.limit
            then Leads(s, op, Rest(true),
                       Placed(s, path, bytes, total), op.(phase := Finished))
            else Leads(s, op, Rest(false), s, op.(phase := Rejected))
  {
    var prior := SizeOf(s.files, path);
    var total := NewTotal(s.cell.bytes, prior, bytes);
    var op := InPhase(kind, path, Committing, bytes, prior, None);
    CommitAlone(s, kind, path, bytes, prior);
    if total <= s.limit {
      var mid := s.(cell := Full(total, true), history := s.history + [total]);
      PlaceAlone(mid, kind, path, bytes, prior);
      hide Leads;
      LeadsJoin(s, op, [LoadCounter, Exchange(false), MarkDirty], mid, op.(phase := Renaming),
                [RenameTry(Done)], mid.(files := s.files[path := bytes]), op.(phase := Finished));
    }
  }

  lemma WriteLeads(s: State, path: Path, chunks: seq<nat>, accepted: bool)
    requires s.cell.Full? && SizeOf(s.files, path) <= s.cell.bytes && Sum(chunks) <= U64_MAX
    requires accepted == (NewTotal(s.cell.bytes, SizeOf(s.files, path), Sum(chunks)) <= s.limit)
    ensures var bytes, prior := Sum(chunks), SizeOf(s.files, path);
            Leads(s, Staged(path, 0), Chunks(chunks) + [CloseStage, SizeTarget(true)] + Rest(accepted),
                  if accepted then Placed(s, path, bytes, NewTotal(s.cell.bytes, prior, bytes)) else s,
                  InPhase(Write, path, if accepted then Finished else Rejected, bytes, prior, None))
  {
    var bytes, prior := Sum(chunks), SizeOf(s.files, path);
    var op := InPhase(Write, path, Committing, bytes, prior, None);
    var done := InPhase(Write, path, if accepted then Finished else Rejected, bytes, prior, None);
    var t := if accepted then Placed(s, path, bytes, NewTotal(s.cell.bytes, prior, bytes)) else s;
    hide Leads, Rest, Chunks, Sum, Placed;
    ChunksAlone(s, path, 0, chunks);
    CloseAlone(s, path, bytes);
    CommitAndPlace(s, Write, path, bytes);
    LeadsJoin(s, Staged(path, 0), Chunks(chunks), s, Staged(path, bytes), [CloseStage, SizeTarget(true)], s, op);
    LeadsJoin(s, Staged(path, 0), Chunks(chunks) + [CloseStage, SizeTarget(true)], s, op, Rest(accepted), t, done);
  }

  /** A write in chunks that nothing comes between: accepted exactly when the new
      total is within the limit; then the object has all the bytes and the counter the
      new total, and otherwise neither has changed. */
  lemma WriteAlone(s: State, path: Path, chunks: seq<nat>)
    requires Free(s, path) && s.cell.Full? && SizeOf(s.files, path) <= s.cell.bytes && Sum(chunks) <= U64_MAX
    ensures var total := NewTotal(s.cell.bytes, SizeOf(s.files, path), Sum(chunks));
            var run := [BeginWrite(path)]
                       + Acts(|s.ops|, Chunks(chunks) + [CloseStage, SizeTarget(true)] + Rest(total <= s.limit));
            && ValidRun(s, run)
            && Final(s, run).files == (if total <= s.limit then s.files[path := Sum(chunks)] else s.files)
            && Final(s, run).cell == (if total <= s.limit then Full(total, true) else s.cell)
            && |Final(s, run).ops| == |s.ops| + 1 && Final(s, run).ops[..|s.ops|] == s.ops
            && Final(s, run).ops[|s.ops|].phase == (if total <= s.limit then Finished else Rejected)
  {
    var bytes, prior := Sum(chunks), SizeOf(s.files, path);
    var total := NewTotal(s.cell.bytes, prior, bytes);
    var accepted := total <= s.limit;
    hide Leads, Rest, Chunks, Sum, Enabled, Next, Free;
    WriteLeads(s, path, chunks, accepted);
    WriteBegins(s, path);
    RunBegins(s, BeginWrite(path), Staged(path, 0), Chunks(chunks) + [CloseStage, SizeTarget(true)] + Rest(accepted),
              if accepted then Placed(s, path, bytes, total) else s,
              InPhase(Write, path, if accepted then Finished else Rejected, bytes, prior, None));
  }

  lemma WriteBegins(s: State, path: Path)
    requires Free(s, path)
    ensures Enabled(s, BeginWrite(path)) && Next(s, BeginWrite(path)) == With(s, Staged(path, 0))
  {
  }

  lemma RunBegins(s: State, begin: Step, op: Op, actions: seq<Action>, t: State, done: Op)
    requires Enabled(s, begin) && Next(s, begin) == With(s, op) && Leads(s, op, actions, t, done)
    ensures ValidRun(s, [begin] + Acts(|s.ops|, actions))
    ensures Final(s, [begin] + Acts(|s.ops|, actions)) == With(t, done)
    ensures |With(t, done).ops| == |s.ops| + 1
    ensures With(t, done).ops[..|s.ops|] == s.ops && With(t, done).ops[|s.ops|] == done
  {
    var run := [begin] + Acts(|s.ops|, actions);
    assert run[1..] == Acts(|s.ops|, actions);
    hide Enabled, Next;
  }

  /** A copy that nothing comes between, likewise. */
  lemma CopyAlone(s: State, from: Path, to: Path)
    requires Stable(s, from) && Free(s, to) && from != to && from in s.files
    requires s.cell.Full? && SizeOf(s.files, to) <= s.cell.bytes
    ensures var total := NewTotal(s.cell.bytes, SizeOf(s.files, to), s.files[from]);
            var run := [BeginCopy(from, to)]
                       + Acts(|s.ops|, [CloseStage, SizeSource(true), SizeTarget(true)] + Rest(total <= s.limit));
            && ValidRun(s, run)
            && Final(s, run).files == (if total <= s.limit then s.files[to := s.files[from]] else s.files)
            && Final(s, run).cell == (if total <= s.limit then Full(total, true) else s.cell)
            && |Final(s, run).ops| == |s.ops| + 1
            && Final(s, run).ops[|s.ops|].phase == (if total <= s.limit then Finished else Rejected)
  {
    var bytes, prior := s.files[from], SizeOf(s.files, to);
    var total := NewTotal(s.cell.bytes, prior, bytes);
    var started, op := FreshOp(Copy(from), to, Staging, 0), InPhase(Copy(from), to, Committing, bytes, prior, None);
    var stage := [CloseStage, SizeSource(true), SizeTarget(true)];
    StageCopyAlone(s, from, to);
    CommitAndPlace(s, Copy(from), to, bytes);
    hide Leads, Rest;
    if total <= s.limit {
      var t := s.(files := s.files[to := bytes], cell := Full(total, true), history := s.history + [total]);
      LeadsJoin(s, started, stage, s, op, Rest(true), t, op.(phase := Finished));
      RunBegins(s, BeginCopy(from, to), started, stage + Rest(true), t, op.(phase := Finished));
    } else {
      LeadsJoin(s, started, stage, s, op, Rest(false), s, op.(phase := Rejected));
      RunBegins(s, BeginCopy(from, to), started, stage + Rest(false), s, op.(phase := Rejected));
    }
  }

  /** A deletion in a batch of its own that nothing comes between: the object is gone
      and its size credited. */
  lemma DeleteAlone(s: State, path: Path, batch: nat)
    requires Free(s, path) && batch !in s.closed && s.cell.Full?
    requires SizeOf(s.files, path) <= s.cell.bytes <= U64_MAX
    requires forall k :: 0 <= k < |s.ops| ==> s.ops[k].kind != Delete(batch)
    ensures var i := |s.ops|;
            var run := [BeginDelete(path, batch, true)] + Acts(i, [ApplyDelete]) + [CloseBatch(batch)]
                       + Acts(i, [StartCredit, LoadCounter, Exchange(false), MarkDirty]);
            && ValidRun(s, run)
            && Final(s, run).files == s.files - {path}
            && Final(s, run).cell == Full(s.cell.bytes - SizeOf(s.files, path), true)
            && |Final(s, run).ops| == i + 1 && Final(s, run).ops[i].phase == Credited
  {
    var i, prior := |s.ops|, SizeOf(s.files, path);
    var queued := FreshOp(Delete(batch), path, Queued, prior);
    var gone := s.(files := s.files - {path});
    var total := s.cell.bytes - prior;
    var t := gone.(closed := s.closed + {batch}, cell := Full(total, true), history := s.history + [total]);
    hide Leads, Enabled, Next, ValidRun, Final, Acts, Free;
    RemoveAlone(s, path, batch, queued);
    CreditAlone(gone.(closed := s.closed + {batch}), queued.(phase := Applied), batch, total);
    BatchCloses(gone, queued.(phase := Applied), batch);
    RunBegins(s, BeginDelete(path, batch, true), queued, [ApplyDelete], gone, queued.(phase := Applied));
    RunsJoin(s, [BeginDelete(path, batch, true)] + Acts(i, [ApplyDelete]), [CloseBatch(batch)]);
    DeleteEnds(gone.(closed := s.closed + {batch}), queued.(phase := Applied), t, queued.(phase := Credited));
    RunsJoin(s, [BeginDelete(path, batch, true)] + Acts(i, [ApplyDelete]) + [CloseBatch(batch)],
             Acts(i, [StartCredit, LoadCounter, Exchange(false), MarkDirty]));
  }

  lemma RemoveAlone(s: State, path: Path, batch: nat, queued: Op)
    requires Free(s, path) && batch !in s.closed
    requires queued == FreshOp(Delete(batch), path, Queued, SizeOf(s.files, path))
    ensures Enabled(s, BeginDelete(path, batch, true)) && Next(s, BeginDelete(path, batch, true)) == With(s, queued)
    ensures Leads(s, queued, [ApplyDelete], s.(files := s.files - {path}), queued.(phase := Applied))
  {
    hide Leads;
    LastMove(s, queued, ApplyDelete, s.(files := s.files - {path}), queued.(phase := Applied));
  }

  lemma BatchCloses(s: State, applied: Op, batch: nat)
    requires applied.phase == Applied && forall k :: 0 <= k < |s.ops| ==> s.ops[k].kind != Delete(batch)
    ensures ValidRun(With(s, applied), [CloseBatch(batch)])
    ensures Final(With(s, applied), [CloseBatch(batch)]) == With(s.(closed := s.closed + {batch}), applied)
  {
  }

  lemma DeleteEnds(s: State, op: Op, t: State, done: Op)
    requires Leads(s, op, [StartCredit, LoadCounter, Exchange(false), MarkDirty], t, done)
    ensures var run := Acts(|s.ops|, [StartCredit, LoadCounter, Exchange(false), MarkDirty]);
            && ValidRun(With(s, op), run) && Final(With(s, op), run) == With(t, done)
            && |With(t, done).ops| == |s.ops| + 1 && With(t, done).ops[|s.ops|] == done
  {
  }

  lemma CreditAlone(s: State, op: Op, batch: nat, total: nat)
    requires op.kind == Delete(batch) && op.phase == Applied && op.seen.None? && batch in s.closed && s.cell.Full?
    requires op.prior <= s.cell.bytes <= U64_MAX && total == s.cell.bytes - op.prior
    ensures Leads(s, op, [StartCredit, LoadCounter, Exchange(false), MarkDirty],
                  s.(cell := Full(total, true), history := s.history + [total]), op.(phase := Credited))
  {
    var crediting := op.(phase := Crediting);
    ExchangeAlone(s, crediting);
    assert Moves(s, op, StartCredit, s, crediting);
    hide Leads, Moves;
    LeadsOn(s, op, StartCredit, s, crediting, [LoadCounter, Exchange(false), MarkDirty],
            Landed(s, crediting, total, true), op.(phase := Credited));
    assert [StartCredit] + [LoadCounter, Exchange(false), MarkDirty]
        == [StartCredit, LoadCounter, Exchange(false), MarkDirty];
  }

  // ── Loading, resetting, restarting ────────────────────────────────────────

  /** A write or copy whose id cannot be loaded is rejected and changes nothing. */
  lemma UnloadedAlone(s: State, op: Op)
    requires op.phase == Committing && op.seen.None? && !s.cell.Full?
    ensures Leads(s, op, [Unloaded], s, op.(phase := Rejected))
  {
    hide Leads;
    LastMove(s, op, Unloaded, s, op.(phase := Rejected));
  }

  /** The first touch loads what the tracker holds, or leaves the id untouched. */
  lemma LoadAlone(s: State)
    requires s.cell.Empty?
    ensures ValidRun(s, [BeginLoad, FinishLoad]) && ValidRun(s, [BeginLoad, FailLoad])
    ensures Final(s, [BeginLoad, FinishLoad]).cell == Full(s.persisted, false)
    ensures Final(s, [BeginLoad, FailLoad]) == s
  {
    assert [BeginLoad, FinishLoad][1..] == [FinishLoad] && [BeginLoad, FailLoad][1..] == [FailLoad];
    var t := Next(s, BeginLoad);
    assert ValidRun(Next(t, FinishLoad), []) && ValidRun(Next(t, FailLoad), []);
  }

  /** A reset leaves the id at zero and due for the tracker, loaded or not. */
  lemma ResetAlone(s: State)
    requires s.cell.Full?
    ensures ValidRun(s, [ResetStore, ResetMark]) && Final(s, [ResetStore, ResetMark]).cell == Full(0, true)
    ensures Final(s, [ResetStore, ResetMark]).files == s.files && Final(s, [ResetStore, ResetMark]).ops == s.ops
  {
    assert [ResetStore, ResetMark][1..] == [ResetMark];
    assert ValidRun(Next(Next(s, ResetStore), ResetMark), []);
  }

  /** Each of several resets in flight marks the id once. */
  lemma ResetsAlone(s: State)
    requires s.cell.Full? && s.resets == 0
    ensures var run := [ResetStore, ResetStore, ResetMark, ResetMark];
            && ValidRun(s, run) && Final(s, run) == s.(cell := Full(0, true), history := s.history + [0, 0])
  {
    var a := Next(s, ResetStore);
    var b := Next(a, ResetStore);
    var c := Next(b, ResetMark);
    var d := Next(c, ResetMark);
    assert [ResetStore, ResetStore, ResetMark, ResetMark][1..] == [ResetStore, ResetMark, ResetMark];
    assert [ResetStore, ResetMark, ResetMark][1..] == [ResetMark, ResetMark];
    assert [ResetMark, ResetMark][1..] == [ResetMark];
    assert ValidRun(d, []) && ValidRun(c, [ResetMark]) && ValidRun(b, [ResetMark, ResetMark]);
    assert s.history + [0] + [0] == s.history + [0, 0];
  }

  lemma ResetUntouched(s: State)
    requires s.cell.Empty?
    ensures Enabled(s, ResetStore) && Next(s, ResetStore).cell == Full(0, true) && Next(s, ResetStore).files == s.files
  {
  }

  /** A crash loses what is in memory, and nothing else. */
  lemma CrashLosesMemory(s: State)
    ensures var t := Next(s, Crash);
            && t.files == s.files && t.persisted == s.persisted && t.limit == s.limit
            && t.cell.Empty? && t.ops == [] && t.sync.Idle?
  {
  }
}
